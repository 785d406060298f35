/**
 Query resolution (internal/radix/resolve.go): the walk down the tree, and the answer
 as a function of the stored map alone. ResolveIsSpec says the two agree.
 */
module Resolution {
  import opened Octets
  import opened Records
  import opened Names
  import opened Zones
  import opened Tries

  datatype Query = Query(domain: Bytes, qt: U16)
  datatype Authority = Authority(rrset: RRSet, name: Bytes)
  datatype Outcome = Stop(result: Result) | Go(auth: Authority)

  const NO_AUTHORITY: Authority := Authority(ZERO_SET, [DOT])

  /** The name the iterator has covered when it stands at cursor. */
  function FormatName(d: Bytes, cursor: nat): Bytes
    requires cursor <= |d|
  {
    if cursor == |d| then [DOT] else if cursor > 0 then d[cursor + 1..] else d
  }

  // ---- the walk ----

  /** A zone cut stops the walk; an SOA becomes the authority of negative answers. */
  function Evaluate(rr: RRSets, q: Query, cursor: nat, auth: Authority): Outcome
    requires cursor <= |q.domain|
  {
    if rr == [] then Go(auth)
    else match Search(rr, TYPE_SOA)
         case Some(soa) => Go(Authority(soa, FormatName(q.domain, cursor)))
         case None =>
           match Search(rr, TYPE_NS)
           case Some(ns) =>
             if q.qt != TYPE_DS || cursor != 0
             then Stop(Result(Success, ZERO_SET, ns, FormatName(q.domain, cursor)))
             else Go(auth)
           case None => Go(auth)
  }

  function ResolveAt(rr: RRSets, qt: U16, auth: Authority): (r: Result)
    ensures r.rcode == Success
    ensures r.answer == ZERO_SET || (r.answer in rr && r.authority == ZERO_SET && r.authorityName == [])
  {
    if qt == TYPE_ANY && rr != [] then Result(Success, rr[0], ZERO_SET, [])
    else match Search(rr, qt)
         case Some(x) => Result(Success, x, ZERO_SET, [])
         case None =>
           if qt != TYPE_CNAME && Search(rr, TYPE_CNAME).Some?
           then Result(Success, Search(rr, TYPE_CNAME).value, ZERO_SET, [])
           else Result(Success, ZERO_SET, auth.rrset, auth.name)
  }

  function NameErrorResult(auth: Authority): Result {
    Result(NameError, ZERO_SET, auth.rrset, auth.name)
  }

  function WildcardResolve(fb: RRSets, qt: U16, auth: Authority): Result {
    if fb == [] then NameErrorResult(auth) else ResolveAt(fb, qt, auth)
  }

  function RecordsOf(t: Option<Trie>): RRSets {
    match t case None => [] case Some(x) => x.rr
  }

  ghost predicate HopsWithin(hs: seq<Hop>, q: Query) {
    forall i :: 0 <= i < |hs| ==> hs[i].cursor <= |q.domain|
  }

  /** From node t, already evaluated, down the remaining hops. fb is the deepest "*" passed so far. */
  function Descend(t: Trie, hs: seq<Hop>, q: Query, fb: Option<Trie>, auth: Authority): Result
    requires HopsWithin(hs, q)
    decreases |hs|
  {
    if hs == [] then
      if !Bare(t) then ResolveAt(t.rr, q.qt, auth)
      else if fb.Some? then WildcardResolve(fb.value.rr, q.qt, auth)
      else NameErrorResult(auth)
    else
      var fb' := if t.wild.Some? then t.wild else fb;
      match Child(t, hs[0].lab)
      case None => WildcardResolve(RecordsOf(fb'), q.qt, auth)
      case Some(c) =>
        match Evaluate(c.rr, q, hs[0].cursor, auth)
        case Stop(r) => r
        case Go(a) => Descend(c, hs[1..], q, fb', a)
  }

  lemma {:induction false} HopsAreWithin(d: Bytes, c: nat)
    requires c <= |d|
    ensures forall i :: 0 <= i < |Hops(d, c)| ==> Hops(d, c)[i].cursor < c
  {
    match NextStep(d, c)
    case Done =>
    case Found(l, k) => HopsAreWithin(d, k);
  }

  function QueryHops(q: Query): (hs: seq<Hop>)
    ensures HopsWithin(hs, q)
  {
    HopsAreWithin(q.domain, |q.domain|);
    Hops(q.domain, |q.domain|)
  }

  function ResolveTrie(t: Trie, q: Query): Result {
    match Evaluate(t.rr, q, |q.domain|, NO_AUTHORITY)
    case Stop(r) => r
    case Go(a) => Descend(t, QueryHops(q), q, None, a)
  }

  // ---- the answer from the map alone ----

  function At(hs: seq<Hop>, i: nat): Path
    requires i <= |hs|
  {
    LabelsOf(hs)[..i]
  }

  function CursorAt(q: Query, hs: seq<Hop>, i: nat): (c: nat)
    requires i <= |hs| && HopsWithin(hs, q)
    ensures c <= |q.domain|
  {
    if i == 0 then |q.domain| else hs[i - 1].cursor
  }

  /** NS without SOA at the i-th name of the path, unless this is a DS query for exactly that name. */
  ghost predicate IsCut(m: Zone, q: Query, hs: seq<Hop>, i: nat)
    requires i <= |hs| && HopsWithin(hs, q)
  {
    && At(hs, i) in m && Has(m[At(hs, i)], TYPE_NS) && !Has(m[At(hs, i)], TYPE_SOA)
    && !(q.qt == TYPE_DS && CursorAt(q, hs, i) == 0)
  }

  ghost predicate IsApex(m: Zone, hs: seq<Hop>, i: nat)
    requires i <= |hs|
  {
    At(hs, i) in m && Has(m[At(hs, i)], TYPE_SOA)
  }

  /** A "*" node hangs below the i-th name of the path. */
  ghost predicate HasStar(m: Zone, hs: seq<Hop>, i: nat)
    requires i <= |hs|
  {
    Under(m, At(hs, i) + [WILD])
  }

  ghost function TopCut(m: Zone, q: Query, hs: seq<Hop>, i: nat): (r: Option<nat>)
    requires i <= |hs| && HopsWithin(hs, q)
    ensures r.None? ==> forall k :: i <= k <= |hs| ==> !IsCut(m, q, hs, k)
    ensures r.Some? ==> i <= r.value <= |hs| && IsCut(m, q, hs, r.value)
    ensures r.Some? ==> forall k :: i <= k < r.value ==> !IsCut(m, q, hs, k)
    decreases |hs| - i
  {
    if IsCut(m, q, hs, i) then Some(i)
    else if i == |hs| then None
    else TopCut(m, q, hs, i + 1)
  }

  ghost function DeepestApex(m: Zone, hs: seq<Hop>, i: nat): (r: Option<nat>)
    requires i <= |hs|
    ensures r.None? ==> forall k :: 0 <= k <= i ==> !IsApex(m, hs, k)
    ensures r.Some? ==> r.value <= i && IsApex(m, hs, r.value)
    ensures r.Some? ==> forall k :: r.value < k <= i ==> !IsApex(m, hs, k)
  {
    if IsApex(m, hs, i) then Some(i) else if i == 0 then None else DeepestApex(m, hs, i - 1)
  }

  /** The deepest "*" below the first i names of the path. */
  ghost function DeepestStar(m: Zone, hs: seq<Hop>, i: nat): (r: Option<nat>)
    requires i <= |hs|
    ensures r.None? ==> forall k :: 0 <= k < i ==> !HasStar(m, hs, k)
    ensures r.Some? ==> r.value < i && HasStar(m, hs, r.value)
    ensures r.Some? ==> forall k :: r.value < k < i ==> !HasStar(m, hs, k)
  {
    if i == 0 then None else if HasStar(m, hs, i - 1) then Some(i - 1) else DeepestStar(m, hs, i - 1)
  }

  ghost function AuthorityOf(m: Zone, q: Query, hs: seq<Hop>, i: nat): Authority
    requires i <= |hs| && HopsWithin(hs, q)
  {
    match DeepestApex(m, hs, i)
    case None => NO_AUTHORITY
    case Some(k) => Authority(Search(m[At(hs, k)], TYPE_SOA).value, FormatName(q.domain, CursorAt(q, hs, k)))
  }

  ghost function StarRecords(m: Zone, hs: seq<Hop>, i: nat): RRSets
    requires i <= |hs|
  {
    match DeepestStar(m, hs, i)
    case None => []
    case Some(k) => RecordsAt(m, At(hs, k) + [WILD])
  }

  /**
   Topmost zone cut on the path, else the name itself if it or anything below it is stored,
   else the deepest "*" on the path; the deepest SOA on the path is the authority.
   */
  ghost function SpecResolve(m: Zone, q: Query): Result {
    SpecOnHops(m, q, QueryHops(q))
  }

  ghost function SpecOnHops(m: Zone, q: Query, hs: seq<Hop>): Result
    requires HopsWithin(hs, q)
  {
    var p := LabelsOf(hs);
    var auth := AuthorityOf(m, q, hs, |hs|);
    match TopCut(m, q, hs, 0)
    case Some(i) =>
      Result(Success, ZERO_SET, Search(m[At(hs, i)], TYPE_NS).value, FormatName(q.domain, CursorAt(q, hs, i)))
    case None =>
      if Under(m, p) then ResolveAt(RecordsAt(m, p), q.qt, auth)
      else WildcardResolve(StarRecords(m, hs, |hs|), q.qt, auth)
  }

  // ---- agreement ----

  lemma EvaluateMeans(m: Zone, q: Query, hs: seq<Hop>, i: nat, rr: RRSets, auth: Authority)
    requires i <= |hs| && HopsWithin(hs, q) && rr == RecordsAt(m, At(hs, i))
    ensures Evaluate(rr, q, CursorAt(q, hs, i), auth) ==
            if IsCut(m, q, hs, i) then
              Stop(Result(Success, ZERO_SET, Search(rr, TYPE_NS).value, FormatName(q.domain, CursorAt(q, hs, i))))
            else if IsApex(m, hs, i) then
              Go(Authority(Search(rr, TYPE_SOA).value, FormatName(q.domain, CursorAt(q, hs, i))))
            else Go(auth)
  {
  }

  lemma LookupIsRecordsAt(t: Trie, m: Zone, p: Path)
    requires Denotes(t, m)
    ensures Lookup(t, p) == RecordsAt(m, p)
  {
  }

  lemma UnderShorter(m: Zone, p: Path, longer: Path)
    requires p <= longer && Under(m, longer)
    ensures Under(m, p)
  {
    var k :| k in m && longer <= k;
    assert p <= k;
  }

  lemma StoredIsUnder(m: Zone, p: Path)
    requires p in m
    ensures Under(m, p)
  {
    assert p <= p;
  }

  lemma {:induction j} ApexStable(m: Zone, hs: seq<Hop>, i: nat, j: nat)
    requires i <= j <= |hs| && forall k :: i < k <= j ==> !IsApex(m, hs, k)
    ensures DeepestApex(m, hs, j) == DeepestApex(m, hs, i)
  {
  }

  lemma {:induction j} StarStable(m: Zone, hs: seq<Hop>, i: nat, j: nat)
    requires i <= j <= |hs| && forall k :: i <= k < j ==> !HasStar(m, hs, k)
    ensures DeepestStar(m, hs, j) == DeepestStar(m, hs, i)
  {
  }

  /** Where the path leaves the tree, nothing deeper on it is stored. */
  lemma NothingBeyond(m: Zone, q: Query, hs: seq<Hop>, i: nat)
    requires i < |hs| && HopsWithin(hs, q) && !Under(m, At(hs, i + 1))
    ensures !Under(m, LabelsOf(hs))
    ensures forall k :: i < k <= |hs| ==> !IsCut(m, q, hs, k)
    ensures AuthorityOf(m, q, hs, |hs|) == AuthorityOf(m, q, hs, i)
    ensures StarRecords(m, hs, |hs|) == StarRecords(m, hs, i + 1)
  {
    hide Under, DeepestApex, DeepestStar, Has, Search, LabelsOf;
    forall k | i < k <= |hs|
      ensures !Under(m, At(hs, k)) && At(hs, k) !in m && !HasStar(m, hs, k)
    {
      assert At(hs, i + 1) <= At(hs, k);
      if At(hs, k) in m { StoredIsUnder(m, At(hs, k)); }
      if Under(m, At(hs, k)) { UnderShorter(m, At(hs, i + 1), At(hs, k)); }
      if HasStar(m, hs, k) { UnderShorter(m, At(hs, k), At(hs, k) + [WILD]); }
    }
    assert At(hs, |hs|) == LabelsOf(hs);
    ApexStable(m, hs, i, |hs|);
    StarStable(m, hs, i + 1, |hs|);
  }

  lemma StarStep(t: Trie, m: Zone, hs: seq<Hop>, i: nat, node: Trie)
    requires WF(t) && Denotes(t, m) && i < |hs| && NodeAt(t, At(hs, i)) == Some(node)
    ensures node.wild.Some? <==> HasStar(m, hs, i)
    ensures StarRecords(m, hs, i + 1) == if node.wild.Some? then node.wild.value.rr else StarRecords(m, hs, i)
  {
    var s := At(hs, i) + [WILD];
    NodeAtAppend(t, At(hs, i), [WILD]);
    var one: Path := [WILD];
    assert NodeAt(node, one) == node.wild by { assert one[1..] == []; }
    NodeExistsIff(t, m, s);
    LookupIsRecordsAt(t, m, s);
  }

  lemma ChildStep(t: Trie, m: Zone, hs: seq<Hop>, i: nat, node: Trie)
    requires WF(t) && Denotes(t, m) && i < |hs| && NodeAt(t, At(hs, i)) == Some(node)
    ensures NodeAt(t, At(hs, i + 1)) == Child(node, hs[i].lab)
    ensures Child(node, hs[i].lab).None? ==> !Under(m, At(hs, i + 1))
    ensures Child(node, hs[i].lab).Some? ==> Child(node, hs[i].lab).value.rr == RecordsAt(m, At(hs, i + 1))
  {
    var l := hs[i].lab;
    assert At(hs, i + 1) == At(hs, i) + [l];
    NodeAtAppend(t, At(hs, i), [l]);
    var one: Path := [l];
    assert NodeAt(node, one) == Child(node, l) by { assert one[1..] == []; }
    NodeExistsIff(t, m, At(hs, i + 1));
    LookupIsRecordsAt(t, m, At(hs, i + 1));
  }

  lemma AtTheEnd(t: Trie, m: Zone, p: Path, node: Trie)
    requires WF(t) && Denotes(t, m) && NodeAt(t, p) == Some(node)
    ensures node.rr == RecordsAt(m, p)
    ensures Under(m, p) <==> !Bare(node)
    ensures Bare(node) ==> p == []
  {
    LookupIsRecordsAt(t, m, p);
    NodeExistsIff(t, m, p);
    NodeAtWF(t, p);
    if p == [] {
      if !Bare(t) {
        var w := LiveHasName(t);
        assert w in m && p <= w;
      } else {
        assert t == EMPTY;
        EmptyDenotes();
      }
    }
  }

  /** The walk stands at node, i labels deep, having met no cut. */
  ghost predicate Standing(t: Trie, m: Zone, q: Query, hs: seq<Hop>, i: nat, node: Trie, fb: Option<Trie>,
                           auth: Authority) {
    && WF(t) && Denotes(t, m) && HopsWithin(hs, q)
    && i <= |hs| && NodeAt(t, At(hs, i)) == Some(node)
    && (forall k :: 0 <= k <= i ==> !IsCut(m, q, hs, k))
    && auth == AuthorityOf(m, q, hs, i)
    && RecordsOf(fb) == StarRecords(m, hs, i)
    && (i == 0 ==> fb.None?)
  }

  lemma DescendEnds(t: Trie, m: Zone, q: Query, hs: seq<Hop>, node: Trie, fb: Option<Trie>, auth: Authority)
    requires Standing(t, m, q, hs, |hs|, node, fb, auth)
    ensures Descend(node, [], q, fb, auth) == SpecOnHops(m, q, hs)
  {
    assert At(hs, |hs|) == LabelsOf(hs);
    AtTheEnd(t, m, LabelsOf(hs), node);
  }

  lemma DescendLeaves(t: Trie, m: Zone, q: Query, hs: seq<Hop>, i: nat, node: Trie, fb: Option<Trie>, auth: Authority)
    requires Standing(t, m, q, hs, i, node, fb, auth) && i < |hs| && Child(node, hs[i].lab).None?
    ensures WildcardResolve(RecordsOf(if node.wild.Some? then node.wild else fb), q.qt, auth) == SpecOnHops(m, q, hs)
  {
    StarStep(t, m, hs, i, node);
    ChildStep(t, m, hs, i, node);
    NothingBeyond(m, q, hs, i);
  }

  lemma FirstCutIsTop(m: Zone, q: Query, hs: seq<Hop>, i: nat)
    requires i <= |hs| && HopsWithin(hs, q) && IsCut(m, q, hs, i) && forall k :: 0 <= k < i ==> !IsCut(m, q, hs, k)
    ensures TopCut(m, q, hs, 0) == Some(i)
  {
    hide IsCut, TopCut;
  }

  lemma DescendCuts(m: Zone, q: Query, hs: seq<Hop>, i: nat)
    requires i <= |hs| && HopsWithin(hs, q) && IsCut(m, q, hs, i) && forall k :: 0 <= k < i ==> !IsCut(m, q, hs, k)
    ensures SpecOnHops(m, q, hs) ==
            Result(Success, ZERO_SET, Search(m[At(hs, i)], TYPE_NS).value, FormatName(q.domain, CursorAt(q, hs, i)))
  {
    hide AuthorityOf, Under, TopCut, WildcardResolve, ResolveAt, StarRecords;
    FirstCutIsTop(m, q, hs, i);
  }

  lemma DescendSteps(t: Trie, m: Zone, q: Query, hs: seq<Hop>, i: nat, node: Trie, fb: Option<Trie>, auth: Authority)
    requires Standing(t, m, q, hs, i, node, fb, auth) && i < |hs| && Child(node, hs[i].lab).Some?
    ensures var c := Child(node, hs[i].lab).value;
            match Evaluate(c.rr, q, hs[i].cursor, auth)
            case Stop(r) => r == SpecOnHops(m, q, hs)
            case Go(a) => Standing(t, m, q, hs, i + 1, c, if node.wild.Some? then node.wild else fb, a)
  {
    hide Search, Under, SpecOnHops, Evaluate, NodeAt, WF, Denotes, IsCut, Child, StarRecords, FormatName;
    StarStep(t, m, hs, i, node);
    ChildStep(t, m, hs, i, node);
    var c := Child(node, hs[i].lab).value;
    EvaluateMeans(m, q, hs, i + 1, c.rr, auth);
    if IsCut(m, q, hs, i + 1) {
      DescendCuts(m, q, hs, i + 1);
      CutIsStored(m, q, hs, i + 1);
    }
  }

  lemma CutIsStored(m: Zone, q: Query, hs: seq<Hop>, i: nat)
    requires i <= |hs| && HopsWithin(hs, q) && IsCut(m, q, hs, i)
    ensures At(hs, i) in m && Search(m[At(hs, i)], TYPE_NS).Some?
  {
  }

  lemma {:induction false} DescendIsSpec(t: Trie, m: Zone, q: Query, hs: seq<Hop>, i: nat, node: Trie,
                                         fb: Option<Trie>, auth: Authority)
    requires Standing(t, m, q, hs, i, node, fb, auth)
    ensures Descend(node, hs[i..], q, fb, auth) == SpecOnHops(m, q, hs)
    decreases |hs| - i
  {
    hide SpecOnHops, NodeAt, WF, Denotes, Evaluate, WildcardResolve, ResolveAt, Child;
    if i == |hs| {
      DescendEnds(t, m, q, hs, node, fb, auth);
    } else {
      assert hs[i..][1..] == hs[i + 1..];
      match Child(node, hs[i].lab)
      case None => DescendLeaves(t, m, q, hs, i, node, fb, auth);
      case Some(c) =>
        DescendSteps(t, m, q, hs, i, node, fb, auth);
        match Evaluate(c.rr, q, hs[i].cursor, auth)
        case Stop(_) =>
        case Go(a) => DescendIsSpec(t, m, q, hs, i + 1, c, if node.wild.Some? then node.wild else fb, a);
    }
  }

  /** For every tree, every text and every type: the walk gives the answer the map alone determines. */
  lemma ResolveIsSpec(t: Trie, m: Zone, q: Query)
    requires WF(t) && Denotes(t, m)
    ensures ResolveTrie(t, q) == SpecResolve(m, q)
  {
    var hs := QueryHops(q);
    assert At(hs, 0) == [];
    LookupIsRecordsAt(t, m, []);
    EvaluateMeans(m, q, hs, 0, t.rr, NO_AUTHORITY);
    if !IsCut(m, q, hs, 0) {
      DescendIsSpec(t, m, q, hs, 0, t, None, AuthorityOf(m, q, hs, 0));
      assert hs[0..] == hs;
    }
  }
}
