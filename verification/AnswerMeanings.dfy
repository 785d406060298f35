/**
 What an answer of the tree says (internal/radix/resolve.go), in terms of the stored map alone: the response code, the
 set that answers, and the authority.
 */
module AnswerMeanings {
  import opened Octets
  import opened Records
  import opened Names
  import opened Zones
  import opened Tries
  import opened Resolution

  // ---- positions of the walk ----

  lemma {:induction false} HopsRest(d: Bytes, c: nat, i: nat)
    requires c <= |d| && 0 < i <= |Hops(d, c)|
    ensures Hops(d, c)[i - 1].cursor < c && Hops(d, c)[i..] == Hops(d, Hops(d, c)[i - 1].cursor)
    decreases c
  {
    match NextStep(d, c)
    case Done =>
    case Found(l, k) =>
      assert Hops(d, c) == [Hop(LowerAll(l), k)] + Hops(d, k);
      if i > 1 {
        HopsRest(d, k, i - 1);
        assert Hops(d, c)[i..] == Hops(d, k)[i - 1..];
      }
  }

  lemma {:induction false} CursorOnDot(d: Bytes, c: nat, i: nat)
    requires c <= |d| && i < |Hops(d, c)| && Hops(d, c)[i].cursor > 0
    ensures Hops(d, c)[i].cursor < |d| && d[Hops(d, c)[i].cursor] == DOT
    decreases c
  {
    hide Hops, LowerAll;
    if c == 0 { HopsAtStart(d); }
    HopsStep(d, c);
    var k := LastDot(d, c);
    if k >= 0 && k + 1 == c { CursorOnDot(d, k, i); }
    if k >= 0 && k + 1 < c && i > 0 { CursorOnDot(d, k, i - 1); }
  }

  /** The text of the walk's position denotes the path walked so far. */
  lemma FormatPath(q: Query, i: nat)
    requires i <= |QueryHops(q)|
    ensures PathOf(FormatName(q.domain, CursorAt(q, QueryHops(q), i))) == At(QueryHops(q), i)
  {
    hide Hops;
    var d, hs := q.domain, QueryHops(q);
    if i == 0 {
      DotIsRoot();
    } else {
      var c := hs[i - 1].cursor;
      HopsRest(d, |d|, i);
      if c == 0 {
        HopsAtStart(d);
      } else {
        CursorOnDot(d, |d|, i - 1);
        assert d == d[..c] + [DOT] + d[c + 1..];
        PathOfDotted(d[..c], d[c + 1..]);
        HopsPrefix(d[..c], d, c);
        assert PathOf(d) == LabelsOf(hs);
        assert LabelsOf(hs)[i..] == LabelsOf(hs[i..]);
        assert |PathOf(d[c + 1..])| == i;
      }
    }
  }

  lemma DotIsRoot()
    ensures PathOf([DOT]) == []
  {
  }

  lemma PathOfQuery(q: Query)
    ensures LabelsOf(QueryHops(q)) == PathOf(q.domain)
  {
  }

  // ---- what the map says about a query ----

  /** x is the first set of type t among rr. */
  ghost predicate FirstOf(rr: RRSets, t: U16, x: RRSet) {
    exists i :: 0 <= i < |rr| && rr[i] == x && x.rtype == t && forall j :: 0 <= j < i ==> rr[j].rtype != t
  }

  /** The name i labels down the path of the query. */
  function Above(q: Query, i: nat): Path
    requires i <= |PathOf(q.domain)|
  {
    PathOf(q.domain)[..i]
  }

  /** NS without SOA, unless the query is for the DS of exactly that name. */
  ghost predicate CutAt(m: Zone, q: Query, i: nat) {
    && i <= |PathOf(q.domain)|
    && var rr := RecordsAt(m, Above(q, i));
       Has(rr, TYPE_NS) && !Has(rr, TYPE_SOA) && !(q.qt == TYPE_DS && CursorAt(q, QueryHops(q), i) == 0)
  }

  ghost predicate ApexAt(m: Zone, q: Query, i: nat) {
    i <= |PathOf(q.domain)| && Has(RecordsAt(m, Above(q, i)), TYPE_SOA)
  }

  /** Something is stored at or below the "*" under the i-th name. */
  ghost predicate StarAt(m: Zone, q: Query, i: nat) {
    i < |PathOf(q.domain)| && exists k :: k in m && Above(q, i) + [[STAR]] <= k
  }

  /** The records that answer when no cut comes first: those of the name if it exists, else of the deepest "*". */
  ghost predicate Responds(m: Zone, q: Query, rr: RRSets) {
    if exists k :: k in m && PathOf(q.domain) <= k then rr == RecordsAt(m, PathOf(q.domain))
    else if exists i: nat :: StarAt(m, q, i) then
      exists i: nat ::
        StarAt(m, q, i) && (forall k: nat :: StarAt(m, q, k) ==> k <= i) && rr == RecordsAt(m, Above(q, i) + [[STAR]])
    else rr == []
  }

  /** The name is a spelling, taken from the query, of the i-th name on the path. */
  ghost predicate NamedAt(q: Query, name: Bytes, i: nat) {
    && i <= |PathOf(q.domain)| && PathOf(name) == Above(q, i)
    && if i == 0 then name == [DOT] else exists k :: 0 <= k <= |q.domain| && name == q.domain[k..]
  }

  /** The deepest SOA on the path, or nothing. */
  ghost predicate NegativeAuthority(m: Zone, q: Query, r: Result) {
    if exists i: nat :: ApexAt(m, q, i) then
      exists i: nat ::
        && ApexAt(m, q, i) && (forall k: nat :: ApexAt(m, q, k) ==> k <= i)
        && FirstOf(RecordsAt(m, Above(q, i)), TYPE_SOA, r.authority) && NamedAt(q, r.authorityName, i)
    else r.authority == ZERO_SET && r.authorityName == [DOT]
  }

  ghost predicate NoAuthority(r: Result) {
    r.authority == ZERO_SET && r.authorityName == []
  }

  /** ANY takes the first set; else the type asked for; else a CNAME; else nothing. */
  ghost predicate Picked(m: Zone, q: Query, rr: RRSets, r: Result) {
    if q.qt == TYPE_ANY && rr != [] then r.answer == rr[0] && NoAuthority(r)
    else if Has(rr, q.qt) then FirstOf(rr, q.qt, r.answer) && NoAuthority(r)
    else if q.qt != TYPE_CNAME && Has(rr, TYPE_CNAME) then FirstOf(rr, TYPE_CNAME, r.answer) && NoAuthority(r)
    else r.answer == ZERO_SET && NegativeAuthority(m, q, r)
  }

  /** The name does not exist: nothing stored at or below it, and no wildcard with records stands in. */
  ghost predicate Missing(m: Zone, q: Query) {
    (forall k :: k in m ==> !(PathOf(q.domain) <= k)) && Responds(m, q, [])
  }

  /** What a result must be. */
  ghost predicate Answers(m: Zone, q: Query, r: Result) {
    if exists i: nat :: CutAt(m, q, i) then
      exists i: nat ::
        && CutAt(m, q, i) && (forall k: nat :: CutAt(m, q, k) ==> i <= k)
        && r.rcode == Success && r.answer == ZERO_SET
        && FirstOf(RecordsAt(m, Above(q, i)), TYPE_NS, r.authority) && NamedAt(q, r.authorityName, i)
    else
      && r.rcode == (if Missing(m, q) then NameError else Success)
      && exists rr :: Responds(m, q, rr) && Picked(m, q, rr, r)
  }

  // ---- the proof ----

  lemma SearchIsFirst(rr: RRSets, t: U16)
    ensures Search(rr, t).Some? <==> Has(rr, t)
    ensures Search(rr, t).Some? ==> FirstOf(rr, t, Search(rr, t).value)
  {
    if rr != [] && rr[0].rtype != t && Search(rr[1..], t).Some? {
      SearchIsFirst(rr[1..], t);
      var x := Search(rr[1..], t).value;
      var i :| 0 <= i < |rr[1..]| && rr[1..][i] == x && forall j :: 0 <= j < i ==> rr[1..][j].rtype != t;
      assert rr[i + 1] == x;
      forall j | 0 <= j < i + 1 ensures rr[j].rtype != t {
        if j > 0 { assert rr[1..][j - 1] == rr[j]; }
      }
    }
  }

  lemma HasNothing(t: U16)
    ensures !Has([], t)
  {
  }

  lemma CutsAgree(m: Zone, q: Query, i: nat)
    requires i <= |QueryHops(q)|
    ensures IsCut(m, q, QueryHops(q), i) <==> CutAt(m, q, i)
    ensures IsApex(m, QueryHops(q), i) <==> ApexAt(m, q, i)
    ensures At(QueryHops(q), i) == Above(q, i)
  {
    hide Has, QueryHops, PathOf;
    PathOfQuery(q);
    HasNothing(TYPE_NS);
    HasNothing(TYPE_SOA);
  }

  lemma StarsAgree(m: Zone, q: Query, i: nat)
    requires i < |QueryHops(q)|
    ensures HasStar(m, QueryHops(q), i) <==> StarAt(m, q, i)
    ensures At(QueryHops(q), i) + [WILD] == Above(q, i) + [[STAR]]
  {
    hide QueryHops, PathOf;
    PathOfQuery(q);
  }

  lemma NamedByCursor(q: Query, i: nat)
    requires i <= |QueryHops(q)|
    ensures NamedAt(q, FormatName(q.domain, CursorAt(q, QueryHops(q), i)), i)
  {
    hide PathOf, Hops;
    PathOfQuery(q);
    FormatPath(q, i);
    if i > 0 {
      HopsAreWithin(q.domain, |q.domain|);
      var c := QueryHops(q)[i - 1].cursor;
      assert FormatName(q.domain, c) == q.domain[if c > 0 then c + 1 else 0..];
    }
  }

  lemma AuthorityMeans(m: Zone, q: Query, r: Result)
    requires Authority(r.authority, r.authorityName) == AuthorityOf(m, q, QueryHops(q), |QueryHops(q)|)
    ensures NegativeAuthority(m, q, r)
  {
    hide IsApex, FirstOf, NamedAt, Has, Search, PathOf, FormatName, QueryHops, ApexAt;
    var hs := QueryHops(q);
    PathOfQuery(q);
    forall i: nat | i <= |hs| ensures IsApex(m, hs, i) <==> ApexAt(m, q, i) { CutsAgree(m, q, i); }
    ApexBound(m, q);
    var a := DeepestApex(m, hs, |hs|);
    if a.Some? {
      var i := a.value;
      ApexFirst(m, q, i);
      NamedByCursor(q, i);
      assert ApexAt(m, q, i);
    }
  }

  lemma ApexBound(m: Zone, q: Query)
    ensures forall i: nat :: ApexAt(m, q, i) ==> i <= |QueryHops(q)|
    ensures forall i: nat :: CutAt(m, q, i) ==> i <= |QueryHops(q)|
    ensures forall i: nat :: StarAt(m, q, i) ==> i < |QueryHops(q)|
  {
    hide QueryHops, PathOf;
    PathOfQuery(q);
  }

  lemma ApexFirst(m: Zone, q: Query, i: nat)
    requires i <= |QueryHops(q)| && IsApex(m, QueryHops(q), i)
    ensures At(QueryHops(q), i) in m && Search(m[At(QueryHops(q), i)], TYPE_SOA).Some?
    ensures FirstOf(RecordsAt(m, Above(q, i)), TYPE_SOA, Search(m[At(QueryHops(q), i)], TYPE_SOA).value)
    ensures i <= |PathOf(q.domain)|
  {
    hide QueryHops, PathOf, FirstOf;
    PathOfQuery(q);
    CutsAgree(m, q, i);
    SearchIsFirst(m[At(QueryHops(q), i)], TYPE_SOA);
  }

  lemma PickMeans(m: Zone, q: Query, rr: RRSets)
    ensures Picked(m, q, rr, ResolveAt(rr, q.qt, AuthorityOf(m, q, QueryHops(q), |QueryHops(q)|)))
    ensures ResolveAt(rr, q.qt, AuthorityOf(m, q, QueryHops(q), |QueryHops(q)|)).rcode == Success
  {
    hide FirstOf, Search, AuthorityOf, NegativeAuthority, QueryHops;
    SearchIsFirst(rr, q.qt);
    SearchIsFirst(rr, TYPE_CNAME);
    var auth := AuthorityOf(m, q, QueryHops(q), |QueryHops(q)|);
    AuthorityMeans(m, q, Result(Success, ZERO_SET, auth.rrset, auth.name));
    assert NegativeAuthority(m, q, Result(Success, ZERO_SET, auth.rrset, auth.name));
  }

  lemma MissingMeans(m: Zone, q: Query)
    ensures var auth := AuthorityOf(m, q, QueryHops(q), |QueryHops(q)|);
            var r := NameErrorResult(auth);
            Picked(m, q, [], r) && r.rcode == NameError
  {
    hide Has, AuthorityOf, NegativeAuthority, QueryHops;
    HasNothing(q.qt);
    HasNothing(TYPE_CNAME);
    var auth := AuthorityOf(m, q, QueryHops(q), |QueryHops(q)|);
    AuthorityMeans(m, q, NameErrorResult(auth));
  }

  lemma StarResponds(m: Zone, q: Query)
    requires !Under(m, PathOf(q.domain))
    ensures Responds(m, q, StarRecords(m, QueryHops(q), |QueryHops(q)|))
    ensures forall rr :: Responds(m, q, rr) ==> rr == StarRecords(m, QueryHops(q), |QueryHops(q)|)
  {
    hide HasStar, StarAt, QueryHops, PathOf;
    var hs := QueryHops(q);
    PathOfQuery(q);
    ApexBound(m, q);
    forall i: nat | i < |hs|
      ensures (HasStar(m, hs, i) <==> StarAt(m, q, i)) && At(hs, i) + [WILD] == Above(q, i) + [[STAR]]
    {
      StarsAgree(m, q, i);
    }
  }

  lemma NameResponds(m: Zone, q: Query)
    requires Under(m, PathOf(q.domain))
    ensures Responds(m, q, RecordsAt(m, PathOf(q.domain)))
    ensures !Missing(m, q)
  {
  }

  /** The answer the map determines is what it must be. */
  lemma SpecAnswers(m: Zone, q: Query)
    ensures Answers(m, q, SpecResolve(m, q))
  {
    hide IsCut, CutAt, Under, ResolveAt, WildcardResolve, StarRecords, AuthorityOf, Responds, Picked, Missing, FirstOf,
         NamedAt, QueryHops, PathOf, Search, Has, FormatName, NameErrorResult;
    var hs := QueryHops(q);
    PathOfQuery(q);
    forall i: nat | i <= |hs| ensures IsCut(m, q, hs, i) <==> CutAt(m, q, i) { CutsAgree(m, q, i); }
    ApexBound(m, q);
    match TopCut(m, q, hs, 0)
    case Some(i) =>
      CutFirst(m, q, i);
      NamedByCursor(q, i);
      assert CutAt(m, q, i);
    case None =>
      SpecWithoutCut(m, q);
  }

  lemma CutFirst(m: Zone, q: Query, i: nat)
    requires i <= |QueryHops(q)| && IsCut(m, q, QueryHops(q), i)
    ensures At(QueryHops(q), i) in m && Search(m[At(QueryHops(q), i)], TYPE_NS).Some?
    ensures i <= |PathOf(q.domain)|
    ensures FirstOf(RecordsAt(m, Above(q, i)), TYPE_NS, Search(m[At(QueryHops(q), i)], TYPE_NS).value)
  {
    hide QueryHops, PathOf, FirstOf;
    PathOfQuery(q);
    CutsAgree(m, q, i);
    SearchIsFirst(m[At(QueryHops(q), i)], TYPE_NS);
  }

  lemma SpecWithoutCut(m: Zone, q: Query)
    requires TopCut(m, q, QueryHops(q), 0).None?
    ensures var r := SpecResolve(m, q);
            && r.rcode == (if Missing(m, q) then NameError else Success)
            && exists rr :: Responds(m, q, rr) && Picked(m, q, rr, r)
  {
    hide TopCut, Under, ResolveAt, StarRecords, AuthorityOf, Responds, Picked, QueryHops, PathOf, NameErrorResult,
         Missing;
    PathOfQuery(q);
    var hs := QueryHops(q);
    if Under(m, PathOf(q.domain)) {
      NameResponds(m, q);
      PickMeans(m, q, RecordsAt(m, PathOf(q.domain)));
    } else {
      StarResponds(m, q);
      var rr := StarRecords(m, hs, |hs|);
      MissingExactly(m, q);
      if rr == [] { MissingMeans(m, q); } else { PickMeans(m, q, rr); }
    }
  }

  lemma MissingExactly(m: Zone, q: Query)
    requires !Under(m, PathOf(q.domain))
    ensures Missing(m, q) <==> StarRecords(m, QueryHops(q), |QueryHops(q)|) == []
  {
    hide StarRecords, Responds, QueryHops, PathOf;
    StarResponds(m, q);
  }

  /** So is the answer of the walk, for every tree, text and type. */
  lemma ResolveAnswers(t: Trie, m: Zone, q: Query)
    requires WF(t) && Denotes(t, m)
    ensures Answers(m, q, ResolveTrie(t, q))
  {
    hide Answers;
    ResolveIsSpec(t, m, q);
    SpecAnswers(m, q);
  }

  /**
   A name is reported missing exactly when no cut is on its path, nothing is stored at or below it, and no wildcard
   with records stands in for it.
   */
  lemma NameErrorIff(t: Trie, m: Zone, q: Query)
    requires WF(t) && Denotes(t, m)
    ensures ResolveTrie(t, q).rcode == NameError <==> (forall i: nat :: !CutAt(m, q, i)) && Missing(m, q)
    ensures ResolveTrie(t, q).rcode == NameError || ResolveTrie(t, q).rcode == Success
  {
    hide CutAt, Missing, Responds, Picked, ResolveTrie;
    ResolveAnswers(t, m, q);
  }
}
