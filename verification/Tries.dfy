/**
 The reverse-label tree as a value: what the nodes of internal/radix mean.
 A node holds record sets, an optional "*" child and edges sorted by label.
 */
module Tries {
  import opened Octets
  import opened Records
  import opened Names

  datatype Trie = Trie(rr: RRSets, wild: Option<Trie>, kids: seq<Edge>)
  datatype Edge = Edge(lab: Label, sub: Trie)

  const WILD: Label := [STAR]
  const EMPTY: Trie := Trie([], None, [])

  predicate Bare(t: Trie) {
    t.rr == [] && t.wild.None? && t.kids == []
  }

  // ---- edges ----

  ghost predicate Sorted(kids: seq<Edge>) {
    forall i, j :: 0 <= i < j < |kids| ==> Less(kids[i].lab, kids[j].lab)
  }

  /** First position from i on whose label is not below l: where l is, or belongs. */
  function Slot(kids: seq<Edge>, l: Label, i: nat): (r: nat)
    requires i <= |kids|
    ensures i <= r <= |kids|
    ensures forall j :: i <= j < r ==> Less(kids[j].lab, l)
    ensures r < |kids| ==> !Less(kids[r].lab, l)
    decreases |kids| - i
  {
    if i == |kids| || !Less(kids[i].lab, l) then i else Slot(kids, l, i + 1)
  }

  predicate HasKid(kids: seq<Edge>, l: Label) {
    var i := Slot(kids, l, 0);
    i < |kids| && kids[i].lab == l
  }

  function Child(t: Trie, l: Label): Option<Trie> {
    if l == WILD then t.wild
    else if HasKid(t.kids, l) then Some(t.kids[Slot(t.kids, l, 0)].sub)
    else None
  }

  function SetKid(kids: seq<Edge>, l: Label, c: Option<Trie>): seq<Edge> {
    var i := Slot(kids, l, 0);
    if HasKid(kids, l) then
      match c
      case None => kids[..i] + kids[i + 1..]
      case Some(x) => kids[i := Edge(l, x)]
    else
      match c
      case None => kids
      case Some(x) => kids[..i] + [Edge(l, x)] + kids[i..]
  }

  function SetChild(t: Trie, l: Label, c: Option<Trie>): Trie {
    if l == WILD then t.(wild := c) else t.(kids := SetKid(t.kids, l, c))
  }

  lemma SlotOfKid(kids: seq<Edge>, i: nat)
    requires Sorted(kids) && i < |kids|
    ensures Slot(kids, kids[i].lab, 0) == i && HasKid(kids, kids[i].lab)
  {
    var s := Slot(kids, kids[i].lab, 0);
    LessIrreflexive(kids[i].lab);
  }

  lemma SlotSplits(kids: seq<Edge>, l: Label)
    requires Sorted(kids)
    ensures var s := Slot(kids, l, 0);
            && (forall j :: 0 <= j < s ==> Less(kids[j].lab, l))
            && (forall j :: s <= j < |kids| && kids[j].lab != l ==> Less(l, kids[j].lab))
            && (forall j :: s < j < |kids| ==> Less(l, kids[j].lab))
  {
    var s := Slot(kids, l, 0);
    forall j | s <= j < |kids|
      ensures (kids[j].lab == l && j == s) || Less(l, kids[j].lab)
    {
      LessTotal(l, kids[s].lab);
      LessIrreflexive(l);
      if j > s && Less(l, kids[s].lab) { LessTransitive(l, kids[s].lab, kids[j].lab); }
    }
  }

  lemma SetKidSorted(kids: seq<Edge>, l: Label, c: Option<Trie>)
    requires Sorted(kids)
    ensures Sorted(SetKid(kids, l, c))
  {
    SlotSplits(kids, l);
    var k, s := SetKid(kids, l, c), Slot(kids, l, 0);
    forall i, j | 0 <= i < j < |k| ensures Less(k[i].lab, k[j].lab) {
      if HasKid(kids, l) {
        if c.Some? {
          assert k[i].lab == kids[i].lab && k[j].lab == kids[j].lab;
        } else {
          assert k[i] == kids[if i < s then i else i + 1] && k[j] == kids[if j < s then j else j + 1];
        }
      } else if c.Some? {
        assert k[s].lab == l;
        assert i < s ==> k[i] == kids[i];
        assert i > s ==> k[i] == kids[i - 1];
        assert j < s ==> k[j] == kids[j];
        assert j > s ==> k[j] == kids[j - 1];
      }
    }
  }

  /** Where the kid at position j of kids stands once l has been set to c. */
  function Moved(kids: seq<Edge>, l: Label, c: Option<Trie>, j: nat): int {
    if j < Slot(kids, l, 0) || (HasKid(kids, l) <==> c.Some?) then j
    else if c.Some? then j + 1 else j - 1
  }

  lemma MovedKid(kids: seq<Edge>, l: Label, c: Option<Trie>, j: nat)
    requires Sorted(kids) && j < |kids| && kids[j].lab != l
    ensures var k := SetKid(kids, l, c); 0 <= Moved(kids, l, c, j) < |k| && k[Moved(kids, l, c, j)] == kids[j]
  {
    hide Sorted, Less;
  }

  lemma KeptKid(kids: seq<Edge>, l: Label, c: Option<Trie>, i: nat) returns (j: nat)
    requires Sorted(kids) && i < |SetKid(kids, l, c)| && SetKid(kids, l, c)[i].lab != l
    ensures j < |kids| && kids[j] == SetKid(kids, l, c)[i]
  {
    hide Sorted, Less;
    var s := Slot(kids, l, 0);
    j := if i < s || (HasKid(kids, l) <==> c.Some?) then i else if c.Some? then i - 1 else i + 1;
  }

  lemma KidOfSet(kids: seq<Edge>, l: Label, c: Option<Trie>, m: Label)
    requires Sorted(kids) && m != l
    ensures var k := SetKid(kids, l, c);
            && HasKid(k, m) == HasKid(kids, m)
            && (HasKid(k, m) ==> k[Slot(k, m, 0)].sub == kids[Slot(kids, m, 0)].sub)
  {
    hide SetKid, Moved, Sorted;
    var k := SetKid(kids, l, c);
    SetKidSorted(kids, l, c);
    if HasKid(kids, m) {
      var j := Slot(kids, m, 0);
      MovedKid(kids, l, c, j);
      SlotOfKid(k, Moved(kids, l, c, j));
    }
    if HasKid(k, m) {
      var j := KeptKid(kids, l, c, Slot(k, m, 0));
      SlotOfKid(kids, j);
    }
  }

  lemma KidSet(kids: seq<Edge>, l: Label, c: Option<Trie>)
    requires Sorted(kids)
    ensures var k := SetKid(kids, l, c);
            && HasKid(k, l) == c.Some?
            && (HasKid(k, l) ==> k[Slot(k, l, 0)].sub == c.value)
  {
    hide Sorted;
    var k := SetKid(kids, l, c);
    SetKidSorted(kids, l, c);
    LessIrreflexive(l);
    if c.Some? {
      assert k[Slot(kids, l, 0)] == Edge(l, c.value);
      SlotOfKid(k, Slot(kids, l, 0));
    } else {
      KidGone(kids, l, Slot(k, l, 0));
    }
  }

  lemma KidGone(kids: seq<Edge>, l: Label, i: nat)
    requires Sorted(kids) && i <= |SetKid(kids, l, None)|
    ensures i < |SetKid(kids, l, None)| ==> SetKid(kids, l, None)[i].lab != l
  {
    SlotSplits(kids, l);
    LessIrreflexive(l);
    var s, k := Slot(kids, l, 0), SetKid(kids, l, None);
    if i < |k| {
      assert k[i] == kids[if i < s || !HasKid(kids, l) then i else i + 1];
    }
  }

  /** Setting one child changes that child and nothing else. */
  lemma ChildOfSet(t: Trie, l: Label, c: Option<Trie>, m: Label)
    requires Sorted(t.kids)
    ensures Child(SetChild(t, l, c), m) == if m == l then c else Child(t, m)
  {
    if l != WILD && m == l { KidSet(t.kids, l, c); }
    if l != WILD && m != WILD && m != l { KidOfSet(t.kids, l, c, m); }
  }

  // ---- well-formed trees ----

  /** Edges strictly sorted at every node, "*" kept apart, and no bare node below the root. */
  ghost predicate WF(t: Trie) {
    && Sorted(t.kids)
    && (t.wild.Some? ==> WF(t.wild.value) && !Bare(t.wild.value))
    && (forall i :: 0 <= i < |t.kids| ==>
          t.kids[i].lab != WILD && WF(t.kids[i].sub) && !Bare(t.kids[i].sub))
  }

  lemma ChildWF(t: Trie, l: Label)
    requires WF(t) && Child(t, l).Some?
    ensures WF(Child(t, l).value) && !Bare(Child(t, l).value)
    ensures Child(t, l).value < t
  {
  }

  lemma SetChildWF(t: Trie, l: Label, c: Option<Trie>)
    requires WF(t) && (c.Some? ==> WF(c.value) && !Bare(c.value))
    ensures WF(SetChild(t, l, c))
  {
    if l != WILD {
      SetKidSorted(t.kids, l, c);
      var k := SetKid(t.kids, l, c);
      forall i | 0 <= i < |k|
        ensures k[i].lab != WILD && WF(k[i].sub) && !Bare(k[i].sub)
      {
        assert k[i] in t.kids || (c.Some? && k[i] == Edge(l, c.value));
      }
    }
  }

  // ---- what a tree denotes ----

  function NodeAt(t: Trie, p: Path): Option<Trie>
    decreases |p|
  {
    if p == [] then Some(t)
    else match Child(t, p[0])
         case None => None
         case Some(c) => NodeAt(c, p[1..])
  }

  function Lookup(t: Trie, p: Path): RRSets {
    match NodeAt(t, p)
    case None => []
    case Some(n) => n.rr
  }

  /** The tree holds exactly the entries of m. */
  ghost predicate Denotes(t: Trie, m: map<Path, RRSets>) {
    && (forall p :: p in m ==> m[p] != [] && Lookup(t, p) == m[p])
    && (forall p :: Lookup(t, p) != [] ==> p in m)
  }

  // ---- updates ----

  function Put(t: Trie, p: Path, rr: RRSets): Trie
    decreases |p|
  {
    if p == [] then t.(rr := rr)
    else
      var c := match Child(t, p[0]) case None => EMPTY case Some(c) => c;
      SetChild(t, p[0], Some(Put(c, p[1..], rr)))
  }

  function Prune(t: Trie): Option<Trie> {
    if Bare(t) then None else Some(t)
  }

  /** Clears the records at p and drops every node left bare; None when nothing is left. */
  function Remove(t: Trie, p: Path): Option<Trie>
    decreases |p|
  {
    if p == [] then Prune(t.(rr := []))
    else match Child(t, p[0])
         case None => Some(t)
         case Some(c) => Prune(SetChild(t, p[0], Remove(c, p[1..])))
  }

  function OrEmpty(t: Option<Trie>): Trie {
    match t case None => EMPTY case Some(x) => x
  }

  lemma LookupStep(t: Trie, p: Path)
    requires p != []
    ensures Lookup(t, p) == match Child(t, p[0]) case None => [] case Some(c) => Lookup(c, p[1..])
  {
  }

  lemma LookupEmpty(p: Path)
    ensures Lookup(EMPTY, p) == []
  {
  }

  lemma {:induction false} PutWF(t: Trie, p: Path, rr: RRSets)
    requires WF(t) && rr != []
    ensures WF(Put(t, p, rr)) && !Bare(Put(t, p, rr))
    decreases |p|
  {
    if p != [] {
      var c := OrEmpty(Child(t, p[0]));
      PutWF(c, p[1..], rr);
      SetChildWF(t, p[0], Some(Put(c, p[1..], rr)));
      ChildOfSet(t, p[0], Some(Put(c, p[1..], rr)), p[0]);
    }
  }

  lemma {:induction false} PutLookup(t: Trie, p: Path, rr: RRSets, q: Path)
    requires WF(t)
    ensures Lookup(Put(t, p, rr), q) == if q == p then rr else Lookup(t, q)
    decreases |p|
  {
    if p == [] {
      if q != [] {
        LookupStep(t, q);
        LookupStep(Put(t, p, rr), q);
        assert Child(t.(rr := rr), q[0]) == Child(t, q[0]);
      }
    } else if q != [] {
      var c := OrEmpty(Child(t, p[0]));
      ChildOfSet(t, p[0], Some(Put(c, p[1..], rr)), q[0]);
      LookupStep(t, q);
      LookupStep(Put(t, p, rr), q);
      if q[0] == p[0] {
        PutLookup(c, p[1..], rr, q[1..]);
        LookupEmpty(q[1..]);
        assert q == [q[0]] + q[1..] && p == [p[0]] + p[1..];
      }
    }
  }

  lemma {:induction false} RemoveWF(t: Trie, p: Path)
    requires WF(t)
    ensures Remove(t, p).Some? ==>
            WF(Remove(t, p).value) && (p == [] || Lookup(t, p) != [] ==> !Bare(Remove(t, p).value))
    decreases |p|
  {
    if p != [] {
      match Child(t, p[0])
      case None =>
      case Some(c) =>
        RemoveWF(c, p[1..]);
        RemoveLive(c, p[1..]);
        SetChildWF(t, p[0], Remove(c, p[1..]));
    }
  }

  lemma RemoveLive(t: Trie, p: Path)
    requires !Bare(t)
    ensures Remove(t, p).Some? ==> !Bare(Remove(t, p).value)
  {
  }

  lemma {:induction false} RemoveLookup(t: Trie, p: Path, q: Path)
    requires WF(t)
    ensures Lookup(OrEmpty(Remove(t, p)), q) == if q == p then [] else Lookup(t, q)
    decreases |p|
  {
    LookupEmpty(q);
    if p == [] {
      if q != [] {
        LookupStep(t, q);
        LookupStep(t.(rr := []), q);
        assert Child(t.(rr := []), q[0]) == Child(t, q[0]);
      }
    } else {
      match Child(t, p[0])
      case None =>
        LookupStep(t, p);
      case Some(c) =>
        var t' := SetChild(t, p[0], Remove(c, p[1..]));
        assert Lookup(OrEmpty(Remove(t, p)), q) == Lookup(t', q);
        if q != [] {
          ChildOfSet(t, p[0], Remove(c, p[1..]), q[0]);
          LookupStep(t, q);
          LookupStep(t', q);
          if q[0] == p[0] {
            RemoveLookup(c, p[1..], q[1..]);
            LookupEmpty(q[1..]);
            assert q == [q[0]] + q[1..] && p == [p[0]] + p[1..];
          }
        }
    }
  }

  /** Upsert on the tree is update on the map. */
  lemma PutDenotes(t: Trie, m: map<Path, RRSets>, p: Path, rr: RRSets)
    requires WF(t) && Denotes(t, m) && rr != []
    ensures WF(Put(t, p, rr)) && Denotes(Put(t, p, rr), m[p := rr])
  {
    PutWF(t, p, rr);
    forall q ensures Lookup(Put(t, p, rr), q) == if q == p then rr else Lookup(t, q) {
      PutLookup(t, p, rr, q);
    }
  }

  /** Deletion with pruning on the tree is removal from the map. */
  lemma RemoveDenotes(t: Trie, m: map<Path, RRSets>, p: Path)
    requires WF(t) && Denotes(t, m)
    ensures WF(OrEmpty(Remove(t, p))) && Denotes(OrEmpty(Remove(t, p)), m - {p})
  {
    RemoveWF(t, p);
    forall q ensures Lookup(OrEmpty(Remove(t, p)), q) == if q == p then [] else Lookup(t, q) {
      RemoveLookup(t, p, q);
    }
  }

  lemma EmptyDenotes()
    ensures WF(EMPTY) && Denotes(EMPTY, map[])
  {
    forall p ensures Lookup(EMPTY, p) == [] { LookupEmpty(p); }
  }

  // ---- which nodes exist ----

  lemma {:induction false} NodeAtAppend(t: Trie, p: Path, q: Path)
    ensures NodeAt(t, p + q) == match NodeAt(t, p) case None => None case Some(n) => NodeAt(n, q)
    decreases |p|
  {
    if p == [] {
      assert p + q == q;
    } else {
      assert (p + q)[0] == p[0] && (p + q)[1..] == p[1..] + q;
      match Child(t, p[0])
      case None =>
      case Some(c) => NodeAtAppend(c, p[1..], q);
    }
  }

  lemma {:induction false} NodeAtWF(t: Trie, p: Path)
    requires WF(t) && NodeAt(t, p).Some?
    ensures WF(NodeAt(t, p).value) && (p != [] ==> !Bare(NodeAt(t, p).value))
    decreases |p|
  {
    if p != [] {
      ChildWF(t, p[0]);
      NodeAtWF(Child(t, p[0]).value, p[1..]);
    }
  }

  /** Below every node that is not bare some name is stored. */
  lemma {:induction false} LiveHasName(t: Trie) returns (p: Path)
    requires WF(t) && !Bare(t)
    ensures Lookup(t, p) != []
  {
    if t.rr != [] {
      p := [];
    } else if t.wild.Some? {
      var q := LiveHasName(t.wild.value);
      p := [WILD] + q;
      assert p[1..] == q;
      LookupStep(t, p);
    } else {
      var q := LiveHasName(t.kids[0].sub);
      SlotOfKid(t.kids, 0);
      p := [t.kids[0].lab] + q;
      assert p[1..] == q;
      LookupStep(t, p);
    }
  }

  ghost predicate Under(m: map<Path, RRSets>, p: Path) {
    exists k :: k in m && p <= k
  }

  /** A node exists exactly at the root and at the prefixes of stored names. */
  lemma NodeExistsIff(t: Trie, m: map<Path, RRSets>, p: Path)
    requires WF(t) && Denotes(t, m)
    ensures NodeAt(t, p).Some? <==> p == [] || Under(m, p)
  {
    if NodeAt(t, p).Some? && p != [] {
      NodeAtWF(t, p);
      var q := LiveHasName(NodeAt(t, p).value);
      NodeAtAppend(t, p, q);
      assert p + q in m;
    }
    if Under(m, p) {
      var k :| k in m && p <= k;
      assert k == p + k[|p|..];
      NodeAtAppend(t, p, k[|p|..]);
    }
  }
}
