/**
 Listing the tree (internal/radix/query.go): walkTree rebuilds every name in one shared buffer,
 Seek resumes after a cursor, and the API reads it page by page (internal/api/handlers.go).
 */
module Walking {
  import opened Octets
  import opened Records
  import opened Names
  import opened Zones
  import opened Tries
  import opened RadixTree

  const BUF_SIZE := 256

  /** A node the walk stops at. */
  datatype Place = Place(path: Path, rr: RRSets)
  datatype ListEntry = ListEntry(name: Bytes, rr: RRSets)

  function EntryOf(x: Place): ListEntry {
    ListEntry(Text(x.path), x.rr)
  }

  predicate Fits(p: Path) {
    |Text(p)| <= BUF_SIZE
  }

  // ---- the places of a walk, in order ----

  function Places(t: Trie, p: Path): seq<Place>
    decreases t, 1
  {
    [Place(p, t.rr)]
    + (if t.wild.Some? && Fits(p + [WILD]) then Places(t.wild.value, p + [WILD]) else [])
    + KidPlaces(t, p, 0)
  }

  function KidPlaces(t: Trie, p: Path, j: nat): seq<Place>
    requires j <= |t.kids|
    decreases t, 0, |t.kids| - j
  {
    if j == |t.kids| then []
    else
      var q := p + [t.kids[j].lab];
      (if Fits(q) then Places(t.kids[j].sub, q) else []) + KidPlaces(t, p, j + 1)
  }

  // ---- the visitor: Seek's closure and the page being filled ----

  datatype Progress = Progress(skipping: bool, out: seq<ListEntry>, hasMore: bool)

  function Feed(s: Progress, after: Bytes, limit: Option<nat>, e: ListEntry): (Progress, bool) {
    if s.skipping then (s.(skipping := e.name != after), true)
    else if e.rr == [] then (s, true)
    else if limit == Some(|s.out|) then (s.(hasMore := true), false)
    else (s.(out := s.out + [e]), true)
  }

  function FeedAll(s: Progress, after: Bytes, limit: Option<nat>, ps: seq<Place>): (Progress, bool)
    decreases |ps|
  {
    if ps == [] then (s, true)
    else
      var (s', ok) := Feed(s, after, limit, EntryOf(ps[0]));
      if ok then FeedAll(s', after, limit, ps[1..]) else (s', false)
  }

  lemma {:induction false} FeedAppend(s: Progress, after: Bytes, limit: Option<nat>, a: seq<Place>, b: seq<Place>)
    ensures FeedAll(s, after, limit, a + b) ==
            var (s', ok) := FeedAll(s, after, limit, a);
            if ok then FeedAll(s', after, limit, b) else (s', false)
    decreases |a|
  {
    if a == [] {
      assert a + b == b;
    } else {
      assert (a + b)[0] == a[0] && (a + b)[1..] == a[1..] + b;
      var (s', ok) := Feed(s, after, limit, EntryOf(a[0]));
      if ok { FeedAppend(s', after, limit, a[1..], b); }
    }
  }

  class Visitor {
    const after: Bytes
    const limit: Option<nat>
    var now: Progress

    constructor (after: Bytes, limit: Option<nat>)
      ensures this.after == after && this.limit == limit && now == Progress(after != [], [], false)
    {
      this.after, this.limit, this.now := after, limit, Progress(after != [], [], false);
    }

    method Visit(name: Bytes, rr: RRSets) returns (ok: bool)
      modifies this
      ensures (now, ok) == Feed(old(now), after, limit, ListEntry(name, rr))
    {
      if now.skipping {
        if name == after { now := now.(skipping := false); }
        return true;
      }
      if rr == [] { return true; }
      if limit.Some? && |now.out| == limit.value {
        now := now.(hasMore := true);
        return false;
      }
      now := now.(out := now.out + [ListEntry(name, rr)]);
      return true;
    }
  }

  // ---- the walk ----

  /** The buffer holds the text of p from offset to its end. */
  ghost predicate Holds(buf: array<Byte>, offset: int, p: Path)
    reads buf
  {
    buf.Length == BUF_SIZE && 0 <= offset <= BUF_SIZE && buf[offset..] == Text(p)
  }

  lemma {:induction false} TextSnoc(p: Path, l: Label)
    ensures Text(p + [l]) == if p == [] then l else l + [DOT] + Text(p)
  {
    if |p| == 1 {
      assert (p + [l])[1..] == [l];
      assert Text([l]) == l;
    } else if |p| > 1 {
      assert (p + [l])[1..] == p[1..] + [l] && (p + [l])[0] == p[0];
      TextSnoc(p[1..], l);
      assert (l + [DOT] + Text(p[1..])) + [DOT] + p[0] == l + [DOT] + (Text(p[1..]) + [DOT] + p[0]);
    }
  }

  ghost predicate PlainLabels(p: Path) {
    forall i :: 0 <= i < |p| ==> p[i] != []
  }

  lemma TextEmptyIff(p: Path)
    requires PlainLabels(p)
    ensures Text(p) == [] <==> p == []
  {
  }

  /** Writes lab and, below the root, a dot in front of what the buffer holds. */
  method WriteLabel(buf: array<Byte>, offset: int, lab: Label, ghost p: Path) returns (newOffset: int)
    requires Holds(buf, offset, p) && PlainLabels(p)
    modifies buf
    ensures newOffset == BUF_SIZE - |Text(p + [lab])|
    ensures newOffset >= 0 ==> newOffset <= offset && Holds(buf, newOffset, p + [lab])
    ensures newOffset < 0 ==> !Fits(p + [lab])
    ensures buf.Length == BUF_SIZE && buf[offset..] == old(buf[offset..])
  {
    hide Text;
    TextSnoc(p, lab);
    TextEmptyIff(p);
    newOffset := offset - |lab|;
    if offset < BUF_SIZE { newOffset := newOffset - 1; }
    if newOffset < 0 { return; }
    ghost var tail := buf[offset..];
    if offset < BUF_SIZE {
      Prepend(buf, offset, [DOT]);
      assert buf[offset - 1..] == [DOT] + tail;
    }
    Prepend(buf, newOffset + |lab|, lab);
    assert buf[offset..] == buf[newOffset..][offset - newOffset..];
    assert lab + ([DOT] + tail) == lab + [DOT] + tail;
  }

  /** Copies s into the buffer right before end. */
  method Prepend(buf: array<Byte>, end: nat, s: Bytes)
    requires |s| <= end <= buf.Length
    modifies buf
    ensures buf[end - |s|..] == s + old(buf[end..])
  {
    forall i | 0 <= i < |s| { buf[end - |s| + i] := s[i]; }
    var all := buf[end - |s|..];
    assert all[..|s|] == s;
    assert all[|s|..] == buf[end..] == old(buf[end..]);
  }

  ghost predicate PlainTrie(t: Trie) {
    && (t.wild.Some? ==> PlainTrie(t.wild.value))
    && forall i :: 0 <= i < |t.kids| ==> t.kids[i].lab != [] && PlainTrie(t.kids[i].sub)
  }

  lemma FeedOne(s: Progress, after: Bytes, limit: Option<nat>, x: Place, rest: seq<Place>)
    ensures FeedAll(s, after, limit, [x] + rest) ==
            var (s', ok) := Feed(s, after, limit, EntryOf(x));
            if ok then FeedAll(s', after, limit, rest) else (s', false)
  {
    assert ([x] + rest)[1..] == rest;
  }

  /** Writes lab in front of the name, walks the subtree, and leaves the name as it was. */
  method WalkBelow(c: Node, lab: Label, offset: int, buf: array<Byte>, v: Visitor, ghost p: Path, ghost t: Trie,
                   ghost r: set<object>)
    returns (ok: bool)
    requires Rep(c, t, r) && PlainTrie(t) && PlainLabels(p + [lab]) && Holds(buf, offset, p)
    requires buf !in r && v !in r
    modifies buf, v
    ensures (v.now, ok) == FeedAll(old(v.now), v.after, v.limit, if Fits(p + [lab]) then Places(t, p + [lab]) else [])
    ensures Holds(buf, offset, p)
    decreases t, 2
  {
    assert PlainLabels(p) by { assert forall i :: 0 <= i < |p| ==> p[i] == (p + [lab])[i]; }
    var newOffset := WriteLabel(buf, offset, lab, p);
    if newOffset < 0 { return true; }
    ok := WalkFrom(c, newOffset, buf, v, p + [lab], t, r);
    assert buf[offset..] == buf[newOffset..][offset - newOffset..];
  }

  /** Visits n and everything below it, with the names spelled out in buf. */
  method WalkFrom(n: Node, offset: int, buf: array<Byte>, v: Visitor, ghost p: Path, ghost t: Trie,
                  ghost r: set<object>)
    returns (ok: bool)
    requires Rep(n, t, r) && PlainTrie(t) && PlainLabels(p) && Holds(buf, offset, p)
    requires buf !in r && v !in r
    modifies buf, v
    ensures (v.now, ok) == FeedAll(old(v.now), v.after, v.limit, Places(t, p))
    ensures Holds(buf, offset, p)
    decreases t, 1
  {
    hide Feed, FeedAll, Text, Fits, Places, KidPlaces, PlainLabels;
    ghost var all := FeedAll(v.now, v.after, v.limit, Places(t, p));
    ghost var wilds := if t.wild.Some? && Fits(p + [WILD]) then Places(t.wild.value, p + [WILD]) else [];
    PlacesUnfold(t, p);
    FeedOne(v.now, v.after, v.limit, Place(p, t.rr), wilds + KidPlaces(t, p, 0));
    ok := v.Visit(buf[offset..], n.rrsets);
    if !ok { return; }
    FeedAppend(v.now, v.after, v.limit, wilds, KidPlaces(t, p, 0));
    if n.wildcard != null {
      PlainSnoc(p, WILD);
      ok := WalkBelow(n.wildcard, WILD, offset, buf, v, p, t.wild.value, r);
      if !ok { return; }
    } else {
      FeedNothing(v.now, v.after, v.limit);
    }
    for j := 0 to n.children.Length
      invariant Rep(n, t, r) && Holds(buf, offset, p)
      invariant FeedAll(v.now, v.after, v.limit, KidPlaces(t, p, j)) == all
    {
      var edge := n.children[j];
      ghost var q := p + [edge.lab];
      PlainSnoc(p, edge.lab);
      KidPlacesUnfold(t, p, j);
      FeedAppend(v.now, v.after, v.limit, if Fits(q) then Places(t.kids[j].sub, q) else [], KidPlaces(t, p, j + 1));
      ok := WalkBelow(edge.node, edge.lab, offset, buf, v, p, t.kids[j].sub, r);
      if !ok { return; }
    }
    KidPlacesUnfold(t, p, |t.kids|);
    FeedNothing(v.now, v.after, v.limit);
    return true;
  }

  lemma PlainSnoc(p: Path, l: Label)
    requires PlainLabels(p) && l != []
    ensures PlainLabels(p + [l])
  {
  }

  lemma KidPlacesUnfold(t: Trie, p: Path, j: nat)
    requires j <= |t.kids|
    ensures KidPlaces(t, p, j) == if j == |t.kids| then [] else
              var q := p + [t.kids[j].lab];
              (if Fits(q) then Places(t.kids[j].sub, q) else []) + KidPlaces(t, p, j + 1)
  {
  }

  lemma PlacesUnfold(t: Trie, p: Path)
    ensures var wilds := if t.wild.Some? && Fits(p + [WILD]) then Places(t.wild.value, p + [WILD]) else [];
            Places(t, p) == [Place(p, t.rr)] + (wilds + KidPlaces(t, p, 0))
  {
  }

  lemma FeedNothing(s: Progress, after: Bytes, limit: Option<nat>)
    ensures FeedAll(s, after, limit, []) == (s, true)
  {
  }

  // ---- which places a walk visits ----

  lemma {:induction false} FitsShorter(p: Path, q: Path)
    requires p <= q && Fits(q)
    ensures Fits(p)
    decreases |q|
  {
    if |p| < |q| {
      var q' := q[..|q| - 1];
      assert q == q' + [q[|q| - 1]];
      TextSnoc(q', q[|q| - 1]);
      FitsShorter(p, q');
    } else {
      assert p == q;
    }
  }

  /** x stands for the node at x.path in the tree t rooted at p. */
  ghost predicate PlaceOf(t: Trie, p: Path, x: Place) {
    && p <= x.path && (x.path == p || Fits(x.path))
    && NodeAt(t, x.path[|p|..]).Some? && x.rr == NodeAt(t, x.path[|p|..]).value.rr
  }

  lemma PlaceOfChild(t: Trie, p: Path, l: Label, x: Place)
    requires Child(t, l).Some? && Fits(p + [l])
    ensures PlaceOf(Child(t, l).value, p + [l], x) <==> PlaceOf(t, p, x) && p + [l] <= x.path
  {
    if p + [l] <= x.path {
      var q := x.path[|p|..];
      assert q[0] == l && q[1..] == x.path[|p + [l]|..];
      assert NodeAt(t, q) == NodeAt(Child(t, l).value, q[1..]);
    }
  }

  lemma PlaceOfSplit(t: Trie, p: Path, x: Place) returns (l: Label)
    requires PlaceOf(t, p, x) && x.path != p
    ensures Child(t, l).Some? && p + [l] <= x.path && Fits(p + [l])
  {
    l := x.path[|p|];
    assert x.path[|p|..][0] == l;
    FitsShorter(p + [l], x.path);
  }

  /** Exactly the nodes whose names fit the buffer are visited. */
  lemma {:induction false} PlacesExact(t: Trie, p: Path, x: Place)
    requires WF(t)
    ensures x in Places(t, p) <==> PlaceOf(t, p, x)
    decreases t, 1
  {
    if t.wild.Some? && Fits(p + [WILD]) {
      PlacesExact(t.wild.value, p + [WILD], x);
      PlaceOfChild(t, p, WILD, x);
    }
    KidPlacesExact(t, p, 0, x);
    if PlaceOf(t, p, x) && x.path != p {
      var l := PlaceOfSplit(t, p, x);
      if l != WILD { assert t.kids[Slot(t.kids, l, 0)].lab == l; }
    }
    if x.path == p { assert x.path[|p|..] == []; }
  }

  lemma {:induction false} KidPlacesExact(t: Trie, p: Path, j: nat, x: Place)
    requires WF(t) && j <= |t.kids|
    ensures x in KidPlaces(t, p, j) <==>
            exists k :: j <= k < |t.kids| && p + [t.kids[k].lab] <= x.path && PlaceOf(t, p, x)
    decreases t, 0, |t.kids| - j
  {
    hide PlaceOf, KidPlaces, Places, Text, NodeAt, Child, WF;
    KidPlacesUnfold(t, p, j);
    if j < |t.kids| {
      var q := p + [t.kids[j].lab];
      KidIsChild(t, j);
      KidPlacesExact(t, p, j + 1, x);
      if Fits(q) {
        PlacesExact(t.kids[j].sub, q, x);
        PlaceOfChild(t, p, t.kids[j].lab, x);
      } else {
        PlaceFits(t, p, t.kids[j].lab, x);
      }
    }
  }

  lemma KidIsChild(t: Trie, j: nat)
    requires WF(t) && j < |t.kids|
    ensures Child(t, t.kids[j].lab) == Some(t.kids[j].sub) && WF(t.kids[j].sub)
  {
    SlotOfKid(t.kids, j);
  }

  lemma PlaceFits(t: Trie, p: Path, l: Label, x: Place)
    ensures PlaceOf(t, p, x) && p + [l] <= x.path ==> Fits(p + [l])
  {
    hide Text, NodeAt;
    if PlaceOf(t, p, x) && p + [l] <= x.path { FitsShorter(p + [l], x.path); }
  }

  // ---- every place once ----

  ghost predicate Distinct(ps: seq<Place>) {
    forall i, j :: 0 <= i < j < |ps| ==> ps[i].path != ps[j].path
  }

  lemma DistinctAppend(a: seq<Place>, b: seq<Place>)
    requires Distinct(a) && Distinct(b)
    requires forall x, y :: x in a && y in b ==> x.path != y.path
    ensures Distinct(a + b)
  {
    var c := a + b;
    forall i, j | 0 <= i < j < |c| ensures c[i].path != c[j].path {
      assert c[i] == if i < |a| then a[i] else b[i - |a|];
      assert c[j] == if j < |a| then a[j] else b[j - |a|];
    }
  }

  lemma {:induction false} PlacesDistinct(t: Trie, p: Path)
    requires WF(t)
    ensures Distinct(Places(t, p))
    decreases t, 1
  {
    var wilds := if t.wild.Some? && Fits(p + [WILD]) then Places(t.wild.value, p + [WILD]) else [];
    if wilds != [] { PlacesDistinct(t.wild.value, p + [WILD]); }
    KidPlacesDistinct(t, p, 0);
    forall x | x in wilds ensures p + [WILD] <= x.path {
      PlacesExact(t.wild.value, p + [WILD], x);
    }
    forall x | x in KidPlaces(t, p, 0) ensures p < x.path && x.path[|p|] != WILD {
      KidPlacesExact(t, p, 0, x);
      var k :| 0 <= k < |t.kids| && p + [t.kids[k].lab] <= x.path;
      assert x.path[|p|] == (p + [t.kids[k].lab])[|p|];
    }
    forall x, y | x in wilds && y in KidPlaces(t, p, 0) ensures x.path != y.path {
      assert x.path[|p|] == (p + [WILD])[|p|];
    }
    DistinctAppend(wilds, KidPlaces(t, p, 0));
    DistinctAppend([Place(p, t.rr)], wilds + KidPlaces(t, p, 0));
    PlacesUnfold(t, p);
  }

  lemma {:induction false} KidPlacesDistinct(t: Trie, p: Path, j: nat)
    requires WF(t) && j <= |t.kids|
    ensures Distinct(KidPlaces(t, p, j))
    decreases t, 0, |t.kids| - j
  {
    if j < |t.kids| {
      var q := p + [t.kids[j].lab];
      var first := if Fits(q) then Places(t.kids[j].sub, q) else [];
      if Fits(q) { PlacesDistinct(t.kids[j].sub, q); }
      KidPlacesDistinct(t, p, j + 1);
      forall x, y | x in first && y in KidPlaces(t, p, j + 1) ensures x.path != y.path {
        PlacesExact(t.kids[j].sub, q, x);
        KidPlacesExact(t, p, j + 1, y);
        var k :| j + 1 <= k < |t.kids| && p + [t.kids[k].lab] <= y.path;
        assert y.path[|p|] == (p + [t.kids[k].lab])[|p|] && x.path[|p|] == q[|p|];
        LessIrreflexive(t.kids[j].lab);
      }
      DistinctAppend(first, KidPlaces(t, p, j + 1));
    }
  }

  // ---- what is listed ----

  /** The places that hold records, as entries. */
  function Stored(ps: seq<Place>): seq<ListEntry> {
    if ps == [] then []
    else (if ps[0].rr == [] then [] else [EntryOf(ps[0])]) + Stored(ps[1..])
  }

  function Listing(t: Trie): seq<ListEntry> {
    Stored(Places(t, []))
  }

  lemma {:induction false} StoredHas(ps: seq<Place>, e: ListEntry)
    ensures e in Stored(ps) <==> exists i :: 0 <= i < |ps| && ps[i].rr != [] && e == EntryOf(ps[i])
    decreases |ps|
  {
    if ps != [] {
      StoredHas(ps[1..], e);
      assert forall i :: 0 < i < |ps| ==> ps[i] == ps[1..][i - 1];
      assert forall i :: 0 <= i < |ps[1..]| ==> ps[1..][i] == ps[i + 1];
    }
  }

  /** A walk lists exactly the stored names of at most 256 bytes, with their records. */
  lemma ListingExact(t: Trie, m: map<Path, RRSets>, e: ListEntry)
    requires WF(t) && Denotes(t, m)
    ensures e in Listing(t) <==> exists p :: p in m && Fits(p) && e == ListEntry(Text(p), m[p])
  {
    var ps := Places(t, []);
    StoredHas(ps, e);
    if e in Listing(t) {
      var i :| 0 <= i < |ps| && ps[i].rr != [] && e == EntryOf(ps[i]);
      PlacesExact(t, [], ps[i]);
      assert ps[i].path[0..] == ps[i].path;
      assert Lookup(t, ps[i].path) == ps[i].rr;
      assert Fits([]);
    }
    if exists p :: p in m && Fits(p) && e == ListEntry(Text(p), m[p]) {
      var p :| p in m && Fits(p) && e == ListEntry(Text(p), m[p]);
      var x := Place(p, m[p]);
      assert p[0..] == p;
      assert Lookup(t, p) == m[p];
      PlacesExact(t, [], x);
      var i :| 0 <= i < |ps| && ps[i] == x;
    }
  }

  ghost predicate DistinctNames(w: seq<ListEntry>) {
    forall i, j :: 0 <= i < j < |w| ==> w[i].name != w[j].name
  }

  lemma {:induction false} StoredDistinct(ps: seq<Place>)
    requires Distinct(ps) && forall i :: 0 <= i < |ps| ==> ProperPath(ps[i].path)
    ensures DistinctNames(Stored(ps))
    decreases |ps|
  {
    if ps != [] {
      StoredDistinct(ps[1..]);
      forall e | e in Stored(ps[1..]) ensures e.name != Text(ps[0].path) {
        StoredHas(ps[1..], e);
        var i :| 0 <= i < |ps[1..]| && ps[1..][i].rr != [] && e == EntryOf(ps[1..][i]);
        var x := ps[i + 1];
        assert ps[1..][i] == x;
        assert e == EntryOf(x);
        if e.name == Text(ps[0].path) { TextInjective(x.path, ps[0].path); }
      }
    }
  }

  ghost predicate ProperZone(m: map<Path, RRSets>) {
    forall p :: p in m ==> ProperPath(p)
  }

  lemma PlacesProper(t: Trie, m: map<Path, RRSets>, x: Place)
    requires WF(t) && Denotes(t, m) && ProperZone(m) && x in Places(t, [])
    ensures ProperPath(x.path)
  {
    PlacesExact(t, [], x);
    assert x.path[0..] == x.path;
    NodeExistsIff(t, m, x.path);
    if x.path != [] {
      var k :| k in m && x.path <= k;
      assert forall i :: 0 <= i < |x.path| ==> x.path[i] == k[i];
    }
  }

  /** Entries are listed once each. */
  lemma ListingDistinct(t: Trie, m: map<Path, RRSets>)
    requires WF(t) && Denotes(t, m) && ProperZone(m)
    ensures DistinctNames(Listing(t))
  {
    var ps := Places(t, []);
    forall i | 0 <= i < |ps| ensures ProperPath(ps[i].path) { PlacesProper(t, m, ps[i]); }
    PlacesDistinct(t, []);
    StoredDistinct(ps);
  }

  // ---- Seek and pages ----

  datatype Page = Page(entries: seq<ListEntry>, hasMore: bool)

  function FirstOf(w: seq<ListEntry>, limit: Option<nat>): Page {
    if limit.Some? && limit.value < |w| then Page(w[..limit.value], true) else Page(w, false)
  }

  lemma {:induction false} FeedTakes(s: Progress, after: Bytes, limit: Option<nat>, ps: seq<Place>)
    requires !s.skipping && !s.hasMore && (limit.Some? ==> |s.out| <= limit.value)
    ensures var s' := FeedAll(s, after, limit, ps).0;
            Page(s'.out, s'.hasMore) == FirstOf(s.out + Stored(ps), limit)
    decreases |ps|
  {
    if ps == [] {
      assert s.out + Stored(ps) == s.out;
    } else {
      var e := EntryOf(ps[0]);
      if ps[0].rr == [] {
        FeedTakes(s, after, limit, ps[1..]);
        assert [] + Stored(ps[1..]) == Stored(ps[1..]);
      } else if limit == Some(|s.out|) {
        assert (s.out + Stored(ps))[..|s.out|] == s.out;
      } else {
        FeedTakes(s.(out := s.out + [e]), after, limit, ps[1..]);
        assert s.out + [e] + Stored(ps[1..]) == s.out + ([e] + Stored(ps[1..]));
      }
    }
  }

  lemma {:induction false} FeedSkips(s: Progress, after: Bytes, limit: Option<nat>, ps: seq<Place>)
    requires s.skipping && forall i :: 0 <= i < |ps| ==> Text(ps[i].path) != after
    ensures FeedAll(s, after, limit, ps) == (s, true)
    decreases |ps|
  {
    if ps != [] {
      assert EntryOf(ps[0]).name != after;
      assert forall i :: 0 <= i < |ps[1..]| ==> ps[1..][i] == ps[i + 1];
      FeedSkips(s, after, limit, ps[1..]);
    }
  }

  /** What Seek yields after a cursor; the empty cursor lists from the start. */
  function SeekFrom(t: Trie, after: Bytes, limit: Option<nat>): Page {
    if after != [] && NodeAt(t, PathOf(after)).None? then Page([], false)
    else
      var s := FeedAll(Progress(after != [], [], false), after, limit, Places(t, [])).0;
      Page(s.out, s.hasMore)
  }

  lemma SeekFromStart(t: Trie, limit: Option<nat>)
    ensures SeekFrom(t, [], limit) == FirstOf(Listing(t), limit)
  {
    FeedTakes(Progress(false, [], false), [], limit, Places(t, []));
    assert [] + Listing(t) == Listing(t);
  }

  lemma {:induction false} StoredPosition(ps: seq<Place>, i: nat) returns (k: nat)
    requires i < |Stored(ps)|
    ensures k < |ps| && ps[k].rr != [] && Stored(ps)[i] == EntryOf(ps[k])
    ensures Stored(ps[k + 1..]) == Stored(ps)[i + 1..]
    decreases |ps|
  {
    hide Stored, EntryOf;
    StoredStep(ps);
    if ps[0].rr != [] && i == 0 {
      k := 0;
    } else {
      var i' := if ps[0].rr == [] then i else i - 1;
      k := StoredPosition(ps[1..], i');
      assert ps[1..][k + 1..] == ps[k + 2..] && ps[1..][k] == ps[k + 1];
      assert Stored(ps)[i + 1..] == Stored(ps[1..])[i' + 1..];
      k := k + 1;
    }
  }

  lemma StoredStep(ps: seq<Place>)
    ensures ps == [] ==> Stored(ps) == []
    ensures ps != [] ==> Stored(ps) == (if ps[0].rr == [] then [] else [EntryOf(ps[0])]) + Stored(ps[1..])
  {
  }

  lemma NamesBefore(t: Trie, m: map<Path, RRSets>, k: nat)
    requires WF(t) && Denotes(t, m) && ProperZone(m) && k < |Places(t, [])|
    ensures var ps := Places(t, []); forall j :: 0 <= j < k ==> Text(ps[j].path) != Text(ps[k].path)
  {
    var ps := Places(t, []);
    PlacesDistinct(t, []);
    PlacesProper(t, m, ps[k]);
    forall j | 0 <= j < k ensures Text(ps[j].path) != Text(ps[k].path) {
      PlacesProper(t, m, ps[j]);
      if Text(ps[j].path) == Text(ps[k].path) { TextInjective(ps[j].path, ps[k].path); }
    }
  }

  lemma FeedFrom(ps: seq<Place>, k: nat, after: Bytes, limit: Option<nat>)
    requires k < |ps| && Text(ps[k].path) == after && forall j :: 0 <= j < k ==> Text(ps[j].path) != after
    ensures var s := FeedAll(Progress(true, [], false), after, limit, ps).0;
            Page(s.out, s.hasMore) == FirstOf(Stored(ps[k + 1..]), limit)
  {
    hide Text, Stored, FeedAll, FirstOf;
    var s := Progress(true, [], false);
    assert ps == ps[..k] + ([ps[k]] + ps[k + 1..]);
    FeedAppend(s, after, limit, ps[..k], [ps[k]] + ps[k + 1..]);
    FeedSkips(s, after, limit, ps[..k]);
    FeedOne(s, after, limit, ps[k], ps[k + 1..]);
    FeedTakes(s.(skipping := false), after, limit, ps[k + 1..]);
    assert [] + Stored(ps[k + 1..]) == Stored(ps[k + 1..]);
  }

  /** Seeking after a listed name other than the root yields exactly the rest of the listing. */
  lemma SeekResumes(t: Trie, m: map<Path, RRSets>, i: nat, limit: Option<nat>)
    requires WF(t) && Denotes(t, m) && ProperZone(m)
    requires i < |Listing(t)| && Listing(t)[i].name != []
    ensures SeekFrom(t, Listing(t)[i].name, limit) == FirstOf(Listing(t)[i + 1..], limit)
  {
    hide Places, WF, Denotes, FeedAll, Stored, Text;
    var ps := Places(t, []);
    var k := StoredPosition(ps, i);
    assert Listing(t)[i].name == Text(ps[k].path);
    NamesBefore(t, m, k);
    PlacesProper(t, m, ps[k]);
    PathOfText(ps[k].path);
    PlacesExact(t, [], ps[k]);
    assert ps[k].path[0..] == ps[k].path;
    FeedFrom(ps, k, Text(ps[k].path), limit);
  }

  /** At most n pages, each read from the last name of the one before. */
  function ReadPages(t: Trie, cursor: Bytes, limit: nat, n: nat): seq<ListEntry>
    decreases n
  {
    if n == 0 then []
    else
      var page := SeekFrom(t, cursor, Some(limit));
      if page.hasMore && page.entries != []
      then page.entries + ReadPages(t, page.entries[|page.entries| - 1].name, limit, n - 1)
      else page.entries
  }

  lemma {:induction false} PagesResume(t: Trie, m: map<Path, RRSets>, i: nat, limit: nat, n: nat)
    requires WF(t) && Denotes(t, m) && ProperZone(m)
    requires i < |Listing(t)| && Listing(t)[i].name != [] && limit > 0 && n > |Listing(t)| - i - 1
    requires forall j :: i < j < |Listing(t)| ==> Listing(t)[j].name != []
    ensures ReadPages(t, Listing(t)[i].name, limit, n) == Listing(t)[i + 1..]
    decreases n
  {
    hide Listing, WF, Denotes, ProperZone, SeekFrom;
    var w := Listing(t);
    SeekResumes(t, m, i, Some(limit));
    var rest := w[i + 1..];
    if limit < |rest| {
      PageSplits(w, i, limit);
      PagesResume(t, m, i + limit, limit, n - 1);
    }
  }

  lemma PageSplits(w: seq<ListEntry>, i: nat, limit: nat)
    requires 0 < limit && i + limit + 1 <= |w|
    ensures w[i + 1..][..limit][limit - 1] == w[i + limit]
    ensures w[i + 1..] == w[i + 1..][..limit] + w[i + limit + 1..]
  {
  }

  lemma RootListedFirst(t: Trie, m: map<Path, RRSets>, i: nat)
    requires WF(t) && Denotes(t, m) && ProperZone(m) && i < |Listing(t)| && Listing(t)[i].name == []
    ensures i == 0 && t.rr != []
  {
    var ps := Places(t, []);
    var k := StoredPosition(ps, i);
    assert Text(ps[k].path) == [];
    PlacesProper(t, m, ps[k]);
    if ps[k].path != [] { TextProper(ps[k].path); }
    PlacesDistinct(t, []);
    assert ps[0] == Place([], t.rr);
    assert Listing(t)[0] == EntryOf(ps[0]);
    ListingDistinct(t, m);
  }

  /**
   Reading page after page gives the whole listing, exactly when a cursor is never the root's
   empty name: pages of one entry on a tree with records at the root repeat the first page.
   */
  lemma PagesGiveListing(t: Trie, m: map<Path, RRSets>, limit: nat, n: nat)
    requires WF(t) && Denotes(t, m) && ProperZone(m) && limit > 0 && n > |Listing(t)|
    ensures ReadPages(t, [], limit, n) == Listing(t) <==> limit > 1 || t.rr == [] || |Listing(t)| <= 1
  {
    hide Listing, WF, Denotes, ProperZone, SeekFrom, ReadPages;
    var w := Listing(t);
    SeekFromStart(t, Some(limit));
    PagesStep(t, [], limit, n);
    if limit < |w| {
      assert w[..limit][limit - 1] == w[limit - 1];
      if limit > 1 || t.rr == [] {
        forall j | 0 <= j < |w| && w[j].name == [] ensures j == 0 && t.rr != [] { RootListedFirst(t, m, j); }
        PagesResume(t, m, limit - 1, limit, n - 1);
        assert w == w[..limit] + w[limit..];
      } else {
        FirstPageRepeats(t, m, n);
      }
    }
  }

  lemma PagesStep(t: Trie, cursor: Bytes, limit: nat, n: nat)
    requires n > 0
    ensures
      var page := SeekFrom(t, cursor, Some(limit));
      ReadPages(t, cursor, limit, n) ==
      if page.hasMore && page.entries != []
      then page.entries + ReadPages(t, page.entries[|page.entries| - 1].name, limit, n - 1)
      else page.entries
  {
  }

  /** The root's empty name as a cursor asks for the first page again. */
  lemma FirstPageRepeats(t: Trie, m: map<Path, RRSets>, n: nat)
    requires WF(t) && Denotes(t, m) && ProperZone(m) && t.rr != [] && |Listing(t)| > 1 && n > |Listing(t)|
    ensures ReadPages(t, [], 1, n) != Listing(t)
  {
    hide WF, Denotes, ProperZone, SeekFrom, ReadPages, Places, Stored;
    var w := Listing(t);
    SeekFromStart(t, Some(1));
    RootEntry(t);
    PagesStep(t, [], 1, n);
    PagesStep(t, [], 1, n - 1);
    var again := ReadPages(t, [], 1, n - 1);
    ListingDistinct(t, m);
    assert w[..1] == [w[0]];
    assert ReadPages(t, [], 1, n) == [w[0]] + again && again[0] == w[0];
    assert ReadPages(t, [], 1, n)[1] == w[0] != w[1];
  }

  lemma RootEntry(t: Trie)
    requires t.rr != []
    ensures Listing(t) != [] && Listing(t)[0].name == []
  {
    assert Places(t, [])[0] == Place([], t.rr);
  }

  lemma {:induction false} PlainFromNames(t: Trie)
    requires WF(t) && forall q :: Lookup(t, q) != [] ==> PlainLabels(q)
    ensures PlainTrie(t)
  {
    if t.wild.Some? { PlainBelow(t, WILD); PlainFromNames(t.wild.value); }
    forall i | 0 <= i < |t.kids| ensures t.kids[i].lab != [] && PlainTrie(t.kids[i].sub) {
      SlotOfKid(t.kids, i);
      PlainBelow(t, t.kids[i].lab);
      PlainFromNames(t.kids[i].sub);
    }
  }

  lemma PlainBelow(t: Trie, l: Label)
    requires WF(t) && (forall q :: Lookup(t, q) != [] ==> PlainLabels(q)) && Child(t, l).Some?
    ensures l != []
    ensures forall q :: Lookup(Child(t, l).value, q) != [] ==> PlainLabels(q)
  {
    var c := Child(t, l).value;
    ChildWF(t, l);
    forall q | Lookup(c, q) != [] ensures l != [] && PlainLabels(q) {
      var lq := [l] + q;
      assert lq[1..] == q;
      LookupStep(t, lq);
      assert PlainLabels(lq);
      assert lq[0] == l && forall i :: 0 <= i < |q| ==> q[i] == lq[i + 1];
    }
    var w := LiveHasName(c);
  }

  /** Seek on the tree: a page of the listing after a cursor. */
  method Seek(tree: Tree, after: Bytes, limit: Option<nat>) returns (page: Page)
    requires tree.Valid()
    ensures page == SeekFrom(tree.trie, after, limit)
  {
    if after != [] {
      var target := FindNode(tree.state.root, after, tree.trie, tree.repr);
      if target == null { return Page([], false); }
    }
    var v := new Visitor(after, limit);
    var buf := new Byte[BUF_SIZE];
    assert buf[BUF_SIZE..] == Text([]);
    PlainFromNames(tree.trie);
    var _ := WalkFrom(tree.state.root, BUF_SIZE, buf, v, [], tree.trie, tree.repr);
    return Page(v.now.out, v.now.hasMore);
  }
}
