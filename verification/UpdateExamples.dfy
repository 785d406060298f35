/**
 UPDATE messages, byte for byte, that show what the order of writing (internal/rfc2136/update.go) and the raising of
 serials (internal/store/batch.go) can do.
 */
module UpdateExamples {
  import opened Octets
  import opened Records
  import opened Names
  import opened Zones
  import opened Operations
  import opened Tries
  import opened Resolution
  import opened AnswerMeanings
  import opened WireNames
  import SoaRecords
  import opened ZoneSerials
  import opened SerialLifts
  import opened UpdateRules
  import opened DynamicUpdate
  import opened UpdateSections
  import UpdateNames
  import opened WriteOrder
  import opened ZoneConfinement

  // ---- messages without prerequisites and compression ----

  predicate LiesAt(b: Bytes, off: nat, s: Bytes) {
    off + |s| <= |b| && b[off..off + |s|] == s
  }

  /** Wherever the bytes lie they spell the labels. */
  ghost predicate Spelt(name: Bytes, ls: seq<Bytes>) {
    forall b: Bytes, off: nat :: LiesAt(b, off, name) ==> NameAt(b, off, ls, off + |name|)
  }

  /** A record with the bytes and the labels of its owner. */
  datatype Wired = Wired(owner: Bytes, labels: seq<Bytes>, rr: RawRR)

  ghost predicate WellWired(w: Wired) {
    Spelt(w.owner, w.labels) && |w.rr.rdata| < 0x1_0000 && w.rr.name == CanonicalName(NameText(w.labels))
  }

  ghost predicate AllWired(ws: seq<Wired>) {
    forall i :: 0 <= i < |ws| ==> WellWired(ws[i])
  }

  function Carried(ws: seq<Wired>): Bytes
    requires forall i :: 0 <= i < |ws| ==> |ws[i].rr.rdata| < 0x1_0000
  {
    if ws == [] then [] else ws[0].owner + Fixed(ws[0].rr) + ws[0].rr.rdata + Carried(ws[1..])
  }

  function RecordsOfAll(ws: seq<Wired>): (rrs: seq<RawRR>)
    ensures |rrs| == |ws|
  {
    if ws == [] then [] else [ws[0].rr] + RecordsOfAll(ws[1..])
  }

  function Header(zone: Bytes, n: U16): (h: Bytes)
    ensures |h| == 16 + |zone|
  {
    [0, 0, 0x28, 0] + PutU16(1) + PutU16(0) + PutU16(n) + PutU16(0) + zone + PutU16(TYPE_SOA) + PutU16(CLASS_IN)
  }

  function Update(zone: Bytes, ws: seq<Wired>): Bytes
    requires |ws| < 0x1_0000 && forall i :: 0 <= i < |ws| ==> |ws[i].rr.rdata| < 0x1_0000
  {
    Header(zone, |ws|) + Carried(ws)
  }

  lemma EmptySection(b: Bytes, off: nat)
    ensures SectionAt(b, off, [], off)
  {
  }

  lemma SectionCons(b: Bytes, off: nat, ls: seq<Bytes>, rr: RawRR, mid: nat, rest: seq<RawRR>, next: nat)
    requires RecordAt(b, off, ls, rr, mid) && SectionAt(b, mid, rest, next)
    ensures SectionAt(b, off, [rr] + rest, next)
  {
    hide RecordAt;
    var all := [rr] + rest;
    assert all[0] == rr && all[1..] == rest;
    assert RecordAt(b, off, ls, all[0], mid) && SectionAt(b, mid, all[1..], next);
  }

  /** A record lies where its bytes were put. */
  lemma WiredLies(pre: Bytes, w: Wired, post: Bytes)
    requires WellWired(w)
    ensures var b := pre + (w.owner + Fixed(w.rr) + w.rr.rdata) + post;
            RecordAt(b, |pre|, w.labels, w.rr, |pre| + |w.owner| + RR_HEADER + |w.rr.rdata|)
  {
    hide NameAt, CanonicalName, NameText, Fixed;
    var b := pre + (w.owner + Fixed(w.rr) + w.rr.rdata) + post;
    var e := |pre| + |w.owner|;
    assert b == pre + w.owner + (Fixed(w.rr) + w.rr.rdata) + post;
    assert LiesAt(b, |pre|, w.owner);
    assert b[e..e + RR_HEADER + |w.rr.rdata|] == Fixed(w.rr) + w.rr.rdata;
  }

  lemma {:induction false} CarriedLies(pre: Bytes, ws: seq<Wired>)
    requires AllWired(ws)
    ensures SectionAt(pre + Carried(ws), |pre|, RecordsOfAll(ws), |pre + Carried(ws)|)
    decreases |ws|
  {
    hide WellWired, Fixed, SectionAt, RecordAt;
    if ws == [] {
      assert pre + [] == pre;
      EmptySection(pre, |pre|);
    } else {
      assert forall i :: 0 <= i < |ws| - 1 ==> ws[1..][i] == ws[i + 1];
      SizesFit(ws);
      var w := ws[0];
      var one, rest := w.owner + Fixed(w.rr) + w.rr.rdata, Carried(ws[1..]);
      assert pre + Carried(ws) == pre + one + rest;
      WiredLies(pre, w, rest);
      CarriedLies(pre + one, ws[1..]);
      SectionCons(pre + Carried(ws), |pre|, w.labels, w.rr, |pre + one|, RecordsOfAll(ws[1..]), |pre + Carried(ws)|);
    }
  }

  lemma SizesFit(ws: seq<Wired>)
    requires AllWired(ws)
    ensures forall i :: 0 <= i < |ws| ==> |ws[i].rr.rdata| < 0x1_0000
  {
    hide Spelt;
  }

  lemma HeaderLies(zone: Bytes, ls: seq<Bytes>, n: U16, rest: Bytes)
    requires Spelt(zone, ls)
    ensures var b := Header(zone, n) + rest;
            ZoneAt(b, ls, 16 + |zone|) && GetU16(b[6..8]) == 0 && GetU16(b[8..10]) == n
  {
    hide NameAt;
    var b := Header(zone, n) + rest;
    assert b[4..6] == PutU16(1) && b[6..8] == PutU16(0) && b[8..10] == PutU16(n);
    assert LiesAt(b, HEADER_SIZE, zone);
    var e := 12 + |zone|;
    assert b[e..e + 4] == PutU16(TYPE_SOA) + PutU16(CLASS_IN);
    U16RoundTrip(n);
  }

  /** Such a message for a zone that is served succeeds with its records when all of them lie in the zone. */
  lemma UpdateSucceeds(s: Store, zone: Bytes, ls: seq<Bytes>, ws: seq<Wired>)
    requires Spelt(zone, ls) && AllWired(ws) && |ws| < 0x1_0000
    requires var z := CanonicalName(NameText(ls)); (z in s || z == [DOT]) && AllInZone(RecordsOfAll(ws), z)
    ensures forall i :: 0 <= i < |ws| ==> |ws[i].rr.rdata| < 0x1_0000
    ensures Verdict(s, Update(zone, ws)) == (Success, RecordsOfAll(ws))
    ensures ReadZone(Update(zone, ws)).Some? && ReadZone(Update(zone, ws)).value.0 == CanonicalName(NameText(ls))
  {
    hide Verdict, ZoneAt, SectionAt, NameText, GetU16, Spelt, CanonicalName, AllInZone, WellWired, Carried,
         RecordsOfAll, ReadZone, Header;
    SizesFit(ws);
    var b, ups, off := Update(zone, ws), RecordsOfAll(ws), 16 + |zone|;
    HeaderLies(zone, ls, |ws|, Carried(ws));
    CarriedLies(Header(zone, |ws|), ws);
    EmptySection(b, off);
    assert MessageAt(b, ls, [], ups);
    MessageSucceedsIff(s, b, ls, [], ups);
    assert AllInZone([], CanonicalName(NameText(ls))) by { NoneInZone(CanonicalName(NameText(ls))); }
    ReadsZoneIff(b, CanonicalName(NameText(ls)), off);
  }

  lemma NoneInZone(z: Bytes)
    ensures AllInZone([], z)
  {
  }

  lemma RootHoldsAll(rrs: seq<RawRR>)
    ensures AllInZone(rrs, [DOT])
  {
    assert CanonicalName([DOT]) == [DOT];
  }

  // ---- the names of the examples ----

  const A_LABEL: Bytes := [97]
  const DOT_LABEL: Bytes := [DOT]

  const ROOT_WIRE: Bytes := [0]
  const A_WIRE: Bytes := [1, 97, 0]
  const A_DOT_WIRE: Bytes := [1, 97, 1, DOT, 0]

  const A_NAME: Bytes := [97, DOT]
  const A_DOT_NAME: Bytes := [97, DOT, DOT]

  lemma RootSpelt()
    ensures Spelt(ROOT_WIRE, []) && CanonicalName(NameText([])) == [DOT] && PathOf([DOT]) == []
  {
    forall b: Bytes, off: nat | LiesAt(b, off, ROOT_WIRE) ensures NameAt(b, off, [], off + 1) {
      assert b[off] == b[off..off + 1][0];
      SpellsRoot(b, 0, off, MAX_JUMPS);
    }
    DotIsRoot();
  }

  lemma ASpelt()
    ensures Spelt(A_WIRE, [A_LABEL])
  {
    forall b: Bytes, off: nat | LiesAt(b, off, A_WIRE) ensures NameAt(b, off, [A_LABEL], off + 3) {
      assert b[off] == b[off..off + 3][0] && b[off + 1] == b[off..off + 3][1] && b[off + 2] == b[off..off + 3][2];
      assert b[off + 1..off + 2] == [97] && LowerAll([97]) == [97];
      SpellsRoot(b, 0, off + 2, MAX_JUMPS);
      SpellsLabel(b, 0, off, A_LABEL, [], MAX_JUMPS);
      assert [A_LABEL] + [] == [A_LABEL];
      TextSizeCons(A_LABEL, []);
    }
  }

  lemma ADotLies(b: Bytes, off: nat)
    requires LiesAt(b, off, A_DOT_WIRE)
    ensures NameAt(b, off, [A_LABEL, DOT_LABEL], off + 5)
  {
    hide Spells;
    var w := b[off..off + 5];
    assert b[off] == w[0] && b[off + 1] == w[1] && b[off + 2] == w[2] && b[off + 3] == w[3] && b[off + 4] == w[4];
    assert b[off + 1..off + 2] == [97] && b[off + 3..off + 4] == [DOT];
    assert LowerAll([97]) == [97] && LowerAll([DOT]) == [DOT];
    assert [DOT_LABEL] + [] == [DOT_LABEL] && [A_LABEL] + [DOT_LABEL] == [A_LABEL, DOT_LABEL];
    SpellsRoot(b, 0, off + 4, MAX_JUMPS);
    SpellsLabel(b, 0, off + 2, DOT_LABEL, [], MAX_JUMPS);
    SpellsLabel(b, 0, off, A_LABEL, [DOT_LABEL], MAX_JUMPS);
    TextSizeCons(DOT_LABEL, []);
    TextSizeCons(A_LABEL, [DOT_LABEL]);
    assert Skip(b, off + 4) == off + 5 && Skip(b, off + 2) == off + 5;
  }

  lemma ADotSpelt()
    ensures Spelt(A_DOT_WIRE, [A_LABEL, DOT_LABEL])
  {
    hide NameAt;
    forall b: Bytes, off: nat | LiesAt(b, off, A_DOT_WIRE) ensures NameAt(b, off, [A_LABEL, DOT_LABEL], off + 5) {
      ADotLies(b, off);
    }
  }

  lemma NamesOfA()
    ensures CanonicalName(NameText([A_LABEL])) == A_NAME
    ensures CanonicalName(NameText([A_LABEL, DOT_LABEL])) == A_DOT_NAME
    ensures PathOf(A_NAME) == [A_LABEL] && PathOf(A_DOT_NAME) == [A_LABEL]
  {
    hide PathOf, NameText, CanonicalName;
    TextsOfA();
    CanonicalTexts();
    assert A_NAME + [DOT] == A_DOT_NAME && [97] + [DOT] == A_NAME;
    UpdateNames.TrailingDot(A_NAME);
    UpdateNames.TrailingDot([97]);
    PathOfA();
  }

  lemma PathOfA()
    ensures PathOf([97]) == [A_LABEL]
  {
    assert LastDot([97], 1) == -1;
    assert [97][..1] == [97] && LowerAll([97]) == [97];
    assert Hops([97], 1) == [Hop(A_LABEL, 0)] + Hops([97], 0);
    HopsAtStart([97]);
  }

  lemma TextsOfA()
    ensures NameText([A_LABEL]) == [97] && NameText([A_LABEL, DOT_LABEL]) == [97, DOT, DOT]
  {
    hide Dotted;
    DottedNone();
    DottedCons(A_LABEL, []);
    DottedCons(DOT_LABEL, []);
    DottedCons(A_LABEL, [DOT_LABEL]);
    assert [A_LABEL] + [] == [A_LABEL] && [DOT_LABEL] + [] == [DOT_LABEL];
    assert [A_LABEL] + [DOT_LABEL] == [A_LABEL, DOT_LABEL];
  }

  lemma CanonicalTexts()
    ensures CanonicalName([97]) == A_NAME && CanonicalName(A_DOT_NAME) == A_DOT_NAME
  {
    assert LowerAll([97]) == [97];
    assert LowerAll(A_DOT_NAME) == A_DOT_NAME;
  }

  function Added(name: Bytes, t: U16, ttl: U32, rdata: Bytes): RawRR {
    RawRR(name, t, CLASS_IN, ttl, rdata)
  }

  lemma FoldOfTwo(a: RRSets, b: RRSets, u: RawRR, v: RawRR)
    requires u.name != v.name
    ensures Fold(a, [u, v], u.name) == UpdateSets(a, u) && Fold(b, [u, v], v.name) == UpdateSets(b, v)
    ensures NamesOf([u, v]) == {u.name, v.name}
  {
    hide UpdateSets;
    assert [u, v] == [u] + [v] && [u] == [] + [u];
    assert u in [u, v] && v in [u, v];
    FoldSnoc(a, [u], v, u.name);
    FoldSnoc(a, [], u, u.name);
    FoldSnoc(b, [u], v, v.name);
    FoldSnoc(b, [], u, v.name);
  }

  lemma TwoWired(u: Wired, v: Wired)
    requires WellWired(u) && WellWired(v)
    ensures AllWired([u, v]) && RecordsOfAll([u, v]) == [u.rr, v.rr]
  {
    hide WellWired;
    assert [u, v][1..] == [v] && [v][1..] == [];
    assert RecordsOfAll([v]) == [v.rr] + [];
  }

  // ---- two spellings of one path ----

  function SpellingsSection(t: U16, ttl: U32, x: Bytes, y: Bytes): seq<Wired> {
    [Wired(A_WIRE, [A_LABEL], Added(A_NAME, t, ttl, x)),
     Wired(A_DOT_WIRE, [A_LABEL, DOT_LABEL], Added(A_DOT_NAME, t, ttl, y))]
  }

  lemma SpellingsWired(t: U16, ttl: U32, x: Bytes, y: Bytes)
    requires |x| < 0x1_0000 && |y| < 0x1_0000
    ensures AllWired(SpellingsSection(t, ttl, x, y))
    ensures RecordsOfAll(SpellingsSection(t, ttl, x, y)) == [Added(A_NAME, t, ttl, x), Added(A_DOT_NAME, t, ttl, y)]
  {
    hide Spelt, NameText, CanonicalName;
    ASpelt();
    ADotSpelt();
    NamesOfA();
    var ws := SpellingsSection(t, ttl, x, y);
    TwoWired(ws[0], ws[1]);
  }

  lemma SpellingsLeave(t: U16, ttl: U32, x: Bytes, y: Bytes)
    requires t != TYPE_ANY && x != [] && y != []
    ensures PendingOf(map[], [Added(A_NAME, t, ttl, x), Added(A_DOT_NAME, t, ttl, y)]) ==
            map[A_NAME := [RRSet(t, CLASS_IN, ttl, [x])], A_DOT_NAME := [RRSet(t, CLASS_IN, ttl, [y])]]
  {
    hide PathOf, Fold;
    FoldOfTwo([], [], Added(A_NAME, t, ttl, x), Added(A_DOT_NAME, t, ttl, y));
  }

  /** Upserts of a single path in an empty tree raise nothing but their own serial. */
  lemma {:induction false} OnePathLifts(ops: seq<Op>, path: Path, p: Path)
    requires forall i :: 0 <= i < |ops| ==> ops[i].Upsert? && PathOfOp(ops[i]) == path
    ensures Lifts(map[], ops, p) == One(ops != [] && p == path) && ApplyAll(map[], ops).Keys <= {path}
    decreases |ops|
  {
    hide PathOfOp, Raises;
    if ops != [] {
      var n := |ops| - 1;
      OnePathLifts(ops[..n], path, p);
      var s := ApplyAll(map[], ops[..n]);
      if Raises(s, ops[n], p) { RaisesStored(s, ops[n], p); }
    }
  }

  lemma SpellingsFree(final: Pendings, path: Path)
    requires final != map[] && forall d :: d in final ==> final[d] != [] && PathOf(d) == path
    ensures SerialsFree(map[], final)
  {
    hide PathOf, Lifts, ApplyAll, Movable;
    forall x, y, p | OrderOf(x, final.Keys) && OrderOf(y, final.Keys)
      ensures SameCount(map[], Writes(final, x), Writes(final, y), p)
    {
      var d :| d in final;
      assert d in x && d in y;
      OnePathLifts(Writes(final, x), path, p);
      OnePathLifts(Writes(final, y), path, p);
    }
  }

  /**
   A well-formed UPDATE of the root zone, whose two owners are the labels "a" and the labels "a" and ".": it succeeds,
   its names are different canonical texts of one path, and the tree it leaves depends on the order of writing
   exactly when the two data differ.
   */
  lemma SpellingsCollide(t: U16, ttl: U32, x: Bytes, y: Bytes)
    requires t != TYPE_ANY && 0 < |x| < 0x1_0000 && 0 < |y| < 0x1_0000
    ensures var ups := [Added(A_NAME, t, ttl, x), Added(A_DOT_NAME, t, ttl, y)];
            && Verdict(map[], Update(ROOT_WIRE, SpellingsSection(t, ttl, x, y))) == (Success, ups)
            && A_NAME != A_DOT_NAME && PathOf(A_NAME) == PathOf(A_DOT_NAME)
            && (OrderFree(map[], PendingOf(map[], ups)) <==> x == y)
  {
    hide PathOf, OrderFree, Verdict, NameText, Update, Spelt, WellWired, CanonicalName, SerialsFree, PendingOf;
    var ups := [Added(A_NAME, t, ttl, x), Added(A_DOT_NAME, t, ttl, y)];
    var final: Pendings := PendingOf(map[], ups);
    NamesOfA();
    RootSpelt();
    SpellingsWired(t, ttl, x, y);
    RootHoldsAll(ups);
    UpdateSucceeds(map[], ROOT_WIRE, [], SpellingsSection(t, ttl, x, y));
    SpellingsLeave(t, ttl, x, y);
    OrderFreeIff(map[], final);
    assert A_NAME in final && A_DOT_NAME in final;
    SpellingsFree(final, [A_LABEL]);
    assert final[A_NAME][0].rdata[0] == x && final[A_DOT_NAME][0].rdata[0] == y;
  }

  // ---- an apex and a name below it ----

  function SoaSet(ttl: U32, data: Bytes): RRSet {
    RRSet(TYPE_SOA, CLASS_IN, ttl, [data])
  }

  /** In a tree of the root and at most "a", with an SOA at the root only, the root is the apex of "a". */
  lemma RootIsApex(m: Zone, d: Bytes)
    requires PathOf(d) == [A_LABEL] && forall p :: p in m ==> p == [] || p == [A_LABEL]
    requires Search(RecordsAt(m, []), TYPE_SOA).Some? && Search(RecordsAt(m, []), TYPE_SOA).value.rdata != []
    requires var rr := RecordsAt(m, [A_LABEL]); !Has(rr, TYPE_SOA) && !Has(rr, TYPE_NS) && !Has(rr, TYPE_CNAME)
    ensures EnclosingApex(m, d) == Some(0)
  {
    hide PathOf, QueryHops;
    HopsArePath(d);
    var q := Query(d, TYPE_SOA);
    var hs := QueryHops(q);
    assert At(hs, 0) == [] && At(hs, 1) == [A_LABEL];
    assert Has(m[[]], TYPE_SOA);
    assert !IsCut(m, q, hs, 0) && !IsCut(m, q, hs, 1);
    assert !HasStar(m, hs, 0) by { NoStar(m, hs); }
    assert DeepestStar(m, hs, 1) == None && StarRecords(m, hs, 1) == [];
    assert !Has([], TYPE_SOA) && !Has([], TYPE_CNAME);
    assert !IsApex(m, hs, 1) && IsApex(m, hs, 0);
    assert DeepestApex(m, hs, 1) == Some(0);
  }

  lemma NoStar(m: Zone, hs: seq<Hop>)
    requires forall p :: p in m ==> p == [] || p == [A_LABEL]
    ensures !HasStar(m, hs, 0)
  {
    assert At(hs, 0) + [WILD] == [WILD];
    assert A_LABEL != WILD && [A_LABEL][0] != [WILD][0];
    forall p | p in m ensures !([WILD] <= p) {}
  }

  function BelowSection(t: U16, ttl: U32, x: Bytes, y: Bytes): seq<Wired> {
    [Wired(ROOT_WIRE, [], Added([DOT], t, ttl, x)), Wired(A_WIRE, [A_LABEL], Added(A_NAME, t, ttl, y))]
  }

  function BelowUps(t: U16, ttl: U32, x: Bytes, y: Bytes): seq<RawRR> {
    [Added([DOT], t, ttl, x), Added(A_NAME, t, ttl, y)]
  }

  /** A tree with an SOA at the root and nothing else. */
  function ApexTree(ttl: U32, data: Bytes): Zone {
    map[[] := [SoaSet(ttl, data)]]
  }

  ghost predicate RootSerial(z: Zone, n: nat) {
    Movable(RecordsAt(z, [])) && SerialIn(RecordsAt(z, [])) == n % SoaRecords.U32_SPAN
  }

  lemma BelowWired(t: U16, ttl: U32, x: Bytes, y: Bytes)
    requires |x| < 0x1_0000 && |y| < 0x1_0000
    ensures AllWired(BelowSection(t, ttl, x, y)) && RecordsOfAll(BelowSection(t, ttl, x, y)) == BelowUps(t, ttl, x, y)
  {
    hide Spelt, NameText, CanonicalName;
    ASpelt();
    RootSpelt();
    NamesOfA();
    var ws := BelowSection(t, ttl, x, y);
    TwoWired(ws[0], ws[1]);
  }

  lemma BelowSucceeds(s: Store, t: U16, ttl: U32, x: Bytes, y: Bytes)
    requires |x| < 0x1_0000 && |y| < 0x1_0000
    ensures Verdict(s, Update(ROOT_WIRE, BelowSection(t, ttl, x, y))) == (Success, BelowUps(t, ttl, x, y))
  {
    hide Verdict, NameText, Update, Spelt, WellWired, CanonicalName;
    RootSpelt();
    BelowWired(t, ttl, x, y);
    RootHoldsAll(BelowUps(t, ttl, x, y));
    UpdateSucceeds(s, ROOT_WIRE, [], BelowSection(t, ttl, x, y));
  }

  lemma AddsBehind(soa: RRSet, up: RawRR)
    requires Adds(up) && soa.rtype != up.rtype
    ensures UpdateSets([soa], up) == [soa, NewSet(up)] && UpdateSets([], up) == [NewSet(up)]
  {
    assert [soa][1..] == [] && AddRecord([], up) == [NewSet(up)];
    assert [soa] + [NewSet(up)] == [soa, NewSet(up)];
  }

  lemma BelowLeave(ttl0: U32, data: Bytes, t: U16, ttl: U32, x: Bytes, y: Bytes)
    requires t != TYPE_ANY && t != TYPE_SOA && x != [] && y != []
    ensures PendingOf(ApexTree(ttl0, data), BelowUps(t, ttl, x, y)) ==
            map[[DOT] := [SoaSet(ttl0, data), RRSet(t, CLASS_IN, ttl, [x])], A_NAME := [RRSet(t, CLASS_IN, ttl, [y])]]
  {
    hide PathOf, Fold, UpdateSets;
    RootSpelt();
    NamesOfA();
    var ups := BelowUps(t, ttl, x, y);
    FoldOfTwo([SoaSet(ttl0, data)], [], ups[0], ups[1]);
    AddsBehind(SoaSet(ttl0, data), ups[0]);
    AddsBehind(SoaSet(ttl0, data), ups[1]);
  }

  lemma SoaMovable(ttl: U32, data: Bytes, rest: RRSets)
    requires SoaRecords.SerialAt(data).Some?
    ensures var sets := [SoaSet(ttl, data)] + rest; Movable(sets) && SerialIn(sets) == SerialOf(data)
    ensures var sets := [SoaSet(ttl, data)] + rest;
            Search(sets, TYPE_SOA).Some? && Search(sets, TYPE_SOA).value.rdata != [] && HasSerial(sets)
  {
    hide SoaRecords.SerialAt;
    var sets := [SoaSet(ttl, data)] + rest;
    assert sets[0] == SoaSet(ttl, data);
    assert FirstSoa(sets, 0) == Some(0);
  }

  lemma NewNotSoa(t: U16, ttl: U32, y: Bytes)
    requires t != TYPE_SOA
    ensures !HasSerial([RRSet(t, CLASS_IN, ttl, [y])])
  {
  }

  lemma {:induction false} ApexRaised(ttl0: U32, data: Bytes, top: RRSets, below: RRSets)
    requires SoaRecords.SerialAt(data).Some? && !HasSerial(below) && top != [] && top[0] == SoaSet(ttl0, data)
    ensures Raises(Apply(ApexTree(ttl0, data), Upsert([DOT], top)), Upsert(A_NAME, below), [])
  {
    hide PathOf, EnclosingApex, HasSerial, SoaRecords.SerialAt, Search;
    RootSpelt();
    NamesOfA();
    assert top == [SoaSet(ttl0, data)] + top[1..];
    SoaMovable(ttl0, data, top[1..]);
    assert !Has([], TYPE_SOA) && !Has([], TYPE_NS) && !Has([], TYPE_CNAME);
    RootIsApex(Apply(ApexTree(ttl0, data), Upsert([DOT], top)), A_NAME);
  }

  /** The root first: its serial is raised by its own write, and again by the write below it. */
  lemma ApexCounts(ttl0: U32, data: Bytes, top: RRSets, below: RRSets)
    requires SoaRecords.SerialAt(data).Some? && below != [] && !HasSerial(below)
    requires top != [] && top[0] == SoaSet(ttl0, data)
    ensures var m := ApexTree(ttl0, data);
            var a, b := Upsert([DOT], top), Upsert(A_NAME, below);
            && Lifts(m, [a, b], []) == 2 && Lifts(m, [b, a], []) == 1
            && RecordsAt(ApplyAll(m, [a, b]), []) == top && RecordsAt(ApplyAll(m, [b, a]), []) == top
  {
    hide PathOf, Raises, ApplyAll, Lifts, HasSerial, SoaRecords.SerialAt;
    RootSpelt();
    NamesOfA();
    var m := ApexTree(ttl0, data);
    var a, b := Upsert([DOT], top), Upsert(A_NAME, below);
    ApexRaised(ttl0, data, top, below);
    LiftsOfTwo(m, a, b, []);
    LiftsOfTwo(m, b, a, []);
    PlainTwo(m, a, b, []);
    PlainTwo(m, b, a, []);
  }

  lemma ApexSerials(ttl0: U32, data: Bytes, top: RRSets, below: RRSets)
    requires SoaRecords.SerialAt(data).Some? && below != [] && !HasSerial(below)
    requires top != [] && top[0] == SoaSet(ttl0, data)
    ensures var m := ApexTree(ttl0, data);
            var a, b := Upsert([DOT], top), Upsert(A_NAME, below);
            && RootSerial(ThroughAll(m, [a, b]), SerialOf(data) + 2)
            && RootSerial(ThroughAll(m, [b, a]), SerialOf(data) + 1)
  {
    hide PathOf, ThroughAll, ApplyAll, Lifts, Movable, SerialIn, HasSerial, Lifted, SerialOf, SoaRecords.SerialAt,
         Search;
    var m := ApexTree(ttl0, data);
    var a, b := Upsert([DOT], top), Upsert(A_NAME, below);
    ApexCounts(ttl0, data, top, below);
    ThroughAllAt(m, [a, b]);
    ThroughAllAt(m, [b, a]);
    assert LiftedBy(ThroughAll(m, [a, b]), ApplyAll(m, [a, b]), [], 2);
    assert LiftedBy(ThroughAll(m, [b, a]), ApplyAll(m, [b, a]), [], 1);
    assert top == [SoaSet(ttl0, data)] + top[1..];
    SoaMovable(ttl0, data, top[1..]);
    LiftShape(top, 2);
    LiftShape(top, 1);
  }

  /**
   An UPDATE that adds a record at the apex and one below it, names of different paths: written apex first it leaves
   the serial two steps on, apex last one step, so the serial that is served depends on the order.
   */
  lemma ApexAndBelow(ttl0: U32, data: Bytes, t: U16, ttl: U32, x: Bytes, y: Bytes)
    requires SoaRecords.SerialAt(data).Some? && t != TYPE_ANY && t != TYPE_SOA
    requires 0 < |x| < 0x1_0000 && 0 < |y| < 0x1_0000
    ensures Verdict(map[[DOT] := [SoaSet(ttl0, data)]], Update(ROOT_WIRE, BelowSection(t, ttl, x, y))) ==
            (Success, BelowUps(t, ttl, x, y))
    ensures PathOf([DOT]) != PathOf(A_NAME)
    ensures
      var m := ApexTree(ttl0, data);
      var final := PendingOf(m, BelowUps(t, ttl, x, y));
      && final.Keys == {[DOT], A_NAME}
      && RootSerial(ThroughAll(m, Writes(final, [[DOT], A_NAME])), SerialOf(data) + 2)
      && RootSerial(ThroughAll(m, Writes(final, [A_NAME, [DOT]])), SerialOf(data) + 1)
      && !OrderFree(m, final)
  {
    hide PathOf, Verdict, Update, PendingOf, ThroughAll, HasSerial, SerialOf, SoaRecords.SerialAt, RootSerial, Writes,
         OrderFree;
    NamesOfA();
    RootSpelt();
    BelowSucceeds(map[[DOT] := [SoaSet(ttl0, data)]], t, ttl, x, y);
    BelowLeave(ttl0, data, t, ttl, x, y);
    NewNotSoa(t, ttl, y);
    BelowOrders(ttl0, data, PendingOf(ApexTree(ttl0, data), BelowUps(t, ttl, x, y)));
  }

  lemma BelowOrders(ttl0: U32, data: Bytes, final: Pendings)
    requires SoaRecords.SerialAt(data).Some? && final.Keys == {[DOT], A_NAME}
    requires final[[DOT]] != [] && final[[DOT]][0] == SoaSet(ttl0, data)
    requires final[A_NAME] != [] && !HasSerial(final[A_NAME])
    ensures
      var m := ApexTree(ttl0, data);
      && RootSerial(ThroughAll(m, Writes(final, [[DOT], A_NAME])), SerialOf(data) + 2)
      && RootSerial(ThroughAll(m, Writes(final, [A_NAME, [DOT]])), SerialOf(data) + 1)
      && !OrderFree(m, final)
  {
    hide ThroughAll, HasSerial, SerialOf, SoaRecords.SerialAt, RootSerial;
    var m := ApexTree(ttl0, data);
    var top, below := final[[DOT]], final[A_NAME];
    ApexSerials(ttl0, data, top, below);
    var ab, ba := Writes(final, [[DOT], A_NAME]), Writes(final, [A_NAME, [DOT]]);
    assert ab == [Upsert([DOT], top), Upsert(A_NAME, below)] && ba == [Upsert(A_NAME, below), Upsert([DOT], top)];
    NotEqualSerials(ThroughAll(m, ab), ThroughAll(m, ba), SerialOf(data));
    assert OrderOf([[DOT], A_NAME], final.Keys) && OrderOf([A_NAME, [DOT]], final.Keys);
  }

  lemma NotEqualSerials(a: Zone, b: Zone, n: nat)
    requires RootSerial(a, n + 2) && RootSerial(b, n + 1)
    ensures a != b
  {
    hide Movable, SerialIn;
  }

  // ---- an apex above the zone ----

  /** A tree with an SOA at the root and one set at "a". */
  function ZoneTree(ttl: U32, data: Bytes, w: RRSet): Zone {
    map[[] := [SoaSet(ttl, data)], [A_LABEL] := [w]]
  }

  function InsideSection(t: U16, ttl: U32, x: Bytes): seq<Wired> {
    [Wired(A_WIRE, [A_LABEL], Added(A_NAME, t, ttl, x))]
  }

  lemma InsideSucceeds(s: Store, t: U16, ttl: U32, x: Bytes)
    requires |x| < 0x1_0000 && A_NAME in s
    ensures var b := Update(A_WIRE, InsideSection(t, ttl, x));
            Verdict(s, b) == (Success, [Added(A_NAME, t, ttl, x)]) && ReadZone(b).Some? && ReadZone(b).value.0 == A_NAME
  {
    hide Verdict, NameText, Update, Spelt, CanonicalName, ReadZone;
    ASpelt();
    NamesOfA();
    var ws := InsideSection(t, ttl, x);
    assert ws[1..] == [];
    assert [Added(A_NAME, t, ttl, x)] + [] == [Added(A_NAME, t, ttl, x)];
    assert RecordsOfAll(ws) == [Added(A_NAME, t, ttl, x)];
    ZoneHolds(t, ttl, x);
    UpdateSucceeds(s, A_WIRE, [A_LABEL], ws);
  }

  lemma ZoneHolds(t: U16, ttl: U32, x: Bytes)
    ensures AllInZone([Added(A_NAME, t, ttl, x)], A_NAME)
  {
  }

  lemma InsideLeaves(m: Zone, t: U16, ttl: U32, x: Bytes)
    requires t != TYPE_ANY && t != TYPE_SOA && x != [] && !HasSerial(RecordsAt(m, [A_LABEL]))
    ensures var final := PendingOf(m, [Added(A_NAME, t, ttl, x)]);
            final.Keys == {A_NAME} && final[A_NAME] != [] && !HasSerial(final[A_NAME])
  {
    hide PathOf;
    NamesOfA();
    var up := Added(A_NAME, t, ttl, x);
    assert [up] == [] + [up] && up in [up];
    FoldSnoc(RecordsAt(m, [A_LABEL]), [], up, A_NAME);
    AddKeepsBare(RecordsAt(m, [A_LABEL]), up);
  }

  lemma {:induction false} AddKeepsBare(sets: RRSets, up: RawRR)
    requires up.rtype != TYPE_SOA && forall i :: 0 <= i < |sets| ==> sets[i].rtype != TYPE_SOA || sets[i].rdata == []
    ensures var r := AddRecord(sets, up);
            r != [] && forall i :: 0 <= i < |r| ==> r[i].rtype != TYPE_SOA || r[i].rdata == []
  {
    if sets != [] { AddKeepsBare(sets[1..], up); }
  }

  /**
   An UPDATE of a zone name that has records but no SOA, below an apex: it succeeds, and the serial of that apex, which
   lies outside the zone, goes up.
   */
  lemma ApexAboveTouched(ttl0: U32, data: Bytes, w: RRSet, t: U16, ttl: U32, x: Bytes)
    requires SoaRecords.SerialAt(data).Some? && t != TYPE_ANY && t != TYPE_SOA && 0 < |x| < 0x1_0000
    requires w.rtype != TYPE_SOA && w.rtype != TYPE_NS && w.rtype != TYPE_CNAME
    ensures var b := Update(A_WIRE, InsideSection(t, ttl, x));
            && Verdict(map[A_NAME := [w]], b) == (Success, [Added(A_NAME, t, ttl, x)])
            && ReadZone(b).Some? && !(PathOf(ReadZone(b).value.0) <= [])
    ensures var m := ZoneTree(ttl0, data, w);
            var final := PendingOf(m, [Added(A_NAME, t, ttl, x)]);
            && final.Keys == {A_NAME}
            && RootSerial(m, SerialOf(data)) && RootSerial(ThroughAll(m, Writes(final, [A_NAME])), SerialOf(data) + 1)
  {
    hide PathOf, Verdict, Update, PendingOf, ThroughAll, HasSerial, SerialOf, SoaRecords.SerialAt, RootSerial, ReadZone;
    NamesOfA();
    InsideSucceeds(map[A_NAME := [w]], t, ttl, x);
    var m := ZoneTree(ttl0, data, w);
    NotSerial(w);
    InsideLeaves(m, t, ttl, x);
    var final: Pendings := PendingOf(m, [Added(A_NAME, t, ttl, x)]);
    assert Writes(final, [A_NAME]) == [Upsert(A_NAME, final[A_NAME])];
    RootRaised(ttl0, data, w, final[A_NAME]);
  }

  lemma RootRaised(ttl0: U32, data: Bytes, w: RRSet, sets: RRSets)
    requires SoaRecords.SerialAt(data).Some? && !HasSerial(sets)
    requires w.rtype != TYPE_SOA && w.rtype != TYPE_NS && w.rtype != TYPE_CNAME
    ensures var m := ZoneTree(ttl0, data, w);
            RootSerial(m, SerialOf(data)) && RootSerial(ThroughAll(m, [Upsert(A_NAME, sets)]), SerialOf(data) + 1)
  {
    hide PathOf, Through, HasSerial, SerialOf, SoaRecords.SerialAt, Movable, SerialIn, EnclosingApex, Lifted, Search;
    var m := ZoneTree(ttl0, data, w);
    var op := Upsert(A_NAME, sets);
    NamesOfA();
    assert [SoaSet(ttl0, data)] + [] == [SoaSet(ttl0, data)];
    SoaMovable(ttl0, data, []);
    RootIsApex(m, A_NAME);
    ThroughOne(m, op, []);
    ThroughSingle(m, op);
    LiftShape([SoaSet(ttl0, data)], 1);
  }

  lemma NotSerial(w: RRSet)
    requires w.rtype != TYPE_SOA
    ensures !HasSerial([w])
  {
  }

  lemma ThroughSingle(m: Zone, op: Op)
    ensures ThroughAll(m, [op]) == Through(m, op)
  {
    assert [op][..0] == [];
  }
}
