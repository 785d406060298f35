/**
 How far an update reaches (internal/rfc2136/update.go) when its writes go through the store and its serials
 (internal/store/batch.go): its zone, and at most one apex above it.
 */
module ZoneConfinement {
  import opened Octets
  import opened Records
  import opened Names
  import opened Zones
  import opened Operations
  import opened Tries
  import opened Resolution
  import WireNames
  import SoaRecords
  import opened ZoneSerials
  import opened SerialLifts
  import opened UpdateRules
  import opened DynamicUpdate
  import opened UpdateSections
  import UpdateNames
  import opened WriteOrder

  ghost predicate AllBelow(ops: seq<Op>, z: Path) {
    forall i :: 0 <= i < |ops| ==> z <= PathOfOp(ops[i])
  }

  /** The deepest apex above the zone name. */
  ghost predicate ApexAbove(m: Zone, z: Path, p: Path) {
    p < z && HasSerial(RecordsAt(m, p)) && forall i :: |p| < i < |z| ==> !Has(RecordsAt(m, z[..i]), TYPE_SOA)
  }

  lemma {:induction false} PlainOutside(m: Zone, ops: seq<Op>, z: Path, p: Path)
    requires AllBelow(ops, z) && !(z <= p)
    ensures var now := ApplyAll(m, ops); (p in now <==> p in m) && RecordsAt(now, p) == RecordsAt(m, p)
    decreases |ops|
  {
    hide PathOfOp, Apply;
    if ops != [] {
      var n := |ops| - 1;
      PlainOutside(m, ops[..n], z, p);
      AppliedAt(ApplyAll(m, ops[..n]), ops[n]);
    }
  }

  /** Below the apex a mutation raises there is no other on the way to its name. */
  lemma RaisesDeepest(m: Zone, op: Op, p: Path, i: nat)
    requires Raises(m, op, p) && |p| < i <= |PathOfOp(op)|
    ensures !Has(RecordsAt(m, PathOfOp(op)[..i]), TYPE_SOA)
  {
    hide TopCut, Answering, PathOf, QueryHops, Search;
    var q := Query(op.domain, TYPE_SOA);
    HopsArePath(op.domain);
    var hs := QueryHops(q);
    assert !IsApex(m, hs, i);
    assert At(hs, i) == PathOfOp(op)[..i];
    assert !Has([], TYPE_SOA);
  }

  lemma RaisesAbove(m: Zone, s: Zone, op: Op, z: Path, p: Path)
    requires Raises(s, op, p) && z <= PathOfOp(op) && !(z <= p)
    requires forall r :: !(z <= r) ==> RecordsAt(s, r) == RecordsAt(m, r)
    ensures ApexAbove(m, z, p)
  {
    hide Raises, PathOf, HasSerial, Has;
    RaisesStored(s, op, p);
    var path := PathOfOp(op);
    assert path[..|z|] == z && path[..|p|] == p;
    forall i | |p| < i < |z| ensures !Has(RecordsAt(m, z[..i]), TYPE_SOA) {
      RaisesDeepest(s, op, p, i);
      assert path[..i] == z[..i];
    }
  }

  /** A mutation of the run raises p. */
  ghost predicate SomeRaises(m: Zone, ops: seq<Op>, p: Path) {
    exists i :: 0 <= i < |ops| && Raises(ApplyAll(m, ops[..i]), ops[i], p)
  }

  lemma {:induction false} LiftsOutside(m: Zone, ops: seq<Op>, z: Path, p: Path)
    requires AllBelow(ops, z) && !(z <= p)
    ensures Lifts(m, ops, p) > 0 <==> SomeRaises(m, ops, p)
    ensures Lifts(m, ops, p) > 0 ==> ApexAbove(m, z, p)
    decreases |ops|
  {
    hide Raises, PathOfOp, ApplyAll, ApexAbove;
    if ops != [] {
      var n := |ops| - 1;
      var before, s := ops[..n], ApplyAll(m, ops[..n]);
      LiftsOutside(m, before, z, p);
      forall r | !(z <= r) ensures RecordsAt(s, r) == RecordsAt(m, r) { PlainOutside(m, before, z, r); }
      if Raises(s, ops[n], p) { RaisesAbove(m, s, ops[n], z, p); }
      SomeRaisesSnoc(m, ops, p);
    }
  }

  lemma SomeRaisesSnoc(m: Zone, ops: seq<Op>, p: Path)
    requires ops != []
    ensures var n := |ops| - 1;
            SomeRaises(m, ops, p) <==> SomeRaises(m, ops[..n], p) || Raises(ApplyAll(m, ops[..n]), ops[n], p)
  {
    hide Raises, ApplyAll;
    var n := |ops| - 1;
    assert forall i :: 0 <= i < n ==> ops[..n][..i] == ops[..i] && ops[..n][i] == ops[i];
    if i :| 0 <= i < |ops| && Raises(ApplyAll(m, ops[..i]), ops[i], p) {
      if i < n { assert Raises(ApplyAll(m, ops[..n][..i]), ops[..n][i], p); }
    }
    if i :| 0 <= i < n && Raises(ApplyAll(m, ops[..n][..i]), ops[..n][i], p) {
      assert Raises(ApplyAll(m, ops[..i]), ops[i], p);
    }
  }

  /**
   Mutations of names at or below z leave every path outside as it was, except the serial of the deepest apex above
   z, and that is lifted exactly when one of them raises it.
   */
  lemma OutsideZone(m: Zone, ops: seq<Op>, z: Path, p: Path)
    requires AllBelow(ops, z) && !(z <= p)
    ensures LiftedBy(ThroughAll(m, ops), m, p, Lifts(m, ops, p))
    ensures Lifts(m, ops, p) > 0 <==> SomeRaises(m, ops, p)
    ensures Lifts(m, ops, p) > 0 ==> ApexAbove(m, z, p)
    ensures RecordsAt(ThroughAll(m, ops), p) == RecordsAt(m, p) <==>
            (Movable(RecordsAt(m, p)) ==> Lifts(m, ops, p) % SoaRecords.U32_SPAN == 0)
  {
    hide Lifts, ApplyAll, ThroughAll, Lifted, Movable, ApexAbove, SomeRaises;
    ThroughAllAt(m, ops);
    assert LiftedBy(ThroughAll(m, ops), ApplyAll(m, ops), p, Lifts(m, ops, p));
    PlainOutside(m, ops, z, p);
    LiftsOutside(m, ops, z, p);
    LiftNone(RecordsAt(m, p));
    LiftEqualIff(RecordsAt(m, p), Lifts(m, ops, p), 0);
  }

  // ---- a zone that keeps its own SOA ----

  lemma {:induction false} SoaKept(m: Zone, ops: seq<Op>, z: Path)
    requires Has(RecordsAt(m, z), TYPE_SOA)
    requires forall i :: 0 <= i < |ops| && PathOfOp(ops[i]) == z ==> Has(LeftBy(ops[i]), TYPE_SOA)
    ensures Has(RecordsAt(ApplyAll(m, ops), z), TYPE_SOA)
    decreases |ops|
  {
    hide PathOfOp, Apply, Has, LeftBy;
    if ops != [] {
      var n := |ops| - 1;
      SoaKept(m, ops[..n], z);
      AppliedAt(ApplyAll(m, ops[..n]), ops[n]);
    }
  }

  lemma SoaStops(s: Zone, op: Op, z: Path, p: Path)
    requires z <= PathOfOp(op) && !(z <= p) && Has(RecordsAt(s, z), TYPE_SOA)
    ensures !Raises(s, op, p)
  {
    hide PathOf, EnclosingApex, Has;
    if Raises(s, op, p) {
      assert PathOfOp(op)[..|z|] == z && PathOfOp(op)[..|p|] == p;
      RaisesDeepest(s, op, p, |z|);
    }
  }

  /** As long as the zone name has an SOA and keeps it, nothing outside the zone changes. */
  lemma KeptSoaConfines(m: Zone, ops: seq<Op>, z: Path, p: Path)
    requires AllBelow(ops, z) && !(z <= p) && Has(RecordsAt(m, z), TYPE_SOA)
    requires forall i :: 0 <= i < |ops| && PathOfOp(ops[i]) == z ==> Has(LeftBy(ops[i]), TYPE_SOA)
    ensures Lifts(m, ops, p) == 0 && RecordsAt(ThroughAll(m, ops), p) == RecordsAt(m, p)
  {
    hide Lifts, ThroughAll, Raises, ApplyAll, PathOfOp, Has, LeftBy, Lifted, Movable;
    OutsideZone(m, ops, z, p);
    forall i | 0 <= i < |ops| ensures !Raises(ApplyAll(m, ops[..i]), ops[i], p) {
      SoaKept(m, ops[..i], z);
      SoaStops(ApplyAll(m, ops[..i]), ops[i], z, p);
    }
    LiftNone(RecordsAt(m, p));
  }

  // ---- the message ----

  lemma {:induction false} ReadNamesCanonical(b: Bytes, off: nat, n: nat)
    requires ReadRRs(b, off, n).Some?
    ensures var rrs := ReadRRs(b, off, n).value.records;
            forall i :: 0 <= i < |rrs| ==> CanonicalName(rrs[i].name) == rrs[i].name
    decreases n
  {
    hide CanonicalName, ReadRR;
    if n > 0 {
      ReadNamesCanonical(b, ReadRR(b, off).value.1, n - 1);
      ReadNameCanonical(b, off);
    }
  }

  lemma ReadNameCanonical(b: Bytes, off: nat)
    requires ReadRR(b, off).Some?
    ensures var rr := ReadRR(b, off).value.0; CanonicalName(rr.name) == rr.name
  {
    hide CanonicalName, WireNames.Decode, WireNames.NameText;
    UpdateNames.CanonicalStays(WireText(b, off));
  }

  function WireText(b: Bytes, off: nat): Bytes {
    match WireNames.Decode(b, off)
    case Failed(_) => []
    case Name(ls, _) => WireNames.NameText(ls)
  }

  /** All the writes of a successful update are at or below its zone. */
  lemma UpdateWithin(m: Zone, s: Store, b: Bytes, order: seq<Bytes>)
    requires Verdict(s, b).0 == Success && OrderOf(order, NamesOf(Verdict(s, b).1))
    ensures |b| >= HEADER_SIZE && ReadZone(b).Some?
    ensures AllBelow(Writes(PendingOf(m, Verdict(s, b).1), order), PathOf(ReadZone(b).value.0))
  {
    hide ReadRRs, PrerequisitesCode, CanonicalName, PathOf, IsInZone;
    var (zone, off) := ReadZone(b).value;
    var ups := Verdict(s, b).1;
    var final := PendingOf(m, ups);
    ZoneCanonical(b);
    forall i | 0 <= i < |order| ensures PathOf(zone) <= PathOf(order[i]) {
      var u :| u in ups && u.name == order[i];
      var j :| 0 <= j < |ups| && ups[j] == u;
      UpdatesCanonical(s, b, j);
      UpdateNames.InZoneIsBelow(order[i], zone);
    }
  }

  lemma ZoneCanonical(b: Bytes)
    requires |b| >= HEADER_SIZE && ReadZone(b).Some?
    ensures CanonicalName(ReadZone(b).value.0) == ReadZone(b).value.0
  {
    hide CanonicalName;
    UpdateNames.CanonicalStays(WireText(b, HEADER_SIZE));
  }

  lemma UpdatesCanonical(s: Store, b: Bytes, j: nat)
    requires Verdict(s, b).0 == Success && j < |Verdict(s, b).1|
    ensures |b| >= HEADER_SIZE && ReadZone(b).Some?
    ensures CanonicalName(Verdict(s, b).1[j].name) == Verdict(s, b).1[j].name
    ensures IsInZone(Verdict(s, b).1[j].name, ReadZone(b).value.0)
  {
    hide ReadRRs, ReadZone, PrerequisitesCode, CanonicalName, IsInZone;
    var prs := ReadRRs(b, ReadZone(b).value.1, GetU16(b[6..8])).value;
    ReadNamesCanonical(b, prs.next, GetU16(b[8..10]));
  }

  /**
   A successful update, its names written in any order, leaves every path outside its zone as it was, except the
   serial of the deepest apex above the zone name, which is lifted exactly when one of the writes raises it.
   */
  lemma OnlyTheZone(m: Zone, s: Store, b: Bytes, order: seq<Bytes>, p: Path)
    requires Verdict(s, b).0 == Success && OrderOf(order, NamesOf(Verdict(s, b).1))
    requires |b| >= HEADER_SIZE && ReadZone(b).Some? && !(PathOf(ReadZone(b).value.0) <= p)
    ensures
      var ops := Writes(PendingOf(m, Verdict(s, b).1), order);
      && LiftedBy(ThroughAll(m, ops), m, p, Lifts(m, ops, p))
      && (Lifts(m, ops, p) > 0 <==> SomeRaises(m, ops, p))
      && (Lifts(m, ops, p) > 0 ==> ApexAbove(m, PathOf(ReadZone(b).value.0), p))
  {
    hide Verdict, ReadZone, PathOf, Lifts, ThroughAll, Lifted, SomeRaises, ApexAbove, Writes, PendingOf;
    UpdateWithin(m, s, b, order);
    OutsideZone(m, Writes(PendingOf(m, Verdict(s, b).1), order), PathOf(ReadZone(b).value.0), p);
  }
}
