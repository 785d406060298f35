/**
 What the automatic raising of serials (internal/store/batch.go) makes of a run of mutations: the plain result, with
 every serial a counted number of steps further on.
 */
module SerialLifts {
  import opened Octets
  import opened Records
  import opened Names
  import opened Zones
  import opened Operations
  import opened Tries
  import opened Resolution
  import opened WireNames
  import opened SoaRecords
  import opened ZoneSerials

  // ---- the serial within SOA data ----

  function SerialOf(b: Bytes): U32
    requires SerialAt(b).Some?
  {
    var e := SerialAt(b).value;
    GetU32(b[e..e + 4])
  }

  function WithSerial(b: Bytes, n: U32): (r: Bytes)
    requires SerialAt(b).Some?
    ensures |r| == |b|
  {
    var e := SerialAt(b).value;
    b[..e] + PutU32(n) + b[e + 4..]
  }

  /** Skipping a name looks at nothing behind it. */
  lemma {:induction false} SkipSame(b: Bytes, b': Bytes, off: nat)
    requires Skip(b, off) >= 0 && |b| == |b'| && forall i :: 0 <= i < |b| && i < Skip(b, off) ==> b'[i] == b[i]
    ensures Skip(b', off) == Skip(b, off)
    decreases |b| - off
  {
    if 0 < b[off] < JUMP_TAG { SkipSame(b, b', off + 1 + b[off]); }
  }

  lemma SerialStays(b: Bytes, n: U32)
    requires SerialAt(b).Some?
    ensures SerialAt(WithSerial(b, n)) == SerialAt(b) && SerialOf(WithSerial(b, n)) == n
  {
    hide Skip, GetU32, PutU32;
    var e := SerialAt(b).value;
    var b' := WithSerial(b, n);
    assert forall i :: 0 <= i < e ==> b'[i] == b[i];
    SkipSame(b, b', 0);
    SkipSame(b, b', Skip(b, 0));
    assert b'[e..e + 4] == PutU32(n);
    U32RoundTrip(n);
  }

  lemma SerialTwice(b: Bytes, n: U32, k: U32)
    requires SerialAt(b).Some?
    ensures SerialAt(WithSerial(b, n)).Some? && WithSerial(WithSerial(b, n), k) == WithSerial(b, k)
  {
    hide Skip, GetU32, PutU32, SerialAt;
    SerialStays(b, n);
    var e := SerialAt(b).value;
    var b' := WithSerial(b, n);
    assert b'[..e] == b[..e] && b'[e + 4..] == b[e + 4..];
  }

  lemma SerialSelf(b: Bytes)
    requires SerialAt(b).Some?
    ensures WithSerial(b, SerialOf(b)) == b
  {
    hide SerialAt, GetU32, PutU32;
    var e := SerialAt(b).value;
    U32Bytes(b[e..e + 4], SerialOf(b));
  }

  // ---- the serial of record sets ----

  /** The sets have a serial that raising changes. */
  predicate Movable(sets: RRSets) {
    HasSerial(sets) && SerialAt(SoaDatum(sets)).Some?
  }

  function SoaDatum(sets: RRSets): Bytes
    requires HasSerial(sets)
  {
    sets[FirstSoa(sets, 0).value].rdata[0]
  }

  function SerialIn(sets: RRSets): U32
    requires Movable(sets)
  {
    SerialOf(SoaDatum(sets))
  }

  function WithDatum(sets: RRSets, b: Bytes): (r: RRSets)
    requires HasSerial(sets)
    ensures |r| == |sets|
  {
    var i := FirstSoa(sets, 0).value;
    sets[i := sets[i].(rdata := sets[i].rdata[0 := b])]
  }

  function SetSerial(sets: RRSets, n: U32): (r: RRSets)
    requires Movable(sets)
    ensures |r| == |sets|
  {
    WithDatum(sets, WithSerial(SoaDatum(sets), n))
  }

  /** The sets with their serial k steps further on; sets without one stay as they are. */
  function Lifted(sets: RRSets, k: nat): (r: RRSets)
    ensures |r| == |sets|
  {
    if Movable(sets) then SetSerial(sets, (SerialIn(sets) + k) % U32_SPAN) else sets
  }

  /** The same types in the same places, and the same sets without data. */
  ghost predicate SameShape(a: RRSets, b: RRSets) {
    && |a| == |b|
    && forall i :: 0 <= i < |a| ==> a[i].rtype == b[i].rtype && (a[i].rdata == [] <==> b[i].rdata == [])
  }

  lemma {:induction false} SameFirstSoa(a: RRSets, b: RRSets, i: nat)
    requires SameShape(a, b) && i <= |a|
    ensures FirstSoa(a, i) == FirstSoa(b, i)
    decreases |a| - i
  {
    if i < |a| { SameFirstSoa(a, b, i + 1); }
  }

  lemma DatumSet(sets: RRSets, b: Bytes)
    requires HasSerial(sets)
    ensures var r := WithDatum(sets, b);
            SameShape(sets, r) && HasSerial(r) && FirstSoa(r, 0) == FirstSoa(sets, 0) && SoaDatum(r) == b
    ensures forall c :: WithDatum(WithDatum(sets, b), c) == WithDatum(sets, c)
    ensures WithDatum(sets, SoaDatum(sets)) == sets
  {
    hide FirstSoa;
    var r := WithDatum(sets, b);
    var i := FirstSoa(sets, 0).value;
    SameFirstSoa(sets, r, 0);
    forall c ensures WithDatum(r, c) == WithDatum(sets, c) {
      assert sets[i].rdata[0 := b][0 := c] == sets[i].rdata[0 := c];
    }
    assert sets[i].rdata[0 := sets[i].rdata[0]] == sets[i].rdata;
  }

  lemma SerialSet(sets: RRSets, n: U32)
    requires Movable(sets)
    ensures var r := SetSerial(sets, n); SameShape(sets, r) && Movable(r) && SerialIn(r) == n
    ensures forall k: U32 :: SetSerial(SetSerial(sets, n), k) == SetSerial(sets, k)
    ensures SetSerial(sets, SerialIn(sets)) == sets
  {
    hide FirstSoa, SerialAt, WithDatum, SerialOf, WithSerial;
    var d := SoaDatum(sets);
    DatumSet(sets, WithSerial(d, n));
    SerialStays(d, n);
    SerialSelf(d);
    forall k: U32 ensures SetSerial(SetSerial(sets, n), k) == SetSerial(sets, k) {
      SerialTwice(d, n, k);
    }
  }

  lemma RaiseIsLift(sets: RRSets)
    ensures RaiseSets(sets) == Lifted(sets, 1)
  {
    hide SerialAt, FirstSoa, GetU32, PutU32;
    if HasSerial(sets) && !Movable(sets) {
      var i := FirstSoa(sets, 0).value;
      assert sets[i].rdata[0 := sets[i].rdata[0]] == sets[i].rdata;
    }
  }

  lemma LiftShape(sets: RRSets, k: nat)
    ensures SameShape(sets, Lifted(sets, k)) && (Movable(sets) <==> Movable(Lifted(sets, k)))
    ensures Movable(sets) ==> SerialIn(Lifted(sets, k)) == (SerialIn(sets) + k) % U32_SPAN
  {
    hide Movable, SetSerial, SerialIn;
    if Movable(sets) { SerialSet(sets, (SerialIn(sets) + k) % U32_SPAN); }
  }

  lemma AddModulo(a: nat, b: nat, c: nat)
    ensures ((a + b) % U32_SPAN + c) % U32_SPAN == (a + (b + c)) % U32_SPAN
  {
  }

  lemma LiftTwice(sets: RRSets, a: nat, b: nat)
    ensures Lifted(Lifted(sets, a), b) == Lifted(sets, a + b)
  {
    hide Movable, SetSerial, SerialIn;
    if Movable(sets) {
      SerialSet(sets, (SerialIn(sets) + a) % U32_SPAN);
      AddModulo(SerialIn(sets), a, b);
    }
  }

  lemma LiftNone(sets: RRSets)
    ensures Lifted(sets, 0) == sets
  {
    hide Movable, SetSerial, SerialIn;
    if Movable(sets) { SerialSet(sets, SerialIn(sets)); }
  }

  /** Serials lifted by different counts are the same exactly when the counts are, modulo 2^32. */
  lemma LiftEqualIff(sets: RRSets, a: nat, b: nat)
    ensures Lifted(sets, a) == Lifted(sets, b) <==> (Movable(sets) ==> a % U32_SPAN == b % U32_SPAN)
  {
    hide Movable, SetSerial, SerialIn, Lifted;
    if Movable(sets) {
      LiftShape(sets, a);
      LiftShape(sets, b);
      SameResidue(SerialIn(sets), a, b);
      if a % U32_SPAN == b % U32_SPAN { LiftUnfold(sets, a, b); }
    } else {
      LiftUnfold(sets, a, b);
    }
  }

  lemma LiftUnfold(sets: RRSets, a: nat, b: nat)
    ensures Movable(sets) && (SerialIn(sets) + a) % U32_SPAN == (SerialIn(sets) + b) % U32_SPAN ==>
              Lifted(sets, a) == Lifted(sets, b)
    ensures !Movable(sets) ==> Lifted(sets, a) == sets == Lifted(sets, b)
  {
  }

  lemma SameResidue(s: nat, a: nat, b: nat)
    ensures (s + a) % U32_SPAN == (s + b) % U32_SPAN <==> a % U32_SPAN == b % U32_SPAN
  {
  }

  lemma LiftInjective(a: RRSets, b: RRSets, k: nat)
    requires Lifted(a, k) == Lifted(b, k)
    ensures a == b
  {
    hide Lifted, Movable;
    var back := k * (U32_SPAN - 1);
    LiftTwice(a, k, back);
    LiftTwice(b, k, back);
    assert (k + back) % U32_SPAN == 0 by { assert k + back == k * U32_SPAN; MultipleOfSpan(k); }
    LiftEqualIff(a, k + back, 0);
    LiftEqualIff(b, k + back, 0);
    LiftNone(a);
    LiftNone(b);
  }

  lemma MultipleOfSpan(k: nat)
    ensures (k * U32_SPAN) % U32_SPAN == 0
  {
    DivisionUnique(k * U32_SPAN, U32_SPAN, k, 0);
  }

  // ---- equal up to the serial ----

  /** The sets with their serial wiped out. */
  function Blank(sets: RRSets): RRSets {
    if Movable(sets) then SetSerial(sets, 0) else sets
  }

  predicate Alike(a: RRSets, b: RRSets) {
    Blank(a) == Blank(b)
  }

  lemma LiftAlike(sets: RRSets, k: nat)
    ensures Alike(sets, Lifted(sets, k))
  {
    hide Movable, SetSerial, SerialIn;
    if Movable(sets) { SerialSet(sets, (SerialIn(sets) + k) % U32_SPAN); }
  }

  /** Sets are alike exactly when one is a lift of the other. */
  lemma AlikeIff(a: RRSets, b: RRSets)
    ensures Alike(a, b) <==> exists k: nat :: b == Lifted(a, k)
  {
    hide Movable, SetSerial, SerialIn;
    if k: nat :| b == Lifted(a, k) { LiftAlike(a, k); }
    if Alike(a, b) {
      if Movable(a) { SerialSet(a, 0); }
      if Movable(b) { SerialSet(b, 0); }
      if Movable(a) {
        var k := SerialIn(b) + U32_SPAN - SerialIn(a);
        assert (SerialIn(a) + k) % U32_SPAN == SerialIn(b);
        assert b == SetSerial(a, SerialIn(b)) by {
          SerialSet(b, 0);
          assert SetSerial(SetSerial(b, 0), SerialIn(b)) == SetSerial(b, SerialIn(b)) == b;
          assert SetSerial(SetSerial(a, 0), SerialIn(b)) == SetSerial(a, SerialIn(b));
        }
        assert b == Lifted(a, k);
      } else {
        assert b == Lifted(a, 0);
      }
    }
  }

  // ---- what decides which apex is raised ----

  /** The same part in a walk: delegation, apex, and an apex without data. */
  ghost predicate SameRole(a: RRSets, b: RRSets) {
    && (Has(a, TYPE_NS) <==> Has(b, TYPE_NS)) && (Has(a, TYPE_SOA) <==> Has(b, TYPE_SOA))
    && (Has(a, TYPE_SOA) ==> (Search(a, TYPE_SOA).value.rdata == [] <==> Search(b, TYPE_SOA).value.rdata == []))
  }

  /** The records that answer for the name have an SOA or a CNAME. */
  ghost predicate Answered(m: Zone, domain: Bytes) {
    var rr := Answering(m, Query(domain, TYPE_SOA));
    Has(rr, TYPE_SOA) || Has(rr, TYPE_CNAME)
  }

  /** The apex a mutation raises depends on the names above it and on what answers for it. */
  lemma ApexFrom(m: Zone, m': Zone, domain: Bytes)
    requires var p := PathOf(domain);
             forall i :: 0 <= i <= |p| ==> SameRole(RecordsAt(m, p[..i]), RecordsAt(m', p[..i]))
    requires Answered(m, domain) <==> Answered(m', domain)
    ensures EnclosingApex(m, domain) == EnclosingApex(m', domain)
  {
    hide TopCut, DeepestApex, Answering, SameRole, Search, QueryHops;
    var q := Query(domain, TYPE_SOA);
    var hs := QueryHops(q);
    HopsArePath(domain);
    forall i | 0 <= i <= |hs|
      ensures IsCut(m, q, hs, i) <==> IsCut(m', q, hs, i)
      ensures IsApex(m, hs, i) <==> IsApex(m', hs, i)
      ensures IsApex(m, hs, i) ==>
                (Search(m[At(hs, i)], TYPE_SOA).value.rdata == [] <==>
                 Search(m'[At(hs, i)], TYPE_SOA).value.rdata == [])
    {
      RoleAt(m, m', q, hs, i);
    }
  }

  lemma HopsArePath(domain: Bytes)
    ensures LabelsOf(QueryHops(Query(domain, TYPE_SOA))) == PathOf(domain)
  {
  }

  lemma RoleAt(m: Zone, m': Zone, q: Query, hs: seq<Hop>, i: nat)
    requires i <= |hs| && HopsWithin(hs, q) && q.qt == TYPE_SOA
    requires SameRole(RecordsAt(m, At(hs, i)), RecordsAt(m', At(hs, i)))
    ensures IsCut(m, q, hs, i) <==> IsCut(m', q, hs, i)
    ensures IsApex(m, hs, i) <==> IsApex(m', hs, i)
    ensures IsApex(m, hs, i) ==>
              (Search(m[At(hs, i)], TYPE_SOA).value.rdata == [] <==> Search(m'[At(hs, i)], TYPE_SOA).value.rdata == [])
  {
    hide Search;
    assert !Has([], TYPE_NS) && !Has([], TYPE_SOA);
  }

  lemma {:induction false} SearchShape(a: RRSets, b: RRSets, t: U16)
    requires SameShape(a, b)
    ensures Has(a, t) <==> Has(b, t)
    ensures Search(a, t).Some? <==> Search(b, t).Some?
    ensures Search(a, t).Some? ==> (Search(a, t).value.rdata == [] <==> Search(b, t).value.rdata == [])
    decreases |a|
  {
    if a != [] { SearchShape(a[1..], b[1..], t); }
  }

  lemma ShapeRole(a: RRSets, b: RRSets)
    requires SameShape(a, b)
    ensures SameRole(a, b)
  {
    hide SameShape, Search;
    SearchShape(a, b, TYPE_NS);
    SearchShape(a, b, TYPE_SOA);
  }

  /** The same names with sets of the same shape. */
  ghost predicate SameShapes(m: Zone, m': Zone) {
    forall p :: (p in m <==> p in m') && SameShape(RecordsAt(m, p), RecordsAt(m', p))
  }

  lemma SameUnder(m: Zone, m': Zone, p: Path)
    requires SameShapes(m, m') && Under(m, p)
    ensures Under(m', p)
  {
    hide SameShape;
    var k :| k in m && p <= k;
    assert k in m';
  }

  lemma SameStars(m: Zone, m': Zone, hs: seq<Hop>, i: nat)
    requires i <= |hs| && SameShapes(m, m')
    ensures DeepestStar(m, hs, i) == DeepestStar(m', hs, i)
    decreases i
  {
    hide SameShapes, Under, LabelsOf;
    if i > 0 {
      SameStars(m, m', hs, i - 1);
      var star := At(hs, i - 1) + [WILD];
      if Under(m, star) { SameUnder(m, m', star); }
      if Under(m', star) { SameShapesBack(m, m'); SameUnder(m', m, star); }
    }
  }

  lemma SameShapesBack(m: Zone, m': Zone)
    requires SameShapes(m, m')
    ensures SameShapes(m', m)
  {
  }

  lemma SameAnswered(m: Zone, m': Zone, domain: Bytes)
    requires SameShapes(m, m')
    ensures Answered(m, domain) <==> Answered(m', domain)
  {
    hide SameShapes, SameShape, Under, DeepestStar, Has, QueryHops, PathOf;
    var q := Query(domain, TYPE_SOA);
    HopsArePath(domain);
    var p, hs := PathOf(domain), QueryHops(q);
    if Under(m, p) { SameUnder(m, m', p); }
    SameShapesBack(m, m');
    if Under(m', p) { SameUnder(m', m, p); }
    SameStars(m, m', hs, |p|);
    var a, b := Answering(m, q), Answering(m', q);
    assert SameShape(a, b) by { SameAnswering(m, m', q); }
    SearchShape(a, b, TYPE_SOA);
    SearchShape(a, b, TYPE_CNAME);
  }

  lemma SameAnswering(m: Zone, m': Zone, q: Query)
    requires SameShapes(m, m') && (Under(m, PathOf(q.domain)) <==> Under(m', PathOf(q.domain)))
    requires |PathOf(q.domain)| <= |QueryHops(q)|
    requires DeepestStar(m, QueryHops(q), |PathOf(q.domain)|) == DeepestStar(m', QueryHops(q), |PathOf(q.domain)|)
    ensures SameShape(Answering(m, q), Answering(m', q))
  {
    hide Under, DeepestStar, QueryHops, PathOf, SameShape;
    assert SameShape([], []) by { NoShape(); }
  }

  lemma NoShape()
    ensures SameShape([], [])
  {
  }

  /** Lifting serials never changes which apex is raised. */
  lemma ApexByShape(m: Zone, m': Zone, domain: Bytes)
    requires SameShapes(m, m')
    ensures EnclosingApex(m, domain) == EnclosingApex(m', domain)
  {
    hide SameShape, SameRole, EnclosingApex, Answered, PathOf;
    var p := PathOf(domain);
    forall i | 0 <= i <= |p| ensures SameRole(RecordsAt(m, p[..i]), RecordsAt(m', p[..i])) {
      ShapeRole(RecordsAt(m, p[..i]), RecordsAt(m', p[..i]));
    }
    SameAnswered(m, m', domain);
    ApexFrom(m, m', domain);
  }

  // ---- runs of mutations through the store ----

  /** One mutation with the apex change that goes before it. */
  ghost function Through(m: Zone, op: Op): Zone {
    ApplyAll(m, Expansion(m, op))
  }

  ghost function ThroughAll(m: Zone, ops: seq<Op>): Zone
    decreases |ops|
  {
    if ops == [] then m else Through(ThroughAll(m, ops[..|ops| - 1]), ops[|ops| - 1])
  }

  /** The mutation raises the serial at p, which is not the name it mutates. */
  ghost predicate Raises(m: Zone, op: Op, p: Path) {
    && !(op.Upsert? && HasSerial(op.sets))
    && EnclosingApex(m, op.domain) == Some(|p|) && p <= PathOfOp(op)
  }

  /** What is raised is stored, has a serial and lies above the mutated name. */
  lemma RaisesStored(m: Zone, op: Op, p: Path)
    requires Raises(m, op, p)
    ensures p in m && HasSerial(m[p]) && p < PathOfOp(op)
  {
    hide EnclosingApex, HasSerial, RaiseSets, PathOf;
    ExpansionExactly(m, op);
    assert PathOfOp(op)[..|p|] == p;
  }

  function One(b: bool): nat {
    if b then 1 else 0
  }

  /**
   How far the serial at p is lifted beyond what the plain mutations leave there: once by an upsert of p itself, and
   once by every later mutation that raises p. The plain maps decide.
   */
  ghost function Lifts(m: Zone, ops: seq<Op>, p: Path): nat
    decreases |ops|
  {
    if ops == [] then 0
    else
      var n := |ops| - 1;
      if PathOfOp(ops[n]) == p then One(ops[n].Upsert?)
      else Lifts(m, ops[..n], p) + One(Raises(ApplyAll(m, ops[..n]), ops[n], p))
  }

  /** What one mutation through the store leaves at a path. */
  lemma ThroughOne(m: Zone, op: Op, p: Path)
    ensures
      var now := Through(m, op);
      if p == PathOfOp(op)
      then RecordsAt(now, p) == Lifted(if op.Upsert? then op.sets else [], One(op.Upsert?))
           && (p in now <==> RecordsAt(now, p) != [])
      else (p in now <==> p in m) && RecordsAt(now, p) == Lifted(RecordsAt(m, p), One(Raises(m, op, p)))
  {
    hide Expansion, ApplyAll, EnclosingApex, RaiseSets, Lifted, PathOf;
    if p == PathOfOp(op) {
      NameAfter(m, op);
      if op.Upsert? { RaiseIsLift(op.sets); } else { LiftNone([]); }
    } else {
      OnlyTwoNames(m, op, p);
      LiftNone(RecordsAt(m, p));
      RaiseIsLift(RecordsAt(m, p));
    }
  }

  /** A map whose serials are lifted, path by path. */
  ghost predicate LiftedBy(now: Zone, plain: Zone, p: Path, k: nat) {
    (p in now <==> p in plain) && RecordsAt(now, p) == Lifted(RecordsAt(plain, p), k)
  }

  lemma LiftedShapes(now: Zone, plain: Zone, ops: seq<Op>, m: Zone)
    requires forall p :: LiftedBy(now, plain, p, Lifts(m, ops, p))
    ensures SameShapes(plain, now)
  {
    hide Lifted, SameShape, Lifts;
    forall p ensures (p in plain <==> p in now) && SameShape(RecordsAt(plain, p), RecordsAt(now, p)) {
      assert LiftedBy(now, plain, p, Lifts(m, ops, p));
      LiftShape(RecordsAt(plain, p), Lifts(m, ops, p));
    }
  }

  lemma LiftStep(now: Zone, plain: Zone, op: Op, p: Path, k: nat)
    requires LiftedBy(now, plain, p, k) && EnclosingApex(plain, op.domain) == EnclosingApex(now, op.domain)
    ensures LiftedBy(Through(now, op), Apply(plain, op), p,
                     if p == PathOfOp(op) then One(op.Upsert?) else k + One(Raises(plain, op, p)))
  {
    hide Through, EnclosingApex, Lifted, PathOf;
    ThroughOne(now, op, p);
    if p == PathOfOp(op) {
      LiftNone([]);
      if op.Upsert? { SameEmpty(op.sets, 1); }
    } else {
      LiftTwice(RecordsAt(plain, p), k, One(Raises(plain, op, p)));
    }
  }

  lemma SameEmpty(sets: RRSets, k: nat)
    ensures Lifted(sets, k) == [] <==> sets == []
  {
    hide Movable;
  }

  /**
   After any run of mutations through the store every path has the records of the plain run, its serial lifted
   exactly as often as was counted.
   */
  lemma {:induction false} ThroughAllAt(m: Zone, ops: seq<Op>)
    ensures forall p :: LiftedBy(ThroughAll(m, ops), ApplyAll(m, ops), p, Lifts(m, ops, p))
    decreases |ops|
  {
    hide Through, EnclosingApex, Lifted, LiftedBy, PathOf, Apply;
    if ops == [] {
      forall p ensures LiftedBy(m, m, p, 0) { NoLift(m, p); }
    } else {
      var n := |ops| - 1;
      var now, plain := ThroughAll(m, ops[..n]), ApplyAll(m, ops[..n]);
      ThroughAllAt(m, ops[..n]);
      LiftedShapes(now, plain, ops[..n], m);
      ApexByShape(plain, now, ops[n].domain);
      forall p ensures LiftedBy(ThroughAll(m, ops), ApplyAll(m, ops), p, Lifts(m, ops, p)) {
        LiftStep(now, plain, ops[n], p, Lifts(m, ops[..n], p));
      }
    }
  }

  lemma NoLift(m: Zone, p: Path)
    ensures LiftedBy(m, m, p, 0)
  {
    hide Lifted;
    LiftNone(RecordsAt(m, p));
  }

  /** The plain results of two runs at p, lifted as counted, are the same. */
  ghost predicate SameAt(m: Zone, xs: seq<Op>, ys: seq<Op>, p: Path) {
    var a, b := ApplyAll(m, xs), ApplyAll(m, ys);
    && (p in a <==> p in b)
    && Lifted(RecordsAt(a, p), Lifts(m, xs, p)) == Lifted(RecordsAt(b, p), Lifts(m, ys, p))
  }

  /** Two runs leave the same tree exactly when, path by path, their plain results and their counts do. */
  lemma SameTreeIff(m: Zone, xs: seq<Op>, ys: seq<Op>)
    ensures ThroughAll(m, xs) == ThroughAll(m, ys) <==> forall p :: SameAt(m, xs, ys, p)
  {
    hide ThroughAll, ApplyAll, Lifted, Lifts;
    ThroughAllAt(m, xs);
    ThroughAllAt(m, ys);
    var a, b := ThroughAll(m, xs), ThroughAll(m, ys);
    forall p ensures SameAt(m, xs, ys, p) <==> (p in a <==> p in b) && RecordsAt(a, p) == RecordsAt(b, p) {
      assert LiftedBy(a, ApplyAll(m, xs), p, Lifts(m, xs, p));
      assert LiftedBy(b, ApplyAll(m, ys), p, Lifts(m, ys, p));
    }
    if forall p :: SameAt(m, xs, ys, p) { SameZone(a, b); }
  }

  /** Where the first run leaves a serial, both lift it equally often, modulo 2^32. */
  ghost predicate SameCount(m: Zone, xs: seq<Op>, ys: seq<Op>, p: Path) {
    Movable(RecordsAt(ApplyAll(m, xs), p)) ==> Lifts(m, xs, p) % U32_SPAN == Lifts(m, ys, p) % U32_SPAN
  }

  /** With the same plain result only the counts matter. */
  lemma SamePlainIff(m: Zone, xs: seq<Op>, ys: seq<Op>)
    requires ApplyAll(m, xs) == ApplyAll(m, ys)
    ensures ThroughAll(m, xs) == ThroughAll(m, ys) <==> forall p :: SameCount(m, xs, ys, p)
  {
    hide ThroughAll, ApplyAll, Lifted, Lifts, Movable;
    SameTreeIff(m, xs, ys);
    forall p ensures SameAt(m, xs, ys, p) <==> SameCount(m, xs, ys, p) {
      LiftEqualIff(RecordsAt(ApplyAll(m, xs), p), Lifts(m, xs, p), Lifts(m, ys, p));
    }
  }
}
