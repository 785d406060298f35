/**
 The order in which an update section's names are written (internal/rfc2136/update.go ranges over a Go map, so every
 order can occur), through the store with its serials (internal/store/batch.go).
 */
module WriteOrder {
  import opened Octets
  import opened Records
  import opened Names
  import opened Zones
  import opened Operations
  import opened Tries
  import opened Resolution
  import opened ZoneSerials
  import opened SerialLifts
  import opened UpdateRules

  // ---- two writes ----

  /** The records an operation leaves at its path. */
  function LeftBy(op: Op): RRSets {
    if op.Upsert? then op.sets else []
  }

  lemma AppliedAt(m: Zone, op: Op)
    ensures RecordsAt(Apply(m, op), PathOfOp(op)) == LeftBy(op) && (PathOfOp(op) in Apply(m, op) <==> LeftBy(op) != [])
    ensures forall p :: p != PathOfOp(op) ==>
              (p in Apply(m, op) <==> p in m) && RecordsAt(Apply(m, op), p) == RecordsAt(m, p)
  {
    hide PathOfOp;
  }

  /** What two writes must meet at a path to be swapped. */
  ghost predicate CommutingAt(m: Zone, a: Op, b: Op, p: Path) {
    if p == PathOfOp(a) && p == PathOfOp(b) then LeftBy(a) == LeftBy(b)
    else if p == PathOfOp(a) then !(Raises(Apply(m, a), b, p) && Movable(LeftBy(a)))
    else if p == PathOfOp(b) then !(Raises(Apply(m, b), a, p) && Movable(LeftBy(b)))
    else
      Movable(RecordsAt(m, p)) ==>
        One(Raises(m, a, p)) + One(Raises(Apply(m, a), b, p)) == One(Raises(m, b, p)) + One(Raises(Apply(m, b), a, p))
  }

  lemma LiftsOfTwo(m: Zone, a: Op, b: Op, p: Path)
    ensures Lifts(m, [a, b], p) ==
            if PathOfOp(b) == p then One(b.Upsert?)
            else (if PathOfOp(a) == p then One(a.Upsert?) else One(Raises(m, a, p))) + One(Raises(Apply(m, a), b, p))
  {
    hide Raises, PathOfOp, Apply;
    assert [a, b][..1] == [a] && [a][..0] == [];
    assert Lifts(m, [a], p) == if PathOfOp(a) == p then One(a.Upsert?) else One(Raises(m, a, p));
    ApplyOne(m, a);
  }

  lemma LeftLift(op: Op)
    ensures Lifted(LeftBy(op), One(op.Upsert?)) == Lifted(LeftBy(op), 1)
  {
    hide Movable;
    SameEmpty([], 0);
    SameEmpty([], 1);
  }

  lemma PlainTwo(m: Zone, a: Op, b: Op, p: Path)
    ensures var now := ApplyAll(m, [a, b]);
            if p == PathOfOp(b) then RecordsAt(now, p) == LeftBy(b) && (p in now <==> LeftBy(b) != [])
            else if p == PathOfOp(a) then RecordsAt(now, p) == LeftBy(a) && (p in now <==> LeftBy(a) != [])
            else RecordsAt(now, p) == RecordsAt(m, p) && (p in now <==> p in m)
  {
    hide PathOfOp, Apply, ApplyAll, LeftBy;
    ApplyTwo(m, a, b);
    AppliedAt(m, a);
    AppliedAt(Apply(m, a), b);
  }

  lemma CommuteAt(m: Zone, a: Op, b: Op, p: Path)
    ensures SameAt(m, [a, b], [b, a], p) <==> CommutingAt(m, a, b, p)
  {
    hide Raises, PathOfOp, Apply, ApplyAll, Lifts, Lifted, Movable, LeftBy;
    PlainTwo(m, a, b, p);
    PlainTwo(m, b, a, p);
    LiftsOfTwo(m, a, b, p);
    LiftsOfTwo(m, b, a, p);
    if p == PathOfOp(a) && p == PathOfOp(b) {
      LeftLift(a);
      LeftLift(b);
      if Lifted(LeftBy(a), 1) == Lifted(LeftBy(b), 1) { LiftInjective(LeftBy(a), LeftBy(b), 1); }
    } else {
      LiftEqualIff(RecordsAt(ApplyAll(m, [a, b]), p), Lifts(m, [a, b], p), Lifts(m, [b, a], p));
    }
  }

  /** Two writes through the store can be swapped exactly when every path meets the condition. */
  lemma CommuteIff(m: Zone, a: Op, b: Op)
    ensures Through(Through(m, a), b) == Through(Through(m, b), a) <==> forall p :: CommutingAt(m, a, b, p)
  {
    hide Through, CommutingAt, SameAt;
    ThroughTwo(m, a, b);
    ThroughTwo(m, b, a);
    SameTreeIff(m, [a, b], [b, a]);
    forall p ensures SameAt(m, [a, b], [b, a], p) <==> CommutingAt(m, a, b, p) { CommuteAt(m, a, b, p); }
  }

  lemma ThroughTwo(m: Zone, a: Op, b: Op)
    ensures ThroughAll(m, [a, b]) == Through(Through(m, a), b)
  {
    hide Through;
    assert [a, b][..1] == [a] && [a][..0] == [];
    assert ThroughAll(m, [a]) == Through(m, a);
  }

  // ---- all the names of a section ----

  type Pendings = map<Bytes, RRSets>

  /** The write of one name: its records, or a deletion when none are left. */
  function WriteOf(final: Pendings, d: Bytes): Op
    requires d in final
  {
    if final[d] == [] then Delete(d) else Upsert(d, final[d])
  }

  function Writes(final: Pendings, order: seq<Bytes>): (ops: seq<Op>)
    requires forall i :: 0 <= i < |order| ==> order[i] in final
    ensures |ops| == |order| && forall i :: 0 <= i < |order| ==> ops[i] == WriteOf(final, order[i])
  {
    seq(|order|, i requires 0 <= i < |order| => WriteOf(final, order[i]))
  }

  /** Every name once. */
  ghost predicate OrderOf(order: seq<Bytes>, names: set<Bytes>) {
    && (forall i, j :: 0 <= i < j < |order| ==> order[i] != order[j])
    && (forall i :: 0 <= i < |order| ==> order[i] in names)
    && (forall d :: d in names ==> d in order)
  }

  /** What is left at a path is the records of one of the names written there. */
  lemma {:induction false} FinalOfWrites(final: Pendings, order: seq<Bytes>, p: Path)
    requires forall i :: 0 <= i < |order| ==> order[i] in final
    ensures var last := Final(Writes(final, order), p);
            && (last.None? <==> forall i :: 0 <= i < |order| ==> PathOf(order[i]) != p)
            && (last.Some? ==> exists i :: 0 <= i < |order| && PathOf(order[i]) == p && final[order[i]] == last.value)
    decreases |order|
  {
    hide PathOf;
    if order != [] {
      var n := |order| - 1;
      FinalOfWrites(final, order[..n], p);
      assert Writes(final, order)[..n] == Writes(final, order[..n]);
      assert PathOfOp(Writes(final, order)[n]) == PathOf(order[n]);
      if PathOf(order[n]) != p {
        var last := Final(Writes(final, order[..n]), p);
        if last.Some? {
          var i :| 0 <= i < n && PathOf(order[..n][i]) == p && final[order[..n][i]] == last.value;
          assert PathOf(order[i]) == p && final[order[i]] == last.value;
        } else {
          forall i | 0 <= i < |order| ensures PathOf(order[i]) != p {
            if i < n { assert order[..n][i] == order[i]; }
          }
        }
      }
    }
  }

  /** Every order of writing leaves the same tree, serials included. */
  ghost predicate OrderFree(m: Zone, final: Pendings) {
    forall x, y :: OrderOf(x, final.Keys) && OrderOf(y, final.Keys) ==>
      ThroughAll(m, Writes(final, x)) == ThroughAll(m, Writes(final, y))
  }

  /** Names the tree takes for one another are left with the same records. */
  ghost predicate Agreeing(final: Pendings) {
    forall d, e :: d in final && e in final && PathOf(d) == PathOf(e) ==> final[d] == final[e]
  }

  lemma AgreeingOrders(m: Zone, final: Pendings, x: seq<Bytes>, y: seq<Bytes>)
    requires Agreeing(final) && OrderOf(x, final.Keys) && OrderOf(y, final.Keys)
    ensures ApplyAll(m, Writes(final, x)) == ApplyAll(m, Writes(final, y))
  {
    hide PathOf, ApplyAll, Final, Writes;
    var a, b := ApplyAll(m, Writes(final, x)), ApplyAll(m, Writes(final, y));
    forall p ensures (p in a <==> p in b) && RecordsAt(a, p) == RecordsAt(b, p) {
      ApplyAllAt(m, Writes(final, x), p);
      ApplyAllAt(m, Writes(final, y), p);
      FinalOfWrites(final, x, p);
      FinalOfWrites(final, y, p);
    }
    SameZone(a, b);
  }

  lemma {:induction false} Enumerated(names: set<Bytes>) returns (order: seq<Bytes>)
    ensures OrderOf(order, names)
    decreases |names|
  {
    if names == {} {
      order := [];
    } else {
      var d :| d in names;
      var rest := Enumerated(names - {d});
      order := rest + [d];
      assert forall e :: e in names ==> e == d || e in rest;
    }
  }

  /** Some order writes the name last, and leaves its records with one lift. */
  lemma LastWrite(m: Zone, final: Pendings, d: Bytes) returns (order: seq<Bytes>)
    requires d in final
    ensures OrderOf(order, final.Keys) && RecordsAt(ApplyAll(m, Writes(final, order)), PathOf(d)) == final[d]
    ensures RecordsAt(ThroughAll(m, Writes(final, order)), PathOf(d)) == Lifted(final[d], 1)
  {
    hide PathOf, ApplyAll, ThroughAll, Lifted, Raises;
    var rest := Enumerated(final.Keys - {d});
    order := rest + [d];
    assert forall e :: e in final.Keys ==> e == d || e in rest;
    var ops := Writes(final, order);
    ApplyAllAt(m, ops, PathOf(d));
    assert PathOfOp(ops[|rest|]) == PathOf(d);
    ThroughAllAt(m, ops);
    assert LiftedBy(ThroughAll(m, ops), ApplyAll(m, ops), PathOf(d), Lifts(m, ops, PathOf(d)));
    LeftLift(ops[|rest|]);
  }

  /** Wherever there is a serial, every order lifts it equally often, modulo 2^32. */
  ghost predicate SerialsFree(m: Zone, final: Pendings) {
    forall x, y, p :: OrderOf(x, final.Keys) && OrderOf(y, final.Keys) ==>
      SameCount(m, Writes(final, x), Writes(final, y), p)
  }

  lemma SameOrdersIff(m: Zone, final: Pendings, x: seq<Bytes>, y: seq<Bytes>)
    requires Agreeing(final) && OrderOf(x, final.Keys) && OrderOf(y, final.Keys)
    ensures ThroughAll(m, Writes(final, x)) == ThroughAll(m, Writes(final, y)) <==>
            forall p :: SameCount(m, Writes(final, x), Writes(final, y), p)
  {
    hide Agreeing, ApplyAll, ThroughAll, SameCount, Writes;
    AgreeingOrders(m, final, x, y);
    SamePlainIff(m, Writes(final, x), Writes(final, y));
  }

  lemma FreeAgrees(m: Zone, final: Pendings)
    requires OrderFree(m, final)
    ensures Agreeing(final)
  {
    hide PathOf, ApplyAll, ThroughAll, Writes, Lifted;
    forall d, e | d in final && e in final && PathOf(d) == PathOf(e) ensures final[d] == final[e] {
      var x := LastWrite(m, final, d);
      var y := LastWrite(m, final, e);
      assert ThroughAll(m, Writes(final, x)) == ThroughAll(m, Writes(final, y));
      LiftInjective(final[d], final[e], 1);
    }
  }

  /**
   Every order of writing leaves the same tree exactly when names of one path are left with the same records and every
   order lifts each serial equally often.
   */
  lemma OrderFreeIff(m: Zone, final: Pendings)
    ensures OrderFree(m, final) <==> Agreeing(final) && SerialsFree(m, final)
  {
    hide Agreeing, ThroughAll, Writes, SameCount;
    if OrderFree(m, final) { FreeAgrees(m, final); }
    if Agreeing(final) {
      forall x, y | OrderOf(x, final.Keys) && OrderOf(y, final.Keys)
        ensures ThroughAll(m, Writes(final, x)) == ThroughAll(m, Writes(final, y)) <==>
                forall p :: SameCount(m, Writes(final, x), Writes(final, y), p)
      {
        SameOrdersIff(m, final, x, y);
      }
    }
  }

  // ---- up to serials ----

  ghost predicate AlikeZones(a: Zone, b: Zone) {
    forall p :: (p in a <==> p in b) && Alike(RecordsAt(a, p), RecordsAt(b, p))
  }

  ghost predicate OrderAlike(m: Zone, final: Pendings) {
    forall x, y :: OrderOf(x, final.Keys) && OrderOf(y, final.Keys) ==>
      AlikeZones(ThroughAll(m, Writes(final, x)), ThroughAll(m, Writes(final, y)))
  }

  ghost predicate AgreeingAlike(final: Pendings) {
    forall d, e :: d in final && e in final && PathOf(d) == PathOf(e) ==> Alike(final[d], final[e])
  }

  lemma AlikeEmpty(a: RRSets, b: RRSets)
    requires Alike(a, b)
    ensures a == [] <==> b == []
  {
    hide Movable;
  }

  lemma AlikeOrders(m: Zone, final: Pendings, x: seq<Bytes>, y: seq<Bytes>)
    requires AgreeingAlike(final) && OrderOf(x, final.Keys) && OrderOf(y, final.Keys)
    ensures AlikeZones(ThroughAll(m, Writes(final, x)), ThroughAll(m, Writes(final, y)))
  {
    hide PathOf, ApplyAll, ThroughAll, Final, Writes, Lifted, Lifts, Blank;
    var a, b := ThroughAll(m, Writes(final, x)), ThroughAll(m, Writes(final, y));
    ThroughAllAt(m, Writes(final, x));
    ThroughAllAt(m, Writes(final, y));
    forall p ensures (p in a <==> p in b) && Alike(RecordsAt(a, p), RecordsAt(b, p)) {
      var r, s := ApplyAll(m, Writes(final, x)), ApplyAll(m, Writes(final, y));
      var j, k := Lifts(m, Writes(final, x), p), Lifts(m, Writes(final, y), p);
      assert LiftedBy(a, r, p, j) && LiftedBy(b, s, p, k);
      LiftAlike(RecordsAt(r, p), j);
      LiftAlike(RecordsAt(s, p), k);
      ApplyAllAt(m, Writes(final, x), p);
      ApplyAllAt(m, Writes(final, y), p);
      FinalOfWrites(final, x, p);
      FinalOfWrites(final, y, p);
      var u, v := Final(Writes(final, x), p), Final(Writes(final, y), p);
      if u.Some? && v.Some? { AlikeEmpty(u.value, v.value); }
    }
  }

  /** All orders agree up to serials exactly when names of one path are left with records that do. */
  lemma OrderAlikeIff(m: Zone, final: Pendings)
    ensures OrderAlike(m, final) <==> AgreeingAlike(final)
  {
    hide PathOf, ThroughAll, Writes, Lifted, Blank;
    if AgreeingAlike(final) {
      forall x, y | OrderOf(x, final.Keys) && OrderOf(y, final.Keys)
        ensures AlikeZones(ThroughAll(m, Writes(final, x)), ThroughAll(m, Writes(final, y)))
      {
        AlikeOrders(m, final, x, y);
      }
    }
    if OrderAlike(m, final) {
      forall d, e | d in final && e in final && PathOf(d) == PathOf(e) ensures Alike(final[d], final[e]) {
        var x := LastWrite(m, final, d);
        var y := LastWrite(m, final, e);
        assert AlikeZones(ThroughAll(m, Writes(final, x)), ThroughAll(m, Writes(final, y)));
        LiftAlike(final[d], 1);
        LiftAlike(final[e], 1);
      }
    }
  }

  /** The records each name of a section is left with, starting from what the tree has at its path. */
  function PendingOf(m: Zone, ups: seq<RawRR>): (final: Pendings)
    ensures final.Keys == NamesOf(ups)
  {
    map d | d in NamesOf(ups) :: Fold(RecordsAt(m, PathOf(d)), ups, d)
  }
}
