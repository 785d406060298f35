/**
 UPDATE processing (internal/rfc2136/update.go) as the daemon runs it: it reads the tree and writes through the store
 (internal/store), which logs every change, raises serials, and can refuse a write.
 */
module StoreUpdates {
  import opened Octets
  import opened Records
  import opened Names
  import opened Zones
  import opened Operations
  import opened RadixTree
  import opened Wal
  import opened ZoneSerials
  import opened SerialLifts
  import opened UpdateRules
  import opened DynamicUpdate
  import opened WriteOrder
  import Durability
  import S = Store

  // ---- what the message reads ----

  /** The tree as a store of the given names. */
  ghost function View(m: Zone, names: set<Bytes>): Store {
    map d | d in names && PathOf(d) in m :: m[PathOf(d)]
  }

  lemma ViewAt(m: Zone, names: set<Bytes>, d: Bytes)
    requires d in names
    ensures (d in View(m, names) <==> PathOf(d) in m) && SetsAt(View(m, names), d) == RecordsAt(m, PathOf(d))
  {
    hide PathOf;
  }

  /** The names a verdict depends on: the zone and the owners of the prerequisites. */
  ghost function Asked(b: Bytes): set<Bytes> {
    if |b| < HEADER_SIZE then {}
    else
      match ReadZone(b)
      case None => {}
      case Some((zone, off)) =>
        {zone} + match ReadRRs(b, off, GetU16(b[6..8])) case None => {} case Some(prs) => NamesOf(prs.records)
  }

  /** The verdict on a message over the tree. */
  ghost function TreeVerdict(m: Zone, b: Bytes): (RCode, seq<RawRR>) {
    Verdict(View(m, Asked(b)), b)
  }

  method CheckAgainst(prs: seq<RawRR>, tree: Tree, ghost names: set<Bytes>) returns (code: RCode)
    requires tree.Valid() && NamesOf(prs) <= names
    ensures code == PrerequisitesCode(View(tree.contents, names), prs, 0)
  {
    hide Tree.Valid, Meaning, Holds, PathOf, View;
    ghost var m := View(tree.contents, names);
    for i := 0 to |prs|
      invariant PrerequisitesCode(m, prs, i) == PrerequisitesCode(m, prs, 0)
    {
      var existing, found := tree.Get(prs[i].name);
      assert prs[i].name in names by { assert prs[i] in prs; }
      ViewAt(tree.contents, names, prs[i].name);
      code := EvaluatePrerequisite(prs[i], existing, found);
      if code != Success { return; }
    }
    return Success;
  }

  // ---- the pending records ----

  lemma PendingSnoc(m: Zone, ups: seq<RawRR>, up: RawRR)
    ensures
      var before := PendingOf(m, ups);
      var current := if up.name in before then before[up.name] else RecordsAt(m, PathOf(up.name));
      PendingOf(m, ups + [up]) == before[up.name := UpdateSets(current, up)]
  {
    hide PathOf, Fold, UpdateSets, NamesOf;
    NamesSnoc(ups, up);
    var before, after := PendingOf(m, ups), PendingOf(m, ups + [up]);
    var sets := RecordsAt(m, PathOf(up.name));
    FoldSnoc(sets, ups, up, up.name);
    if up.name !in NamesOf(ups) { FoldUnnamed(sets, ups, up.name); }
    forall d | d in before && d != up.name ensures after[d] == before[d] {
      FoldSnoc(RecordsAt(m, PathOf(d)), ups, up, d);
    }
  }

  /** Computes the new sets of every name touched, from copies of what the tree has. */
  method ComputeFrom(updates: seq<RawRR>, tree: Tree) returns (states: Pendings)
    requires tree.Valid()
    ensures states == PendingOf(tree.contents, updates)
  {
    hide Tree.Valid, PathOf, Fold, PendingOf, UpdateSets;
    states := map[];
    ghost var m := tree.contents;
    assert states == PendingOf(m, updates[..0]) by { NonePending(m); }
    for i := 0 to |updates|
      invariant states == PendingOf(m, updates[..i])
    {
      var up := updates[i];
      var current: RRSets;
      if up.name in states {
        current := states[up.name];
      } else {
        var existing, found := tree.Get(up.name);
        current := if found then existing else [];
      }
      var slice := Slice(current);
      var result := ApplyUpdateOp(slice, up);
      PendingSnoc(m, updates[..i], up);
      assert updates[..i + 1] == updates[..i] + [up];
      states := states[up.name := result[..]];
    }
    assert updates[..|updates|] == updates;
  }

  lemma NonePending(m: Zone)
    ensures PendingOf(m, []) == map[]
  {
  }

  // ---- writing ----

  lemma OneChange(m: Zone, op: Op)
    ensures S.Changes(m, [op]) == Expansion(m, op) && [op][..1] == [op]
  {
    hide Expansion;
    assert [op][..0] == [] && ApplyAll(m, []) == m;
    assert S.Changes(m, []) == [];
  }

  lemma {:induction false} ThroughChanges(m: Zone, ops: seq<Op>)
    ensures ApplyAll(m, S.Changes(m, ops)) == ThroughAll(m, ops)
    decreases |ops|
  {
    hide Expansion, ApplyAll;
    if ops == [] {
      NoneThrough(m);
      NoneChanged(m);
    } else {
      var n := |ops| - 1;
      ThroughChanges(m, ops[..n]);
      ApplyAllAppend(m, S.Changes(m, ops[..n]), Expansion(ThroughAll(m, ops[..n]), ops[n]));
    }
  }

  lemma GoodSplit(m: Zone, ops: seq<Op>, op: Op)
    requires Durability.GoodOps(S.Changes(m, ops + [op]))
    ensures Durability.GoodOps(S.Changes(m, ops)) && Durability.GoodOps(Expansion(ThroughAll(m, ops), op))
  {
    hide Expansion, S.Changes, ThroughAll, ApplyAll, Durability.GoodOp;
    S.ChangesSnoc(m, ops, op);
    ThroughChanges(m, ops);
    var c, e := S.Changes(m, ops), Expansion(ThroughAll(m, ops), op);
    assert forall i :: 0 <= i < |c| ==> (c + e)[i] == c[i];
    assert forall i :: 0 <= i < |e| ==> (c + e)[|c| + i] == e[i];
  }

  ghost predicate Distinct(order: seq<Bytes>, final: Pendings) {
    (forall i :: 0 <= i < |order| ==> order[i] in final) && forall i, j :: 0 <= i < j < |order| ==> order[i] != order[j]
  }

  /** What a write that fails leaves: the changes before the first refused one, or all when only the flush failed. */
  ghost predicate BrokenOff(now: Zone, m: Zone, final: Pendings, order: seq<Bytes>, flushed: nat -> bool)
    requires Distinct(order, final)
  {
    && order != []
    && var n := |order| - 1;
       var before := ThroughAll(m, Writes(final, order[..n]));
       var c := Expansion(before, WriteOf(final, order[n]));
       now == ApplyAll(before, c[..S.Taken(c)]) && (!flushed(n) || !AllAccepted(c))
  }

  /** One write, committed on its own; it is answered before the next is made. */
  method WriteName(store: S.Store, op: Op, flushed: bool) returns (ok: bool)
    requires store.Shape()
    modifies store, store.tree, store.writer
    ensures store.Shape() && store.tree == old(store.tree) && store.writer == old(store.writer)
    ensures fresh(store.tree.repr - old(store.tree.repr))
    ensures
      var c := Expansion(old(store.tree.contents), op);
      && (ok <==> flushed && AllAccepted(c))
      && store.tree.contents == ApplyAll(old(store.tree.contents), c[..S.Taken(c)])
      && (AllAccepted(c) ==> store.tree.contents == Through(old(store.tree.contents), op))
      && (ok && old(store.Valid()) && Durability.GoodOps(c) ==> store.Valid())
  {
    hide Tree.Valid, S.Store.Valid, Expansion, ApplyAll, Wal.Accepted, S.Taken, Durability.GoodOp;
    OneChange(store.tree.contents, op);
    ghost var c := Expansion(store.tree.contents, op);
    if AllAccepted(c) { S.AllTaken(c, store.lib.crc); }
    var answers := store.CommitBatch([op], flushed);
    ok := answers[0];
  }

  /** Writes the pending sets in any order, each name through the store, until one write fails. */
  method WriteAll(states: Pendings, store: S.Store, flushed: nat -> bool) returns (ok: bool, ghost order: seq<Bytes>)
    requires store.Shape()
    modifies store, store.tree, store.writer
    ensures store.Shape() && store.tree == old(store.tree)
    ensures Distinct(order, states)
    ensures ok ==>
              && OrderOf(order, states.Keys)
              && store.tree.contents == ThroughAll(old(store.tree.contents), Writes(states, order))
    ensures !ok ==> BrokenOff(store.tree.contents, old(store.tree.contents), states, order, flushed)
    ensures ok && old(store.Valid()) ==>
              (Durability.GoodOps(S.Changes(old(store.tree.contents), Writes(states, order))) ==> store.Valid())
  {
    hide Tree.Valid, S.Store.Valid, Expansion, ApplyAll, S.Changes, S.Taken, Durability.GoodOps, ThroughAll, Through;
    ghost var m := store.tree.contents;
    var todo, i := states.Keys, 0;
    order := [];
    NoneThrough(m);
    while todo != {}
      invariant store.Shape() && store.tree == old(store.tree) && store.writer == old(store.writer)
      invariant fresh(store.tree.repr - old(store.tree.repr))
      invariant todo <= states.Keys && Distinct(order, states) && |order| == i
      invariant forall d :: d in states ==> (d in todo <==> d !in order)
      invariant store.tree.contents == ThroughAll(m, Writes(states, order))
      invariant old(store.Valid()) && Durability.GoodOps(S.Changes(m, Writes(states, order))) ==> store.Valid()
      decreases |todo|
    {
      var d :| d in todo;
      todo := todo - {d};
      var op := if |states[d]| == 0 then Delete(d) else Upsert(d, states[d]);
      ghost var so := order;
      WritesSnoc(m, states, so, d);
      ok := WriteName(store, op, flushed(i));
      order := so + [d];
      i := i + 1;
      if !ok {
        assert order[..|so|] == so;
        return;
      }
    }
    ok := true;
  }

  lemma NoneChanged(m: Zone)
    ensures ApplyAll(m, S.Changes(m, [])) == m
  {
  }

  lemma NoneThrough(m: Zone)
    ensures ThroughAll(m, []) == m
  {
  }

  lemma WritesSnoc(m: Zone, final: Pendings, order: seq<Bytes>, d: Bytes)
    requires Distinct(order, final) && d in final && d !in order
    ensures Distinct(order + [d], final) && Writes(final, order + [d]) == Writes(final, order) + [WriteOf(final, d)]
    ensures ThroughAll(m, Writes(final, order + [d])) == Through(ThroughAll(m, Writes(final, order)), WriteOf(final, d))
    ensures Durability.GoodOps(S.Changes(m, Writes(final, order + [d]))) ==>
              && Durability.GoodOps(S.Changes(m, Writes(final, order)))
              && Durability.GoodOps(Expansion(ThroughAll(m, Writes(final, order)), WriteOf(final, d)))
  {
    hide Through, Durability.GoodOps, S.Changes, Expansion, PathOf;
    var ops, op := Writes(final, order), WriteOf(final, d);
    assert Writes(final, order + [d]) == ops + [op];
    assert (ops + [op])[..|ops|] == ops;
    if Durability.GoodOps(S.Changes(m, ops + [op])) { GoodSplit(m, ops, op); }
  }

  // ---- the message ----

  /**
   Processes an UPDATE against the store. A refused message changes nothing. Otherwise the pending names are written
   through the store in some order, all of them with NOERROR, or up to a write that fails with SERVFAIL.
   */
  method Process(payload: Bytes, store: S.Store, flushed: nat -> bool) returns (code: RCode, ghost order: seq<Bytes>)
    requires store.Shape()
    modifies store, store.tree, store.writer
    ensures store.Shape() && store.tree == old(store.tree)
    ensures
      var v := TreeVerdict(old(store.tree.contents), payload);
      v.0 != Success ==>
        && code == v.0 && store.tree.contents == old(store.tree.contents) && store.writer == old(store.writer)
        && store.writer.log == old(store.writer.log) && store.synced == old(store.synced)
        && (old(store.Valid()) ==> store.Valid())
    ensures
      var m := old(store.tree.contents);
      var v := TreeVerdict(m, payload);
      v.0 == Success ==>
        && Distinct(order, PendingOf(m, v.1))
        && (code == Success || code == ServerFailure)
        && (code == Success ==>
              OrderOf(order, NamesOf(v.1)) && store.tree.contents == ThroughAll(m, Writes(PendingOf(m, v.1), order)))
        && (code == ServerFailure ==> BrokenOff(store.tree.contents, m, PendingOf(m, v.1), order, flushed))
        && (code == Success && old(store.Valid()) ==>
              (Durability.GoodOps(S.Changes(m, Writes(PendingOf(m, v.1), order))) ==> store.Valid()))
  {
    hide Tree.Valid, S.Store.Valid, ReadZone, ReadRRs, AllInZone, PrerequisitesCode, GetU16, PathOf, View, PendingOf,
         ThroughAll, BrokenOff, Durability.GoodOps, S.Changes;
    order := [];
    ghost var m, names := store.tree.contents, Asked(payload);
    if |payload| < HEADER_SIZE { return FormatError, order; }
    var zone := ParseZoneSection(payload);
    if zone.None? { return FormatError, order; }
    var (name, off) := zone.value;
    var _, found := store.tree.Get(name);
    ViewAt(m, names, name);
    if !found && name != [DOT] { return NotAuth, order; }
    var prs := ParseRecords(payload, off, GetU16(payload[6..8]));
    if prs.None? { return FormatError, order; }
    var ups := ParseRecords(payload, prs.value.next, GetU16(payload[8..10]));
    if ups.None? { return FormatError, order; }
    var ok := CheckZone(prs.value.records, name);
    if !ok { return NotZone, order; }
    ok := CheckZone(ups.value.records, name);
    if !ok { return NotZone, order; }
    code := CheckAgainst(prs.value.records, store.tree, names);
    if code != Success { return; }
    var states := ComputeFrom(ups.value.records, store.tree);
    ok, order := WriteAll(states, store, flushed);
    return if ok then Success else ServerFailure, order;
  }
}
