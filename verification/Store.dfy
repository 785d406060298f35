/**
 The store (internal/store): mutations go to the log and the tree together, a compaction replaces log by
 snapshot, and opening or reloading reads both back.
 */
module Store {
  import opened Octets
  import opened Records
  import opened Names
  import opened Zones
  import opened Operations
  import opened Tries
  import opened Resolution
  import opened RadixTree
  import opened Walking
  import opened Codec
  import opened Wal
  import opened Snapshot
  import opened ZoneSerials
  import opened Durability

  /** What a refused append leaves in the log: the opcode goes out before the encoder looks at the records. */
  function Stray(op: Op): Bytes {
    if op.Upsert? && |op.domain| <= MAX_DOMAIN && |op.sets| <= MAX_SETS then [OP_UPSERT] else []
  }

  /** How many leading operations the log accepts. */
  function Taken(ops: seq<Op>): (n: nat)
    ensures n <= |ops| && AllAccepted(ops[..n])
    ensures n < |ops| ==> !Accepted(ops[n])
    ensures n == |ops| <==> AllAccepted(ops)
  {
    if ops == [] || !Accepted(ops[0]) then 0
    else
      var n := Taken(ops[1..]);
      assert forall i :: 0 < i < n + 1 ==> ops[i] == ops[1..][i - 1];
      assert forall i :: 0 <= i < |ops| - 1 ==> ops[1..][i] == ops[i + 1];
      n + 1
  }

  /** The log bytes of a list of operations of which the first refused one ends the list. */
  function Logged(ops: seq<Op>, crc: Checksum): Bytes {
    var n := Taken(ops);
    Frames(ops[..n], crc) + if n < |ops| then Stray(ops[n]) else []
  }

  lemma LoggedOne(op: Op, crc: Checksum)
    ensures Taken([op]) == if Accepted(op) then 1 else 0
    ensures Logged([op], crc) == if Accepted(op) then Frame(op, crc) else Stray(op)
  {
    hide Frame, Accepted, Stray;
    assert [op][1..] == [] && [op][..1] == [op] && [op][..0] == [];
    if Accepted(op) {
      assert Taken([]) == 0;
      assert Frames([op], crc) == Frame(op, crc) + Frames([], crc);
    }
  }

  lemma LoggedTwo(a: Op, b: Op, crc: Checksum)
    requires Accepted(a)
    ensures Taken([a, b]) == if Accepted(b) then 2 else 1
    ensures Logged([a, b], crc) == Frame(a, crc) + if Accepted(b) then Frame(b, crc) else Stray(b)
  {
    hide Frame, Accepted, Stray;
    assert [a, b][1..] == [b] && [a, b][..2] == [a, b] && [a, b][..1] == [a];
    assert [a][1..] == [];
    LoggedOne(b, crc);
    assert Frames([a], crc) == Frame(a, crc) + Frames([], crc);
    if Accepted(b) {
      assert Frames([a, b], crc) == Frame(a, crc) + Frames([b], crc);
      assert [b][..1] == [b];
    }
  }

  lemma LoggedRefused(a: Op, b: Op, crc: Checksum)
    requires !Accepted(a)
    ensures Taken([a, b]) == 0 && Logged([a, b], crc) == Stray(a)
  {
    hide Frame, Accepted, Stray;
    assert [a, b][..0] == [];
  }

  /** The changes of a batch, each mutation seeing the map its predecessors left. */
  ghost function Changes(m: Zone, batch: seq<Op>): seq<Op>
    decreases |batch|
  {
    if batch == [] then []
    else
      var before := Changes(m, batch[..|batch| - 1]);
      before + Expansion(ApplyAll(m, before), batch[|batch| - 1])
  }

  lemma ChangesSnoc(m: Zone, batch: seq<Op>, op: Op)
    ensures Changes(m, batch + [op]) == Changes(m, batch) + Expansion(ApplyAll(m, Changes(m, batch)), op)
  {
    assert (batch + [op])[..|batch|] == batch;
  }

  class Store {
    const lib: Lib
    var tree: Tree
    var writer: Writer
    /** The snapshot file, and how much of the log file is known to be on disk. */
    var snap: Option<Bytes>
    var synced: nat
    ghost var sys: Sys

    ghost predicate Shape()
      reads this, tree, tree.repr, writer
    {
      && tree.Valid() && this !in tree.repr && writer !in tree.repr
      && writer.crc == lib.crc
    }

    /** Memory and disk are as the state machine of durability has them, with its invariant. */
    ghost predicate Valid()
      reads this, tree, tree.repr, writer
    {
      && Shape() && Inverts(lib)
      && Inv(sys, lib) && sys.zone == tree.contents && sys.disk == Disk(snap, Some(writer.log), synced)
      && !sys.committing && sys.acked == |sys.history|
    }

    /** Memory and disk are one history, of which a tail may not have been flushed. */
    ghost predicate Memory()
      reads this, tree, tree.repr, writer
    {
      && Shape() && Inverts(lib)
      && Held(sys, lib) && sys.zone == tree.contents && sys.disk == Disk(snap, Some(writer.log), synced)
      && !sys.committing
    }

    /** A store over what has been read from a data directory whose log ends at a frame boundary. */
    constructor (lib: Lib, tree: Tree, snap: Bytes, writer: Writer, ghost sys: Sys)
      requires tree.Valid() && writer !in tree.repr && writer.crc == lib.crc && Inverts(lib)
      requires Inv(sys, lib) && sys.zone == tree.contents &&
               sys.disk == Disk(Some(snap), Some(writer.log), |writer.log|)
      requires !sys.committing && sys.acked == |sys.history|
      ensures Valid() && this.lib == lib && this.tree == tree && this.writer == writer && this.sys == sys
      ensures this.snap == Some(snap)
    {
      this.lib, this.tree, this.writer, this.sys := lib, tree, writer, sys;
      this.snap, this.synced := Some(snap), |writer.log|;
    }

    /** One change: first the log, then the tree, and the tree only when the log took it. */
    method Write(op: Op) returns (ok: bool)
      requires Shape()
      modifies tree, writer
      ensures Shape() && fresh(tree.repr - old(tree.repr))
      ensures ok <==> Accepted(op)
      ensures tree.contents == if ok then Apply(old(tree.contents), op) else old(tree.contents)
      ensures writer.log == old(writer.log) + if ok then Frame(op, lib.crc) else Stray(op)
    {
      hide Tree.Valid, Frame, Accepted, PathOf;
      match op
      case Upsert(d, records) =>
        ok := writer.AppendUpsert(d, records);
        if ok { tree.Upsert(d, records); }
      case Delete(d) =>
        ok := writer.AppendDelete(d);
        if ok { tree.DeleteDomain(d); }
    }

    /** The apex change that goes before op, if there is one. */
    method ApexChange(domain: Bytes) returns (change: Option<Op>)
      requires Shape()
      ensures forall op: Op :: op.domain == domain && !(op.Upsert? && HasSerial(op.sets)) ==>
                Expansion(tree.contents, op) == if change.Some? then [change.value, op] else [op]
    {
      hide Tree.Valid, SpecResolve, PathOf, RaiseSets, HasSerial;
      var res := tree.Resolve(domain, TYPE_SOA);
      var apex := FindApexDomain(res, domain);
      if apex == [] || apex == domain { return None; }
      var apexRecords, ok := tree.Get(apex);
      if !ok { return None; }
      var updated, found := RaiseSerial(apexRecords);
      if !found { return None; }
      return Some(Upsert(apex, updated));
    }

    /** A mutation with its own SOA raises that serial; another raises its enclosing apex first. */
    method ApplyOperation(op: Op) returns (ok: bool)
      requires Shape()
      modifies tree, writer
      ensures Shape() && fresh(tree.repr - old(tree.repr))
      ensures
        var e := Expansion(old(tree.contents), op);
        && (ok <==> AllAccepted(e))
        && tree.contents == ApplyAll(old(tree.contents), e[..Taken(e)])
        && writer.log == old(writer.log) + Logged(e, lib.crc)
    {
      hide Tree.Valid, Expansion, Accepted, Apply, ApplyAll, Frame, Stray, HasSerial, RaiseSets, Taken, Logged;
      ghost var m, e := tree.contents, Expansion(tree.contents, op);
      if op.Upsert? {
        var sets, own := RaiseSerial(op.sets);
        if own {
          OwnSerial(m, op);
          ok := Write(Upsert(op.domain, sets));
          LoggedOne(e[0], lib.crc);
          TakenOne(m, e[0]);
          return;
        }
      }
      var change := ApexChange(op.domain);
      if change.Some? {
        ok := Write(change.value);
        if !ok {
          LoggedRefused(change.value, op, lib.crc);
          TakenNone(m, e);
          return;
        }
      }
      ghost var log := writer.log;
      ok := Write(op);
      if change.Some? {
        LoggedTwo(change.value, op, lib.crc);
        TakenTwo(m, change.value, op);
      } else {
        LoggedOne(op, lib.crc);
        TakenOne(m, op);
      }
    }

    /**
     Applies the operations in turn until one is refused; the rest are not tried.
     failed is the index of the refused one, or the length of the batch.
     */
    method ApplyBatch(batch: seq<Op>) returns (failed: nat)
      requires Shape()
      modifies tree, writer
      ensures Shape() && fresh(tree.repr - old(tree.repr)) && failed <= |batch|
      ensures
        var m := old(tree.contents);
        var done := Changes(m, batch[..failed]);
        && AllAccepted(done)
        && (failed == |batch| ==>
              tree.contents == ApplyAll(m, done) && writer.log == old(writer.log) + Frames(done, lib.crc))
        && (failed < |batch| ==>
              var e := Expansion(ApplyAll(m, done), batch[failed]);
              && !AllAccepted(e)
              && tree.contents == ApplyAll(ApplyAll(m, done), e[..Taken(e)])
              && writer.log == old(writer.log) + (Frames(done, lib.crc) + Logged(e, lib.crc)))
    {
      hide Tree.Valid, Expansion, Accepted, ApplyAll, Frames, Taken, Logged;
      ghost var m := tree.contents;
      assert batch[..0] == [];
      NoChanges(m, lib.crc);
      for i := 0 to |batch|
        invariant Shape() && fresh(tree.repr - old(tree.repr))
        invariant AllAccepted(Changes(m, batch[..i])) && tree.contents == ApplyAll(m, Changes(m, batch[..i]))
        invariant writer.log == old(writer.log) + Frames(Changes(m, batch[..i]), lib.crc)
      {
        ghost var done := Changes(m, batch[..i]);
        ghost var e := Expansion(tree.contents, batch[i]);
        var ok := ApplyOperation(batch[i]);
        LogAppends(old(writer.log), done, e, lib.crc);
        if !ok { return i; }
        assert batch[..i + 1] == batch[..i] + [batch[i]];
        ChangesSnoc(m, batch[..i], batch[i]);
        ApplyAllAppend(m, done, e);
        AllTaken(e, lib.crc);
      }
      assert batch[..|batch|] == batch;
      return |batch|;
    }

    /**
     Applies a batch, flushes, and answers every mutation; flushed tells whether the flush goes through. A mutation is
     answered with success exactly when it does and the log took all changes up to its own. A batch whose changes the
     log can carry leaves the store recoverable, and one whose flush fails leaves it with an unanswered tail.
     */
    method CommitBatch(batch: seq<Op>, flushed: bool) returns (answers: seq<bool>)
      requires Shape()
      modifies this, tree, writer
      ensures Shape() && tree == old(tree) && writer == old(writer) && snap == old(snap)
      ensures fresh(tree.repr - old(tree.repr))
      ensures synced == if batch == [] || !flushed then old(synced) else |writer.log|
      ensures
        var c := Changes(old(tree.contents), batch);
        && tree.contents == ApplyAll(old(tree.contents), c[..Taken(c)])
        && writer.log == old(writer.log) + Logged(c, lib.crc)
      ensures |answers| == |batch|
      ensures forall i :: 0 <= i < |batch| ==>
                (answers[i] <==> flushed && AllAccepted(Changes(old(tree.contents), batch[..i + 1])))
      ensures old(Valid()) && GoodOps(Changes(old(tree.contents), batch)) ==>
                && AllAccepted(Changes(old(tree.contents), batch))
                && sys.start == old(sys.start) && sys.history == old(sys.history) + Changes(old(tree.contents), batch)
                && (flushed || batch == [] ==> Valid() && sys.acked == |sys.history|)
                && (!flushed ==> Memory() && sys.acked == old(sys.acked))
    {
      hide Tree.Valid, Inv, Held, Changes, GoodOp, Inverts, Expansion, ApplyAll, Frames, Taken, Accepted, Logged;
      ghost var m := tree.contents;
      ghost var ops := Changes(m, batch);
      if |batch| == 0 {
        NothingReached(m, lib.crc);
        assert writer.log + [] == writer.log && sys.history + [] == sys.history;
        if Valid() { InvHeld(sys, lib); }
        return [];
      }
      var failed := ApplyBatch(batch);
      BatchReached(m, batch, failed, lib.crc);
      if flushed { synced := |writer.log|; }
      answers := seq(|batch|, i => flushed && i < failed);
      forall i | 0 <= i < |batch| ensures answers[i] <==> flushed && AllAccepted(Changes(m, batch[..i + 1])) {
        AnswerExactly(m, batch, failed, i);
      }
      if old(Valid()) && GoodOps(ops) {
        GoodAccepted(ops);
        AllTaken(ops, lib.crc);
        if flushed {
          CommittedInv(sys, ops, lib);
          sys := Committed(sys, ops, lib);
        } else {
          InvHeld(sys, lib);
          AppendedHeld(sys, ops, lib);
          sys := Appended(sys, ops, lib);
        }
      }
    }

    /** Writes the snapshot aside and renames it into place. The log still has what the snapshot took in. */
    method Checkpoint() returns (ok: bool)
      requires Valid()
      modifies this`snap, this`sys
      ensures Valid() && (ok <==> Savable(|tree.contents|, Listing(tree.trie), lib))
      ensures !ok ==> snap == old(snap)
      ensures ok ==> sys.snapAt == |sys.history| && snap.Some? && Loads(snap.value, lib, tree.contents)
      ensures sys.history == old(sys.history) && sys.start == old(sys.start)
    {
      hide Inv, Inverts, Savable, Listing, FileOf, EncEntries, WF, Denotes, Rep, Loads;
      var out := Snapshot.Save(tree, lib);
      if out.None? { return false; }
      TreeMeans(tree);
      SaveKeeps(sys, tree.trie, lib);
      sys := After(sys, Durability.Step.Save(tree.trie), lib);
      snap := out;
      return true;
    }

    /** Starts a new log file once the snapshot holds everything. */
    method ResetLog()
      requires Valid() && sys.snapAt == |sys.history|
      modifies this`writer, this`synced, this`sys
      ensures Valid() && fresh(writer) && writer.log == [] && sys.history == old(sys.history) &&
              sys.start == old(sys.start)
    {
      hide Inv, Inverts, Tree.Valid;
      StepInv(sys, Truncate, lib);
      sys := After(sys, Truncate, lib);
      writer := new Writer(lib.crc);
      synced := 0;
    }

    /** A compaction: nothing of the map changes, and the store is valid between its two halves as well. */
    method Compact() returns (ok: bool)
      requires Valid()
      modifies this
      ensures Valid() && tree == old(tree) && tree.contents == old(tree.contents)
      ensures ok <==> Savable(|tree.contents|, Listing(tree.trie), lib)
      ensures ok ==> writer.log == [] && snap.Some? && Loads(snap.value, lib, tree.contents)
      ensures !ok ==> writer == old(writer) && writer.log == old(writer.log) && snap == old(snap)
    {
      hide Inv, Inverts, Tree.Valid, Savable, Listing, Loads;
      ok := Checkpoint();
      if ok { ResetLog(); }
    }

    /** Reads snapshot and log into a new tree and publishes it: the map stays as it was. */
    method ReloadFromDisk() returns (ok: bool)
      requires Valid()
      modifies this`tree
      ensures ok && Valid() && fresh(tree) && tree.contents == old(tree.contents)
    {
      hide Inv, Inverts, Tree.Valid, Recover;
      var newTree;
      QuietRecovers(sys, lib);
      newTree, ok := LoadTree(snap, Some(writer.log), lib);
      if ok { tree := newTree; }
    }
  }

  /** What a data directory opens to: the snapshot, then every whole frame of the log. */
  method LoadTree(snap: Option<Bytes>, log: Option<Bytes>, lib: Lib) returns (tree: Tree, ok: bool)
    ensures ok <==> Recover(snap, log, lib).Recovered?
    ensures fresh(tree) && fresh(tree.repr) && tree.Valid()
    ensures ok ==> tree.contents == Recover(snap, log, lib).zone
  {
    hide Tree.Valid, LoadFile, Replay;
    tree := new Tree();
    if snap.None? && log.Some? { return tree, false; }
    if snap.Some? {
      var recs := LoadFile(snap.value, lib);
      if recs.None? { return tree, false; }
      LoadRecords(tree, recs.value);
    }
    if log.None? { return tree, true; }
    var ops, end := ReplayLog(log.value, lib.crc);
    ApplyOps(tree, ops);
    return tree, end.Clean? || end.Truncated?;
  }

  method LoadRecords(tree: Tree, recs: seq<Record>)
    requires tree.Valid() && tree.contents == map[]
    modifies tree
    ensures tree.Valid() && fresh(tree.repr - old(tree.repr)) && tree.contents == Rebuild(recs)
  {
    hide Tree.Valid, PathOf;
    for i := 0 to |recs|
      invariant tree.Valid() && fresh(tree.repr - old(tree.repr)) && tree.contents == Rebuild(recs[..i])
    {
      tree.Upsert(recs[i].domain, recs[i].sets);
      assert recs[..i + 1][..i] == recs[..i];
    }
    assert recs[..|recs|] == recs;
  }

  method ApplyOps(tree: Tree, ops: seq<Op>)
    requires tree.Valid()
    modifies tree
    ensures tree.Valid() && fresh(tree.repr - old(tree.repr)) && tree.contents == ApplyAll(old(tree.contents), ops)
  {
    hide Tree.Valid, PathOf;
    for i := 0 to |ops|
      invariant tree.Valid() && fresh(tree.repr - old(tree.repr)) &&
          tree.contents == ApplyAll(old(tree.contents), ops[..i])
    {
      match ops[i] {
        case Upsert(d, records) => tree.Upsert(d, records);
        case Delete(d) => tree.DeleteDomain(d);
      }
      assert ops[..i + 1][..i] == ops[..i];
    }
    assert ops[..|ops|] == ops;
  }

  lemma SaveKeeps(s: Sys, t: Trie, lib: Lib)
    requires Inv(s, lib) && Inverts(lib) && Can(s, Durability.Step.Save(t), lib) && s.acked == |s.history|
    ensures var e := After(s, Durability.Step.Save(t), lib);
            Inv(e, lib) && (e.disk.snap.Some? ==> Loads(e.disk.snap.value, lib, s.zone))
  {
    hide Held, Loads, Inverts, WF, Denotes, Savable, Listing, SnapshotOf;
    StepInv(s, Durability.Step.Save(t), lib);
    SaveInv(s, t, lib);
  }

  // ---- batches ----

  lemma TreeMeans(tree: Tree)
    requires tree.Valid()
    ensures WF(tree.trie) && Denotes(tree.trie, tree.contents)
  {
  }

  lemma NoChanges(m: Zone, crc: Checksum)
    ensures Changes(m, []) == [] && ApplyAll(m, []) == m && Frames([], crc) == []
  {
  }

  lemma AllTaken(e: seq<Op>, crc: Checksum)
    requires AllAccepted(e)
    ensures e[..Taken(e)] == e && Logged(e, crc) == Frames(e, crc)
  {
    hide Accepted, Frames;
    assert e[..|e|] == e;
  }

  lemma FramesAppend(a: seq<Op>, b: seq<Op>, crc: Checksum)
    requires AllAccepted(a) && AllAccepted(b)
    ensures AllAccepted(a + b) && Frames(a + b, crc) == Frames(a, crc) + Frames(b, crc)
  {
    FramesPrefix(a + b, |a|, crc);
    assert (a + b)[..|a|] == a && (a + b)[|a|..] == b;
  }

  lemma LogAppends(log: Bytes, done: seq<Op>, e: seq<Op>, crc: Checksum)
    requires AllAccepted(done)
    ensures log + Frames(done, crc) + Logged(e, crc) == log + (Frames(done, crc) + Logged(e, crc))
    ensures AllAccepted(e) ==>
              AllAccepted(done + e) && log + Frames(done, crc) + Logged(e, crc) == log + Frames(done + e, crc)
  {
    hide Logged, Frames, Taken, Accepted;
    if AllAccepted(e) {
      FramesAppend(done, e, crc);
      AllTaken(e, crc);
    }
  }

  lemma GoodAccepted(ops: seq<Op>)
    requires GoodOps(ops)
    ensures AllAccepted(ops)
  {
  }

  lemma NothingReached(m: Zone, crc: Checksum)
    ensures Changes(m, []) == [] && Taken([]) == 0 && Logged([], crc) == [] && ApplyAll(m, [][..0]) == m
  {
  }

  lemma InvHeld(s: Sys, lib: Lib)
    requires Inv(s, lib)
    ensures Held(s, lib)
  {
  }

  lemma TakenAfter(done: seq<Op>, e: seq<Op>, rest: seq<Op>)
    requires AllAccepted(done) && !AllAccepted(e)
    ensures var c := done + e + rest; Taken(c) == |done| + Taken(e) && c[..Taken(c)] == done + e[..Taken(e)]
    ensures var c := done + e + rest; Taken(c) < |c| && c[Taken(c)] == e[Taken(e)]
  {
    hide Accepted, Taken;
    var c, n := done + e + rest, |done| + Taken(e);
    assert c[..n] == done + e[..Taken(e)] && c[n] == e[Taken(e)];
    assert forall i :: 0 <= i < n ==> c[i] == c[..n][i];
    assert forall i :: 0 <= i < Taken(c) ==> c[i] == c[..Taken(c)][i];
  }

  /** What a batch leaves in tree and log is what its changes do up to the first refused one. */
  lemma BatchReached(m: Zone, batch: seq<Op>, failed: nat, crc: Checksum)
    requires failed <= |batch| && AllAccepted(Changes(m, batch[..failed]))
    requires failed < |batch| ==> !AllAccepted(Expansion(ApplyAll(m, Changes(m, batch[..failed])), batch[failed]))
    ensures
      var done, c := Changes(m, batch[..failed]), Changes(m, batch);
      if failed == |batch| then c == done && c[..Taken(c)] == c && Logged(c, crc) == Frames(done, crc)
      else
        var e := Expansion(ApplyAll(m, done), batch[failed]);
        && ApplyAll(m, c[..Taken(c)]) == ApplyAll(ApplyAll(m, done), e[..Taken(e)])
        && Logged(c, crc) == Frames(done, crc) + Logged(e, crc)
  {
    hide Expansion, ApplyAll, Changes, Accepted, Taken, Frames, Stray;
    var done, c := Changes(m, batch[..failed]), Changes(m, batch);
    if failed == |batch| {
      assert batch[..failed] == batch;
      AllTaken(c, crc);
    } else {
      var e := Expansion(ApplyAll(m, done), batch[failed]);
      assert batch[..failed + 1] == batch[..failed] + [batch[failed]];
      ChangesSnoc(m, batch[..failed], batch[failed]);
      ChangesPrefix(m, batch, failed + 1);
      var rest := c[|done + e|..];
      assert c == done + e + rest;
      TakenAfter(done, e, rest);
      ApplyAllAppend(m, done, e[..Taken(e)]);
      FramesAppend(done, e[..Taken(e)], crc);
    }
  }

  /** The mutations before the refused one are those whose changes, and all before them, are accepted. */
  lemma AnswerExactly(m: Zone, batch: seq<Op>, failed: nat, i: nat)
    requires failed <= |batch| && i < |batch| && AllAccepted(Changes(m, batch[..failed]))
    requires failed < |batch| ==> !AllAccepted(Expansion(ApplyAll(m, Changes(m, batch[..failed])), batch[failed]))
    ensures i < failed <==> AllAccepted(Changes(m, batch[..i + 1]))
  {
    hide Expansion, ApplyAll, Changes, Accepted;
    if i < failed {
      assert batch[..failed][..i + 1] == batch[..i + 1];
      ChangesPrefix(m, batch[..failed], i + 1);
      assert forall j :: 0 <= j < |Changes(m, batch[..i + 1])| ==>
          Changes(m, batch[..i + 1])[j] == Changes(m, batch[..failed])[j];
    } else {
      var e := Expansion(ApplyAll(m, Changes(m, batch[..failed])), batch[failed]);
      assert batch[..failed + 1] == batch[..failed] + [batch[failed]];
      ChangesSnoc(m, batch[..failed], batch[failed]);
      assert batch[..i + 1][..failed + 1] == batch[..failed + 1];
      ChangesPrefix(m, batch[..i + 1], failed + 1);
      var k :| 0 <= k < |e| && !Accepted(e[k]);
      var c := Changes(m, batch[..failed + 1]);
      assert e[k] == c[|Changes(m, batch[..failed])| + k];
      assert c[|Changes(m, batch[..failed])| + k] == Changes(m, batch[..i + 1])[|Changes(m, batch[..failed])| + k];
    }
  }

  lemma {:induction false} ChangesPrefix(m: Zone, batch: seq<Op>, n: nat)
    requires n <= |batch|
    ensures Changes(m, batch[..n]) <= Changes(m, batch)
    decreases |batch|
  {
    hide Expansion, ApplyAll;
    if n == |batch| {
      assert batch[..n] == batch;
    } else {
      ChangesPrefix(m, batch[..|batch| - 1], n);
      assert batch[..|batch| - 1][..n] == batch[..n];
    }
  }

  /** The machine after a batch of changes has been appended and flushed. */
  ghost function Committed(s: Sys, ops: seq<Op>, lib: Lib): Sys
    requires s.disk.log.Some? && AllAccepted(ops)
  {
    var log := s.disk.log.value + Frames(ops, lib.crc);
    s.(zone := ApplyAll(s.zone, ops), history := s.history + ops, acked := |s.history + ops|, committing := false,
       disk := s.disk.(log := Some(log), synced := |log|))
  }

  /** It is a run of the machine, so it keeps the invariant. */
  lemma {:induction false} CommittedInv(s: Sys, ops: seq<Op>, lib: Lib)
    requires Inv(s, lib) && Inverts(lib) && s.disk.log.Some? && GoodOps(ops)
    ensures AllAccepted(ops) && Inv(Committed(s, ops, lib), lib)
    decreases |ops|
  {
    hide Inv, Inverts, ApplyAll, Apply, Frame, Normal;
    if ops == [] {
      FlushAll(s, [], lib);
      assert s.history + [] == s.history && s.disk.log.value + [] == s.disk.log.value;
    } else {
      var s' := After(s, Append(ops[0]), lib);
      StepInv(s, Append(ops[0]), lib);
      CommittedInv(s', ops[1..], lib);
      CommittedStep(s, ops, lib);
    }
  }

  lemma FlushAll(s: Sys, none: seq<Op>, lib: Lib)
    requires Inv(s, lib) && Inverts(lib) && s.disk.log.Some? && none == []
    ensures Inv(Committed(s, none, lib), lib)
  {
    hide Inv;
    StepInv(s, Flush, lib);
    assert s.history + none == s.history && s.disk.log.value + Frames(none, lib.crc) == s.disk.log.value;
    assert Committed(s, none, lib) == After(s, Flush, lib);
  }

  lemma CommittedStep(s: Sys, ops: seq<Op>, lib: Lib)
    requires s.disk.log.Some? && GoodOps(ops) && ops != []
    ensures Committed(s, ops, lib) == Committed(After(s, Append(ops[0]), lib), ops[1..], lib)
  {
    hide ApplyAll, Apply, Frame;
    var op, rest := ops[0], ops[1..];
    assert [op] + rest == ops;
    assert s.history + [op] + rest == s.history + ops;
    assert Frames(ops, lib.crc) == Frame(op, lib.crc) + Frames(rest, lib.crc);
    assert s.disk.log.value + Frame(op, lib.crc) + Frames(rest, lib.crc) == s.disk.log.value + Frames(ops, lib.crc);
    ApplyAllAppend(s.zone, [op], rest);
    ApplyOne(s.zone, op);
  }

  /** The machine after a batch whose flush failed. */
  ghost function Appended(s: Sys, ops: seq<Op>, lib: Lib): Sys
    requires s.disk.log.Some? && AllAccepted(ops)
  {
    s.(zone := ApplyAll(s.zone, ops), history := s.history + ops, committing := false,
       disk := s.disk.(log := Some(s.disk.log.value + Frames(ops, lib.crc))))
  }

  lemma {:induction false} AppendedHeld(s: Sys, ops: seq<Op>, lib: Lib)
    requires Held(s, lib) && s.disk.log.Some? && GoodOps(ops)
    ensures AllAccepted(ops) && Held(Appended(s, ops, lib), lib)
    decreases |ops|
  {
    hide Held, ApplyAll, Apply, Frame, Normal;
    if ops == [] {
      NothingReached(s.zone, lib.crc);
      assert s.history + [] == s.history && s.disk.log.value + [] == s.disk.log.value;
      HeldQuietly(s, lib);
    } else {
      AppendHeld(s, ops[0], lib);
      AppendedHeld(After(s, Append(ops[0]), lib), ops[1..], lib);
      AppendedStep(s, ops, lib);
    }
  }

  lemma HeldQuietly(s: Sys, lib: Lib)
    requires Held(s, lib)
    ensures Held(s.(committing := false), lib)
  {
    hide ApplyAll, Loads, Good, Frames, GoodOp;
  }

  lemma AppendedStep(s: Sys, ops: seq<Op>, lib: Lib)
    requires s.disk.log.Some? && GoodOps(ops) && ops != []
    ensures Appended(s, ops, lib) == Appended(After(s, Append(ops[0]), lib), ops[1..], lib)
  {
    hide ApplyAll, Apply, Frame;
    var op, rest := ops[0], ops[1..];
    assert [op] + rest == ops;
    assert s.history + [op] + rest == s.history + ops;
    assert Frames(ops, lib.crc) == Frame(op, lib.crc) + Frames(rest, lib.crc);
    assert s.disk.log.value + Frame(op, lib.crc) + Frames(rest, lib.crc) == s.disk.log.value + Frames(ops, lib.crc);
    ApplyAllAppend(s.zone, [op], rest);
    ApplyOne(s.zone, op);
  }

  lemma TakenNone(m: Zone, e: seq<Op>)
    requires Taken(e) == 0 && e != []
    ensures ApplyAll(m, e[..0]) == m && !AllAccepted(e)
  {
    assert e[..0] == [];
  }

  lemma TakenOne(m: Zone, op: Op)
    ensures AllAccepted([op]) <==> Accepted(op)
    ensures ApplyAll(m, [op][..Taken([op])]) == if Accepted(op) then Apply(m, op) else m
  {
    hide Accepted, Apply;
    assert [op][1..] == [] && [op][..0] == [] && [op][..1] == [op];
    assert Taken([]) == 0;
    assert [op][0] == op;
    ApplyOne(m, op);
  }

  lemma TakenTwo(m: Zone, a: Op, b: Op)
    requires Accepted(a)
    ensures AllAccepted([a, b]) <==> Accepted(b)
    ensures ApplyAll(m, [a, b][..Taken([a, b])]) == if Accepted(b) then Apply(Apply(m, a), b) else Apply(m, a)
  {
    hide Accepted, Apply, Taken;
    var e := [a, b];
    assert e[..2] == e && e[..1] == [a] && e[1] == b && e[0] == a;
    ApplyOne(m, a);
    ApplyTwo(m, a, b);
  }
}
