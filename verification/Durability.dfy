/**
 Durability (internal/store): snapshot, log and memory as a state machine over the steps that reach
 the disk, with a crash possible after any of them.
 */
module Durability {
  import opened Octets
  import opened Records
  import opened Names
  import opened Zones
  import opened Operations
  import opened Tries
  import opened Walking
  import opened Codec
  import opened Wal
  import opened Snapshot

  // ---- what a store can hold ----

  lemma {:induction false} TextSmall(d: Bytes, c: nat)
    requires c <= |d|
    ensures |Text(LabelsOf(Hops(d, c)))| <= c
    decreases c
  {
    hide Hops, LowerAll;
    if c == 0 {
      HopsAtStart(d);
    } else {
      HopsStep(d, c);
      var k := LastDot(d, c);
      if k >= 0 {
        TextSmall(d, k);
        if k + 1 < c {
          LabelsOfCons(Hop(LowerAll(d[k + 1..c]), k), Hops(d, k));
          assert LabelsOf(Hops(d, c))[1..] == LabelsOf(Hops(d, k));
        }
      }
    }
  }

  /** Stored names are proper, fit the walk's buffer and have records; records are class IN. */
  ghost predicate Good(m: Zone) {
    forall p :: p in m ==> ProperPath(p) && Fits(p) && m[p] != [] && AllIN(m[p]) == m[p]
  }

  predicate GoodOp(op: Op) {
    Loggable(op) && Normal(op) == op
  }

  ghost predicate GoodOps(ops: seq<Op>) {
    forall i :: 0 <= i < |ops| ==> GoodOp(ops[i])
  }

  lemma ApplyGood(m: Zone, op: Op)
    requires Good(m) && GoodOp(op)
    ensures Good(Apply(m, op))
  {
    hide ProperPath, PathOf, AllIN, Text;
    PathOfProper(op.domain);
    assert Fits(PathOf(op.domain)) by { FitsDomain(op.domain); }
  }

  lemma FitsDomain(d: Bytes)
    requires |d| <= MAX_DOMAIN
    ensures Fits(PathOf(d))
  {
    TextSmall(d, |d|);
  }

  lemma {:induction false} ApplyAllGood(m: Zone, ops: seq<Op>)
    requires Good(m) && GoodOps(ops)
    ensures Good(ApplyAll(m, ops))
    decreases |ops|
  {
    hide Good, GoodOp, Apply;
    if ops != [] {
      ApplyAllGood(m, ops[..|ops| - 1]);
      ApplyGood(ApplyAll(m, ops[..|ops| - 1]), ops[|ops| - 1]);
    }
  }

  // ---- recovery ----

  ghost predicate Loads(file: Bytes, lib: Lib, m: Zone) {
    LoadFile(file, lib).Some? && Rebuild(LoadFile(file, lib).value) == m
  }

  datatype Outcome = Recovered(zone: Zone) | Unclean | BadSnapshot | BadLog

  /** Opening a data directory: the snapshot first, then the log; a torn tail is accepted. */
  function Recover(snap: Option<Bytes>, log: Option<Bytes>, lib: Lib): Outcome {
    if snap.None? && log.Some? then Unclean
    else if snap.Some? && LoadFile(snap.value, lib).None? then BadSnapshot
    else
      var m := if snap.None? then map[] else Rebuild(LoadFile(snap.value, lib).value);
      match log
      case None => Recovered(m)
      case Some(b) =>
        var r := Replay(b, lib.crc);
        if r.end.Clean? || r.end.Truncated? then Recovered(ApplyAll(m, r.ops)) else BadLog
  }

  // ---- the machine ----

  /** log holds every byte appended; the first synced of them are known to be on disk. */
  datatype Disk = Disk(snap: Option<Bytes>, log: Option<Bytes>, synced: nat)

  /**
   history is every change applied to the map start; the log begins after the first logFrom of them,
   the snapshot holds the first snapAt, and the first acked have been flushed and answered.
   */
  datatype Sys = Sys(start: Zone, zone: Zone, history: seq<Op>, logFrom: nat, snapAt: nat, acked: nat,
                     disk: Disk, committing: bool)

  datatype Step =
    | OpenLog
    | Append(op: Op)
    | Flush
    | FlushFails
    | Save(t: Trie)
    | Truncate
    | Reload
    | Restart(k: nat)

  function SnapshotOf(t: Trie, m: Zone, lib: Lib): Bytes
    requires Savable(|m|, Listing(t), lib)
  {
    FileOf(|m|, lib.deflate(EncEntries(Listing(t))), lib.crc)
  }

  ghost predicate Can(s: Sys, step: Step, lib: Lib) {
    match step
    case OpenLog => s.disk.log.None?
    case Append(op) => s.disk.log.Some? && GoodOp(op)
    case Flush => s.disk.log.Some?
    case FlushFails => s.committing
    // The snapshot is taken under the lock a batch holds until it has flushed.
    case Save(t) =>
      s.disk.log.Some? && !s.committing && WF(t) && Denotes(t, s.zone) && Savable(|s.zone|, Listing(t), lib)
    // A compaction flushes between its snapshot and the new log, and gives up when that fails.
    case Truncate => s.disk.log.Some? && !s.committing && s.snapAt == |s.history| == s.acked
    // Reloading flushes first and gives up when that fails.
    case Reload => s.disk.log.Some? && s.acked == |s.history|
    // A crash that left the log at a frame boundary; the store opens it again and goes on.
    case Restart(k) =>
      && s.disk.log.Some? && s.disk.synced <= k <= |s.disk.log.value|
      && Replay(s.disk.log.value[..k], lib.crc).end.Clean?
      && Recover(s.disk.snap, Some(s.disk.log.value[..k]), lib).Recovered?
  }

  ghost function After(s: Sys, step: Step, lib: Lib): Sys
    requires Can(s, step, lib)
  {
    match step
    case OpenLog => s.(disk := s.disk.(log := Some([]), synced := 0))
    case Append(op) =>
      s.(zone := Apply(s.zone, op), history := s.history + [op], committing := true,
         disk := s.disk.(log := Some(s.disk.log.value + Frame(op, lib.crc))))
    case Flush => s.(acked := |s.history|, committing := false, disk := s.disk.(synced := |s.disk.log.value|))
    case FlushFails => s.(committing := false)
    case Save(t) => s.(snapAt := |s.history|, disk := s.disk.(snap := Some(SnapshotOf(t, s.zone, lib))))
    case Truncate => s.(logFrom := |s.history|, disk := s.disk.(log := Some([]), synced := 0))
    case Reload =>
      var r := Recover(s.disk.snap, s.disk.log, lib);
      if r.Recovered? then s.(zone := r.zone) else s
    case Restart(k) =>
      var log := s.disk.log.value[..k];
      var ops := Replay(log, lib.crc).ops;
      var n := s.logFrom + |ops|;
      var back := s.(zone := Recover(s.disk.snap, Some(log), lib).zone, committing := false,
                     disk := s.disk.(log := Some(log), synced := k));
      if s.snapAt <= n
      then back.(history := if n <= |s.history| then s.history[..n] else s.history, acked := n)
      // The log does not reach the snapshot: from here on, what was loaded is where history starts.
      else back.(start := Recover(s.disk.snap, None, lib).zone, history := ops, logFrom := 0, snapAt := 0,
                 acked := |ops|)
  }

  /** A new directory after bootstrap: the first snapshot is renamed into place before a log exists. */
  ghost predicate Init(s: Sys, lib: Lib) {
    && Good(s.start) && s.zone == s.start && s.history == [] && s.logFrom == s.snapAt == s.acked == 0
    && s.disk.snap.Some? && Loads(s.disk.snap.value, lib, s.start) && s.disk.log.None? && s.disk.synced == 0
    && !s.committing
  }

  /** Memory, snapshot and log are parts of one history. */
  ghost predicate Held(s: Sys, lib: Lib) {
    && s.logFrom <= s.snapAt <= |s.history| && s.logFrom <= s.acked <= |s.history|
    && Good(s.start) && GoodOps(s.history) && s.zone == ApplyAll(s.start, s.history)
    && s.disk.snap.Some? && Loads(s.disk.snap.value, lib, ApplyAll(s.start, s.history[..s.snapAt]))
    && (s.disk.log.None? ==> s.history == [])
    && (s.disk.log.Some? ==> LogHolds(s, lib.crc))
  }

  /** And the snapshot is not ahead of what is known to be in the log. */
  ghost predicate Inv(s: Sys, lib: Lib) {
    Held(s, lib) && s.snapAt <= s.acked
  }

  ghost predicate LogHolds(s: Sys, crc: Checksum)
    requires s.logFrom <= s.acked <= |s.history| && s.disk.log.Some? && GoodOps(s.history)
  {
    && s.disk.log.value == Frames(s.history[s.logFrom..], crc)
    && s.disk.synced == |Frames(s.history[s.logFrom..s.acked], crc)|
  }

  // ---- replaying a log over a later snapshot ----

  lemma {:induction false} FinalPrefix(ops: seq<Op>, j: nat, p: Path)
    requires j <= |ops| && Final(ops, p).None?
    ensures Final(ops[..j], p).None?
    decreases |ops|
  {
    if j == |ops| {
      assert ops[..j] == ops;
    } else {
      FinalPrefix(ops[..|ops| - 1], j, p);
      assert ops[..|ops| - 1][..j] == ops[..j];
    }
  }

  /** A snapshot that already has the first changes of a log is not harmed by replaying them. */
  lemma PrefixAbsorbed(m: Zone, ops: seq<Op>, j: nat)
    requires j <= |ops|
    ensures ApplyAll(ApplyAll(m, ops[..j]), ops) == ApplyAll(m, ops)
  {
    hide ApplyAll, Final;
    var early, late := ApplyAll(m, ops[..j]), ApplyAll(m, ops);
    var both := ApplyAll(early, ops);
    forall p ensures (p in both <==> p in late) && RecordsAt(both, p) == RecordsAt(late, p) {
      ApplyAllAt(early, ops, p);
      ApplyAllAt(m, ops, p);
      if Final(ops, p).None? {
        FinalPrefix(ops, j, p);
        ApplyAllAt(m, ops[..j], p);
      }
    }
    SameZone(both, late);
  }

  lemma SnapshotThenLog(m: Zone, h: seq<Op>, t: nat, s: nat, a: nat)
    requires t <= s <= a <= |h|
    ensures ApplyAll(ApplyAll(m, h[..s]), h[t..a]) == ApplyAll(m, h[..a])
  {
    hide ApplyAll;
    var g := h[t..a];
    assert h[..s] == h[..t] + g[..s - t] && h[..a] == h[..t] + g;
    ApplyAllAppend(m, h[..t], g[..s - t]);
    ApplyAllAppend(m, h[..t], g);
    PrefixAbsorbed(ApplyAll(m, h[..t]), g, s - t);
  }

  // ---- what survives a crash ----

  lemma {:induction false} NormalGood(ops: seq<Op>)
    requires GoodOps(ops)
    ensures NormalAll(ops) == ops && AllLoggable(ops)
  {
  }

  lemma FramesGrow(ops: seq<Op>, i: nat, j: nat, crc: Checksum)
    requires AllAccepted(ops) && i <= j <= |ops|
    ensures |Frames(ops[..i], crc)| <= |Frames(ops[..j], crc)|
    ensures i < j ==> |Frames(ops[..i], crc)| < |Frames(ops[..j], crc)|
  {
    hide Frame;
    var g := ops[..j];
    FramesPrefix(g, i, crc);
    assert g[..i] == ops[..i];
    if i < j { FramesNotEmpty(g[i..], crc); }
  }

  lemma FramesNotEmpty(ops: seq<Op>, crc: Checksum)
    requires AllAccepted(ops) && ops != []
    ensures |Frames(ops, crc)| > 0
  {
    hide Payload;
  }

  /** Cutting a log no earlier than its first n frames loses none of them. */
  lemma WholeAtLeast(ops: seq<Op>, n: nat, k: nat, crc: Checksum)
    requires AllAccepted(ops) && n <= |ops| && |Frames(ops[..n], crc)| <= k
    ensures Whole(ops, k, crc) >= n
  {
    hide Frame, Whole;
    var w := Whole(ops, k, crc);
    WholeIsMost(ops, k, crc);
    if w < n { FramesGrow(ops, w + 1, n, crc); }
  }

  /** How many changes are left after a crash that cut the log at k. */
  ghost function Left(s: Sys, k: nat, lib: Lib): nat
    requires Held(s, lib) && s.disk.log.Some?
  {
    AcceptedTail(s.history, s.logFrom);
    s.logFrom + Whole(s.history[s.logFrom..], k, lib.crc)
  }

  lemma AcceptedTail(h: seq<Op>, t: nat)
    requires GoodOps(h) && t <= |h|
    ensures AllAccepted(h[t..]) && GoodOps(h[t..])
  {
  }

  /** The map the snapshot holds. */
  ghost function Saved(s: Sys): Zone
    requires s.snapAt <= |s.history|
  {
    ApplyAll(s.start, s.history[..s.snapAt])
  }

  /** The changes a log cut at k still has. */
  ghost function Surviving(s: Sys, k: nat, lib: Lib): seq<Op>
    requires Held(s, lib) && s.disk.log.Some?
  {
    AcceptedTail(s.history, s.logFrom);
    s.history[s.logFrom..][..Whole(s.history[s.logFrom..], k, lib.crc)]
  }

  /** What a crash leaves: the snapshot and the whole frames within the cut, which include every answered change. */
  lemma CrashLeaves(s: Sys, k: nat, lib: Lib)
    requires Held(s, lib) && s.disk.log.Some? && s.disk.synced <= k <= |s.disk.log.value|
    ensures s.acked <= Left(s, k, lib) <= |s.history|
    ensures Surviving(s, k, lib) == s.history[s.logFrom..Left(s, k, lib)]
    ensures Recover(s.disk.snap, Some(s.disk.log.value[..k]), lib) ==
            Recovered(ApplyAll(Saved(s), Surviving(s, k, lib)))
    ensures
      var r := Replay(s.disk.log.value[..k], lib.crc);
      |r.ops| == Left(s, k, lib) - s.logFrom && r.ops == Surviving(s, k, lib)
      && (r.end.Clean? <==> k == |Frames(s.history[s.logFrom..Left(s, k, lib)], lib.crc)|)
  {
    hide ApplyAll, Replay, Whole, Frames, Good, GoodOp, LoadFile, Rebuild, Normal;
    var t, h, crc := s.logFrom, s.history, lib.crc;
    var ops := h[t..];
    AcceptedTail(h, t);
    NormalGood(ops);
    CutReplay(ops, k, crc);
    assert ops[..s.acked - t] == h[t..s.acked];
    WholeAtLeast(ops, s.acked - t, k, crc);
    var n := Whole(ops, k, crc);
    assert GoodOps(ops[..n]);
    NormalGood(ops[..n]);
    assert ops[..n] == h[t..t + n];
  }

  /**
   Whatever the crash left of the unsynced bytes, opening the directory succeeds and gives a map that
   memory passed through: after the first n changes, where n counts every change that was answered.
   */
  lemma CrashRecovers(s: Sys, k: nat, lib: Lib)
    requires Inv(s, lib) && s.disk.log.Some? && s.disk.synced <= k <= |s.disk.log.value|
    ensures s.acked <= Left(s, k, lib) <= |s.history|
    ensures Recover(s.disk.snap, Some(s.disk.log.value[..k]), lib) ==
            Recovered(ApplyAll(s.start, s.history[..Left(s, k, lib)]))
  {
    hide ApplyAll, Recover, Held, Left, Surviving;
    CrashLeaves(s, k, lib);
    HeldIndices(s, lib);
    SnapshotThenLog(s.start, s.history, s.logFrom, s.snapAt, Left(s, k, lib));
  }

  lemma HeldIndices(s: Sys, lib: Lib)
    requires Held(s, lib)
    ensures s.logFrom <= s.snapAt <= |s.history| && s.logFrom <= s.acked <= |s.history|
  {
  }

  /** Each name a log changes ends, in that log, as the map has it. */
  ghost predicate Settled(m: Zone, ops: seq<Op>) {
    forall p :: Final(ops, p).Some? ==> RecordsAt(m, p) == Final(ops, p).value
  }

  /** Replaying a log over a map changes nothing if and only if the map is settled. */
  lemma ReplayNeutralIff(m: Zone, ops: seq<Op>)
    requires forall p :: p in m ==> m[p] != []
    ensures ApplyAll(m, ops) == m <==> Settled(m, ops)
  {
    hide ApplyAll, Final;
    var now := ApplyAll(m, ops);
    forall p
      ensures Final(ops, p).Some? ==>
              (p in now <==> Final(ops, p).value != []) && RecordsAt(now, p) == Final(ops, p).value
      ensures Final(ops, p).None? ==> (p in now <==> p in m) && RecordsAt(now, p) == RecordsAt(m, p)
    {
      ApplyAllAt(m, ops, p);
    }
    if Settled(m, ops) {
      SameZone(now, m);
    }
  }

  /** What a path has after a log is replayed over a map. */
  function Over(m: Zone, ops: seq<Op>, p: Path): RRSets {
    match Final(ops, p) case None => RecordsAt(m, p) case Some(rr) => rr
  }

  /** Replaying a log over a map gives another map exactly when each path has there what the log or the map says. */
  lemma ReplayGivesIff(m: Zone, ops: seq<Op>, z: Zone)
    requires (forall p :: p in m ==> m[p] != []) && (forall p :: p in z ==> z[p] != [])
    ensures ApplyAll(m, ops) == z <==> forall p :: RecordsAt(z, p) == Over(m, ops, p)
  {
    hide ApplyAll, Final;
    var now := ApplyAll(m, ops);
    forall p ensures RecordsAt(now, p) == Over(m, ops, p) && (p in now <==> Over(m, ops, p) != []) {
      ApplyAllAt(m, ops, p);
    }
    if forall p :: RecordsAt(z, p) == Over(m, ops, p) { SameZone(now, z); }
  }

  /** What the surviving log makes of the snapshot is, path by path, what memory held after the first n changes. */
  ghost predicate Passed(s: Sys, k: nat, n: nat, lib: Lib)
    requires Held(s, lib) && s.disk.log.Some? && n <= |s.history|
  {
    forall p :: RecordsAt(ApplyAll(s.start, s.history[..n]), p) == Over(Saved(s), Surviving(s, k, lib), p)
  }

  /**
   The exact outcome of a crash for every state, flushed or not. When the surviving log reaches the snapshot, recovery
   gives the map after the changes left. When the snapshot is ahead of it, recovery gives the snapshot's map if and
   only if each name the surviving log changes ends, in that log, as the snapshot holds it. It gives the map after the
   first n changes if and only if the two agree path by path.
   */
  lemma CrashExactly(s: Sys, k: nat, lib: Lib)
    requires Held(s, lib) && s.disk.log.Some? && s.disk.synced <= k <= |s.disk.log.value|
    ensures s.acked <= Left(s, k, lib) <= |s.history|
    ensures
      var r := Recover(s.disk.snap, Some(s.disk.log.value[..k]), lib);
      && r.Recovered?
      && (s.snapAt <= Left(s, k, lib) ==> r.zone == ApplyAll(s.start, s.history[..Left(s, k, lib)]))
      && (s.snapAt > Left(s, k, lib) ==> (r.zone == Saved(s) <==> Settled(Saved(s), Surviving(s, k, lib))))
      && (forall n :: 0 <= n <= |s.history| ==> (r.zone == ApplyAll(s.start, s.history[..n]) <==> Passed(s, k, n, lib)))
  {
    hide ApplyAll, Recover, Left, Surviving, Settled, Loads, LogHolds, GoodOps, Over;
    CrashLeaves(s, k, lib);
    assert GoodOps(s.history[..s.snapAt]) by { GoodPrefix(s.history, s.snapAt); }
    ApplyAllGood(s.start, s.history[..s.snapAt]);
    forall n | 0 <= n <= |s.history|
      ensures ApplyAll(Saved(s), Surviving(s, k, lib)) == ApplyAll(s.start, s.history[..n]) <==> Passed(s, k, n, lib)
    {
      GoodPrefix(s.history, n);
      ApplyAllGood(s.start, s.history[..n]);
      ReplayGivesIff(Saved(s), Surviving(s, k, lib), ApplyAll(s.start, s.history[..n]));
    }
    if s.snapAt <= Left(s, k, lib) {
      SnapshotThenLog(s.start, s.history, s.logFrom, s.snapAt, Left(s, k, lib));
    } else {
      ReplayNeutralIff(Saved(s), Surviving(s, k, lib));
    }
  }

  lemma GoodPrefix(ops: seq<Op>, n: nat)
    requires GoodOps(ops) && n <= |ops|
    ensures GoodOps(ops[..n])
  {
  }

  /** With nothing pending the recovered map is the one in memory. */
  lemma QuietRecovers(s: Sys, lib: Lib)
    requires Inv(s, lib) && s.disk.log.Some? && s.acked == |s.history|
    ensures Recover(s.disk.snap, s.disk.log, lib) == Recovered(s.zone)
    ensures s.disk.synced == |s.disk.log.value|
  {
    hide ApplyAll, Recover, Good, GoodOp, Loads, Frames;
    assert s.history[s.logFrom..s.acked] == s.history[s.logFrom..];
    var log := s.disk.log.value;
    assert log[..|log|] == log;
    CrashRecovers(s, |log|, lib);
    assert s.history[..Left(s, |log|, lib)] == s.history;
  }

  /** A directory whose log is not there yet opens too; a log without a snapshot never exists. */
  lemma NeverUnclean(s: Sys, lib: Lib)
    requires Inv(s, lib)
    ensures s.disk.snap.Some?
    ensures s.disk.log.None? ==> Recover(s.disk.snap, None, lib) == Recovered(s.zone)
  {
  }

  // ---- every step keeps the invariant ----

  lemma FramesSnoc(ops: seq<Op>, op: Op, crc: Checksum)
    requires AllAccepted(ops) && Accepted(op)
    ensures AllAccepted(ops + [op]) && Frames(ops + [op], crc) == Frames(ops, crc) + Frame(op, crc)
  {
    hide Frame;
    var all := ops + [op];
    FramesPrefix(all, |ops|, crc);
    assert all[..|ops|] == ops && all[|ops|..] == [op];
    assert [op][1..] == [];
    assert Frames([op], crc) == Frame(op, crc) + Frames([], crc);
  }

  lemma SaveInv(s: Sys, t: Trie, lib: Lib)
    requires Held(s, lib) && Inverts(lib) && Can(s, Save(t), lib)
    ensures Loads(SnapshotOf(t, s.zone, lib), lib, s.zone)
  {
    hide ApplyAll, WF, Denotes, Savable, Listing, LoadFile, Rebuild, LogHolds;
    ApplyAllGood(s.start, s.history);
    GoodMeans(s.zone);
    SaveLoad(t, s.zone, lib);
  }

  lemma GoodMeans(m: Zone)
    requires Good(m)
    ensures ProperZone(m) && AllFit(m) && ZoneIN(m) == m
  {
  }

  lemma AppendHeld(s: Sys, op: Op, lib: Lib)
    requires Held(s, lib) && Can(s, Append(op), lib)
    ensures Held(After(s, Append(op), lib), lib)
  {
    hide ApplyAll, Apply, Good, Loads, Frames, Frame, Normal;
    var h, t := s.history, s.logFrom;
    ApplyAllSnoc(s.start, h, op);
    AcceptedTail(h, t);
    FramesSnoc(h[t..], op, lib.crc);
    assert (h + [op])[t..] == h[t..] + [op];
    assert (h + [op])[..s.snapAt] == h[..s.snapAt];
    assert (h + [op])[t..s.acked] == h[t..s.acked];
  }

  /** A restart whose log reaches the snapshot. */
  lemma RestartOn(s: Sys, k: nat, lib: Lib)
    requires Held(s, lib) && Can(s, Restart(k), lib) && s.snapAt <= Left(s, k, lib)
    ensures Inv(After(s, Restart(k), lib), lib)
  {
    hide ApplyAll, Apply, Good, Loads, Frames, GoodOp, Recover, Replay, Surviving;
    CrashLeaves(s, k, lib);
    var h, t, n := s.history, s.logFrom, Left(s, k, lib);
    SnapshotThenLog(s.start, h, t, s.snapAt, n);
    AcceptedTail(h, t);
    LogCut(h, t, n, lib.crc);
    assert h[..n][..s.snapAt] == h[..s.snapAt];
  }

  lemma LoadsSaved(s: Sys, lib: Lib)
    requires Held(s, lib)
    ensures Recover(s.disk.snap, None, lib) == Recovered(Saved(s)) && Good(Saved(s))
    ensures Loads(s.disk.snap.value, lib, Saved(s))
  {
    hide ApplyAll, Good, LoadFile, Rebuild, LogHolds;
    GoodPrefix(s.history, s.snapAt);
    ApplyAllGood(s.start, s.history[..s.snapAt]);
  }

  /** A restart whose snapshot is ahead of its log: history starts over at the snapshot. */
  lemma RestartOver(s: Sys, k: nat, lib: Lib)
    requires Held(s, lib) && Can(s, Restart(k), lib) && s.snapAt > Left(s, k, lib)
    ensures Inv(After(s, Restart(k), lib), lib)
  {
    hide ApplyAll, Apply, Good, Loads, Frames, GoodOp, Recover, Replay, Saved;
    CrashLeaves(s, k, lib);
    LoadsSaved(s, lib);
    var h, t, n := s.history, s.logFrom, Left(s, k, lib);
    AcceptedTail(h, t);
    LogCut(h, t, n, lib.crc);
    var e := After(s, Restart(k), lib);
    assert e.history == h[t..n] && e.history[0..] == e.history && e.history[0..|e.history|] == e.history;
    assert e.history[..0] == [] && ApplyAll(e.start, []) == e.start by { NoChange(e.start); }
  }

  lemma RestartHeld(s: Sys, k: nat, lib: Lib)
    requires Held(s, lib) && Can(s, Restart(k), lib)
    ensures Inv(After(s, Restart(k), lib), lib)
  {
    hide Held, After, Left, Recover, Replay;
    if s.snapAt <= Left(s, k, lib) { RestartOn(s, k, lib); } else { RestartOver(s, k, lib); }
  }

  lemma LogCut(h: seq<Op>, t: nat, n: nat, crc: Checksum)
    requires t <= n <= |h| && GoodOps(h)
    ensures GoodOps(h[..n]) && AllAccepted(h[..n][t..]) && AllAccepted(h[..n][t..n]) && AllAccepted(h[t..])
    ensures |Frames(h[..n][t..], crc)| <= |Frames(h[t..], crc)|
    ensures Frames(h[t..], crc)[..|Frames(h[..n][t..], crc)|] == Frames(h[..n][t..], crc) == Frames(h[..n][t..n], crc)
    ensures h[..n][t..] == h[t..n]
  {
    hide Frames, Normal;
    assert h[..n][t..] == h[t..n] == h[t..][..n - t];
    assert h[..n][t..n] == h[t..n];
    AcceptedTail(h, t);
    FramesPrefix(h[t..], n - t, crc);
  }

  /** Every step keeps memory, snapshot and log together. */
  lemma StepHeld(s: Sys, step: Step, lib: Lib)
    requires Held(s, lib) && Inverts(lib) && Can(s, step, lib)
    ensures Held(After(s, step, lib), lib)
  {
    hide ApplyAll, Good, GoodOp, Loads, Recover, SnapshotOf, Frames, Replay, Left;
    NoFrames(lib.crc);
    match step
    case OpenLog => assert s.history[0..] == [] && s.history[0..0] == [];
    case FlushFails =>
    case Append(op) => AppendHeld(s, op, lib);
    case Flush => assert s.history[s.logFrom..|s.history|] == s.history[s.logFrom..];
    case Save(t) =>
      SaveInv(s, t, lib);
      assert s.history[..|s.history|] == s.history;
    case Truncate =>
      assert s.history[|s.history|..] == [] && s.history[|s.history|..|s.history|] == [];
    case Reload => QuietRecovers(s, lib);
    case Restart(k) => RestartHeld(s, k, lib);
  }

  lemma NoFrames(crc: Checksum)
    ensures Frames([], crc) == []
  {
  }

  lemma StepInv(s: Sys, step: Step, lib: Lib)
    requires Inv(s, lib) && Inverts(lib) && Can(s, step, lib) && (step.Save? ==> s.acked == |s.history|)
    ensures Inv(After(s, step, lib), lib)
  {
    hide Held, Recover, Replay, SnapshotOf, Left;
    HeldIndices(s, lib);
    if step.Restart? {
      CrashLeaves(s, step.k, lib);
      RestartHeld(s, step.k, lib);
    } else {
      StepHeld(s, step, lib);
    }
  }

  // ---- whole runs ----

  ghost predicate IsRun(s: Sys, steps: seq<Step>, lib: Lib)
    decreases |steps|
  {
    steps == [] || (Can(s, steps[0], lib) && IsRun(After(s, steps[0], lib), steps[1..], lib))
  }

  ghost function EndOf(s: Sys, steps: seq<Step>, lib: Lib): Sys
    requires IsRun(s, steps, lib)
    decreases |steps|
  {
    if steps == [] then s else EndOf(After(s, steps[0], lib), steps[1..], lib)
  }

  /** Whenever a snapshot is taken, everything appended has been flushed. */
  ghost predicate SavesFlushed(s: Sys, steps: seq<Step>, lib: Lib)
    requires IsRun(s, steps, lib)
    decreases |steps|
  {
    steps == [] ||
    ((steps[0].Save? ==> s.acked == |s.history|) && SavesFlushed(After(s, steps[0], lib), steps[1..], lib))
  }

  ghost predicate FlushesSucceed(steps: seq<Step>) {
    forall i :: 0 <= i < |steps| ==> !steps[i].FlushFails?
  }

  /** The lock sees to it as long as no flush fails. */
  lemma {:induction false} LockSuffices(s: Sys, steps: seq<Step>, lib: Lib)
    requires Inv(s, lib) && Inverts(lib) && IsRun(s, steps, lib) && FlushesSucceed(steps)
    requires !s.committing ==> s.acked == |s.history|
    ensures SavesFlushed(s, steps, lib)
    decreases |steps|
  {
    hide Inv, Inverts, Recover;
    if steps != [] {
      StepInv(s, steps[0], lib);
      assert steps[0].Restart? ==> |After(s, steps[0], lib).history| == After(s, steps[0], lib).acked by {
        if steps[0].Restart? { RestartAcked(s, steps[0].k, lib); }
      }
      LockSuffices(After(s, steps[0], lib), steps[1..], lib);
    }
  }

  lemma RestartAcked(s: Sys, k: nat, lib: Lib)
    requires Inv(s, lib) && Can(s, Restart(k), lib)
    ensures |After(s, Restart(k), lib).history| == After(s, Restart(k), lib).acked
  {
    hide ApplyAll, Good, Loads, Frames, GoodOp, Recover, Replay;
    CrashLeaves(s, k, lib);
  }

  lemma {:induction false} RunInv(s: Sys, steps: seq<Step>, lib: Lib)
    requires Inv(s, lib) && Inverts(lib) && IsRun(s, steps, lib) && SavesFlushed(s, steps, lib)
    ensures Inv(EndOf(s, steps, lib), lib)
    decreases |steps|
  {
    hide Inv, Can, After, Inverts;
    if steps != [] {
      StepInv(s, steps[0], lib);
      RunInv(After(s, steps[0], lib), steps[1..], lib);
    }
  }

  /** Bootstrap: the map to start from, saved before a log exists, is a state to run from. */
  lemma BootstrapInit(start: Zone, t: Trie, lib: Lib)
    requires Good(start) && WF(t) && Denotes(t, start) && Savable(|start|, Listing(t), lib) && Inverts(lib)
    ensures
      var disk := Disk(Some(SnapshotOf(t, start, lib)), None, 0);
      Init(Sys(start, start, [], 0, 0, 0, disk, false), lib)
  {
    hide Good, WF, Denotes, Savable, Listing, LoadFile, Rebuild, Inverts;
    GoodMeans(start);
    SaveLoad(t, start, lib);
  }

  lemma InitInv(s: Sys, lib: Lib)
    requires Init(s, lib)
    ensures Inv(s, lib)
  {
  }

  /**
   From a new directory, after any run and a crash at any point of it, opening the directory gives the map
   after the first n changes of the run for some n that includes every answered change, and the whole
   map in memory when nothing was left to flush. It is never refused as unclean. All that is asked of the
   run is that snapshots are taken with the log flushed, which the lock gives as long as no flush fails.
   */
  lemma EveryCrashRecovers(s0: Sys, steps: seq<Step>, k: nat, lib: Lib) returns (n: nat)
    requires Init(s0, lib) && Inverts(lib) && IsRun(s0, steps, lib)
    requires FlushesSucceed(steps) || SavesFlushed(s0, steps, lib)
    requires
      var s := EndOf(s0, steps, lib);
      s.disk.log.Some? ==> s.disk.synced <= k <= |s.disk.log.value|
    ensures
      var s := EndOf(s0, steps, lib);
      var log := if s.disk.log.Some? then Some(s.disk.log.value[..k]) else None;
      && s.acked <= n <= |s.history|
      && Recover(s.disk.snap, log, lib) == Recovered(ApplyAll(s.start, s.history[..n]))
      && (s.acked == |s.history| ==> n == |s.history| && s.zone == ApplyAll(s.start, s.history[..n]))
  {
    hide ApplyAll, Recover, Good, GoodOps, Loads, LogHolds, After, Can;
    InitInv(s0, lib);
    if FlushesSucceed(steps) { LockSuffices(s0, steps, lib); }
    RunInv(s0, steps, lib);
    var s := EndOf(s0, steps, lib);
    assert s.history[..|s.history|] == s.history;
    NeverUnclean(s, lib);
    if s.disk.log.Some? {
      CrashRecovers(s, k, lib);
      n := Left(s, k, lib);
    } else {
      n := |s.history|;
    }
  }

  /** Reloading from disk leaves the map in memory as it was. */
  lemma ReloadUnchanged(s: Sys, lib: Lib)
    requires Inv(s, lib) && Can(s, Reload, lib)
    ensures After(s, Reload, lib) == s
  {
    QuietRecovers(s, lib);
  }

  // ---- runs with failed flushes ----

  lemma {:induction false} RunHeld(s: Sys, steps: seq<Step>, lib: Lib)
    requires Held(s, lib) && Inverts(lib) && IsRun(s, steps, lib)
    ensures Held(EndOf(s, steps, lib), lib)
    decreases |steps|
  {
    hide Held, Can, After, Inverts, Left;
    if steps != [] {
      StepHeld(s, steps[0], lib);
      RunHeld(After(s, steps[0], lib), steps[1..], lib);
    }
  }

  /** The exact outcome of a crash at any point of any run, failed flushes and snapshots taken after them included. */
  lemma EveryCrashExactly(s0: Sys, steps: seq<Step>, k: nat, lib: Lib)
    requires Init(s0, lib) && Inverts(lib) && IsRun(s0, steps, lib)
    requires
      var s := EndOf(s0, steps, lib);
      s.disk.log.Some? && s.disk.synced <= k <= |s.disk.log.value|
    ensures
      var s := EndOf(s0, steps, lib);
      && Held(s, lib)
      && var r := Recover(s.disk.snap, Some(s.disk.log.value[..k]), lib);
      && r.Recovered? && s.acked <= Left(s, k, lib) <= |s.history|
      && (s.snapAt <= Left(s, k, lib) ==> r.zone == ApplyAll(s.start, s.history[..Left(s, k, lib)]))
      && (s.snapAt > Left(s, k, lib) ==> (r.zone == Saved(s) <==> Settled(Saved(s), Surviving(s, k, lib))))
      && (forall n :: 0 <= n <= |s.history| ==> (r.zone == ApplyAll(s.start, s.history[..n]) <==> Passed(s, k, n, lib)))
  {
    hide Held, IsRun, EndOf, Recover, Left, Surviving, Settled, Saved, Init, Passed;
    InitInv(s0, lib);
    RunHeld(s0, steps, lib);
    CrashExactly(EndOf(s0, steps, lib), k, lib);
  }

  lemma {:induction false} RunSnoc(s: Sys, steps: seq<Step>, x: Step, lib: Lib)
    requires IsRun(s, steps, lib) && Can(EndOf(s, steps, lib), x, lib)
    ensures IsRun(s, steps + [x], lib) && EndOf(s, steps + [x], lib) == After(EndOf(s, steps, lib), x, lib)
    decreases |steps|
  {
    hide After, Can;
    if steps == [] {
      assert [] + [x] == [x] && [x][1..] == [];
      assert IsRun(After(s, x, lib), [], lib);
    } else {
      RunSnoc(After(s, steps[0], lib), steps[1..], x, lib);
      assert (steps + [x])[1..] == steps[1..] + [x];
    }
  }

  /**
   A run in which it goes wrong: a change is flushed, the flush of the next two fails, a snapshot is taken, and a
   crash leaves the log at its first frame. Recovery replays an older change over a newer one and gives a map
   memory never held.
   */
  lemma FailedFlushMixes(s0: Sys, x: Bytes, y: Bytes, a: RRSets, b: RRSets, c: RRSets, t: Trie, lib: Lib)
    returns (steps: seq<Step>)
    requires Init(s0, lib) && Inverts(lib) && s0.start == map[]
    requires PathOf(x) != PathOf(y) && a != [] && b != [] && c != [] && a != b
    requires GoodOps([Upsert(x, a), Upsert(x, b), Upsert(y, c)])
    requires WF(t) && Denotes(t, map[PathOf(x) := b, PathOf(y) := c])
    requires Savable(|map[PathOf(x) := b, PathOf(y) := c]|, Listing(t), lib)
    ensures IsRun(s0, steps, lib)
    ensures
      var e := EndOf(s0, steps, lib);
      && e.disk.log.Some? && e.disk.synced <= |e.disk.log.value|
      && e.history == [Upsert(x, a), Upsert(x, b), Upsert(y, c)]
      && var r := Recover(e.disk.snap, Some(e.disk.log.value[..e.disk.synced]), lib);
      r.Recovered? && forall n :: 0 <= n <= |e.history| ==> r.zone != ApplyAll(e.start, e.history[..n])
  {
    hide PathOf, ApplyAll, GoodOp, WF, Denotes, Savable, Listing, Loads, Frame, Frames, Recover, Inverts, Good, IsRun,
         EndOf, SnapshotOf, After;
    var h := [Upsert(x, a), Upsert(x, b), Upsert(y, c)];
    var p, q := PathOf(x), PathOf(y);
    var snap := s0.disk.snap;
    steps := FlushesOneOfThree(s0, h, lib);
    var s6 := EndOf(s0, steps, lib);
    ThreeStates(h);
    assert s6.zone == map[p := b, q := c];
    RunSnoc(s0, steps, Save(t), lib);
    steps := steps + [Save(t)];
    AfterSave(s6, t, lib);
    var e := After(s6, Save(t), lib);
    assert e.disk.log.value[..e.disk.synced] == Frame(h[0], lib.crc);
    OneFrame(h[0], lib.crc);
    assert h[..1] == [h[0]];
    SavedThree(h, t, p, q, lib);
    AheadOfLogMixes(x, y, a, b, c, e.disk.snap.value, lib);
  }

  lemma AfterSave(s: Sys, t: Trie, lib: Lib)
    requires Can(s, Save(t), lib)
    ensures After(s, Save(t), lib) ==
            s.(snapAt := |s.history|, disk := s.disk.(snap := Some(SnapshotOf(t, s.zone, lib))))
  {
  }

  /** Three changes of which only the first is flushed. */
  lemma FlushesOneOfThree(s0: Sys, h: seq<Op>, lib: Lib) returns (steps: seq<Step>)
    requires Init(s0, lib) && s0.start == map[] && |h| == 3 && GoodOps(h)
    ensures AllAccepted(h) && IsRun(s0, steps, lib)
    ensures
      var first := Frame(h[0], lib.crc);
      EndOf(s0, steps, lib) ==
      Sys(map[], ApplyAll(map[], h), h, 0, 0, 1,
          Disk(s0.disk.snap, Some(first + Frame(h[1], lib.crc) + Frame(h[2], lib.crc)), |first|), false)
  {
    hide PathOf, ApplyAll, Apply, Frame, Loads, Good, IsRun, EndOf, Normal;
    var snap, m := s0.disk.snap, map[];
    assert GoodOp(h[0]) && GoodOp(h[1]) && GoodOp(h[2]);
    var f0, f1, f2 := Frame(h[0], lib.crc), Frame(h[1], lib.crc), Frame(h[2], lib.crc);
    NoSteps(s0, lib);
    assert ApplyAll(m, []) == m by { NoChange(m); }
    assert h == [h[0], h[1], h[2]];
    assert [] + [h[0]] == [h[0]] && [h[0]] + [h[1]] == [h[0], h[1]] && [h[0], h[1]] + [h[2]] == h;
    ApplyAllSnoc(m, [], h[0]);
    ApplyAllSnoc(m, [h[0]], h[1]);
    ApplyAllSnoc(m, [h[0], h[1]], h[2]);
    var s1 := Sys(m, m, [], 0, 0, 0, Disk(snap, Some([]), 0), false);
    var s2 := Sys(m, ApplyAll(m, [h[0]]), [h[0]], 0, 0, 0, Disk(snap, Some(f0), 0), true);
    var s3 := Sys(m, ApplyAll(m, [h[0]]), [h[0]], 0, 0, 1, Disk(snap, Some(f0), |f0|), false);
    var s4 := Sys(m, ApplyAll(m, [h[0], h[1]]), [h[0], h[1]], 0, 0, 1, Disk(snap, Some(f0 + f1), |f0|), true);
    var s5 := Sys(m, ApplyAll(m, h), h, 0, 0, 1, Disk(snap, Some(f0 + f1 + f2), |f0|), true);
    assert [] + f0 == f0;
    RunSnoc(s0, [], OpenLog, lib);
    steps := [] + [OpenLog];
    assert EndOf(s0, steps, lib) == s1;
    RunSnoc(s0, steps, Append(h[0]), lib);
    steps := steps + [Append(h[0])];
    assert EndOf(s0, steps, lib) == s2;
    RunSnoc(s0, steps, Flush, lib);
    steps := steps + [Flush];
    assert EndOf(s0, steps, lib) == s3;
    RunSnoc(s0, steps, Append(h[1]), lib);
    steps := steps + [Append(h[1])];
    assert EndOf(s0, steps, lib) == s4;
    RunSnoc(s0, steps, Append(h[2]), lib);
    steps := steps + [Append(h[2])];
    assert EndOf(s0, steps, lib) == s5;
    RunSnoc(s0, steps, FlushFails, lib);
    steps := steps + [FlushFails];
  }

  lemma NoChange(m: Zone)
    ensures ApplyAll(m, []) == m
  {
  }

  lemma NoSteps(s: Sys, lib: Lib)
    ensures IsRun(s, [], lib) && EndOf(s, [], lib) == s
  {
  }

  lemma OneFrame(op: Op, crc: Checksum)
    requires Accepted(op)
    ensures AllAccepted([op]) && Frames([op], crc) == Frame(op, crc)
  {
    hide Frame;
    assert [op] == [] + [op];
    FramesSnoc([], op, crc);
  }

  lemma SavedThree(h: seq<Op>, t: Trie, p: Path, q: Path, lib: Lib)
    requires Inverts(lib) && |h| == 3 && GoodOps(h) && WF(t)
    requires h[1].Upsert? && h[2].Upsert?
    requires ApplyAll(map[], h) == map[p := h[1].sets, q := h[2].sets]
    requires
      var m: Zone := map[p := h[1].sets, q := h[2].sets];
      Denotes(t, m) && Savable(|m|, Listing(t), lib)
    ensures Loads(SnapshotOf(t, map[p := h[1].sets, q := h[2].sets], lib), lib, ApplyAll(map[], h))
  {
    hide ApplyAll, GoodOp, WF, Denotes, Savable, Listing, LoadFile, Rebuild, Inverts;
    var m: Zone := map[p := h[1].sets, q := h[2].sets];
    ApplyAllGood(map[], h);
    GoodMeans(m);
    SaveLoad(t, m, lib);
  }

  /** A snapshot with all three changes over a log with the first one only. */
  lemma AheadOfLogMixes(x: Bytes, y: Bytes, a: RRSets, b: RRSets, c: RRSets, file: Bytes, lib: Lib)
    requires PathOf(x) != PathOf(y) && a != [] && b != [] && c != [] && a != b
    requires var h := [Upsert(x, a), Upsert(x, b), Upsert(y, c)]; GoodOps(h) && Loads(file, lib, ApplyAll(map[], h))
    ensures
      var h := [Upsert(x, a), Upsert(x, b), Upsert(y, c)];
      var r := Recover(Some(file), Some(Frames(h[..1], lib.crc)), lib);
      r.Recovered? && forall n :: 0 <= n <= 3 ==> r.zone != ApplyAll(map[], h[..n])
  {
    hide Frames, Replay, LoadFile, Rebuild, PathOf, GoodOp, Normal;
    var h := [Upsert(x, a), Upsert(x, b), Upsert(y, c)];
    assert GoodOps(h[..1]);
    NormalGood(h[..1]);
    ReplayAllIff(h[..1], lib.crc);
    var p, q := PathOf(x), PathOf(y);
    ThreeStates(h);
    assert ApplyAll(map[], h) == map[p := b, q := c];
    ApplyAllSnoc(map[p := b, q := c], [], h[0]);
    assert h[..1] == [] + [h[0]];
    assert ApplyAll(map[p := b, q := c], h[..1]) == map[p := a, q := c];
    forall n | 0 <= n <= 3 ensures map[p := a, q := c] != ApplyAll(map[], h[..n]) {
      assert map[p := a, q := c][p] == a && q in map[p := a, q := c];
    }
  }

  lemma ThreeStates(h: seq<Op>)
    requires |h| == 3 && forall i :: 0 <= i < 3 ==> h[i].Upsert? && h[i].sets != []
    ensures
      var p, q, r := PathOf(h[0].domain), PathOf(h[1].domain), PathOf(h[2].domain);
      && ApplyAll(map[], h[..0]) == map[] && ApplyAll(map[], h[..1]) == map[p := h[0].sets]
      && ApplyAll(map[], h[..2]) == map[p := h[0].sets][q := h[1].sets]
      && ApplyAll(map[], h[..3]) == map[p := h[0].sets][q := h[1].sets][r := h[2].sets]
      && ApplyAll(map[], h) == ApplyAll(map[], h[..3])
  {
    hide PathOf;
    assert h[..1] == h[..0] + [h[0]] && h[..2] == h[..1] + [h[1]] && h[..3] == h[..2] + [h[2]] && h == h[..3];
    ApplyAllSnoc(map[], h[..0], h[0]);
    ApplyAllSnoc(map[], h[..1], h[1]);
    ApplyAllSnoc(map[], h[..2], h[2]);
  }

  /**
   A log opened with a torn tail is not cut back: one left-over byte of a deletion makes the next frame
   unreadable, so recovery after a second crash fails.
   */
  lemma TornTailSpoilsLog(snap: Bytes, lib: Lib)
    requires LoadFile(snap, lib).Some?
    ensures
      var op := Delete([97]);
      && GoodOp(op)
      && Recover(Some(snap), Some([OP_DELETE]), lib).Recovered?
      && Recover(Some(snap), Some([OP_DELETE] + Frame(op, lib.crc)), lib) == BadLog
  {
    hide LoadFile, Rebuild;
    var b := [OP_DELETE] + Frame(Delete([97]), lib.crc);
    assert b[1] == 2 && b[2] == 0;
    assert b[1..3] == [2, 0];
    assert ReadDelete(b, 1) == Corrupt;
  }
}
