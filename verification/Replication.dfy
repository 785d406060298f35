/**
 Replication (internal/cluster): the primary's generations of snapshot and log, and a replica that
 downloads a snapshot and appends log bytes to its own disk.
 */
module Replication {
  import opened Octets
  import opened Records
  import opened Names
  import opened Zones
  import opened Operations
  import opened Codec
  import opened Wal
  import opened Snapshot
  import opened Durability

  /** From one compaction to the next: the snapshot, the map it holds, and the changes logged since. */
  datatype Gen = Gen(snap: Bytes, base: Zone, ops: seq<Op>)

  /** The stream a replica has open: the generation it was granted for, and the next offset. */
  datatype Conn = Conn(gen: nat, offset: nat)

  datatype Replica = Replica(snap: Option<Bytes>, log: Bytes, conn: Option<Conn>)

  datatype Net = Net(gens: seq<Gen>, replica: Replica)

  datatype Step =
    | Mutate(op: Op)
    | Compact(file: Bytes)
    | Download
    | Handshake
    | Receive(n: nat)
    | LateReceive(n: nat)
    | Disconnect
    | ReplicaCrash(k: nat)

  /** The checksum a snapshot file carries. */
  type Sum = Bytes -> U32

  function Last(s: Net): Gen
    requires s.gens != []
  {
    s.gens[|s.gens| - 1]
  }

  ghost predicate GoodGen(g: Gen, lib: Lib) {
    GoodOps(g.ops) && Loads(g.snap, lib, g.base)
  }

  function LogOf(g: Gen, crc: Checksum): Bytes
    requires AllAccepted(g.ops)
  {
    Frames(g.ops, crc)
  }

  ghost predicate GoodGens(gens: seq<Gen>, lib: Lib) {
    && gens != []
    && (forall i :: 0 <= i < |gens| ==> GoodGen(gens[i], lib))
    && forall i, j :: 0 <= i < j == i + 1 < |gens| ==> gens[j].base == ApplyAll(gens[i].base, gens[i].ops)
  }

  lemma LogDefined(gens: seq<Gen>, lib: Lib, i: nat)
    requires GoodGens(gens, lib) && i < |gens|
    ensures AllAccepted(gens[i].ops)
  {
    assert GoodGen(gens[i], lib);
  }

  /** The current log as a stream reads it. */
  ghost function CurrentLog(s: Net, lib: Lib): Bytes
    requires GoodGens(s.gens, lib)
  {
    LogDefined(s.gens, lib, |s.gens| - 1);
    LogOf(Last(s), lib.crc)
  }

  ghost predicate Can(s: Net, step: Step, lib: Lib, sum: Sum)
    requires GoodGens(s.gens, lib)
  {
    var r := s.replica;
    match step
    case Mutate(op) => GoodOp(op)
    case Compact(file) => Loads(file, lib, ApplyAll(Last(s).base, Last(s).ops))
    case Download => r.conn.None?
    // An offset past the log is refused, and a different checksum sends the replica to download.
    case Handshake =>
      && r.conn.None? && r.snap.Some? && |r.log| <= |CurrentLog(s, lib)|
      && sum(Last(s).snap) == sum(r.snap.value)
    // The generation is compared and the file read in one step.
    case Receive(n) =>
      r.conn.Some? && r.conn.value.gen == |s.gens| - 1 && r.conn.value.offset + n <= |CurrentLog(s, lib)|
    // A compaction and new appends fell between the comparison and the read.
    case LateReceive(n) =>
      r.conn.Some? && r.conn.value.gen < |s.gens| - 1 && 0 < n && r.conn.value.offset + n <= |CurrentLog(s, lib)|
    case Disconnect => r.conn.Some?
    case ReplicaCrash(k) => k <= |r.log|
  }

  ghost function Took(s: Net, n: nat, lib: Lib): Replica
    requires GoodGens(s.gens, lib) && s.replica.conn.Some? && s.replica.conn.value.offset + n <= |CurrentLog(s, lib)|
  {
    var c := s.replica.conn.value;
    s.replica.(log := s.replica.log + CurrentLog(s, lib)[c.offset..c.offset + n],
               conn := Some(c.(offset := c.offset + n)))
  }

  ghost function After(s: Net, step: Step, lib: Lib, sum: Sum): Net
    requires GoodGens(s.gens, lib) && Can(s, step, lib, sum)
  {
    match step
    case Mutate(op) => s.(gens := s.gens[|s.gens| - 1 := Last(s).(ops := Last(s).ops + [op])])
    case Compact(file) => s.(gens := s.gens + [Gen(file, ApplyAll(Last(s).base, Last(s).ops), [])])
    case Download => s.(replica := Replica(Some(Last(s).snap), [], None))
    case Handshake => s.(replica := s.replica.(conn := Some(Conn(|s.gens| - 1, |s.replica.log|))))
    case Receive(n) => s.(replica := Took(s, n, lib))
    case LateReceive(n) => s.(replica := Took(s, n, lib))
    case Disconnect => s.(replica := s.replica.(conn := None))
    case ReplicaCrash(k) => s.(replica := s.replica.(log := s.replica.log[..k], conn := None))
  }

  // ---- a snapshot and a prefix of its own log ----

  ghost predicate Follows(r: Replica, g: Gen, crc: Checksum)
    requires AllAccepted(g.ops)
  {
    r.snap == Some(g.snap) && r.log <= LogOf(g, crc)
  }

  /** The replica follows generation at, and an open stream continues exactly there. */
  ghost predicate FollowsAt(s: Net, at: nat, lib: Lib)
    requires GoodGens(s.gens, lib)
  {
    && at < |s.gens|
    && (LogDefined(s.gens, lib, at); Follows(s.replica, s.gens[at], lib.crc))
    && (s.replica.conn.Some? ==> s.replica.conn.value == Conn(at, |s.replica.log|))
  }

  ghost predicate Inv(s: Net, lib: Lib) {
    && GoodGens(s.gens, lib)
    && (s.replica.snap.None? ==> s.replica.log == [] && s.replica.conn.None?)
    && (s.replica.snap.Some? ==> exists at :: FollowsAt(s, at, lib))
  }

  /** What the replica recovers is the primary's map after the first n changes of one of its generations. */
  lemma ReplicaRecovers(s: Net, at: nat, lib: Lib)
    requires GoodGens(s.gens, lib) && FollowsAt(s, at, lib)
    ensures
      var g := s.gens[at];
      AllAccepted(g.ops) &&
      Recover(s.replica.snap, Some(s.replica.log), lib) ==
      Recovered(ApplyAll(g.base, g.ops[..Whole(g.ops, |s.replica.log|, lib.crc)]))
  {
    hide Frames, Replay, LoadFile, Rebuild, GoodOp, ApplyAll, Whole;
    LogDefined(s.gens, lib, at);
    var g, k := s.gens[at], |s.replica.log|;
    assert GoodGen(g, lib);
    NormalGood(g.ops);
    CutReplay(g.ops, k, lib.crc);
    assert s.replica.log == LogOf(g, lib.crc)[..k];
    var n := Whole(g.ops, k, lib.crc);
    assert GoodOps(g.ops[..n]);
    NormalGood(g.ops[..n]);
  }

  // ---- every step keeps it ----

  lemma MutateGood(gens: seq<Gen>, op: Op, lib: Lib)
    requires GoodGens(gens, lib) && GoodOp(op)
    ensures
      var n := |gens| - 1;
      var more := gens[n := gens[n].(ops := gens[n].ops + [op])];
      GoodGens(more, lib) && AllAccepted(gens[n].ops) && AllAccepted(more[n].ops)
      && LogOf(gens[n], lib.crc) <= LogOf(more[n], lib.crc)
  {
    hide ApplyAll, Loads, Normal, Frame, Frames;
    var n := |gens| - 1;
    var more := gens[n := gens[n].(ops := gens[n].ops + [op])];
    forall i | 0 <= i < |more| ensures GoodGen(more[i], lib) {
      assert GoodGen(gens[i], lib);
    }
    LogDefined(gens, lib, n);
    FramesSnoc(gens[n].ops, op, lib.crc);
  }

  lemma CompactGood(gens: seq<Gen>, file: Bytes, lib: Lib)
    requires GoodGens(gens, lib)
    requires Loads(file, lib, ApplyAll(gens[|gens| - 1].base, gens[|gens| - 1].ops))
    ensures GoodGens(gens + [Gen(file, ApplyAll(gens[|gens| - 1].base, gens[|gens| - 1].ops), [])], lib)
  {
    hide ApplyAll, Loads, GoodOp;
    var more := gens + [Gen(file, ApplyAll(gens[|gens| - 1].base, gens[|gens| - 1].ops), [])];
    forall i | 0 <= i < |more| ensures GoodGen(more[i], lib) {
      if i < |gens| { assert GoodGen(gens[i], lib); }
    }
  }

  lemma StepGood(s: Net, step: Step, lib: Lib, sum: Sum)
    requires GoodGens(s.gens, lib) && Can(s, step, lib, sum)
    ensures GoodGens(After(s, step, lib, sum).gens, lib)
  {
    hide GoodGens, ApplyAll;
    match step
    case Mutate(op) => MutateGood(s.gens, op, lib);
    case Compact(file) => CompactGood(s.gens, file, lib);
    case _ =>
  }

  // ---- the two steps that can go wrong ----

  /**
   What a step must meet. A handshake: the replica's snapshot and log are the current generation's, which equal
   checksums alone do not say. A late read: what it delivers is also what the stream's own generation has there.
   */
  ghost predicate Fitting(s: Net, step: Step, lib: Lib)
    requires GoodGens(s.gens, lib)
  {
    var r := s.replica;
    match step
    case Handshake => r.snap == Some(Last(s).snap) && r.log <= CurrentLog(s, lib)
    case LateReceive(n) =>
      && r.conn.Some? && r.conn.value.gen < |s.gens|
      && (LogDefined(s.gens, lib, r.conn.value.gen);
          SameBytes(LogOf(s.gens[r.conn.value.gen], lib.crc), CurrentLog(s, lib), r.conn.value.offset, n))
    case _ => true
  }

  /** Two logs agree on the n bytes from k on. */
  ghost predicate SameBytes(own: Bytes, other: Bytes, k: nat, n: nat) {
    k + n <= |own| && k + n <= |other| && own[k..k + n] == other[k..k + n]
  }

  /** A handshake leaves the replica on some generation if and only if it is fitting. */
  lemma HandshakeExactly(s: Net, at: nat, lib: Lib, sum: Sum)
    requires GoodGens(s.gens, lib) && FollowsAt(s, at, lib) && Can(s, Handshake, lib, sum)
    ensures
      (exists i: nat :: FollowsAt(After(s, Handshake, lib, sum), i, lib))
      <==> s.replica.snap == Some(Last(s).snap) && s.replica.log <= CurrentLog(s, lib)
  {
    hide GoodGens, Frames;
    LogDefined(s.gens, lib, at);
    var e := After(s, Handshake, lib, sum);
    if s.replica.snap == Some(Last(s).snap) && s.replica.log <= CurrentLog(s, lib) {
      LastIndex(s.gens, lib);
      assert FollowsAt(e, |s.gens| - 1, lib);
    }
  }

  lemma LastIndex(gens: seq<Gen>, lib: Lib)
    requires GoodGens(gens, lib)
    ensures |gens| >= 1 && AllAccepted(gens[|gens| - 1].ops)
  {
    LogDefined(gens, lib, |gens| - 1);
  }

  /** A late read leaves the replica on some generation if and only if its own log has the same bytes there. */
  lemma LateReadExactly(s: Net, at: nat, n: nat, lib: Lib, sum: Sum)
    requires GoodGens(s.gens, lib) && FollowsAt(s, at, lib) && Can(s, LateReceive(n), lib, sum)
    ensures AllAccepted(s.gens[at].ops)
    ensures
      (exists i: nat :: FollowsAt(After(s, LateReceive(n), lib, sum), i, lib))
      <==> SameBytes(LogOf(s.gens[at], lib.crc), CurrentLog(s, lib), |s.replica.log|, n)
  {
    hide GoodGens, Frames;
    LogDefined(s.gens, lib, at);
    var own, cur, k := LogOf(s.gens[at], lib.crc), CurrentLog(s, lib), |s.replica.log|;
    var e := After(s, LateReceive(n), lib, sum);
    if i: nat :| FollowsAt(e, i, lib) {
      assert i == at;
      assert own[k..k + n] == e.replica.log[k..k + n] == cur[k..k + n];
    }
    if SameBytes(own, cur, k, n) {
      assert own[..k] + own[k..k + n] == own[..k + n];
      assert FollowsAt(e, at, lib);
    }
  }

  /** The replica keeps following the same generation; a handshake puts it on the current one, as does a download. */
  lemma StepFollows(s: Net, at: nat, step: Step, lib: Lib, sum: Sum)
    requires GoodGens(s.gens, lib) && Can(s, step, lib, sum) && FollowsAt(s, at, lib)
    requires !step.LateReceive? && !step.Handshake? && !step.Download?
    ensures GoodGens(After(s, step, lib, sum).gens, lib) && FollowsAt(After(s, step, lib, sum), at, lib)
  {
    hide ApplyAll, GoodGens, Frames;
    StepGood(s, step, lib, sum);
    LogDefined(s.gens, lib, at);
    match step
    case Mutate(op) =>
      MutateGood(s.gens, op, lib);
    case Receive(n) =>
      var log, k := LogOf(s.gens[at], lib.crc), |s.replica.log|;
      assert log[..k] + log[k..k + n] == log[..k + n];
    case _ =>
  }

  lemma DownloadFollows(s: Net, lib: Lib, sum: Sum) returns (at: nat)
    requires GoodGens(s.gens, lib) && Can(s, Download, lib, sum)
    ensures at == |s.gens| - 1 && FollowsAt(After(s, Download, lib, sum), at, lib)
  {
    hide GoodGen;
    at := |s.gens| - 1;
    LogDefined(s.gens, lib, |s.gens| - 1);
  }

  /** A step keeps the invariant if and only if it is fitting. */
  lemma StepInv(s: Net, step: Step, lib: Lib, sum: Sum)
    requires Inv(s, lib) && Can(s, step, lib, sum)
    ensures Inv(After(s, step, lib, sum), lib) <==> Fitting(s, step, lib)
  {
    hide GoodGens, ApplyAll, FollowsAt, Frames, LogOf;
    StepGood(s, step, lib, sum);
    if step.Download? {
      var at := DownloadFollows(s, lib, sum);
    } else if s.replica.snap.Some? {
      var at: nat :| FollowsAt(s, at, lib);
      match step
      case Handshake => HandshakeExactly(s, at, lib, sum);
      case LateReceive(n) =>
        LateReadExactly(s, at, n, lib, sum);
        StreamAt(s, at, lib);
      case _ => StepFollows(s, at, step, lib, sum);
    }
  }

  lemma StreamAt(s: Net, at: nat, lib: Lib)
    requires GoodGens(s.gens, lib) && FollowsAt(s, at, lib) && s.replica.conn.Some?
    ensures s.replica.conn.value == Conn(at, |s.replica.log|) && at < |s.gens|
  {
  }

  // ---- whole runs ----

  /** Any run of the primary and the replica, late reads and misled handshakes included. */
  ghost predicate IsRun(s: Net, steps: seq<Step>, lib: Lib, sum: Sum)
    requires GoodGens(s.gens, lib)
    decreases |steps|
  {
    steps == [] ||
    (&& Can(s, steps[0], lib, sum)
     && (StepGood(s, steps[0], lib, sum); IsRun(After(s, steps[0], lib, sum), steps[1..], lib, sum)))
  }

  ghost function EndOf(s: Net, steps: seq<Step>, lib: Lib, sum: Sum): (e: Net)
    requires GoodGens(s.gens, lib) && IsRun(s, steps, lib, sum)
    ensures GoodGens(e.gens, lib)
    decreases |steps|
  {
    if steps == [] then s
    else
      StepGood(s, steps[0], lib, sum);
      EndOf(After(s, steps[0], lib, sum), steps[1..], lib, sum)
  }

  /** Every step of the run is fitting where it happens. */
  ghost predicate AllFitting(s: Net, steps: seq<Step>, lib: Lib, sum: Sum)
    requires GoodGens(s.gens, lib) && IsRun(s, steps, lib, sum)
    decreases |steps|
  {
    steps == [] ||
    (&& Fitting(s, steps[0], lib)
     && (StepGood(s, steps[0], lib, sum); AllFitting(After(s, steps[0], lib, sum), steps[1..], lib, sum)))
  }

  /** The invariant holds at every moment of the run. */
  ghost predicate AlwaysInv(s: Net, steps: seq<Step>, lib: Lib, sum: Sum)
    requires GoodGens(s.gens, lib) && IsRun(s, steps, lib, sum)
    decreases |steps|
  {
    && Inv(s, lib)
    && (steps == [] ||
        (StepGood(s, steps[0], lib, sum); AlwaysInv(After(s, steps[0], lib, sum), steps[1..], lib, sum)))
  }

  /** Through a whole run the replica is on some generation if and only if every step of the run is fitting. */
  lemma {:induction false} RunInvIff(s: Net, steps: seq<Step>, lib: Lib, sum: Sum)
    requires Inv(s, lib) && IsRun(s, steps, lib, sum)
    ensures AlwaysInv(s, steps, lib, sum) <==> AllFitting(s, steps, lib, sum)
    decreases |steps|
  {
    hide After, Can, Inv, Fitting;
    assert GoodGens(s.gens, lib) by { InvGood(s, lib); }
    if steps != [] {
      StepGood(s, steps[0], lib, sum);
      StepInv(s, steps[0], lib, sum);
      var s' := After(s, steps[0], lib, sum);
      if Inv(s', lib) {
        RunInvIff(s', steps[1..], lib, sum);
      } else {
        NotAlways(s', steps[1..], lib, sum);
      }
    }
  }

  lemma InvGood(s: Net, lib: Lib)
    requires Inv(s, lib)
    ensures GoodGens(s.gens, lib)
  {
  }

  lemma NotAlways(s: Net, steps: seq<Step>, lib: Lib, sum: Sum)
    requires GoodGens(s.gens, lib) && IsRun(s, steps, lib, sum) && !Inv(s, lib)
    ensures !AlwaysInv(s, steps, lib, sum)
  {
    hide Inv;
  }

  lemma {:induction false} AlwaysAtEnd(s: Net, steps: seq<Step>, lib: Lib, sum: Sum)
    requires GoodGens(s.gens, lib) && IsRun(s, steps, lib, sum) && AlwaysInv(s, steps, lib, sum)
    ensures Inv(EndOf(s, steps, lib, sum), lib)
    decreases |steps|
  {
    hide After, Can, Inv;
    if steps != [] {
      StepGood(s, steps[0], lib, sum);
      AlwaysAtEnd(After(s, steps[0], lib, sum), steps[1..], lib, sum);
    }
  }

  /** A primary at its first generation and a replica with an empty disk are where runs start. */
  lemma StartInv(file: Bytes, base: Zone, lib: Lib)
    requires Loads(file, lib, base)
    ensures Inv(Net([Gen(file, base, [])], Replica(None, [], None)), lib)
  {
    hide Loads;
    assert GoodGen(Gen(file, base, []), lib);
  }

  /**
   In every run of fitting steps a replica that has a snapshot holds some generation's snapshot and a byte prefix
   of that generation's log, so what it would recover is a map the primary passed through.
   */
  lemma ReplicaPassesThrough(s: Net, steps: seq<Step>, lib: Lib, sum: Sum) returns (at: nat, n: nat)
    requires Inv(s, lib) && IsRun(s, steps, lib, sum) && AllFitting(s, steps, lib, sum)
    requires EndOf(s, steps, lib, sum).replica.snap.Some?
    ensures
      var e := EndOf(s, steps, lib, sum);
      && at < |e.gens| && n <= |e.gens[at].ops| && AllAccepted(e.gens[at].ops)
      && Follows(e.replica, e.gens[at], lib.crc)
      && Recover(e.replica.snap, Some(e.replica.log), lib) == Recovered(ApplyAll(e.gens[at].base, e.gens[at].ops[..n]))
  {
    hide After, Can, Fitting, ApplyAll, Recover, EndOf, IsRun, GoodGens, AllFitting, AlwaysInv;
    RunInvIff(s, steps, lib, sum);
    AlwaysAtEnd(s, steps, lib, sum);
    var e := EndOf(s, steps, lib, sum);
    at :| FollowsAt(e, at, lib);
    ReplicaRecovers(e, at, lib);
    n := Whole(e.gens[at].ops, |e.replica.log|, lib.crc);
  }

  // ---- telling checksums ----

  /** No two generations have snapshots with the same checksum. */
  ghost predicate Telling(gens: seq<Gen>, sum: Sum) {
    forall i, j :: 0 <= i < j < |gens| ==> sum(gens[i].snap) != sum(gens[j].snap)
  }

  ghost predicate NoneLate(steps: seq<Step>) {
    forall i :: 0 <= i < |steps| ==> !steps[i].LateReceive?
  }

  /** Snapshots of generations stay what they were. */
  ghost predicate SnapsGrow(a: seq<Gen>, b: seq<Gen>) {
    |a| <= |b| && forall i :: 0 <= i < |a| ==> a[i].snap == b[i].snap
  }

  lemma StepSnaps(s: Net, step: Step, lib: Lib, sum: Sum)
    requires GoodGens(s.gens, lib) && Can(s, step, lib, sum)
    ensures SnapsGrow(s.gens, After(s, step, lib, sum).gens)
  {
    hide ApplyAll, GoodGen, Loads;
  }

  lemma {:induction false} RunSnaps(s: Net, steps: seq<Step>, lib: Lib, sum: Sum)
    requires GoodGens(s.gens, lib) && IsRun(s, steps, lib, sum)
    ensures SnapsGrow(s.gens, EndOf(s, steps, lib, sum).gens)
    decreases |steps|
  {
    hide After, Can, GoodGens;
    if steps != [] {
      StepGood(s, steps[0], lib, sum);
      StepSnaps(s, steps[0], lib, sum);
      RunSnaps(After(s, steps[0], lib, sum), steps[1..], lib, sum);
    }
  }

  /** With telling checksums a handshake is granted to the current generation only. */
  lemma TellingHandshake(s: Net, lib: Lib, sum: Sum)
    requires Inv(s, lib) && Can(s, Handshake, lib, sum) && Telling(s.gens, sum)
    ensures Fitting(s, Handshake, lib)
  {
    hide GoodGens, Frames;
    var at: nat :| FollowsAt(s, at, lib);
    LastIndex(s.gens, lib);
    assert at == |s.gens| - 1;
  }

  /** So checksums that tell generations apart, and reads in one step with the comparison, make every run fitting. */
  lemma {:induction false} TellingSuffices(s: Net, steps: seq<Step>, lib: Lib, sum: Sum)
    requires Inv(s, lib) && IsRun(s, steps, lib, sum) && NoneLate(steps)
    requires Telling(EndOf(s, steps, lib, sum).gens, sum)
    ensures AllFitting(s, steps, lib, sum)
    decreases |steps|
  {
    hide After, Can, Inv, Fitting;
    InvGood(s, lib);
    if steps != [] {
      RunSnaps(s, steps, lib, sum);
      if steps[0].Handshake? {
        TellingHandshake(s, lib, sum);
      } else {
        PlainFitting(s, steps[0], lib);
      }
      StepGood(s, steps[0], lib, sum);
      StepInv(s, steps[0], lib, sum);
      TellingSuffices(After(s, steps[0], lib, sum), steps[1..], lib, sum);
    }
  }

  lemma PlainFitting(s: Net, step: Step, lib: Lib)
    requires GoodGens(s.gens, lib) && !step.Handshake? && !step.LateReceive?
    ensures Fitting(s, step, lib)
  {
  }

  // ---- runs that go wrong ----

  lemma {:induction false} RunSnoc(s: Net, steps: seq<Step>, x: Step, lib: Lib, sum: Sum)
    requires GoodGens(s.gens, lib) && IsRun(s, steps, lib, sum) && Can(EndOf(s, steps, lib, sum), x, lib, sum)
    ensures IsRun(s, steps + [x], lib, sum)
    ensures EndOf(s, steps + [x], lib, sum) == After(EndOf(s, steps, lib, sum), x, lib, sum)
    decreases |steps|
  {
    hide After, Can, GoodGens;
    if steps == [] {
      assert [] + [x] == [x] && [x][1..] == [];
      StepGood(s, x, lib, sum);
      assert IsRun(After(s, x, lib, sum), [], lib, sum);
    } else {
      StepGood(s, steps[0], lib, sum);
      RunSnoc(After(s, steps[0], lib, sum), steps[1..], x, lib, sum);
      assert (steps + [x])[1..] == steps[1..] + [x];
    }
  }

  /** One more step of a run, with the state it leads to. */
  lemma Then(s: Net, steps: seq<Step>, e: Net, x: Step, e': Net, lib: Lib, sum: Sum)
    requires GoodGens(s.gens, lib) && IsRun(s, steps, lib, sum) && EndOf(s, steps, lib, sum) == e
    requires GoodGens(e.gens, lib) && Can(e, x, lib, sum) && After(e, x, lib, sum) == e'
    ensures IsRun(s, steps + [x], lib, sum) && EndOf(s, steps + [x], lib, sum) == e' && GoodGens(e'.gens, lib)
  {
    hide After, Can, GoodGens, IsRun, EndOf;
    StepGood(e, x, lib, sum);
    RunSnoc(s, steps, x, lib, sum);
  }

  /** The changes of the runs below: the first two cancel out, the last three do not. */
  datatype Plan = Plan(up: Op, del: Op, add: Op, file: Bytes, again: Bytes)

  ghost predicate Planned(p: Plan, lib: Lib) {
    && p.up.Upsert? && p.up.sets != [] && p.del == Delete(p.up.domain) && p.add.Upsert? && p.add.sets != []
    && PathOf(p.up.domain) != PathOf(p.add.domain)
    && GoodOp(p.up) && GoodOp(p.del) && GoodOp(p.add)
    && Loads(p.file, lib, map[]) && Loads(p.again, lib, map[])
  }

  ghost function FirstGen(p: Plan, n: nat): Gen
    requires n <= 2
  {
    Gen(p.file, map[], [p.up, p.del][..n])
  }

  ghost function SecondGen(p: Plan, n: nat): Gen
    requires n <= 3
  {
    Gen(p.again, map[], [p.del, p.up, p.add][..n])
  }

  ghost function Beginning(p: Plan): Net {
    Net([FirstGen(p, 0)], Replica(None, [], None))
  }

  lemma PlanLogs(p: Plan, lib: Lib)
    requires Planned(p, lib)
    ensures AllAccepted([p.up, p.del]) && AllAccepted([p.del, p.up, p.add]) && AllAccepted([p.up, p.del, p.add])
    ensures Accepted(p.add)
    ensures
      var first := Frames([p.up, p.del], lib.crc);
      && |Frames([p.del, p.up, p.add], lib.crc)| == |first| + |Frame(p.add, lib.crc)|
      && first + Frames([p.del, p.up, p.add], lib.crc)[|first|..] == Frames([p.up, p.del, p.add], lib.crc)
  {
    hide Frame, Frames, Normal, PathOf, Loads;
    MixLogs(p.up, p.del, p.add, lib.crc);
  }

  lemma MixLogs(up: Op, del: Op, add: Op, crc: Checksum)
    requires Accepted(up) && Accepted(del) && Accepted(add)
    ensures AllAccepted([up, del]) && AllAccepted([del, up, add]) && AllAccepted([up, del, add])
    ensures
      var first := Frames([up, del], crc);
      && |Frames([del, up, add], crc)| == |first| + |Frame(add, crc)|
      && first + Frames([del, up, add], crc)[|first|..] == Frames([up, del, add], crc)
  {
    hide Frame, Accepted;
    assert [up, del] == [up] + [del] && [del, up] == [del] + [up];
    assert [up] == [] + [up] && [del] == [] + [del];
    FramesSnoc([], up, crc);
    FramesSnoc([], del, crc);
    FramesSnoc([up], del, crc);
    FramesSnoc([del], up, crc);
    assert [up, del, add] == [up, del] + [add] && [del, up, add] == [del, up] + [add];
    FramesSnoc([up, del], add, crc);
    FramesSnoc([del, up], add, crc);
  }

  /** The first generation changes nothing in the end. */
  lemma PlanCancels(p: Plan, lib: Lib)
    requires Planned(p, lib)
    ensures ApplyAll(map[], [p.up, p.del]) == map[]
    ensures ApplyAll(map[], [p.up, p.del, p.add]) == map[PathOf(p.add.domain) := p.add.sets]
  {
    hide PathOf, Loads, GoodOp;
    ApplyTwo(map[], p.up, p.del);
    assert map[PathOf(p.up.domain) := p.up.sets] - {PathOf(p.up.domain)} == map[];
    assert [p.up, p.del, p.add] == [p.up, p.del] + [p.add];
    ApplyAllSnoc(map[], [p.up, p.del], p.add);
  }

  /** No generation of the plan ever has the added name alone. */
  lemma PlanNeverHeld(p: Plan, lib: Lib)
    requires Planned(p, lib)
    ensures
      var gens := [FirstGen(p, 2), SecondGen(p, 3)];
      forall g, k :: 0 <= g < 2 && 0 <= k <= |gens[g].ops| ==>
        ApplyAll(gens[g].base, gens[g].ops[..k]) != map[PathOf(p.add.domain) := p.add.sets]
  {
    hide PathOf, Loads, GoodOp;
    var x, y := PathOf(p.up.domain), PathOf(p.add.domain);
    var first, second := [p.up, p.del], [p.del, p.up, p.add];
    assert first[..0] == [] && first[..1] == [] + [p.up] && first[..2] == first;
    assert second[..0] == [] && second[..1] == [] + [p.del] && second[..2] == [p.del, p.up] && second[..3] == second;
    assert second == [p.del, p.up] + [p.add];
    ApplyAllSnoc(map[], [], p.up);
    ApplyAllSnoc(map[], [], p.del);
    ApplyTwo(map[], p.up, p.del);
    ApplyTwo(map[], p.del, p.up);
    ApplyAllSnoc(map[], [p.del, p.up], p.add);
    assert y in map[y := p.add.sets] && x !in map[y := p.add.sets];
    assert ApplyAll(map[], second) == map[x := p.up.sets, y := p.add.sets];
  }

  /** Download, connect, and read the first generation's log to its end. */
  lemma ReadsFirst(p: Plan, lib: Lib, sum: Sum) returns (steps: seq<Step>)
    requires Planned(p, lib)
    ensures GoodGens(Beginning(p).gens, lib) && AllAccepted([p.up, p.del])
    ensures IsRun(Beginning(p), steps, lib, sum) && NoneLate(steps)
    ensures
      var log := Frames([p.up, p.del], lib.crc);
      EndOf(Beginning(p), steps, lib, sum) == Net([FirstGen(p, 2)], Replica(Some(p.file), log, Some(Conn(0, |log|))))
  {
    hide PathOf, Loads, GoodOp, Frames, ApplyAll, IsRun, EndOf, GoodGens;
    var s := Beginning(p);
    PlanGood(p, lib);
    PlanLogs(p, lib);
    NoSteps(s, lib, sum);
    var log := Frames([p.up, p.del], lib.crc);
    var r1 := Replica(Some(p.file), [], None);
    var r2 := Replica(Some(p.file), [], Some(Conn(0, 0)));
    Then(s, [], s, Download, Net([FirstGen(p, 0)], r1), lib, sum);
    Then(s, [] + [Download], Net([FirstGen(p, 0)], r1), Handshake, Net([FirstGen(p, 0)], r2), lib, sum);
    steps := [] + [Download] + [Handshake];
    assert [p.up, p.del][..1] == [p.up, p.del][..0] + [p.up] && [p.up, p.del][..2] == [p.up, p.del][..1] + [p.del];
    Then(s, steps, Net([FirstGen(p, 0)], r2), Mutate(p.up), Net([FirstGen(p, 1)], r2), lib, sum);
    steps := steps + [Mutate(p.up)];
    Then(s, steps, Net([FirstGen(p, 1)], r2), Mutate(p.del), Net([FirstGen(p, 2)], r2), lib, sum);
    steps := steps + [Mutate(p.del)];
    var e := Net([FirstGen(p, 2)], Replica(Some(p.file), log, Some(Conn(0, |log|))));
    assert [p.up, p.del][..2] == [p.up, p.del];
    assert CurrentLog(Net([FirstGen(p, 2)], r2), lib) == log;
    assert [] + log[0..|log|] == log;
    Then(s, steps, Net([FirstGen(p, 2)], r2), Receive(|log|), e, lib, sum);
    steps := steps + [Receive(|log|)];
  }

  lemma NoSteps(s: Net, lib: Lib, sum: Sum)
    requires GoodGens(s.gens, lib)
    ensures IsRun(s, [], lib, sum) && EndOf(s, [], lib, sum) == s
  {
  }

  lemma PlanGood(p: Plan, lib: Lib)
    requires Planned(p, lib)
    ensures GoodGens([FirstGen(p, 0)], lib)
  {
    hide PathOf, Loads, GoodOp;
    assert [p.up, p.del][..0] == [];
    assert GoodGen(FirstGen(p, 0), lib);
  }

  /** A compaction, and the changes of the second generation. */
  lemma NextGeneration(p: Plan, s: Net, steps: seq<Step>, r: Replica, lib: Lib, sum: Sum) returns (more: seq<Step>)
    requires Planned(p, lib) && GoodGens(s.gens, lib) && IsRun(s, steps, lib, sum)
    requires EndOf(s, steps, lib, sum) == Net([FirstGen(p, 2)], r)
    ensures IsRun(s, more, lib, sum) && EndOf(s, more, lib, sum) == Net([FirstGen(p, 2), SecondGen(p, 3)], r)
    ensures NoneLate(steps) ==> NoneLate(more)
  {
    hide PathOf, Loads, GoodOp, Frames, ApplyAll, IsRun, EndOf, GoodGens;
    var ops := [p.del, p.up, p.add];
    PlanCancels(p, lib);
    assert [p.up, p.del][..2] == [p.up, p.del];
    assert ops[..0] == [] && ops[..1] == ops[..0] + [p.del] && ops[..2] == ops[..1] + [p.up] &&
        ops[..3] == ops[..2] + [p.add];
    var e0, e1 := Net([FirstGen(p, 2)], r), Net([FirstGen(p, 2), SecondGen(p, 0)], r);
    var e2, e3 := Net([FirstGen(p, 2), SecondGen(p, 1)], r), Net([FirstGen(p, 2), SecondGen(p, 2)], r);
    Then(s, steps, e0, Compact(p.again), e1, lib, sum);
    more := steps + [Compact(p.again)];
    Then(s, more, e1, Mutate(p.del), e2, lib, sum);
    more := more + [Mutate(p.del)];
    Then(s, more, e2, Mutate(p.up), e3, lib, sum);
    more := more + [Mutate(p.up)];
    Then(s, more, e3, Mutate(p.add), Net([FirstGen(p, 2), SecondGen(p, 3)], r), lib, sum);
    more := more + [Mutate(p.add)];
  }

  /** What a replica with the first snapshot, the first log and the added frame recovers was never the primary's map. */
  lemma MixedRecovers(p: Plan, lib: Lib)
    requires Planned(p, lib)
    ensures AllAccepted([p.up, p.del, p.add])
    ensures Recover(Some(p.file), Some(Frames([p.up, p.del, p.add], lib.crc)), lib) ==
            Recovered(map[PathOf(p.add.domain) := p.add.sets])
  {
    hide PathOf, Frame, Replay, LoadFile, Rebuild, Normal;
    var ops := [p.up, p.del, p.add];
    PlanLogs(p, lib);
    assert GoodOps(ops);
    NormalGood(ops);
    ReplayAllIff(ops, lib.crc);
    PlanCancels(p, lib);
  }

  /** The end of the runs below: the replica recovers a map no generation ever had. */
  ghost predicate Misled(e: Net, lib: Lib) {
    exists m: Zone ::
      && Recover(e.replica.snap, Some(e.replica.log), lib) == Recovered(m)
      && forall g, k :: 0 <= g < |e.gens| && 0 <= k <= |e.gens[g].ops| ==>
           ApplyAll(e.gens[g].base, e.gens[g].ops[..k]) != m
  }

  lemma PlanMisleads(p: Plan, e: Net, lib: Lib)
    requires Planned(p, lib) && e.gens == [FirstGen(p, 2), SecondGen(p, 3)] && e.replica.snap == Some(p.file)
    requires AllAccepted([p.up, p.del, p.add]) && e.replica.log == Frames([p.up, p.del, p.add], lib.crc)
    ensures Misled(e, lib)
  {
    hide PathOf, Recover, GoodOp, Loads, ApplyAll, Frames;
    MixedRecovers(p, lib);
    PlanNeverHeld(p, lib);
  }

  /**
   A run with a misled handshake. A generation whose changes cancel out is followed by one with the same snapshot;
   a replica that read the first log to its end is let in at that offset of the second.
   */
  lemma SameChecksumMixes(p: Plan, lib: Lib, sum: Sum) returns (steps: seq<Step>)
    requires Planned(p, lib) && p.again == p.file
    ensures GoodGens(Beginning(p).gens, lib) && IsRun(Beginning(p), steps, lib, sum) && NoneLate(steps)
    ensures Misled(EndOf(Beginning(p), steps, lib, sum), lib)
  {
    hide PathOf, Loads, GoodOp, Frames, Frame, ApplyAll, IsRun, EndOf, GoodGens, Misled;
    var s := Beginning(p);
    steps := ReadsFirst(p, lib, sum);
    PlanLogs(p, lib);
    var log := Frames([p.up, p.del], lib.crc);
    var r := Replica(Some(p.file), log, None);
    Then(s, steps, EndOf(s, steps, lib, sum), Disconnect, Net([FirstGen(p, 2)], r), lib, sum);
    steps := steps + [Disconnect];
    steps := NextGeneration(p, s, steps, r, lib, sum);
    var gens := [FirstGen(p, 2), SecondGen(p, 3)];
    assert [p.del, p.up, p.add][..3] == [p.del, p.up, p.add];
    var r' := r.(conn := Some(Conn(1, |log|)));
    Then(s, steps, Net(gens, r), Handshake, Net(gens, r'), lib, sum);
    steps := steps + [Handshake];
    var n := |Frame(p.add, lib.crc)|;
    var all := Frames([p.up, p.del, p.add], lib.crc);
    assert CurrentLog(Net(gens, r'), lib)[|log|..|log| + n] == CurrentLog(Net(gens, r'), lib)[|log|..];
    var e := Net(gens, Replica(Some(p.file), all, Some(Conn(1, |log| + n))));
    Then(s, steps, Net(gens, r'), Receive(n), e, lib, sum);
    steps := steps + [Receive(n)];
    PlanMisleads(p, e, lib);
  }

  /**
   A run with a late read, whatever the checksums. The replica has read the first log to its end when a compaction
   and new appends fall between the comparison of generations and the read of the file.
   */
  lemma LateReadMixes(p: Plan, lib: Lib, sum: Sum) returns (steps: seq<Step>)
    requires Planned(p, lib)
    ensures GoodGens(Beginning(p).gens, lib) && IsRun(Beginning(p), steps, lib, sum)
    ensures
      var e := EndOf(Beginning(p), steps, lib, sum);
      Misled(e, lib) && (sum(p.file) != sum(p.again) ==> Telling(e.gens, sum))
  {
    hide PathOf, Loads, GoodOp, Frames, Frame, ApplyAll, IsRun, EndOf, GoodGens, Misled;
    var s := Beginning(p);
    steps := ReadsFirst(p, lib, sum);
    PlanLogs(p, lib);
    var log := Frames([p.up, p.del], lib.crc);
    var r := Replica(Some(p.file), log, Some(Conn(0, |log|)));
    steps := NextGeneration(p, s, steps, r, lib, sum);
    var gens := [FirstGen(p, 2), SecondGen(p, 3)];
    assert [p.del, p.up, p.add][..3] == [p.del, p.up, p.add];
    var n := |Frame(p.add, lib.crc)|;
    var all := Frames([p.up, p.del, p.add], lib.crc);
    assert CurrentLog(Net(gens, r), lib)[|log|..|log| + n] == CurrentLog(Net(gens, r), lib)[|log|..];
    var e := Net(gens, Replica(Some(p.file), all, Some(Conn(0, |log| + n))));
    Then(s, steps, Net(gens, r), LateReceive(n), e, lib, sum);
    steps := steps + [LateReceive(n)];
    PlanMisleads(p, e, lib);
  }
}
