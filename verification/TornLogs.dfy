/**
 A log that goes on after a torn tail (internal/store/store.go, openWAL): appending never repairs it, because every
 operation that replay delivers takes up exactly the bytes of its frame.
 */
module TornLogs {
  import opened Octets
  import opened Records
  import opened Names
  import opened Operations
  import opened Codec
  import opened Wal

  // ---- sizes ----

  function RDatasSize(ds: seq<Bytes>): nat {
    if ds == [] then 0 else 2 + |ds[0]| + RDatasSize(ds[1..])
  }

  function SetsSize(ss: RRSets): nat {
    if ss == [] then 0 else 8 + RDatasSize(ss[0].rdata) + SetsSize(ss[1..])
  }

  /** The bytes of an operation's frame: opcode, payload and checksum. */
  function OpSize(op: Op): nat {
    match op
    case Upsert(d, ss) => 1 + (2 + |d| + 2 + SetsSize(ss)) + 4
    case Delete(d) => 1 + (2 + |d|) + 4
  }

  function SizeAll(ops: seq<Op>): nat {
    if ops == [] then 0 else OpSize(ops[0]) + SizeAll(ops[1..])
  }

  lemma {:induction false} EncodedRDatas(ds: seq<Bytes>)
    requires forall i :: 0 <= i < |ds| ==> |ds[i]| <= MAX_RDATA_LEN
    ensures |EncRDatas(ds)| == RDatasSize(ds)
  {
    if ds != [] { EncodedRDatas(ds[1..]); }
  }

  lemma {:induction false} EncodedSets(ss: RRSets)
    requires forall i :: 0 <= i < |ss| ==> RDatasInLimits(ss[i].rdata)
    ensures |EncSets(ss)| == SetsSize(ss)
  {
    if ss != [] {
      EncodedRDatas(ss[0].rdata);
      EncodedSets(ss[1..]);
    }
  }

  lemma FrameSize(op: Op, crc: Checksum)
    requires Accepted(op)
    ensures |Frame(op, crc)| == OpSize(op)
  {
    hide EncSets, SetsSize;
    if op.Upsert? { EncodedSets(op.sets); }
  }

  lemma {:induction false} FramesSize(ops: seq<Op>, crc: Checksum)
    requires AllAccepted(ops)
    ensures |Frames(ops, crc)| == SizeAll(ops)
  {
    hide Frame, OpSize;
    if ops != [] {
      FrameSize(ops[0], crc);
      FramesSize(ops[1..], crc);
    }
  }

  lemma {:induction false} SetsSizeIN(ss: RRSets)
    ensures SetsSize(AllIN(ss)) == SetsSize(ss)
  {
    if ss != [] {
      SetsSizeIN(ss[1..]);
      assert AllIN(ss)[1..] == AllIN(ss[1..]);
    }
  }

  lemma {:induction false} NormalSize(ops: seq<Op>)
    ensures SizeAll(NormalAll(ops)) == SizeAll(ops)
  {
    if ops != [] {
      if ops[0].Upsert? { SetsSizeIN(ops[0].sets); }
      NormalSize(ops[1..]);
      assert NormalAll(ops)[1..] == NormalAll(ops[1..]);
    }
  }

  // ---- what reading takes ----

  lemma {:induction false} RDatasTaken(b: Bytes, pos: nat, n: nat)
    ensures var r := ReadRDatas(b, pos, n); r.Got? ==> r.pos == pos + RDatasSize(r.value)
    decreases n
  {
    hide GetU16;
    if n > 0 && pos + 2 <= |b| {
      var len := GetU16(b[pos..pos + 2]);
      if pos + 2 + len <= |b| {
        RDatasTaken(b, pos + 2 + len, n - 1);
        var r := ReadRDatas(b, pos + 2 + len, n - 1);
        if r.Got? {
          var d := b[pos + 2..pos + 2 + len];
          assert ([d] + r.value)[1..] == r.value;
        }
      }
    }
  }

  lemma {:induction false} SetsTaken(b: Bytes, pos: nat, n: nat)
    ensures var r := ReadSets(b, pos, n); r.Got? ==> r.pos == pos + SetsSize(r.value)
    decreases n
  {
    hide GetU16, GetU32, ReadRDatas, RDatasSize;
    if n > 0 && pos + 8 <= |b| {
      RDatasTaken(b, pos + 8, GetU16(b[pos..pos + 8][6..8]));
      var s := ReadSet(b, pos);
      if s.Got? {
        SetsTaken(b, s.pos, n - 1);
        var r := ReadSets(b, s.pos, n - 1);
        if r.Got? { assert ([s.value] + r.value)[1..] == r.value; }
      }
    }
  }

  lemma OpTaken(b: Bytes, pos: nat, crc: Checksum)
    requires pos < |b|
    ensures var r := ReadOp(b, pos, crc); r.Got? ==> r.pos == pos + OpSize(r.value)
  {
    hide GetU16, GetU32, ReadSets, SetsSize;
    if pos + 3 <= |b| {
      var p := pos + 3 + GetU16(b[pos + 1..pos + 3]);
      if p + 2 <= |b| { SetsTaken(b, p + 2, GetU16(b[p..p + 2])); }
    }
  }

  /** A replay that ends clean has delivered operations whose frames fill the stream. */
  lemma {:induction false} CleanFills(b: Bytes, pos: nat, crc: Checksum)
    requires pos <= |b| && ReplayFrom(b, pos, crc).end.Clean?
    ensures |b| - pos == SizeAll(ReplayFrom(b, pos, crc).ops)
    decreases |b| - pos
  {
    hide ReadOp, OpSize;
    if pos < |b| {
      OpTaken(b, pos, crc);
      var r := ReadOp(b, pos, crc);
      if r.Got? {
        CleanFills(b, r.pos, crc);
        var rest := ReplayFrom(b, r.pos, crc).ops;
        assert ([r.value] + rest)[1..] == rest;
      }
    }
  }

  lemma {:induction false} SizeAppends(a: seq<Op>, b: seq<Op>)
    ensures SizeAll(a + b) == SizeAll(a) + SizeAll(b)
  {
    hide OpSize;
    if a == [] {
      assert a + b == b;
    } else {
      SizeAppends(a[1..], b);
      assert (a + b)[1..] == a[1..] + b;
    }
  }

  /**
   A log with a tail left by a crash, opened and written to again, replays to exactly the operations written before
   and after, ending clean, if and only if there was no tail.
   */
  lemma AppendAfterTail(ops: seq<Op>, stray: Bytes, more: seq<Op>, crc: Checksum)
    requires AllLoggable(ops) && AllLoggable(more)
    ensures Replay(Frames(ops, crc) + stray + Frames(more, crc), crc) == Replayed(NormalAll(ops + more), Clean) <==>
            stray == []
  {
    hide Frames, SizeAll, NormalAll, Loggable, ReplayFrom;
    Joined(ops, more, crc);
    var log := Frames(ops, crc) + stray + Frames(more, crc);
    FramesSize(ops, crc);
    FramesSize(more, crc);
    SizeAppends(ops, more);
    NormalSize(ops + more);
    if Replay(log, crc) == Replayed(NormalAll(ops + more), Clean) {
      CleanFills(log, 0, crc);
    }
    if stray == [] {
      assert log == Frames(ops + more, crc);
      ReplayAllIff(ops + more, crc);
    }
  }

  lemma Joined(ops: seq<Op>, more: seq<Op>, crc: Checksum)
    requires AllLoggable(ops) && AllLoggable(more)
    ensures AllAccepted(ops) && AllAccepted(more) && AllAccepted(ops + more) && AllLoggable(ops + more)
    ensures Frames(ops + more, crc) == Frames(ops, crc) + Frames(more, crc)
  {
    hide Frames, Accepted;
    FramesPrefix(ops + more, |ops|, crc);
    assert (ops + more)[..|ops|] == ops && (ops + more)[|ops|..] == more;
  }
}
