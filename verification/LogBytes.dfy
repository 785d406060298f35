/**
 Which bytes replay delivers what (internal/wal/wal.go, internal/codec/codec.go), for every byte string: the readers
 of log and snapshot (internal/snapshot/snapshot.go) take exactly what the formats say, checksums included.
 */
module LogBytes {
  import opened Octets
  import opened Records
  import opened Operations
  import opened Codec
  import opened Wal
  import opened Snapshot

  // ---- records ----

  lemma Slices(b: Bytes, i: nat, j: nat, k: nat)
    requires i <= j <= k <= |b|
    ensures b[i..k] == b[i..j] + b[j..k]
  {
  }

  lemma {:induction false} RDatasBytes(b: Bytes, pos: nat, n: nat)
    requires pos <= |b| && ReadRDatas(b, pos, n).Got?
    ensures var r := ReadRDatas(b, pos, n);
            && |r.value| == n && (forall i :: 0 <= i < n ==> |r.value[i]| <= MAX_RDATA_LEN)
            && pos <= r.pos <= |b| && b[pos..r.pos] == EncRDatas(r.value)
    decreases n
  {
    hide GetU16, PutU16;
    if n > 0 {
      var len := GetU16(b[pos..pos + 2]);
      var p := pos + 2 + len;
      RDatasBytes(b, p, n - 1);
      var r := ReadRDatas(b, p, n - 1);
      var d := b[pos + 2..p];
      U16Bytes(b[pos..pos + 2], len);
      Slices(b, pos, pos + 2, p);
      Slices(b, pos, p, r.pos);
      assert ([d] + r.value)[1..] == r.value;
    }
  }

  lemma SetBytes(b: Bytes, pos: nat)
    requires pos <= |b| && ReadSet(b, pos).Got?
    ensures var r := ReadSet(b, pos);
            && RDatasInLimits(r.value.rdata) && r.value.cls == CLASS_IN
            && pos <= r.pos <= |b| && b[pos..r.pos] == EncSet(r.value)
  {
    hide GetU16, PutU16, GetU32, PutU32, ReadRDatas, EncRDatas;
    var h := b[pos..pos + 8];
    RDatasBytes(b, pos + 8, GetU16(h[6..8]));
    var r := ReadSet(b, pos);
    Slices(b, pos, pos + 8, r.pos);
    U16Bytes(h[..2], r.value.rtype);
    U32Bytes(h[2..6], r.value.ttl);
    U16Bytes(h[6..8], |r.value.rdata|);
    assert h == h[..2] + h[2..6] + h[6..8];
  }

  lemma {:induction false} SetsBytes(b: Bytes, pos: nat, n: nat)
    requires pos <= |b| && ReadSets(b, pos, n).Got?
    ensures var r := ReadSets(b, pos, n);
            && |r.value| == n
            && (forall i :: 0 <= i < n ==> RDatasInLimits(r.value[i].rdata) && r.value[i].cls == CLASS_IN)
            && pos <= r.pos <= |b| && b[pos..r.pos] == EncSets(r.value)
    decreases n
  {
    hide ReadSet, EncSet, RDatasInLimits;
    if n > 0 {
      SetBytes(b, pos);
      var s := ReadSet(b, pos);
      SetsBytes(b, s.pos, n - 1);
      var r := ReadSets(b, s.pos, n - 1);
      Slices(b, pos, s.pos, r.pos);
      assert ([s.value] + r.value)[1..] == r.value;
    }
  }

  ghost predicate ClassIN(ss: RRSets) {
    forall i :: 0 <= i < |ss| ==> ss[i].cls == CLASS_IN
  }

  /** Whatever is read as a record is the encoding of that record. */
  lemma RecordBytes(b: Bytes, pos: nat)
    requires pos <= |b| && ReadRecord(b, pos).Got?
    ensures var r := ReadRecord(b, pos);
            && InLimits(r.value.domain, r.value.sets) && ClassIN(r.value.sets)
            && pos <= r.pos <= |b| && b[pos..r.pos] == EncRecord(r.value.domain, r.value.sets)
  {
    hide GetU16, PutU16, ReadSets, EncSets, RDatasInLimits;
    var len := GetU16(b[pos..pos + 2]);
    var p := pos + 2 + len;
    var count := GetU16(b[p..p + 2]);
    SetsBytes(b, p + 2, count);
    var r := ReadRecord(b, pos);
    U16Bytes(b[pos..pos + 2], len);
    U16Bytes(b[p..p + 2], count);
    Slices(b, pos, pos + 2, p);
    Slices(b, pos, p, p + 2);
    Slices(b, pos, p + 2, r.pos);
  }

  lemma NormalIN(ss: RRSets)
    requires ClassIN(ss)
    ensures AllIN(ss) == ss
  {
  }

  /** A record of class IN is read exactly where its encoding lies. */
  lemma ReadsRecordIff(b: Bytes, pos: nat, rec: Record, end: nat)
    requires pos <= |b|
    ensures ReadRecord(b, pos) == Got(rec, end) <==>
            && InLimits(rec.domain, rec.sets) && ClassIN(rec.sets)
            && pos <= end <= |b| && b[pos..end] == EncRecord(rec.domain, rec.sets)
  {
    hide ReadRecord, EncRecord, SetsInLimits, ClassIN;
    if ReadRecord(b, pos) == Got(rec, end) { RecordBytes(b, pos); }
    if InLimits(rec.domain, rec.sets) && ClassIN(rec.sets) && pos <= end <= |b|
       && b[pos..end] == EncRecord(rec.domain, rec.sets) {
      AgreesSlice(b, pos, end);
      ReadRecordAgrees(b, pos, rec.domain, rec.sets);
      NormalIN(rec.sets);
    }
  }

  lemma AgreesSlice(b: Bytes, pos: nat, end: nat)
    requires pos <= end <= |b|
    ensures Agrees(b, pos, b[pos..end])
  {
  }

  // ---- frames ----

  /** What a frame can hold: records of class IN within the limits, or a deletion with a name. */
  ghost predicate Readable(op: Op) {
    match op
    case Upsert(d, ss) => InLimits(d, ss) && ClassIN(ss)
    case Delete(d) => 0 < |d| <= MAX_DOMAIN
  }

  ghost predicate AllReadable(ops: seq<Op>) {
    forall i :: 0 <= i < |ops| ==> Readable(ops[i])
  }

  function Body(op: Op): Bytes
    requires match op case Upsert(d, ss) => InLimits(d, ss) case Delete(d) => |d| <= MAX_DOMAIN
  {
    match op
    case Upsert(d, ss) => [1] + EncRecord(d, ss)
    case Delete(d) => [2] + PutU16(|d|) + d
  }

  /** The body and a sum behind it. */
  function Summed(body: Bytes, x: U32): (f: Bytes)
    ensures |f| == |body| + 4
  {
    body + PutU32(x)
  }

  ghost function FramesOf(ops: seq<Op>, crc: Checksum): Bytes
    requires AllReadable(ops)
  {
    if ops == [] then [] else Summed(Body(ops[0]), crc(Body(ops[0]))) + FramesOf(ops[1..], crc)
  }

  lemma DeleteBytes(b: Bytes, pos: nat)
    requires pos <= |b| && ReadDelete(b, pos).Got?
    ensures var r := ReadDelete(b, pos);
            0 < |r.value| <= MAX_DOMAIN && pos <= r.pos <= |b| && b[pos..r.pos] == PutU16(|r.value|) + r.value
  {
    hide GetU16, PutU16;
    var r := ReadDelete(b, pos);
    U16Bytes(b[pos..pos + 2], |r.value|);
    Slices(b, pos, pos + 2, r.pos);
  }

  lemma SumBytes(b: Bytes, start: nat, p: nat, crc: Checksum, op: Op)
    requires start <= p <= |b| && CheckSum(b, start, p, crc, op).Got?
    ensures var r := CheckSum(b, start, p, crc, op);
            r.value == op && r.pos == p + 4 <= |b| && b[start..p + 4] == Summed(b[start..p], crc(b[start..p]))
  {
    hide GetU32, PutU32;
    U32Bytes(b[p..p + 4], crc(b[start..p]));
    Slices(b, start, p, p + 4);
  }

  /** Whatever is read as an operation is its body with the right sum behind it. */
  lemma OpBytes(b: Bytes, pos: nat, crc: Checksum)
    requires pos < |b| && (b[pos] == 1 || b[pos] == 2) && ReadOp(b, pos, crc).Got?
    ensures var r := ReadOp(b, pos, crc);
            && Readable(r.value) && pos < r.pos <= |b|
            && b[pos..r.pos] == Summed(Body(r.value), crc(Body(r.value)))
  {
    hide ReadRecord, ReadDelete, CheckSum, EncRecord, PutU16, SetsInLimits, Summed, ClassIN;
    assert b[pos..pos + 1] == [b[pos]];
    if b[pos] == OP_UPSERT {
      RecordBytes(b, pos + 1);
      var rec := ReadRecord(b, pos + 1);
      Slices(b, pos, pos + 1, rec.pos);
      SumBytes(b, pos, rec.pos, crc, Upsert(rec.value.domain, rec.value.sets));
    } else {
      DeleteBytes(b, pos + 1);
      var d := ReadDelete(b, pos + 1);
      Slices(b, pos, pos + 1, d.pos);
      assert [2] + (PutU16(|d.value|) + d.value) == [2] + PutU16(|d.value|) + d.value;
      SumBytes(b, pos, d.pos, crc, Delete(d.value));
    }
  }

  lemma SumDecides(b: Bytes, pos: nat, body: Bytes, x: U32, crc: Checksum, op: Op)
    requires pos + |body| + 4 <= |b| && b[pos..pos + |body| + 4] == Summed(body, x)
    ensures CheckSum(b, pos, pos + |body|, crc, op) == if x == crc(body) then Got(op, pos + |body| + 4) else Corrupt
  {
    hide GetU32, PutU32;
    var p := pos + |body|;
    Slices(b, pos, p, p + 4);
    assert Summed(body, x)[..|body|] == body && Summed(body, x)[|body|..] == PutU32(x);
    assert b[pos..p] == b[pos..p + 4][..|body|] && b[p..p + 4] == b[pos..p + 4][|body|..];
    U32RoundTrip(x);
  }

  lemma SlicePart(b: Bytes, pos: nat, end: nat, i: nat, j: nat)
    requires pos <= end <= |b| && i <= j <= end - pos
    ensures b[pos..end][i..j] == b[pos + i..pos + j] && (i < end - pos ==> b[pos..end][i] == b[pos + i])
  {
    var x, y := b[pos..end][i..j], b[pos + i..pos + j];
    assert |x| == |y| && forall k :: 0 <= k < |x| ==> x[k] == y[k];
  }

  lemma UpsertDecides(b: Bytes, pos: nat, d: Bytes, ss: RRSets, x: U32, crc: Checksum)
    requires InLimits(d, ss)
    requires var body := Body(Upsert(d, ss)); pos + |body| + 4 <= |b| && b[pos..pos + |body| + 4] == Summed(body, x)
    ensures var body := Body(Upsert(d, ss));
            && b[pos] == 1
            && ReadOp(b, pos, crc) ==
               if x == crc(body) then Got(Upsert(d, AllIN(ss)), pos + |body| + 4) else Corrupt
  {
    hide ReadRecord, CheckSum, EncRecord, Agrees, SetsInLimits;
    var rec := EncRecord(d, ss);
    var body := Body(Upsert(d, ss));
    var f := b[pos..pos + |body| + 4];
    assert body == [1] + rec;
    assert f[0] == 1 && f[1..1 + |rec|] == rec;
    SlicePart(b, pos, pos + |f|, 0, 1);
    SlicePart(b, pos, pos + |f|, 1, 1 + |rec|);
    AgreesSlice(b, pos + 1, pos + 1 + |rec|);
    ReadRecordAgrees(b, pos + 1, d, ss);
    SumDecides(b, pos, body, x, crc, Upsert(d, AllIN(ss)));
  }

  lemma DeleteParts(d: Bytes, x: U32)
    requires |d| <= MAX_DOMAIN
    ensures var f := Summed(Body(Delete(d)), x);
            |f| == |Body(Delete(d))| + 4 == |d| + 7 && f[0] == 2 && f[1..3] == PutU16(|d|) && f[3..3 + |d|] == d
  {
  }

  lemma {:induction false} DeleteDecides(b: Bytes, pos: nat, d: Bytes, x: U32, crc: Checksum)
    requires 0 < |d| <= MAX_DOMAIN
    requires var body := Body(Delete(d)); pos + |body| + 4 <= |b| && b[pos..pos + |body| + 4] == Summed(body, x)
    ensures var body := Body(Delete(d));
            b[pos] == 2 && ReadOp(b, pos, crc) == if x == crc(body) then Got(Delete(d), pos + |body| + 4) else Corrupt
  {
    hide CheckSum, GetU16, PutU16, PutU32, Summed;
    var body := Body(Delete(d));
    var f := b[pos..pos + |body| + 4];
    DeleteParts(d, x);
    SlicePart(b, pos, pos + |f|, 0, 1);
    SlicePart(b, pos, pos + |f|, 1, 3);
    SlicePart(b, pos, pos + |f|, 3, 3 + |d|);
    U16RoundTrip(|d|);
    SumDecides(b, pos, body, x, crc, Delete(d));
  }

  /** A frame is read as its operation if its sum is right, and reported corrupted if not. */
  lemma FrameDecides(b: Bytes, pos: nat, op: Op, x: U32, crc: Checksum)
    requires match op case Upsert(d, ss) => InLimits(d, ss) case Delete(d) => 0 < |d| <= MAX_DOMAIN
    requires pos + |Body(op)| + 4 <= |b| && b[pos..pos + |Body(op)| + 4] == Summed(Body(op), x)
    ensures (b[pos] == 1 || b[pos] == 2)
            && ReadOp(b, pos, crc) == if x == crc(Body(op)) then Got(Normal(op), pos + |Body(op)| + 4) else Corrupt
  {
    match op
    case Upsert(d, ss) => UpsertDecides(b, pos, d, ss, x, crc);
    case Delete(d) => DeleteDecides(b, pos, d, x, crc);
  }

  // ---- whole logs ----

  ghost predicate Starts(b: Bytes, pos: nat, s: Bytes) {
    pos + |s| <= |b| && b[pos..pos + |s|] == s
  }

  lemma StartsSplit(b: Bytes, pos: nat, s: Bytes, t: Bytes)
    ensures Starts(b, pos, s + t) <==> Starts(b, pos, s) && Starts(b, pos + |s|, t)
  {
    if pos + |s| + |t| <= |b| {
      Slices(b, pos, pos + |s|, pos + |s| + |t|);
      assert (s + t)[..|s|] == s && (s + t)[|s|..] == t;
      assert b[pos..pos + |s| + |t|][..|s|] == b[pos..pos + |s|];
      assert b[pos..pos + |s| + |t|][|s|..] == b[pos + |s|..pos + |s| + |t|];
    }
  }

  /** A frame of op with the sum x lies at pos. */
  ghost predicate FrameAt(b: Bytes, pos: nat, op: Op, x: U32) {
    Readable(op) && Starts(b, pos, Summed(Body(op), x))
  }

  /** The sum of op's body. */
  ghost function SumOf(op: Op, crc: Checksum): U32 {
    if Readable(op) then crc(Body(op)) else 0
  }

  /** A frame at pos, if there is one, has a wrong sum and is why replay ended. */
  ghost predicate Stopped(b: Bytes, pos: nat, crc: Checksum, end: End) {
    forall op, x: U32 :: FrameAt(b, pos, op, x) ==> x != SumOf(op, crc) && end.Corrupted?
  }

  /** Replay delivers operations whose frames, sums included, lie one after the other, and as many as do. */
  lemma {:induction false} ReplayFound(b: Bytes, pos: nat, crc: Checksum)
    requires pos <= |b|
    ensures var r := ReplayFrom(b, pos, crc);
            && AllReadable(r.ops) && Starts(b, pos, FramesOf(r.ops, crc))
            && (r.end.Clean? <==> pos + |FramesOf(r.ops, crc)| == |b|)
            && var stop := pos + |FramesOf(r.ops, crc)|;
               && Stopped(b, stop, crc, r.end)
               && (r.end.BadOpcode? <==> stop < |b| && b[stop] != 1 && b[stop] != 2)
    decreases |b| - pos
  {
    hide ReadOp, InLimits, ClassIN, Summed, Body, FrameAt, SumOf;
    forall op, x: U32 | FrameAt(b, pos, op, x)
      ensures pos < |b| && (b[pos] == 1 || b[pos] == 2)
      ensures if x == SumOf(op, crc) then ReadOp(b, pos, crc).Got? else ReadOp(b, pos, crc).Corrupt?
    {
      NextFrame(b, pos, op, x, crc);
    }
    assert b[pos..pos] == [];
    if pos < |b| && (b[pos] == OP_UPSERT || b[pos] == OP_DELETE) && ReadOp(b, pos, crc).Got? {
      var o := ReadOp(b, pos, crc);
      OpBytes(b, pos, crc);
      ReplayFound(b, o.pos, crc);
      var rest := ReplayFrom(b, o.pos, crc);
      ReadableCons(o.value, rest.ops);
      StartsSplit(b, pos, Summed(Body(o.value), crc(Body(o.value))), FramesOf(rest.ops, crc));
      assert ([o.value] + rest.ops)[1..] == rest.ops;
    }
  }

  lemma ReadableCons(op: Op, ops: seq<Op>)
    requires Readable(op) && AllReadable(ops)
    ensures AllReadable([op] + ops)
  {
  }

  lemma NextFrame(b: Bytes, pos: nat, op: Op, x: U32, crc: Checksum)
    requires FrameAt(b, pos, op, x)
    ensures pos < |b| && (b[pos] == 1 || b[pos] == 2)
    ensures ReadOp(b, pos, crc) == if x == SumOf(op, crc) then Got(op, pos + |Body(op)| + 4) else Corrupt
  {
    hide ReadOp, InLimits;
    FrameDecides(b, pos, op, x, crc);
    if op.Upsert? { NormalIN(op.sets); }
  }

  lemma {:induction false} FramesRead(b: Bytes, pos: nat, ops: seq<Op>, crc: Checksum)
    requires AllReadable(ops) && Starts(b, pos, FramesOf(ops, crc))
    ensures var r, rest := ReplayFrom(b, pos, crc), ReplayFrom(b, pos + |FramesOf(ops, crc)|, crc);
            r == Replayed(ops + rest.ops, rest.end)
    decreases |ops|
  {
    hide ReadOp, InLimits, ClassIN, Summed, Body;
    if ops == [] {
      assert [] + ReplayFrom(b, pos, crc).ops == ReplayFrom(b, pos, crc).ops;
    } else {
      var op := ops[0];
      var f := Summed(Body(op), crc(Body(op)));
      StartsSplit(b, pos, f, FramesOf(ops[1..], crc));
      assert FrameAt(b, pos, op, crc(Body(op)));
      NextFrame(b, pos, op, crc(Body(op)), crc);
      FramesRead(b, pos + |f|, ops[1..], crc);
      var rest := ReplayFrom(b, pos + |FramesOf(ops, crc)|, crc).ops;
      assert [op] + (ops[1..] + rest) == ops + rest;
    }
  }

  /** For every byte string: it replays to ops with a clean end exactly when it is the frames of ops. */
  lemma ReplayIff(b: Bytes, ops: seq<Op>, crc: Checksum)
    ensures Replay(b, crc) == Replayed(ops, Clean) <==> AllReadable(ops) && b == FramesOf(ops, crc)
  {
    hide AllReadable, FrameAt, ReplayFrom;
    ReplayFound(b, 0, crc);
    assert b[0..|b|] == b;
    if AllReadable(ops) && b == FramesOf(ops, crc) {
      FramesRead(b, 0, ops, crc);
      NothingLeft(b, crc);
      assert ops + [] == ops;
    }
  }

  lemma NothingLeft(b: Bytes, crc: Checksum)
    ensures ReplayFrom(b, |b|, crc) == Replayed([], Clean)
  {
  }

  // ---- a frame that cannot be ----

  /** A body that begins with a name longer than a name can be, or with more sets than there can be. */
  ghost predicate OverLimit(tail: Bytes) {
    && |tail| >= 3
    && var len := GetU16(tail[1..3]);
       || ((tail[0] == 1 || tail[0] == 2) && len > 255)
       || (tail[0] == 2 && len == 0)
       || (tail[0] == 1 && len + 5 <= |tail| && GetU16(tail[len + 3..len + 5]) > 4096)
  }

  lemma OverLimitReads(b: Bytes, pos: nat, crc: Checksum)
    requires pos <= |b| && OverLimit(b[pos..])
    ensures pos < |b| && (b[pos] == 1 || b[pos] == 2) && ReadOp(b, pos, crc).Corrupt?
  {
    hide GetU16;
    var tail := b[pos..];
    var len := GetU16(tail[1..3]);
    assert tail[0] == b[pos] && tail[1..3] == b[pos + 1..pos + 3];
    if len + 5 <= |tail| { assert tail[len + 3..len + 5] == b[pos + 3 + len..pos + 5 + len]; }
  }

  /** Whatever follows such a beginning, replay delivers the log before it and reports corruption. */
  lemma OverLimitCorrupts(ops: seq<Op>, tail: Bytes, crc: Checksum)
    requires AllLoggable(ops) && OverLimit(tail)
    ensures Replay(Frames(ops, crc) + tail, crc) == Replayed(NormalAll(ops), Corrupted)
  {
    hide Readable, Encodable, ReplayFrom, Frames, FramesOf, Normal, OverLimit;
    LoggedFrames(ops, crc);
    var b := Frames(ops, crc) + tail;
    FramesRead(b, 0, NormalAll(ops), crc);
    assert b[|Frames(ops, crc)|..] == tail;
    OverLimitReads(b, |Frames(ops, crc)|, crc);
    ReplayStep(b, |Frames(ops, crc)|, crc);
    assert NormalAll(ops) + [] == NormalAll(ops);
  }

  // ---- a frame with a wrong sum ----

  lemma LoggedReadable(op: Op)
    requires Loggable(op)
    ensures Readable(Normal(op)) && Payload(op) == Body(Normal(op)) && Payload(op) == Body(op)
  {
    if op.Upsert? { SameEncoding(op.sets); } else { assert [2] + (PutU16(|op.domain|) + op.domain) == Body(op); }
  }

  lemma {:induction false} SameEncoding(ss: RRSets)
    requires forall i :: 0 <= i < |ss| ==> RDatasInLimits(ss[i].rdata)
    ensures forall i :: 0 <= i < |ss| ==> RDatasInLimits(AllIN(ss)[i].rdata)
    ensures EncSets(AllIN(ss)) == EncSets(ss)
  {
    if ss != [] {
      SameEncoding(ss[1..]);
      assert AllIN(ss)[1..] == AllIN(ss[1..]);
    }
  }

  lemma {:induction false} LoggedFrames(ops: seq<Op>, crc: Checksum)
    requires AllLoggable(ops)
    ensures AllReadable(NormalAll(ops)) && FramesOf(NormalAll(ops), crc) == Frames(ops, crc)
  {
    hide Payload, Body, Readable, Normal, Loggable;
    if ops != [] {
      LoggedReadable(ops[0]);
      LoggedFrames(ops[1..], crc);
      assert NormalAll(ops) == [Normal(ops[0])] + NormalAll(ops[1..]);
      ReadableCons(Normal(ops[0]), NormalAll(ops[1..]));
      assert NormalAll(ops)[1..] == NormalAll(ops[1..]);
    }
  }

  /**
   A frame with a sum x behind the frames of a log: replay delivers exactly the log before it and reports corruption if
   and only if x is not the checksum of the frame's body.
   */
  lemma WrongSumIff(ops: seq<Op>, op: Op, x: U32, rest: Bytes, crc: Checksum)
    requires AllLoggable(ops) && Loggable(op)
    ensures Replay(Frames(ops, crc) + Payload(op) + PutU32(x) + rest, crc) == Replayed(NormalAll(ops), Corrupted)
            <==> x != crc(Payload(op))
  {
    hide Readable, Payload, Body, Encodable, ReplayFrom, Frames, PutU32, FramesOf, SumOf, Normal;
    LoggedFrames(ops, crc);
    LoggedReadable(op);
    var before, f := Frames(ops, crc), Summed(Payload(op), x);
    var b := before + Payload(op) + PutU32(x) + rest;
    assert b == before + f + rest;
    FramesRead(b, 0, NormalAll(ops), crc);
    var pos := |before|;
    assert FrameAt(b, pos, Normal(op), x);
    NextFrame(b, pos, Normal(op), x, crc);
    SumIs(Normal(op), crc);
    ReplayStep(b, pos, crc);
    assert NormalAll(ops) + [] == NormalAll(ops);
  }

  lemma SumIs(op: Op, crc: Checksum)
    requires Readable(op)
    ensures SumOf(op, crc) == crc(Body(op))
  {
  }

  lemma ReplayStep(b: Bytes, pos: nat, crc: Checksum)
    requires pos < |b| && (b[pos] == 1 || b[pos] == 2)
    ensures ReadOp(b, pos, crc).Corrupt? ==> ReplayFrom(b, pos, crc) == Replayed([], Corrupted)
    ensures ReadOp(b, pos, crc).Got? ==> ReplayFrom(b, pos, crc).ops != []
  {
    hide ReadOp;
  }

  // ---- snapshots ----

  ghost predicate AllRecords(recs: seq<Record>) {
    forall i :: 0 <= i < |recs| ==> InLimits(recs[i].domain, recs[i].sets) && ClassIN(recs[i].sets)
  }

  function RecordsBytes(recs: seq<Record>): Bytes
    requires forall i :: 0 <= i < |recs| ==> InLimits(recs[i].domain, recs[i].sets)
  {
    if recs == [] then [] else EncRecord(recs[0].domain, recs[0].sets) + RecordsBytes(recs[1..])
  }

  /** n records are read exactly where their encodings lie one after the other. */
  lemma {:induction false} ReadsEntriesIff(raw: Bytes, pos: nat, recs: seq<Record>, n: nat)
    requires pos <= |raw|
    ensures (exists e :: ReadEntries(raw, pos, n) == Got(recs, e)) <==>
            |recs| == n && AllRecords(recs) && Starts(raw, pos, RecordsBytes(recs))
    decreases n
  {
    hide ReadRecord, EncRecord, InLimits, ClassIN;
    if n == 0 {
      assert raw[pos..pos] == [];
      assert ReadEntries(raw, pos, n) == Got([], pos);
    } else {
      var r := ReadRecord(raw, pos);
      if r.Got? {
        ReadsRecordIff(raw, pos, r.value, r.pos);
        EntriesStep(raw, pos, n);
        if recs != [] && recs[0] == r.value {
          ReadsEntriesIff(raw, r.pos, recs[1..], n - 1);
          assert recs == [recs[0]] + recs[1..];
          if AllRecords(recs) || AllRecords(recs[1..]) { RecordsSplit(raw, pos, recs, r.pos); }
        }
      }
      if |recs| == n && AllRecords(recs) && Starts(raw, pos, RecordsBytes(recs)) {
        var e := EncRecord(recs[0].domain, recs[0].sets);
        StartsSplit(raw, pos, e, RecordsBytes(recs[1..]));
        ReadsRecordIff(raw, pos, recs[0], pos + |e|);
      }
    }
  }

  lemma EntriesStep(raw: Bytes, pos: nat, n: nat)
    requires n > 0 && ReadRecord(raw, pos).Got?
    ensures var r := ReadRecord(raw, pos); var rest := ReadEntries(raw, r.pos, n - 1);
            if rest.Got? then ReadEntries(raw, pos, n) == Got([r.value] + rest.value, rest.pos)
            else !ReadEntries(raw, pos, n).Got?
  {
  }

  lemma RecordsSplit(raw: Bytes, pos: nat, recs: seq<Record>, p: nat)
    requires recs != [] && InLimits(recs[0].domain, recs[0].sets) && ClassIN(recs[0].sets)
    requires pos <= p <= |raw| && raw[pos..p] == EncRecord(recs[0].domain, recs[0].sets)
    ensures AllRecords(recs) <==> AllRecords(recs[1..])
    ensures AllRecords(recs) ==>
              (Starts(raw, pos, RecordsBytes(recs)) <==> Starts(raw, p, RecordsBytes(recs[1..])))
  {
    hide EncRecord, InLimits, ClassIN;
    assert recs == [recs[0]] + recs[1..];
    if AllRecords(recs) { StartsSplit(raw, pos, EncRecord(recs[0].domain, recs[0].sets), RecordsBytes(recs[1..])); }
  }

  /**
   For every byte string: it loads as recs exactly when it is the magic and version, the number of records, the length
   and bytes of a body that inflates to their encodings, and the checksum of all that; bytes may follow.
   */
  lemma LoadIff(b: Bytes, recs: seq<Record>, lib: Lib)
    ensures LoadFile(b, lib) == Some(recs) <==>
            exists body: Bytes ::
              && |body| <= MAX_U32 && |recs| <= MAX_U32 && AllRecords(recs)
              && Starts(lib.inflate(body), 0, RecordsBytes(recs))
              && Starts(b, 0, FileOf(|recs|, body, lib.crc))
  {
    hide ReadEntries, InLimits, ClassIN, RecordsBytes, FileOf, LoadFile, Starts;
    if LoadFile(b, lib) == Some(recs) {
      var body := LoadParts(b, recs, lib);
      ReadsEntriesIff(lib.inflate(body), 0, recs, |recs|);
    }
    if body: Bytes :| && |body| <= MAX_U32 && |recs| <= MAX_U32 && AllRecords(recs)
                      && Starts(lib.inflate(body), 0, RecordsBytes(recs))
                      && Starts(b, 0, FileOf(|recs|, body, lib.crc)) {
      ReadsEntriesIff(lib.inflate(body), 0, recs, |recs|);
      FileLoads(b, |recs|, body, lib);
    }
  }

  lemma LoadParts(b: Bytes, recs: seq<Record>, lib: Lib) returns (body: Bytes)
    requires LoadFile(b, lib) == Some(recs)
    ensures |body| <= MAX_U32 && |recs| <= MAX_U32 && Starts(b, 0, FileOf(|recs|, body, lib.crc))
    ensures exists e :: ReadEntries(lib.inflate(body), 0, |recs|) == Got(recs, e)
  {
    hide ReadEntries, GetU32, PutU32;
    var count, len := GetU32(b[5..9]), GetU32(b[9..13]);
    var end := HEADER_SIZE + len;
    body := b[HEADER_SIZE..end];
    EntriesCount(lib.inflate(body), 0, count);
    U32Bytes(b[5..9], count);
    U32Bytes(b[9..13], len);
    U32Bytes(b[end..end + 4], lib.crc(b[..end]));
    assert b[..HEADER_SIZE] == b[..4] + [b[4]] + b[5..9] + b[9..13];
    assert b[..end] == b[..HEADER_SIZE] + body;
    assert b[0..end + 4] == b[..end] + b[end..end + 4];
  }

  lemma {:induction false} EntriesCount(raw: Bytes, pos: nat, n: nat)
    ensures ReadEntries(raw, pos, n).Got? ==> |ReadEntries(raw, pos, n).value| == n
    decreases n
  {
    hide ReadRecord;
    if n > 0 && ReadRecord(raw, pos).Got? { EntriesCount(raw, ReadRecord(raw, pos).pos, n - 1); }
  }

  lemma FileLoads(b: Bytes, count: U32, body: Bytes, lib: Lib)
    requires |body| <= MAX_U32 && Starts(b, 0, FileOf(count, body, lib.crc))
    ensures LoadFile(b, lib) ==
            match ReadEntries(lib.inflate(body), 0, count) case Got(recs, _) => Some(recs) case _ => None
  {
    hide ReadEntries, GetU32, FileOf;
    HeaderParts(count, body, lib.crc);
    var f, end := FileOf(count, body, lib.crc), HEADER_SIZE + |body|;
    assert b[0..|f|] == f;
    assert b[..4] == f[..4] && b[4] == f[4] && b[5..9] == f[5..9] && b[9..13] == f[9..13];
    assert b[HEADER_SIZE..end] == f[HEADER_SIZE..end] && b[end..end + 4] == f[end..end + 4] && b[..end] == f[..end];
  }
}
