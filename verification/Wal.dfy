/**
 The write-ahead log (internal/wal/wal.go): frames of opcode, payload and checksum.
 The checksum function is a parameter; nothing is assumed about it.
 */
module Wal {
  import opened Octets
  import opened Records
  import opened Codec
  import opened Operations

  type Checksum = Bytes -> U32

  const OP_UPSERT: Byte := 1
  const OP_DELETE: Byte := 2

  /** The writer takes the operation without an error. */
  predicate Accepted(op: Op) {
    match op
    case Upsert(d, ss) => Encodable(d, ss)
    case Delete(d) => |d| <= MAX_DOMAIN
  }

  /** What comes back from a log: records lose their class. */
  function Normal(op: Op): Op {
    match op
    case Upsert(d, ss) => Upsert(d, AllIN(ss))
    case Delete(_) => op
  }

  function Payload(op: Op): Bytes
    requires Accepted(op)
  {
    match op
    case Upsert(d, ss) => [OP_UPSERT] + EncRecord(d, ss)
    case Delete(d) => [OP_DELETE] + (PutU16(|d|) + d)
  }

  function Frame(op: Op, crc: Checksum): (f: Bytes)
    requires Accepted(op)
    ensures |f| > 0
  {
    Payload(op) + PutU32(crc(Payload(op)))
  }

  ghost predicate AllAccepted(ops: seq<Op>) {
    forall i :: 0 <= i < |ops| ==> Accepted(ops[i])
  }

  function Frames(ops: seq<Op>, crc: Checksum): Bytes
    requires forall i :: 0 <= i < |ops| ==> Accepted(ops[i])
  {
    if ops == [] then [] else Frame(ops[0], crc) + Frames(ops[1..], crc)
  }

  // ---- appending ----

  class Writer {
    const crc: Checksum
    var log: Bytes

    constructor (crc: Checksum)
      ensures this.crc == crc && log == []
    {
      this.crc, this.log := crc, [];
    }

    /** The opcode goes out before the encoder can refuse the record. */
    method AppendUpsert(domain: Bytes, sets: RRSets) returns (ok: bool)
      modifies this
      ensures ok <==> Accepted(Upsert(domain, sets))
      ensures ok ==> log == old(log) + Frame(Upsert(domain, sets), crc)
      ensures !ok ==> log == old(log) + if |domain| > MAX_DOMAIN || |sets| > MAX_SETS then [] else [OP_UPSERT]
    {
      hide EncRecord, PutU32, SizeOk;
      if |domain| > MAX_DOMAIN || |sets| > MAX_SETS { return false; }
      var sum := [OP_UPSERT];
      log := log + [OP_UPSERT];
      var payload := WriteRecord(domain, sets);
      if payload.None? { return false; }
      log := log + payload.value;
      sum := sum + payload.value;
      log := log + PutU32(crc(sum));
      assert sum == Payload(Upsert(domain, sets));
      assert log == old(log) + (sum + PutU32(crc(sum)));
      return true;
    }

    method AppendDelete(domain: Bytes) returns (ok: bool)
      modifies this
      ensures ok <==> Accepted(Delete(domain))
      ensures log == if ok then old(log) + Frame(Delete(domain), crc) else old(log)
    {
      if |domain| > MAX_DOMAIN { return false; }
      var scratch := [OP_DELETE] + (PutU16(|domain|) + domain);
      log := log + (scratch + PutU32(crc(scratch)));
      return true;
    }
  }

  // ---- replaying ----

  datatype End = Clean | Truncated | Corrupted | BadOpcode
  datatype Replayed = Replayed(ops: seq<Op>, end: End)

  function CheckSum(b: Bytes, start: nat, p: nat, crc: Checksum, op: Op): Read<Op>
    requires start <= p <= |b|
  {
    match Take(b, p, 4)
    case Eof => Eof
    case Got(c, p') => if GetU32(c) == crc(b[start..p]) then Got(op, p') else Corrupt
  }

  function ReadDelete(b: Bytes, pos: nat): Read<Bytes> {
    match ReadU16(b, pos)
    case Eof => Eof
    case Got(len, p) => if len == 0 || len > MAX_DOMAIN then Corrupt else Take(b, p, len)
  }

  function ReadOp(b: Bytes, pos: nat, crc: Checksum): (r: Read<Op>)
    requires pos < |b|
    ensures r.Got? ==> pos < r.pos <= |b|
  {
    if b[pos] == OP_UPSERT then
      match ReadRecord(b, pos + 1)
      case Eof => Eof
      case Corrupt => Corrupt
      case Got(rec, p) =>
        RecordAdvances(b, pos + 1);
        CheckSum(b, pos, p, crc, Upsert(rec.domain, rec.sets))
    else
      match ReadDelete(b, pos + 1)
      case Eof => Eof
      case Corrupt => Corrupt
      case Got(d, p) => CheckSum(b, pos, p, crc, Delete(d))
  }

  /** Delivers operations from pos on until the stream ends or goes wrong. */
  function ReplayFrom(b: Bytes, pos: nat, crc: Checksum): Replayed
    requires pos <= |b|
    decreases |b| - pos
  {
    if pos == |b| then Replayed([], Clean)
    else if b[pos] != OP_UPSERT && b[pos] != OP_DELETE then Replayed([], BadOpcode)
    else
      match ReadOp(b, pos, crc)
      case Eof => Replayed([], Truncated)
      case Corrupt => Replayed([], Corrupted)
      case Got(op, p) =>
        var rest := ReplayFrom(b, p, crc);
        Replayed([op] + rest.ops, rest.end)
  }

  function Replay(b: Bytes, crc: Checksum): Replayed {
    ReplayFrom(b, 0, crc)
  }

  lemma {:induction false} RDatasAdvance(b: Bytes, pos: nat, n: nat)
    requires pos <= |b|
    ensures var r := ReadRDatas(b, pos, n); r.Got? ==> pos <= r.pos <= |b|
    decreases n
  {
    if n > 0 && pos + 2 <= |b| {
      var len := GetU16(b[pos..pos + 2]);
      if pos + 2 + len <= |b| { RDatasAdvance(b, pos + 2 + len, n - 1); }
    }
  }

  lemma {:induction false} SetsAdvance(b: Bytes, pos: nat, n: nat)
    requires pos <= |b|
    ensures var r := ReadSets(b, pos, n); r.Got? ==> pos <= r.pos <= |b|
    decreases n
  {
    if n > 0 && pos + 8 <= |b| {
      RDatasAdvance(b, pos + 8, GetU16(b[pos..pos + 8][6..8]));
      var s := ReadSet(b, pos);
      if s.Got? { SetsAdvance(b, s.pos, n - 1); }
    }
  }

  lemma RecordAdvances(b: Bytes, pos: nat)
    requires pos <= |b|
    ensures var r := ReadRecord(b, pos); r.Got? ==> pos <= r.pos <= |b|
  {
    if pos + 2 <= |b| {
      var len := GetU16(b[pos..pos + 2]);
      var p := pos + 2 + len;
      if p + 2 <= |b| { SetsAdvance(b, p + 2, GetU16(b[p..p + 2])); }
    }
  }

  // ---- one frame, cut anywhere ----

  lemma CheckSumAgrees(b: Bytes, pos: nat, payload: Bytes, crc: Checksum, op: Op)
    requires Agrees(b, pos, payload + PutU32(crc(payload))) && pos + |payload| <= |b|
    ensures CheckSum(b, pos, pos + |payload|, crc, op) == Expected(b, pos, |payload| + 4, op)
  {
    var c := PutU32(crc(payload));
    AgreesSplit(b, pos, payload, c);
    TakeAgrees(b, pos, payload);
    TakeAgrees(b, pos + |payload|, c);
    U32RoundTrip(crc(payload));
  }

  lemma ReadUpsertAgrees(b: Bytes, pos: nat, d: Bytes, ss: RRSets, crc: Checksum)
    requires Accepted(Upsert(d, ss)) && Agrees(b, pos, Frame(Upsert(d, ss), crc)) && pos < |b|
    ensures ReadOp(b, pos, crc) == Expected(b, pos, |Frame(Upsert(d, ss), crc)|, Normal(Upsert(d, ss)))
    ensures b[pos] == OP_UPSERT
  {
    hide ReadRecord, EncRecord, PutU32, CheckSum;
    var rec := EncRecord(d, ss);
    var payload: Bytes := [OP_UPSERT] + rec;
    assert Frame(Upsert(d, ss), crc) == payload + PutU32(crc(payload));
    AgreesSplit(b, pos, payload, PutU32(crc(payload)));
    AgreesSplit(b, pos, [OP_UPSERT], rec);
    assert b[pos + 0] == [OP_UPSERT][0];
    ReadRecordAgrees(b, pos + 1, d, ss);
    if pos + |payload| <= |b| { CheckSumAgrees(b, pos, payload, crc, Normal(Upsert(d, ss))); }
  }

  lemma ReadDeleteAgrees(b: Bytes, pos: nat, d: Bytes, crc: Checksum)
    requires |d| <= MAX_DOMAIN && Agrees(b, pos, Frame(Delete(d), crc)) && pos < |b|
    ensures d != [] ==> ReadOp(b, pos, crc) == Expected(b, pos, |Frame(Delete(d), crc)|, Delete(d))
    ensures d == [] ==> ReadOp(b, pos, crc) == if pos + 3 <= |b| then Corrupt else Eof
    ensures b[pos] == OP_DELETE
  {
    hide PutU32, CheckSum, PutU16;
    var h := PutU16(|d|);
    var payload: Bytes := [OP_DELETE] + (h + d);
    assert Frame(Delete(d), crc) == payload + PutU32(crc(payload));
    AgreesSplit(b, pos, payload, PutU32(crc(payload)));
    AgreesSplit(b, pos, [OP_DELETE], h + d);
    AgreesSplit(b, pos + 1, h, d);
    assert b[pos + 0] == [OP_DELETE][0];
    ReadU16Agrees(b, pos + 1, |d|);
    if pos + 3 <= |b| {
      TakeAgrees(b, pos + 3, d);
      if pos + |payload| <= |b| { CheckSumAgrees(b, pos, payload, crc, Delete(d)); }
    }
  }

  /** The reader takes what the writer took, except a deletion without a name. */
  predicate Loggable(op: Op) {
    Accepted(op) && (op.Delete? ==> op.domain != [])
  }

  lemma ReadOpAgrees(b: Bytes, pos: nat, op: Op, crc: Checksum)
    requires Loggable(op) && Agrees(b, pos, Frame(op, crc)) && pos < |b|
    ensures ReadOp(b, pos, crc) == Expected(b, pos, |Frame(op, crc)|, Normal(op))
    ensures b[pos] == OP_UPSERT || b[pos] == OP_DELETE
  {
    match op
    case Upsert(d, ss) => ReadUpsertAgrees(b, pos, d, ss, crc);
    case Delete(d) => ReadDeleteAgrees(b, pos, d, crc);
  }

  // ---- whole logs, cut anywhere ----

  ghost predicate AllLoggable(ops: seq<Op>) {
    forall i :: 0 <= i < |ops| ==> Loggable(ops[i])
  }

  function NormalAll(ops: seq<Op>): (r: seq<Op>)
    ensures |r| == |ops|
  {
    seq(|ops|, i requires 0 <= i < |ops| => Normal(ops[i]))
  }

  /** How many frames lie wholly within the first k bytes. */
  function Whole(ops: seq<Op>, k: nat, crc: Checksum): (n: nat)
    requires forall i :: 0 <= i < |ops| ==> Accepted(ops[i])
    ensures n <= |ops|
    decreases |ops|
  {
    if ops == [] || |Frame(ops[0], crc)| > k then 0
    else 1 + Whole(ops[1..], k - |Frame(ops[0], crc)|, crc)
  }

  lemma {:induction false} WholeIsMost(ops: seq<Op>, k: nat, crc: Checksum)
    requires AllAccepted(ops)
    ensures var n := Whole(ops, k, crc);
            && |Frames(ops[..n], crc)| <= k
            && (n < |ops| ==> |Frames(ops[..n + 1], crc)| > k)
    decreases |ops|
  {
    hide Frame;
    if ops != [] && |Frame(ops[0], crc)| <= k {
      WholeIsMost(ops[1..], k - |Frame(ops[0], crc)|, crc);
      var n := Whole(ops, k, crc);
      assert ops[..n][1..] == ops[1..][..n - 1];
      if n < |ops| { assert ops[..n + 1][1..] == ops[1..][..n]; }
    } else if ops != [] {
      assert ops[..1] == [ops[0]] && ops[..1][1..] == [];
    }
  }

  lemma {:induction false} ReplayAgrees(b: Bytes, pos: nat, ops: seq<Op>, crc: Checksum)
    requires AllLoggable(ops) && Agrees(b, pos, Frames(ops, crc)) && |b| <= pos + |Frames(ops, crc)|
    ensures var n := Whole(ops, |b| - pos, crc);
            && pos + |Frames(ops[..n], crc)| <= |b|
            && ReplayFrom(b, pos, crc) ==
               Replayed(NormalAll(ops[..n]), if pos + |Frames(ops[..n], crc)| == |b| then Clean else Truncated)
    decreases |ops|
  {
    hide Frame, ReadOp, Agrees;
    if pos == |b| {
      if ops != [] { assert |Frame(ops[0], crc)| > 0; }
      assert NormalAll(ops[..0]) == [];
      AgreesWithin(b, pos, Frames(ops, crc));
    } else if ops == [] {
      AgreesWithin(b, pos, []);
    } else {
      var f := Frame(ops[0], crc);
      AgreesSplit(b, pos, f, Frames(ops[1..], crc));
      AgreesWithin(b, pos, f);
      ReadOpAgrees(b, pos, ops[0], crc);
      if pos + |f| <= |b| {
        ReplayAgrees(b, pos + |f|, ops[1..], crc);
        var n := Whole(ops, |b| - pos, crc);
        assert ops[..n][1..] == ops[1..][..n - 1];
        assert NormalAll(ops[..n]) == [Normal(ops[0])] + NormalAll(ops[1..][..n - 1]);
      } else {
        assert NormalAll(ops[..0]) == [];
      }
    }
  }

  lemma AgreesWithin(b: Bytes, pos: nat, e: Bytes)
    requires Agrees(b, pos, e)
    ensures pos <= |b|
  {
  }

  /**
   Replaying the first k bytes of a log delivers exactly the operations whose frames lie wholly
   within k, and ends cleanly when k is a frame boundary and truncated otherwise.
   */
  lemma CutReplay(ops: seq<Op>, k: nat, crc: Checksum)
    requires AllLoggable(ops) && k <= |Frames(ops, crc)|
    ensures var n := Whole(ops, k, crc);
            Replay(Frames(ops, crc)[..k], crc) ==
            Replayed(NormalAll(ops[..n]), if |Frames(ops[..n], crc)| == k then Clean else Truncated)
  {
    ReplayAgrees(Frames(ops, crc)[..k], 0, ops, crc);
  }

  /** A whole log the writer accepted replays exactly when no deletion in it lacks a name. */
  lemma {:induction false} ReplayAllIff(ops: seq<Op>, crc: Checksum)
    requires AllAccepted(ops)
    ensures Replay(Frames(ops, crc), crc) == Replayed(NormalAll(ops), Clean) <==> AllLoggable(ops)
  {
    if AllLoggable(ops) {
      CutReplay(ops, |Frames(ops, crc)|, crc);
      WholeIsMost(ops, |Frames(ops, crc)|, crc);
      var n := Whole(ops, |Frames(ops, crc)|, crc);
      if n < |ops| { FramesPrefix(ops, n + 1, crc); }
      assert ops[..|ops|] == ops;
      assert Frames(ops, crc)[..|Frames(ops, crc)|] == Frames(ops, crc);
    } else {
      ReplayStops(Frames(ops, crc), 0, ops, crc);
    }
  }

  lemma {:induction false} FramesPrefix(ops: seq<Op>, n: nat, crc: Checksum)
    requires AllAccepted(ops) && n <= |ops|
    ensures Frames(ops, crc) == Frames(ops[..n], crc) + Frames(ops[n..], crc)
    decreases n
  {
    hide Frame;
    if n == 0 {
      assert ops[..0] == [] && ops[0..] == ops;
    } else {
      FramesPrefix(ops[1..], n - 1, crc);
      assert ops[..n][1..] == ops[1..][..n - 1] && ops[n..] == ops[1..][n - 1..];
      var x, y, z := Frame(ops[0], crc), Frames(ops[1..][..n - 1], crc), Frames(ops[n..], crc);
      assert x + (y + z) == (x + y) + z;
    }
  }

  lemma {:induction false} ReplayStops(b: Bytes, pos: nat, ops: seq<Op>, crc: Checksum)
    requires AllAccepted(ops) && !AllLoggable(ops)
    requires Agrees(b, pos, Frames(ops, crc)) && pos + |Frames(ops, crc)| <= |b|
    ensures ReplayFrom(b, pos, crc).end == Corrupted
    decreases |ops|
  {
    hide ReadOp, Agrees, PutU32, EncRecord;
    var f := Frame(ops[0], crc);
    AgreesSplit(b, pos, f, Frames(ops[1..], crc));
    if Loggable(ops[0]) {
      ReadOpAgrees(b, pos, ops[0], crc);
      assert !AllLoggable(ops[1..]) by {
        var i :| 0 <= i < |ops| && !Loggable(ops[i]);
        assert ops[1..][i - 1] == ops[i];
      }
      ReplayStops(b, pos + |f|, ops[1..], crc);
    } else {
      ReadDeleteAgrees(b, pos, [], crc);
    }
  }

  // ---- the read loop ----

  class Reader {
    const data: Bytes
    var pos: nat

    constructor (data: Bytes)
      ensures this.data == data && pos == 0
    {
      this.data, this.pos := data, 0;
    }

    ghost predicate Valid()
      reads this
    {
      pos <= |data|
    }

    /** io.ReadFull: all n bytes, or end of file. */
    method ReadFull(n: nat) returns (x: Bytes, ok: bool)
      requires Valid()
      modifies this
      ensures Valid()
      ensures match Take(data, old(pos), n)
              case Got(y, p) => ok && x == y && pos == p
              case Eof => !ok && pos == |data|
    {
      if pos + n > |data| {
        pos := |data|;
        return [], false;
      }
      x, ok := data[pos..pos + n], true;
      pos := pos + n;
    }
  }

  function Join<T>(done: seq<T>, rest: Read<seq<T>>): Read<seq<T>> {
    match rest
    case Got(more, p) => Got(done + more, p)
    case Eof => Eof
    case Corrupt => Corrupt
  }

  lemma JoinNothing<T>(rest: Read<seq<T>>)
    ensures Join([], rest) == rest
  {
    if rest.Got? { assert [] + rest.value == rest.value; }
  }

  method DecodeRDatas(rd: Reader, count: nat) returns (r: Read<seq<Bytes>>)
    requires rd.Valid()
    modifies rd
    ensures rd.Valid() && r == ReadRDatas(rd.data, old(rd.pos), count) && (r.Got? ==> rd.pos == r.pos)
  {
    hide GetU16;
    var rdata: seq<Bytes> := [];
    ghost var start := rd.pos;
    JoinNothing(ReadRDatas(rd.data, start, count));
    for j := 0 to count
      invariant rd.Valid()
      invariant Join(rdata, ReadRDatas(rd.data, rd.pos, count - j)) == ReadRDatas(rd.data, start, count)
    {
      var lenBytes, ok := rd.ReadFull(2);
      if !ok { return Eof; }
      var payload;
      payload, ok := rd.ReadFull(GetU16(lenBytes));
      if !ok { return Eof; }
      JoinMore(rdata, payload, ReadRDatas(rd.data, rd.pos, count - j - 1));
      rdata := rdata + [payload];
    }
    assert rdata + [] == rdata;
    return Got(rdata, rd.pos);
  }

  lemma JoinMore<T>(xs: seq<T>, x: T, rest: Read<seq<T>>)
    ensures rest.Got? ==> xs + ([x] + rest.value) == xs + [x] + rest.value
  {
  }

  method DecodeSet(rd: Reader) returns (r: Read<RRSet>)
    requires rd.Valid()
    modifies rd
    ensures rd.Valid() && r == ReadSet(rd.data, old(rd.pos)) && (r.Got? ==> rd.pos == r.pos)
  {
    hide ReadRDatas;
    var head, ok := rd.ReadFull(8);
    if !ok { return Eof; }
    var count := GetU16(head[6..8]);
    if count > MAX_RDATA_COUNT { return Corrupt; }
    var rdata := DecodeRDatas(rd, count);
    match rdata {
      case Eof => return Eof;
      case Corrupt => return Corrupt;
      case Got(ds, _) => return Got(RRSet(GetU16(head[..2]), CLASS_IN, GetU32(head[2..6]), ds), rd.pos);
    }
  }

  method DecodeRecord(rd: Reader) returns (r: Read<Record>)
    requires rd.Valid()
    modifies rd
    ensures rd.Valid() && r == ReadRecord(rd.data, old(rd.pos)) && (r.Got? ==> rd.pos == r.pos)
  {
    hide ReadSet;
    var lenBytes, ok := rd.ReadFull(2);
    if !ok { return Eof; }
    if GetU16(lenBytes) > MAX_DOMAIN { return Corrupt; }
    var domain;
    domain, ok := rd.ReadFull(GetU16(lenBytes));
    if !ok { return Eof; }
    var countBytes;
    countBytes, ok := rd.ReadFull(2);
    if !ok { return Eof; }
    var count := GetU16(countBytes);
    if count > MAX_SETS { return Corrupt; }
    var sets: RRSets := [];
    ghost var start := rd.pos;
    JoinNothing(ReadSets(rd.data, start, count));
    for i := 0 to count
      invariant rd.Valid()
      invariant Join(sets, ReadSets(rd.data, rd.pos, count - i)) == ReadSets(rd.data, start, count)
    {
      var s := DecodeSet(rd);
      if s.Eof? { return Eof; }
      if s.Corrupt? { return Corrupt; }
      ghost var rest := ReadSets(rd.data, rd.pos, count - i - 1);
      JoinMore(sets, s.value, rest);
      sets := sets + [s.value];
    }
    assert sets + [] == sets;
    return Got(Record(domain, sets), rd.pos);
  }

  method VerifyChecksum(rd: Reader, start: nat, crc: Checksum, op: Op) returns (r: Read<Op>)
    requires rd.Valid() && start <= rd.pos
    modifies rd
    ensures rd.Valid() && r == CheckSum(rd.data, start, old(rd.pos), crc, op) && (r.Got? ==> rd.pos == r.pos)
  {
    var sum := crc(rd.data[start..rd.pos]);
    var c, ok := rd.ReadFull(4);
    if !ok { return Eof; }
    if GetU32(c) != sum { return Corrupt; }
    return Got(op, rd.pos);
  }

  /** The rest of the frame whose opcode has just been read. */
  method DecodeFrame(rd: Reader, start: nat, crc: Checksum) returns (r: Read<Op>)
    requires rd.Valid() && rd.pos == start + 1 && (rd.data[start] == OP_UPSERT || rd.data[start] == OP_DELETE)
    modifies rd
    ensures rd.Valid() && r == ReadOp(rd.data, start, crc) && (r.Got? ==> rd.pos == r.pos)
  {
    hide ReadRecord, CheckSum, ReadDelete;
    if rd.data[start] == OP_DELETE {
      r := DecodeDelete(rd, start, crc);
    } else {
      var rec := DecodeRecord(rd);
      RecordAdvances(rd.data, start + 1);
      match rec {
        case Eof => r := Eof;
        case Corrupt => r := Corrupt;
        case Got(x, _) => r := VerifyChecksum(rd, start, crc, Upsert(x.domain, x.sets));
      }
    }
  }

  /** Reads frames until the stream ends or one is bad, handing each operation on. */
  method ReplayLog(data: Bytes, crc: Checksum) returns (ops: seq<Op>, end: End)
    ensures Replayed(ops, end) == Replay(data, crc)
  {
    hide ReadOp;
    var rd := new Reader(data);
    ops := [];
    while true
      invariant rd.Valid() && rd.data == data
      invariant Replay(data, crc) ==
                var rest := ReplayFrom(data, rd.pos, crc); Replayed(ops + rest.ops, rest.end)
      decreases |data| - rd.pos
    {
      ghost var rest := ReplayFrom(data, rd.pos, crc);
      var start := rd.pos;
      assert ops + [] == ops;
      var opcode, ok := rd.ReadFull(1);
      if !ok { return ops, Clean; }
      if opcode[0] != OP_UPSERT && opcode[0] != OP_DELETE { return ops, BadOpcode; }
      var r := DecodeFrame(rd, start, crc);
      if r.Eof? { return ops, Truncated; }
      if r.Corrupt? { return ops, Corrupted; }
      assert ops + rest.ops == ops + [r.value] + ReplayFrom(data, rd.pos, crc).ops;
      ops := ops + [r.value];
    }
  }

  method DecodeDelete(rd: Reader, start: nat, crc: Checksum) returns (r: Read<Op>)
    requires rd.Valid() && rd.pos == start + 1 && rd.data[start] == OP_DELETE
    modifies rd
    ensures rd.Valid() && r == ReadOp(rd.data, start, crc) && (r.Got? ==> rd.pos == r.pos)
  {
    var lenBytes, ok := rd.ReadFull(2);
    if !ok { return Eof; }
    var len := GetU16(lenBytes);
    if len == 0 || len > MAX_DOMAIN { return Corrupt; }
    var domain;
    domain, ok := rd.ReadFull(len);
    if !ok { return Eof; }
    r := VerifyChecksum(rd, start, crc, Delete(domain));
  }
}
