/**
 The binary record format of the log and the snapshot (internal/codec/codec.go).
 Decoding is stated on every stream that agrees with an encoding as far as it goes: it returns
 the record when the stream reaches its end, and end-of-file when it is cut short anywhere.
 */
module Codec {
  import opened Octets
  import opened Records

  const MAX_DOMAIN := 255
  const MAX_SETS := 4096
  const MAX_RDATA_COUNT := 4096
  const MAX_RDATA_LEN := 65535
  const MAX_FRAME := 10 * 1024 * 1024

  // ---- encoding ----

  predicate RDatasInLimits(ds: seq<Bytes>) {
    |ds| <= MAX_RDATA_COUNT && forall i :: 0 <= i < |ds| ==> |ds[i]| <= MAX_RDATA_LEN
  }

  predicate SetsInLimits(ss: RRSets) {
    |ss| <= MAX_SETS && forall i :: 0 <= i < |ss| ==> RDatasInLimits(ss[i].rdata)
  }

  predicate InLimits(domain: Bytes, ss: RRSets) {
    |domain| <= MAX_DOMAIN && SetsInLimits(ss)
  }

  function EncRDatas(ds: seq<Bytes>): Bytes
    requires forall i :: 0 <= i < |ds| ==> |ds[i]| <= MAX_RDATA_LEN
  {
    if ds == [] then [] else PutU16(|ds[0]|) + ds[0] + EncRDatas(ds[1..])
  }

  function EncSet(s: RRSet): Bytes
    requires RDatasInLimits(s.rdata)
  {
    PutU16(s.rtype) + PutU32(s.ttl) + PutU16(|s.rdata|) + EncRDatas(s.rdata)
  }

  function EncSets(ss: RRSets): Bytes
    requires forall i :: 0 <= i < |ss| ==> RDatasInLimits(ss[i].rdata)
  {
    if ss == [] then [] else EncSet(ss[0]) + EncSets(ss[1..])
  }

  function EncRecord(domain: Bytes, ss: RRSets): Bytes
    requires InLimits(domain, ss)
  {
    PutU16(|domain|) + domain + PutU16(|ss|) + EncSets(ss)
  }

  // ---- decoding ----

  datatype Read<+T> = Got(value: T, pos: nat) | Eof | Corrupt

  function Take(b: Bytes, pos: nat, n: nat): Read<Bytes> {
    if pos + n <= |b| then Got(b[pos..pos + n], pos + n) else Eof
  }

  function ReadU16(b: Bytes, pos: nat): Read<U16> {
    match Take(b, pos, 2)
    case Got(x, p) => Got(GetU16(x), p)
    case Eof => Eof
  }

  /** n payloads, each behind its length. */
  function ReadRDatas(b: Bytes, pos: nat, n: nat): Read<seq<Bytes>>
    decreases n
  {
    if n == 0 then Got([], pos)
    else
      match ReadU16(b, pos)
      case Eof => Eof
      case Got(len, p) =>
        match Take(b, p, len)
        case Eof => Eof
        case Got(d, p') =>
          match ReadRDatas(b, p', n - 1)
          case Got(ds, p'') => Got([d] + ds, p'')
          case Eof => Eof
          case Corrupt => Corrupt
  }

  /** The class is not stored: every decoded set is class IN. */
  function ReadSet(b: Bytes, pos: nat): Read<RRSet> {
    match Take(b, pos, 8)
    case Eof => Eof
    case Got(h, p) =>
      var count := GetU16(h[6..8]);
      if count > MAX_RDATA_COUNT then Corrupt
      else
        match ReadRDatas(b, p, count)
        case Got(ds, p') => Got(RRSet(GetU16(h[..2]), CLASS_IN, GetU32(h[2..6]), ds), p')
        case Eof => Eof
        case Corrupt => Corrupt
  }

  function ReadSets(b: Bytes, pos: nat, n: nat): Read<RRSets>
    decreases n
  {
    if n == 0 then Got([], pos)
    else
      match ReadSet(b, pos)
      case Eof => Eof
      case Corrupt => Corrupt
      case Got(s, p) =>
        match ReadSets(b, p, n - 1)
        case Got(ss, p') => Got([s] + ss, p')
        case Eof => Eof
        case Corrupt => Corrupt
  }

  datatype Record = Record(domain: Bytes, sets: RRSets)

  function ReadRecord(b: Bytes, pos: nat): Read<Record> {
    match ReadU16(b, pos)
    case Eof => Eof
    case Got(len, p) =>
      if len > MAX_DOMAIN then Corrupt
      else
        match Take(b, p, len)
        case Eof => Eof
        case Got(domain, p') =>
          match ReadU16(b, p')
          case Eof => Eof
          case Got(count, p'') =>
            if count > MAX_SETS then Corrupt
            else
              match ReadSets(b, p'', count)
              case Got(ss, end) => Got(Record(domain, ss), end)
              case Eof => Eof
              case Corrupt => Corrupt
  }

  // ---- the round trip, at every cut ----

  /** From pos on, b reads like e for as far as b goes. */
  ghost predicate Agrees(b: Bytes, pos: nat, e: Bytes) {
    pos <= |b| && forall i :: 0 <= i < |e| && pos + i < |b| ==> b[pos + i] == e[i]
  }

  /** What reading x, encoded in n bytes at pos, gives: x, or end of file. */
  function Expected<T>(b: Bytes, pos: nat, n: nat, x: T): Read<T> {
    if pos + n <= |b| then Got(x, pos + n) else Eof
  }

  lemma AgreesSplit(b: Bytes, pos: nat, e: Bytes, e': Bytes)
    requires Agrees(b, pos, e + e')
    ensures Agrees(b, pos, e)
    ensures pos + |e| <= |b| ==> Agrees(b, pos + |e|, e')
  {
    assert forall i :: 0 <= i < |e| ==> (e + e')[i] == e[i];
    forall i | 0 <= i < |e'| && pos + |e| + i < |b| ensures b[pos + |e| + i] == e'[i] {
      assert (e + e')[|e| + i] == e'[i];
      assert b[pos + (|e| + i)] == (e + e')[|e| + i];
    }
  }

  lemma TakeAgrees(b: Bytes, pos: nat, e: Bytes)
    requires Agrees(b, pos, e)
    ensures Take(b, pos, |e|) == Expected(b, pos, |e|, e)
  {
    if pos + |e| <= |b| { assert b[pos..pos + |e|] == e; }
  }

  lemma ReadU16Agrees(b: Bytes, pos: nat, n: U16)
    requires Agrees(b, pos, PutU16(n))
    ensures ReadU16(b, pos) == Expected(b, pos, 2, n)
  {
    TakeAgrees(b, pos, PutU16(n));
    U16RoundTrip(n);
  }

  lemma {:induction false} ReadRDatasAgrees(b: Bytes, pos: nat, ds: seq<Bytes>)
    requires (forall i :: 0 <= i < |ds| ==> |ds[i]| <= MAX_RDATA_LEN) && Agrees(b, pos, EncRDatas(ds))
    ensures ReadRDatas(b, pos, |ds|) == Expected(b, pos, |EncRDatas(ds)|, ds)
    decreases |ds|
  {
    if ds != [] {
      var head, d := PutU16(|ds[0]|), ds[0];
      AgreesSplit(b, pos, head + d, EncRDatas(ds[1..]));
      AgreesSplit(b, pos, head, d);
      ReadU16Agrees(b, pos, |d|);
      if pos + 2 <= |b| {
        TakeAgrees(b, pos + 2, d);
        if pos + 2 + |d| <= |b| {
          ReadRDatasAgrees(b, pos + 2 + |d|, ds[1..]);
          assert ds == [d] + ds[1..];
        }
      }
    }
  }

  function AsIN(s: RRSet): RRSet {
    s.(cls := CLASS_IN)
  }

  function AllIN(ss: RRSets): RRSets {
    seq(|ss|, i requires 0 <= i < |ss| => AsIN(ss[i]))
  }

  lemma ReadSetAgrees(b: Bytes, pos: nat, s: RRSet)
    requires RDatasInLimits(s.rdata) && Agrees(b, pos, EncSet(s))
    ensures ReadSet(b, pos) == Expected(b, pos, |EncSet(s)|, AsIN(s))
  {
    var h := PutU16(s.rtype) + PutU32(s.ttl) + PutU16(|s.rdata|);
    AgreesSplit(b, pos, h, EncRDatas(s.rdata));
    TakeAgrees(b, pos, h);
    assert h[..2] == PutU16(s.rtype) && h[2..6] == PutU32(s.ttl) && h[6..8] == PutU16(|s.rdata|);
    U16RoundTrip(s.rtype);
    U32RoundTrip(s.ttl);
    U16RoundTrip(|s.rdata|);
    if pos + 8 <= |b| { ReadRDatasAgrees(b, pos + 8, s.rdata); }
  }

  lemma {:induction false} ReadSetsAgrees(b: Bytes, pos: nat, ss: RRSets)
    requires (forall i :: 0 <= i < |ss| ==> RDatasInLimits(ss[i].rdata)) && Agrees(b, pos, EncSets(ss))
    ensures ReadSets(b, pos, |ss|) == Expected(b, pos, |EncSets(ss)|, AllIN(ss))
    decreases |ss|
  {
    hide ReadSet, EncSet;
    if ss != [] {
      AgreesSplit(b, pos, EncSet(ss[0]), EncSets(ss[1..]));
      ReadSetAgrees(b, pos, ss[0]);
      if pos + |EncSet(ss[0])| <= |b| {
        ReadSetsAgrees(b, pos + |EncSet(ss[0])|, ss[1..]);
        assert AllIN(ss) == [AsIN(ss[0])] + AllIN(ss[1..]);
      }
    }
  }

  /** Decoding an encoded record gives it back in class IN; cut anywhere, it reports end of file. */
  lemma ReadRecordAgrees(b: Bytes, pos: nat, domain: Bytes, ss: RRSets)
    requires InLimits(domain, ss) && Agrees(b, pos, EncRecord(domain, ss))
    ensures ReadRecord(b, pos) == Expected(b, pos, |EncRecord(domain, ss)|, Record(domain, AllIN(ss)))
  {
    hide ReadSets, EncSets, Agrees;
    var h1, h2, body := PutU16(|domain|), PutU16(|ss|), EncSets(ss);
    AgreesSplit(b, pos, h1 + domain + h2, body);
    AgreesSplit(b, pos, h1 + domain, h2);
    AgreesSplit(b, pos, h1, domain);
    ReadU16Agrees(b, pos, |domain|);
    if pos + 2 <= |b| {
      TakeAgrees(b, pos + 2, domain);
      var p := pos + 2 + |domain|;
      if p <= |b| {
        ReadU16Agrees(b, p, |ss|);
        if p + 2 <= |b| { ReadSetsAgrees(b, p + 2, ss); }
      }
    }
  }

  // ---- the encoder's buffer ----

  /** The running size never passes 10 MiB right after a payload was added. */
  predicate SizeOk(ss: RRSets, size: nat)
    requires forall i :: 0 <= i < |ss| ==> RDatasInLimits(ss[i].rdata)
    decreases |ss|
  {
    if ss == [] then true
    else
      var size' := size + |EncSet(ss[0])|;
      (ss[0].rdata == [] || size' <= MAX_FRAME) && SizeOk(ss[1..], size')
  }

  predicate Encodable(domain: Bytes, ss: RRSets) {
    InLimits(domain, ss) && SizeOk(ss, 2 + |domain| + 2)
  }

  lemma {:induction false} EncRDatasSnoc(ds: seq<Bytes>, i: nat)
    requires i < |ds| && forall k :: 0 <= k <= i ==> |ds[k]| <= MAX_RDATA_LEN
    ensures EncRDatas(ds[..i + 1]) == EncRDatas(ds[..i]) + (PutU16(|ds[i]|) + ds[i])
    decreases i
  {
    if i == 0 {
      assert ds[..1] == [ds[0]] && ds[..1][1..] == [];
    } else {
      EncRDatasSnoc(ds[1..], i - 1);
      assert ds[..i + 1][1..] == ds[1..][..i] && ds[..i][1..] == ds[1..][..i - 1];
      var h, x, y := PutU16(|ds[0]|) + ds[0], EncRDatas(ds[1..][..i - 1]), PutU16(|ds[i]|) + ds[i];
      assert h + (x + y) == (h + x) + y;
    }
  }

  lemma {:induction false} EncSetsSnoc(ss: RRSets, i: nat)
    requires i < |ss| && forall k :: 0 <= k <= i ==> RDatasInLimits(ss[k].rdata)
    ensures EncSets(ss[..i + 1]) == EncSets(ss[..i]) + EncSet(ss[i])
    decreases i
  {
    hide EncSet;
    if i == 0 {
      assert ss[..1] == [ss[0]] && ss[..1][1..] == [] && ss[..0] == [];
      assert EncSets(ss[..1]) == EncSet(ss[0]) + [];
    } else {
      EncSetsSnoc(ss[1..], i - 1);
      assert ss[..i + 1][1..] == ss[1..][..i] && ss[..i][1..] == ss[1..][..i - 1];
      var h, x, y := EncSet(ss[0]), EncSets(ss[1..][..i - 1]), EncSet(ss[i]);
      assert h + (x + y) == (h + x) + y;
    }
  }

  /** Copies s to the buffer at offset; nothing else changes. */
  method Put(buf: array<Byte>, offset: nat, s: Bytes)
    requires offset + |s| <= buf.Length
    modifies buf
    ensures buf[..offset + |s|] == old(buf[..offset]) + s
  {
    forall i | 0 <= i < |s| { buf[offset + i] := s[i]; }
    assert buf[..offset] == old(buf[..offset]);
    assert buf[offset..offset + |s|] == s;
    assert buf[..offset + |s|] == buf[..offset] + buf[offset..offset + |s|];
  }

  method WriteSet(buf: array<Byte>, start: nat, s: RRSet) returns (offset: nat)
    requires RDatasInLimits(s.rdata) && start + |EncSet(s)| <= buf.Length
    modifies buf
    ensures offset == start + |EncSet(s)|
    ensures buf[..offset] == old(buf[..start]) + EncSet(s)
  {
    hide PutU16, PutU32, EncRDatas;
    var head := PutU16(s.rtype) + PutU32(s.ttl) + PutU16(|s.rdata|);
    Put(buf, start, head);
    offset := start + 8;
    ghost var pre := old(buf[..start]) + head;
    assert s.rdata[..0] == [];
    EncRDatasNone();
    for j := 0 to |s.rdata|
      invariant offset == start + 8 + |EncRDatas(s.rdata[..j])| <= buf.Length
      invariant buf[..offset] == pre + EncRDatas(s.rdata[..j])
    {
      EncRDatasSnoc(s.rdata, j);
      EncRDatasPrefix(s.rdata, j + 1);
      var d := s.rdata[j];
      Put(buf, offset, PutU16(|d|) + d);
      offset := offset + 2 + |d|;
      assert pre + EncRDatas(s.rdata[..j]) + (PutU16(|d|) + d) == pre + (EncRDatas(s.rdata[..j]) + (PutU16(|d|) + d));
    }
    assert s.rdata[..|s.rdata|] == s.rdata;
  }

  lemma EncRDatasNone()
    ensures EncRDatas([]) == []
  {
  }

  lemma {:induction false} EncRDatasPrefix(ds: seq<Bytes>, i: nat)
    requires i <= |ds| && forall k :: 0 <= k < |ds| ==> |ds[k]| <= MAX_RDATA_LEN
    ensures |EncRDatas(ds[..i])| <= |EncRDatas(ds)|
    decreases |ds| - i
  {
    if i == |ds| { assert ds[..i] == ds; }
    else { EncRDatasSnoc(ds, i); EncRDatasPrefix(ds, i + 1); }
  }

  lemma {:induction false} EncSetsPrefix(ss: RRSets, i: nat)
    requires i <= |ss| && forall k :: 0 <= k < |ss| ==> RDatasInLimits(ss[k].rdata)
    ensures |EncSets(ss[..i])| <= |EncSets(ss)|
    decreases |ss| - i
  {
    hide EncSet;
    if i == |ss| { assert ss[..i] == ss; }
    else { EncSetsSnoc(ss, i); EncSetsPrefix(ss, i + 1); }
  }

  /** Serializes a record at a moving offset into one buffer of the computed size. */
  method WriteRecord(domain: Bytes, ss: RRSets) returns (out: Option<Bytes>)
    ensures out.Some? <==> Encodable(domain, ss)
    ensures out.Some? ==> out.value == EncRecord(domain, ss)
  {
    hide PutU16, EncSet, SizeOk;
    var size := CalculateFrameSize(domain, ss);
    if size.None? { return None; }
    var buf := new Byte[size.value];
    var head := PutU16(|domain|) + domain + PutU16(|ss|);
    Put(buf, 0, head);
    var offset := |head|;
    assert ss[..0] == [];
    EncSetsNone();
    for i := 0 to |ss|
      invariant offset == |head| + |EncSets(ss[..i])| <= buf.Length == size.value
      invariant buf[..offset] == head + EncSets(ss[..i])
    {
      EncSetsSnoc(ss, i);
      EncSetsPrefix(ss, i + 1);
      offset := WriteSet(buf, offset, ss[i]);
      assert head + EncSets(ss[..i]) + EncSet(ss[i]) == head + (EncSets(ss[..i]) + EncSet(ss[i]));
    }
    assert ss[..|ss|] == ss;
    assert buf[..] == buf[..offset];
    return Some(buf[..]);
  }

  lemma EncSetsNone()
    ensures EncSets([]) == []
  {
  }

  /** The frame size, or None where the encoder answers that its limits are exceeded. */
  method CalculateFrameSize(domain: Bytes, ss: RRSets) returns (size: Option<nat>)
    ensures size.Some? <==> Encodable(domain, ss)
    ensures size.Some? ==> size.value == |EncRecord(domain, ss)|
  {
    hide PutU16, EncSet, EncSets, EncRDatas;
    if |domain| > MAX_DOMAIN || |ss| > MAX_SETS { return None; }
    var n := 2 + |domain| + 2;
    ghost var base := n;
    assert ss[0..] == ss && ss[..0] == [];
    EncSetsNone();
    for i := 0 to |ss|
      invariant forall k :: 0 <= k < i ==> RDatasInLimits(ss[k].rdata)
      invariant n == base + |EncSets(ss[..i])|
      invariant SetsInLimits(ss) ==> SizeOk(ss, base) == SizeOk(ss[i..], n)
    {
      var s := ss[i];
      if |s.rdata| > MAX_RDATA_COUNT { return None; }
      var before := n;
      n := n + 8;
      assert s.rdata[..0] == [];
      EncRDatasNone();
      for j := 0 to |s.rdata|
        invariant forall k :: 0 <= k < j ==> |s.rdata[k]| <= MAX_RDATA_LEN
        invariant n == before + 8 + |EncRDatas(s.rdata[..j])|
        invariant j > 0 ==> n <= MAX_FRAME
      {
        if |s.rdata[j]| > MAX_RDATA_LEN { return None; }
        EncRDatasSnoc(s.rdata, j);
        n := n + 2 + |s.rdata[j]|;
        if n > MAX_FRAME {
          if SetsInLimits(ss) {
            TooBig(s, j, before, n);
            SizeStep(ss, i, before);
          }
          return None;
        }
      }
      assert s.rdata[..|s.rdata|] == s.rdata;
      EncSetSize(s);
      EncSetsSnoc(ss, i);
      if SetsInLimits(ss) { SizeStep(ss, i, before); }
    }
    assert ss[..|ss|] == ss && ss[|ss|..] == [];
    return Some(n);
  }

  lemma EncSetSize(s: RRSet)
    requires RDatasInLimits(s.rdata)
    ensures |EncSet(s)| == 8 + |EncRDatas(s.rdata)|
  {
  }

  lemma TooBig(s: RRSet, j: nat, before: nat, n: nat)
    requires RDatasInLimits(s.rdata) && j < |s.rdata| && n == before + 8 + |EncRDatas(s.rdata[..j + 1])|
    requires n > MAX_FRAME
    ensures before + |EncSet(s)| > MAX_FRAME
  {
    EncRDatasPrefix(s.rdata, j + 1);
    EncSetSize(s);
  }

  lemma SizeStep(ss: RRSets, i: nat, size: nat)
    requires SetsInLimits(ss) && i < |ss|
    ensures SizeOk(ss[i..], size) ==
            ((ss[i].rdata == [] || size + |EncSet(ss[i])| <= MAX_FRAME) && SizeOk(ss[i + 1..], size + |EncSet(ss[i])|))
  {
    assert ss[i..][0] == ss[i] && ss[i..][1..] == ss[i + 1..];
  }
}
