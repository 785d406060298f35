/**
 Start-of-authority data: how it is written and read (internal/dns/rdata.go) and how the store
 raises the serial number in place (internal/store/batch.go).
 */
module SoaRecords {
  import opened Octets
  import opened WireNames
  import opened Compression
  import opened WritePlans
  import opened Packing

  datatype Soa = Soa(
    mname: seq<Bytes>, rname: seq<Bytes>, serial: U32, refresh: U32, retry: U32, expire: U32, minimum: U32)

  const TIMERS := 20
  const U32_SPAN := 0x1_0000_0000

  function Timers(b: Bytes, e: nat, m: seq<Bytes>, r: seq<Bytes>): Soa
    requires e + TIMERS <= |b|
  {
    Soa(m, r, GetU32(b[e..e + 4]), GetU32(b[e + 4..e + 8]), GetU32(b[e + 8..e + 12]),
        GetU32(b[e + 12..e + 16]), GetU32(b[e + 16..e + 20]))
  }

  function ReadSoa(b: Bytes): Option<Soa> {
    match Decode(b, 0)
    case Failed(_) => None
    case Name(m, e1) =>
      match Decode(b, e1)
      case Failed(_) => None
      case Name(r, e2) => if e2 + TIMERS > |b| then None else Some(Timers(b, e2, m, r))
  }

  // ---- raising the serial ----

  /** Where the serial number starts, when two names and the timers fit. */
  function SerialAt(b: Bytes): (e: Option<nat>)
    ensures e.Some? ==> e.value + TIMERS <= |b|
  {
    var o1 := Skip(b, 0);
    if o1 < 0 then None
    else
      var o2 := Skip(b, o1);
      if o2 < 0 || o2 + TIMERS > |b| then None else Some(o2)
  }

  function Next(serial: U32): U32 {
    (serial + 1) % U32_SPAN
  }

  function Raised(b: Bytes): Bytes {
    match SerialAt(b)
    case None => b
    case Some(e) => b[..e] + PutU32(Next(GetU32(b[e..e + 4]))) + b[e + 4..]
  }

  method IncrementSoaSerial(rdata: Bytes) returns (out: Bytes)
    ensures out == Raised(rdata) && |out| == |rdata|
  {
    hide Skip, GetU32, PutU32;
    var offset := SkipDomainName(rdata, 0);
    if offset < 0 { return rdata; }
    offset := SkipDomainName(rdata, offset);
    if offset < 0 || offset + TIMERS > |rdata| { return rdata; }
    var serial := GetU32(rdata[offset..offset + 4]);
    var four := PutU32((serial + 1) % U32_SPAN);
    var copy := new Byte[|rdata|](i requires 0 <= i < |rdata| => rdata[i]);
    forall i | 0 <= i < 4 { copy[offset + i] := four[i]; }
    assert copy[..] == rdata[..offset] + four + rdata[offset + 4..];
    return copy[..];
  }

  /** Two names spelled one after the other within the first e bytes, then the five timers. */
  ghost predicate SoaData(b: Bytes, e1: nat, e: nat, m: seq<Bytes>, r: seq<Bytes>) {
    && e + TIMERS == |b|
    && var names := b[..e];
    && Spells(names, 0, 0, m, 0) && Skip(names, 0) == e1
    && Spells(names, 0, e1, r, 1) && Skip(names, e1) == e
  }

  /** What follows a spelled name does not matter to the decoder. */
  lemma {:induction false} DecodeExtends(b: Bytes, b': Bytes, off: nat, ls: seq<Bytes>, d: nat, jumps: nat, len: nat)
    requires Spells(b, 0, off, ls, d) && Extends(b, b', 0) && jumps + d <= MAX_JUMPS && len <= MAX_NAME
    ensures DecodeAt(b', off, jumps, len) == DecodeAt(b, off, jumps, len)
    decreases d, |ls|
  {
    hide DecodeAt, LowerAll;
    if b[off] == 0 {
      DecodeEnd(b, off, jumps, len);
      DecodeEnd(b', off, jumps, len);
    } else if b[off] >= JUMP_TAG {
      DecodePointer(b, off, jumps, len);
      DecodePointer(b', off, jumps, len);
      DecodeExtends(b, b', (b[off] - JUMP_TAG) * 256 + b[off + 1], ls, d - 1, jumps + 1, len);
    } else {
      var l := ls[0];
      LabelAtExtends(b, b', 0, off, l);
      DecodeLabel(b, off, l, jumps, len);
      DecodeLabel(b', off, l, jumps, len);
      assert b[off + 1..off + 1 + |l|] == b'[off + 1..off + 1 + |l|];
      if len + |l| + 1 <= MAX_NAME {
        DecodeExtends(b, b', off + 1 + |l|, ls[1..], d, jumps, len + |l| + 1);
      }
    }
  }

  /** The names of the data, read out of their own bytes. */
  ghost function NamesOf(names: Bytes, e1: nat): Option<(seq<Bytes>, seq<Bytes>)> {
    match Decode(names, 0)
    case Failed(_) => None
    case Name(m, _) =>
      match Decode(names, e1)
      case Failed(_) => None
      case Name(r, _) => Some((m, r))
  }

  /** SOA data is read as its names and its timers, whatever the timers are. */
  lemma ReadSoaData(b: Bytes, e1: nat, e: nat, m: seq<Bytes>, r: seq<Bytes>)
    requires SoaData(b, e1, e, m, r)
    ensures SerialAt(b) == Some(e)
    ensures ReadSoa(b) == match NamesOf(b[..e], e1) case None => None case Some(n) => Some(Timers(b, e, n.0, n.1))
    ensures ReadSoa(b).Some? <==> TextSize(m) <= MAX_NAME && TextSize(r) <= MAX_NAME
    ensures ReadSoa(b).Some? ==> LowerLabels(ReadSoa(b).value.mname) == m && LowerLabels(ReadSoa(b).value.rname) == r
  {
    hide DecodeAt, Skip, Spells, GetU32, LowerLabels;
    var names := b[..e];
    DecodeExtends(names, b, 0, m, 0, 0, 0);
    DecodeExtends(names, b, e1, r, 1, 0, 0);
    SkipExtends(names, b, 0, 0, m, 0);
    SkipExtends(names, b, 0, e1, r, 1);
    SpelledDecodes(names, 0, 0, m, 0, 0, 0);
    SpelledDecodes(names, 0, e1, r, 1, 0, 0);
  }

  lemma RaisedData(b: Bytes, e1: nat, e: nat, m: seq<Bytes>, r: seq<Bytes>)
    requires SoaData(b, e1, e, m, r)
    ensures SerialAt(b) == Some(e) && |Raised(b)| == |b| && Raised(b)[..e] == b[..e] && SoaData(Raised(b), e1, e, m, r)
    ensures Raised(b)[e..e + 4] == PutU32(Next(GetU32(b[e..e + 4])))
    ensures forall i, j :: e + 4 <= i <= j <= |b| ==> Raised(b)[i..j] == b[i..j]
  {
    hide Skip, Spells, GetU32, PutU32, ReadSoa;
    ReadSoaData(b, e1, e, m, r);
    assert Raised(b)[..e] == b[..e];
  }

  /** Of data the writer produced, raising changes the serial alone: it goes up by one modulo 2^32. */
  lemma SerialPlusOne(b: Bytes, e1: nat, e: nat, m: seq<Bytes>, r: seq<Bytes>)
    requires SoaData(b, e1, e, m, r)
    ensures |Raised(b)| == |b| && SoaData(Raised(b), e1, e, m, r)
    ensures ReadSoa(Raised(b)) ==
            match ReadSoa(b) case None => None case Some(s) => Some(s.(serial := Next(s.serial)))
  {
    hide SoaData, ReadSoa, Raised, GetU32, PutU32, NamesOf;
    ReadSoaData(b, e1, e, m, r);
    RaisedData(b, e1, e, m, r);
    ReadSoaData(Raised(b), e1, e, m, r);
    U32RoundTrip(Next(GetU32(b[e..e + 4])));
  }

  // ---- writing ----

  function PutTimers(s: Soa): (t: Bytes)
    ensures |t| == TIMERS
  {
    PutU32(s.serial) + PutU32(s.refresh) + PutU32(s.retry) + PutU32(s.expire) + PutU32(s.minimum)
  }

  lemma TimersRoundTrip(b: Bytes, e: nat, s: Soa)
    requires e + TIMERS == |b| && b[e..] == PutTimers(s)
    ensures Timers(b, e, s.mname, s.rname) == s
  {
    hide PutU32, GetU32;
    var t := PutTimers(s);
    assert b[e..e + 4] == t[0..4] == PutU32(s.serial);
    assert b[e + 4..e + 8] == t[4..8] == PutU32(s.refresh);
    assert b[e + 8..e + 12] == t[8..12] == PutU32(s.retry);
    assert b[e + 12..e + 16] == t[12..16] == PutU32(s.expire);
    assert b[e + 16..e + 20] == t[16..20] == PutU32(s.minimum);
    U32RoundTrip(s.serial);
    U32RoundTrip(s.refresh);
    U32RoundTrip(s.retry);
    U32RoundTrip(s.expire);
    U32RoundTrip(s.minimum);
  }

  /** Writes the data at the start of an empty buffer, the second name compressed against the first. */
  method WriteSoa(w: PacketWriter, mname: Bytes, rname: Bytes, s: Soa) returns (err: Option<PackError>, ghost e1: nat)
    requires w.Valid() && w.offset == 0 && w.table == []
    modifies w, w.buf
    ensures w.Valid()
    ensures err.None? ==>
              var b := w.Written();
              && |b| >= TIMERS && b[|b| - TIMERS..] == PutTimers(s)
              && SoaData(b, e1, |b| - TIMERS, NameLabels(mname), NameLabels(rname))
    ensures err.Some? ==>
              var need := NameRoom(mname) + NameRoom(rname) + TIMERS;
              Justified(err.value, mname, need, w.cap) || Justified(err.value, rname, need, w.cap)
  {
    hide Spells, Skip, NameLabels, PutU32, TableOk, HasLongLabel, Left, KnownBytes;
    e1 := 0;
    assert TableOk([], 0, [], 0) by { NoTable(); }
    assert w.Written() == [];
    err := w.WriteDomain(mname, 0, 0, true);
    if err.Some? { return; }
    ghost var first := w.Written();
    e1 := w.offset;
    ghost var d := if w.table == [] then 0 else 1;
    err := w.WriteDomain(rname, 0, 0, true);
    if err.Some? { return; }
    ghost var names, e := w.Written(), w.offset;
    if w.offset + TIMERS > w.cap { return Some(BufferTooSmall), e1; }
    w.Emit(PutTimers(s));
    ghost var b := w.Written();
    assert b[..e] == names && b[e..] == PutTimers(s);
    NamesSpelled(first, names, e1, NameLabels(mname), NameLabels(rname), d);
    assert SoaData(b, e1, e, NameLabels(mname), NameLabels(rname));
  }

  lemma NoTable()
    ensures TableOk([], 0, [], 0)
  {
  }

  lemma NamesSpelled(first: Bytes, names: Bytes, e1: nat, m: seq<Bytes>, r: seq<Bytes>, d: nat)
    requires Spells(first, 0, 0, m, 0) && Skip(first, 0) == |first| == e1
    requires e1 <= |names| && names[..e1] == first && d <= 1
    requires Spells(names, 0, e1, r, d) && Skip(names, e1) == |names|
    ensures Spells(names, 0, 0, m, 0) && Skip(names, 0) == e1
    ensures Spells(names, 0, e1, r, 1) && Skip(names, e1) == |names|
  {
    hide Spells, Skip;
    forall i | 0 <= i < |first| ensures names[i] == first[i] {
      assert names[..e1][i] == names[i];
    }
    SpellsExtends(first, names, 0, 0, m, 0);
    SkipExtends(first, names, 0, 0, m, 0);
    SpellsMore(names, 0, e1, r, d, 1);
  }

  /** What was written reads back: names up to letter case, when they fit the decoder, and every timer. */
  lemma SoaRoundTrip(b: Bytes, e1: nat, m: seq<Bytes>, r: seq<Bytes>, s: Soa)
    requires |b| >= TIMERS && b[|b| - TIMERS..] == PutTimers(s) && SoaData(b, e1, |b| - TIMERS, m, r)
    ensures ReadSoa(b).Some? <==> TextSize(m) <= MAX_NAME && TextSize(r) <= MAX_NAME
    ensures ReadSoa(b).Some? ==>
              var got := ReadSoa(b).value;
              got == s.(mname := got.mname, rname := got.rname) && LowerLabels(got.mname) == m
              && LowerLabels(got.rname) == r
  {
    hide SoaData, ReadSoa, PutTimers, NamesOf;
    var e := |b| - TIMERS;
    ReadSoaData(b, e1, e, m, r);
    TimersRoundTrip(b, e, s);
  }
}
