/** Cutting a response down to its question when the rate limiter lets one slip (internal/dns/pack.go). */
module Slips {
  import opened Octets
  import opened Records
  import opened WireNames
  import opened Compression
  import opened MessageLayout
  import opened Packing
  import opened Responses
  import opened Messages
  import opened RoundTrips

  /** The header with TC set and no records counted, and everything behind it. */
  function Slipped(b: Bytes): (r: Bytes)
    requires |b| >= HEADER_LEN
    ensures |r| == |b|
    ensures forall i :: 0 <= i < |b| ==> r[i] == if i == 2 then WithTC(b[2]) else if 6 <= i < 12 then 0 else b[i]
  {
    b[..2] + [WithTC(b[2]), b[3]] + b[4..6] + [0, 0, 0, 0, 0, 0] + b[HEADER_LEN..]
  }

  /** Behind the first question, or behind the header when there is none. */
  function SlipEnd(b: Bytes): (n: nat)
    requires |b| >= HEADER_LEN
    ensures HEADER_LEN <= n <= |b|
  {
    var e := Skip(b, HEADER_LEN);
    if e >= 0 && e + 4 <= |b| then e + 4 else HEADER_LEN
  }

  /** Walks over the labels of the first question. */
  method FirstQuestionEnd(buf: array<Byte>, written: nat) returns (n: nat)
    requires HEADER_LEN <= written <= buf.Length
    ensures n == SlipEnd(buf[..written])
  {
    var offset, found := HEADER_LEN, false;
    ghost var b := buf[..written];
    while offset < written && !found
      invariant HEADER_LEN <= offset
      invariant if found then Skip(b, HEADER_LEN) == offset else Skip(b, HEADER_LEN) == Skip(b, offset)
      decreases written - offset, if found then 0 else 1
    {
      assert buf[offset] == b[offset];
      var len: int := buf[offset];
      if len == 0 {
        offset, found := offset + 1, true;
      } else if len >= JUMP_TAG {
        offset, found := offset + 2, true;
      } else {
        offset := offset + 1 + len;
      }
    }
    offset := offset + 4;
    if offset <= written { return offset; }
    return HEADER_LEN;
  }

  /** Skipping looks at nothing before its start. */
  lemma {:induction false} SkipSame(b: Bytes, b': Bytes, off: nat)
    requires |b| == |b'| && forall i :: off <= i < |b| ==> b[i] == b'[i]
    ensures Skip(b, off) == Skip(b', off)
    decreases |b| - off
  {
    if off < |b| && 0 < b[off] < JUMP_TAG { SkipSame(b, b', off + 1 + b[off]); }
  }

  method TruncateToSlip(buf: array<Byte>, written: nat) returns (n: nat)
    modifies buf
    ensures buf.Length < HEADER_LEN || written < HEADER_LEN || written > buf.Length ==>
              n == written && buf[..] == old(buf[..])
    ensures HEADER_LEN <= written <= buf.Length ==>
              && buf[..written] == Slipped(old(buf[..written])) && n == SlipEnd(old(buf[..written]))
              && buf[written..] == old(buf[written..])
  {
    hide Slipped, Skip, WithTC;
    if buf.Length < HEADER_LEN || written < HEADER_LEN || written > buf.Length { return written; }
    ghost var b := buf[..written];
    buf[2] := WithTC(buf[2]);
    buf[6], buf[7], buf[8], buf[9], buf[10], buf[11] := 0, 0, 0, 0, 0, 0;
    assert buf[..written] == Slipped(b);
    assert buf[written..] == old(buf[written..]);
    SkipSame(b, buf[..written], HEADER_LEN);
    n := FirstQuestionEnd(buf, written);
  }

  // ---- what a slip is ----

  lemma {:induction false} PlainPrefix(b: Bytes, b': Bytes, lo: nat, off: nat, ls: seq<Bytes>)
    requires Spells(b, lo, off, ls, 0) && Skip(b, off) <= |b'| && forall i :: lo <= i < |b'| <= |b| ==> b'[i] == b[i]
    requires |b'| <= |b|
    ensures Spells(b', lo, off, ls, 0) && Skip(b', off) == Skip(b, off)
    decreases |ls|
  {
    hide LowerAll;
    if ls != [] {
      var l := ls[0];
      SkipBeyond(b, off + 1 + |l|);
      PlainPrefix(b, b', lo, off + 1 + |l|, ls[1..]);
      assert b'[off + 1..off + 1 + |l|] == b[off + 1..off + 1 + |l|];
    }
  }

  lemma SkipBeyond(b: Bytes, off: nat)
    ensures Skip(b, off) >= 0 ==> Skip(b, off) > off
  {
  }

  /** TC is set, identifier and number of questions stay, and no records are counted. */
  lemma SlipHeader(b: Bytes, n: nat)
    requires HEADER_LEN <= n <= |b|
    ensures var r := Slipped(b)[..n];
            && ReadCounts(r) == Counts(ReadCounts(b).qd, 0, 0, 0) && r[..2] == b[..2]
            && r[2] == WithTC(b[2]) && r[3] == b[3] && r[2] / 2 % 2 == 1
  {
    hide GetU16, Slipped, WithTC;
    var r := Slipped(b)[..n];
    assert r[..2] == b[..2] && r[4..6] == b[4..6];
    assert r[6..8] == [r[6], r[7]] && r[8..10] == [r[8], r[9]] && r[10..12] == [r[10], r[11]];
    Nothing();
    SetsBit(b[2]);
  }

  lemma Nothing()
    ensures GetU16([0, 0]) == 0
  {
  }

  lemma SetsBit(x: Byte)
    ensures WithTC(x) / 2 % 2 == 1
  {
    if x / 2 % 2 == 0 { DivisionUnique(x + 2, 2, x / 2 + 1, x % 2); }
  }

  /** The slip of a response holds its first question and ends right behind it. */
  lemma SlipHoldsFirst(out: Bytes, qs: seq<Question>)
    requires |out| >= HEADER_LEN && qs != [] && FirstPlain(out, qs)
    ensures var n := SlipEnd(out); n > HEADER_LEN && QuestionAt(Slipped(out)[..n], HEADER_LEN, qs[0], n, 0)
  {
    hide NameLabels, PutU16, Slipped, WithTC, Spells;
    var e: nat :| QuestionAt(out, HEADER_LEN, qs[0], e, 0);
    var n := SlipEnd(out);
    var r := Slipped(out)[..n];
    assert n == e == Skip(out, HEADER_LEN) + 4;
    assert forall i :: HEADER_LEN <= i < n ==> r[i] == out[i];
    PlainPrefix(out, r, HEADER_LEN, HEADER_LEN, NameLabels(qs[0].name));
    var x, y := r[n - 4..n], out[n - 4..n];
    assert |x| == |y| && forall i :: 0 <= i < |x| ==> x[i] == y[i];
  }

  lemma QuestionsCounted(out: Bytes, x: Body, at: Marks, j: nat)
    requires Laid(out, x, at, j) && |x.questions| <= MAX_QUESTIONS
    ensures ReadCounts(out).qd == |x.questions|
  {
    hide PutU16, GetU16, AllPackedAt, QuestionsAt, PackedAt;
    SliceOfSlice(out, 0, HEADER_LEN, 4, 6);
    assert out[..HEADER_LEN][4..6] == PutU16(|x.questions|);
    U16RoundTrip(|x.questions|);
  }

  lemma PackedCounts(out: Bytes, m: Request, res: Reply, cap: nat, at: Marks, j: nat)
    requires Packed(out, m, res, cap, at, j) && |m.questions| <= MAX_QUESTIONS
    ensures |out| >= HEADER_LEN && ReadCounts(out).qd == |m.questions| && FirstPlain(out, m.questions)
  {
    hide ReadCounts, FirstPlain, QuestionsAt, AllPackedAt, AnswersFit, Circular, Misleads;
    if !Misleads(m, res, cap) { QuestionsCounted(out, FitBody(m, res, cap), at, j); }
  }

  /** A message that ends behind its first question and counts n of them. */
  lemma FirstOnly(r: Bytes, qs: seq<Question>)
    requires |qs| <= MAX_QUESTIONS && Askable(qs) && |r| >= HEADER_LEN && ReadCounts(r) == Counts(|qs|, 0, 0, 0)
    requires qs != [] ==> QuestionAt(r, HEADER_LEN, qs[0], |r|, 0)
    ensures Unpack(r).Some? <==> |qs| <= 1
    ensures Unpack(r).Some? ==>
              && AllSame(Unpack(r).value.questions, qs) && Unpack(r).value.edns == NO_EDNS
              && Unpack(r).value.counts == ReadCounts(r) && Unpack(r).value.flags == GetU16(r[2..4])
  {
    hide GetU16, ReadQuestion, QuestionAt, ShortName, SameQuestion, ReadCounts;
    if qs != [] {
      ReadsQuestion(r, HEADER_LEN, qs[0], |r|, 0);
      NothingBehind(r);
      var rest := ReadQuestions(r, |r|, |qs| - 1);
      assert rest == if |qs| == 1 then Some(AskedAll([], |r|)) else None;
      assert ReadQuestions(r, HEADER_LEN, |qs|).Some? <==> |qs| == 1;
    }
  }

  lemma NothingBehind(r: Bytes)
    ensures ReadQuestion(r, |r|) == None
  {
  }

  lemma FlagOf(a: Byte, b: Byte)
    ensures GetU16([a, b]) / 0x200 % 2 == a / 2 % 2
  {
    DivisionUnique(a * 256 + b, 0x200, a / 2, a % 2 * 256 + b);
  }

  /**
   The slip of any response that PackResponse makes unpacks if and only if the query had at most one question, for only
   the first is kept while all stay counted: then to that question, with TC and without records or EDNS.
   */
  lemma SlipUnpacksIff(out: Bytes, m: Request, res: Reply, cap: nat, at: Marks, j: nat)
    requires Packed(out, m, res, cap, at, j) && |m.questions| <= MAX_QUESTIONS && Askable(m.questions)
    ensures |out| >= HEADER_LEN
    ensures var r := Unpack(Slipped(out)[..SlipEnd(out)]);
            && (r.Some? <==> |m.questions| <= 1)
            && (r.Some? ==>
                  && AllSame(r.value.questions, m.questions) && r.value.edns == NO_EDNS
                  && r.value.counts == Counts(|m.questions|, 0, 0, 0) && r.value.flags / 0x200 % 2 == 1)
  {
    hide Packed, Unpack, ReadCounts, Slipped, SlipEnd, QuestionAt, Askable, AllSame, FirstPlain, GetU16;
    PackedCounts(out, m, res, cap, at, j);
    var n := SlipEnd(out);
    var r := Slipped(out)[..n];
    SlipHeader(out, n);
    if m.questions != [] { SlipHoldsFirst(out, m.questions); }
    FirstOnly(r, m.questions);
    assert r[2..4] == [r[2], r[3]];
    FlagOf(r[2], r[3]);
  }
}
