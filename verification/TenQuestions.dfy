/**
 A response that packs but does not unpack (internal/dns): ten questions, each one label below the one before, and two
 records one label below the tenth. Every name points to the one before, so the last takes eleven jumps.
 */
module TenQuestions {
  import opened Octets
  import opened Records
  import opened WireNames
  import opened Compression
  import opened MessageLayout
  import opened Packing
  import opened Responses
  import opened Messages
  import opened RoundTrips

  const LAST := 10

  // ---- the names ----

  function ChainLabel(i: nat): Bytes
    requires i <= LAST
  {
    [97 + i]
  }

  /** "a", "b.a", "c.b.a" and so on. */
  function ChainName(i: nat): (s: Bytes)
    requires i <= LAST
    ensures |s| == 2 * i + 1
  {
    if i == 0 then ChainLabel(0) else ChainLabel(i) + [DOT] + ChainName(i - 1)
  }

  function ChainLabels(i: nat): (ls: seq<Bytes>)
    requires i <= LAST
    ensures |ls| == i + 1
  {
    [ChainLabel(i)] + if i == 0 then [] else ChainLabels(i - 1)
  }

  /** A letter and a dot before a text put one label before its labels. */
  lemma LabelsCons(c: Byte, rest: Bytes)
    requires c != DOT
    ensures NameLabels([c, DOT] + rest) == [LowerAll([c])] + NameLabels(rest)
  {
    hide LabelsFrom, LowerAll;
    var s := [c, DOT] + rest;
    LabelsUnfold(s, 0);
    assert NextDot(s, 1) == 1 && NextDot(s, 0) == 1 && s[0..1] == [c];
    assert s[2..] == rest && EqualFold(s[2..], rest);
    LabelsShift(s, 2, rest, 0);
  }

  lemma LabelsOfOne(c: Byte)
    requires c != DOT
    ensures NameLabels([c]) == [LowerAll([c])]
  {
    hide LabelsFrom, LowerAll;
    LabelsUnfold([c], 0);
    assert NextDot([c], 0) == 1 && [c][0..1] == [c];
  }

  lemma {:induction false} LabelsOfChain(i: nat)
    requires i <= LAST
    ensures NameLabels(ChainName(i)) == ChainLabels(i) && TextSize(ChainLabels(i)) == 2 * i + 2
  {
    hide NameLabels, LowerAll;
    LowerLetter(i);
    if i == 0 {
      LabelsOfOne(97);
      assert ChainLabels(0) == [ChainLabel(0)];
    } else {
      LabelsOfChain(i - 1);
      LabelsCons(97 + i, ChainName(i - 1));
      assert ChainName(i) == [97 + i, DOT] + ChainName(i - 1);
      assert ChainLabels(i)[1..] == ChainLabels(i - 1);
    }
  }

  lemma LowerLetter(i: nat)
    requires i <= LAST
    ensures LowerAll(ChainLabel(i)) == ChainLabel(i)
  {
  }

  // ---- the bytes ----

  function OffsetOf(i: nat): nat {
    if i == 0 then HEADER_LEN else 11 + 8 * i
  }

  /** The name at a place of the chain: the first is written out, the others point back. */
  function ChainBytes(i: nat): (s: Bytes)
    requires i <= LAST
    ensures |s| == if i == 0 then 3 else 4
  {
    if i == 0 then [1, 97, 0] else [1, 97 + i, JUMP_TAG, OffsetOf(i - 1)]
  }

  ghost predicate ChainAt(b: Bytes) {
    forall i :: 0 <= i <= LAST ==> LinkAt(b, i)
  }

  predicate LinkAt(b: Bytes, i: nat)
    requires i <= LAST
  {
    OffsetOf(i) + |ChainBytes(i)| <= |b| && b[OffsetOf(i)..OffsetOf(i) + |ChainBytes(i)|] == ChainBytes(i)
  }

  lemma LinkBytes(b: Bytes, i: nat)
    requires i <= LAST && LinkAt(b, i)
    ensures var o := OffsetOf(i);
            o + 2 < |b| && b[o] == 1 && b[o + 1] == 97 + i && (i == 0 ==> b[o + 2] == 0)
            && (i > 0 ==> o + 3 < |b| && b[o + 2] == JUMP_TAG && b[o + 3] == OffsetOf(i - 1))
            && LabelAt(b, o, ChainLabel(i))
  {
    var o := OffsetOf(i);
    var w := b[o..o + |ChainBytes(i)|];
    assert b[o] == w[0] && b[o + 1] == w[1] && b[o + 2] == w[2];
    if i > 0 { assert b[o + 3] == w[3]; }
    assert b[o + 1..o + 2] == ChainLabel(i);
    LowerLetter(i);
  }

  lemma ChainSkip(b: Bytes, i: nat)
    requires i <= LAST && LinkAt(b, i)
    ensures Skip(b, OffsetOf(i)) == OffsetOf(i) + |ChainBytes(i)|
  {
    LinkBytes(b, i);
    var o := OffsetOf(i);
    assert Skip(b, o) == Skip(b, o + 2);
  }

  /** The i-th name is spelled with i jumps. */
  lemma {:induction false} ChainSpells(b: Bytes, i: nat)
    requires ChainAt(b) && i <= LAST
    ensures Spells(b, HEADER_LEN, OffsetOf(i), ChainLabels(i), i)
  {
    hide LabelAt, LinkAt, Spells;
    assert LinkAt(b, i);
    LinkBytes(b, i);
    var o := OffsetOf(i);
    if i == 0 {
      SpellsRoot(b, HEADER_LEN, o + 2, 0);
      SpellsLabel(b, HEADER_LEN, o, ChainLabel(0), [], 0);
    } else {
      ChainSpells(b, i - 1);
      SpellsJump(b, HEADER_LEN, o + 2, ChainLabels(i - 1), i - 1);
      SpellsLabel(b, HEADER_LEN, o, ChainLabel(i), ChainLabels(i - 1), i);
    }
  }

  /** With too few jumps left the decoder gives up on it. */
  lemma {:induction false} ChainFails(b: Bytes, i: nat, jumps: nat, len: nat)
    requires ChainAt(b) && i <= LAST && jumps <= MAX_JUMPS < jumps + i && len + 2 * i + 2 <= MAX_NAME
    ensures DecodeAt(b, OffsetOf(i), jumps, len) == Failed(TooManyJumps)
  {
    hide DecodeAt, LabelAt, LinkAt;
    assert LinkAt(b, i);
    LinkBytes(b, i);
    var o := OffsetOf(i);
    DecodeLabel(b, o, ChainLabel(i), jumps, len);
    DecodePointer(b, o + 2, jumps, len + 2);
    if jumps == MAX_JUMPS {
      NoJumpsLeft(b, OffsetOf(i - 1), len + 2);
    } else {
      ChainFails(b, i - 1, jumps + 1, len + 2);
    }
  }

  lemma NoJumpsLeft(b: Bytes, off: nat, len: nat)
    requires len <= MAX_NAME
    ensures DecodeAt(b, off, MAX_JUMPS + 1, len) == Failed(TooManyJumps)
  {
  }

  // ---- the message ----

  const ASKED: Bytes := [0, 1, 0, 1]

  function Ask(i: nat): Question
    requires i <= LAST
  {
    Question(ChainName(i), 1, 1)
  }

  function Asks(n: nat): (qs: seq<Question>)
    requires n <= LAST
    ensures |qs| == n && forall i :: 0 <= i < n ==> qs[i] == Ask(i)
  {
    if n == 0 then [] else Asks(n - 1) + [Ask(n - 1)]
  }

  function ChainRequest(id: U16, flags: U16): Request {
    Request(id, flags, Asks(LAST), 0, false)
  }

  function ChainReply(t: U16, ttl: U32, x: Bytes, y: Bytes): Reply {
    Reply(0, ZERO_SET, ZERO_SET, RRSet(t, CLASS_IN, ttl, [x, y]), ChainName(LAST), ZERO_SET, ZERO_SET)
  }

  function ChainRecord(t: U16, ttl: U32, x: Bytes): RR {
    RR(ChainName(LAST), t, CLASS_IN, ttl, x)
  }

  lemma ChainSections(id: U16, flags: U16, t: U16, ttl: U32, x: Bytes, y: Bytes)
    ensures var m, res := ChainRequest(id, flags), ChainReply(t, ttl, x, y);
            && Answers(m, res) == [] && Additionals(m, res) == []
            && Authorities(m, res) == [ChainRecord(t, ttl, x), ChainRecord(t, ttl, y)]
  {
  }

  /** The bytes of the first n names and questions. */
  function ChainQuestions(n: nat): (s: Bytes)
    requires n <= LAST
    ensures |s| == OffsetOf(n) - HEADER_LEN
  {
    if n == 0 then [] else ChainQuestions(n - 1) + ChainBytes(n - 1) + ASKED
  }

  function ChainHead(id: U16, flags: U16): (h: Bytes)
    ensures |h| == HEADER_LEN
  {
    PutU16(id) + PutU16(flags) + PutU16(10) + PutU16(0) + PutU16(2) + PutU16(0)
  }

  function ChainMessage(id: U16, flags: U16, t: U16, ttl: U32, x: Bytes, y: Bytes): Bytes {
    ChainHead(id, flags) + ChainQuestions(LAST)
    + (ChainBytes(LAST) + FixedPart(ChainRecord(t, ttl, x)) + x)
    + ([JUMP_TAG, OffsetOf(LAST)] + FixedPart(ChainRecord(t, ttl, y)) + y)
  }

  lemma {:induction false} QuestionsPrefix(n: nat, i: nat)
    requires i < n <= LAST
    ensures ChainQuestions(i + 1) <= ChainQuestions(n)
    decreases n
  {
    if i + 1 < n { QuestionsPrefix(n - 1, i); }
  }

  lemma PartsOf(q: Bytes, c: Bytes, a: Bytes)
    ensures var s := q + c + a; s[|q|..|q| + |c|] == c && s[|q| + |c|..|s|] == a
  {
  }

  lemma QuestionBytes(b: Bytes, i: nat)
    requires i < LAST && HEADER_LEN + |ChainQuestions(LAST)| <= |b|
    requires b[HEADER_LEN..HEADER_LEN + |ChainQuestions(LAST)|] == ChainQuestions(LAST)
    ensures LinkAt(b, i) && AskedAt(b, i)
  {
    QuestionsPrefix(LAST, i);
    var all, part := ChainQuestions(LAST), ChainQuestions(i + 1);
    assert part == ChainQuestions(i) + ChainBytes(i) + ASKED;
    PartsOf(ChainQuestions(i), ChainBytes(i), ASKED);
    PartLies(b, all, part, i);
  }

  lemma PartLies(b: Bytes, all: Bytes, part: Bytes, i: nat)
    requires i < LAST && HEADER_LEN + |all| <= |b| && b[HEADER_LEN..HEADER_LEN + |all|] == all
    requires part <= all && |part| == OffsetOf(i + 1) - HEADER_LEN
    requires var k := OffsetOf(i) - HEADER_LEN; part[k..k + |ChainBytes(i)|] == ChainBytes(i)
    requires part[|part| - 4..|part|] == ASKED
    ensures LinkAt(b, i) && b[OffsetOf(i + 1) - 4..OffsetOf(i + 1)] == ASKED
  {
    hide ChainBytes;
    var k, n, e := OffsetOf(i) - HEADER_LEN, |ChainBytes(i)|, |part|;
    SliceOfSlice(b, HEADER_LEN, HEADER_LEN + |all|, k, k + n);
    SliceOfSlice(b, HEADER_LEN, HEADER_LEN + |all|, e - 4, e);
    assert part == all[..e];
    SliceOfSlice(all, 0, e, k, k + n);
    SliceOfSlice(all, 0, e, e - 4, e);
    assert all[0..e] == part;
  }

  /** Where the parts of the message lie. */
  lemma ChainLies(id: U16, flags: U16, t: U16, ttl: U32, x: Bytes, y: Bytes)
    ensures
      var b := ChainMessage(id, flags, t, ttl, x, y);
      var mid := OffsetOf(LAST) + 14 + |x|;
      && |b| == mid + 12 + |y|
      && b[..HEADER_LEN] == ChainHead(id, flags)
      && b[HEADER_LEN..OffsetOf(LAST)] == ChainQuestions(LAST)
      && LinkAt(b, LAST)
      && b[OffsetOf(LAST) + 4..OffsetOf(LAST) + 14] == FixedPart(ChainRecord(t, ttl, x))
      && b[OffsetOf(LAST) + 14..mid] == x
      && b[mid] == JUMP_TAG && b[mid + 1] == OffsetOf(LAST)
      && b[mid + 2..mid + 12] == FixedPart(ChainRecord(t, ttl, y)) && b[mid + 12..] == y
  {
    hide ChainHead, ChainQuestions, FixedPart, ChainRecord;
    var h, q := ChainHead(id, flags), ChainQuestions(LAST);
    var f, g := FixedPart(ChainRecord(t, ttl, x)), FixedPart(ChainRecord(t, ttl, y));
    var c, j := ChainBytes(LAST), [JUMP_TAG, OffsetOf(LAST)];
    var b := ChainMessage(id, flags, t, ttl, x, y);
    assert |q| == OffsetOf(LAST) - HEADER_LEN;
    assert b == h + q + c + f + x + j + g + y;
  }

  predicate AskedAt(b: Bytes, i: nat) {
    OffsetOf(i + 1) <= |b| && b[OffsetOf(i + 1) - 4..OffsetOf(i + 1)] == ASKED
  }

  lemma ChainQuestionLies(b: Bytes, i: nat)
    requires ChainAt(b) && i < LAST && AskedAt(b, i)
    ensures QuestionAt(b, OffsetOf(i), Ask(i), OffsetOf(i + 1), LAST + 1)
  {
    hide LinkAt, Spells, NameLabels, ChainName, ChainLabels;
    assert LinkAt(b, i);
    ChainSkip(b, i);
    ChainSpells(b, i);
    LabelsOfChain(i);
    SpellsMore(b, HEADER_LEN, OffsetOf(i), ChainLabels(i), i, LAST + 1);
    assert ASKED == PutU16(1) + PutU16(1);
  }

  lemma {:induction false} ChainQuestionsLie(b: Bytes, i: nat)
    requires ChainAt(b) && i <= LAST && forall k :: 0 <= k < LAST ==> AskedAt(b, k)
    ensures QuestionsAt(b, OffsetOf(i), Asks(LAST)[i..], OffsetOf(LAST), LAST + 1)
    decreases LAST - i
  {
    hide ChainAt, AskedAt, QuestionAt, Ask, Asks;
    var qs := Asks(LAST);
    if i == LAST {
      assert qs[i..] == [];
    } else {
      ChainQuestionsLie(b, i + 1);
      assert qs[i..][0] == Ask(i) && qs[i..][1..] == qs[i + 1..];
      ChainQuestionLies(b, i);
    }
  }

  function ChainMarks(b: Bytes): Marks {
    Marks(OffsetOf(LAST), OffsetOf(LAST), |b|, |b|)
  }

  lemma SecondSpells(b: Bytes, mid: nat)
    requires ChainAt(b) && OffsetOf(LAST) < mid && mid + 1 < |b| && b[mid] == JUMP_TAG && b[mid + 1] == OffsetOf(LAST)
    ensures Spells(b, HEADER_LEN, mid, ChainLabels(LAST), LAST + 1) && Skip(b, mid) == mid + 2
  {
    hide ChainAt, Spells;
    ChainSpells(b, LAST);
    SpellsJump(b, HEADER_LEN, mid, ChainLabels(LAST), LAST);
  }

  lemma FirstLies(b: Bytes, t: U16, ttl: U32, x: Bytes)
    requires ChainAt(b) && OffsetOf(LAST) + 14 + |x| <= |b|
    requires b[OffsetOf(LAST) + 4..OffsetOf(LAST) + 14] == FixedPart(ChainRecord(t, ttl, x))
    requires b[OffsetOf(LAST) + 14..OffsetOf(LAST) + 14 + |x|] == x
    ensures PackedAt(b, OffsetOf(LAST), ChainRecord(t, ttl, x), OffsetOf(LAST) + 14 + |x|, LAST + 1)
  {
    hide LinkAt, Spells, NameLabels, FixedPart, ChainName, ChainLabels;
    assert LinkAt(b, LAST);
    ChainSkip(b, LAST);
    ChainSpells(b, LAST);
    LabelsOfChain(LAST);
    SpellsMore(b, HEADER_LEN, OffsetOf(LAST), ChainLabels(LAST), LAST, LAST + 1);
  }

  lemma SecondLies(b: Bytes, mid: nat, t: U16, ttl: U32, y: Bytes)
    requires ChainAt(b) && OffsetOf(LAST) < mid && mid + 12 + |y| == |b|
    requires b[mid] == JUMP_TAG && b[mid + 1] == OffsetOf(LAST)
    requires b[mid + 2..mid + 12] == FixedPart(ChainRecord(t, ttl, y)) && b[mid + 12..|b|] == y
    ensures PackedAt(b, mid, ChainRecord(t, ttl, y), |b|, LAST + 1)
  {
    hide ChainAt, Spells, NameLabels, FixedPart, ChainName, ChainLabels;
    LabelsOfChain(LAST);
    SecondSpells(b, mid);
  }

  /** The two records take ten jumps and eleven. */
  lemma ChainRecordsLie(b: Bytes, t: U16, ttl: U32, x: Bytes, y: Bytes)
    requires ChainAt(b)
    requires
      var mid := OffsetOf(LAST) + 14 + |x|;
      && |b| == mid + 12 + |y|
      && b[OffsetOf(LAST) + 4..OffsetOf(LAST) + 14] == FixedPart(ChainRecord(t, ttl, x))
      && b[OffsetOf(LAST) + 14..mid] == x
      && b[mid] == JUMP_TAG && b[mid + 1] == OffsetOf(LAST)
      && b[mid + 2..mid + 12] == FixedPart(ChainRecord(t, ttl, y)) && b[mid + 12..] == y
    ensures AllPackedAt(b, OffsetOf(LAST), [ChainRecord(t, ttl, x), ChainRecord(t, ttl, y)], |b|, LAST + 1)
  {
    hide ChainAt, PackedAt, FixedPart, ChainRecord;
    var mid := OffsetOf(LAST) + 14 + |x|;
    var r, s := ChainRecord(t, ttl, x), ChainRecord(t, ttl, y);
    FirstLies(b, t, ttl, x);
    assert b[mid + 12..|b|] == y;
    SecondLies(b, mid, t, ttl, y);
    RecordsOne(b, OffsetOf(LAST), r, mid, LAST + 1);
    RecordsOne(b, mid, s, |b|, LAST + 1);
    RecordsAppend(b, OffsetOf(LAST), [r], mid, [s], |b|, LAST + 1);
    assert [r] + [s] == [r, s];
  }

  /** The second of them does not decode, so ten jumps do not suffice. */
  lemma NotInTen(b: Bytes, t: U16, ttl: U32, x: Bytes, y: Bytes)
    requires ChainAt(b)
    requires var mid := OffsetOf(LAST) + 14 + |x|;
             mid + 1 < |b| && b[mid] == JUMP_TAG && b[mid + 1] == OffsetOf(LAST)
    ensures !AllPackedAt(b, OffsetOf(LAST), [ChainRecord(t, ttl, x), ChainRecord(t, ttl, y)], |b|, MAX_JUMPS)
  {
    hide ChainAt, PackedAt, ChainRecord;
    var mid, r, s := OffsetOf(LAST) + 14 + |x|, ChainRecord(t, ttl, x), ChainRecord(t, ttl, y);
    SecondFails(b, mid);
    assert [r, s][1..] == [s] && [s][1..] == [];
    forall k: nat | PackedAt(b, OffsetOf(LAST), r, k, MAX_JUMPS) ensures k == mid { FirstEnds(b, t, ttl, x, k); }
    forall e: nat ensures !PackedAt(b, mid, s, e, MAX_JUMPS) { NotPacked(b, mid, s, e); }
  }

  lemma SecondFails(b: Bytes, mid: nat)
    requires ChainAt(b) && OffsetOf(LAST) < mid && mid + 1 < |b| && b[mid] == JUMP_TAG && b[mid + 1] == OffsetOf(LAST)
    ensures Decode(b, mid) == Failed(TooManyJumps)
  {
    hide ChainAt, DecodeAt;
    DecodePointer(b, mid, 0, 0);
    ChainFails(b, LAST, 1, 0);
  }

  lemma NotPacked(b: Bytes, off: nat, r: RR, e: nat)
    requires Decode(b, off) == Failed(TooManyJumps)
    ensures !PackedAt(b, off, r, e, MAX_JUMPS)
  {
    hide Spells, NameLabels, FixedPart, DecodeAt;
    if Spells(b, HEADER_LEN, off, NameLabels(r.owner), MAX_JUMPS) {
      SpelledDecodes(b, HEADER_LEN, off, NameLabels(r.owner), MAX_JUMPS, 0, 0);
    }
  }

  lemma FirstEnds(b: Bytes, t: U16, ttl: U32, x: Bytes, e: nat)
    requires ChainAt(b) && PackedAt(b, OffsetOf(LAST), ChainRecord(t, ttl, x), e, MAX_JUMPS)
    ensures e == OffsetOf(LAST) + 14 + |x|
  {
    hide LinkAt, Spells, NameLabels, FixedPart;
    assert LinkAt(b, LAST);
    ChainSkip(b, LAST);
  }

  lemma ChainReadable(id: U16, flags: U16, t: U16, ttl: U32, x: Bytes, y: Bytes)
    ensures Readable(FullBody(ChainRequest(id, flags), ChainReply(t, ttl, x, y), false))
  {
    hide NameLabels, ChainName, Answers, Authorities, Additionals, Asks;
    ChainSections(id, flags, t, ttl, x, y);
    forall i | 0 <= i <= LAST ensures ShortName(ChainName(i)) { LabelsOfChain(i); }
    var m := ChainRequest(id, flags);
    forall i | 0 <= i < |m.questions| ensures ShortName(m.questions[i].name) && m.questions[i].qtype != TYPE_OPT {
      assert m.questions[i] == Ask(i);
    }
  }

  /** The message with the flags of its response. */
  function ChainOut(id: U16, flags: U16, t: U16, ttl: U32, x: Bytes, y: Bytes): Bytes {
    ChainMessage(id, ResponseFlags(flags, ChainReply(t, ttl, x, y)), t, ttl, x, y)
  }

  lemma ChainLinks(b: Bytes)
    requires OffsetOf(LAST) <= |b| && b[HEADER_LEN..OffsetOf(LAST)] == ChainQuestions(LAST) && LinkAt(b, LAST)
    ensures ChainAt(b) && forall k :: 0 <= k < LAST ==> AskedAt(b, k)
  {
    hide LinkAt, AskedAt, ChainQuestions;
    forall i | 0 <= i < LAST ensures LinkAt(b, i) && AskedAt(b, i) { QuestionBytes(b, i); }
  }

  /**
   As PackResponse lays it out, with two more jumps than the questions need, the response is complete, and Unpack
   refuses it.
   */
  lemma {:induction false} PacksButDoesNotUnpack(id: U16, flags: U16, t: U16, ttl: U32, x: Bytes, y: Bytes)
    requires |x| + |y| <= 512
    ensures
      var m, res, out := ChainRequest(id, flags), ChainReply(t, ttl, x, y), ChainOut(id, flags, t, ttl, x, y);
      && |m.questions| == MAX_QUESTIONS && |out| <= MAX_TCP && Readable(FullBody(m, res, false))
      && Laid(out, FullBody(m, res, false), ChainMarks(out), LastDepth(|m.questions|) + 2)
      && !Laid(out, FullBody(m, res, false), ChainMarks(out), MAX_JUMPS)
      && Unpack(out).None?
  {
    hide ChainMessage, ResponseFlags, QuestionsAt, AllPackedAt, PackedAt, Answers, Authorities, Additionals, ChainAt,
         LinkAt, AskedAt, PutU16, Readable, Unpack, FixedPart, ChainRecord, ChainQuestions, Asks;
    var m, res, out := ChainRequest(id, flags), ChainReply(t, ttl, x, y), ChainOut(id, flags, t, ttl, x, y);
    var at := ChainMarks(out);
    ChainLies(id, ResponseFlags(flags, res), t, ttl, x, y);
    ChainSections(id, flags, t, ttl, x, y);
    ChainReadable(id, flags, t, ttl, x, y);
    ChainLinks(out);
    ChainQuestionsLie(out, 0);
    assert Asks(LAST)[0..] == Asks(LAST);
    ChainRecordsLie(out, t, ttl, x, y);
    RecordsNone(out, OffsetOf(LAST), LAST + 1);
    RecordsNone(out, |out|, LAST + 1);
    NotInTen(out, t, ttl, x, y);
    UnpacksIff(out, FullBody(m, res, false), at, LAST + 1);
  }
}
