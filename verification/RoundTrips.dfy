/** What a packed response reads back as, name by name, and how many jumps that takes (internal/dns). */
module RoundTrips {
  import opened Octets
  import opened Records
  import opened WireNames
  import opened Compression
  import opened MessageLayout
  import opened Packing
  import opened WritePlans
  import opened Responses
  import opened Messages

  // ---- owners and records ----

  /** What reads back is the name itself, up to case and a closing dot, exactly when it has no empty label. */
  lemma NamedAsIff(text: Bytes, name: Bytes)
    requires NamedAs(text, name)
    ensures LowerAll(text) == LowerAll(Unclosed(name)) <==> NoEmptyLabel(name, 0) || name == [DOT]
  {
    TextOfLabelsIff(name);
  }

  /** The decoder finds the owner at off, and the fixed fields and the data behind it. */
  ghost predicate ReadsBack(b: Bytes, off: nat, r: RR) {
    var d := Decode(b, off);
    && d.Name? && NamedAs(NameText(d.labels), r.owner)
    && d.next + 10 + |r.rdata| <= |b|
    && b[d.next..d.next + 10] == FixedPart(r) && b[d.next + 10..d.next + 10 + |r.rdata|] == r.rdata
  }

  lemma RecordReadsBack(b: Bytes, off: nat, r: RR, e: nat, j: nat)
    requires PackedAt(b, off, r, e, j) && j <= MAX_JUMPS && ShortName(r.owner)
    ensures ReadsBack(b, off, r)
  {
    hide Spells, DecodeAt, NameLabels, TextSize, NameText, FixedPart, LowerAll;
    SpelledDecodes(b, HEADER_LEN, off, NameLabels(r.owner), j, 0, 0);
    LowerNameText(Decode(b, off).labels);
  }

  /** Skipping i records from off leads to the i-th one. */
  lemma {:induction false} RecordsReadBack(b: Bytes, off: nat, rs: seq<RR>, e: nat, j: nat, i: nat)
    requires AllPackedAt(b, off, rs, e, j) && j <= MAX_JUMPS && AllShort(rs) && |b| <= MAX_TCP && i < |rs|
    ensures SkipRecords(b, off, i).Some? && ReadsBack(b, SkipRecords(b, off, i).value, rs[i])
    decreases |rs|
  {
    hide PackedAt, ReadsBack, SkipRecord, ShortName;
    var m: nat :| PackedAt(b, off, rs[0], m, j) && AllPackedAt(b, m, rs[1..], e, j);
    if i == 0 {
      RecordReadsBack(b, off, rs[0], m, j);
    } else {
      SkipsRecord(b, off, rs[0], m, j);
      RecordsReadBack(b, m, rs[1..], e, j, i - 1);
    }
  }

  function AllRecords(x: Body): seq<RR> {
    x.an + x.ns + x.ar
  }

  /** Every record of a packed message reads back: its owner by the decoder, its fields and data byte for byte. */
  lemma PackedRecordsRead(out: Bytes, x: Body, at: Marks, j: nat, i: nat)
    requires Laid(out, x, at, j) && j <= MAX_JUMPS && |out| <= MAX_TCP
    requires |x.questions| <= MAX_QUESTIONS && Readable(x) && i < |AllRecords(x)|
    ensures var asked := ReadQuestions(out, HEADER_LEN, |x.questions|);
            && asked.Some?
            && var off := SkipRecords(out, asked.value.end, i);
               off.Some? && ReadsBack(out, off.value, AllRecords(x)[i])
  {
    hide AllPackedAt, QuestionsAt, PackedAt, PutU16, Askable, AllShort, NoOPT, SkipRecords, ReadQuestions, ReadsBack;
    ReadsQuestions(out, HEADER_LEN, x.questions, at.questions, j);
    RecordsAppend(out, at.questions, x.an, at.answers, x.ns, at.authorities, j);
    RecordsAppend(out, at.questions, x.an + x.ns, at.authorities, x.ar, at.additionals, j);
    ShortAppend(x.an, x.ns);
    ShortAppend(x.an + x.ns, x.ar);
    RecordsReadBack(out, at.questions, x.an + x.ns + x.ar, at.additionals, j, i);
  }

  // ---- ten jumps, exactly ----

  /** A spelled name the decoder accepts takes no more jumps than the decoder had left. */
  lemma {:induction false} DecodedInJumps(b: Bytes, lo: nat, off: nat, ls: seq<Bytes>, d: nat, jumps: nat, len: nat)
    requires Spells(b, lo, off, ls, d) && jumps <= MAX_JUMPS && len <= MAX_NAME && DecodeAt(b, off, jumps, len).Name?
    ensures Spells(b, lo, off, ls, MAX_JUMPS - jumps)
    decreases d, |ls|
  {
    hide LowerAll;
    var o: int := b[off];
    if o >= JUMP_TAG {
      DecodedInJumps(b, lo, (o - JUMP_TAG) * 256 + b[off + 1], ls, d - 1, jumps + 1, len);
    } else if o != 0 {
      DecodedInJumps(b, lo, off + 1 + |ls[0]|, ls[1..], d, jumps, len + |ls[0]| + 1);
    }
  }

  lemma QuestionInJumps(b: Bytes, off: nat, q: Question, e: nat, j: nat)
    requires QuestionAt(b, off, q, e, j) && ReadQuestion(b, off).Some?
    ensures QuestionAt(b, off, q, e, MAX_JUMPS)
  {
    hide Spells, DecodeAt, NameLabels;
    DecodedInJumps(b, HEADER_LEN, off, NameLabels(q.name), j, 0, 0);
  }

  lemma {:induction false} QuestionsInJumps(b: Bytes, off: nat, qs: seq<Question>, e: nat, j: nat)
    requires QuestionsAt(b, off, qs, e, j) && ReadQuestions(b, off, |qs|).Some? && Askable(qs)
    ensures QuestionsAt(b, off, qs, e, MAX_JUMPS)
    decreases |qs|
  {
    hide QuestionAt, ReadQuestion, ShortName;
    if qs != [] {
      var m: nat :| QuestionAt(b, off, qs[0], m, j) && QuestionsAt(b, m, qs[1..], e, j);
      QuestionInJumps(b, off, qs[0], m, j);
      ReadsQuestion(b, off, qs[0], m, MAX_JUMPS);
      QuestionsInJumps(b, m, qs[1..], e, j);
    }
  }

  lemma RecordInJumps(b: Bytes, off: nat, r: RR, e: nat, j: nat)
    requires PackedAt(b, off, r, e, j) && Decode(b, off).Name?
    ensures PackedAt(b, off, r, e, MAX_JUMPS)
  {
    hide Spells, DecodeAt, NameLabels, FixedPart;
    DecodedInJumps(b, HEADER_LEN, off, NameLabels(r.owner), j, 0, 0);
  }

  lemma {:induction false} RecordsInJumps(b: Bytes, off: nat, rs: seq<RR>, e: nat, j: nat)
    requires AllPackedAt(b, off, rs, e, j) && SkipRecords(b, off, |rs|).Some? && AllShort(rs) && |b| <= MAX_TCP
    ensures AllPackedAt(b, off, rs, e, MAX_JUMPS)
    decreases |rs|
  {
    hide PackedAt, Decode, ShortName, GetU16;
    if rs != [] {
      var m: nat :| PackedAt(b, off, rs[0], m, j) && AllPackedAt(b, m, rs[1..], e, j);
      RecordInJumps(b, off, rs[0], m, j);
      SkipsRecord(b, off, rs[0], m, MAX_JUMPS);
      RecordsInJumps(b, m, rs[1..], e, j);
    }
  }

  lemma {:induction false} AdditionalInJumps(b: Bytes, off: nat, rs: seq<RR>, n: nat, e: nat, j: nat)
    requires AllPackedAt(b, off, rs, e, j) && |rs| <= n && ReadAdditional(b, off, n, None).Some?
    requires AllShort(rs) && NoOPT(rs) && |b| <= MAX_TCP
    ensures AllPackedAt(b, off, rs, e, MAX_JUMPS) && ReadAdditional(b, e, n - |rs|, None).Some?
    decreases |rs|
  {
    hide PackedAt, Decode, ShortName, GetU16, ReadOPT;
    if rs != [] {
      var m: nat :| PackedAt(b, off, rs[0], m, j) && AllPackedAt(b, m, rs[1..], e, j);
      RecordInJumps(b, off, rs[0], m, j);
      AdditionalStep(b, off, rs[0], m, MAX_JUMPS, n, None);
      AdditionalInJumps(b, m, rs[1..], n - 1, e, j);
    }
  }

  lemma {:induction false} QuestionsInside(b: Bytes, off: nat, qs: seq<Question>, e: nat, j: nat)
    requires QuestionsAt(b, off, qs, e, j) && off <= |b|
    ensures e <= |b|
    decreases |qs|
  {
    hide Spells, NameLabels;
    if qs != [] {
      var m: nat :| QuestionAt(b, off, qs[0], m, j) && QuestionsAt(b, m, qs[1..], e, j);
      QuestionsInside(b, m, qs[1..], e, j);
    }
  }

  /** A packed message unpacks exactly when none of its names takes more than ten jumps. */
  lemma UnpacksIff(out: Bytes, x: Body, at: Marks, j: nat)
    requires Laid(out, x, at, j) && |out| <= MAX_TCP && |x.questions| <= MAX_QUESTIONS && Readable(x)
    ensures Unpack(out).Some? <==> Laid(out, x, at, MAX_JUMPS)
  {
    hide Laid, Unpack, Readable;
    if Laid(out, x, at, MAX_JUMPS) { PackedUnpacks(out, x, at, MAX_JUMPS); }
    if Unpack(out).Some? { UnpackedInJumps(out, x, at, j); }
  }

  lemma UnpackedInJumps(out: Bytes, x: Body, at: Marks, j: nat)
    requires Laid(out, x, at, j) && |out| <= MAX_TCP
    requires |x.questions| <= MAX_QUESTIONS && Readable(x) && Unpack(out).Some?
    ensures Laid(out, x, at, MAX_JUMPS)
  {
    hide PutU16, GetU16, AllPackedAt, QuestionsAt, PackedAt, Askable, AllShort, NoOPT, SkipRecords, ReadAdditional,
         ReadQuestions, ReadCounts, AllSame;
    QuestionsInside(out, HEADER_LEN, x.questions, at.questions, j);
    SectionCounts(out, x, at, j);
    CountsOf(out, x, at, j);
    QuestionsInJumps(out, HEADER_LEN, x.questions, at.questions, j);
    ReadsQuestions(out, HEADER_LEN, x.questions, at.questions, MAX_JUMPS);
    RecordsAppend(out, at.questions, x.an, at.answers, x.ns, at.authorities, j);
    ShortAppend(x.an, x.ns);
    RecordsInJumps(out, at.questions, x.an + x.ns, at.authorities, j);
    SkipsRecords(out, at.questions, x.an + x.ns, at.authorities, MAX_JUMPS);
    FirstRecords(out, at.questions, x.an, at.answers, x.ns, at.authorities, j);
    AdditionalInJumps(out, at.authorities, x.ar, |x.ar| + if x.opt.Some? then 1 else 0, at.additionals, j);
    if x.opt.Some? { OptInJumps(out, x.opt.value, at, j); }
  }

  lemma OptInJumps(out: Bytes, opt: RR, at: Marks, j: nat)
    requires PackedAt(out, at.additionals, opt, |out|, j) && ReadAdditional(out, at.additionals, 1, None).Some?
    ensures PackedAt(out, at.additionals, opt, |out|, MAX_JUMPS)
  {
    hide PackedAt, Decode, GetU16, ReadOPT;
    RecordInJumps(out, at.additionals, opt, |out|, j);
  }

  /** Both parts of the records that were skipped together take at most ten jumps. */
  lemma FirstRecords(b: Bytes, off: nat, xs: seq<RR>, mid: nat, ys: seq<RR>, e: nat, j: nat)
    requires AllPackedAt(b, off, xs, mid, j) && AllPackedAt(b, mid, ys, e, j) && AllShort(xs) && AllShort(ys)
    requires SkipRecords(b, off, |xs + ys|).Some? && |b| <= MAX_TCP
    ensures AllPackedAt(b, off, xs, mid, MAX_JUMPS) && AllPackedAt(b, mid, ys, e, MAX_JUMPS)
  {
    hide AllPackedAt, SkipRecords, AllShort;
    SkipsSum(b, off, |xs|, |ys|);
    RecordsInJumps(b, off, xs, mid, j);
    SkipsRecords(b, off, xs, mid, MAX_JUMPS);
    RecordsInJumps(b, mid, ys, e, j);
  }

  lemma {:induction false} SkipsSum(b: Bytes, off: nat, x: nat, y: nat)
    ensures SkipRecords(b, off, x + y) ==
            if SkipRecords(b, off, x).None? then None else SkipRecords(b, SkipRecords(b, off, x).value, y)
    decreases x
  {
    hide SkipRecord;
    if x > 0 && SkipRecord(b, off).Some? { SkipsSum(b, SkipRecord(b, off).value, x - 1, y); }
  }

  // ---- whole responses, cut or not ----

  /** A pointer to itself is refused, so the message does not unpack. */
  lemma CircularFails(out: Bytes, m: Request, res: Reply, cap: nat, at: Marks, j: nat)
    requires Misleads(m, res, cap) && Packed(out, m, res, cap, at, j) && |out| <= MAX_TCP
    requires Askable(m.questions) && AllShort(AnswersFit(m, res, cap)) && |m.questions| <= MAX_QUESTIONS
    ensures Unpack(out).None?
  {
    hide GetU16, PutU16, AllPackedAt, QuestionsAt, Askable, AllShort, SkipRecord, ReadAdditional, ReadQuestions,
         ReadCounts, AllSame, AnswersFit, Misleads, AfterAnswers;
    if Unpack(out).Some? {
      var an, c := AnswersFit(m, res, cap), ReadCounts(out);
      QuestionsInJumps(out, HEADER_LEN, m.questions, at.questions, j);
      ReadsQuestions(out, HEADER_LEN, m.questions, at.questions, MAX_JUMPS);
      RecordsLength(out, at.questions, an, at.answers, j);
      SkipsSum(out, at.questions, c.an, c.ns);
      RecordsInJumps(out, at.questions, an, at.answers, j);
      SkipsRecords(out, at.questions, an, at.answers, MAX_JUMPS);
      assert SkipRecord(out, at.answers).Some?;
      SelfRefused(out, at.answers);
      assert false;
    }
  }

  lemma SelfRefused(b: Bytes, off: nat)
    requires off <= MAX_POINTER && Behind(b, off, PutU16(0xC000 + off))
    ensures SkipRecord(b, off).None?
  {
    var p := b[off..off + 2];
    assert b[off] == p[0] && b[off + 1] == p[1];
    DivisionUnique(0xC000 + off, 256, 0xC0 + off / 256, off % 256);
  }

  /**
   With fewer than ten questions every response PackResponse makes, cut or not, unpacks if and only if no pointer of it
   leads to itself: to the same questions, with TC exactly when something was left out, and the records that fit.
   */
  lemma ResponseUnpacksIff(out: Bytes, m: Request, res: Reply, cap: nat, at: Marks)
    requires Packed(out, m, res, cap, at, LastDepth(|m.questions|) + 2) && |out| <= MAX_TCP
    requires |m.questions| < MAX_QUESTIONS && Readable(FitBody(m, res, cap))
    ensures Unpack(out).Some? <==> !Misleads(m, res, cap)
    ensures !Misleads(m, res, cap) ==>
              var r, x := Unpack(out).value, FitBody(m, res, cap);
              && AllSame(r.questions, m.questions) && r.id == m.id && r.flags == FlagsOf(m, res, FullEnd(m, res) > cap)
              && r.counts == Counts(|m.questions|, |x.an|, |x.ns|, |x.ar| + if x.opt.Some? then 1 else 0)
  {
    hide Laid, Unpack, AllSame, Misleads, AnswersFit, AuthoritiesFit, AdditionalsFit, FullEnd, FlagsOf, Opening,
         Circular, Askable, AllShort, FitEnd;
    if Misleads(m, res, cap) {
      CircularFails(out, m, res, cap, at, LastDepth(|m.questions|) + 2);
    } else {
      PackedUnpacks(out, FitBody(m, res, cap), at, LastDepth(|m.questions|) + 2);
    }
  }

  /** With fewer than ten questions no name of a complete message takes too many jumps: it always unpacks. */
  lemma FewQuestionsUnpack(out: Bytes, x: Body, at: Marks)
    requires Laid(out, x, at, LastDepth(|x.questions|) + 2) && |out| <= MAX_TCP
    requires |x.questions| < MAX_QUESTIONS && Readable(x)
    ensures var r := Unpack(out); r.Some? && AllSame(r.value.questions, x.questions)
  {
    hide Laid, Unpack, Readable, AllSame;
    PackedUnpacks(out, x, at, LastDepth(|x.questions|) + 2);
  }

  // ---- the failing case ----

  function SmallRequest(): Request {
    Request(1, 0, [Question([97], 1, CLASS_IN)], 0, true)
  }

  /** Authority under a name of its own, too long for 60 bytes, and a signature that is not. */
  function SmallReply(x: Bytes, sig: Bytes): Reply {
    Reply(0, ZERO_SET, ZERO_SET, RRSet(TYPE_NS, CLASS_IN, 60, [x]), [98], RRSet(46, CLASS_IN, 60, [sig]), ZERO_SET)
  }

  lemma OneLetter(t: Track, c: Byte)
    requires c != DOT && !InTable(t.table, [c])
    ensures RealStart([c], 0) == 0 && FirstTake([c]) == 3 && [c][0..] == [c]
    ensures NameAfter(t, [c], 0) == Track(t.off + 3, Inserted(t.table, [c], t.off))
  {
    hide InTable;
    assert [c][0..] == [c];
    assert NextDot([c], 1) == 1 && NextDot([c], 0) == 1;
  }

  /** One question, DO set and 60 bytes of room: the signature is written as a pointer to itself. */
  lemma SmallCutMisleads(x: Bytes, sig: Bytes)
    requires 28 < |x| <= 0xFFFF && |sig| <= 29
    ensures var m, res := SmallRequest(), SmallReply(x, sig);
            Misleads(m, res, 60) && AfterQuestions(m).off == 19 && |m.questions| < MAX_QUESTIONS
  {
    var m, res := SmallRequest(), SmallReply(x, sig);
    var t := AfterQuestions(m);
    NothingKnown([97]);
    OneLetter(Track(HEADER_LEN, []), 97);
    assert m.questions[..0] == [];
    assert t == Track(19, [Suffix([97], 12)]);
    assert AnswerRecords(m, res) == [] && AnswerSigs(m, res) == [];
    NoPair(t, 60);
    assert AfterAnswers(m, res, 60) == t;
    assert !InTable(t.table, [98]) by { assert !EqualFold([97], [98]) by { assert Lower(97) != Lower(98); } }
    OneLetter(t, 98);
    var a, s := AuthorityRecords(m, res), AuthoritySigs(m, res);
    assert a == [RR([98], TYPE_NS, CLASS_IN, 60, x)] && s == [RR([98], 46, CLASS_IN, 60, sig)];
    assert RecordAfter(t, a[0]).off > 60;
  }
}
