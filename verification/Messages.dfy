/** Whole responses: PackResponse (internal/dns/pack.go) and Unpack (internal/dns/unpack.go). */
module Messages {
  import opened Octets
  import opened Records
  import opened WireNames
  import opened Compression
  import opened MessageLayout
  import opened WritePlans
  import opened Packing
  import opened Responses

  // ---- packing ----

  /** A set and its signatures as far as they fit, or a pointer to itself; suffixes entered before stay in place. */
  ghost predicate PairLaid(b: Bytes, now: Track, good: nat, was: Track, owner: Bytes, a: seq<RR>, s: seq<RR>,
                           count: nat, d: nat, cap: nat)
  {
    var fits, covered := PairFits(was, a, s, cap), Covered(was.table, owner, was.off);
    && |was.table| <= good <= |now.table| && was.table <= now.table
    && TableOk(b, HEADER_LEN, now.table[..good], if covered then d else d + 1)
    && if Misled(was, owner, a, s, cap)
       then was.off <= MAX_POINTER && Behind(b, was.off, PutU16(0xC000 + was.off)) && count > 0
       else
         && count == |fits| % 0x1_0000 && now.off == PairAfter(was, a, s, cap).off
         && AllPackedAt(b, was.off, fits, now.off, if covered then d + 1 else d + 2)
         && (!Lost(was, owner, a, cap) ==> now == PairAfter(was, a, s, cap) && good == |now.table|)
  }

  /** A record set and, if wanted, its signatures. */
  method WriteWithSig(w: PacketWriter, owner: Bytes, s: RRSet, sig: RRSet, wanted: bool, ghost d: nat)
    returns (err: Option<PackError>, count: U16)
    requires w.Valid() && w.HeaderOk() && w.Sound(d) && w.Intact() && s.rdata != []
    modifies w, w.buf
    ensures w.Valid() && w.HeaderOk() && w.Kept()
    ensures err.None? ==>
              var a, g := RecordsUnder(owner, s), if wanted then RecordsUnder(owner, sig) else [];
              && PairLaid(w.Written(), w.Place(), w.good, old(w.Place()), owner, a, g, count, d, w.cap)
              && (w.truncated <==> old(w.truncated) || |PairFits(old(w.Place()), a, g, w.cap)| < |a| + |g|)
    ensures err.Some? ==> err.value != BufferTooSmall && Justified(err.value, owner, 0, w.cap)
  {
    hide PairLaid, PairFits, SetDone, Covered, TableOk, Justified, Laying, SetReached;
    ghost var was, a, g := w.Place(), RecordsUnder(owner, s), if wanted then RecordsUnder(owner, sig) else [];
    var n, n';
    err, n := w.WriteRRSet(owner, s, d);
    if err.Some? { return err, 0; }
    ghost var b, mid, good := w.Written(), w.Place(), w.good;
    ghost var d' := DepthAt(was, |was.table|, owner, n, d);
    SetSound(b, mid, good, was, |was.table|, owner, a, n, d, w.cap);
    if wanted && sig.rdata != [] {
      err, n' := w.WriteRRSet(owner, sig, d');
      if err.Some? { return err, 0; }
    } else {
      n' := 0;
      NoSigs(b, mid, good, owner, d', w.cap);
    }
    PairJoin(b, mid, good, n, w.Written(), w.Place(), w.good, n', was, owner, a, g, d, w.cap);
    count := (n % 0x1_0000 + n' % 0x1_0000) % 0x1_0000;
  }

  lemma SetSound(b: Bytes, now: Track, good: nat, was: Track, g: nat, owner: Bytes, rs: seq<RR>, count: nat, d: nat,
                 cap: nat)
    requires SetDone(b, now, good, was, g, owner, rs, count, d, cap)
    ensures good <= |now.table| && TableOk(b, HEADER_LEN, now.table[..good], DepthAt(was, g, owner, count, d))
    ensures count <= |rs|
  {
    hide TableOk, Covered, Known, SetReached;
  }

  lemma NoSigs(b: Bytes, now: Track, good: nat, owner: Bytes, d: nat, cap: nat)
    requires good <= |now.table| && AllUsable(now.table) && TableOk(b, HEADER_LEN, now.table[..good], d)
    ensures SetDone(b, now, good, now, good, owner, [], 0, d, cap)
  {
    hide TableOk, Covered, Known;
  }

  /** What both parts leave. */
  lemma PairJoin(b: Bytes, mid: Track, good: nat, n: nat, b': Bytes, now: Track, good': nat, n': nat, was: Track,
                 owner: Bytes, a: seq<RR>, s: seq<RR>, d: nat, cap: nat)
    requires SetDone(b, mid, good, was, |was.table|, owner, a, n, d, cap) && AllUsable(mid.table)
    requires SetDone(b', now, good', mid, good, owner, s, n', DepthAt(was, |was.table|, owner, n, d), cap)
    requires Extends(b, b', HEADER_LEN) && a != [] && a[0].owner == owner && AllUnder(owner, s)
    requires |a| <= 0xFFFF && |s| <= 0xFFFF
    ensures PairLaid(b', now, good', was, owner, a, s, (n % 0x1_0000 + n' % 0x1_0000) % 0x1_0000, d, cap)
    ensures n < |a| || n' < |s| <==> |PairFits(was, a, s, cap)| < |a| + |s|
  {
    if Lost(was, owner, a, cap) {
      JoinLost(b, mid, good, n, b', now, good', n', was, owner, a, s, d, cap);
    } else {
      JoinKept(b, mid, good, n, b', now, good', n', was, owner, a, s, d, cap);
    }
  }

  lemma {:induction false} JoinKept(b: Bytes, mid: Track, good: nat, n: nat, b': Bytes, now: Track, good': nat, n': nat,
                                    was: Track, owner: Bytes, a: seq<RR>, s: seq<RR>, d: nat, cap: nat)
    requires SetDone(b, mid, good, was, |was.table|, owner, a, n, d, cap) && AllUsable(mid.table)
    requires SetDone(b', now, good', mid, good, owner, s, n', DepthAt(was, |was.table|, owner, n, d), cap)
    requires Extends(b, b', HEADER_LEN) && a != [] && !Lost(was, owner, a, cap)
    ensures PairLaid(b', now, good', was, owner, a, s, (n % 0x1_0000 + n' % 0x1_0000) % 0x1_0000, d, cap)
    ensures n < |a| || n' < |s| <==> |PairFits(was, a, s, cap)| < |a| + |s|
  {
    hide TableOk, Covered, Known, AllPackedAt, RecordsAfter, Fit, Left, KnownBytes, Behind;
    var covered := Covered(was.table, owner, was.off);
    var j, d' := if covered then d + 1 else d + 2, DepthAt(was, |was.table|, owner, n, d);
    if n == 0 { SetStarts(was, a); }
    assert Covered(mid.table, owner, mid.off);
    var fits := a[..n] + s[..n'];
    assert fits == PairFits(was, a, s, cap);
    AfterAppend(was, a[..n], s[..n']);
    RecordsExtend(b, b', was.off, a[..n], mid.off, j, j);
    RecordsExtend(b', b', mid.off, s[..n'], now.off, d' + 1, j);
    RecordsAppend(b', was.off, a[..n], mid.off, s[..n'], now.off, j);
    SumModulo(n, n');
  }

  lemma {:induction false} JoinLost(b: Bytes, mid: Track, good: nat, n: nat, b': Bytes, now: Track, good': nat, n': nat,
                                    was: Track, owner: Bytes, a: seq<RR>, s: seq<RR>, d: nat, cap: nat)
    requires SetDone(b, mid, good, was, |was.table|, owner, a, n, d, cap) && AllUsable(mid.table)
    requires SetDone(b', now, good', mid, good, owner, s, n', DepthAt(was, |was.table|, owner, n, d), cap)
    requires Extends(b, b', HEADER_LEN) && a != [] && a[0].owner == owner && AllUnder(owner, s)
    requires |s| <= 0xFFFF && Lost(was, owner, a, cap)
    ensures PairLaid(b', now, good', was, owner, a, s, (n % 0x1_0000 + n' % 0x1_0000) % 0x1_0000, d, cap)
    ensures n < |a| || n' < |s| <==> |PairFits(was, a, s, cap)| < |a| + |s|
  {
    hide TableOk, Covered, Known, AllPackedAt, RecordsAfter, Fit, KnownBytes, Behind, NameAfter, FirstTake, Inserted,
         PutU16;
    AfterLost(was, mid, owner, a, s, cap);
    LostUnknown(was, owner, a, cap);
    if Known(mid.table, owner) { KnownHere(mid.table, owner, mid.off); }
    if n' == 0 { SetStarts(mid, s); }
    SetStarts(was, []);
    RecordsNone(b', was.off, d + 2);
    TableExtends(b', b', HEADER_LEN, now.table[..good'], d, d + 1);
  }

  lemma SumModulo(a: nat, b: nat)
    ensures (a % 0x1_0000 + b % 0x1_0000) % 0x1_0000 == (a + b) % 0x1_0000
  {
  }

  /** The owner name of some record cannot be written. */
  ghost predicate OwnerAtFault(e: PackError, m: Request, res: Reply, cap: nat) {
    && m.questions != [] && e != BufferTooSmall
    && (Justified(e, m.questions[0].name, 0, cap) || Justified(e, AuthorityOwner(m, res), 0, cap))
  }

  lemma NoPair(t: Track, cap: nat)
    ensures PairFits(t, [], [], cap) == [] && PairAfter(t, [], [], cap) == t
  {
  }

  method WriteAnswers(w: PacketWriter, m: Request, res: Reply, ghost d: nat)
    returns (err: Option<PackError>, count: U16)
    requires w.Valid() && w.HeaderOk() && w.Sound(d) && w.Intact()
    requires m.questions != [] ==> Known(w.table, m.questions[0].name)
    modifies w, w.buf
    ensures w.Valid() && w.HeaderOk() && w.Kept()
    ensures err.None? ==>
              var was, a, g := old(w.Place()), AnswerRecords(m, res), AnswerSigs(m, res);
              var fits := PairFits(was, a, g, w.cap);
              && w.Place() == PairAfter(was, a, g, w.cap) && w.Intact() && w.Sound(d)
              && count == |fits| % 0x1_0000 && AllPackedAt(w.Written(), was.off, fits, w.offset, d + 1)
              && (w.truncated <==> old(w.truncated) || |fits| < |a| + |g|)
    ensures err.Some? ==> OwnerAtFault(err.value, m, res, w.cap)
  {
    hide AllPackedAt, Covered, TableOk, Justified, PairFits, PairAfter, Known;
    RecordsNone(w.Written(), w.offset, d + 1);
    NoPair(w.Place(), w.cap);
    if !HasAnswers(m, res) { return None, 0; }
    assert Covered(w.table, m.questions[0].name, w.offset) by { KnownHere(w.table, m.questions[0].name, w.offset); }
    err, count := WriteWithSig(w, m.questions[0].name, res.answer, res.answerSig, m.dnssecOk, d);
  }

  lemma KnownHere(table: seq<Suffix>, name: Bytes, off: nat)
    requires Known(table, name)
    ensures Covered(table, name, off)
  {
  }

  method WriteAuthorities(w: PacketWriter, m: Request, res: Reply, ghost d: nat)
    returns (err: Option<PackError>, count: U16)
    requires w.Valid() && w.HeaderOk() && w.Sound(d) && w.Intact()
    modifies w, w.buf
    ensures w.Valid() && w.HeaderOk() && w.Kept()
    ensures err.None? ==>
              var was, a, g := old(w.Place()), AuthorityRecords(m, res), AuthoritySigs(m, res);
              && PairLaid(w.Written(), w.Place(), w.good, was, AuthorityOwner(m, res), a, g, count, d, w.cap)
              && (w.truncated <==> old(w.truncated) || |PairFits(was, a, g, w.cap)| < |a| + |g|)
    ensures err.Some? ==> OwnerAtFault(err.value, m, res, w.cap)
  {
    hide AllPackedAt, Covered, TableOk, Justified, PairFits;
    if m.questions == [] || res.authority.rdata == [] {
      NothingLaid(w.Written(), w.Place(), AuthorityOwner(m, res), d, w.cap);
      assert w.table[..w.good] == w.table;
      return None, 0;
    }
    err, count := WriteWithSig(w, AuthorityOwner(m, res), res.authority, res.authoritySig, m.dnssecOk, d);
  }

  lemma NothingLaid(b: Bytes, now: Track, owner: Bytes, d: nat, cap: nat)
    requires TableOk(b, HEADER_LEN, now.table[..|now.table|], d)
    ensures PairLaid(b, now, |now.table|, now, owner, [], [], 0, d, cap) && PairFits(now, [], [], cap) == []
  {
    hide TableOk, Covered;
    NoPair(now, cap);
    RecordsNone(b, now.off, d);
    TableExtends(b, b, HEADER_LEN, now.table[..|now.table|], d, d + 1);
  }

  method WriteAdditionals(w: PacketWriter, m: Request, res: Reply, ghost d: nat)
    returns (err: Option<PackError>, count: U16)
    requires w.Valid() && w.HeaderOk() && w.Sound(d)
    requires m.questions != [] ==> Known(w.table[..w.good], m.questions[0].name)
    modifies w, w.buf
    ensures w.Valid() && w.HeaderOk() && w.Kept()
    ensures err.None? ==>
              var was, rs := old(w.Place()), Additionals(m, res);
              && count == Fit(was, rs, w.cap) && w.Place() == RecordsAfter(was, rs[..count])
              && AllPackedAt(w.Written(), was.off, rs[..count], w.offset, d + 1)
              && (w.truncated <==> old(w.truncated) || count < |rs|)
    ensures err.Some? ==> OwnerAtFault(err.value, m, res, w.cap)
  {
    hide AllPackedAt, Covered, TableOk, Justified, Known;
    RecordsNone(w.Written(), w.offset, d + 1);
    if !(res.rcode == 0 && m.questions != [] && res.additional.rdata != []) { return None, 0; }
    KnownGrows(w.table[..w.good], w.table, m.questions[0].name);
    KnownHere(w.table, m.questions[0].name, w.offset);
    var n;
    err, n := w.WriteRRSet(m.questions[0].name, res.additional, d);
    if err.Some? { return err, 0; }
    return err, n;
  }

  // ---- the sections together ----

  function Limit(buf: array<Byte>, maxSize: nat): nat {
    if maxSize > buf.Length then buf.Length else maxSize
  }

  /** Why a response cannot be packed at all. */
  ghost predicate Excused(e: Error, m: Request, res: Reply, cap: nat) {
    match e
    case TooManyQuestions => |m.questions| > MAX_QUESTIONS
    case ShortBuffer => cap < HEADER_LEN
    case Pack(c) =>
      if c == BufferTooSmall then AfterQuestions(m).off > cap
      else || OwnerAtFault(c, m, res, cap)
           || exists i :: 0 <= i < |m.questions| && Justified(c, m.questions[i].name, 0, cap)
  }

  /** Questions and answers as far as they fit. */
  ghost predicate Opening(b: Bytes, m: Request, res: Reply, cap: nat, at: Marks, j: nat) {
    && QuestionsAt(b, HEADER_LEN, m.questions, at.questions, j) && FirstPlain(b, m.questions)
    && AllPackedAt(b, at.questions, AnswersFit(m, res, cap), at.answers, j)
    && at.answers == AfterAnswers(m, res, cap).off
  }

  /** The sections behind the answers as far as they fit, and the OPT record if it fits. */
  ghost predicate Closing(b: Bytes, m: Request, res: Reply, cap: nat, at: Marks, j: nat) {
    && AllPackedAt(b, at.answers, AuthoritiesFit(m, res, cap), at.authorities, j)
    && AllPackedAt(b, at.authorities, AdditionalsFit(m, res, cap), at.additionals, j)
    && at.additionals == FitEnd(m, res, cap)
    && match FitBody(m, res, cap).opt
       case Some(opt) => PackedAt(b, at.additionals, opt, |b|, j)
       case None => at.additionals == |b|
  }

  /** The pointer behind the answers leads to itself. */
  ghost predicate Circular(b: Bytes, at: Marks) {
    at.answers <= MAX_POINTER && Behind(b, at.answers, PutU16(0xC000 + at.answers))
  }

  lemma OpeningExtends(b: Bytes, b': Bytes, m: Request, res: Reply, cap: nat, at: Marks, j: nat)
    requires Opening(b, m, res, cap, at, j) && Extends(b, b', HEADER_LEN)
    ensures Opening(b', m, res, cap, at, j)
  {
    hide QuestionsAt, AllPackedAt, AnswersFit, AfterAnswers, FirstPlain;
    QuestionsExtend(b, b', HEADER_LEN, m.questions, at.questions, j, j);
    PlainExtends(b, b', m.questions);
    RecordsExtend(b, b', at.questions, AnswersFit(m, res, cap), at.answers, j, j);
  }

  lemma ClosingExtends(b: Bytes, b': Bytes, m: Request, res: Reply, cap: nat, at: Marks, j: nat)
    requires Closing(b, m, res, cap, at, j) && Extends(b, b', HEADER_LEN) && |b'| == |b|
    ensures Closing(b', m, res, cap, at, j)
  {
    hide AllPackedAt, PackedAt, FitBody, AuthoritiesFit, AdditionalsFit, FitEnd;
    RecordsExtend(b, b', at.answers, AuthoritiesFit(m, res, cap), at.authorities, j, j);
    RecordsExtend(b, b', at.authorities, AdditionalsFit(m, res, cap), at.additionals, j, j);
    if FitBody(m, res, cap).opt.Some? {
      RecordExtends(b, b', at.additionals, FitBody(m, res, cap).opt.value, |b|, j, j);
    }
  }

  /** The numbers that go into the header. */
  ghost predicate Counted(m: Request, res: Reply, cap: nat, an: U16, ns: U16, ar: U16) {
    && an == |AnswersFit(m, res, cap)| % 0x1_0000
    && if Misleads(m, res, cap) then ns > 0
       else && ns == |AuthoritiesFit(m, res, cap)| % 0x1_0000
            && ar == (|AdditionalsFit(m, res, cap)| + if FitBody(m, res, cap).opt.Some? then 1 else 0) % 0x1_0000
  }

  lemma OpeningLaid(b: Bytes, b': Bytes, m: Request, res: Reply, cap: nat, at: Marks, d: nat)
    requires QuestionsAt(b, HEADER_LEN, m.questions, at.questions, d) && FirstPlain(b, m.questions)
    requires Extends(b, b', HEADER_LEN)
    requires AllPackedAt(b', at.questions, AnswersFit(m, res, cap), at.answers, d + 1)
    requires at.answers == AfterAnswers(m, res, cap).off
    ensures Opening(b', m, res, cap, at, d + 2)
  {
    hide QuestionsAt, AllPackedAt, AnswersFit, AfterAnswers, FirstPlain;
    QuestionsExtend(b, b', HEADER_LEN, m.questions, at.questions, d, d + 2);
    PlainExtends(b, b', m.questions);
    RecordsExtend(b', b', at.questions, AnswersFit(m, res, cap), at.answers, d + 1, d + 2);
  }

  lemma PairSound(b: Bytes, now: Track, good: nat, was: Track, m: Request, res: Reply, ns: nat, d: nat, cap: nat)
    requires PairLaid(b, now, good, was, AuthorityOwner(m, res), AuthorityRecords(m, res), AuthoritySigs(m, res),
                      ns, d, cap)
    ensures |was.table| <= good <= |now.table| && was.table <= now.table
    ensures TableOk(b, HEADER_LEN, now.table[..good], d + 1)
  {
    hide TableOk, Covered, PairFits, AllPackedAt;
    var d' := if Covered(was.table, AuthorityOwner(m, res), was.off) then d else d + 1;
    TableExtends(b, b, HEADER_LEN, now.table[..good], d', d + 1);
  }

  lemma GoesAstray(b: Bytes, out: Bytes, now: Track, good: nat, m: Request, res: Reply, an: U16, ns: U16, ar: U16,
                   d: nat, cap: nat, at: Marks)
    requires Misleads(m, res, cap) && Extends(b, out, HEADER_LEN) && HEADER_LEN <= AfterAnswers(m, res, cap).off
    requires PairLaid(b, now, good, AfterAnswers(m, res, cap), AuthorityOwner(m, res), AuthorityRecords(m, res),
                      AuthoritySigs(m, res), ns, d, cap)
    requires at.answers == AfterAnswers(m, res, cap).off && an == |AnswersFit(m, res, cap)| % 0x1_0000
    ensures Circular(out, at) && Counted(m, res, cap, an, ns, ar)
  {
    hide AfterAnswers, AuthorityRecords, AuthoritySigs, Misled, PairFits, TableOk, AnswersFit, PutU16;
    BehindExtends(b, out, at.answers, PutU16(0xC000 + at.answers));
  }

  /** The additional records written behind t. */
  ghost predicate Added(b: Bytes, t: Track, m: Request, res: Reply, more: nat, cap: nat, at: Marks, j: nat) {
    var rs := Additionals(m, res);
    && more == Fit(t, rs, cap) && at.additionals == RecordsAfter(t, rs[..more]).off
    && AllPackedAt(b, t.off, rs[..more], at.additionals, j)
  }

  lemma ClosingLaid(b3: Bytes, b4: Bytes, out: Bytes, t3: Track, good: nat, m: Request, res: Reply, an: U16, ns: U16,
                    ar: U16, more: U16, n: nat, d: nat, cap: nat, at: Marks)
    requires !Misleads(m, res, cap) && Extends(b3, b4, HEADER_LEN) && Extends(b4, out, HEADER_LEN)
    requires PairLaid(b3, t3, good, AfterAnswers(m, res, cap), AuthorityOwner(m, res), AuthorityRecords(m, res),
                      AuthoritySigs(m, res), ns, d, cap)
    requires at.answers == AfterAnswers(m, res, cap).off && at.authorities == t3.off
    requires AllUsable(t3.table) && AllUsable(AfterQuestions(m).table)
    requires m.questions != [] ==>
             Known(t3.table, m.questions[0].name) && Known(AfterQuestions(m).table, m.questions[0].name)
    requires Added(b4, t3, m, res, more, cap, at, d + 2)
    requires an == |AnswersFit(m, res, cap)| % 0x1_0000 && ar == (more + n) % 0x1_0000
    requires n == if m.ednsSize != 0 && cap - at.additionals >= 11 then 1 else 0
    requires if n == 0 then |out| == at.additionals else PackedAt(out, at.additionals, OptRecord(m, res), |out|, d + 2)
    ensures Closing(out, m, res, cap, at, d + 2)
    ensures Counted(m, res, cap, an, ns, ar)
    ensures more == |AdditionalsFit(m, res, cap)|
  {
    hide AfterAnswers, AuthorityRecords, AuthoritySigs, Misled, PairFits, TableOk, AnswersFit, Additionals,
         AfterQuestions, Known, AllUsable, AllPackedAt, PackedAt, OptRecord, RecordsAfter, Fit, Covered, Lost;
    AdditionalsSame(m, res, cap, t3);
    var j := if Covered(AfterAnswers(m, res, cap).table, AuthorityOwner(m, res), at.answers) then d + 1 else d + 2;
    RecordsExtend(b3, out, at.answers, AuthoritiesFit(m, res, cap), at.authorities, j, d + 2);
    RecordsExtend(b4, out, at.authorities, AdditionalsFit(m, res, cap), at.additionals, d + 2, d + 2);
  }

  /** The additional records go under a known name, so what the table holds besides does not matter. */
  lemma AdditionalsSame(m: Request, res: Reply, cap: nat, t: Track)
    requires t.off == AfterAuthorities(m, res, cap).off && AllUsable(t.table) && AllUsable(AfterQuestions(m).table)
    requires m.questions != [] ==>
             Known(t.table, m.questions[0].name) && Known(AfterQuestions(m).table, m.questions[0].name)
    ensures var rs := Additionals(m, res);
            && Fit(t, rs, cap) == Fit(AfterAuthorities(m, res, cap), rs, cap)
            && RecordsAfter(t, rs[..Fit(t, rs, cap)]).off == FitEnd(m, res, cap)
  {
    hide PairFits, AfterQuestions, Known, AllUsable, RecordsAfter, Fit, AnswerRecords, AnswerSigs, AuthorityRecords,
         AuthoritySigs;
    var rs, t' := Additionals(m, res), AfterAuthorities(m, res, cap);
    if rs != [] {
      RecordsUsable(AfterQuestions(m), PairFits(AfterQuestions(m), AnswerRecords(m, res), AnswerSigs(m, res), cap));
      RecordsUsable(AfterAnswers(m, res, cap),
                    PairFits(AfterAnswers(m, res, cap), AuthorityRecords(m, res), AuthoritySigs(m, res), cap));
      KnownGrows(AfterQuestions(m).table, t'.table, m.questions[0].name);
      KnownFit(t.table, t'.table, t.off, m.questions[0].name, rs, cap);
    } else {
      NoRecords(t, t', cap);
    }
  }

  lemma NoRecords(t: Track, t': Track, cap: nat)
    requires t.off == t'.off
    ensures Fit(t, [], cap) == Fit(t', [], cap) == 0 && RecordsAfter(t, []).off == RecordsAfter(t', []).off
  {
  }

  /** Records are cut off if and only if they do not all fit. */
  lemma TruncatedIff(m: Request, res: Reply, cap: nat, more: nat)
    requires AfterQuestions(m).off <= cap && (Misleads(m, res, cap) || more == |AdditionalsFit(m, res, cap)|)
    ensures FullEnd(m, res) > cap <==>
            || |AnswersFit(m, res, cap)| < |AnswerRecords(m, res)| + |AnswerSigs(m, res)|
            || |AuthoritiesFit(m, res, cap)| < |AuthorityRecords(m, res)| + |AuthoritySigs(m, res)|
            || more < |Additionals(m, res)|
  {
    hide AfterQuestions, FullEnd, AnswerRecords, AnswerSigs, AuthorityRecords, AuthoritySigs, Additionals, Answers,
         Authorities, Fit, RecordsAfter, AfterAnswers;
    SectionsSplit(m, res);
    FitsAllIff(m, res, cap);
    PairWhole(AfterQuestions(m), AnswerRecords(m, res), AnswerSigs(m, res), cap);
    PairWhole(AfterAnswers(m, res, cap), AuthorityRecords(m, res), AuthoritySigs(m, res), cap);
  }

  /** Everything after the questions; at says where the sections end. */
  method WriteSections(w: PacketWriter, m: Request, res: Reply)
    returns (err: Option<PackError>, an: U16, ns: U16, ar: U16, ghost at: Marks)
    requires w.Valid() && w.HeaderOk() && !w.truncated && w.Intact() && w.Place() == AfterQuestions(m)
    requires QuestionsAt(w.Written(), HEADER_LEN, m.questions, w.offset, LastDepth(|m.questions|))
    requires w.Sound(LastDepth(|m.questions|)) && FirstPlain(w.Written(), m.questions)
    requires m.questions != [] ==> Known(w.table, m.questions[0].name)
    modifies w, w.buf
    ensures w.Valid() && w.HeaderOk() && w.header == old(w.header)
    ensures err.None? ==>
              var j := LastDepth(|m.questions|) + 2;
              && (w.truncated <==> FullEnd(m, res) > w.cap) && Counted(m, res, w.cap, an, ns, ar)
              && Opening(w.Written(), m, res, w.cap, at, j)
              && if Misleads(m, res, w.cap) then Circular(w.Written(), at)
                 else Closing(w.Written(), m, res, w.cap, at, j)
    ensures err.Some? ==> OwnerAtFault(err.value, m, res, w.cap)
  {
    hide OwnerAtFault, QuestionsAt, AllPackedAt, Covered, TableOk, PackedAt, OptRecord, Known, PairLaid, Misleads,
         FirstPlain, PairFits, PairAfter, Additionals, AnswerRecords, AnswerSigs, AuthorityRecords, AuthoritySigs,
         FullEnd, AfterQuestions, Circular, Opening, Closing, Counted, RecordsAfter, Fit;
    ghost var d := LastDepth(|m.questions|);
    ar, at := 0, Marks(w.offset, 0, 0, 0);
    ghost var b1, t1, cap := w.Written(), w.table, w.cap;
    err, an := WriteAnswers(w, m, res, d);
    if err.Some? { return err, 0, 0, 0, at; }
    ghost var b2, t2 := w.Written(), w.Place();
    at := at.(answers := w.offset);
    err, ns := WriteAuthorities(w, m, res, d);
    if err.Some? { return err, 0, 0, 0, at; }
    ghost var b3, t3, good := w.Written(), w.Place(), w.good;
    at := at.(authorities := w.offset);
    PairSound(b3, t3, good, t2, m, res, ns, d, cap);
    if m.questions != [] { KnownGrows(t1, w.table[..w.good], m.questions[0].name); }
    err, ar := WriteAdditionals(w, m, res, d + 1);
    if err.Some? { return err, 0, 0, 0, at; }
    ghost var b4, more := w.Written(), ar;
    at := at.(additionals := w.offset);
    OptShape(m, res);
    var n := w.WriteEDNS0(m.ednsSize != 0, OptRecord(m, res), d + 2);
    ar := (ar + n) % 0x1_0000;
    OpeningLaid(b1, b2, m, res, cap, at, d);
    OpeningExtends(b2, w.Written(), m, res, cap, at, d + 2);
    if m.questions != [] { KnownGrows(t1, t3.table, m.questions[0].name); }
    if Misleads(m, res, cap) {
      GoesAstray(b3, w.Written(), t3, good, m, res, an, ns, ar, d, cap, at);
    } else {
      ClosingLaid(b3, b4, w.Written(), t3, good, m, res, an, ns, ar, more, n, d, cap, at);
    }
    TruncatedIff(m, res, cap, more);
  }

  lemma OptShape(m: Request, res: Reply)
    ensures OptRecord(m, res).owner == [] && OptRecord(m, res).rdata == [] && OptRecord(m, res).rtype == TYPE_OPT
  {
  }

  /** The header a response starts with. */
  function HeadOf(m: Request, res: Reply): (h: Bytes)
    requires |m.questions| <= MAX_QUESTIONS
    ensures |h| == HEADER_LEN
  {
    PutU16(m.id) + PutU16(ResponseFlags(m.flags, res)) + PutU16(|m.questions|) + [0, 0, 0, 0, 0, 0]
  }

  /** What PackResponse leaves in the first n bytes: the response as far as it fits, or a pointer to itself. */
  ghost predicate Packed(out: Bytes, m: Request, res: Reply, cap: nat, at: Marks, j: nat) {
    if Misleads(m, res, cap)
    then
      && |out| >= HEADER_LEN && Opening(out, m, res, cap, at, j) && Circular(out, at)
      && var c := ReadCounts(out); c.qd == |m.questions| && c.an == |AnswersFit(m, res, cap)| % 0x1_0000 && c.ns > 0
    else Laid(out, FitBody(m, res, cap), at, j) && FirstPlain(out, m.questions)
  }

  /** The header of a response with its flags and counts. */
  ghost predicate Headed(out: Bytes, m: Request, res: Reply, cut: bool, an: U16, ns: U16, ar: U16)
    requires |m.questions| <= MAX_QUESTIONS
  {
    && |out| >= HEADER_LEN
    && out[..HEADER_LEN] == PutU16(m.id) + PutU16(FlagsOf(m, res, cut)) + PutU16(|m.questions|)
                            + PutU16(an) + PutU16(ns) + PutU16(ar)
  }

  lemma FlagsPut(m: Request, res: Reply)
    ensures PutU16(FlagsOf(m, res, true)) ==
            [PutU16(ResponseFlags(m.flags, res))[0] + 2, PutU16(ResponseFlags(m.flags, res))[1]]
  {
    hide ResponseFlags;
    var f := ResponseFlags(m.flags, res);
    DivisionUnique(f + 0x200, 256, f / 256 + 2, f % 256);
  }

  lemma HeadWithCounts(b: Bytes, out: Bytes, m: Request, res: Reply, cut: bool, an: U16, ns: U16, ar: U16)
    requires |m.questions| <= MAX_QUESTIONS && |b| >= HEADER_LEN && |out| == |b| && HeadOf(m, res)[2] + 2 < 256
    requires b[..HEADER_LEN] == if cut then HeadOf(m, res)[2 := HeadOf(m, res)[2] + 2] else HeadOf(m, res)
    requires out[..HEADER_LEN] == b[..6] + PutU16(an) + PutU16(ns) + PutU16(ar)
    ensures Headed(out, m, res, cut, an, ns, ar)
  {
    hide ResponseFlags, FlagsOf, PutU16;
    var id, f, qd := PutU16(m.id), PutU16(ResponseFlags(m.flags, res)), PutU16(|m.questions|);
    FlagsPut(m, res);
    assert HeadOf(m, res)[..6] == id + f + qd && HeadOf(m, res)[2] == f[0];
    assert b[..6] == b[..HEADER_LEN][..6];
    if cut {
      assert HeadOf(m, res)[2 := f[0] + 2][..6] == id + [f[0] + 2, f[1]] + qd;
    }
    assert PutU16(FlagsOf(m, res, false)) == f by { FlagsKept(m, res); }
  }

  lemma FlagsKept(m: Request, res: Reply)
    ensures FlagsOf(m, res, false) == ResponseFlags(m.flags, res)
  {
  }

  lemma HeadReads(out: Bytes, m: Request, res: Reply, cut: bool, an: U16, ns: U16, ar: U16)
    requires |m.questions| <= MAX_QUESTIONS && Headed(out, m, res, cut, an, ns, ar)
    ensures ReadCounts(out) == Counts(|m.questions|, an, ns, ar)
  {
    hide PutU16, GetU16, FlagsOf;
    var h := out[..HEADER_LEN];
    SliceOfSlice(out, 0, HEADER_LEN, 4, 6);
    SliceOfSlice(out, 0, HEADER_LEN, 6, 8);
    SliceOfSlice(out, 0, HEADER_LEN, 8, 10);
    SliceOfSlice(out, 0, HEADER_LEN, 10, 12);
    assert h[4..6] == PutU16(|m.questions|) && h[6..8] == PutU16(an);
    assert h[8..10] == PutU16(ns) && h[10..12] == PutU16(ar);
    U16RoundTrip(|m.questions|);
    U16RoundTrip(an);
    U16RoundTrip(ns);
    U16RoundTrip(ar);
  }

  lemma PackedDone(b: Bytes, out: Bytes, m: Request, res: Reply, cap: nat, at: Marks, j: nat, an: U16, ns: U16, ar: U16)
    requires |m.questions| <= MAX_QUESTIONS && Extends(b, out, HEADER_LEN) && |out| == |b|
    requires Headed(out, m, res, FullEnd(m, res) > cap, an, ns, ar) && Counted(m, res, cap, an, ns, ar)
    requires Opening(b, m, res, cap, at, j) && HEADER_LEN <= AfterAnswers(m, res, cap).off
    requires if Misleads(m, res, cap) then Circular(b, at) else Closing(b, m, res, cap, at, j)
    ensures Packed(out, m, res, cap, at, j)
  {
    hide AnswersFit, AuthoritiesFit, AdditionalsFit, FullEnd, FitEnd, FlagsOf, QuestionsAt, AllPackedAt, PackedAt,
         OptRecord, PutU16, ReadCounts, Misleads, AfterAnswers;
    OpeningExtends(b, out, m, res, cap, at, j);
    if Misleads(m, res, cap) {
      BehindExtends(b, out, at.answers, PutU16(0xC000 + at.answers));
      HeadReads(out, m, res, FullEnd(m, res) > cap, an, ns, ar);
    } else {
      ClosingExtends(b, out, m, res, cap, at, j);
    }
  }

  /** Puts the counts into the header, which completes the message. */
  method CloseMessage(w: PacketWriter, m: Request, res: Reply, an: U16, ns: U16, ar: U16, ghost at: Marks)
    requires w.Valid() && w.HeaderOk() && |m.questions| <= MAX_QUESTIONS && w.header == HeadOf(m, res)
    requires var j := LastDepth(|m.questions|) + 2;
             && (w.truncated <==> FullEnd(m, res) > w.cap) && Counted(m, res, w.cap, an, ns, ar)
             && Opening(w.Written(), m, res, w.cap, at, j)
             && if Misleads(m, res, w.cap) then Circular(w.Written(), at)
                else Closing(w.Written(), m, res, w.cap, at, j)
    modifies w.buf
    ensures w.Valid() && HEADER_LEN <= w.offset
    ensures FlagBits(w.Written()[2], w.Written()[3], m, res)
    ensures w.Written()[2] / 2 % 2 == if FullEnd(m, res) > w.cap then 1 else 0
    ensures Packed(w.Written(), m, res, w.cap, at, LastDepth(|m.questions|) + 2)
  {
    hide Opening, Closing, Circular, Misleads, Counted, FullEnd, FlagBits, Packed, ResponseFlags, PutU16;
    ghost var b := w.Written();
    w.UpdateCounts(an, ns, ar);
    FlagsMean(m, res, if w.truncated then 1 else 0);
    HeadWithCounts(b, w.Written(), m, res, w.truncated, an, ns, ar);
    PackedDone(b, w.Written(), m, res, w.cap, at, LastDepth(|m.questions|) + 2, an, ns, ar);
  }

  lemma BehindHeader(m: Request, res: Reply, cap: nat)
    ensures HEADER_LEN <= AfterQuestions(m).off <= AfterAnswers(m, res, cap).off
  {
    hide RecordsAfter, QuestionsAfter, PairFits;
  }

  /** Header, questions and sections, as far as there is room for them. */
  method WriteMessage(w: PacketWriter, m: Request, res: Reply) returns (err: Option<PackError>, ghost at: Marks)
    requires w.Valid() && w.offset == 0 && w.table == [] && w.Intact() && !w.truncated && HEADER_LEN <= w.cap
    requires |m.questions| <= MAX_QUESTIONS
    modifies w, w.buf
    ensures w.Valid()
    ensures err.None? ==>
              && HEADER_LEN <= w.offset && FlagBits(w.Written()[2], w.Written()[3], m, res)
              && w.Written()[2] / 2 % 2 == (if FullEnd(m, res) > w.cap then 1 else 0)
              && Packed(w.Written(), m, res, w.cap, at, LastDepth(|m.questions|) + 2)
    ensures err.Some? ==> Excused(Pack(err.value), m, res, w.cap)
  {
    hide OwnerAtFault, Justified, QuestionsAt, AfterQuestions, FullEnd, Known, TableOk, ResponseFlags, PutU16, Opening,
         Closing, Circular, Misleads, Counted, FlagBits, Packed, QuestionsRoom, FirstPlain;
    at := Marks(0, 0, 0, 0);
    w.WriteHeader(m.id, ResponseFlags(m.flags, res), |m.questions|);
    err := w.WriteQuestions(m.questions);
    AskedIs(m);
    if err.Some? {
      if err.value != BufferTooSmall { FaultyQuestion(err.value, m.questions, w.cap); }
      return;
    }
    var an, ns, ar;
    err, an, ns, ar, at := WriteSections(w, m, res);
    if err.Some? {
      FaultNotRoom(err.value, m, res, w.cap);
      return;
    }
    CloseMessage(w, m, res, an, ns, ar, at);
  }

  /** Serializes a response of at most maxSize bytes; what does not fit is cut off and TC set. */
  method PackResponse(buf: array<Byte>, m: Request, res: Reply, maxSize: nat)
    returns (n: nat, err: Option<Error>, ghost at: Marks)
    modifies buf
    ensures err.None? ==> HEADER_LEN <= n <= maxSize && n <= buf.Length
    ensures err.None? ==> FlagBits(buf[2], buf[3], m, res)
    ensures err.None? ==> buf[2] / 2 % 2 == if FullEnd(m, res) > Limit(buf, maxSize) then 1 else 0
    ensures err.None? ==> Packed(buf[..n], m, res, Limit(buf, maxSize), at, LastDepth(|m.questions|) + 2)
    ensures err == Some(TooManyQuestions) <==> |m.questions| > MAX_QUESTIONS
    ensures err == Some(ShortBuffer) <==> |m.questions| <= MAX_QUESTIONS && Limit(buf, maxSize) < HEADER_LEN
    ensures err.Some? ==> n == 0 && Excused(err.value, m, res, Limit(buf, maxSize))
  {
    hide FullEnd, FlagBits, Packed, AfterQuestions, OwnerAtFault, Justified;
    n, at := 0, Marks(0, 0, 0, 0);
    if |m.questions| > MAX_QUESTIONS { return 0, Some(TooManyQuestions), at; }
    var w := new PacketWriter(buf, maxSize);
    if w.cap < HEADER_LEN { return 0, Some(ShortBuffer), at; }
    var cause;
    cause, at := WriteMessage(w, m, res);
    if cause.Some? { return 0, Some(Pack(cause.value)), at; }
    n, err := w.offset, None;
    assert buf[2] == w.Written()[2] && buf[3] == w.Written()[3];
  }

  lemma AskedIs(m: Request)
    ensures AfterQuestions(m) == QuestionsAfter(Track(HEADER_LEN, []), m.questions)
  {
  }

  lemma FaultNotRoom(e: PackError, m: Request, res: Reply, cap: nat)
    requires OwnerAtFault(e, m, res, cap)
    ensures e != BufferTooSmall
  {
  }

  lemma FaultyQuestion(e: PackError, qs: seq<Question>, cap: nat)
    requires e != BufferTooSmall
    requires exists i :: 0 <= i < |qs| && Justified(e, qs[i].name, HEADER_LEN + QuestionsRoom(qs), cap)
    ensures exists i :: 0 <= i < |qs| && Justified(e, qs[i].name, 0, cap)
  {
    hide HasLongLabel, QuestionsRoom;
    var i :| 0 <= i < |qs| && Justified(e, qs[i].name, HEADER_LEN + QuestionsRoom(qs), cap);
    assert Justified(e, qs[i].name, 0, cap);
  }

  // ---- unpacking what was packed ----

  lemma {:induction false} RecordsLength(b: Bytes, off: nat, rs: seq<RR>, e: nat, j: nat)
    requires AllPackedAt(b, off, rs, e, j) && off <= |b|
    ensures off + 11 * |rs| <= e <= |b|
    decreases |rs|
  {
    hide Spells, NameLabels, FixedPart;
    if rs != [] {
      var m: nat :| PackedAt(b, off, rs[0], m, j) && AllPackedAt(b, m, rs[1..], e, j);
      RecordsLength(b, m, rs[1..], e, j);
    }
  }

  ghost predicate AllSame(rs: seq<Question>, qs: seq<Question>) {
    |rs| == |qs| && forall i :: 0 <= i < |qs| ==> SameQuestion(rs[i], qs[i])
  }

  ghost predicate Askable(qs: seq<Question>) {
    forall i :: 0 <= i < |qs| ==> ShortName(qs[i].name) && qs[i].qtype != TYPE_OPT
  }

  lemma {:induction false} ReadsQuestions(b: Bytes, off: nat, qs: seq<Question>, e: nat, j: nat)
    requires QuestionsAt(b, off, qs, e, j) && j <= MAX_JUMPS && Askable(qs) && off <= |b|
    ensures var r := ReadQuestions(b, off, |qs|); r.Some? && r.value.end == e <= |b| && AllSame(r.value.questions, qs)
    decreases |qs|
  {
    hide ReadQuestion, ShortName, SameQuestion, Spells, NameLabels;
    if qs != [] {
      var m: nat :| QuestionAt(b, off, qs[0], m, j) && QuestionsAt(b, m, qs[1..], e, j);
      ReadsQuestion(b, off, qs[0], m, j);
      ReadsQuestions(b, m, qs[1..], e, j);
    }
  }

  lemma CountsOf(out: Bytes, x: Body, at: Marks, j: nat)
    requires Laid(out, x, at, j) && |x.questions| <= MAX_QUESTIONS
    requires |x.an| < 0x1_0000 && |x.ns| < 0x1_0000 && |x.ar| + 1 < 0x1_0000
    ensures ReadCounts(out) == Counts(|x.questions|, |x.an|, |x.ns|, |x.ar| + if x.opt.Some? then 1 else 0)
    ensures GetU16(out[..2]) == x.id && GetU16(out[2..4]) == x.flags
  {
    hide PutU16, GetU16, AllPackedAt, QuestionsAt, PackedAt;
    var h := out[..HEADER_LEN];
    SliceOfSlice(out, 0, HEADER_LEN, 0, 2);
    SliceOfSlice(out, 0, HEADER_LEN, 2, 4);
    SliceOfSlice(out, 0, HEADER_LEN, 4, 6);
    SliceOfSlice(out, 0, HEADER_LEN, 6, 8);
    SliceOfSlice(out, 0, HEADER_LEN, 8, 10);
    SliceOfSlice(out, 0, HEADER_LEN, 10, 12);
    var ar := |x.ar| + if x.opt.Some? then 1 else 0;
    assert h[0..2] == PutU16(x.id) && h[2..4] == PutU16(x.flags);
    assert h[4..6] == PutU16(|x.questions|) && h[6..8] == PutU16(|x.an|);
    assert h[8..10] == PutU16(|x.ns|) && h[10..12] == PutU16(ar);
    assert out[0..2] == out[..2];
    U16RoundTrip(x.id);
    U16RoundTrip(x.flags);
    U16RoundTrip(|x.questions|);
    U16RoundTrip(|x.an|);
    U16RoundTrip(|x.ns|);
    U16RoundTrip(ar);
  }

  /** What the decoder needs of a message: names within its buffer and OPT only where it belongs. */
  ghost predicate Readable(x: Body) {
    && Askable(x.questions) && AllShort(x.an) && AllShort(x.ns) && AllShort(x.ar) && NoOPT(x.ar)
    && (x.opt.Some? ==> x.opt.value.owner == [] && x.opt.value.rdata == [] && x.opt.value.rtype == TYPE_OPT)
  }

  lemma SectionCounts(out: Bytes, x: Body, at: Marks, j: nat)
    requires Laid(out, x, at, j) && at.questions <= |out| <= MAX_TCP
    ensures |x.an| < 0x1_0000 && |x.ns| < 0x1_0000 && |x.ar| + 1 < 0x1_0000
  {
    hide PutU16, AllPackedAt, QuestionsAt, PackedAt;
    RecordsLength(out, at.questions, x.an, at.answers, j);
    RecordsLength(out, at.answers, x.ns, at.authorities, j);
    RecordsLength(out, at.authorities, x.ar, at.additionals, j);
  }

  /**
   A packed message unpacks when no name takes more than ten jumps: the same questions, counts equal to the records
   present, and the EDNS settings of the OPT record.
   */
  lemma PackedUnpacks(out: Bytes, x: Body, at: Marks, j: nat)
    requires Laid(out, x, at, j) && j <= MAX_JUMPS && |out| <= MAX_TCP
    requires |x.questions| <= MAX_QUESTIONS && Readable(x)
    ensures var r := Unpack(out);
            && r.Some? && AllSame(r.value.questions, x.questions)
            && r.value.id == x.id && r.value.flags == x.flags
            && r.value.counts == Counts(|x.questions|, |x.an|, |x.ns|, |x.ar| + if x.opt.Some? then 1 else 0)
            && r.value.edns == if x.opt.Some? then EdnsOf(x.opt.value) else NO_EDNS
  {
    hide PutU16, GetU16, AllPackedAt, QuestionsAt, PackedAt, EdnsOf, Askable, AllShort, NoOPT, SkipRecords,
         ReadAdditional, ReadQuestions, AllSame, ReadCounts, ShortName;
    ReadsQuestions(out, HEADER_LEN, x.questions, at.questions, j);
    SectionCounts(out, x, at, j);
    CountsOf(out, x, at, j);
    RecordsAppend(out, at.questions, x.an, at.answers, x.ns, at.authorities, j);
    ShortAppend(x.an, x.ns);
    SkipsRecords(out, at.questions, x.an + x.ns, at.authorities, j);
    RootShort();
    ReadsAdditional(out, at.authorities, x.ar, x.opt, at.additionals, |out|, j);
  }

  lemma ShortAppend(a: seq<RR>, b: seq<RR>)
    requires AllShort(a) && AllShort(b)
    ensures AllShort(a + b)
  {
  }

  lemma RootShort()
    ensures ShortName([])
  {
  }

  // ---- the reader's loops ----

  method UnpackQuestions(b: Bytes, n: nat) returns (r: Option<AskedAll>)
    ensures r == ReadQuestions(b, HEADER_LEN, n)
  {
    hide Decode, NameText, GetU16;
    var qs: seq<Question>, off: nat := [], HEADER_LEN;
    ghost var all := ReadQuestions(b, HEADER_LEN, n);
    assert all.Some? ==> [] + all.value.questions == all.value.questions;
    for i := 0 to n
      invariant all == match ReadQuestions(b, off, n - i)
                       case None => None
                       case Some(x) => Some(AskedAll(qs + x.questions, x.end))
    {
      var text, h, err := DecodeName(b, off);
      if err.Some? || h + 4 > |b| { return None; }
      var t := GetU16(b[h..h + 2]);
      if t == TYPE_OPT { return None; }
      var q := Question(text, t, GetU16(b[h + 2..h + 4]));
      ghost var rest := ReadQuestions(b, h + 4, n - i - 1);
      assert rest.Some? ==> qs + ([q] + rest.value.questions) == qs + [q] + rest.value.questions;
      qs, off := qs + [q], h + 4;
    }
    assert qs + [] == qs;
    return Some(AskedAll(qs, off));
  }

  method UnpackSkip(b: Bytes, start: nat, n: nat) returns (r: Option<nat>)
    ensures r == SkipRecords(b, start, n)
  {
    hide Decode, NameText, GetU16;
    var off: nat := start;
    for i := 0 to n
      invariant SkipRecords(b, off, n - i) == SkipRecords(b, start, n)
    {
      var _, h, err := DecodeName(b, off);
      if err.Some? || h + 10 > |b| { return None; }
      var e := h + 10 + GetU16(b[h + 8..h + 10]);
      if e > |b| { return None; }
      off := e;
    }
    return Some(off);
  }

  method UnpackAdditional(b: Bytes, start: nat, n: nat) returns (r: Option<Edns>)
    ensures r == ReadAdditional(b, start, n, None)
  {
    hide Decode, NameText, GetU16, ReadOPT;
    var off: nat, found: Option<Edns> := start, None;
    for i := 0 to n
      invariant ReadAdditional(b, off, n - i, found) == ReadAdditional(b, start, n, None)
    {
      var _, h, err := DecodeName(b, off);
      if err.Some? || h + 10 > |b| { return None; }
      var e := h + 10 + GetU16(b[h + 8..h + 10]);
      if GetU16(b[h..h + 2]) == TYPE_OPT {
        if found.Some? { return None; }
        found := Some(ReadOPT(b, h));
      }
      if e > |b| { return None; }
      off := e;
    }
    return Some(if found.Some? then found.value else NO_EDNS);
  }

  /** Parses a packet; None stands for any of Unpack's errors. */
  method UnpackMessage(b: Bytes) returns (r: Option<Message>)
    ensures r == Unpack(b)
  {
    hide ReadQuestions, SkipRecords, ReadAdditional, GetU16;
    if |b| < HEADER_LEN { return None; }
    var c := ReadCounts(b);
    if c.qd > MAX_QUESTIONS { return None; }
    var asked := UnpackQuestions(b, c.qd);
    if asked.None? { return None; }
    var e := UnpackSkip(b, asked.value.end, c.an + c.ns);
    if e.None? { return None; }
    var edns := UnpackAdditional(b, e.value, c.ar);
    if edns.None? { return None; }
    return Some(Message(GetU16(b[..2]), GetU16(b[2..4]), c, asked.value.questions, edns.value));
  }
}
