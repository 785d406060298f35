/** What a response contains, and how much of it fits (internal/dns/pack.go). */
module Responses {
  import opened Octets
  import opened Records
  import opened WireNames
  import opened Compression
  import opened MessageLayout
  import opened WritePlans

  datatype Request = Request(id: U16, flags: U16, questions: seq<Question>, ednsSize: nat, dnssecOk: bool)

  datatype Reply = Reply(
    rcode: Byte, answer: RRSet, answerSig: RRSet, authority: RRSet, authorityName: Bytes, authoritySig: RRSet,
    additional: RRSet)

  datatype Error = TooManyQuestions | ShortBuffer | Pack(cause: PackError)

  const EDNS_SIZE: U16 := 4096

  // ---- what a response contains ----

  predicate IsReferral(res: Reply) {
    res.rcode == 0 && res.answer.rdata == [] && res.authority.rdata != [] && res.authority.rtype == TYPE_NS
  }

  /** Opcode and RD of the query, QR, AA unless this is a referral, and the response code. */
  function ResponseFlags(flags: U16, res: Reply): (f: U16)
    ensures f / 512 % 2 == 0
  {
    var hb := flags / 256;
    TCIsClear(hb % 128 / 8, hb % 2, if IsReferral(res) then 128 else 132, res.rcode % 16);
    (hb % 128 / 8 * 8 + hb % 2 + (if IsReferral(res) then 128 else 132)) * 256 + res.rcode % 16
  }

  lemma TCIsClear(opcode: nat, rd: nat, answer: nat, rcode: nat)
    requires opcode < 16 && rd < 2 && (answer == 128 || answer == 132) && rcode < 16
    ensures 0 <= (opcode * 8 + rd + answer) * 256 + rcode < 0x1_0000
    ensures ((opcode * 8 + rd + answer) * 256 + rcode) / 512 % 2 == 0
  {
    DivisionUnique((opcode * 8 + rd + answer) * 256 + rcode, 512, opcode * 4 + answer / 2, rd * 256 + rcode);
  }

  /** The two flag bytes of a response, bit by bit, but for TC. */
  ghost predicate FlagBits(hi: Byte, lo: Byte, m: Request, res: Reply) {
    && hi / 128 == 1
    && hi / 8 % 16 == m.flags / 0x800 % 16
    && (hi / 4 % 2 == 0 <==>
        res.rcode == 0 && res.answer.rdata == [] && res.authority.rdata != [] && res.authority.rtype == TYPE_NS)
    && hi % 2 == m.flags / 0x100 % 2
    && lo / 16 == 0 && lo % 16 == res.rcode % 16
  }

  /** Four fields of eight bits, the third of them TC. */
  lemma ByteFields(qr: nat, opcode: nat, aa: nat, tc: nat, rd: nat)
    requires qr < 2 && opcode < 16 && aa < 2 && tc < 2 && rd < 2
    ensures var x := qr * 128 + opcode * 8 + aa * 4 + tc * 2 + rd;
            x / 128 == qr && x / 8 % 16 == opcode && x / 4 % 2 == aa && x / 2 % 2 == tc && x % 2 == rd
  {
    var x := qr * 128 + opcode * 8 + aa * 4 + tc * 2 + rd;
    DivisionUnique(x, 128, qr, opcode * 8 + aa * 4 + tc * 2 + rd);
    DivisionUnique(x, 8, qr * 16 + opcode, aa * 4 + tc * 2 + rd);
    DivisionUnique(qr * 16 + opcode, 16, qr, opcode);
    DivisionUnique(x, 4, qr * 32 + opcode * 2 + aa, tc * 2 + rd);
    DivisionUnique(qr * 32 + opcode * 2 + aa, 2, qr * 16 + opcode, aa);
    DivisionUnique(x, 2, qr * 64 + opcode * 4 + aa * 2 + tc, rd);
    DivisionUnique(qr * 64 + opcode * 4 + aa * 2 + tc, 2, qr * 32 + opcode * 2 + aa, tc);
  }

  /** QR, the query's opcode and RD, AA except on a referral, the response code, and nothing else. */
  lemma FlagsMean(m: Request, res: Reply, tc: nat)
    requires tc < 2
    ensures var f := PutU16(ResponseFlags(m.flags, res));
            f[0] + 2 * tc < 256 && FlagBits(f[0] + 2 * tc, f[1], m, res) && (f[0] + 2 * tc) / 2 % 2 == tc
  {
    var hb, aa := m.flags / 256, if IsReferral(res) then 0 else 1;
    var opcode, rd := hb % 128 / 8, hb % 2;
    var hi, lo := 128 + opcode * 8 + aa * 4 + rd, res.rcode % 16;
    assert ResponseFlags(m.flags, res) == hi * 256 + lo;
    DivisionUnique(hi * 256 + lo, 256, hi, lo);
    ByteFields(1, opcode, aa, tc, rd);
    QueryFields(m.flags);
    DivisionUnique(lo, 16, 0, lo);
  }

  lemma QueryFields(flags: U16)
    ensures flags / 256 % 128 / 8 == flags / 0x800 % 16
  {
    var hb := flags / 256;
    var q, low := hb / 128, hb % 128;
    var op, r := low / 8, low % 8;
    assert flags == hb * 256 + flags % 256;
    DivisionUnique(flags, 0x800, q * 16 + op, r * 256 + flags % 256);
    DivisionUnique(q * 16 + op, 16, q, op);
  }

  function WithSig(owner: Bytes, s: RRSet, sig: RRSet, wanted: bool): seq<RR> {
    RecordsUnder(owner, s) + if wanted && sig.rdata != [] then RecordsUnder(owner, sig) else []
  }

  predicate HasAnswers(m: Request, res: Reply) {
    res.rcode == 0 && m.questions != [] && res.answer.rdata != []
  }

  function Answers(m: Request, res: Reply): seq<RR> {
    if HasAnswers(m, res) then WithSig(m.questions[0].name, res.answer, res.answerSig, m.dnssecOk) else []
  }

  function AuthorityOwner(m: Request, res: Reply): Bytes {
    if res.authorityName == [] && m.questions != [] then m.questions[0].name else res.authorityName
  }

  function Authorities(m: Request, res: Reply): seq<RR> {
    if m.questions == [] || res.authority.rdata == [] then []
    else WithSig(AuthorityOwner(m, res), res.authority, res.authoritySig, m.dnssecOk)
  }

  function Additionals(m: Request, res: Reply): seq<RR> {
    if res.rcode == 0 && m.questions != [] && res.additional.rdata != []
    then RecordsUnder(m.questions[0].name, res.additional) else []
  }

  function OptRecord(m: Request, res: Reply): RR {
    RR([], TYPE_OPT, EDNS_SIZE, (res.rcode / 16) * 0x100_0000 + (if m.dnssecOk then 0x8000 else 0), [])
  }

  // ---- the sections, record by record ----

  function Min(a: nat, b: nat): nat {
    if a < b then a else b
  }

  /** The records of s under the owner in their order, at most 65535, and then those of sig. */
  ghost predicate Lists(rs: seq<RR>, owner: Bytes, s: RRSet, sig: RRSet) {
    var n, k := Min(|s.rdata|, 65535), Min(|sig.rdata|, 65535);
    && |rs| == n + k
    && (forall i :: 0 <= i < n ==> rs[i] == RR(owner, s.rtype, s.cls, s.ttl, s.rdata[i]))
    && (forall i :: 0 <= i < k ==> rs[n + i] == RR(owner, sig.rtype, sig.cls, sig.ttl, sig.rdata[i]))
  }

  /** The signatures go along when the query asked for them. */
  function Along(m: Request, sig: RRSet): RRSet {
    if m.dnssecOk then sig else ZERO_SET
  }

  lemma Listed(owner: Bytes, s: RRSet, sig: RRSet, wanted: bool)
    ensures Lists(WithSig(owner, s, sig, wanted), owner, s, if wanted then sig else ZERO_SET)
  {
  }

  /**
   Answers and additional records only with code 0 and under the name of the first question; authority with any
   code, under its own name or else that of the first question; nothing without a question.
   */
  lemma SectionsMean(m: Request, res: Reply)
    ensures if res.rcode == 0 && m.questions != [] && res.answer.rdata != []
            then Lists(Answers(m, res), m.questions[0].name, res.answer, Along(m, res.answerSig))
            else Answers(m, res) == []
    ensures if m.questions != [] && res.authority.rdata != []
            then Lists(Authorities(m, res), if res.authorityName != [] then res.authorityName else m.questions[0].name,
                       res.authority, Along(m, res.authoritySig))
            else Authorities(m, res) == []
    ensures if res.rcode == 0 && m.questions != [] && res.additional.rdata != []
            then Lists(Additionals(m, res), m.questions[0].name, res.additional, ZERO_SET)
            else Additionals(m, res) == []
  {
    hide Lists, RecordsUnder;
    if m.questions != [] {
      Listed(m.questions[0].name, res.answer, res.answerSig, m.dnssecOk);
      Listed(AuthorityOwner(m, res), res.authority, res.authoritySig, m.dnssecOk);
      Listed(m.questions[0].name, res.additional, ZERO_SET, false);
      assert RecordsUnder(m.questions[0].name, res.additional) + [] == Additionals(m, res) || Additionals(m, res) == [];
    }
  }

  /** The OPT record carries a size of 4096, the query's DO bit and the upper part of the code. */
  lemma OptMeans(m: Request, res: Reply)
    ensures EdnsOf(OptRecord(m, res)) == Edns(4096, m.dnssecOk, res.rcode / 16)
    ensures OptRecord(m, res).owner == [] && OptRecord(m, res).rdata == [] && OptRecord(m, res).rtype == 41
  {
    var hi, lo := (res.rcode / 16) * 256, if m.dnssecOk then 0x8000 else 0;
    DivisionUnique(OptRecord(m, res).ttl, 0x1_0000, hi, lo);
    DivisionUnique(hi, 256, res.rcode / 16, 0);
    DivisionUnique(lo, 256, if m.dnssecOk then 128 else 0, 0);
  }

  // ---- what a message holds ----

  /** Where the sections of a message end. */
  datatype Marks = Marks(questions: nat, answers: nat, authorities: nat, additionals: nat)

  datatype Body = Body(
    id: U16, flags: U16, questions: seq<Question>, an: seq<RR>, ns: seq<RR>, ar: seq<RR>, opt: Option<RR>)

  /** out holds the header with its counts and then the sections, every name spelled with at most j jumps. */
  ghost predicate Laid(out: Bytes, x: Body, at: Marks, j: nat) {
    && |out| >= HEADER_LEN
    && out[..HEADER_LEN] ==
         PutU16(x.id) + PutU16(x.flags) + PutU16(|x.questions| % 0x1_0000)
         + PutU16(|x.an| % 0x1_0000) + PutU16(|x.ns| % 0x1_0000)
         + PutU16((|x.ar| + if x.opt.Some? then 1 else 0) % 0x1_0000)
    && QuestionsAt(out, HEADER_LEN, x.questions, at.questions, j)
    && AllPackedAt(out, at.questions, x.an, at.answers, j)
    && AllPackedAt(out, at.answers, x.ns, at.authorities, j)
    && AllPackedAt(out, at.authorities, x.ar, at.additionals, j)
    && (if x.opt.Some? then PackedAt(out, at.additionals, x.opt.value, |out|, j) else at.additionals == |out|)
  }

  /** The whole response. */
  function FullBody(m: Request, res: Reply, opt: bool): Body {
    Body(m.id, ResponseFlags(m.flags, res), m.questions, Answers(m, res), Authorities(m, res), Additionals(m, res),
         if opt then Some(OptRecord(m, res)) else None)
  }

  // ---- as much as fits ----

  function AnswerRecords(m: Request, res: Reply): seq<RR> {
    if HasAnswers(m, res) then RecordsUnder(m.questions[0].name, res.answer) else []
  }

  function AnswerSigs(m: Request, res: Reply): seq<RR> {
    if HasAnswers(m, res) && m.dnssecOk then RecordsUnder(m.questions[0].name, res.answerSig) else []
  }

  function AuthorityRecords(m: Request, res: Reply): seq<RR> {
    if m.questions == [] then [] else RecordsUnder(AuthorityOwner(m, res), res.authority)
  }

  function AuthoritySigs(m: Request, res: Reply): seq<RR> {
    if m.questions == [] || res.authority.rdata == [] || !m.dnssecOk then []
    else RecordsUnder(AuthorityOwner(m, res), res.authoritySig)
  }

  lemma SectionsSplit(m: Request, res: Reply)
    ensures Answers(m, res) == AnswerRecords(m, res) + AnswerSigs(m, res)
    ensures Authorities(m, res) == AuthorityRecords(m, res) + AuthoritySigs(m, res)
  {
  }

  /** A record set and its signatures, each as far as it fits. */
  ghost function PairFits(t: Track, a: seq<RR>, s: seq<RR>, cap: nat): seq<RR> {
    var k := Fit(t, a, cap);
    a[..k] + s[..Fit(RecordsAfter(t, a[..k]), s, cap)]
  }

  ghost function PairAfter(t: Track, a: seq<RR>, s: seq<RR>, cap: nat): Track {
    RecordsAfter(t, PairFits(t, a, s, cap))
  }

  /** Behind the questions, the answers and the authorities. */
  ghost function AfterQuestions(m: Request): Track {
    QuestionsAfter(Track(HEADER_LEN, []), m.questions)
  }

  ghost function AfterAnswers(m: Request, res: Reply, cap: nat): Track {
    PairAfter(AfterQuestions(m), AnswerRecords(m, res), AnswerSigs(m, res), cap)
  }

  ghost function AfterAuthorities(m: Request, res: Reply, cap: nat): Track {
    PairAfter(AfterAnswers(m, res, cap), AuthorityRecords(m, res), AuthoritySigs(m, res), cap)
  }

  ghost function AnswersFit(m: Request, res: Reply, cap: nat): seq<RR> {
    PairFits(AfterQuestions(m), AnswerRecords(m, res), AnswerSigs(m, res), cap)
  }

  ghost function AuthoritiesFit(m: Request, res: Reply, cap: nat): seq<RR> {
    PairFits(AfterAnswers(m, res, cap), AuthorityRecords(m, res), AuthoritySigs(m, res), cap)
  }

  ghost function AdditionalsFit(m: Request, res: Reply, cap: nat): seq<RR> {
    Additionals(m, res)[..Fit(AfterAuthorities(m, res, cap), Additionals(m, res), cap)]
  }

  /** Where the records that fit end. */
  ghost function FitEnd(m: Request, res: Reply, cap: nat): nat {
    RecordsAfter(AfterAuthorities(m, res, cap), AdditionalsFit(m, res, cap)).off
  }

  /** Where the records end without a limit. */
  ghost function FullEnd(m: Request, res: Reply): nat {
    RecordsAfter(AfterQuestions(m), Answers(m, res) + Authorities(m, res) + Additionals(m, res)).off
  }

  /** The flags of a response, with TC if it is cut. */
  function FlagsOf(m: Request, res: Reply, cut: bool): U16 {
    if cut then ResponseFlags(m.flags, res) + 0x200 else ResponseFlags(m.flags, res)
  }

  /** The response with the records that fit, and TC if some do not. */
  ghost function FitBody(m: Request, res: Reply, cap: nat): Body {
    Body(m.id, FlagsOf(m, res, FullEnd(m, res) > cap), m.questions,
         AnswersFit(m, res, cap), AuthoritiesFit(m, res, cap), AdditionalsFit(m, res, cap),
         if m.ednsSize != 0 && FitEnd(m, res, cap) + 11 <= cap then Some(OptRecord(m, res)) else None)
  }

  lemma FitWhole(t: Track, rs: seq<RR>, cap: nat)
    requires t.off <= cap
    ensures RecordsAfter(t, rs).off <= cap <==> Fit(t, rs, cap) == |rs|
    ensures RecordsAfter(t, rs[..Fit(t, rs, cap)]).off <= cap
  {
    FitIsMost(t, rs, cap, |rs|);
    FitIsMost(t, rs, cap, Fit(t, rs, cap));
    assert rs[..|rs|] == rs;
  }

  /** Set and signatures fit together if and only if nothing of them is left out. */
  lemma PairWhole(t: Track, a: seq<RR>, s: seq<RR>, cap: nat)
    requires t.off <= cap
    ensures var fits := PairFits(t, a, s, cap);
            && RecordsAfter(t, fits).off <= cap && |fits| <= |a| + |s|
            && (RecordsAfter(t, a + s).off <= cap <==> |fits| == |a| + |s|)
            && (|fits| == |a| + |s| ==> fits == a + s)
  {
    hide RecordsAfter, Fit;
    var k := Fit(t, a, cap);
    FitWhole(t, a, cap);
    var t' := RecordsAfter(t, a[..k]);
    FitWhole(t', s, cap);
    AfterAppend(t, a[..k], s[..Fit(t', s, cap)]);
    AfterAppend(t, a, s);
    if k == |a| {
      assert a[..k] == a;
      assert Fit(t', s, cap) == |s| ==> s[..Fit(t', s, cap)] == s;
    } else {
      AfterReaches(t, a, s);
    }
  }

  lemma AfterReaches(t: Track, a: seq<RR>, s: seq<RR>)
    ensures RecordsAfter(t, a).off <= RecordsAfter(t, a + s).off
  {
    hide RecordsAfter;
    AfterAppend(t, a, s);
  }

  /** Nothing is left out if and only if everything ends within the limit. */
  lemma FitsAllIff(m: Request, res: Reply, cap: nat)
    requires AfterQuestions(m).off <= cap
    ensures AfterAnswers(m, res, cap).off <= cap && AfterAuthorities(m, res, cap).off <= cap
    ensures FitEnd(m, res, cap) <= cap
    ensures FullEnd(m, res) <= cap <==>
            && |AnswersFit(m, res, cap)| == |Answers(m, res)|
            && |AuthoritiesFit(m, res, cap)| == |Authorities(m, res)|
            && |AdditionalsFit(m, res, cap)| == |Additionals(m, res)|
    ensures FullEnd(m, res) <= cap ==>
            && AnswersFit(m, res, cap) == Answers(m, res) && AuthoritiesFit(m, res, cap) == Authorities(m, res)
            && AdditionalsFit(m, res, cap) == Additionals(m, res) && FitEnd(m, res, cap) == FullEnd(m, res)
  {
    hide RecordsAfter, Fit, PairFits, Answers, Authorities, Additionals, AnswerRecords, AnswerSigs, AuthorityRecords,
         AuthoritySigs, AfterQuestions;
    SectionsSplit(m, res);
    var t, an, ns, ar := AfterQuestions(m), Answers(m, res), Authorities(m, res), Additionals(m, res);
    PairWhole(t, AnswerRecords(m, res), AnswerSigs(m, res), cap);
    PairWhole(AfterAnswers(m, res, cap), AuthorityRecords(m, res), AuthoritySigs(m, res), cap);
    FitWhole(AfterAuthorities(m, res, cap), ar, cap);
    AfterAppend(t, an + ns, ar);
    AfterAppend(t, an, ns);
    assert ar[..|ar|] == ar;
  }

  /** What fits without a cut is the whole response. */
  lemma FitIsFull(m: Request, res: Reply, cap: nat)
    requires AfterQuestions(m).off <= cap && FullEnd(m, res) <= cap
    ensures FitBody(m, res, cap) == FullBody(m, res, m.ednsSize != 0 && FullEnd(m, res) + 11 <= cap)
  {
    hide AnswersFit, AuthoritiesFit, AdditionalsFit, FullEnd, FitEnd, Answers, Authorities, Additionals, OptRecord;
    FitsAllIff(m, res, cap);
  }

  // ---- room that is enough whatever can be pointed to ----

  lemma {:induction false} RoomAppends(a: seq<RR>, b: seq<RR>)
    ensures RecordsRoom(a + b) == RecordsRoom(a) + RecordsRoom(b)
    decreases |b|
  {
    hide RecordRoom;
    if b == [] {
      assert a + b == a;
    } else {
      var n := |b| - 1;
      RoomAppends(a, b[..n]);
      assert (a + b)[..|a + b| - 1] == a + b[..n];
    }
  }

  /** Bytes the response takes at most, without its OPT record. */
  function MessageRoom(m: Request, res: Reply): nat {
    HEADER_LEN + QuestionsRoom(m.questions) + RecordsRoom(Answers(m, res)) + RecordsRoom(Authorities(m, res))
    + RecordsRoom(Additionals(m, res))
  }

  lemma FullWithin(m: Request, res: Reply)
    ensures FullEnd(m, res) <= MessageRoom(m, res)
  {
    hide RecordsRoom, QuestionsRoom, RecordsAfter, QuestionsAfter, Answers, Authorities, Additionals;
    var an, ns, ar := Answers(m, res), Authorities(m, res), Additionals(m, res);
    QuestionsWithin(Track(HEADER_LEN, []), m.questions);
    AfterWithin(AfterQuestions(m), an + ns + ar);
    RoomAppends(an + ns, ar);
    RoomAppends(an, ns);
  }

  // ---- a pointer to itself ----

  /**
   The first record of a set under a new name is cut off after its first label went into the table, and a signature
   under that name fits: its pointer leads to where the cut record began, which is where the pointer itself lies.
   */
  ghost predicate Misled(t: Track, owner: Bytes, a: seq<RR>, s: seq<RR>, cap: nat) {
    Lost(t, owner, a, cap) && s != [] && t.off + FirstTake(owner) <= cap && t.off + 12 + |s[0].rdata| <= cap
  }

  ghost predicate Misleads(m: Request, res: Reply, cap: nat) {
    Misled(AfterAnswers(m, res, cap), AuthorityOwner(m, res), AuthorityRecords(m, res), AuthoritySigs(m, res), cap)
  }

  /** What the signatures meet when the set was lost. */
  lemma {:induction false} AfterLost(t: Track, now: Track, owner: Bytes, a: seq<RR>, s: seq<RR>, cap: nat)
    requires AllUsable(t.table) && Lost(t, owner, a, cap) && Left(t, now, owner, cap)
    requires a[0].owner == owner && AllUnder(owner, s)
    ensures if Misled(t, owner, a, s, cap) then
              && AllUsable(now.table) && Known(now.table, owner) && Fit(now, s, cap) > 0
              && KnownBytes(now.table, owner) == PutU16(0xC000 + t.off)
            else Fit(now, s, cap) == 0 && Fit(t, s, cap) == 0 && PairFits(t, a, s, cap) == []
  {
    hide InTable, NameAfter, FirstTake, EqualFold, PutU16, Known, KnownBytes, RealStart, FirstIndex;
    LostUnknown(t, owner, a, cap);
    AfterUnknown(t, owner);
    AfterUsable(t, owner, 0);
    UsablePrefix(now.table, NameAfter(t, owner, 0).table);
    if t.off + FirstTake(owner) <= cap {
      StaleEntry(t, now.table, owner);
      PointsBack(now.table, owner, t.off);
      AfterKnown(now, owner);
      assert s != [] ==> RecordAfter(now, s[0]).off == t.off + 12 + |s[0].rdata|;
    } else {
      assert now == t;
    }
    assert s != [] ==> RecordAfter(t, s[0]).off >= t.off + 12 + |s[0].rdata|;
  }

  lemma LostUnknown(t: Track, owner: Bytes, a: seq<RR>, cap: nat)
    requires Lost(t, owner, a, cap)
    ensures !Known(t.table, owner) && t.off <= MAX_POINTER && |t.table| < MAX_SUFFIXES
  {
  }

  lemma StaleEntry(t: Track, table: seq<Suffix>, owner: Bytes)
    requires !Known(t.table, owner) && t.table + [Suffix(owner[RealStart(owner, 0)..], t.off)] <= table
    ensures Known(table, owner) && RealStart(owner, 0) < |owner| && InTable(table, owner[RealStart(owner, 0)..])
    ensures table[FirstIndex(table, owner[RealStart(owner, 0)..])].off == t.off
  {
    hide InTable, EqualFold, RealStart, FirstIndex;
    EntryAt(t.table, table, Suffix(owner[RealStart(owner, 0)..], t.off));
  }

  lemma PointsBack(table: seq<Suffix>, owner: Bytes, off: nat)
    requires Known(table, owner) && AllUsable(table) && RealStart(owner, 0) < |owner| && off <= MAX_POINTER
    requires InTable(table, owner[RealStart(owner, 0)..])
    requires table[FirstIndex(table, owner[RealStart(owner, 0)..])].off == off
    ensures KnownBytes(table, owner) == PutU16(0xC000 + off)
  {
  }

  lemma EntryAt(t: seq<Suffix>, table: seq<Suffix>, e: Suffix)
    requires t + [e] <= table && !InTable(t, e.name)
    ensures InTable(table, e.name) && table[FirstIndex(table, e.name)] == e
  {
    EntryFound(t, table, e.name, e.off);
    assert table[|t|] == (t + [e])[|t|];
  }

  lemma UsablePrefix(t: seq<Suffix>, t': seq<Suffix>)
    requires t <= t' && AllUsable(t')
    ensures AllUsable(t)
  {
    forall i | 0 <= i < |t| ensures Usable(t[i]) {
      assert t[i] == t'[i];
    }
  }
}
