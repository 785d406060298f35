/**
 Where a response keeps its question and records, and how Unpack (internal/dns/unpack.go) reads them.
 */
module MessageLayout {
  import opened Octets
  import opened Records
  import opened WireNames
  import opened Compression

  const HEADER_LEN := 12
  const MAX_QUESTIONS := 10
  const MAX_TCP := 65535

  datatype Question = Question(name: Bytes, qtype: U16, cls: U16)

  /** One resource record. */
  datatype RR = RR(owner: Bytes, rtype: U16, cls: U16, ttl: U32, rdata: Bytes)

  /** The length goes into sixteen bits, whatever it is. */
  function FixedPart(r: RR): (f: Bytes)
    ensures |f| == 10
  {
    PutU16(r.rtype) + PutU16(r.cls) + PutU32(r.ttl) + PutU16(|r.rdata| % 0x1_0000)
  }

  /** Record r lies from off to e, its owner spelled with at most j jumps. */
  ghost predicate PackedAt(b: Bytes, off: nat, r: RR, e: nat, j: nat) {
    && Spells(b, HEADER_LEN, off, NameLabels(r.owner), j)
    && var h := Skip(b, off);
       && off <= h && h + 10 + |r.rdata| == e <= |b|
       && b[h..h + 10] == FixedPart(r) && b[h + 10..e] == r.rdata
  }

  /** The records rs lie one after the other from off to e. */
  ghost predicate AllPackedAt(b: Bytes, off: nat, rs: seq<RR>, e: nat, j: nat)
    decreases |rs|
  {
    if rs == [] then off == e
    else exists m: nat :: PackedAt(b, off, rs[0], m, j) && AllPackedAt(b, m, rs[1..], e, j)
  }

  ghost predicate QuestionAt(b: Bytes, off: nat, q: Question, e: nat, j: nat) {
    && Spells(b, HEADER_LEN, off, NameLabels(q.name), j)
    && var h := Skip(b, off); off <= h && h + 4 == e <= |b| && b[h..e] == PutU16(q.qtype) + PutU16(q.cls)
  }

  /** The questions lie one after the other from off to e. */
  ghost predicate QuestionsAt(b: Bytes, off: nat, qs: seq<Question>, e: nat, j: nat)
    decreases |qs|
  {
    if qs == [] then off == e
    else exists m: nat :: QuestionAt(b, off, qs[0], m, j) && QuestionsAt(b, m, qs[1..], e, j)
  }

  /** The first question's name is spelled without jumps. */
  ghost predicate FirstPlain(b: Bytes, qs: seq<Question>) {
    qs != [] ==> exists e: nat :: QuestionAt(b, HEADER_LEN, qs[0], e, 0)
  }

  lemma PlainHere(b: Bytes, qs: seq<Question>, e: nat)
    requires qs != [] && QuestionAt(b, HEADER_LEN, qs[0], e, 0)
    ensures FirstPlain(b, qs)
  {
  }

  lemma PlainExtends(b: Bytes, b': Bytes, qs: seq<Question>)
    requires FirstPlain(b, qs) && Extends(b, b', HEADER_LEN)
    ensures FirstPlain(b', qs)
  {
    hide QuestionAt;
    if e: nat :| qs != [] && QuestionAt(b, HEADER_LEN, qs[0], e, 0) { QuestionExtends(b, b', HEADER_LEN, qs[0], e, 0); }
  }

  // ---- the layout survives later writes ----

  lemma RecordExtends(b: Bytes, b': Bytes, off: nat, r: RR, e: nat, j: nat, j': nat)
    requires PackedAt(b, off, r, e, j) && Extends(b, b', HEADER_LEN) && j <= j'
    ensures PackedAt(b', off, r, e, j')
  {
    hide Spells, FixedPart, NameLabels;
    SpellsExtends(b, b', HEADER_LEN, off, NameLabels(r.owner), j);
    SpellsMore(b', HEADER_LEN, off, NameLabels(r.owner), j, j');
    SkipExtends(b, b', HEADER_LEN, off, NameLabels(r.owner), j);
    var h := Skip(b, off);
    SpellsFrom(b, HEADER_LEN, off, NameLabels(r.owner), j);
    assert b'[h..h + 10] == b[h..h + 10];
    assert b'[h + 10..e] == b[h + 10..e];
  }

  lemma SpellsFrom(b: Bytes, lo: nat, off: nat, ls: seq<Bytes>, d: nat)
    requires Spells(b, lo, off, ls, d)
    ensures lo <= off < |b|
  {
  }

  lemma {:induction false} RecordsExtend(b: Bytes, b': Bytes, off: nat, rs: seq<RR>, e: nat, j: nat, j': nat)
    requires AllPackedAt(b, off, rs, e, j) && Extends(b, b', HEADER_LEN) && j <= j'
    ensures AllPackedAt(b', off, rs, e, j')
    decreases |rs|
  {
    hide PackedAt;
    if rs != [] {
      var m: nat :| PackedAt(b, off, rs[0], m, j) && AllPackedAt(b, m, rs[1..], e, j);
      RecordExtends(b, b', off, rs[0], m, j, j');
      RecordsExtend(b, b', m, rs[1..], e, j, j');
    }
  }

  lemma {:induction false} RecordsAppend(b: Bytes, off: nat, rs: seq<RR>, m: nat, rs': seq<RR>, e: nat, j: nat)
    requires AllPackedAt(b, off, rs, m, j) && AllPackedAt(b, m, rs', e, j)
    ensures AllPackedAt(b, off, rs + rs', e, j)
    decreases |rs|
  {
    hide PackedAt;
    if rs == [] {
      assert rs + rs' == rs';
    } else {
      var k: nat :| PackedAt(b, off, rs[0], k, j) && AllPackedAt(b, k, rs[1..], m, j);
      RecordsAppend(b, k, rs[1..], m, rs', e, j);
      assert (rs + rs')[0] == rs[0] && (rs + rs')[1..] == rs[1..] + rs';
    }
  }

  lemma RecordsOne(b: Bytes, off: nat, r: RR, e: nat, j: nat)
    requires PackedAt(b, off, r, e, j)
    ensures AllPackedAt(b, off, [r], e, j)
  {
    assert [r][1..] == [];
    assert AllPackedAt(b, e, [], e, j);
  }

  lemma QuestionExtends(b: Bytes, b': Bytes, off: nat, q: Question, e: nat, j: nat)
    requires QuestionAt(b, off, q, e, j) && Extends(b, b', HEADER_LEN)
    ensures QuestionAt(b', off, q, e, j)
  {
    hide Spells, NameLabels;
    SpellsExtends(b, b', HEADER_LEN, off, NameLabels(q.name), j);
    SkipExtends(b, b', HEADER_LEN, off, NameLabels(q.name), j);
    SpellsFrom(b, HEADER_LEN, off, NameLabels(q.name), j);
    assert b'[Skip(b, off)..e] == b[Skip(b, off)..e];
  }

  // ---- reading ----

  /** A question with its end. */
  datatype Asked = Asked(question: Question, end: nat)

  function ReadQuestion(b: Bytes, off: nat): Option<Asked> {
    match Decode(b, off)
    case Failed(_) => None
    case Name(ls, h) =>
      if h + 4 > |b| then None
      else
        var t := GetU16(b[h..h + 2]);
        if t == TYPE_OPT then None else Some(Asked(Question(NameText(ls), t, GetU16(b[h + 2..h + 4])), h + 4))
  }

  function SkipRecord(b: Bytes, off: nat): Option<nat> {
    match Decode(b, off)
    case Failed(_) => None
    case Name(_, h) =>
      if h + 10 > |b| then None
      else
        var e := h + 10 + GetU16(b[h + 8..h + 10]);
        if e > |b| then None else Some(e)
  }

  function SkipRecords(b: Bytes, off: nat, n: nat): Option<nat>
    decreases n
  {
    if n == 0 then Some(off)
    else match SkipRecord(b, off)
         case None => None
         case Some(e) => SkipRecords(b, e, n - 1)
  }

  datatype Edns = Edns(size: int, dnssecOk: bool, extRCode: int)

  const NO_EDNS := Edns(0, false, 0)

  function ReadOPT(b: Bytes, h: nat): Edns
    requires h + 10 <= |b|
  {
    Edns(GetU16(b[h + 2..h + 4]), b[h + 6] >= 128, b[h + 4])
  }

  /** The additional section: skips its records and takes at most one OPT. */
  function ReadAdditional(b: Bytes, off: nat, n: nat, found: Option<Edns>): Option<Edns>
    decreases n
  {
    if n == 0 then Some(if found.Some? then found.value else NO_EDNS)
    else match Decode(b, off)
         case Failed(_) => None
         case Name(_, h) =>
           if h + 10 > |b| then None
           else
             var isOpt := GetU16(b[h..h + 2]) == TYPE_OPT;
             var e := h + 10 + GetU16(b[h + 8..h + 10]);
             if isOpt && found.Some? then None
             else if e > |b| then None
             else ReadAdditional(b, e, n - 1, if isOpt then Some(ReadOPT(b, h)) else found)
  }

  datatype Counts = Counts(qd: nat, an: nat, ns: nat, ar: nat)
  datatype Message = Message(id: U16, flags: U16, counts: Counts, questions: seq<Question>, edns: Edns)

  function ReadCounts(b: Bytes): Counts
    requires |b| >= HEADER_LEN
  {
    Counts(GetU16(b[4..6]), GetU16(b[6..8]), GetU16(b[8..10]), GetU16(b[10..12]))
  }

  datatype AskedAll = AskedAll(questions: seq<Question>, end: nat)

  function ReadQuestions(b: Bytes, off: nat, n: nat): Option<AskedAll>
    decreases n
  {
    if n == 0 then Some(AskedAll([], off))
    else match ReadQuestion(b, off)
         case None => None
         case Some(q) =>
           match ReadQuestions(b, q.end, n - 1)
           case None => None
           case Some(rest) => Some(AskedAll([q.question] + rest.questions, rest.end))
  }

  function Unpack(b: Bytes): Option<Message> {
    if |b| < HEADER_LEN then None
    else
      var c := ReadCounts(b);
      if c.qd > MAX_QUESTIONS then None
      else match ReadQuestions(b, HEADER_LEN, c.qd)
           case None => None
           case Some(asked) =>
             match SkipRecords(b, asked.end, c.an + c.ns)
             case None => None
             case Some(e') =>
               match ReadAdditional(b, e', c.ar, None)
               case None => None
               case Some(edns) => Some(Message(GetU16(b[..2]), GetU16(b[2..4]), c, asked.questions, edns))
  }

  // ---- reading what was laid out ----

  predicate ShortName(name: Bytes) {
    TextSize(NameLabels(name)) <= MAX_NAME
  }

  /** The text reads back as the labels of the name, up to case. */
  predicate NamedAs(text: Bytes, name: Bytes) {
    LowerAll(text) == NameText(NameLabels(name))
  }

  predicate SameQuestion(r: Question, q: Question) {
    NamedAs(r.name, q.name) && r.qtype == q.qtype && r.cls == q.cls
  }

  lemma ReadsQuestion(b: Bytes, off: nat, q: Question, e: nat, j: nat)
    requires QuestionAt(b, off, q, e, j) && j <= MAX_JUMPS && ShortName(q.name) && q.qtype != TYPE_OPT
    ensures var r := ReadQuestion(b, off); r.Some? && r.value.end == e && SameQuestion(r.value.question, q)
  {
    hide Spells, DecodeAt, NameLabels, TextSize, NameText;
    if Decode(b, off).Name? { LowerNameText(Decode(b, off).labels); }
    SpelledDecodes(b, HEADER_LEN, off, NameLabels(q.name), j, 0, 0);
    var h := Skip(b, off);
    assert b[h..h + 2] == b[h..e][..2] == PutU16(q.qtype);
    assert b[h + 2..h + 4] == b[h..e][2..] == PutU16(q.cls);
  }

  lemma SliceOfSlice(b: Bytes, i: nat, j: nat, x: nat, y: nat)
    requires i <= j <= |b| && x <= y <= j - i
    ensures b[i..j][x..y] == b[i + x..i + y]
  {
    var l, r := b[i..j][x..y], b[i + x..i + y];
    forall k | 0 <= k < |l| ensures l[k] == r[k] {
      assert l[k] == b[i..j][x + k] == b[i + (x + k)];
    }
  }

  lemma PackedFields(b: Bytes, h: nat, r: RR)
    requires h + 10 <= |b| && b[h..h + 10] == FixedPart(r)
    ensures GetU16(b[h..h + 2]) == r.rtype && GetU16(b[h + 2..h + 4]) == r.cls
    ensures GetU16(b[h + 8..h + 10]) == |r.rdata| % 0x1_0000
    ensures b[h + 4..h + 8] == PutU32(r.ttl)
  {
    hide PutU16, PutU32, GetU16;
    var f := FixedPart(r);
    SliceOfSlice(b, h, h + 10, 0, 2);
    SliceOfSlice(b, h, h + 10, 2, 4);
    SliceOfSlice(b, h, h + 10, 4, 8);
    SliceOfSlice(b, h, h + 10, 8, 10);
    assert f[0..2] == PutU16(r.rtype);
    assert f[2..4] == PutU16(r.cls);
    assert f[4..8] == PutU32(r.ttl);
    assert f[8..10] == PutU16(|r.rdata| % 0x1_0000);
    U16RoundTrip(r.rtype);
    U16RoundTrip(r.cls);
    U16RoundTrip(|r.rdata| % 0x1_0000);
  }

  lemma SkipsRecord(b: Bytes, off: nat, r: RR, e: nat, j: nat)
    requires PackedAt(b, off, r, e, j) && j <= MAX_JUMPS && ShortName(r.owner) && |b| <= MAX_TCP
    ensures SkipRecord(b, off) == Some(e)
    ensures Decode(b, off).Name? && Decode(b, off).next == Skip(b, off)
  {
    hide Spells, DecodeAt, NameLabels, TextSize, FixedPart;
    SpelledDecodes(b, HEADER_LEN, off, NameLabels(r.owner), j, 0, 0);
    PackedFields(b, Skip(b, off), r);
  }

  ghost predicate AllShort(rs: seq<RR>) {
    forall i :: 0 <= i < |rs| ==> ShortName(rs[i].owner)
  }

  lemma {:induction false} SkipsRecords(b: Bytes, off: nat, rs: seq<RR>, e: nat, j: nat)
    requires AllPackedAt(b, off, rs, e, j) && j <= MAX_JUMPS && AllShort(rs) && |b| <= MAX_TCP
    ensures SkipRecords(b, off, |rs|) == Some(e)
    decreases |rs|
  {
    hide PackedAt, SkipRecord, ShortName;
    if rs != [] {
      var m: nat :| PackedAt(b, off, rs[0], m, j) && AllPackedAt(b, m, rs[1..], e, j);
      SkipsRecord(b, off, rs[0], m, j);
      SkipsRecords(b, m, rs[1..], e, j);
    }
  }

  /** The settings carried by an OPT record. */
  function EdnsOf(r: RR): Edns {
    Edns(r.cls, PutU32(r.ttl)[2] >= 128, PutU32(r.ttl)[0])
  }

  ghost predicate NoOPT(rs: seq<RR>) {
    forall i :: 0 <= i < |rs| ==> rs[i].rtype != TYPE_OPT
  }

  lemma ReadsOPT(b: Bytes, h: nat, r: RR)
    requires h + 10 <= |b| && b[h..h + 10] == FixedPart(r)
    ensures ReadOPT(b, h) == EdnsOf(r)
  {
    hide FixedPart, PutU32, GetU16;
    PackedFields(b, h, r);
    assert b[h + 4..h + 8][0] == b[h + 4] && b[h + 4..h + 8][2] == b[h + 6];
  }

  lemma AdditionalStep(b: Bytes, off: nat, r: RR, e: nat, j: nat, n: nat, found: Option<Edns>)
    requires PackedAt(b, off, r, e, j) && j <= MAX_JUMPS && ShortName(r.owner) && |b| <= MAX_TCP && n > 0
    requires r.rtype == TYPE_OPT ==> found.None?
    ensures ReadAdditional(b, off, n, found) ==
            ReadAdditional(b, e, n - 1, if r.rtype == TYPE_OPT then Some(EdnsOf(r)) else found)
  {
    hide ShortName, FixedPart, GetU16, DecodeAt, Spells, EdnsOf, ReadOPT;
    SkipsRecord(b, off, r, e, j);
    var h := Skip(b, off);
    PackedFields(b, h, r);
    ReadsOPT(b, h, r);
  }

  /** An additional section whose only OPT, if any, comes last. */
  lemma {:induction false} ReadsAdditional(b: Bytes, off: nat, rs: seq<RR>, opt: Option<RR>, m: nat, e: nat, j: nat)
    requires AllPackedAt(b, off, rs, m, j) && j <= MAX_JUMPS && AllShort(rs) && NoOPT(rs) && |b| <= MAX_TCP
    requires opt.Some? ==> PackedAt(b, m, opt.value, e, j) && opt.value.rtype == TYPE_OPT && ShortName(opt.value.owner)
    ensures ReadAdditional(b, off, |rs| + (if opt.Some? then 1 else 0), None) ==
            Some(if opt.Some? then EdnsOf(opt.value) else NO_EDNS)
    decreases |rs|
  {
    hide ShortName, PackedAt, EdnsOf, ReadOPT, DecodeAt, GetU16;
    var n := |rs| + (if opt.Some? then 1 else 0);
    if rs == [] {
      if opt.Some? { AdditionalStep(b, m, opt.value, e, j, 1, None); }
    } else {
      var k: nat :| PackedAt(b, off, rs[0], k, j) && AllPackedAt(b, k, rs[1..], m, j);
      AdditionalStep(b, off, rs[0], k, j, n, None);
      ReadsAdditional(b, k, rs[1..], opt, m, e, j);
    }
  }
}
