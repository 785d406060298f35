/** Which byte strings unpack, and to what (internal/dns/unpack.go), in terms of where names and records lie. */
module Unpacking {
  import opened Octets
  import opened Records
  import opened WireNames
  import opened MessageLayout
  import opened UpdateSections

  function Word(b: Bytes, i: nat): nat
    requires i + 2 <= |b|
  {
    b[i] as int * 256 + b[i + 1]
  }

  lemma WordIs(b: Bytes, i: nat)
    requires i + 2 <= |b|
    ensures GetU16(b[i..i + 2]) == Word(b, i)
  {
  }

  /** A name the decoder takes lies from off to h. */
  ghost predicate NameEnds(b: Bytes, off: nat, h: nat) {
    exists ls :: NameAt(b, off, ls, h)
  }

  lemma EndsIff(b: Bytes, off: nat, h: nat)
    ensures NameEnds(b, off, h) <==> Decode(b, off).Name? && Decode(b, off).next == h
  {
    hide NameAt, DecodeAt, LowerLabels;
    if ls :| NameAt(b, off, ls, h) { ReadsNameIff(b, off, ls, h); }
    if Decode(b, off).Name? { ReadsNameIff(b, off, LowerLabels(Decode(b, off).labels), Decode(b, off).next); }
  }

  // ---- records ----

  /** A record with its fixed fields at h and as much data as they say lies from off to e. */
  ghost predicate RecordOf(b: Bytes, off: nat, h: nat, e: nat) {
    NameEnds(b, off, h) && h + 10 <= |b| && e == h + 10 + Word(b, h + 8) <= |b|
  }

  /** Records with their fixed fields at heads lie from off to e, one after another. */
  ghost predicate RecordsFrom(b: Bytes, off: nat, heads: seq<nat>, e: nat)
    decreases |heads|
  {
    if heads == [] then off == e
    else exists next: nat :: RecordOf(b, off, heads[0], next) && RecordsFrom(b, next, heads[1..], e)
  }

  lemma SkipIff(b: Bytes, off: nat, h: nat, e: nat)
    ensures RecordOf(b, off, h, e) <==>
            Decode(b, off).Name? && Decode(b, off).next == h && SkipRecord(b, off) == Some(e)
  {
    hide DecodeAt, GetU16, NameEnds;
    EndsIff(b, off, h);
    if h + 10 <= |b| { WordIs(b, h + 8); }
  }

  /** n records are skipped to e if and only if that many lie there. */
  lemma {:induction false} SkipsIff(b: Bytes, off: nat, n: nat, e: nat)
    ensures SkipRecords(b, off, n) == Some(e) <==> exists heads :: |heads| == n && RecordsFrom(b, off, heads, e)
    decreases n
  {
    hide RecordOf, SkipRecord, Decode;
    if n == 0 {
      assert RecordsFrom(b, off, [], off);
    } else {
      if heads :| |heads| == n && RecordsFrom(b, off, heads, e) {
        var next: nat :| RecordOf(b, off, heads[0], next) && RecordsFrom(b, next, heads[1..], e);
        SkipIff(b, off, heads[0], next);
        SkipsIff(b, next, n - 1, e);
        assert |heads[1..]| == n - 1;
      }
      if SkipRecords(b, off, n) == Some(e) {
        var next := SkipRecord(b, off).value;
        SkipsIff(b, next, n - 1, e);
        var rest :| |rest| == n - 1 && RecordsFrom(b, next, rest, e);
        SkipNamed(b, off);
        var h := Decode(b, off).next;
        SkipIff(b, off, h, next);
        assert ([h] + rest)[1..] == rest;
        assert RecordsFrom(b, off, [h] + rest, e);
      }
    }
  }

  lemma SkipNamed(b: Bytes, off: nat)
    requires SkipRecord(b, off).Some?
    ensures Decode(b, off).Name?
  {
  }

  // ---- the OPT record ----

  /** The settings of the OPT records among those with fixed fields at heads. */
  ghost function Options(b: Bytes, heads: seq<nat>): seq<Edns>
    requires forall i :: 0 <= i < |heads| ==> heads[i] + 10 <= |b|
  {
    if heads == [] then []
    else
      var h := heads[0];
      (if Word(b, h) == 41 then [Edns(Word(b, h + 2), b[h + 6] >= 128, b[h + 4])] else []) + Options(b, heads[1..])
  }

  ghost predicate Settled(os: seq<Edns>, found: Option<Edns>, edns: Edns) {
    match found
    case Some(x) => os == [] && edns == x
    case None => (os == [] && edns == NO_EDNS) || os == [edns]
  }

  /** Records lie there, at most one of them OPT, which decides the settings. */
  ghost predicate AddedAt(b: Bytes, off: nat, heads: seq<nat>, e: nat, found: Option<Edns>, edns: Edns) {
    && (forall i :: 0 <= i < |heads| ==> heads[i] + 10 <= |b|)
    && RecordsFrom(b, off, heads, e) && Settled(Options(b, heads), found, edns)
  }

  lemma OptionsCons(b: Bytes, h: nat, rest: seq<nat>)
    requires h + 10 <= |b| && forall i :: 0 <= i < |rest| ==> rest[i] + 10 <= |b|
    ensures Options(b, [h] + rest) == (if Word(b, h) == 41 then [ReadOPT(b, h)] else []) + Options(b, rest)
  {
    hide GetU16;
    assert ([h] + rest)[1..] == rest;
    WordIs(b, h + 2);
  }

  lemma SettledStep(isOpt: bool, x: Edns, os: seq<Edns>, found: Option<Edns>, edns: Edns)
    ensures Settled((if isOpt then [x] else []) + os, found, edns) <==>
            !(isOpt && found.Some?) && Settled(os, if isOpt then Some(x) else found, edns)
  {
    if isOpt {
      assert ([x] + os)[0] == x;
      if os == [] { assert [x] + os == [x]; }
    } else {
      assert [] + os == os;
    }
  }

  lemma NoneAdded(b: Bytes, off: nat, found: Option<Edns>, edns: Edns)
    ensures ReadAdditional(b, off, 0, found) == Some(edns) <==> AddedAt(b, off, [], off, found, edns)
    ensures forall e :: AddedAt(b, off, [], e, found, edns) ==> e == off
  {
  }

  /** One record of the section, read. */
  lemma AdditionalOne(b: Bytes, off: nat, h: nat, next: nat, n: nat, found: Option<Edns>)
    requires RecordOf(b, off, h, next) && n > 0
    ensures ReadAdditional(b, off, n, found) ==
            if Word(b, h) == 41 && found.Some? then None
            else ReadAdditional(b, next, n - 1, if Word(b, h) == 41 then Some(ReadOPT(b, h)) else found)
  {
    hide DecodeAt, GetU16, NameEnds, ReadOPT;
    EndsIff(b, off, h);
    WordIs(b, h);
    WordIs(b, h + 8);
  }

  lemma AddedReads(b: Bytes, off: nat, heads: seq<nat>, e: nat, found: Option<Edns>, edns: Edns) returns (next: nat)
    requires heads != [] && AddedAt(b, off, heads, e, found, edns)
    ensures heads[0] + 10 <= |b| && RecordOf(b, off, heads[0], next) && !(Word(b, heads[0]) == 41 && found.Some?)
    ensures AddedAt(b, next, heads[1..], e, if Word(b, heads[0]) == 41 then Some(ReadOPT(b, heads[0])) else found, edns)
  {
    hide RecordOf, Options, Settled, ReadOPT, Word;
    var h, rest := heads[0], heads[1..];
    assert heads == [h] + rest;
    assert forall i :: 0 <= i < |rest| ==> rest[i] == heads[i + 1];
    next :| RecordOf(b, off, h, next) && RecordsFrom(b, next, rest, e);
    OptionsCons(b, h, rest);
    SettledStep(Word(b, h) == 41, ReadOPT(b, h), Options(b, rest), found, edns);
  }

  lemma AddedCons(b: Bytes, off: nat, h: nat, next: nat, rest: seq<nat>, e: nat, found: Option<Edns>, edns: Edns)
    requires RecordOf(b, off, h, next) && h + 10 <= |b| && !(Word(b, h) == 41 && found.Some?)
    requires AddedAt(b, next, rest, e, if Word(b, h) == 41 then Some(ReadOPT(b, h)) else found, edns)
    ensures AddedAt(b, off, [h] + rest, e, found, edns)
  {
    hide RecordOf, Options, Settled, ReadOPT, Word;
    var heads := [h] + rest;
    assert heads[1..] == rest;
    assert forall i :: 0 < i < |heads| ==> heads[i] == rest[i - 1];
    OptionsCons(b, h, rest);
    SettledStep(Word(b, h) == 41, ReadOPT(b, h), Options(b, rest), found, edns);
  }

  lemma {:induction false} AddedRead(b: Bytes, off: nat, heads: seq<nat>, e: nat, found: Option<Edns>, edns: Edns)
    requires AddedAt(b, off, heads, e, found, edns)
    ensures ReadAdditional(b, off, |heads|, found) == Some(edns)
    decreases |heads|
  {
    hide AddedAt, RecordOf, ReadOPT, Word, ReadAdditional;
    if heads == [] {
      AddedNone(b, off, e, found, edns);
    } else {
      var h := heads[0];
      var next := AddedReads(b, off, heads, e, found, edns);
      AdditionalOne(b, off, h, next, |heads|, found);
      AddedRead(b, next, heads[1..], e, if Word(b, h) == 41 then Some(ReadOPT(b, h)) else found, edns);
    }
  }

  lemma AddedNone(b: Bytes, off: nat, e: nat, found: Option<Edns>, edns: Edns)
    requires AddedAt(b, off, [], e, found, edns)
    ensures ReadAdditional(b, off, 0, found) == Some(edns)
  {
  }

  /** What the first record of a section that was read is. */
  lemma FirstAdded(b: Bytes, off: nat, n: nat, found: Option<Edns>) returns (h: nat, next: nat)
    requires n > 0 && ReadAdditional(b, off, n, found).Some?
    ensures RecordOf(b, off, h, next) && h + 10 <= |b|
  {
    hide DecodeAt, GetU16, NameEnds, ReadOPT;
    h := Decode(b, off).next;
    EndsIff(b, off, h);
    WordIs(b, h + 8);
    next := h + 10 + GetU16(b[h + 8..h + 10]);
  }

  lemma {:induction false} ReadAdded(b: Bytes, off: nat, n: nat, found: Option<Edns>, edns: Edns)
    requires ReadAdditional(b, off, n, found) == Some(edns)
    ensures exists heads, e :: |heads| == n && AddedAt(b, off, heads, e, found, edns)
    decreases n
  {
    hide AddedAt, RecordOf, ReadOPT, Word, ReadAdditional;
    if n == 0 {
      NoneAdded(b, off, found, edns);
    } else {
      var h, next := FirstAdded(b, off, n, found);
      AdditionalOne(b, off, h, next, n, found);
      var found' := if Word(b, h) == 41 then Some(ReadOPT(b, h)) else found;
      ReadAdded(b, next, n - 1, found', edns);
      var rest, e :| |rest| == n - 1 && AddedAt(b, next, rest, e, found', edns);
      AddedCons(b, off, h, next, rest, e, found, edns);
      assert |[h] + rest| == n;
    }
  }

  /** The additional section of n records reads if and only if they lie there with at most one OPT among them. */
  lemma AdditionalIff(b: Bytes, off: nat, n: nat, edns: Edns)
    ensures ReadAdditional(b, off, n, None) == Some(edns) <==>
            exists heads, e :: |heads| == n && AddedAt(b, off, heads, e, None, edns)
  {
    hide AddedAt, ReadAdditional;
    if heads, e :| |heads| == n && AddedAt(b, off, heads, e, None, edns) { AddedRead(b, off, heads, e, None, edns); }
    if ReadAdditional(b, off, n, None) == Some(edns) { ReadAdded(b, off, n, None, edns); }
  }

  // ---- questions ----

  /** A question of any type but OPT lies from off to e. */
  ghost predicate QuestionOf(b: Bytes, off: nat, q: Question, e: nat) {
    exists ls, h: nat ::
      && NameAt(b, off, ls, h) && LowerAll(q.name) == NameText(ls)
      && h + 4 == e <= |b| && q.qtype == Word(b, h) != 41 && q.cls == Word(b, h + 2)
  }

  ghost predicate QuestionsFrom(b: Bytes, off: nat, qs: seq<Question>, e: nat)
    decreases |qs|
  {
    if qs == [] then off == e
    else exists next: nat :: QuestionOf(b, off, qs[0], next) && QuestionsFrom(b, next, qs[1..], e)
  }

  /** A question is read where one lies, up to the case of its name. */
  lemma AskedIff(b: Bytes, off: nat, e: nat)
    ensures var r := ReadQuestion(b, off);
            && (r.Some? && r.value.end == e <==> exists q :: QuestionOf(b, off, q, e))
            && (r.Some? ==> QuestionOf(b, off, r.value.question, r.value.end))
  {
    hide DecodeAt, GetU16, NameAt, NameText, LowerAll, LowerLabels;
    if q :| QuestionOf(b, off, q, e) {
      var ls, h: nat :| NameAt(b, off, ls, h) && h + 4 == e <= |b| && Word(b, h) != 41;
      ReadsNameIff(b, off, ls, h);
      WordIs(b, h);
    }
    if ReadQuestion(b, off).Some? {
      var d := Decode(b, off);
      ReadsNameIff(b, off, LowerLabels(d.labels), d.next);
      LowerNameText(d.labels);
      WordIs(b, d.next);
      WordIs(b, d.next + 2);
      assert QuestionOf(b, off, ReadQuestion(b, off).value.question, d.next + 4);
    }
  }

  lemma {:induction false} AsksIff(b: Bytes, off: nat, n: nat, e: nat)
    ensures (ReadQuestions(b, off, n).Some? && ReadQuestions(b, off, n).value.end == e) <==>
            exists qs :: |qs| == n && QuestionsFrom(b, off, qs, e)
    ensures ReadQuestions(b, off, n).Some? ==>
              var r := ReadQuestions(b, off, n).value; |r.questions| == n && QuestionsFrom(b, off, r.questions, r.end)
    decreases n
  {
    hide QuestionOf, ReadQuestion;
    if n == 0 {
      assert QuestionsFrom(b, off, [], off);
    } else {
      if qs :| |qs| == n && QuestionsFrom(b, off, qs, e) {
        var next: nat :| QuestionOf(b, off, qs[0], next) && QuestionsFrom(b, next, qs[1..], e);
        AskedIff(b, off, next);
        AsksIff(b, next, n - 1, e);
        assert |qs[1..]| == n - 1;
      }
      if ReadQuestions(b, off, n).Some? {
        var q := ReadQuestion(b, off).value;
        AskedIff(b, off, q.end);
        AsksIff(b, q.end, n - 1, ReadQuestions(b, off, n).value.end);
        var r := ReadQuestions(b, q.end, n - 1).value;
        assert ([q.question] + r.questions)[1..] == r.questions;
        assert QuestionsFrom(b, off, [q.question] + r.questions, r.end);
      }
    }
  }

  // ---- messages ----

  /** The counted questions and records lie behind the header, at most one additional record of them OPT. */
  ghost predicate MessageOf(b: Bytes, qs: seq<Question>, heads: seq<nat>, more: seq<nat>, edns: Edns) {
    && |b| >= HEADER_LEN && Word(b, 4) == |qs| <= 10 && Word(b, 6) + Word(b, 8) == |heads| && Word(b, 10) == |more|
    && exists e1, e2, e3 ::
         QuestionsFrom(b, HEADER_LEN, qs, e1) && RecordsFrom(b, e1, heads, e2) && AddedAt(b, e2, more, e3, None, edns)
  }

  ghost predicate HoldsMessage(b: Bytes) {
    exists qs, heads, more, edns :: MessageOf(b, qs, heads, more, edns)
  }

  lemma CountsAre(b: Bytes)
    requires |b| >= HEADER_LEN
    ensures ReadCounts(b) == Counts(Word(b, 4), Word(b, 6), Word(b, 8), Word(b, 10))
  {
    hide GetU16;
    WordIs(b, 4);
    WordIs(b, 6);
    WordIs(b, 8);
    WordIs(b, 10);
  }

  /** For every byte string: it unpacks if and only if it holds a message, to its questions and settings. */
  lemma UnpackExactly(b: Bytes)
    ensures Unpack(b).Some? <==> HoldsMessage(b)
    ensures Unpack(b).Some? ==>
              exists heads, more :: MessageOf(b, Unpack(b).value.questions, heads, more, Unpack(b).value.edns)
  {
    hide ReadQuestions, SkipRecords, ReadAdditional, ReadCounts, GetU16, Word, AddedAt, QuestionsFrom, RecordsFrom;
    if |b| >= HEADER_LEN { CountsAre(b); }
    if qs, heads, more, edns :| MessageOf(b, qs, heads, more, edns) { MessageUnpacks(b, qs, heads, more, edns); }
    if Unpack(b).Some? { UnpacksMessage(b); }
  }

  lemma MessageUnpacks(b: Bytes, qs: seq<Question>, heads: seq<nat>, more: seq<nat>, edns: Edns)
    requires MessageOf(b, qs, heads, more, edns)
    ensures Unpack(b).Some?
  {
    hide ReadQuestions, SkipRecords, ReadAdditional, ReadCounts, GetU16, Word, AddedAt, QuestionsFrom, RecordsFrom;
    CountsAre(b);
    var e1, e2, e3 :|
      QuestionsFrom(b, HEADER_LEN, qs, e1) && RecordsFrom(b, e1, heads, e2) && AddedAt(b, e2, more, e3, None, edns);
    AsksIff(b, HEADER_LEN, |qs|, e1);
    SkipsIff(b, e1, |heads|, e2);
    AddedRead(b, e2, more, e3, None, edns);
  }

  lemma UnpacksMessage(b: Bytes)
    requires Unpack(b).Some?
    ensures exists heads, more :: MessageOf(b, Unpack(b).value.questions, heads, more, Unpack(b).value.edns)
  {
    hide ReadQuestions, SkipRecords, ReadAdditional, ReadCounts, GetU16, Word, AddedAt, QuestionsFrom, RecordsFrom;
    CountsAre(b);
    var c := ReadCounts(b);
    var asked := ReadQuestions(b, HEADER_LEN, c.qd).value;
    var e2 := SkipRecords(b, asked.end, c.an + c.ns).value;
    var edns := Unpack(b).value.edns;
    AsksIff(b, HEADER_LEN, c.qd, asked.end);
    SkipsIff(b, asked.end, c.an + c.ns, e2);
    ReadAdded(b, e2, c.ar, None, edns);
    var heads :| |heads| == c.an + c.ns && RecordsFrom(b, asked.end, heads, e2);
    var more, e3 :| |more| == c.ar && AddedAt(b, e2, more, e3, None, edns);
    assert MessageOf(b, asked.questions, heads, more, edns);
  }
}
