/** How far a response has come: where each name, question and record leads the packet writer (internal/dns/pack.go). */
module WritePlans {
  import opened Octets
  import opened Records
  import opened WireNames
  import opened Compression
  import opened MessageLayout

  /** First position that is not a dot. */
  function RealStart(name: Bytes, i: nat): (k: nat)
    requires i <= |name|
    ensures i <= k <= |name| && (k < |name| ==> name[k] != DOT)
    ensures forall j :: i <= j < k ==> name[j] == DOT
    decreases |name| - i
  {
    if i == |name| || name[i] != DOT then i else RealStart(name, i + 1)
  }

  /** Writing the name again would add nothing to the table. */
  ghost predicate Covered(table: seq<Suffix>, name: Bytes, offset: nat) {
    || |table| >= MAX_SUFFIXES || offset > MAX_POINTER
    || RealStart(name, 0) == |name| || InTable(table, name[RealStart(name, 0)..])
  }

  function Inserted(table: seq<Suffix>, suffix: Bytes, offset: nat): seq<Suffix> {
    if |table| >= MAX_SUFFIXES || offset > MAX_POINTER then table else table + [Suffix(suffix, offset)]
  }

  /** How far the writer is, and the suffixes it knows. */
  datatype Track = Track(off: nat, table: seq<Suffix>)

  ghost predicate AllUsable(table: seq<Suffix>) {
    forall i :: 0 <= i < |table| ==> Usable(table[i])
  }

  /** From position pos on: labels until a suffix that is known and a pointer to it, or all labels and a zero. */
  ghost function NameAfter(t: Track, name: Bytes, pos: nat): (r: Track)
    requires pos <= |name|
    ensures t.off < r.off <= t.off + |name| - pos + 2 && t.table <= r.table
    decreases |name| - pos
  {
    if pos == |name| then t.(off := t.off + 1)
    else if InTable(t.table, name[pos..]) then t.(off := t.off + 2)
    else
      var dot := NextDot(name, pos);
      var t' := if dot == pos then t else Track(t.off + 1 + dot - pos, Inserted(t.table, name[pos..], t.off));
      if dot == |name| then t'.(off := t'.off + 1) else NameAfter(t', name, dot + 1)
  }

  /** Nothing but dots, or the table has the name. */
  ghost predicate Known(table: seq<Suffix>, name: Bytes) {
    RealStart(name, 0) == |name| || InTable(table, name[RealStart(name, 0)..])
  }

  /** Bytes the label at pos takes, with the closing zero behind the last one. */
  function LabelTake(name: Bytes, pos: nat): nat
    requires pos <= |name|
  {
    var dot := NextDot(name, pos);
    1 + dot - pos + if dot == |name| then 1 else 0
  }

  function FirstTake(name: Bytes): nat {
    LabelTake(name, RealStart(name, 0))
  }

  /** What a known name is written as: the root, or a pointer to where it was spelled first. */
  ghost function KnownBytes(table: seq<Suffix>, name: Bytes): Bytes
    requires Known(table, name) && AllUsable(table)
  {
    var first := RealStart(name, 0);
    if first == |name| then [0]
    else
      assert Usable(table[FirstIndex(table, name[first..])]);
      PutU16(0xC000 + table[FirstIndex(table, name[first..])].off)
  }

  lemma KnownPointer(table: seq<Suffix>, name: Bytes)
    requires Known(table, name) && AllUsable(table) && RealStart(name, 0) < |name|
    ensures InTable(table, name[RealStart(name, 0)..])
    ensures table[FirstIndex(table, name[RealStart(name, 0)..])].off <= MAX_POINTER
    ensures KnownBytes(table, name) == PutU16(0xC000 + table[FirstIndex(table, name[RealStart(name, 0)..])].off)
  {
  }

  lemma DottedUnknown(table: seq<Suffix>, s: Bytes)
    requires AllUsable(table) && s != [] && s[0] == DOT
    ensures !InTable(table, s)
  {
    forall i | 0 <= i < |table| ensures !EqualFold(table[i].name, s) {
      assert Usable(table[i]);
      assert Lower(table[i].name[0]) != Lower(s[0]);
    }
  }

  lemma InTableGrows(table: seq<Suffix>, table': seq<Suffix>, name: Bytes)
    requires InTable(table, name) && table <= table'
    ensures InTable(table', name) && FirstIndex(table', name) == FirstIndex(table, name)
  {
    assert forall i :: 0 <= i < |table| ==> table'[i] == table[i];
  }

  lemma CoveredGrows(table: seq<Suffix>, table': seq<Suffix>, name: Bytes, offset: nat, offset': nat)
    requires Covered(table, name, offset) && table <= table' && offset <= offset'
    ensures Covered(table', name, offset')
  {
    var first := RealStart(name, 0);
    if InTable(table, name[first..]) {
      var i :| 0 <= i < |table| && EqualFold(table[i].name, name[first..]);
      assert table'[i] == table[i];
    }
  }

  // ---- names ----

  /** Leading dots write nothing. */
  lemma {:induction false} AfterDots(t: Track, name: Bytes, pos: nat)
    requires AllUsable(t.table) && pos <= |name|
    ensures NameAfter(t, name, pos) == NameAfter(t, name, RealStart(name, pos))
    decreases |name| - pos
  {
    hide InTable;
    if pos < |name| && name[pos] == DOT {
      assert name[pos..][0] == DOT;
      DottedUnknown(t.table, name[pos..]);
      AfterDots(t, name, pos + 1);
    }
  }

  lemma {:induction false} FullStays(t: Track, name: Bytes, pos: nat)
    requires pos <= |name| && (|t.table| >= MAX_SUFFIXES || t.off > MAX_POINTER)
    ensures NameAfter(t, name, pos).table == t.table
    decreases |name| - pos
  {
    hide InTable;
    if pos < |name| && !InTable(t.table, name[pos..]) && NextDot(name, pos) < |name| {
      var dot := NextDot(name, pos);
      FullStays(if dot == pos then t else Track(t.off + 1 + dot - pos, t.table), name, dot + 1);
    }
  }

  /** Afterwards the name is covered; a covered name adds nothing, any other enters its whole text first. */
  lemma AfterCovers(t: Track, name: Bytes)
    requires AllUsable(t.table)
    ensures var r := NameAfter(t, name, 0);
            && Covered(r.table, name, r.off)
            && (Covered(t.table, name, t.off) ==> r.table == t.table)
            && (!Covered(t.table, name, t.off) ==> t.table + [Suffix(name[RealStart(name, 0)..], t.off)] <= r.table)
  {
    hide InTable, EqualFold;
    AfterDots(t, name, 0);
    var first, r := RealStart(name, 0), NameAfter(t, name, 0);
    if |t.table| >= MAX_SUFFIXES || t.off > MAX_POINTER {
      FullStays(t, name, 0);
    } else if first < |name| && !InTable(t.table, name[first..]) {
      var more := t.table + [Suffix(name[first..], t.off)];
      assert more == Inserted(t.table, name[first..], t.off);
      assert more <= r.table;
      EntryFound(t.table, r.table, name[first..], t.off);
    }
  }

  lemma EntryFound(table: seq<Suffix>, table': seq<Suffix>, name: Bytes, off: nat)
    requires table + [Suffix(name, off)] <= table'
    ensures InTable(table', name) && (!InTable(table, name) ==> FirstIndex(table', name) == |table|)
  {
    assert table'[|table|] == (table + [Suffix(name, off)])[|table|];
    assert EqualFold(table'[|table|].name, name);
    var k := FirstIndex(table', name);
    if k < |table| { assert table'[k] == table[k]; }
  }

  lemma AfterKnown(t: Track, name: Bytes)
    requires AllUsable(t.table) && Known(t.table, name)
    ensures NameAfter(t, name, 0) == Track(t.off + (if RealStart(name, 0) == |name| then 1 else 2), t.table)
  {
    hide InTable;
    AfterDots(t, name, 0);
  }

  lemma {:induction false} AfterUsable(t: Track, name: Bytes, pos: nat)
    requires AllUsable(t.table) && pos <= |name|
    ensures AllUsable(NameAfter(t, name, pos).table)
    decreases |name| - pos
  {
    hide InTable;
    if pos < |name| && !InTable(t.table, name[pos..]) {
      var dot := NextDot(name, pos);
      if dot == pos {
        AfterUsable(t, name, dot + 1);
      } else {
        assert name[pos..][0] == name[pos];
        if dot < |name| {
          AfterUsable(Track(t.off + 1 + dot - pos, Inserted(t.table, name[pos..], t.off)), name, dot + 1);
        }
      }
    }
  }

  /** An unknown name takes its first label, which is more than a pointer takes. */
  lemma AfterUnknown(t: Track, name: Bytes)
    requires AllUsable(t.table) && !Known(t.table, name)
    ensures NameAfter(t, name, 0).off > t.off + 2 && NameAfter(t, name, 0).off >= t.off + FirstTake(name)
  {
    hide InTable;
    AfterDots(t, name, 0);
  }

  /** A known owner takes the same room with any table. */
  lemma {:induction false} KnownFit(t: seq<Suffix>, t': seq<Suffix>, off: nat, owner: Bytes, rs: seq<RR>, cap: nat)
    requires AllUsable(t) && AllUsable(t') && Known(t, owner) && Known(t', owner)
    requires AllUnder(owner, rs)
    ensures Fit(Track(off, t), rs, cap) == Fit(Track(off, t'), rs, cap)
    ensures forall k :: 0 <= k <= |rs| ==>
              RecordsAfter(Track(off, t), rs[..k]) == RecordsAfter(Track(off, t'), rs[..k]).(table := t)
    decreases |rs|
  {
    if rs != [] {
      hide InTable, Known, AllUsable;
      var take := (if RealStart(owner, 0) == |owner| then 1 else 2) + 10 + |rs[0].rdata|;
      AfterKnown(Track(off, t), owner);
      AfterKnown(Track(off, t'), owner);
      assert RecordAfter(Track(off, t), rs[0]) == Track(off + take, t);
      assert RecordAfter(Track(off, t'), rs[0]) == Track(off + take, t');
      KnownFit(t, t', off + take, owner, rs[1..], cap);
      forall k | 0 < k <= |rs|
        ensures RecordsAfter(Track(off, t), rs[..k]) == RecordsAfter(Track(off, t'), rs[..k]).(table := t)
      {
        assert rs[..k][0] == rs[0] && rs[..k][1..] == rs[1..][..k - 1];
      }
    }
  }

  lemma KnownGrows(table: seq<Suffix>, table': seq<Suffix>, name: Bytes)
    requires Known(table, name) && table <= table'
    ensures Known(table', name)
  {
    if RealStart(name, 0) < |name| { InTableGrows(table, table', name[RealStart(name, 0)..]); }
  }

  /** The first name of a message can always be pointed to. */
  lemma FirstKnown(off: nat, name: Bytes)
    requires off <= MAX_POINTER
    ensures Known(NameAfter(Track(off, []), name, 0).table, name)
  {
    hide InTable;
    var t := Track(off, []);
    AfterCovers(t, name);
    AfterDots(t, name, 0);
    if !Covered(t.table, name, off) {
      EntryFound([], NameAfter(t, name, 0).table, name[RealStart(name, 0)..], off);
    } else if RealStart(name, 0) < |name| {
      NothingKnown(name[RealStart(name, 0)..]);
    }
  }

  lemma NothingKnown(name: Bytes)
    ensures !InTable([], name)
  {
  }

  // ---- questions ----

  ghost function QuestionAfter(t: Track, q: Question): Track {
    var n := NameAfter(t, q.name, 0);
    n.(off := n.off + 4)
  }

  ghost function QuestionsAfter(t: Track, qs: seq<Question>): (r: Track)
    ensures t.off <= r.off && t.table <= r.table
  {
    if qs == [] then t else QuestionAfter(QuestionsAfter(t, qs[..|qs| - 1]), qs[|qs| - 1])
  }

  lemma QuestionsStep(t: Track, qs: seq<Question>, i: nat)
    requires i < |qs|
    ensures QuestionsAfter(t, qs[..i + 1]) == QuestionAfter(QuestionsAfter(t, qs[..i]), qs[i])
  {
    assert qs[..i + 1][..i] == qs[..i];
  }

  lemma {:induction false} QuestionsReach(t: Track, qs: seq<Question>, i: nat)
    requires i <= |qs|
    ensures QuestionsAfter(t, qs[..i]).off <= QuestionsAfter(t, qs).off
    decreases |qs| - i
  {
    if i < |qs| {
      QuestionsStep(t, qs, i);
      QuestionsReach(t, qs, i + 1);
    } else {
      assert qs[..i] == qs;
    }
  }

  lemma {:induction false} QuestionsWithin(t: Track, qs: seq<Question>)
    ensures QuestionsAfter(t, qs).off <= t.off + QuestionsRoom(qs)
  {
    if qs != [] { QuestionsWithin(t, qs[..|qs| - 1]); }
  }

  // ---- records ----

  /** The records of a set, of which at most 65535 are written. */
  function RecordsUnder(owner: Bytes, s: RRSet): (rs: seq<RR>)
    ensures |rs| == if |s.rdata| < 0xFFFF then |s.rdata| else 0xFFFF
  {
    seq(if |s.rdata| < 0xFFFF then |s.rdata| else 0xFFFF,
        i requires 0 <= i < |s.rdata| => RR(owner, s.rtype, s.cls, s.ttl, s.rdata[i]))
  }

  ghost predicate AllUnder(owner: Bytes, rs: seq<RR>) {
    forall i :: 0 <= i < |rs| ==> rs[i].owner == owner
  }

  ghost function RecordAfter(t: Track, r: RR): Track {
    var n := NameAfter(t, r.owner, 0);
    n.(off := n.off + 10 + |r.rdata|)
  }

  ghost function RecordsAfter(t: Track, rs: seq<RR>): (r: Track)
    ensures t.off <= r.off && t.table <= r.table
    decreases |rs|
  {
    if rs == [] then t else RecordsAfter(RecordAfter(t, rs[0]), rs[1..])
  }

  /** How many of the records are written before one reaches beyond cap. */
  ghost function Fit(t: Track, rs: seq<RR>, cap: nat): (k: nat)
    ensures k <= |rs|
    decreases |rs|
  {
    if rs == [] || RecordAfter(t, rs[0]).off > cap then 0 else 1 + Fit(RecordAfter(t, rs[0]), rs[1..], cap)
  }

  lemma {:induction false} AfterAppend(t: Track, rs: seq<RR>, more: seq<RR>)
    ensures RecordsAfter(t, rs + more) == RecordsAfter(RecordsAfter(t, rs), more)
    decreases |rs|
  {
    hide RecordAfter;
    if rs == [] {
      assert rs + more == more;
    } else {
      assert (rs + more)[0] == rs[0] && (rs + more)[1..] == rs[1..] + more;
      AfterAppend(RecordAfter(t, rs[0]), rs[1..], more);
    }
  }

  /** The first k records fit if and only if that many are written. */
  lemma {:induction false} FitIsMost(t: Track, rs: seq<RR>, cap: nat, k: nat)
    requires t.off <= cap && k <= |rs|
    ensures RecordsAfter(t, rs[..k]).off <= cap <==> k <= Fit(t, rs, cap)
    decreases k
  {
    hide RecordAfter;
    if k > 0 {
      assert rs[..k][0] == rs[0] && rs[..k][1..] == rs[1..][..k - 1];
      if RecordAfter(t, rs[0]).off <= cap {
        FitIsMost(RecordAfter(t, rs[0]), rs[1..], cap, k - 1);
      }
    }
  }

  /** Writing i records that fit leaves the others to be written. */
  lemma {:induction false} FitStep(t: Track, rs: seq<RR>, cap: nat, i: nat)
    requires t.off <= cap && i <= |rs| && RecordsAfter(t, rs[..i]).off <= cap
    ensures Fit(t, rs, cap) == i + Fit(RecordsAfter(t, rs[..i]), rs[i..], cap)
    decreases i
  {
    hide RecordAfter;
    if i == 0 {
      assert rs[..0] == [] && rs[0..] == rs;
    } else {
      assert rs[..i][0] == rs[0] && rs[..i][1..] == rs[1..][..i - 1] && rs[1..][i - 1..] == rs[i..];
      FitStep(RecordAfter(t, rs[0]), rs[1..], cap, i - 1);
    }
  }

  lemma {:induction false} RecordsUsable(t: Track, rs: seq<RR>)
    requires AllUsable(t.table)
    ensures AllUsable(RecordsAfter(t, rs).table)
    decreases |rs|
  {
    hide AllUsable;
    if rs != [] {
      AfterUsable(t, rs[0].owner, 0);
      RecordsUsable(RecordAfter(t, rs[0]), rs[1..]);
    }
  }

  /** One record: cut back to where it began if it reaches beyond cap, leaving some suffixes of its owner behind. */
  ghost predicate Reached(was: Track, now: Track, r: RR, cut: bool, cap: nat) {
    if cut then RecordAfter(was, r).off > cap && Left(was, now, r.owner, cap) else now == RecordAfter(was, r)
  }

  /** The writer is where it was, and the table may have grown by suffixes of the name, the whole of it first. */
  ghost predicate Left(was: Track, now: Track, owner: Bytes, cap: nat) {
    && now.off == was.off && was.table <= now.table <= NameAfter(was, owner, 0).table
    && (if was.off + FirstTake(owner) > cap then now.table == was.table
        else !Known(was.table, owner) ==> Inserted(was.table, owner[RealStart(owner, 0)..], was.off) <= now.table)
  }

  /** Not even the first record fits, and its owner was not known before. */
  ghost predicate Lost(was: Track, owner: Bytes, rs: seq<RR>, cap: nat) {
    rs != [] && Fit(was, rs, cap) == 0 && !Covered(was.table, owner, was.off)
  }

  /** Records of one owner, as many as fit. */
  ghost predicate SetReached(was: Track, now: Track, owner: Bytes, rs: seq<RR>, count: nat, cap: nat) {
    && count == Fit(was, rs, cap)
    && if Lost(was, owner, rs, cap) then Left(was, now, owner, cap) else now == RecordsAfter(was, rs[..count])
  }

  lemma AfterOne(t: Track, rs: seq<RR>, i: nat)
    requires i < |rs|
    ensures RecordsAfter(t, rs[..i + 1]) == RecordAfter(RecordsAfter(t, rs[..i]), rs[i])
  {
    hide RecordAfter;
    AfterAppend(t, rs[..i], [rs[i]]);
    assert rs[..i] + [rs[i]] == rs[..i + 1] && [rs[i]][1..] == [];
  }

  /** A cut leaves the table alone when the owner is covered. */
  lemma CutStays(was: Track, now: Track, owner: Bytes, cap: nat)
    requires AllUsable(was.table) && Left(was, now, owner, cap) && Covered(was.table, owner, was.off)
    ensures now == was
  {
    AfterCovers(was, owner);
  }

  lemma RecordCovers(t: Track, r: RR)
    requires AllUsable(t.table)
    ensures Covered(RecordAfter(t, r).table, r.owner, RecordAfter(t, r).off)
    ensures Covered(t.table, r.owner, t.off) ==> RecordAfter(t, r).table == t.table
  {
    AfterCovers(t, r.owner);
    var n := NameAfter(t, r.owner, 0);
    CoveredGrows(n.table, n.table, r.owner, n.off, n.off + 10 + |r.rdata|);
  }

  // ---- room that is enough for any table ----

  /** Bytes a name takes at most: length octets for dots, and two more at the end. */
  function NameRoom(name: Bytes): nat {
    |name| + 2
  }

  function QuestionRoom(q: Question): nat {
    NameRoom(q.name) + 4
  }

  function QuestionsRoom(qs: seq<Question>): nat {
    if qs == [] then 0 else QuestionsRoom(qs[..|qs| - 1]) + QuestionRoom(qs[|qs| - 1])
  }

  lemma {:induction false} QuestionsRoomPrefix(qs: seq<Question>, i: nat)
    requires i < |qs|
    ensures QuestionsRoom(qs[..i + 1]) == QuestionsRoom(qs[..i]) + QuestionRoom(qs[i]) <= QuestionsRoom(qs)
    decreases |qs|
  {
    hide QuestionRoom;
    assert qs[..i + 1][..i] == qs[..i];
    if i < |qs| - 1 {
      QuestionsRoomPrefix(qs[..|qs| - 1], i);
      assert qs[..|qs| - 1][..i + 1] == qs[..i + 1];
    } else {
      assert qs[..i + 1] == qs;
    }
  }

  function RecordRoom(r: RR): nat {
    NameRoom(r.owner) + 10 + |r.rdata|
  }

  function RecordsRoom(rs: seq<RR>): nat {
    if rs == [] then 0 else RecordsRoom(rs[..|rs| - 1]) + RecordRoom(rs[|rs| - 1])
  }

  lemma {:induction false} RecordsRoomPrefix(rs: seq<RR>, i: nat)
    requires i <= |rs|
    ensures RecordsRoom(rs[..i]) <= RecordsRoom(rs)
    ensures i < |rs| ==> RecordsRoom(rs[..i + 1]) == RecordsRoom(rs[..i]) + RecordRoom(rs[i])
    decreases |rs|
  {
    hide RecordRoom;
    if i < |rs| {
      assert rs[..i + 1][..i] == rs[..i];
      RecordsRoomPrefix(rs[..|rs| - 1], if i < |rs| - 1 then i else |rs| - 1);
      assert i < |rs| - 1 ==> rs[..|rs| - 1][..i] == rs[..i];
      assert rs[..|rs| - 1][..|rs| - 1] == rs[..|rs| - 1];
    } else {
      assert rs[..i] == rs;
    }
  }


  lemma {:induction false} AfterWithin(t: Track, rs: seq<RR>)
    ensures RecordsAfter(t, rs).off <= t.off + RecordsRoom(rs)
    decreases |rs|
  {
    if rs != [] {
      var n := |rs| - 1;
      AfterWithin(t, rs[..n]);
      AfterAppend(t, rs[..n], [rs[n]]);
      assert rs[..n] + [rs[n]] == rs;
      assert RecordsAfter(RecordsAfter(t, rs[..n]), [rs[n]]) == RecordAfter(RecordsAfter(t, rs[..n]), rs[n]) by {
        assert [rs[n]][1..] == [];
      }
    }
  }
}
