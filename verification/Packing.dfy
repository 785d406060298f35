/** The packet writer and reader (internal/dns/pack.go, internal/dns/unpack.go). */
module Packing {
  import opened Octets
  import opened Records
  import opened WireNames
  import opened Compression
  import opened MessageLayout
  import opened WritePlans

  // ---- one name being written ----

  /**
   The name is written from start up to position pos of its text. The first n0 suffixes of the table
   were there before and are spelled with at most d jumps; the others belong to this name.
   */
  ghost predicate Writing(b: Bytes, lo: nat, table: seq<Suffix>, n0: nat, d: nat, name: Bytes, start: nat, pos: nat) {
    && pos <= |name| && n0 <= |table| <= MAX_SUFFIXES
    && TableOk(b, lo, table[..n0], d)
    && Pending(b, lo, name, start, LabelsFrom(name, pos))
    && forall i :: n0 <= i < |table| ==>
         && Usable(table[i]) && |table[i].name| > |name| - pos
         && Pending(b, lo, table[i].name, table[i].off, LabelsFrom(name, pos))
  }

  lemma WritingStarts(b: Bytes, lo: nat, table: seq<Suffix>, d: nat, name: Bytes)
    requires TableOk(b, lo, table, d) && lo <= |b|
    ensures Writing(b, lo, table, |table|, d, name, |b|, 0)
  {
    PendingStart(b, lo, name);
    assert table[..|table|] == table;
  }

  lemma SuffixLabels(name: Bytes, pos: nat)
    requires pos <= |name|
    ensures NameLabels(name[pos..]) == LabelsFrom(name, pos)
  {
    LabelsShift(name, pos, name[pos..], 0);
  }

  lemma WritingSkipsEmpty(b: Bytes, lo: nat, table: seq<Suffix>, n0: nat, d: nat, name: Bytes, start: nat, pos: nat)
    requires Writing(b, lo, table, n0, d, name, start, pos) && pos < |name| && name[pos] == DOT
    ensures Writing(b, lo, table, n0, d, name, start, pos + 1)
  {
    hide Pending, TableOk, LabelsFrom;
    EmptyLabelStep(name, pos);
  }

  lemma EmptyLabelStep(name: Bytes, pos: nat)
    requires pos < |name| && name[pos] == DOT
    ensures LabelsFrom(name, pos) == LabelsFrom(name, pos + 1)
  {
    assert NextDot(name, pos) == pos;
    assert [] + LabelsFrom(name, pos + 1) == LabelsFrom(name, pos + 1);
  }

  /** Writing one label, and possibly entering its suffix in the table. */
  lemma WritingLabel(b: Bytes, b': Bytes, lo: nat, table: seq<Suffix>, table': seq<Suffix>, n0: nat, d: nat,
                     name: Bytes, start: nat, pos: nat, l: Bytes, pos': nat)
    requires Writing(b, lo, table, n0, d, name, start, pos) && lo <= |b|
    requires pos < pos' <= |name| && name[pos] != DOT && LabelsFrom(name, pos) == [l] + LabelsFrom(name, pos')
    requires Extends(b, b', lo) && LabelAt(b', |b|, l) && |b'| == |b| + 1 + |l|
    requires table' == table
             || (table' == table + [Suffix(name[pos..], |b|)] && |table| < MAX_SUFFIXES && |b| <= MAX_POINTER)
    ensures Writing(b', lo, table', n0, d, name, start, pos')
  {
    hide Pending, LabelsFrom, LabelAt, Spells;
    TableExtends(b, b', lo, table[..n0], d, d);
    assert table'[..n0] == table[..n0];
    PendingLabel(b, b', lo, name, start, l, LabelsFrom(name, pos'));
    forall i | n0 <= i < |table'|
      ensures Usable(table'[i]) && |table'[i].name| > |name| - pos'
              && Pending(b', lo, table'[i].name, table'[i].off, LabelsFrom(name, pos'))
    {
      if i == |table| {
        SuffixLabels(name, pos);
        PendingStart(b, lo, name[pos..]);
      }
      PendingLabel(b, b', lo, table'[i].name, table'[i].off, l, LabelsFrom(name, pos'));
    }
  }

  /** Once the rest is spelled at the end, so are the name and every suffix entered for it. */
  lemma WritingEnds(b: Bytes, b': Bytes, lo: nat, table: seq<Suffix>, n0: nat, d: nat, name: Bytes, start: nat,
                    pos: nat, d': nat)
    requires Writing(b, lo, table, n0, d, name, start, pos)
    requires Extends(b, b', lo) && Spells(b', lo, |b|, LabelsFrom(name, pos), d') && (n0 > 0 ==> d <= d')
    ensures Spells(b', lo, start, NameLabels(name), d') && Skip(b', start) == Skip(b', |b|)
    ensures TableOk(b', lo, table, d')
  {
    hide Pending, Spells, NameLabels, LabelsFrom;
    PendingDone(b, b', lo, name, start, LabelsFrom(name, pos), d');
    forall i | 0 <= i < |table|
      ensures Usable(table[i]) && Spells(b', lo, table[i].off, NameLabels(table[i].name), d')
    {
      if i < n0 {
        TableExtends(b, b', lo, table[..n0], d, d');
        assert table[..n0][i] == table[i];
      } else {
        PendingDone(b, b', lo, table[i].name, table[i].off, LabelsFrom(name, pos), d');
      }
    }
  }

  /** The name is spelled from start to the end of b. */
  ghost predicate Finished(b: Bytes, lo: nat, table: seq<Suffix>, name: Bytes, start: nat, d: nat) {
    Spells(b, lo, start, NameLabels(name), d) && Skip(b, start) == |b| && TableOk(b, lo, table, d)
  }

  lemma RootLabels(name: Bytes)
    requires name == [] || name == [DOT]
    ensures LabelsFrom(name, 0) == [] && RealStart(name, 0) == |name|
  {
  }

  lemma EndsHere(b: Bytes, lo: nat, d: nat)
    requires lo <= |b|
    ensures Spells(b + [0], lo, |b|, [], d) && Skip(b + [0], |b|) == |b| + 1
  {
  }

  lemma PointsThere(b: Bytes, lo: nat, off: nat, known: Bytes, name: Bytes, pos: nat, d: nat)
    requires lo <= |b| && off <= MAX_POINTER && Spells(b, lo, off, NameLabels(known), d)
    requires pos <= |name| && EqualFold(known, name[pos..])
    ensures var b' := b + PutU16(0xC000 + off);
            Spells(b', lo, |b|, LabelsFrom(name, pos), d + 1) && Skip(b', |b|) == |b'| && Extends(b, b', lo)
  {
    hide Spells, LabelsFrom;
    var b' := b + PutU16(0xC000 + off);
    assert b'[|b|] == 0xC0 + off / 256 && b'[|b| + 1] == off % 256;
    LabelsShift(name, pos, known, 0);
    SpellsExtends(b, b', lo, off, NameLabels(known), d);
    SpellsInside(b, lo, off, NameLabels(known), d);
    SpellsJump(b', lo, |b|, NameLabels(known), d);
  }

  lemma SpellsInside(b: Bytes, lo: nat, off: nat, ls: seq<Bytes>, d: nat)
    requires Spells(b, lo, off, ls, d)
    ensures off < |b|
  {
  }

  lemma NewLabel(b: Bytes, lo: nat, l: Bytes)
    requires 0 < |l| <= MAX_LABEL
    ensures var b' := b + ([|l|] + l); Extends(b, b', lo) && LabelAt(b', |b|, LowerAll(l)) && |b'| == |b| + 1 + |l|
  {
    var b' := b + ([|l|] + l);
    assert b'[|b|] == |l| && b'[|b| + 1..|b| + 1 + |l|] == l;
  }

  /** The last label and the closing zero. */
  lemma LastLabel(b: Bytes, b': Bytes, lo: nat, table: seq<Suffix>, table': seq<Suffix>, n0: nat, d: nat, name: Bytes,
                  start: nat, pos: nat)
    requires Writing(b, lo, table, n0, d, name, start, pos) && lo <= |b|
    requires pos < |name| && NextDot(name, pos) == |name| && |name| - pos <= MAX_LABEL
    requires b' == b + ([|name| - pos] + name[pos..]) + [0]
    requires table' == table
             || (table' == table + [Suffix(name[pos..], |b|)] && |table| < MAX_SUFFIXES && |b| <= MAX_POINTER)
    ensures Finished(b', lo, table', name, start, if n0 == 0 then 0 else d + 1)
  {
    hide Writing, Spells, LabelAt;
    var l := name[pos..];
    var b1 := b + ([|l|] + l);
    NewLabel(b, lo, l);
    LabelsUnfold(name, pos);
    LabelsUnfold(name, |name|);
    assert name[pos..|name|] == l;
    assert LabelsFrom(name, pos) == [LowerAll(l)] + LabelsFrom(name, |name|);
    WritingLabel(b, b1, lo, table, table', n0, d, name, start, pos, LowerAll(l), |name|);
    EndsHere(b1, lo, if n0 == 0 then 0 else d + 1);
    WritingEnds(b1, b', lo, table', n0, d, name, start, |name|, if n0 == 0 then 0 else d + 1);
  }

  // ---- why a name is refused ----

  ghost predicate HasLongLabel(name: Bytes) {
    exists i: nat :: LongRun(name, i)
  }

  ghost predicate LongRun(name: Bytes, i: nat) {
    i + MAX_LABEL < |name| && forall k :: i <= k <= i + MAX_LABEL ==> name[k] != DOT
  }

  /** One round of writing a name, from pos to next or to its end. */
  ghost predicate Stepped(was: Track, now: Track, name: Bytes, pos: nat, err: Option<PackError>, done: bool, next: nat,
                          cap: nat)
    requires pos < |name|
  {
    match err
    case Some(TextTooLong) => false
    case Some(LongLabel) => now == was && LongRun(name, pos)
    case Some(BufferTooSmall) =>
      && now == was && name[pos] != DOT && NameAfter(was, name, pos).off > cap
      && (!InTable(was.table, name[pos..]) ==> was.off + LabelTake(name, pos) > cap)
    case None =>
      && was.off <= now.off && was.table <= now.table
      && (name[pos] == DOT ==> now == was && !done && next == pos + 1)
      && (InTable(was.table, name[pos..]) ==> done)
      && (name[pos] != DOT && !InTable(was.table, name[pos..]) ==>
            Inserted(was.table, name[pos..], was.off) <= now.table && was.off + LabelTake(name, pos) <= now.off)
      && if done then now == NameAfter(was, name, pos)
         else pos < next <= |name| && NameAfter(now, name, next) == NameAfter(was, name, pos)
  }

  /** What one round of writing a name contributes. */
  lemma AfterRound(t: Track, name: Bytes, pos: nat)
    requires pos < |name|
    ensures InTable(t.table, name[pos..]) ==> NameAfter(t, name, pos) == t.(off := t.off + 2)
    ensures !InTable(t.table, name[pos..]) ==>
              var dot := NextDot(name, pos);
              var t' := if dot == pos then t else Track(t.off + 1 + dot - pos, Inserted(t.table, name[pos..], t.off));
              && t.table <= t'.table
              && NameAfter(t, name, pos).off >= t.off + LabelTake(name, pos) - (if dot == pos then 1 else 0)
              && NameAfter(t, name, pos) ==
                 if dot == |name| then t'.(off := t'.off + 1) else NameAfter(t', name, dot + 1)
  {
    hide InTable;
  }

  /** The name is written up to pos, and its whole text, if unknown, is the first suffix that was entered. */
  ghost predicate Advanced(was: Track, now: Track, name: Bytes, pos: nat)
    requires pos <= |name|
  {
    var first := RealStart(name, 0);
    && was.off <= now.off && was.table <= now.table && AllUsable(was.table)
    && NameAfter(now, name, pos) == NameAfter(was, name, 0)
    && (pos <= first ==> now == was)
    && (pos > first ==>
          && !InTable(was.table, name[first..]) && Inserted(was.table, name[first..], was.off) <= now.table
          && was.off + FirstTake(name) <= now.off)
  }

  lemma Advances(was: Track, name: Bytes)
    requires AllUsable(was.table)
    ensures Advanced(was, was, name, 0)
  {
  }

  lemma AdvanceStep(was: Track, before: Track, now: Track, name: Bytes, pos: nat, err: Option<PackError>, done: bool,
                    next: nat, cap: nat)
    requires pos < |name| && Advanced(was, before, name, pos)
    requires Stepped(before, now, name, pos, err, done, next, cap)
    ensures err != Some(TextTooLong) && was.table <= now.table
    ensures err == Some(LongLabel) ==> HasLongLabel(name)
    ensures err.None? && done ==> now == NameAfter(was, name, 0)
    ensures err.None? && done && Known(was.table, name) ==> pos == RealStart(name, 0) < |name| && before == was
  {
    hide InTable, NameAfter, LabelTake, Inserted, RealStart;
    if err == Some(LongLabel) { assert LongRun(name, pos); }
  }

  lemma AdvanceOn(was: Track, before: Track, now: Track, name: Bytes, pos: nat, next: nat, cap: nat)
    requires pos < |name| && Advanced(was, before, name, pos)
    requires Stepped(before, now, name, pos, None, false, next, cap)
    ensures pos < next <= |name| && Advanced(was, now, name, next)
    ensures next <= RealStart(name, 0) ==> pos < RealStart(name, 0) && name[pos] == DOT
  {
    hide InTable, NameAfter, LabelTake, Inserted, RealStart, NextDot;
    var first := RealStart(name, 0);
    PrefixOn(was.table, before.table, now.table);
    assert pos < next <= |name|;
    assert NameAfter(now, name, next) == NameAfter(was, name, 0);
    if pos < first {
      assert name[pos] == DOT;
      assert next <= first;
      assert now == was;
      assert Advanced(was, now, name, next);
    } else if pos == first {
      assert name[pos] != DOT;
      assert Inserted(was.table, name[first..], was.off) <= now.table;
      assert Advanced(was, now, name, next);
    } else {
      PrefixOn(Inserted(was.table, name[first..], was.off), before.table, now.table);
      assert Advanced(was, now, name, next);
    }
  }

  lemma PrefixOn<T>(a: seq<T>, b: seq<T>, c: seq<T>)
    requires a <= b <= c
    ensures a <= c
  {
  }

  lemma AdvanceStops(was: Track, before: Track, now: Track, name: Bytes, pos: nat, done: bool, next: nat, cap: nat)
    requires pos < |name| && Advanced(was, before, name, pos)
    requires Stepped(before, now, name, pos, Some(BufferTooSmall), done, next, cap) && before.off <= cap
    ensures NameAfter(was, name, 0).off > cap && Left(was, now.(off := was.off), name, cap)
  {
    hide InTable, NameAfter, LabelTake;
  }

  lemma AdvanceEnd(was: Track, now: Track, name: Bytes, cap: nat)
    requires Advanced(was, now, name, |name|) && now.off <= cap
    ensures NameAfter(was, name, 0) == now.(off := now.off + 1) && Left(was, now.(off := was.off), name, cap)
    ensures Known(was.table, name) ==> now == was && KnownBytes(was.table, name) == [0]
    ensures was.table <= now.table
  {
    hide InTable, LabelTake;
  }

  lemma RootAfter(was: Track, name: Bytes, cap: nat)
    requires AllUsable(was.table) && RealStart(name, 0) == |name|
    ensures NameAfter(was, name, 0) == was.(off := was.off + 1) && Left(was, was, name, cap)
    ensures Known(was.table, name) && KnownBytes(was.table, name) == [0]
  {
    hide InTable;
    AfterDots(was, name, 0);
  }

  /** The outcome of writing a name behind b, whatever the table holds. */
  ghost predicate NameDone(was: Track, now: Track, b: Bytes, b': Bytes, name: Bytes, err: Option<PackError>, cap: nat) {
    && AllUsable(was.table) && was.off <= now.off && was.table <= now.table
    && was.off <= |b'| && b'[..was.off] == b
    && (err.None? ==> now == NameAfter(was, name, 0))
    && (err.None? && Known(was.table, name) ==> b' == b + KnownBytes(was.table, name))
    && (err == Some(BufferTooSmall) ==> NameAfter(was, name, 0).off > cap && Left(was, now.(off := was.off), name, cap))
    && (err == Some(LongLabel) ==> HasLongLabel(name))
  }

  /** A name is refused for its length, for a label, or because the bytes it may need do not fit. */
  ghost predicate Justified(e: PackError, name: Bytes, need: nat, cap: nat) {
    match e
    case TextTooLong => |name| > MAX_NAME
    case LongLabel => HasLongLabel(name)
    case BufferTooSmall => need > cap
  }

  class PacketWriter {
    const buf: array<Byte>
    const cap: nat
    var offset: nat
    var table: seq<Suffix>
    /** A record was cut off, and the TC bit is set. */
    ghost var truncated: bool
    /** How many suffixes of the table are still in place. */
    ghost var good: nat
    /** The header as first written. */
    ghost var header: Bytes

    ghost predicate Valid()
      reads this
    {
      offset <= cap <= buf.Length && AllUsable(table)
    }

    ghost function Place(): Track
      reads this
    {
      Track(offset, table)
    }

    /** Nothing in the table points to what was cut off. */
    ghost predicate Intact()
      reads this
    {
      good == |table|
    }

    ghost function Written(): Bytes
      requires Valid()
      reads this, buf
    {
      buf[..offset]
    }

    constructor (buf: array<Byte>, maxSize: nat)
      ensures this.buf == buf && cap == (if maxSize > buf.Length then buf.Length else maxSize)
      ensures Valid() && offset == 0 && table == [] && !truncated && Intact()
    {
      this.buf := buf;
      this.cap := if maxSize > buf.Length then buf.Length else maxSize;
      this.offset, this.table, this.truncated, this.header, this.good := 0, [], false, [], 0;
    }

    method Emit(s: Bytes)
      requires Valid() && offset + |s| <= cap
      modifies this`offset, buf
      ensures Valid() && offset == old(offset) + |s|
      ensures Written() == old(Written()) + s
    {
      forall i | 0 <= i < |s| { buf[offset + i] := s[i]; }
      offset := offset + |s|;
      assert buf[..offset] == old(buf[..offset]) + s;
    }

    /** Length octet and label, unless the label is empty. */
    method WriteLabel(l: Bytes, closing: bool, suffix: Bytes) returns (err: Option<PackError>)
      requires Valid() && (closing ==> l != [])
      requires l != [] ==> suffix != [] && suffix[0] != DOT && !InTable(table, suffix)
      modifies this`offset, this`table, buf
      ensures Valid()
      ensures err.Some? || l == [] ==> Written() == old(Written()) && Place() == old(Place())
      ensures err.None? && l != [] ==>
                && |l| <= MAX_LABEL
                && Written() == old(Written()) + ([|l|] + l) + (if closing then [0] else [])
                && table == Inserted(old(table), suffix, old(offset))
      ensures err.Some? ==>
                || (err.value == LongLabel && |l| > MAX_LABEL)
                || (err.value == BufferTooSmall && old(offset) + 1 + |l| + (if closing then 1 else 0) > cap)
      ensures l == [] ==> err.None?
    {
      if |l| > MAX_LABEL { return Some(LongLabel); }
      if l == [] { return None; }
      if offset + 1 + |l| + (if closing then 1 else 0) > cap { return Some(BufferTooSmall); }
      table := InsertSuffix(table, suffix, offset);
      Emit([|l|] + l);
      if closing { Emit([0]); }
      return None;
    }

    /** Ends a name whose labels are all written. */
    method CloseName(name: Bytes, ghost pos: nat, ghost lo: nat, ghost d: nat, ghost n0: nat, ghost start: nat,
                     ghost sane: bool)
      requires Valid() && offset < cap && lo <= offset && pos <= |name|
      requires sane ==> Writing(Written(), lo, table, n0, d, name, start, pos) && LabelsFrom(name, pos) == []
      modifies this`offset, buf
      ensures Valid() && Written() == old(Written()) + [0]
      ensures sane ==> Finished(Written(), lo, table, name, start, if n0 == 0 then 0 else d + 1)
    {
      ghost var b := Written();
      Emit([0]);
      if sane {
        EndsHere(b, lo, if n0 == 0 then 0 else d + 1);
        WritingEnds(b, Written(), lo, table, n0, d, name, start, pos, if n0 == 0 then 0 else d + 1);
      }
    }

    /** Ends a name with a pointer to where its remaining suffix was written before. */
    method PointTo(off: nat, name: Bytes, ghost pos: nat, ghost lo: nat, ghost d: nat, ghost n0: nat,
                   ghost start: nat, ghost sane: bool)
      returns (err: Option<PackError>)
      requires Valid() && lo <= offset && pos <= |name|
      requires sane ==> Writing(Written(), lo, table, n0, d, name, start, pos)
      requires InTable(table, name[pos..]) && off == table[FirstIndex(table, name[pos..])].off <= MAX_POINTER
      modifies this`offset, buf
      ensures Valid()
      ensures sane && err.None? ==> n0 > 0 && Finished(Written(), lo, table, name, start, d + 1)
      ensures if err.None? then Written() == old(Written()) + PutU16(0xC000 + off)
              else err.value == BufferTooSmall && old(offset) + 2 > cap && Written() == old(Written())
    {
      ghost var i := FirstIndex(table, name[pos..]);
      if offset + 2 > cap { return Some(BufferTooSmall); }
      ghost var b := Written();
      Emit(PutU16(0xC000 + off));
      if sane {
        assert i < n0 by { assert |table[i].name| == |name| - pos; }
        assert table[..n0][i] == table[i];
        PointsThere(b, lo, off, table[i].name, name, pos, d);
        WritingEnds(b, Written(), lo, table, n0, d, name, start, pos, d + 1);
      }
      return None;
    }

    /** One round: a pointer, the last label, or a label and on to the rest of the name. */
    method WriteNext(name: Bytes, pos: nat, ghost lo: nat, ghost d: nat, ghost n0: nat, ghost start: nat,
                     ghost sane: bool)
      returns (err: Option<PackError>, done: bool, next: nat)
      requires Valid() && lo <= offset && pos < |name|
      requires sane ==> Writing(Written(), lo, table, n0, d, name, start, pos)
      modifies this`offset, this`table, buf
      ensures Valid() && old(offset) <= offset && Written()[..old(offset)] == old(Written())
      ensures Stepped(old(Place()), Place(), name, pos, err, done, next, cap)
      ensures name[pos] == DOT ==> err.None? && !done && next == pos + 1 && Written() == old(Written())
      ensures err.None? && InTable(old(table), name[pos..]) ==>
                Written() == old(Written()) + PutU16(0xC000 + old(table)[FirstIndex(old(table), name[pos..])].off)
      ensures sane && err.None? && done ==> Finished(Written(), lo, table, name, start, if n0 == 0 then 0 else d + 1)
      ensures sane && err.None? && !done ==> Writing(Written(), lo, table, n0, d, name, start, next)
    {
      hide Writing, Finished, TableOk, InTable, LabelsFrom, LowerAll, EqualFold, NameAfter, Inserted;
      ghost var b, before := Written(), table;
      AfterRound(Place(), name, pos);
      assert name[pos..][0] == name[pos];
      if name[pos] == DOT { DottedUnknown(table, name[pos..]); }
      var at := LookupSuffix(table, name[pos..]);
      if at.Some? {
        assert Usable(table[FirstIndex(table, name[pos..])]);
        err := PointTo(at.value, name, pos, lo, d, n0, start, sane);
        return err, true, pos;
      }
      var dot := NextDot(name, pos);
      err := WriteLabel(name[pos..dot], dot == |name|, name[pos..]);
      if err.Some? {
        if err.value == LongLabel { assert LongRun(name, pos); }
        return err, true, pos;
      }
      if sane { LabelWritten(b, Written(), lo, before, table, d, name, pos, n0, start); }
      if dot == |name| { return None, true, dot; }
      return None, false, dot + 1;
    }

    /** The closing zero of a name that ends with a dot. */
    method EndLabels(name: Bytes, ghost lo: nat, ghost d: nat, ghost n0: nat, ghost was: Track, ghost sane: bool)
      returns (err: Option<PackError>)
      requires Valid() && lo <= was.off <= offset && Advanced(was, Place(), name, |name|)
      requires sane ==> Writing(Written(), lo, table, n0, d, name, was.off, |name|)
      modifies this`offset, buf
      ensures Valid() && was.table <= table && old(offset) <= offset && Written()[..old(offset)] == old(Written())
      ensures if err.None? then Written() == old(Written()) + [0] && Place() == NameAfter(was, name, 0)
              else && err.value == BufferTooSmall && NameAfter(was, name, 0).off > cap
                   && Left(was, Place().(off := was.off), name, cap)
      ensures Known(was.table, name) ==> was.off == old(offset) && KnownBytes(was.table, name) == [0]
      ensures sane && err.None? ==> Finished(Written(), lo, table, name, was.off, if n0 == 0 then 0 else d + 1)
    {
      hide Writing, Finished, TableOk, LabelsFrom, InTable, NameAfter, Left, Advanced, KnownBytes, Known;
      AdvanceEnd(was, Place(), name, cap);
      if offset >= cap { return Some(BufferTooSmall); }
      LabelsUnfold(name, |name|);
      CloseName(name, |name|, lo, d, n0, was.off, sane);
      return None;
    }

    method WriteLabels(name: Bytes, ghost lo: nat, ghost d: nat, ghost sane: bool) returns (err: Option<PackError>)
      requires Valid() && lo <= offset && name != [] && (sane ==> TableOk(Written(), lo, table, d))
      modifies this`offset, this`table, buf
      ensures Valid() && NameDone(old(Place()), Place(), old(Written()), Written(), name, err, cap)
      ensures err != Some(TextTooLong)
      ensures sane && err.None? ==>
                Finished(Written(), lo, table, name, old(offset), if old(table) == [] then 0 else d + 1)
    {
      hide HasLongLabel, Writing, Finished, TableOk, LabelsFrom, InTable, LabelTake, NameAfter, Left, Stepped, Advanced,
           KnownBytes, Known;
      ghost var start, was, first, n0 := offset, Place(), RealStart(name, 0), |table|;
      if sane { WritingStarts(Written(), lo, table, d, name); }
      Advances(was, name);
      var pos: nat := 0;
      while true
        invariant Valid() && lo <= start <= offset && pos < |name|
        invariant Written()[..start] == old(Written()) && was.table <= table
        invariant Advanced(was, Place(), name, pos)
        invariant pos <= first ==> Written() == old(Written())
        invariant sane ==> Writing(Written(), lo, table, n0, d, name, start, pos)
        decreases |name| - pos
      {
        var done, next;
        ghost var before := Place();
        err, done, next := WriteNext(name, pos, lo, d, n0, start, sane);
        AdvanceStep(was, before, Place(), name, pos, err, done, next, cap);
        if err == Some(BufferTooSmall) { AdvanceStops(was, before, Place(), name, pos, done, next, cap); }
        if done && err.None? && Known(was.table, name) { KnownPointer(was.table, name); }
        if err.Some? || done { return; }
        AdvanceOn(was, before, Place(), name, pos, next, cap);
        pos := next;
        if pos == |name| {
          err := EndLabels(name, lo, d, n0, was, sane);
          return;
        }
      }
    }

    /**
     Writes a name, as labels until a suffix that was written before, then a pointer to it.
     sane says that the table is right, which it is until a record is cut off.
     */
    method WriteDomain(name: Bytes, ghost lo: nat, ghost d: nat, ghost sane: bool) returns (err: Option<PackError>)
      requires Valid() && lo <= offset && (sane ==> TableOk(Written(), lo, table, d))
      modifies this`offset, this`table, buf
      ensures Valid() && NameDone(old(Place()), Place(), old(Written()), Written(), name, err, cap)
      ensures err == Some(TextTooLong) <==> |name| > MAX_NAME
      ensures sane && err.None? ==>
                Finished(Written(), lo, table, name, old(offset), if old(table) == [] then 0 else d + 1)
      ensures err.Some? ==> Justified(err.value, name, old(offset) + NameRoom(name), cap)
    {
      hide HasLongLabel, Writing, Finished, TableOk, LabelsFrom, InTable, NameAfter, Left, KnownBytes;
      if |name| > MAX_NAME { return Some(TextTooLong); }
      if name == [] || name == [DOT] {
        RootLabels(name);
        RootAfter(Place(), name, cap);
        if offset >= cap { return Some(BufferTooSmall); }
        if sane { WritingStarts(Written(), lo, table, d, name); }
        CloseName(name, 0, lo, d, |table|, offset, sane);
        return None;
      }
      err := WriteLabels(name, lo, d, sane);
    }

    // ---- questions and records ----

    /** The first suffixes of the table are spelled where it says. */
    ghost predicate Sound(d: nat)
      requires Valid()
      reads this, buf
    {
      good <= |table| && TableOk(Written(), HEADER_LEN, table[..good], d)
    }

    /** The header is as first written, with the TC bit once a record was cut off. */
    ghost predicate HeaderOk()
      requires Valid()
      reads this, buf
    {
      && HEADER_LEN <= offset && |header| == HEADER_LEN && header[2] / 2 % 2 == 0
      && Written()[..HEADER_LEN] == if truncated then header[2 := header[2] + 2] else header
    }

    /** Nothing written after the header changed, apart from what was added. */
    twostate predicate Kept()
      requires Valid() && old(Valid())
      reads this, buf
    {
      && old(offset) <= offset && Extends(old(Written()), Written(), HEADER_LEN)
      && old(table) <= table && old(good) <= good && header == old(header) && (old(truncated) ==> truncated)
    }

    method WriteQuestion(q: Question, ghost d: nat) returns (err: Option<PackError>)
      requires Valid() && HEADER_LEN <= offset && Intact() && Sound(d)
      modifies this`offset, this`table, this`good, buf
      ensures Valid() && old(offset) <= offset && Written()[..old(offset)] == old(Written())
      ensures err.None? ==>
                var D := if old(table) == [] then 0 else d + 1;
                && Place() == QuestionAfter(old(Place()), q) && Intact() && Sound(D)
                && QuestionAt(Written(), old(offset), q, offset, D)
      ensures err == Some(BufferTooSmall) ==> QuestionAfter(old(Place()), q).off > cap
      ensures err == Some(TextTooLong) <==> |q.name| > MAX_NAME
      ensures err.Some? ==> Justified(err.value, q.name, old(offset) + QuestionRoom(q), cap)
    {
      hide HasLongLabel, Spells, NameLabels, PutU16, Known, Left;
      assert table[..good] == table;
      err := WriteDomain(q.name, HEADER_LEN, d, true);
      if err.Some? { return; }
      if cap - offset < 4 { return Some(BufferTooSmall); }
      ghost var b, D := Written(), if old(table) == [] then 0 else d + 1;
      Emit(PutU16(q.qtype) + PutU16(q.cls));
      TableExtends(b, Written(), HEADER_LEN, table, D, D);
      QuestionWritten(b, Written(), old(offset), q, D);
      good := |table|;
      assert table[..good] == table;
      return None;
    }

    /** Overwrites bytes of the header. */
    method Patch(pos: nat, x: Bytes)
      requires Valid() && pos + |x| <= HEADER_LEN <= offset
      modifies buf
      ensures Valid()
      ensures forall i :: 0 <= i < offset ==>
              Written()[i] == if pos <= i < pos + |x| then x[i - pos] else old(Written())[i]
    {
      forall i | 0 <= i < |x| { buf[pos + i] := x[i]; }
    }

    /** Drops the record begun at start and sets the TC bit. */
    method CutOff(start: nat)
      requires Valid() && HEADER_LEN <= start <= offset && HeaderOk()
      modifies this`offset, this`truncated, buf
      ensures Valid() && truncated && offset == start && HeaderOk()
      ensures Extends(old(Written())[..start], Written(), HEADER_LEN)
    {
      ghost var b := Written();
      assert buf[2] == b[..HEADER_LEN][2];
      offset := start;
      assert Written() == b[..start];
      Patch(2, [WithTC(buf[2])]);
      truncated := true;
      var h := Written()[..HEADER_LEN];
      assert forall i :: 0 <= i < HEADER_LEN ==> h[i] == if i == 2 then WithTC(b[2]) else b[..HEADER_LEN][i];
    }

    /** One record; cut off whole when it does not fit. */
    method WriteRecord(r: RR, ghost d: nat) returns (err: Option<PackError>, cut: bool)
      requires Valid() && HeaderOk() && Sound(d)
      modifies this, buf
      ensures Valid() && HeaderOk() && Kept() && (truncated <==> old(truncated) || cut)
      ensures err.None? ==> Reached(old(Place()), Place(), r, cut, cap)
      ensures err.None? ==> good == if old(Intact()) && !cut then |table| else old(good)
      ensures err.None? ==> Sound(if cut || old(!Intact() || Covered(table, r.owner, offset)) then d else d + 1)
      ensures err.None? && !cut && old(Intact() || Known(table[..good], r.owner)) ==>
                PackedAt(Written(), old(offset), r, offset, d + 1)
      ensures err.None? && !cut && old(Known(table, r.owner)) ==>
                Behind(Written(), old(offset), KnownBytes(old(table), r.owner))
      ensures err.Some? ==> !cut && err.value != BufferTooSmall && Justified(err.value, r.owner, 0, cap)
    {
      hide HasLongLabel, Spells, NameLabels, Covered, TableOk, PackedAt, Finished, Known, Left, NameAfter, KnownBytes;
      var start := offset;
      ghost var b, was, intact := Written(), Place(), Intact();
      assert intact ==> table[..good] == table;
      err := WriteDomain(r.owner, HEADER_LEN, d, intact);
      assert Written()[..HEADER_LEN] == b[..HEADER_LEN];
      if err.Some? && err.value != BufferTooSmall { return err, false; }
      if err.Some? || cap - offset < 10 + |r.rdata| {
        if err.None? { NameLeft(was, r.owner, cap); }
        TakeBack(start, b, was.table, d);
        return None, true;
      }
      FinishRecord(r, b, was, intact, d);
      return None, false;
    }

    /** Drops the record begun at start; the suffixes entered before stay in place. */
    method TakeBack(start: nat, ghost b: Bytes, ghost t0: seq<Suffix>, ghost d: nat)
      requires Valid() && HEADER_LEN <= |b| == start <= offset && HeaderOk() && Written()[..|b|] == b
      requires good <= |t0| && t0 <= table && TableOk(b, HEADER_LEN, t0[..good], d)
      modifies this`offset, this`truncated, buf
      ensures Valid() && truncated && offset == start && HeaderOk() && Extends(b, Written(), HEADER_LEN) && Sound(d)
    {
      hide TableOk;
      CutOff(start);
      assert table[..good] == t0[..good];
      TableExtends(b, Written(), HEADER_LEN, t0[..good], d, d);
    }

    /** The fixed fields and the data, once the owner name is written. */
    method FinishRecord(r: RR, ghost b: Bytes, ghost was: Track, ghost intact: bool, ghost d: nat)
      requires Valid() && offset + 10 + |r.rdata| <= cap && AllUsable(was.table)
      requires HEADER_LEN <= |b| == was.off <= offset && Written()[..|b|] == b && good <= |was.table|
      requires Place() == NameAfter(was, r.owner, 0) && TableOk(b, HEADER_LEN, was.table[..good], d)
      requires intact ==>
                 && good == |was.table|
                 && Finished(Written(), HEADER_LEN, table, r.owner, |b|, if was.table == [] then 0 else d + 1)
      requires Known(was.table, r.owner) ==> Written() == b + KnownBytes(was.table, r.owner)
      modifies this`offset, this`good, buf
      ensures Valid() && Place() == RecordAfter(was, r) && Extends(b, Written(), 0)
      ensures good == if intact then |table| else old(good)
      ensures Sound(if !intact || Covered(was.table, r.owner, was.off) then d else d + 1)
      ensures intact || Known(was.table[..old(good)], r.owner) ==> PackedAt(Written(), |b|, r, offset, d + 1)
      ensures Known(was.table, r.owner) ==> Behind(Written(), |b|, KnownBytes(was.table, r.owner))
    {
      hide Spells, NameLabels, PutU16, PutU32, Covered, FixedPart, TableOk, Known, Finished, NameAfter, KnownBytes;
      ghost var named, g := Written(), good;
      Emit(FixedPart(r));
      Emit(r.rdata);
      assert Written()[..|named|] == named;
      assert forall i :: 0 <= i < |b| ==> Written()[i] == named[..|b|][i];
      if intact || Known(was.table[..g], r.owner) {
        OwnerSpelled(b, named, r.owner, was.table, g, table, intact, d);
        RecordWritten(named, Written(), |b|, r, d + 1);
      }
      if intact {
        good := |table|;
        assert table[..good] == table && was.table[..g] == was.table;
        TableKept(b, named, Written(), was, r, d);
      } else {
        assert table[..g] == was.table[..g];
        TableExtends(b, Written(), HEADER_LEN, was.table[..g], d, d);
      }
    }

    /** After i records that fit. */
    ghost predicate Midway(was: Track, g: nat, owner: Bytes, rs: seq<RR>, i: nat, d: nat)
      requires Valid()
      reads this, buf
    {
      && i <= |rs| && g <= |was.table| && AllUsable(was.table) && HEADER_LEN <= was.off <= cap
      && Place() == RecordsAfter(was, rs[..i]) && good == (if g == |was.table| then |table| else g)
      && Laying(Written(), Place(), good, was, g, owner, rs, i, d)
    }

    /** One more record of a set. */
    method WriteNth(r: RR, ghost was: Track, ghost g: nat, ghost owner: Bytes, ghost rs: seq<RR>, ghost i: nat,
                    ghost d: nat)
      returns (err: Option<PackError>, cut: bool)
      requires Valid() && HeaderOk() && Midway(was, g, owner, rs, i, d) && i < |rs| && r == rs[i] && r.owner == owner
      modifies this, buf
      ensures Valid() && HeaderOk() && Kept() && (truncated <==> old(truncated) || cut)
      ensures err.None? ==> if cut then SetDone(Written(), Place(), good, was, g, owner, rs, i, d, cap)
                            else Midway(was, g, owner, rs, i + 1, d)
      ensures err.Some? ==> !cut && err.value != BufferTooSmall && Justified(err.value, owner, 0, cap)
    {
      hide PackedAt, Covered, TableOk, AllPackedAt, Justified, RecordAfter, RecordsAfter, Fit, Known, KnownBytes, Left,
           Lost, Behind;
      ghost var b, before, good0 := Written(), Place(), good;
      ghost var e := DepthAt(was, g, owner, i, d);
      err, cut := WriteRecord(r, e);
      if err.Some? { return; }
      AfterOne(was, rs, i);
      if i == 0 { SetStarts(was, rs); }
      if cut {
        FitStep(was, rs, cap, i);
        SetCut(was, before, Place(), owner, rs, i, cap);
        LayingCut(b, before, good0, Written(), Place(), good, was, g, owner, rs, i, d);
      } else {
        LayingMore(b, before, good0, Written(), Place(), good, was, g, owner, rs, i, d);
      }
    }

    /** The records of a set under one owner, up to the first that does not fit. */
    method WriteRRSet(owner: Bytes, rrset: RRSet, ghost d: nat) returns (err: Option<PackError>, count: nat)
      requires Valid() && HeaderOk() && Sound(d)
      modifies this, buf
      ensures Valid() && HeaderOk() && Kept()
      ensures err.None? ==>
                && SetDone(Written(), Place(), good, old(Place()), old(good), owner, RecordsUnder(owner, rrset), count,
                           d, cap)
                && (truncated <==> old(truncated) || count < |RecordsUnder(owner, rrset)|)
      ensures err.Some? ==> err.value != BufferTooSmall && Justified(err.value, owner, 0, cap)
    {
      hide Midway, SetDone, Justified;
      ghost var was, g, rs := Place(), good, RecordsUnder(owner, rrset);
      MidwayStarts(owner, rs, d);
      count := 0;
      for i := 0 to |rrset.rdata|
        invariant Valid() && HeaderOk() && Kept() && count == i <= |rs| && truncated == old(truncated)
        invariant i < |rrset.rdata| ==> i < |rs|
        invariant Midway(was, g, owner, rs, i, d)
      {
        var cut;
        err, cut := WriteNth(RR(owner, rrset.rtype, rrset.cls, rrset.ttl, rrset.rdata[i]), was, g, owner, rs, i, d);
        if err.Some? || cut { return err, count; }
        count := count + 1;
        if count == 0xFFFF { break; }
      }
      MidwayEnds(was, g, owner, rs, d);
      return None, count;
    }

    lemma MidwayStarts(owner: Bytes, rs: seq<RR>, d: nat)
      requires Valid() && Sound(d) && HEADER_LEN <= offset
      ensures Midway(Place(), good, owner, rs, 0, d)
    {
      hide TableOk, Covered, Known;
      assert rs[..0] == [];
    }

    lemma MidwayEnds(was: Track, g: nat, owner: Bytes, rs: seq<RR>, d: nat)
      requires Valid() && Midway(was, g, owner, rs, |rs|, d)
      ensures SetDone(Written(), Place(), good, was, g, owner, rs, |rs|, d, cap)
    {
      hide TableOk, Covered, Known, AllPackedAt, Laying;
      assert rs[..|rs|] == rs;
      FitIsMost(was, rs, cap, |rs|);
    }

    /** The OPT record that closes the additional section, if it fits. */
    method WriteEDNS0(wanted: bool, opt: RR, ghost j: nat) returns (count: nat)
      requires Valid() && HeaderOk() && opt.owner == [] && opt.rdata == []
      modifies this`offset, buf
      ensures Valid() && HeaderOk() && Kept() && table == old(table) && truncated == old(truncated)
      ensures count == (if wanted && cap - old(offset) >= 11 then 1 else 0)
      ensures count == 0 ==> offset == old(offset)
      ensures count == 1 ==> PackedAt(Written(), old(offset), opt, offset, j)
    {
      hide FixedPart;
      if !wanted { return 0; }
      if cap - offset < 11 { return 0; }
      ghost var b := Written();
      Emit([0] + FixedPart(opt));
      assert Written()[..HEADER_LEN] == b[..HEADER_LEN];
      EdnsWritten(b, Written(), opt, j);
      return 1;
    }

    method WriteHeader(id: U16, flags: U16, questionCount: U16)
      requires Valid() && offset == 0 && HEADER_LEN <= cap && !truncated && flags / 512 % 2 == 0
      modifies this`offset, this`header, buf
      ensures Valid() && HeaderOk() && offset == HEADER_LEN && table == old(table)
      ensures header == PutU16(id) + PutU16(flags) + PutU16(questionCount) + [0, 0, 0, 0, 0, 0]
    {
      var h := PutU16(id) + PutU16(flags) + PutU16(questionCount) + [0, 0, 0, 0, 0, 0];
      Emit(h);
      header := h;
      assert h[2] == flags / 256;
    }

    method UpdateCounts(an: U16, ns: U16, ar: U16)
      requires Valid() && HeaderOk()
      modifies buf
      ensures Valid() && Extends(old(Written()), Written(), HEADER_LEN)
      ensures Written()[..HEADER_LEN] == old(Written())[..6] + PutU16(an) + PutU16(ns) + PutU16(ar)
      ensures !truncated ==> Written()[..HEADER_LEN] == header[..6] + PutU16(an) + PutU16(ns) + PutU16(ar)
      ensures Written()[2] == if truncated then header[2] + 2 else header[2]
      ensures Written()[3] == header[3]
    {
      ghost var b, x := Written(), PutU16(an) + PutU16(ns) + PutU16(ar);
      Patch(6, PutU16(an) + PutU16(ns) + PutU16(ar));
      assert Written()[2] == b[..HEADER_LEN][2] && Written()[3] == b[..HEADER_LEN][3];
      assert forall i :: 0 <= i < HEADER_LEN ==> Written()[..HEADER_LEN][i] == if i < 6 then b[i] else x[i - 6];
      assert Written()[..HEADER_LEN] == b[..6] + x;
      assert b[..6] + x == b[..6] + PutU16(an) + PutU16(ns) + PutU16(ar);
      if !truncated { assert header[..6] == b[..HEADER_LEN][..6] == b[..6]; }
    }

    /** All questions, the first name spelled without jumps. */
    method WriteQuestions(qs: seq<Question>) returns (err: Option<PackError>)
      requires Valid() && HeaderOk() && table == [] && offset == HEADER_LEN && Intact()
      modifies this`offset, this`table, this`good, buf
      ensures Valid() && HEADER_LEN <= offset
      ensures err.None? ==>
                && HeaderOk() && Intact() && Place() == QuestionsAfter(Track(HEADER_LEN, []), qs)
                && QuestionsAt(Written(), HEADER_LEN, qs, offset, LastDepth(|qs|))
                && Sound(LastDepth(|qs|))
                && (qs != [] ==> Known(table, qs[0].name)) && FirstPlain(Written(), qs)
                && forall i :: 0 <= i < |qs| ==> |qs[i].name| <= MAX_NAME
      ensures err == Some(BufferTooSmall) ==> QuestionsAfter(Track(HEADER_LEN, []), qs).off > cap
      ensures err.Some? ==> exists i ::
                0 <= i < |qs| && Justified(err.value, qs[i].name, HEADER_LEN + QuestionsRoom(qs), cap)
    {
      hide QuestionAt, Known, TableOk, Justified, QuestionRoom, QuestionsRoom, QuestionsAt, QuestionsAfter,
           QuestionAfter, FirstPlain;
      ghost var was := Track(HEADER_LEN, []);
      NoQuestions(Written());
      assert Sound(0) by { assert TableOk(Written(), HEADER_LEN, [], 0) by { EmptyTable(Written()); } }
      assert qs[..0] == [];
      NoneAsked(was);
      for i := 0 to |qs|
        invariant Valid() && HeaderOk() && Intact() && Place() == QuestionsAfter(was, qs[..i])
        invariant QuestionsAt(Written(), HEADER_LEN, qs[..i], offset, LastDepth(i))
        invariant Sound(LastDepth(i)) && (i == 0 ==> table == [])
        invariant i > 0 ==> Known(table, qs[0].name) && FirstPlain(Written(), qs)
        invariant forall k :: 0 <= k < i ==> |qs[k].name| <= MAX_NAME
      {
        ghost var b, t := Written(), Place();
        QuestionsStep(was, qs, i);
        err := WriteQuestion(qs[i], LastDepth(i));
        if err.Some? {
          QuestionsReach(was, qs, i + 1);
          QuestionsWithin(was, qs[..i]);
          QuestionsRoomPrefix(qs, i);
          JustifiedMore(err.value, qs[i].name, t.off + QuestionRoom(qs[i]), HEADER_LEN + QuestionsRoom(qs), cap);
          return;
        }
        assert Written()[..HEADER_LEN] == b[..HEADER_LEN];
        ghost var D := if t.table == [] then 0 else LastDepth(i) + 1;
        assert table[..good] == table && D <= LastDepth(i + 1);
        TableExtends(Written(), Written(), HEADER_LEN, table, D, LastDepth(i + 1));
        QuestionsSnoc(b, Written(), qs, i, D);
        StillKnown(t, qs, i);
        if i > 0 { PlainExtends(b, Written(), qs); } else { PlainHere(Written(), qs, offset); }
      }
      assert qs[..|qs|] == qs;
      if qs == [] { NonePlain(Written()); }
      return None;
    }
  }

  lemma NonePlain(b: Bytes)
    ensures FirstPlain(b, [])
  {
  }

  lemma NoneAsked(t: Track)
    ensures QuestionsAfter(t, []) == t
  {
  }

  /** From the first question on its name can be pointed to. */
  lemma StillKnown(t: Track, qs: seq<Question>, i: nat)
    requires i < |qs| && (if i == 0 then t == Track(HEADER_LEN, []) else Known(t.table, qs[0].name))
    ensures Known(QuestionAfter(t, qs[i]).table, qs[0].name)
  {
    if i == 0 {
      FirstKnown(HEADER_LEN, qs[0].name);
    } else {
      KnownGrows(t.table, QuestionAfter(t, qs[i]).table, qs[0].name);
    }
  }

  lemma JustifiedMore(e: PackError, name: Bytes, need: nat, need': nat, cap: nat)
    requires Justified(e, name, need, cap) && need <= need'
    ensures Justified(e, name, need', cap)
  {
  }

  lemma NoQuestions(b: Bytes)
    ensures QuestionsAt(b, HEADER_LEN, [], HEADER_LEN, 0) && QuestionsRoom([]) == 0
  {
  }

  /** Jumps needed at most after n questions. */
  function LastDepth(n: nat): nat {
    if n == 0 then 0 else n - 1
  }

  lemma EmptyTable(b: Bytes)
    ensures TableOk(b, HEADER_LEN, [], 0)
  {
  }

  lemma QuestionDeeper(b: Bytes, off: nat, q: Question, e: nat, j: nat, j': nat)
    requires QuestionAt(b, off, q, e, j) && j <= j'
    ensures QuestionAt(b, off, q, e, j')
  {
    SpellsMore(b, HEADER_LEN, off, NameLabels(q.name), j, j');
  }

  lemma {:induction false} QuestionsExtend(b: Bytes, b': Bytes, off: nat, qs: seq<Question>, e: nat, j: nat, j': nat)
    requires QuestionsAt(b, off, qs, e, j) && Extends(b, b', HEADER_LEN) && j <= j'
    ensures QuestionsAt(b', off, qs, e, j')
    decreases |qs|
  {
    hide QuestionAt;
    if qs != [] {
      var m: nat :| QuestionAt(b, off, qs[0], m, j) && QuestionsAt(b, m, qs[1..], e, j);
      QuestionsExtend(b, b', m, qs[1..], e, j, j');
      QuestionExtends(b, b', off, qs[0], m, j);
      QuestionDeeper(b', off, qs[0], m, j, j');
    }
  }

  lemma {:induction false} QuestionsAppend(b: Bytes, off: nat, qs: seq<Question>, m: nat, q: Question, e: nat, j: nat)
    requires QuestionsAt(b, off, qs, m, j) && QuestionAt(b, m, q, e, j)
    ensures QuestionsAt(b, off, qs + [q], e, j)
    decreases |qs|
  {
    hide QuestionAt;
    if qs == [] {
      assert (qs + [q])[1..] == [] && (qs + [q])[0] == q;
      assert QuestionsAt(b, e, [], e, j);
    } else {
      var k: nat :| QuestionAt(b, off, qs[0], k, j) && QuestionsAt(b, k, qs[1..], m, j);
      QuestionsAppend(b, k, qs[1..], m, q, e, j);
      assert (qs + [q])[0] == qs[0] && (qs + [q])[1..] == qs[1..] + [q];
    }
  }

  lemma QuestionsSnoc(b: Bytes, b': Bytes, qs: seq<Question>, i: nat, d: nat)
    requires i < |qs| && QuestionsAt(b, HEADER_LEN, qs[..i], |b|, LastDepth(i)) && Extends(b, b', HEADER_LEN)
    requires QuestionAt(b', |b|, qs[i], |b'|, d) && d <= LastDepth(i + 1)
    ensures QuestionsAt(b', HEADER_LEN, qs[..i + 1], |b'|, LastDepth(i + 1))
  {
    hide QuestionAt, QuestionsAt;
    QuestionsExtend(b, b', HEADER_LEN, qs[..i], |b|, LastDepth(i), LastDepth(i + 1));
    QuestionDeeper(b', |b|, qs[i], |b'|, d, LastDepth(i + 1));
    QuestionsAppend(b', HEADER_LEN, qs[..i], |b|, qs[i], |b'|, LastDepth(i + 1));
    assert qs[..i] + [qs[i]] == qs[..i + 1];
  }

  lemma RecordsNone(b: Bytes, off: nat, j: nat)
    ensures AllPackedAt(b, off, [], off, j)
  {
  }

  lemma EdnsWritten(b: Bytes, b': Bytes, opt: RR, j: nat)
    requires opt.owner == [] && opt.rdata == [] && HEADER_LEN <= |b| && b' == b + ([0] + FixedPart(opt))
    ensures PackedAt(b', |b|, opt, |b'|, j)
  {
    assert b'[|b|] == 0;
    assert b'[|b| + 1..|b| + 11] == FixedPart(opt);
  }

  function WithTC(x: Byte): Byte {
    if x / 2 % 2 == 1 then x else x + 2
  }

  lemma RecordWritten(b: Bytes, b': Bytes, off: nat, r: RR, d: nat)
    requires Spells(b, HEADER_LEN, off, NameLabels(r.owner), d) && Skip(b, off) == |b|
    requires b' == b + FixedPart(r) + r.rdata
    ensures PackedAt(b', off, r, |b'|, d)
  {
    hide Spells, NameLabels, FixedPart;
    SpellsExtends(b, b', HEADER_LEN, off, NameLabels(r.owner), d);
    SkipExtends(b, b', HEADER_LEN, off, NameLabels(r.owner), d);
    assert b'[|b|..|b| + 10] == FixedPart(r);
    assert b'[|b| + 10..] == r.rdata;
  }

  ghost predicate Behind(b: Bytes, off: nat, x: Bytes) {
    off + |x| <= |b| && b[off..off + |x|] == x
  }

  lemma BehindExtends(b: Bytes, b': Bytes, off: nat, x: Bytes)
    requires Behind(b, off, x) && Extends(b, b', HEADER_LEN) && HEADER_LEN <= off
    ensures Behind(b', off, x)
  {
    assert b'[off..off + |x|] == b[off..off + |x|];
  }

  /** Jumps the suffixes in place take after i records of an owner. */
  ghost function DepthAt(was: Track, g: nat, owner: Bytes, i: nat, d: nat): nat {
    if i == 0 || Covered(was.table, owner, was.off) || g < |was.table| then d else d + 1
  }

  /**
   What is known of the first i records of a set written from was on, when the first g suffixes were in place then:
   which suffixes are in place now, and where the records lie.
   */
  ghost predicate Laying(b: Bytes, now: Track, good: nat, was: Track, g: nat, owner: Bytes, rs: seq<RR>, i: nat, d: nat)
    requires i <= |rs| && g <= |was.table| && AllUsable(was.table)
  {
    && good <= |now.table| && TableOk(b, HEADER_LEN, now.table[..good], DepthAt(was, g, owner, i, d))
    && (i > 0 ==> Covered(now.table, owner, now.off))
    && (g == |was.table| || Known(was.table[..g], owner) ==>
          AllPackedAt(b, was.off, rs[..i], now.off, if Covered(was.table, owner, was.off) then d + 1 else d + 2))
    && (i > 0 && Known(was.table, owner) ==> Behind(b, was.off, KnownBytes(was.table, owner)))
  }

  /** A whole set, or as much of it as fits. */
  ghost predicate SetDone(b: Bytes, now: Track, good: nat, was: Track, g: nat, owner: Bytes, rs: seq<RR>, count: nat,
                          d: nat, cap: nat)
  {
    && count <= |rs| && g <= |was.table| && AllUsable(was.table)
    && SetReached(was, now, owner, rs, count, cap)
    && good == (if g == |was.table| && !Lost(was, owner, rs, cap) then |now.table| else g)
    && Laying(b, now, good, was, g, owner, rs, count, d)
  }

  lemma LayingMore(b: Bytes, before: Track, good: nat, b': Bytes, now: Track, good': nat, was: Track, g: nat,
                   owner: Bytes, rs: seq<RR>, i: nat, d: nat)
    requires i < |rs| && g <= |was.table| && AllUsable(was.table) && AllUsable(before.table)
    requires Laying(b, before, good, was, g, owner, rs, i, d) && HEADER_LEN <= was.off
    requires was.table <= before.table && (i == 0 ==> before == was)
    requires good == (if g == |was.table| then |before.table| else g)
    requires good' == (if g == |was.table| then |now.table| else good)
    requires rs[i].owner == owner && now == RecordAfter(before, rs[i]) && Extends(b, b', HEADER_LEN)
    requires good' <= |now.table|
    requires var e := DepthAt(was, g, owner, i, d);
             && TableOk(b', HEADER_LEN, now.table[..good'],
                        if good < |before.table| || Covered(before.table, owner, before.off) then e else e + 1)
             && (good == |before.table| || Known(before.table[..good], owner) ==>
                   PackedAt(b', before.off, rs[i], now.off, e + 1))
    requires Known(before.table, owner) ==> Behind(b', before.off, KnownBytes(before.table, owner))
    ensures Laying(b', now, good', was, g, owner, rs, i + 1, d)
  {
    hide PackedAt, Covered, TableOk, AllPackedAt, RecordAfter, Known, KnownBytes, Behind;
    RecordCovers(before, rs[i]);
    var covered := Covered(was.table, owner, was.off);
    var e, j := DepthAt(was, g, owner, i, d), if covered then d + 1 else d + 2;
    if i > 0 && Known(was.table, owner) { BehindExtends(b, b', was.off, KnownBytes(was.table, owner)); }
    if g == |was.table| || Known(was.table[..g], owner) {
      if g < |was.table| {
        KnownCovered(was.table, g, owner, was.off);
        assert before.table[..g] == was.table[..g];
      }
      RecordsExtend(b, b', was.off, rs[..i], before.off, j, j);
      RecordExtends(b', b', before.off, rs[i], now.off, e + 1, j);
      RecordsOne(b', before.off, rs[i], now.off, j);
      RecordsAppend(b', was.off, rs[..i], before.off, [rs[i]], now.off, j);
      assert rs[..i] + [rs[i]] == rs[..i + 1];
    }
  }

  lemma LayingCut(b: Bytes, before: Track, good: nat, b': Bytes, now: Track, good': nat, was: Track, g: nat,
                  owner: Bytes, rs: seq<RR>, i: nat, d: nat)
    requires i < |rs| && g <= |was.table| && AllUsable(was.table) && AllUsable(before.table)
    requires Laying(b, before, good, was, g, owner, rs, i, d) && HEADER_LEN <= was.off
    requires good' == good && Extends(b, b', HEADER_LEN) && now.off == before.off && good' <= |now.table|
    requires i > 0 ==> now == before
    requires TableOk(b', HEADER_LEN, now.table[..good'], DepthAt(was, g, owner, i, d))
    ensures Laying(b', now, good', was, g, owner, rs, i, d)
  {
    hide PackedAt, Covered, TableOk, AllPackedAt, Known, KnownBytes, Behind;
    var j := if Covered(was.table, owner, was.off) then d + 1 else d + 2;
    if i > 0 && Known(was.table, owner) { BehindExtends(b, b', was.off, KnownBytes(was.table, owner)); }
    if g == |was.table| || Known(was.table[..g], owner) {
      RecordsExtend(b, b', was.off, rs[..i], before.off, j, j);
    }
  }

  lemma KnownCovered(table: seq<Suffix>, g: nat, name: Bytes, off: nat)
    requires g <= |table| && Known(table[..g], name)
    ensures Covered(table, name, off)
  {
    KnownGrows(table[..g], table, name);
  }

  lemma SetStarts(t: Track, rs: seq<RR>)
    ensures RecordsAfter(t, rs[..0]) == t
  {
  }

  /** The first record that does not fit ends the set. */
  lemma SetCut(was: Track, before: Track, now: Track, owner: Bytes, rs: seq<RR>, i: nat, cap: nat)
    requires i < |rs| && rs[i].owner == owner && before == RecordsAfter(was, rs[..i]) && AllUsable(before.table)
    requires Reached(before, now, rs[i], true, cap) && Fit(was, rs, cap) == i + Fit(before, rs[i..], cap)
    requires i > 0 ==> Covered(before.table, owner, before.off)
    ensures SetReached(was, now, owner, rs, i, cap) && now.off == before.off
    ensures if Lost(was, owner, rs, cap) then i == 0 else now == before
  {
    hide Covered, RecordAfter, RecordsAfter, NameAfter, FirstTake, Known;
    assert rs[i..][0] == rs[i];
    if Covered(before.table, owner, before.off) { CutStays(before, now, owner, cap); }
    if i == 0 { SetStarts(was, rs); }
  }

  /** The name may have been written in full although the record is then cut off. */
  lemma NameLeft(was: Track, owner: Bytes, cap: nat)
    requires AllUsable(was.table) && NameAfter(was, owner, 0).off <= cap
    ensures Left(was, NameAfter(was, owner, 0).(off := was.off), owner, cap)
  {
    hide InTable, NameAfter;
    AfterCovers(was, owner);
    AfterDots(was, owner, 0);
    if Known(was.table, owner) {
      AfterKnown(was, owner);
    } else {
      FirstInserted(was, owner);
      AfterUnknown(was, owner);
    }
  }

  lemma FirstInserted(was: Track, owner: Bytes)
    requires AllUsable(was.table) && !Known(was.table, owner)
    ensures Inserted(was.table, owner[RealStart(owner, 0)..], was.off) <= NameAfter(was, owner, 0).table
  {
    hide InTable;
    AfterDots(was, owner, 0);
  }

  /** However a name was written, it is spelled behind b. */
  lemma OwnerSpelled(b: Bytes, named: Bytes, name: Bytes, t0: seq<Suffix>, g: nat, table: seq<Suffix>, intact: bool,
                     d: nat)
    requires HEADER_LEN <= |b| && g <= |t0| && TableOk(b, HEADER_LEN, t0[..g], d) && AllUsable(t0)
    requires intact ==> Finished(named, HEADER_LEN, table, name, |b|, if t0 == [] then 0 else d + 1)
    requires Known(t0, name) ==> named == b + KnownBytes(t0, name)
    requires intact || Known(t0[..g], name)
    ensures Spells(named, HEADER_LEN, |b|, NameLabels(name), d + 1) && Skip(named, |b|) == |named|
  {
    hide Spells, NameLabels, KnownBytes, Known, TableOk;
    if intact {
      SpellsMore(named, HEADER_LEN, |b|, NameLabels(name), if t0 == [] then 0 else d + 1, d + 1);
    } else {
      KnownGrows(t0[..g], t0, name);
      KnownSpelled(b, t0, g, name, d);
    }
  }

  lemma {:induction false} DotsDropped(name: Bytes, pos: nat)
    requires pos <= |name|
    ensures LabelsFrom(name, pos) == LabelsFrom(name, RealStart(name, pos))
    decreases |name| - pos
  {
    hide LabelsFrom;
    if pos < |name| && name[pos] == DOT {
      EmptyLabelStep(name, pos);
      DotsDropped(name, pos + 1);
    }
  }

  /** A pointer to a suffix that is still in place spells the name. */
  lemma KnownSpelled(b: Bytes, table: seq<Suffix>, g: nat, name: Bytes, d: nat)
    requires HEADER_LEN <= |b| && g <= |table| && TableOk(b, HEADER_LEN, table[..g], d) && AllUsable(table)
    requires Known(table[..g], name) && Known(table, name)
    ensures var b' := b + KnownBytes(table, name);
            Spells(b', HEADER_LEN, |b|, NameLabels(name), d + 1) && Skip(b', |b|) == |b'|
  {
    hide Spells, LabelsFrom, InTable;
    var first := RealStart(name, 0);
    DotsDropped(name, 0);
    if first == |name| {
      LabelsUnfold(name, first);
      EndsHere(b, HEADER_LEN, d + 1);
    } else {
      InTableGrows(table[..g], table, name[first..]);
      var i := FirstIndex(table, name[first..]);
      assert i < g && table[..g][i] == table[i];
      PointsThere(b, HEADER_LEN, table[i].off, table[i].name, name, first, d);
    }
  }

  lemma TableKept(b: Bytes, named: Bytes, out: Bytes, was: Track, r: RR, d: nat)
    requires HEADER_LEN <= |b| && AllUsable(was.table) && TableOk(b, HEADER_LEN, was.table, d)
    requires Extends(b, out, 0) && Extends(named, out, 0)
    requires var t := NameAfter(was, r.owner, 0).table;
             Finished(named, HEADER_LEN, t, r.owner, |b|, if was.table == [] then 0 else d + 1)
    ensures TableOk(out, HEADER_LEN, NameAfter(was, r.owner, 0).table,
                    if Covered(was.table, r.owner, was.off) then d else d + 1)
  {
    hide TableOk, NameAfter, Covered, Spells, NameLabels;
    AfterCovers(was, r.owner);
    if Covered(was.table, r.owner, was.off) {
      TableExtends(b, out, HEADER_LEN, was.table, d, d);
    } else {
      TableExtends(named, out, HEADER_LEN, NameAfter(was, r.owner, 0).table, if was.table == [] then 0 else d + 1,
                   d + 1);
    }
  }

  lemma QuestionWritten(b: Bytes, b': Bytes, off: nat, q: Question, d: nat)
    requires Spells(b, HEADER_LEN, off, NameLabels(q.name), d) && Skip(b, off) == |b|
    requires b' == b + (PutU16(q.qtype) + PutU16(q.cls))
    ensures QuestionAt(b', off, q, |b'|, d)
  {
    SpellsExtends(b, b', HEADER_LEN, off, NameLabels(q.name), d);
    SkipExtends(b, b', HEADER_LEN, off, NameLabels(q.name), d);
  }

  /** What writing the label at pos achieves. */
  lemma LabelWritten(b: Bytes, b': Bytes, lo: nat, before: seq<Suffix>, table: seq<Suffix>, d: nat, name: Bytes,
                     pos: nat, n0: nat, start: nat)
    requires pos < |name| && lo <= |b| && Writing(b, lo, before, n0, d, name, start, pos)
    requires var dot := NextDot(name, pos); var l := name[pos..dot];
             if l == [] then b' == b && table == before
             else && |l| <= MAX_LABEL && b' == b + ([|l|] + l) + (if dot == |name| then [0] else [])
                  && table == Inserted(before, name[pos..], |b|)
    ensures var dot := NextDot(name, pos);
            if dot == |name| then Finished(b', lo, table, name, start, if n0 == 0 then 0 else d + 1)
            else Writing(b', lo, table, n0, d, name, start, dot + 1)
  {
    hide Writing, Finished, TableOk, LabelsFrom, LowerAll;
    var dot := NextDot(name, pos);
    if name[pos] == DOT {
      WritingSkipsEmpty(b, lo, table, n0, d, name, start, pos);
    } else if dot == |name| {
      assert name[pos..dot] == name[pos..];
      LastLabel(b, b', lo, before, table, n0, d, name, start, pos);
    } else {
      LabelStep(name, pos);
      NewLabel(b, lo, name[pos..dot]);
      assert b' == b + ([dot - pos] + name[pos..dot]);
      WritingLabel(b, b', lo, before, table, n0, d, name, start, pos, LowerAll(name[pos..dot]), dot + 1);
    }
  }

  lemma LabelStep(name: Bytes, pos: nat)
    requires pos < |name| && name[pos] != DOT && NextDot(name, pos) < |name|
    ensures var dot := NextDot(name, pos);
            LabelsFrom(name, pos) == [LowerAll(name[pos..dot])] + LabelsFrom(name, dot + 1)
  {
    LabelsUnfold(name, pos);
  }
}
