/**
 Writing names with compression (internal/dns/pack.go): labels, a table of at most sixteen suffix
 offsets, and pointers. What is written spells the name, whatever was written before.
 */
module Compression {
  import opened Octets
  import opened WireNames

  const MAX_SUFFIXES := 16
  const MAX_POINTER := 0x3FFF

  datatype PackError = BufferTooSmall | TextTooLong | LongLabel

  /** A suffix and where the packet spells it. */
  datatype Suffix = Suffix(name: Bytes, off: nat)

  // ---- labels of a text ----

  /** First dot at or after i, or the length. */
  function NextDot(s: Bytes, i: nat): (k: nat)
    requires i <= |s|
    ensures i <= k <= |s|
    ensures k < |s| ==> s[k] == DOT
    ensures forall j :: i <= j < k ==> s[j] != DOT
    decreases |s| - i
  {
    if i == |s| || s[i] == DOT then i else NextDot(s, i + 1)
  }

  /** The labels of the text from i on, in lower case, without empty ones. */
  function LabelsFrom(s: Bytes, i: nat): seq<Bytes>
    requires i <= |s|
    decreases |s| - i
  {
    if i == |s| then []
    else
      var k := NextDot(s, i);
      (if k == i then [] else [LowerAll(s[i..k])]) + if k == |s| then [] else LabelsFrom(s, k + 1)
  }

  function NameLabels(s: Bytes): seq<Bytes> {
    LabelsFrom(s, 0)
  }

  predicate EqualFold(a: Bytes, b: Bytes) {
    |a| == |b| && forall i :: 0 <= i < |a| ==> Lower(a[i]) == Lower(b[i])
  }

  lemma {:induction false} NextDotShift(s: Bytes, base: nat, e: Bytes, j: nat)
    requires base <= |s| && EqualFold(s[base..], e) && j <= |e|
    ensures NextDot(s, base + j) == base + NextDot(e, j)
    decreases |e| - j
  {
    if j < |e| {
      assert s[base..][j] == s[base + j];
      if s[base + j] != DOT { NextDotShift(s, base, e, j + 1); }
    }
  }

  /** Suffixes equal up to case have the same labels. */
  lemma {:induction false} LabelsShift(s: Bytes, base: nat, e: Bytes, j: nat)
    requires base <= |s| && EqualFold(s[base..], e) && j <= |e|
    ensures LabelsFrom(s, base + j) == LabelsFrom(e, j)
    decreases |e| - j
  {
    hide EqualFold, LabelsFrom, NextDot, LowerAll;
    SameLength(s, base, e);
    if j < |e| {
      NextDotShift(s, base, e, j);
      var k := NextDot(e, j);
      LowerPiece(s, base, e, j, k);
      if k < |e| { LabelsShift(s, base, e, k + 1); }
    }
    LabelsUnfold(e, j);
    LabelsUnfold(s, base + j);
  }

  lemma SameLength(s: Bytes, base: nat, e: Bytes)
    requires base <= |s| && EqualFold(s[base..], e)
    ensures |s| == base + |e|
  {
  }

  lemma LabelsUnfold(s: Bytes, i: nat)
    requires i <= |s|
    ensures LabelsFrom(s, i) == if i == |s| then [] else
              var k := NextDot(s, i);
              (if k == i then [] else [LowerAll(s[i..k])]) + if k == |s| then [] else LabelsFrom(s, k + 1)
  {
  }

  lemma LowerPiece(s: Bytes, base: nat, e: Bytes, j: nat, k: nat)
    requires base <= |s| && EqualFold(s[base..], e) && j <= k <= |e|
    ensures LowerAll(s[base + j..base + k]) == LowerAll(e[j..k])
  {
    forall i | 0 <= i < k - j ensures Lower(s[base + j..base + k][i]) == Lower(e[j..k][i]) {
      assert s[base..][j + i] == s[base + j + i];
    }
  }

  /** No empty label from i on, except after a closing dot. */
  predicate NoEmptyLabel(s: Bytes, i: nat)
    requires i <= |s|
  {
    forall j :: i <= j < |s| && s[j] == DOT ==> j > i && (j + 1 < |s| ==> s[j + 1] != DOT)
  }

  /** The text without a closing dot. */
  function Unclosed(s: Bytes): Bytes {
    if s != [] && s[|s| - 1] == DOT then s[..|s| - 1] else s
  }

  lemma {:induction false} DottedLabels(s: Bytes, i: nat)
    requires i < |s| && NoEmptyLabel(s, i)
    ensures Dotted(LabelsFrom(s, i)) == LowerAll(s[i..]) + if s[|s| - 1] == DOT then [] else [DOT]
    decreases |s| - i
  {
    hide Dotted, LabelsFrom, LowerAll;
    var k := NextDot(s, i);
    var l := LowerAll(s[i..k]);
    LabelsUnfold(s, i);
    LowerSplit(s, i, k);
    if k + 1 >= |s| {
      if k < |s| { LabelsUnfold(s, k + 1); }
      assert LabelsFrom(s, i) == [l] + [];
      DottedCons(l, []);
      DottedNone();
    } else {
      DottedLabels(s, k + 1);
      DottedCons(l, LabelsFrom(s, k + 1));
    }
  }

  lemma LowerSplit(s: Bytes, i: nat, k: nat)
    requires i <= k <= |s| && (k < |s| ==> s[k] == DOT)
    ensures k == |s| ==> LowerAll(s[i..]) == LowerAll(s[i..k])
    ensures k < |s| ==> LowerAll(s[i..]) == LowerAll(s[i..k]) + [DOT] + LowerAll(s[k + 1..])
    ensures k + 1 == |s| ==> LowerAll(s[i..]) == LowerAll(s[i..k]) + [DOT]
  {
    if k == |s| {
      assert s[i..] == s[i..k];
    } else {
      var x, y := LowerAll(s[i..]), LowerAll(s[i..k]) + [DOT] + LowerAll(s[k + 1..]);
      forall j | 0 <= j < |x| ensures x[j] == y[j] {
        assert s[i..][j] == s[i + j];
      }
    }
  }

  /** A text without empty labels is its labels joined, up to case and a closing dot. */
  lemma TextOfLabels(s: Bytes)
    requires s != [] && NoEmptyLabel(s, 0)
    ensures NameText(NameLabels(s)) == LowerAll(Unclosed(s))
  {
    DottedLabels(s, 0);
    assert s[0..] == s;
    var t := Dotted(NameLabels(s));
    if s[|s| - 1] == DOT {
      assert LowerAll(s)[..|s| - 1] == LowerAll(s[..|s| - 1]);
    } else {
      assert t[..|t| - 1] == LowerAll(s);
    }
  }

  /** Every byte of the text from i on, and a dot where the last label lacks one. */
  function FullSize(s: Bytes, i: nat): nat
    requires i <= |s|
  {
    |s| - i + if i < |s| && s[|s| - 1] != DOT then 1 else 0
  }

  /** An empty label is lost. */
  lemma {:induction false} LabelsLose(s: Bytes, i: nat)
    requires i <= |s|
    ensures |Dotted(LabelsFrom(s, i))| <= FullSize(s, i)
    ensures !NoEmptyLabel(s, i) ==> |Dotted(LabelsFrom(s, i))| < FullSize(s, i)
    decreases |s| - i
  {
    hide Dotted, LabelsFrom, LowerAll;
    LabelsUnfold(s, i);
    DottedNone();
    if i < |s| {
      var k := NextDot(s, i);
      var rest := if k == |s| then [] else LabelsFrom(s, k + 1);
      if k < |s| { LabelsLose(s, k + 1); }
      if k == i {
        assert [] + rest == rest;
      } else {
        DottedCons(LowerAll(s[i..k]), rest);
      }
    }
  }

  /** The labels of a text joined give it back, up to case and a closing dot, exactly when none of them is empty. */
  lemma TextOfLabelsIff(s: Bytes)
    ensures NameText(NameLabels(s)) == LowerAll(Unclosed(s)) <==> NoEmptyLabel(s, 0) || s == [DOT]
  {
    LabelsLose(s, 0);
    if s != [] && NoEmptyLabel(s, 0) { TextOfLabels(s); }
  }

  // ---- a name being written ----

  /** The labels ls lie one after the other from off to end. */
  predicate Run(b: Bytes, off: nat, ls: seq<Bytes>, end: nat)
    decreases |ls|
  {
    if ls == [] then off == end
    else LabelAt(b, off, ls[0]) && Run(b, off + 1 + |ls[0]|, ls[1..], end)
  }

  lemma {:induction false} RunSnoc(b: Bytes, b': Bytes, off: nat, ls: seq<Bytes>, l: Bytes, lo: nat)
    requires Run(b, off, ls, |b|) && lo <= off && Extends(b, b', lo) && LabelAt(b', |b|, l) && |b'| == |b| + 1 + |l|
    ensures Run(b', off, ls + [l], |b'|)
    decreases |ls|
  {
    if ls == [] {
      assert ls + [l] == [l] && [l][1..] == [];
    } else {
      assert (ls + [l])[0] == ls[0] && (ls + [l])[1..] == ls[1..] + [l];
      LabelAtExtends(b, b', lo, off, ls[0]);
      RunSnoc(b, b', off + 1 + |ls[0]|, ls[1..], l, lo);
    }
  }

  lemma {:induction false} RunSpells(b: Bytes, b': Bytes, lo: nat, off: nat, ls: seq<Bytes>, rest: seq<Bytes>, d: nat)
    requires Run(b, off, ls, |b|) && lo <= off <= |b| && Extends(b, b', lo) && Spells(b', lo, |b|, rest, d)
    ensures Spells(b', lo, off, ls + rest, d) && Skip(b', off) == Skip(b', |b|)
    decreases |ls|
  {
    hide LabelAt, Skip, Extends;
    if ls == [] {
      assert ls + rest == rest;
    } else {
      assert (ls + rest)[0] == ls[0] && (ls + rest)[1..] == ls[1..] + rest;
      LabelAtExtends(b, b', lo, off, ls[0]);
      RunSpells(b, b', lo, off + 1 + |ls[0]|, ls[1..], rest, d);
    }
  }

  /** Of the name nm at off everything is written but rest. */
  ghost predicate Pending(b: Bytes, lo: nat, nm: Bytes, off: nat, rest: seq<Bytes>) {
    var ls := NameLabels(nm);
    && lo <= off <= |b| && |rest| <= |ls| && ls[|ls| - |rest|..] == rest
    && Run(b, off, ls[..|ls| - |rest|], |b|)
  }

  lemma PendingStart(b: Bytes, lo: nat, nm: Bytes)
    requires lo <= |b|
    ensures Pending(b, lo, nm, |b|, NameLabels(nm))
  {
  }

  lemma PendingLabel(b: Bytes, b': Bytes, lo: nat, nm: Bytes, off: nat, l: Bytes, rest: seq<Bytes>)
    requires Pending(b, lo, nm, off, [l] + rest)
    requires Extends(b, b', lo) && LabelAt(b', |b|, l) && |b'| == |b| + 1 + |l|
    ensures Pending(b', lo, nm, off, rest)
  {
    var ls := NameLabels(nm);
    var n := |ls| - |rest| - 1;
    RunSnoc(b, b', off, ls[..n], l, lo);
    assert ls[n..][0] == ls[n] && ls[n..][1..] == ls[n + 1..];
    assert ([l] + rest)[1..] == rest;
    assert ls[..n] + [l] == ls[..n + 1];
  }

  lemma PendingDone(b: Bytes, b': Bytes, lo: nat, nm: Bytes, off: nat, rest: seq<Bytes>, d: nat)
    requires Pending(b, lo, nm, off, rest) && Extends(b, b', lo) && Spells(b', lo, |b|, rest, d)
    ensures Spells(b', lo, off, NameLabels(nm), d) && Skip(b', off) == Skip(b', |b|)
  {
    var ls := NameLabels(nm);
    RunSpells(b, b', lo, off, ls[..|ls| - |rest|], rest, d);
    assert ls[..|ls| - |rest|] + rest == ls;
  }

  // ---- the suffix table ----

  /** Suffixes start with a label and lie where a pointer can reach. */
  ghost predicate Usable(e: Suffix) {
    e.name != [] && e.name[0] != DOT && e.off <= MAX_POINTER
  }

  /** Every suffix in the table is spelled at its offset with at most d jumps. */
  ghost predicate TableOk(b: Bytes, lo: nat, table: seq<Suffix>, d: nat) {
    && |table| <= MAX_SUFFIXES
    && forall i :: 0 <= i < |table| ==>
         Usable(table[i]) && Spells(b, lo, table[i].off, NameLabels(table[i].name), d)
  }

  lemma TableExtends(b: Bytes, b': Bytes, lo: nat, table: seq<Suffix>, d: nat, d': nat)
    requires TableOk(b, lo, table, d) && Extends(b, b', lo) && d <= d'
    ensures TableOk(b', lo, table, d')
  {
    forall i | 0 <= i < |table| ensures Spells(b', lo, table[i].off, NameLabels(table[i].name), d') {
      SpellsExtends(b, b', lo, table[i].off, NameLabels(table[i].name), d);
      SpellsMore(b', lo, table[i].off, NameLabels(table[i].name), d, d');
    }
  }

  ghost predicate InTable(table: seq<Suffix>, name: Bytes) {
    exists i :: 0 <= i < |table| && EqualFold(table[i].name, name)
  }

  /** The first entry with the name up to case. */
  ghost function FirstIndex(table: seq<Suffix>, name: Bytes): (i: nat)
    requires InTable(table, name)
    ensures i < |table| && EqualFold(table[i].name, name)
    ensures forall j :: 0 <= j < i ==> !EqualFold(table[j].name, name)
  {
    if EqualFold(table[0].name, name) then 0
    else
      assert InTable(table[1..], name) by {
        var i :| 0 <= i < |table| && EqualFold(table[i].name, name);
        assert table[1..][i - 1] == table[i];
      }
      FirstIndex(table[1..], name) + 1
  }

  method FoldEqual(a: Bytes, b: Bytes) returns (eq: bool)
    ensures eq <==> EqualFold(a, b)
  {
    if |a| != |b| { return false; }
    for i := 0 to |a|
      invariant forall j :: 0 <= j < i ==> Lower(a[j]) == Lower(b[j])
    {
      var ca, cb := a[i], b[i];
      if 65 <= ca <= 90 { ca := ca + 32; }
      if 65 <= cb <= 90 { cb := cb + 32; }
      if ca != cb { return false; }
    }
    return true;
  }

  /** Where the name was spelled before, if the table knows. */
  method LookupSuffix(table: seq<Suffix>, name: Bytes) returns (at: Option<nat>)
    ensures name == [] || name == [DOT] ==> at.None?
    ensures name != [] && name != [DOT] ==> (at.Some? <==> InTable(table, name))
    ensures at.Some? ==> InTable(table, name) && at.value == table[FirstIndex(table, name)].off
  {
    if name == [] || name == [DOT] { return None; }
    for i := 0 to |table|
      invariant forall j :: 0 <= j < i ==> !EqualFold(table[j].name, name)
    {
      var eq := FoldEqual(table[i].name, name);
      if eq {
        assert InTable(table, name);
        return Some(table[i].off);
      }
    }
    return None;
  }

  method InsertSuffix(table: seq<Suffix>, name: Bytes, offset: nat) returns (r: seq<Suffix>)
    ensures r == if || |table| >= MAX_SUFFIXES || offset > MAX_POINTER || name == [] || name == [DOT]
                    || InTable(table, name)
                 then table else table + [Suffix(name, offset)]
  {
    if |table| >= MAX_SUFFIXES || offset > MAX_POINTER || name == [] || name == [DOT] { return table; }
    for i := 0 to |table|
      invariant forall j :: 0 <= j < i ==> !EqualFold(table[j].name, name)
    {
      var eq := FoldEqual(table[i].name, name);
      if eq { return table; }
    }
    return table + [Suffix(name, offset)];
  }
}
