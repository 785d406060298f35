/**
 Domain names on the wire (internal/dns/unpack.go, section 4.1.4 of RFC 1035): decoding with
 compression pointers, and skipping a name without following them (internal/store/batch.go).
 */
module WireNames {
  import opened Octets

  const MAX_LABEL := 63
  const MAX_NAME := 255
  const MAX_JUMPS := 10
  const JUMP_TAG := 0xC0

  datatype NameError = TooManyJumps | OutOfBounds | InvalidPointer | LabelTooLong | NameTooLong

  datatype Decoded = Name(labels: seq<Bytes>, next: nat) | Failed(error: NameError)

  /** The name at off: jumps pointers were followed and len bytes of text collected before. */
  function DecodeAt(b: Bytes, off: nat, jumps: nat, len: nat): Decoded
    requires jumps <= MAX_JUMPS + 1 && len <= MAX_NAME
    decreases MAX_JUMPS + 1 - jumps, MAX_NAME - len
  {
    if jumps > MAX_JUMPS then Failed(TooManyJumps)
    else if off >= |b| then Failed(OutOfBounds)
    else
      var o: int := b[off];
      if o == 0 then Name([], off + 1)
      else if o >= JUMP_TAG then
        if off + 1 >= |b| then Failed(OutOfBounds)
        else
          var p := (o - JUMP_TAG) * 256 + b[off + 1];
          if p >= |b| || p >= off then Failed(InvalidPointer)
          else match DecodeAt(b, p, jumps + 1, len)
               case Name(ls, _) => Name(ls, off + 2)
               case Failed(e) => Failed(e)
      else if o > MAX_LABEL then Failed(LabelTooLong)
      else if off + 1 + o > |b| then Failed(OutOfBounds)
      else if len + o + 1 > MAX_NAME then Failed(NameTooLong)
      else match DecodeAt(b, off + 1 + o, jumps, len + o + 1)
           case Name(ls, e) => Name([b[off + 1..off + 1 + o]] + ls, e)
           case Failed(e) => Failed(e)
  }

  function Decode(b: Bytes, off: nat): Decoded {
    DecodeAt(b, off, 0, 0)
  }

  /** Every label followed by a dot. */
  function Dotted(ls: seq<Bytes>): Bytes {
    if ls == [] then [] else Dotted(ls[..|ls| - 1]) + ls[|ls| - 1] + [DOT]
  }

  /** The text handed to the caller: dotted, without the last dot. */
  function NameText(ls: seq<Bytes>): Bytes {
    var t := Dotted(ls);
    if t == [] then [] else t[..|t| - 1]
  }

  lemma DottedSnoc(ls: seq<Bytes>, l: Bytes)
    ensures Dotted(ls + [l]) == Dotted(ls) + l + [DOT]
  {
    assert (ls + [l])[..|ls|] == ls;
  }

  lemma {:induction false} DottedCons(l: Bytes, ls: seq<Bytes>)
    ensures Dotted([l] + ls) == l + [DOT] + Dotted(ls)
    decreases |ls|
  {
    if ls == [] {
      assert [l] + ls == [l] && [l][..0] == [];
      assert Dotted([l]) == [] + l + [DOT];
    } else {
      var n := |ls| - 1;
      var all := [l] + ls;
      assert all[..|all| - 1] == [l] + ls[..n] && all[|all| - 1] == ls[n];
      DottedCons(l, ls[..n]);
      assert (l + [DOT] + Dotted(ls[..n])) + ls[n] + [DOT] == l + [DOT] + (Dotted(ls[..n]) + ls[n] + [DOT]);
    }
  }

  // ---- the decoder's loop ----

  function Resumed(done: seq<Bytes>, hasJumped: bool, resume: nat, rest: Decoded): Decoded {
    match rest
    case Name(ls, e) => Name(done + ls, if hasJumped then resume else e)
    case Failed(e) => Failed(e)
  }

  /** Follows the name into a fixed buffer; pointers go backwards only and at most ten times. */
  method DecodeName(b: Bytes, start: nat) returns (text: Bytes, next: nat, err: Option<NameError>)
    ensures match Decode(b, start)
            case Name(ls, e) => err == None && text == NameText(ls) && next == e
            case Failed(e) => err == Some(e)
  {
    hide NameText, Dotted, DecodeAt;
    var buffer := new Byte[MAX_NAME];
    var length: nat, jumps: nat := 0, 0;
    var cur: nat, resume: nat, hasJumped := start, start, false;
    ghost var done: seq<Bytes> := [];
    DottedNone();
    StepNothing(b, start);
    while true
      invariant length <= MAX_NAME && jumps <= MAX_JUMPS + 1
      invariant buffer[..length] == Dotted(done)
      invariant !hasJumped ==> resume == cur
      invariant Resumed(done, hasJumped, resume, DecodeAt(b, cur, jumps, length)) == Decode(b, start)
      decreases MAX_JUMPS + 1 - jumps, MAX_NAME - length
    {
      StepFails(b, cur, jumps, length);
      if jumps > MAX_JUMPS { return [], 0, Some(TooManyJumps); }
      if cur >= |b| { return [], 0, Some(OutOfBounds); }
      var octet: int := b[cur];
      if octet == 0 {
        StepEnd(b, cur, jumps, length, done, hasJumped, resume);
        if !hasJumped { resume := resume + 1; }
        break;
      }
      if octet >= JUMP_TAG {
        if cur + 1 >= |b| { return [], 0, Some(OutOfBounds); }
        var p := (octet - JUMP_TAG) * 256 + b[cur + 1];
        if p >= |b| || p >= cur { return [], 0, Some(InvalidPointer); }
        StepPointer(b, cur, jumps, length, done, hasJumped, resume);
        if !hasJumped { resume, hasJumped := resume + 2, true; }
        cur, jumps := p, jumps + 1;
        continue;
      }
      if octet > MAX_LABEL { return [], 0, Some(LabelTooLong); }
      if cur + 1 + octet > |b| { return [], 0, Some(OutOfBounds); }
      if length + octet + 1 > MAX_NAME { return [], 0, Some(NameTooLong); }
      ghost var l := b[cur + 1..cur + 1 + octet];
      StepLabel(b, cur, jumps, length, done, hasJumped, resume);
      CopyLabel(buffer, length, b, cur + 1, octet);
      DottedSnoc(done, l);
      done := done + [l];
      length := length + octet + 1;
      cur := cur + 1 + octet;
      if !hasJumped { resume := cur; }
    }
    TextOfBuffer(buffer[..], length, done);
    if length > 0 { length := length - 1; }
    return buffer[..length], resume, None;
  }

  lemma StepNothing(b: Bytes, start: nat)
    ensures Resumed([], false, start, Decode(b, start)) == Decode(b, start)
  {
    var r := Decode(b, start);
    if r.Name? { assert [] + r.labels == r.labels; }
  }

  lemma StepFails(b: Bytes, cur: nat, jumps: nat, len: nat)
    requires jumps <= MAX_JUMPS + 1 && len <= MAX_NAME
    ensures var r := DecodeAt(b, cur, jumps, len);
            if jumps > MAX_JUMPS then r == Failed(TooManyJumps)
            else if cur >= |b| then r == Failed(OutOfBounds)
            else if b[cur] >= JUMP_TAG then
              (cur + 1 >= |b| ==> r == Failed(OutOfBounds))
              && (cur + 1 < |b| ==> var p := (b[cur] - JUMP_TAG) * 256 + b[cur + 1];
                                    p >= |b| || p >= cur ==> r == Failed(InvalidPointer))
            else if b[cur] > MAX_LABEL then r == Failed(LabelTooLong)
            else if b[cur] > 0 then
              if cur + 1 + b[cur] > |b| then r == Failed(OutOfBounds)
              else len + b[cur] + 1 > MAX_NAME ==> r == Failed(NameTooLong)
            else true
  {
  }

  lemma StepEnd(b: Bytes, cur: nat, jumps: nat, len: nat, done: seq<Bytes>, hasJumped: bool, resume: nat)
    requires jumps <= MAX_JUMPS && len <= MAX_NAME && cur < |b| && b[cur] == 0
    ensures Resumed(done, hasJumped, resume, DecodeAt(b, cur, jumps, len)) ==
            Name(done, if hasJumped then resume else cur + 1)
  {
    assert done + [] == done;
  }

  lemma StepPointer(b: Bytes, cur: nat, jumps: nat, len: nat, done: seq<Bytes>, hasJumped: bool, resume: nat)
    requires jumps <= MAX_JUMPS && len <= MAX_NAME && cur + 1 < |b| && b[cur] >= JUMP_TAG
    requires (b[cur] - JUMP_TAG) * 256 + b[cur + 1] < cur
    ensures var p := (b[cur] - JUMP_TAG) * 256 + b[cur + 1];
            Resumed(done, hasJumped, resume, DecodeAt(b, cur, jumps, len)) ==
            Resumed(done, true, if hasJumped then resume else cur + 2, DecodeAt(b, p, jumps + 1, len))
  {
  }

  lemma StepLabel(b: Bytes, cur: nat, jumps: nat, len: nat, done: seq<Bytes>, hasJumped: bool, resume: nat)
    requires jumps <= MAX_JUMPS && len <= MAX_NAME && cur < |b| && 0 < b[cur] <= MAX_LABEL
    requires cur + 1 + b[cur] <= |b| && len + b[cur] + 1 <= MAX_NAME
    ensures var o: int := b[cur]; var l := b[cur + 1..cur + 1 + o];
            Resumed(done, hasJumped, resume, DecodeAt(b, cur, jumps, len)) ==
            Resumed(done + [l], hasJumped, if hasJumped then resume else cur + 1 + o,
                    DecodeAt(b, cur + 1 + o, jumps, len + o + 1))
  {
    var o: int := b[cur];
    var l := b[cur + 1..cur + 1 + o];
    var rest := DecodeAt(b, cur + 1 + o, jumps, len + o + 1);
    assert rest.Name? ==> done + ([l] + rest.labels) == (done + [l]) + rest.labels;
  }

  method CopyLabel(buffer: array<Byte>, length: nat, b: Bytes, from: nat, n: nat)
    requires length + n + 1 <= buffer.Length && from + n <= |b|
    modifies buffer
    ensures buffer[..length + n + 1] == old(buffer[..length]) + b[from..from + n] + [DOT]
  {
    forall i | 0 <= i < n { buffer[length + i] := b[from + i]; }
    buffer[length + n] := DOT;
    assert buffer[..length] == old(buffer[..length]);
    assert buffer[length..length + n] == b[from..from + n];
    assert buffer[..length + n + 1] == buffer[..length] + buffer[length..length + n] + [buffer[length + n]];
  }

  lemma DottedNone()
    ensures Dotted([]) == []
  {
  }

  lemma TextOfBuffer(buf: Bytes, length: nat, ls: seq<Bytes>)
    requires length <= |buf| && buf[..length] == Dotted(ls)
    ensures NameText(ls) == if length > 0 then buf[..length - 1] else buf[..0]
  {
    if length > 0 { assert buf[..length][..length - 1] == buf[..length - 1]; }
  }

  // ---- skipping ----

  function Skip(b: Bytes, curr: nat): (r: int)
    ensures r == -1 || r > curr
    decreases |b| - curr
  {
    if curr >= |b| then -1
    else
      var l: int := b[curr];
      if l == 0 then curr + 1
      else if l >= JUMP_TAG then curr + 2
      else Skip(b, curr + 1 + l)
  }

  method SkipDomainName(data: Bytes, start: nat) returns (r: int)
    ensures r == Skip(data, start)
  {
    var curr := start;
    while curr < |data|
      invariant Skip(data, curr) == Skip(data, start)
      decreases |data| - curr
    {
      var l: int := data[curr];
      if l == 0 { return curr + 1; }
      if l >= JUMP_TAG { return curr + 2; }
      curr := curr + 1 + l;
    }
    return -1;
  }

  /** Whenever the decoder accepts a name, skipping it ends at the same place. */
  lemma {:induction false} SkipAgrees(b: Bytes, off: nat, jumps: nat, len: nat)
    requires jumps <= MAX_JUMPS && len <= MAX_NAME && DecodeAt(b, off, jumps, len).Name?
    ensures Skip(b, off) == DecodeAt(b, off, jumps, len).next
    ensures off < DecodeAt(b, off, jumps, len).next <= |b|
    decreases MAX_NAME - len
  {
    var o: int := b[off];
    if 0 < o < JUMP_TAG { SkipAgrees(b, off + 1 + o, jumps, len + o + 1); }
  }

  // ---- what a place in the packet spells ----

  /** Bytes the decoder collects for the labels. */
  function TextSize(ls: seq<Bytes>): nat {
    if ls == [] then 0 else |ls[0]| + 1 + TextSize(ls[1..])
  }

  function LowerLabels(ls: seq<Bytes>): (r: seq<Bytes>)
    ensures |r| == |ls|
    ensures forall i :: 0 <= i < |ls| ==> r[i] == LowerAll(ls[i])
  {
    seq(|ls|, i requires 0 <= i < |ls| => LowerAll(ls[i]))
  }

  /** A label equal to l up to case lies at off. */
  predicate LabelAt(b: Bytes, off: nat, l: Bytes) {
    0 < |l| <= MAX_LABEL && off + 1 + |l| <= |b| && b[off] == |l| && LowerAll(b[off + 1..off + 1 + |l|]) == l
  }

  /** From off on, never below lo, b spells the lower-case labels ls with at most d jumps. */
  predicate Spells(b: Bytes, lo: nat, off: nat, ls: seq<Bytes>, d: nat)
    decreases d, |ls|
  {
    && lo <= off < |b|
    && (
      || (b[off] == 0 && ls == [])
      || (ls != [] && LabelAt(b, off, ls[0]) && Spells(b, lo, off + 1 + |ls[0]|, ls[1..], d))
      || (b[off] >= JUMP_TAG && d > 0 && off + 1 < |b| && (b[off] - JUMP_TAG) * 256 + b[off + 1] < off
          && Spells(b, lo, (b[off] - JUMP_TAG) * 256 + b[off + 1], ls, d - 1)))
  }

  lemma SpellsRoot(b: Bytes, lo: nat, off: nat, d: nat)
    requires lo <= off < |b| && b[off] == 0
    ensures Spells(b, lo, off, [], d)
  {
  }

  lemma SpellsLabel(b: Bytes, lo: nat, off: nat, l: Bytes, ls: seq<Bytes>, d: nat)
    requires LabelAt(b, off, l) && Spells(b, lo, off + 1 + |l|, ls, d) && lo <= off
    ensures Spells(b, lo, off, [l] + ls, d)
  {
    hide LabelAt;
    assert off < |b| by { LabelInside(b, off, l); }
    assert ([l] + ls)[1..] == ls;
  }

  lemma LabelInside(b: Bytes, off: nat, l: Bytes)
    requires LabelAt(b, off, l)
    ensures off < |b|
  {
  }

  lemma SpellsJump(b: Bytes, lo: nat, off: nat, ls: seq<Bytes>, d: nat)
    requires lo <= off && off + 1 < |b| && b[off] >= JUMP_TAG && (b[off] - JUMP_TAG) * 256 + b[off + 1] < off
    requires Spells(b, lo, (b[off] - JUMP_TAG) * 256 + b[off + 1], ls, d)
    ensures Spells(b, lo, off, ls, d + 1)
  {
    hide LabelAt;
  }

  lemma DecodeLabel(b: Bytes, off: nat, l: Bytes, jumps: nat, len: nat)
    requires LabelAt(b, off, l) && jumps <= MAX_JUMPS && len <= MAX_NAME
    ensures if len + |l| + 1 > MAX_NAME then DecodeAt(b, off, jumps, len) == Failed(NameTooLong)
            else match DecodeAt(b, off + 1 + |l|, jumps, len + |l| + 1)
                 case Name(ls, e) => DecodeAt(b, off, jumps, len) == Name([b[off + 1..off + 1 + |l|]] + ls, e)
                 case Failed(e) => DecodeAt(b, off, jumps, len) == Failed(e)
    ensures Skip(b, off) == Skip(b, off + 1 + |l|)
  {
  }

  lemma DecodeEnd(b: Bytes, off: nat, jumps: nat, len: nat)
    requires off < |b| && b[off] == 0 && jumps <= MAX_JUMPS && len <= MAX_NAME
    ensures DecodeAt(b, off, jumps, len) == Name([], off + 1) && Skip(b, off) == off + 1
  {
  }

  lemma DecodePointer(b: Bytes, off: nat, jumps: nat, len: nat)
    requires off + 1 < |b| && b[off] as int >= JUMP_TAG && (b[off] as int - JUMP_TAG) * 256 + b[off + 1] < off
    requires jumps <= MAX_JUMPS && len <= MAX_NAME
    ensures DecodeAt(b, off, jumps, len) ==
            match DecodeAt(b, (b[off] as int - JUMP_TAG) * 256 + b[off + 1], jumps + 1, len)
            case Name(ls, _) => Name(ls, off + 2)
            case Failed(e) => Failed(e)
    ensures Skip(b, off) == off + 2
  {
  }

  lemma LowerLabelsCons(l: Bytes, ls: seq<Bytes>)
    ensures LowerLabels([l] + ls) == [LowerAll(l)] + LowerLabels(ls)
  {
  }

  /** A spelled name decodes to its labels up to case, exactly when its text fits the decoder's buffer. */
  lemma {:induction false} SpelledDecodes(b: Bytes, lo: nat, off: nat, ls: seq<Bytes>, d: nat, jumps: nat, len: nat)
    requires Spells(b, lo, off, ls, d) && jumps + d <= MAX_JUMPS && len <= MAX_NAME
    ensures var r := DecodeAt(b, off, jumps, len);
            if len + TextSize(ls) <= MAX_NAME then r.Name? && LowerLabels(r.labels) == ls && r.next == Skip(b, off)
            else r == Failed(NameTooLong)
    decreases d, |ls|
  {
    hide LowerLabels, LowerAll, DecodeAt, Skip;
    var o: int := b[off];
    if o == 0 {
      LowerLabelsNone();
      DecodeEnd(b, off, jumps, len);
    } else if o >= JUMP_TAG {
      DecodePointer(b, off, jumps, len);
      SpelledDecodes(b, lo, (o - JUMP_TAG) * 256 + b[off + 1], ls, d - 1, jumps + 1, len);
    } else {
      var l := ls[0];
      DecodeLabel(b, off, l, jumps, len);
      if len + |l| + 1 <= MAX_NAME {
        SpelledDecodes(b, lo, off + 1 + |l|, ls[1..], d, jumps, len + |l| + 1);
        var r := DecodeAt(b, off + 1 + |l|, jumps, len + |l| + 1);
        if r.Name? { LowerLabelsCons(b[off + 1..off + 1 + |l|], r.labels); }
      }
    }
  }

  lemma LowerLabelsNone()
    ensures LowerLabels([]) == []
  {
  }

  /** b' continues b and keeps what b holds from lo on. */
  ghost predicate Extends(b: Bytes, b': Bytes, lo: nat) {
    |b| <= |b'| && forall i :: lo <= i < |b| ==> b'[i] == b[i]
  }

  lemma LabelAtExtends(b: Bytes, b': Bytes, lo: nat, off: nat, l: Bytes)
    requires LabelAt(b, off, l) && Extends(b, b', lo) && lo <= off
    ensures LabelAt(b', off, l) && off < |b| <= |b'| && off + 1 + |l| <= |b|
    ensures Skip(b', off) == Skip(b', off + 1 + |l|)
  {
    assert b'[off + 1..off + 1 + |l|] == b[off + 1..off + 1 + |l|];
  }

  lemma {:induction false} SpellsExtends(b: Bytes, b': Bytes, lo: nat, off: nat, ls: seq<Bytes>, d: nat)
    requires Spells(b, lo, off, ls, d) && Extends(b, b', lo)
    ensures Spells(b', lo, off, ls, d)
    decreases d, |ls|
  {
    if ls != [] && LabelAt(b, off, ls[0]) {
      LabelAtExtends(b, b', lo, off, ls[0]);
      SpellsExtends(b, b', lo, off + 1 + |ls[0]|, ls[1..], d);
    } else if b[off] >= JUMP_TAG {
      SpellsExtends(b, b', lo, (b[off] - JUMP_TAG) * 256 + b[off + 1], ls, d - 1);
    }
  }

  lemma {:induction false} SpellsMore(b: Bytes, lo: nat, off: nat, ls: seq<Bytes>, d: nat, d': nat)
    requires Spells(b, lo, off, ls, d) && d <= d'
    ensures Spells(b, lo, off, ls, d')
    decreases d, |ls|
  {
    if ls != [] && LabelAt(b, off, ls[0]) {
      SpellsMore(b, lo, off + 1 + |ls[0]|, ls[1..], d, d');
    } else if b[off] >= JUMP_TAG {
      SpellsMore(b, lo, (b[off] - JUMP_TAG) * 256 + b[off + 1], ls, d - 1, d' - 1);
    }
  }

  lemma {:induction false} SkipExtends(b: Bytes, b': Bytes, lo: nat, off: nat, ls: seq<Bytes>, d: nat)
    requires Spells(b, lo, off, ls, d) && Extends(b, b', lo)
    ensures Skip(b', off) == Skip(b, off) <= |b|
    decreases |ls|
  {
    if ls != [] && LabelAt(b, off, ls[0]) {
      SkipExtends(b, b', lo, off + 1 + |ls[0]|, ls[1..], d);
    }
  }

  lemma {:induction false} LowerDotted(ls: seq<Bytes>)
    ensures LowerAll(Dotted(ls)) == Dotted(LowerLabels(ls))
    decreases |ls|
  {
    if ls != [] {
      var n := |ls| - 1;
      LowerDotted(ls[..n]);
      var low := LowerLabels(ls);
      assert low[..n] == LowerLabels(ls[..n]) && low[n] == LowerAll(ls[n]);
      var x, y := Dotted(ls[..n]), ls[n];
      assert LowerAll(x + y + [DOT]) == LowerAll(x) + LowerAll(y) + [DOT];
    }
  }

  lemma LowerNameText(ls: seq<Bytes>)
    ensures LowerAll(NameText(ls)) == NameText(LowerLabels(ls))
  {
    LowerDotted(ls);
    var t := Dotted(ls);
    if t != [] { assert LowerAll(t[..|t| - 1]) == LowerAll(t)[..|t| - 1]; }
  }
}
