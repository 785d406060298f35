/** Domain names read label by label from the right (internal/radix/iterator.go). */
module Names {
  import opened Octets

  type Label = Bytes
  /** Labels from the root downwards: "www.example.com" is [com, example, www]. */
  type Path = seq<Label>

  /** One label, with the position in the text where the iterator stands after it. */
  datatype Hop = Hop(lab: Label, cursor: nat)

  datatype Step = Done | Found(lab: Label, cursor: nat)

  /** Position of the last dot before c, or -1 (strings.LastIndexByte on the text up to c). */
  function LastDot(d: Bytes, c: nat): (k: int)
    requires c <= |d|
    ensures -1 <= k < c
    ensures k >= 0 ==> d[k] == DOT
    ensures forall j :: k < j < c ==> d[j] != DOT
  {
    if c == 0 then -1
    else if d[c - 1] == DOT then c - 1
    else LastDot(d, c - 1)
  }

  /** What Next finds to the left of the cursor. */
  function NextStep(d: Bytes, cursor: nat): (r: Step)
    requires cursor <= |d|
    ensures r.Found? ==> r.cursor < cursor && r.lab != [] && DOT !in r.lab
  {
    if cursor == 0 then Done
    else
      var k := LastDot(d, cursor);
      if k == -1 then
        Found(d[..cursor], 0)
      else if k + 1 < cursor then
        Found(d[k + 1..cursor], k)
      else NextStep(d, k)
  }

  function Hops(d: Bytes, cursor: nat): seq<Hop>
    requires cursor <= |d|
  {
    match NextStep(d, cursor)
    case Done => []
    case Found(l, c) => [Hop(LowerAll(l), c)] + Hops(d, c)
  }

  function LabelsOf(hs: seq<Hop>): (p: Path)
    ensures |p| == |hs|
    ensures forall i :: 0 <= i < |hs| ==> p[i] == hs[i].lab
  {
    seq(|hs|, i requires 0 <= i < |hs| => hs[i].lab)
  }

  function PathOf(d: Bytes): Path {
    LabelsOf(Hops(d, |d|))
  }

  /** Lower case, not empty, free of dots: the only labels the iterator hands out. */
  ghost predicate ProperLabel(l: Label) {
    l != [] && DOT !in l && LowerAll(l) == l
  }

  ghost predicate ProperPath(p: Path) {
    forall i :: 0 <= i < |p| ==> ProperLabel(p[i])
  }

  /** The dotted text of a path, deepest label first; the root is the empty text. */
  function Text(p: Path): Bytes {
    if p == [] then []
    else if |p| == 1 then p[0]
    else Text(p[1..]) + [DOT] + p[0]
  }

  // ---- the iterator ----

  class DomainIterator {
    const domain: Bytes
    var cursor: nat

    ghost predicate Valid()
      reads this
    {
      cursor <= |domain|
    }

    constructor (domain: Bytes)
      ensures Valid() && this.domain == domain && cursor == |domain|
    {
      this.domain := domain;
      this.cursor := |domain|;
    }

    method Next() returns (lab: Bytes, ok: bool)
      requires Valid()
      modifies this
      ensures Valid()
      ensures match NextStep(domain, old(cursor))
              case Done => !ok && lab == [] && cursor == 0
              case Found(l, c) => ok && lab == l && cursor == c
    {
      while cursor > 0
        invariant Valid() && cursor <= old(cursor)
        invariant NextStep(domain, cursor) == NextStep(domain, old(cursor))
        decreases cursor
      {
        var end := cursor;
        var dotIdx := LastDot(domain, cursor);
        if dotIdx == -1 {
          cursor := 0;
          return domain[..end], true;
        }
        cursor := dotIdx;
        lab := domain[dotIdx + 1..end];
        if lab != [] {
          return lab, true;
        }
      }
      return [], false;
    }

    /** Next with ASCII upper case folded, through the caller's buffer when the label fits it. */
    method NextLower(buf: array<Byte>) returns (lab: Bytes, ok: bool)
      requires Valid()
      modifies this, buf
      ensures Valid()
      ensures match NextStep(domain, old(cursor))
              case Done => !ok && cursor == 0
              case Found(l, c) => ok && lab == LowerAll(l) && cursor == c
    {
      var raw;
      raw, ok := Next();
      if !ok { return [], false; }
      var hasUpper := false;
      for i := 0 to |raw|
        invariant !hasUpper ==> forall j :: 0 <= j < i ==> Lower(raw[j]) == raw[j]
      {
        if 65 <= raw[i] <= 90 {
          hasUpper := true;
          break;
        }
      }
      if !hasUpper {
        assert LowerAll(raw) == raw;
        return raw, true;
      }
      ghost var after := cursor;
      var target := buf;
      if |raw| > buf.Length { target := new Byte[|raw|]; }
      for i := 0 to |raw|
        invariant Valid() && cursor == after
        invariant fresh(target) || target == buf
        invariant |raw| <= target.Length
        invariant forall j :: 0 <= j < i ==> target[j] == Lower(raw[j])
      {
        var b := raw[i];
        if 65 <= b <= 90 { b := b + 32; }
        target[i] := b;
      }
      assert target[..|raw|] == LowerAll(raw);
      return target[..|raw|], true;
    }
  }

  // ---- laws of paths ----

  lemma LabelsOfCons(h: Hop, hs: seq<Hop>)
    ensures LabelsOf([h] + hs) == [h.lab] + LabelsOf(hs)
  {
  }

  lemma {:induction false} HopsProper(d: Bytes, cursor: nat)
    requires cursor <= |d|
    ensures ProperPath(LabelsOf(Hops(d, cursor)))
  {
    match NextStep(d, cursor)
    case Done =>
    case Found(l, c) =>
      LowerAllIdempotent(l);
      forall j | 0 <= j < |l| ensures LowerAll(l)[j] != DOT {
        assert l[j] in l;
      }
      HopsProper(d, c);
  }

  lemma PathOfProper(d: Bytes)
    ensures ProperPath(PathOf(d))
  {
    HopsProper(d, |d|);
  }

  /** Bytes to the right of the cursor do not matter. */
  lemma {:induction false} HopsPrefix(a: Bytes, b: Bytes, cursor: nat)
    requires cursor <= |a| <= |b| && a == b[..|a|]
    ensures Hops(a, cursor) == Hops(b, cursor)
    decreases cursor
  {
    if cursor > 0 {
      NextStepPrefix(a, b, cursor);
      match NextStep(a, cursor)
      case Done =>
      case Found(l, c) => HopsPrefix(a, b, c);
    }
  }

  lemma {:induction false} NextStepPrefix(a: Bytes, b: Bytes, cursor: nat)
    requires cursor <= |a| <= |b| && a == b[..|a|]
    ensures NextStep(a, cursor) == NextStep(b, cursor)
  {
    if cursor > 0 {
      assert a[..cursor] == b[..cursor];
      var k := LastDot(a, cursor);
      if k != -1 {
        assert a[k + 1..cursor] == b[k + 1..cursor];
        if k + 1 == cursor { NextStepPrefix(a, b, k); }
      }
    }
  }

  /** One step of the path, by where the last dot stands. */
  lemma HopsStep(d: Bytes, c: nat)
    requires 0 < c <= |d|
    ensures var k := LastDot(d, c);
            Hops(d, c) == if k == -1 then [Hop(LowerAll(d[..c]), 0)]
                          else if k + 1 == c then Hops(d, k)
                          else [Hop(LowerAll(d[k + 1..c]), k)] + Hops(d, k)
  {
    var k := LastDot(d, c);
    if k == -1 {
      assert Hops(d, 0) == [];
    } else if k + 1 == c {
      assert NextStep(d, c) == NextStep(d, k);
    }
  }

  /** d ends in b, after a dot at base - 1. */
  ghost predicate EndsIn(d: Bytes, base: nat, b: Bytes) {
    0 < base && |d| == base + |b| && d[base - 1] == DOT && d[base..] == b
  }

  lemma {:induction false} LastDotShifted(d: Bytes, base: nat, b: Bytes, j: nat)
    requires EndsIn(d, base, b) && j <= |b|
    ensures LastDot(d, base + j) == if LastDot(b, j) == -1 then base - 1 else base + LastDot(b, j)
  {
    if j > 0 {
      assert d[base..][j - 1] == d[base + j - 1];
      LastDotShifted(d, base, b, j - 1);
    }
  }

  lemma {:induction false} HopsShifted(d: Bytes, base: nat, b: Bytes, j: nat)
    requires EndsIn(d, base, b) && j <= |b|
    ensures LabelsOf(Hops(d, base + j)) == LabelsOf(Hops(b, j)) + LabelsOf(Hops(d, base - 1))
    decreases j
  {
    hide Hops, NextStep, LastDot, LowerAll, LabelsOf;
    if j > 0 {
      var k := LastDot(b, j);
      HopsShiftedStep(d, base, b, j);
      if k >= 0 {
        HopsShifted(d, base, b, k);
        var l, x, y := LowerAll(b[k + 1..j]), LabelsOf(Hops(b, k)), LabelsOf(Hops(d, base - 1));
        assert [l] + (x + y) == ([l] + x) + y;
      }
    } else {
      LastDotShifted(d, base, b, 0);
      HopsStep(d, base);
      HopsAtStart(b);
    }
  }

  lemma HopsAtStart(d: Bytes)
    ensures Hops(d, 0) == [] && LastDot(d, 0) == -1
  {
  }

  lemma {:induction false} HopsShiftedStep(d: Bytes, base: nat, b: Bytes, j: nat)
    requires EndsIn(d, base, b) && 0 < j <= |b|
    ensures var k := LastDot(b, j); var l := LowerAll(b[k + 1..j]);
            if k == -1 then
              LabelsOf(Hops(b, j)) == [l] && LabelsOf(Hops(d, base + j)) == [l] + LabelsOf(Hops(d, base - 1))
            else if k + 1 == j then
              Hops(b, j) == Hops(b, k) && Hops(d, base + j) == Hops(d, base + k)
            else
              LabelsOf(Hops(b, j)) == [l] + LabelsOf(Hops(b, k))
              && LabelsOf(Hops(d, base + j)) == [l] + LabelsOf(Hops(d, base + k))
  {
    hide Hops, NextStep, LastDot, LowerAll, LabelsOf;
    LastDotShifted(d, base, b, j);
    HopsStep(d, base + j);
    HopsStep(b, j);
    var k := LastDot(b, j);
    EndSlice(d, base, b, k + 1, j);
    assert b[0..j] == b[..j];
  }

  lemma EndSlice(d: Bytes, base: nat, b: Bytes, i: nat, j: nat)
    requires EndsIn(d, base, b) && i <= j <= |b|
    ensures d[base + i..base + j] == b[i..j]
  {
    assert forall k :: 0 <= k < |b| ==> d[base + k] == d[base..][k];
  }

  /** The path of "a.b" is the path of b followed by the path of a. */
  lemma PathOfDotted(a: Bytes, b: Bytes)
    ensures PathOf(a + [DOT] + b) == PathOf(b) + PathOf(a)
  {
    hide Hops, LowerAll, LabelsOf;
    var d := a + [DOT] + b;
    assert d[|a| + 1..] == b && d[..|a|] == a;
    HopsShifted(d, |a| + 1, b, |b|);
    HopsPrefix(a, d, |a|);
  }

  lemma PathOfLabel(l: Label)
    requires l != [] && DOT !in l
    ensures PathOf(l) == [LowerAll(l)]
  {
    assert l[..|l|] == l;
    assert Hops(l, |l|) == [Hop(LowerAll(l), 0)];
  }

  /** Writing a path as text and reading it back is the identity. */
  lemma {:induction false} PathOfText(p: Path)
    requires ProperPath(p)
    ensures PathOf(Text(p)) == p
  {
    if p == [] {
    } else if |p| == 1 {
      PathOfLabel(p[0]);
    } else {
      PathOfText(p[1..]);
      PathOfDotted(Text(p[1..]), p[0]);
      PathOfLabel(p[0]);
    }
  }

  lemma TextInjective(p: Path, q: Path)
    requires ProperPath(p) && ProperPath(q) && Text(p) == Text(q)
    ensures p == q
  {
    PathOfText(p);
    PathOfText(q);
  }

  lemma {:induction false} TextProper(p: Path)
    requires ProperPath(p) && p != []
    ensures Text(p) != [] && Text(p)[0] != DOT
  {
    if |p| > 1 { TextProper(p[1..]); }
    else { assert p[0][0] in p[0]; }
  }

  /** Letter case does not change the path, nor where the iterator stops. */
  lemma {:induction false} HopsLower(d: Bytes, cursor: nat)
    requires cursor <= |d|
    ensures Hops(LowerAll(d), cursor) == Hops(d, cursor)
    decreases cursor
  {
    hide Hops, NextStep, LowerAll;
    HopsAtStart(d);
    HopsAtStart(LowerAll(d));
    if cursor > 0 {
      HopsStep(d, cursor);
      HopsStep(LowerAll(d), cursor);
      LastDotLower(d, cursor);
      var k := LastDot(d, cursor);
      if k >= 0 { HopsLower(d, k); }
      LowerSlice(d, k + 1, cursor);
    }
  }

  lemma LastDotLower(d: Bytes, c: nat)
    requires c <= |d|
    ensures LastDot(LowerAll(d), c) == LastDot(d, c)
  {
  }

  lemma LowerSlice(d: Bytes, i: nat, j: nat)
    requires i <= j <= |d|
    ensures LowerAll(LowerAll(d)[i..j]) == LowerAll(d[i..j])
    ensures LowerAll(LowerAll(d)[..j]) == LowerAll(d[..j])
  {
  }
}
