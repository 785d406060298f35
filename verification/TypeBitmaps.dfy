/** Windowed type bitmaps (section 4.1.2 of RFC 4034): the encoding a set of types has, and what decoding it gives. */
module TypeBitmaps {
  import opened Octets

  const WINDOW := 256
  const MAX_OCTETS := 32

  // ---- octets ----

  function One(on: bool): (r: nat)
    ensures r <= 1
  {
    if on then 1 else 0
  }

  /** The octet with the given bits, the first one the highest. */
  function FromBits(a: bool, b: bool, c: bool, d: bool, e: bool, f: bool, g: bool, h: bool): Byte {
    128 * One(a) + 64 * One(b) + 32 * One(c) + 16 * One(d) + 8 * One(e) + 4 * One(f) + 2 * One(g) + One(h)
  }

  function Power(i: nat): nat
    requires i < 8
  {
    match i case 0 => 128 case 1 => 64 case 2 => 32 case 3 => 16 case 4 => 8 case 5 => 4 case 6 => 2 case _ => 1
  }

  predicate Bit(x: Byte, i: nat)
    requires i < 8
  {
    x / Power(i) % 2 == 1
  }

  /** The octet with bit i set as well: x | 1 << (7 - i). */
  function SetBit(x: Byte, i: nat): Byte
    requires i < 8
  {
    FromBits(Bit(x, 0) || i == 0, Bit(x, 1) || i == 1, Bit(x, 2) || i == 2, Bit(x, 3) || i == 3,
             Bit(x, 4) || i == 4, Bit(x, 5) || i == 5, Bit(x, 6) || i == 6, Bit(x, 7) || i == 7)
  }

  /** The bit of weight p, between what lies above it and what lies below. */
  lemma BitBetween(x: nat, p: nat, v: nat, above: nat, on: bool, below: nat)
    requires p > 0 && below < p && x == v * p + below && v == 2 * above + One(on)
    ensures x / p % 2 == 1 <==> on
  {
    DivisionUnique(x, p, v, below);
  }

  lemma BitsAre(a: bool, b: bool, c: bool, d: bool, e: bool, f: bool, g: bool, h: bool)
    ensures
      var x := FromBits(a, b, c, d, e, f, g, h);
      Bit(x, 0) == a && Bit(x, 1) == b && Bit(x, 2) == c && Bit(x, 3) == d
      && Bit(x, 4) == e && Bit(x, 5) == f && Bit(x, 6) == g && Bit(x, 7) == h
  {
    hide One;
    var low := 8 * One(e) + 4 * One(f) + 2 * One(g) + One(h);
    var high := 8 * One(a) + 4 * One(b) + 2 * One(c) + One(d);
    HighBits(a, b, c, d, low);
    LowBits(high, e, f, g, h);
  }

  lemma HighBits(a: bool, b: bool, c: bool, d: bool, low: nat)
    requires low < 16
    ensures
      var x := 128 * One(a) + 64 * One(b) + 32 * One(c) + 16 * One(d) + low;
      (x / 128 % 2 == 1 <==> a) && (x / 64 % 2 == 1 <==> b) && (x / 32 % 2 == 1 <==> c) && (x / 16 % 2 == 1 <==> d)
  {
    var x := 128 * One(a) + 64 * One(b) + 32 * One(c) + 16 * One(d) + low;
    var v2, v3 := 2 * One(a) + One(b), 4 * One(a) + 2 * One(b) + One(c);
    BitBetween(x, 128, One(a), 0, a, x - 128 * One(a));
    BitBetween(x, 64, v2, One(a), b, x - 64 * v2);
    BitBetween(x, 32, v3, v2, c, x - 32 * v3);
    BitBetween(x, 16, 2 * v3 + One(d), v3, d, low);
  }

  lemma LowBits(high: nat, e: bool, f: bool, g: bool, h: bool)
    ensures
      var x := 16 * high + 8 * One(e) + 4 * One(f) + 2 * One(g) + One(h);
      (x / 8 % 2 == 1 <==> e) && (x / 4 % 2 == 1 <==> f) && (x / 2 % 2 == 1 <==> g) && (x / 1 % 2 == 1 <==> h)
  {
    var x := 16 * high + 8 * One(e) + 4 * One(f) + 2 * One(g) + One(h);
    var v5 := 2 * high + One(e);
    var v6 := 2 * v5 + One(f);
    var v7 := 2 * v6 + One(g);
    BitBetween(x, 8, v5, high, e, x - 8 * v5);
    BitBetween(x, 4, v6, v5, f, x - 4 * v6);
    BitBetween(x, 2, v7, v6, g, One(h));
    BitBetween(x, 1, x, v7, h, 0);
  }

  function TypeAt(w: nat, k: nat, b: nat): nat {
    w * WINDOW + k * 8 + b
  }

  /** Octet k of window w for the types in T. */
  function Octet(T: set<nat>, w: nat, k: nat): Byte {
    FromBits(TypeAt(w, k, 0) in T, TypeAt(w, k, 1) in T, TypeAt(w, k, 2) in T, TypeAt(w, k, 3) in T,
             TypeAt(w, k, 4) in T, TypeAt(w, k, 5) in T, TypeAt(w, k, 6) in T, TypeAt(w, k, 7) in T)
  }

  lemma OctetBit(T: set<nat>, w: nat, k: nat, b: nat)
    requires b < 8
    ensures Bit(Octet(T, w, k), b) <==> TypeAt(w, k, b) in T
  {
    hide Bit, FromBits;
    BitsAre(TypeAt(w, k, 0) in T, TypeAt(w, k, 1) in T, TypeAt(w, k, 2) in T, TypeAt(w, k, 3) in T,
            TypeAt(w, k, 4) in T, TypeAt(w, k, 5) in T, TypeAt(w, k, 6) in T, TypeAt(w, k, 7) in T);
  }

  lemma OctetZero(T: set<nat>, w: nat, k: nat)
    ensures Octet(T, w, k) == 0 <==> forall b :: 0 <= b < 8 ==> TypeAt(w, k, b) !in T
  {
    forall b: nat | b < 8 && Octet(T, w, k) == 0 ensures TypeAt(w, k, b) !in T {
      OctetBit(T, w, k, b);
    }
  }

  /** Setting a bit is adding a type. */
  lemma OctetSet(T: set<nat>, w: nat, k: nat, b: nat)
    requires b < 8
    ensures SetBit(Octet(T, w, k), b) == Octet(T + {TypeAt(w, k, b)}, w, k)
  {
    hide Bit, FromBits, TypeAt;
    AddedType(T, w, k, b, 0);
    AddedType(T, w, k, b, 1);
    AddedType(T, w, k, b, 2);
    AddedType(T, w, k, b, 3);
    AddedType(T, w, k, b, 4);
    AddedType(T, w, k, b, 5);
    AddedType(T, w, k, b, 6);
    AddedType(T, w, k, b, 7);
    BitsAre(TypeAt(w, k, 0) in T, TypeAt(w, k, 1) in T, TypeAt(w, k, 2) in T, TypeAt(w, k, 3) in T,
            TypeAt(w, k, 4) in T, TypeAt(w, k, 5) in T, TypeAt(w, k, 6) in T, TypeAt(w, k, 7) in T);
  }

  lemma AddedType(T: set<nat>, w: nat, k: nat, b: nat, i: nat)
    ensures TypeAt(w, k, i) in T + {TypeAt(w, k, b)} <==> TypeAt(w, k, i) in T || i == b
  {
  }

  lemma OctetElsewhere(T: set<nat>, t: nat, w: nat, k: nat)
    requires forall b :: 0 <= b < 8 ==> TypeAt(w, k, b) != t
    ensures Octet(T + {t}, w, k) == Octet(T, w, k)
  {
    assert TypeAt(w, k, 0) != t && TypeAt(w, k, 1) != t && TypeAt(w, k, 2) != t && TypeAt(w, k, 3) != t;
    assert TypeAt(w, k, 4) != t && TypeAt(w, k, 5) != t && TypeAt(w, k, 6) != t && TypeAt(w, k, 7) != t;
  }

  // ---- windows ----

  /** The number of octets up to the last one in use among the first n. */
  function UsedOctets(T: set<nat>, w: nat, n: nat): (r: nat)
    ensures r <= n && (r > 0 ==> Octet(T, w, r - 1) != 0)
    ensures forall k :: r <= k < n ==> Octet(T, w, k) == 0
  {
    if n == 0 then 0 else if Octet(T, w, n - 1) != 0 then n else UsedOctets(T, w, n - 1)
  }

  function OctetsOf(T: set<nat>, w: nat, n: nat): (r: Bytes)
    ensures |r| == n && forall k :: 0 <= k < n ==> r[k] == Octet(T, w, k)
  {
    seq(n, k requires 0 <= k < n => Octet(T, w, k))
  }

  datatype Block = Block(window: Byte, octets: Bytes)

  function BlockOf(T: set<nat>, w: Byte): seq<Block> {
    var n := UsedOctets(T, w, MAX_OCTETS);
    if n == 0 then [] else [Block(w, OctetsOf(T, w, n))]
  }

  /** The blocks of the windows below w, lowest first. */
  function Blocks(T: set<nat>, w: nat): seq<Block>
    requires w <= WINDOW
  {
    if w == 0 then [] else Blocks(T, w - 1) + BlockOf(T, w - 1)
  }

  ghost predicate Sized(bs: seq<Block>) {
    forall i :: 0 <= i < |bs| ==> 0 < |bs[i].octets| <= MAX_OCTETS
  }

  ghost function WireOf(b: Block): Bytes
    requires |b.octets| <= MAX_OCTETS
  {
    [b.window, |b.octets|] + b.octets
  }

  ghost function Wire(bs: seq<Block>): Bytes
    requires Sized(bs)
    decreases |bs|
  {
    if bs == [] then [] else Wire(bs[..|bs| - 1]) + WireOf(bs[|bs| - 1])
  }

  /** Windows go up, and a block has from one to 32 octets of which the last is not zero. */
  ghost predicate Canonical(bs: seq<Block>) {
    && Sized(bs)
    && (forall i :: 0 <= i < |bs| ==> bs[i].octets[|bs[i].octets| - 1] != 0)
    && forall i, j :: 0 <= i < j < |bs| ==> bs[i].window < bs[j].window
  }

  lemma {:induction false} BlocksCanonical(T: set<nat>, w: nat)
    requires w <= WINDOW
    ensures Canonical(Blocks(T, w)) && forall i :: 0 <= i < |Blocks(T, w)| ==> Blocks(T, w)[i].window < w
  {
    hide Octet;
    if w > 0 {
      BlocksCanonical(T, w - 1);
    }
  }

  ghost function Encode(T: set<nat>): Bytes {
    BlocksCanonical(T, WINDOW);
    Wire(Blocks(T, WINDOW))
  }

  // ---- decoding ----

  /** The types the blocks stand for. */
  ghost predicate Listed(bs: seq<Block>, t: nat) {
    exists i :: 0 <= i < |bs| && InBlock(bs[i], t)
  }

  predicate InBlock(b: Block, t: nat) {
    b.window == t / WINDOW && t % WINDOW / 8 < |b.octets| && Bit(b.octets[t % WINDOW / 8], t % 8)
  }

  lemma Places(t: nat)
    ensures var w, k, b := t / WINDOW, t % WINDOW / 8, t % 8;
            TypeAt(w, k, b) == t && k < MAX_OCTETS && (t < WINDOW * WINDOW ==> w < WINDOW)
  {
    var low := t % WINDOW;
    assert t == t / WINDOW * WINDOW + low;
    assert low == low / 8 * 8 + low % 8;
    assert t % 8 == low % 8 by {
      DivisionUnique(t, 8, t / WINDOW * 32 + low / 8, low % 8);
    }
  }

  lemma InBlockOf(T: set<nat>, w: Byte, t: nat)
    ensures (exists i :: 0 <= i < |BlockOf(T, w)| && InBlock(BlockOf(T, w)[i], t)) <==> t in T && t / WINDOW == w
  {
    hide Bit, Octet;
    Places(t);
    var k, n := t % WINDOW / 8, UsedOctets(T, w, MAX_OCTETS);
    OctetBit(T, w, k, t % 8);
    OctetZero(T, w, k);
    if n > 0 {
      assert BlockOf(T, w)[0] == Block(w, OctetsOf(T, w, n));
      assert InBlock(BlockOf(T, w)[0], t) <==> t in T && t / WINDOW == w by {
        if k >= n && t / WINDOW == w { assert Octet(T, w, k) == 0; }
      }
    }
  }

  lemma {:induction false} ListedInBlocks(T: set<nat>, w: nat, t: nat)
    requires w <= WINDOW
    ensures Listed(Blocks(T, w), t) <==> t in T && t / WINDOW < w
  {
    hide InBlock, BlockOf;
    if w > 0 {
      ListedInBlocks(T, w - 1, t);
      InBlockOf(T, w - 1, t);
      ListedAppend(Blocks(T, w - 1), BlockOf(T, w - 1), t);
    }
  }

  lemma ListedAppend(a: seq<Block>, b: seq<Block>, t: nat)
    ensures Listed(a + b, t) <==> Listed(a, t) || Listed(b, t)
  {
    hide InBlock;
    if Listed(a, t) {
      var i :| 0 <= i < |a| && InBlock(a[i], t);
      assert (a + b)[i] == a[i];
    }
    if Listed(b, t) {
      var i :| 0 <= i < |b| && InBlock(b[i], t);
      assert (a + b)[|a| + i] == b[i];
    }
  }

  /** Reads the blocks of a bitmap back, window by window. */
  function ReadBlocks(b: Bytes, pos: nat): Option<seq<Block>>
    requires pos <= |b|
    decreases |b| - pos
  {
    if pos == |b| then Some([])
    else if pos + 2 > |b| || b[pos + 1] == 0 || b[pos + 1] > MAX_OCTETS || pos + 2 + b[pos + 1] > |b| then None
    else
      match ReadBlocks(b, pos + 2 + b[pos + 1])
      case None => None
      case Some(rest) => Some([Block(b[pos], b[pos + 2..pos + 2 + b[pos + 1]])] + rest)
  }

  lemma ReadStep(b: Bytes, pos: nat, x: Block, rest: seq<Block>)
    requires 0 < |x.octets| <= MAX_OCTETS && pos + 2 + |x.octets| <= |b|
    requires b[pos..pos + 2 + |x.octets|] == WireOf(x) && ReadBlocks(b, pos + 2 + |x.octets|) == Some(rest)
    ensures ReadBlocks(b, pos) == Some([x] + rest)
  {
    var y := b[pos..pos + 2 + |x.octets|];
    assert b[pos] == y[0] && b[pos + 1] == y[1];
    assert b[pos + 2..pos + 2 + |x.octets|] == y[2..] == x.octets;
  }

  lemma {:induction false} ReadWire(bs: seq<Block>, done: seq<Block>, b: Bytes)
    requires Sized(bs) && Sized(done) && Sized(done + bs) && b == Wire(done + bs)
    ensures |Wire(done)| <= |b| && ReadBlocks(b, |Wire(done)|) == Some(bs)
    decreases |bs|
  {
    hide Wire, WireOf;
    if bs == [] {
      assert done + bs == done;
    } else {
      var x, rest := bs[0], bs[1..];
      var more := done + [x];
      assert more + rest == done + bs && [x] + rest == bs;
      WireSnoc(done, x);
      ReadWire(rest, more, b);
      WirePrefix(more, rest);
      assert b[..|Wire(more)|] == Wire(more);
      var pos := |Wire(done)|;
      assert b[pos..pos + |WireOf(x)|] == WireOf(x);
      assert |WireOf(x)| == 2 + |x.octets| by { WireSize(x); }
      ReadStep(b, pos, x, rest);
    }
  }

  lemma WireSize(x: Block)
    requires |x.octets| <= MAX_OCTETS
    ensures |WireOf(x)| == 2 + |x.octets|
  {
  }

  lemma WireSnoc(done: seq<Block>, x: Block)
    requires Sized(done) && 0 < |x.octets| <= MAX_OCTETS
    ensures Sized(done + [x]) && Wire(done + [x]) == Wire(done) + WireOf(x)
  {
    assert (done + [x])[..|done|] == done;
  }

  lemma {:induction false} WirePrefix(a: seq<Block>, b: seq<Block>)
    requires Sized(a) && Sized(a + b)
    ensures Wire(a) <= Wire(a + b)
    decreases |b|
  {
    hide WireOf;
    if b == [] {
      assert a + b == a;
    } else {
      var front := b[..|b| - 1];
      assert (a + b)[..|a + b| - 1] == a + front;
      WirePrefix(a, front);
    }
  }

  /** Reading an encoding back gives canonical blocks that stand for exactly the types encoded. */
  lemma EncodingMeans(T: set<nat>, t: nat)
    requires forall x :: x in T ==> x < WINDOW * WINDOW
    ensures ReadBlocks(Encode(T), 0) == Some(Blocks(T, WINDOW)) && Canonical(Blocks(T, WINDOW))
    ensures Listed(Blocks(T, WINDOW), t) <==> t in T
  {
    hide Listed, ReadBlocks;
    BlocksCanonical(T, WINDOW);
    var bs := Blocks(T, WINDOW);
    assert [] + bs == bs;
    ReadWire(bs, [], Encode(T));
    ListedInBlocks(T, WINDOW, t);
    Places(t);
  }
}
