/** The two type bitmap encoders, each proved to write the one encoding of the set of types it is given. */
module BitmapEncoders {
  import opened Octets
  import opened TypeBitmaps

  function TypesIn(types: seq<U16>): set<nat> {
    set t: nat | t in types
  }

  // ---- one more type ----

  lemma {:induction false} UsedUnique(T: set<nat>, w: nat, n: nat, r: nat)
    requires r <= n && (r > 0 ==> Octet(T, w, r - 1) != 0) && forall k :: r <= k < n ==> Octet(T, w, k) == 0
    ensures UsedOctets(T, w, n) == r
  {
    hide Octet;
    if n > r { UsedUnique(T, w, n - 1, r); }
  }

  lemma OtherOctet(T: set<nat>, t: nat, w: nat, k: nat)
    requires (w != t / WINDOW || k != t % WINDOW / 8) && k < MAX_OCTETS
    ensures Octet(T + {t}, w, k) == Octet(T, w, k)
  {
    hide Octet;
    Places(t);
    var w', k', b' := t / WINDOW, t % WINDOW / 8, t % 8;
    forall b | 0 <= b < 8 ensures TypeAt(w, k, b) != t {
      if w < w' { MulMono(w + 1, w', WINDOW); }
      if w' < w { MulMono(w' + 1, w, WINDOW); }
    }
    OctetElsewhere(T, t, w, k);
  }

  lemma OctetGains(T: set<nat>, t: nat)
    ensures var w, k := t / WINDOW, t % WINDOW / 8;
            Octet(T + {t}, w, k) == SetBit(Octet(T, w, k), t % 8) && Octet(T + {t}, w, k) != 0
  {
    hide Octet, SetBit;
    Places(t);
    OctetSet(T, t / WINDOW, t % WINDOW / 8, t % 8);
    OctetZero(T + {t}, t / WINDOW, t % WINDOW / 8);
  }

  function Max(a: nat, b: nat): nat {
    if a >= b then a else b
  }

  lemma UsedGrows(T: set<nat>, t: nat, w: nat)
    ensures UsedOctets(T + {t}, w, MAX_OCTETS) ==
            if w == t / WINDOW then Max(UsedOctets(T, w, MAX_OCTETS), t % WINDOW / 8 + 1)
            else UsedOctets(T, w, MAX_OCTETS)
  {
    hide Octet, UsedOctets;
    Places(t);
    var u, k := UsedOctets(T, w, MAX_OCTETS), t % WINDOW / 8;
    var r := if w == t / WINDOW then Max(u, k + 1) else u;
    OctetGains(T, t);
    if r > 0 && !(w == t / WINDOW && r - 1 == k) { OtherOctet(T, t, w, r - 1); }
    forall i | r <= i < MAX_OCTETS ensures Octet(T + {t}, w, i) == 0 {
      OtherOctet(T, t, w, i);
    }
    UsedUnique(T + {t}, w, MAX_OCTETS, r);
  }

  lemma OctetsElsewhere(T: set<nat>, t: nat, w: nat, n: nat)
    requires w != t / WINDOW && n <= MAX_OCTETS
    ensures OctetsOf(T + {t}, w, n) == OctetsOf(T, w, n)
  {
    hide Octet;
    forall k | 0 <= k < n ensures Octet(T + {t}, w, k) == Octet(T, w, k) { OtherOctet(T, t, w, k); }
  }

  /** The octets of the type's window, with the bit set. */
  lemma OctetsGain(T: set<nat>, t: nat, n: nat)
    requires t % WINDOW / 8 < n <= MAX_OCTETS
    ensures var w, k := t / WINDOW, t % WINDOW / 8;
            OctetsOf(T + {t}, w, n) == OctetsOf(T, w, n)[k := SetBit(OctetsOf(T, w, n)[k], t % 8)]
  {
    hide Octet, SetBit;
    var w, k := t / WINDOW, t % WINDOW / 8;
    OctetGains(T, t);
    forall i | 0 <= i < n && i != k ensures Octet(T + {t}, w, i) == Octet(T, w, i) { OtherOctet(T, t, w, i); }
  }

  lemma BlockElsewhere(T: set<nat>, t: nat, w: Byte)
    requires w != t / WINDOW
    ensures BlockOf(T + {t}, w) == BlockOf(T, w)
  {
    hide Octet, UsedOctets, OctetsOf;
    UsedGrows(T, t, w);
    OctetsElsewhere(T, t, w, UsedOctets(T, w, MAX_OCTETS));
  }

  lemma {:induction false} BlocksBelow(T: set<nat>, t: nat, w: nat)
    requires w <= WINDOW && w <= t / WINDOW
    ensures Blocks(T + {t}, w) == Blocks(T, w)
  {
    hide BlockOf;
    if w > 0 {
      BlocksBelow(T, t, w - 1);
      BlockElsewhere(T, t, w - 1);
    }
  }

  /** Windows without types add no blocks. */
  lemma {:induction false} SkipWindows(T: set<nat>, a: nat, b: nat)
    requires a <= b <= WINDOW && forall w: Byte :: a <= w < b ==> UsedOctets(T, w, MAX_OCTETS) == 0
    ensures Blocks(T, b) == Blocks(T, a)
    decreases b
  {
    hide UsedOctets, Blocks;
    if a < b {
      SkipWindows(T, a, b - 1);
      SkipWindow(T, b - 1);
    }
  }

  lemma SkipWindow(T: set<nat>, w: Byte)
    requires UsedOctets(T, w, MAX_OCTETS) == 0
    ensures Blocks(T, w + 1) == Blocks(T, w)
  {
    hide UsedOctets, OctetsOf;
    assert Blocks(T, w) + [] == Blocks(T, w);
  }

  lemma EmptyWindow(T: set<nat>, w: nat)
    requires forall t :: t in T ==> t / WINDOW != w
    ensures UsedOctets(T, w, MAX_OCTETS) == 0 && forall k :: 0 <= k < MAX_OCTETS ==> Octet(T, w, k) == 0
  {
    hide Octet;
    forall k: nat | k < MAX_OCTETS ensures Octet(T, w, k) == 0 {
      forall b | 0 <= b < 8 ensures TypeAt(w, k, b) !in T {
        DivisionUnique(TypeAt(w, k, b), WINDOW, w, k * 8 + b);
      }
      OctetZero(T, w, k);
    }
    UsedUnique(T, w, MAX_OCTETS, 0);
  }

  lemma WindowInUse(T: set<nat>, t: nat)
    requires t in T
    ensures UsedOctets(T, t / WINDOW, MAX_OCTETS) > 0
  {
    hide Octet;
    assert T + {t} == T;
    UsedGrows(T, t, t / WINDOW);
  }

  // ---- the encoder over a map of windows ----

  ghost predicate WindowsHold(windows: map<Byte, Bytes>, T: set<nat>) {
    forall w: Byte ::
      var n := UsedOctets(T, w, MAX_OCTETS);
      (w in windows <==> n > 0) && (w in windows ==> windows[w] == OctetsOf(T, w, n))
  }

  function Zeros(n: nat): (z: Bytes)
    ensures |z| == n && forall i :: 0 <= i < n ==> z[i] == 0
  {
    seq(n, _ => 0)
  }

  /** Lengthens a bitmap to n octets when it is shorter. */
  function Padded(bm: Bytes, n: nat): Bytes {
    if n > |bm| then bm + Zeros(n - |bm|) else bm
  }

  lemma PaddedOctets(T: set<nat>, w: nat, n: nat)
    requires n <= MAX_OCTETS
    ensures Padded(OctetsOf(T, w, UsedOctets(T, w, MAX_OCTETS)), n) ==
            OctetsOf(T, w, Max(UsedOctets(T, w, MAX_OCTETS), n))
  {
    hide Octet;
  }

  /** What adding a type does to its window's bitmap. */
  lemma WindowGains(windows: map<Byte, Bytes>, T: set<nat>, t: U16, bm: Bytes)
    requires WindowsHold(windows, T)
    requires var w := t / WINDOW; bm == Padded(if w in windows then windows[w] else [], t % WINDOW / 8 + 1)
    ensures t % WINDOW / 8 < |bm|
    ensures var k := t % WINDOW / 8; WindowsHold(windows[t / WINDOW := bm[k := SetBit(bm[k], t % 8)]], T + {t as nat})
  {
    hide Octet, UsedOctets, SetBit;
    Places(t);
    var w: Byte, k := t / WINDOW, t % WINDOW / 8;
    var n := Max(UsedOctets(T, w, MAX_OCTETS), k + 1);
    PaddedOctets(T, w, k + 1);
    assert bm == OctetsOf(T, w, n) by {
      if w !in windows { assert OctetsOf(T, w, 0) == []; }
    }
    OctetsGain(T, t, n);
    var next := windows[w := bm[k := SetBit(bm[k], t % 8)]];
    forall v: Byte
      ensures var u := UsedOctets(T + {t as nat}, v, MAX_OCTETS);
              (v in next <==> u > 0) && (v in next ==> next[v] == OctetsOf(T + {t as nat}, v, u))
    {
      UsedGrows(T, t, v);
      if v != w { OctetsElsewhere(T, t, v, UsedOctets(T, v, MAX_OCTETS)); }
    }
  }

  ghost predicate Increasing(xs: seq<Byte>) {
    forall i, j :: 0 <= i < j < |xs| ==> xs[i] < xs[j]
  }

  method Smallest(s: set<Byte>) returns (m: Byte)
    requires s != {}
    ensures m in s && forall x :: x in s ==> m <= x
  {
    m :| m in s;
    var rest := s - {m};
    while rest != {}
      invariant m in s && rest <= s
      invariant forall x :: x in s && x !in rest ==> m <= x
      decreases |rest|
    {
      var x :| x in rest;
      rest := rest - {x};
      if x < m { m := x; }
    }
  }

  /** The keys collected and sorted. */
  method SortedKeys(keys: set<Byte>) returns (nums: seq<Byte>)
    ensures Increasing(nums) && forall x :: x in nums <==> x in keys
  {
    nums := [];
    var todo := keys;
    while todo != {}
      invariant todo <= keys && Increasing(nums)
      invariant forall x :: x in nums <==> x in keys - todo
      invariant forall i, y :: 0 <= i < |nums| && y in todo ==> nums[i] < y
      decreases |todo|
    {
      var m := Smallest(todo);
      nums := nums + [m];
      todo := todo - {m};
    }
  }

  lemma BlocksSized(T: set<nat>, w: nat)
    requires w <= WINDOW
    ensures Sized(Blocks(T, w))
  {
    BlocksCanonical(T, w);
  }

  /** The bitmap of one window, once every window below is out. */
  lemma NextBlock(T: set<nat>, lo: nat, w: Byte)
    requires lo <= w && UsedOctets(T, w, MAX_OCTETS) > 0
    requires forall v: Byte :: lo <= v < w ==> UsedOctets(T, v, MAX_OCTETS) == 0
    ensures Sized(Blocks(T, lo)) && Sized(Blocks(T, w + 1))
    ensures var n := UsedOctets(T, w, MAX_OCTETS);
            Wire(Blocks(T, w + 1)) == Wire(Blocks(T, lo)) + ([w, n] + OctetsOf(T, w, n))
  {
    hide Octet, UsedOctets, Wire, OctetsOf;
    BlocksSized(T, lo);
    BlocksSized(T, w + 1);
    SkipWindows(T, lo, w);
    WireSnoc(Blocks(T, w), Block(w, OctetsOf(T, w, UsedOctets(T, w, MAX_OCTETS))));
  }

  /** Groups the types by window, then writes the windows in order. */
  method EncodeWindowedBitmaps(types: seq<U16>) returns (out: Bytes)
    ensures out == Encode(TypesIn(types))
  {
    hide Octet, UsedOctets, OctetsOf, WindowsHold, Wire, Blocks, SetBit;
    var windows: map<Byte, Bytes> := map[];
    assert WindowsHold(windows, TypesIn(types[..0])) by { NoWindows(types); }
    for i := 0 to |types|
      invariant WindowsHold(windows, TypesIn(types[..i]))
    {
      var t := types[i];
      var window, byteIndex, bit := t / WINDOW, t % WINDOW / 8, t % 8;
      var bm := if window in windows then windows[window] else [];
      WindowGains(windows, TypesIn(types[..i]), t, Padded(bm, byteIndex + 1));
      if byteIndex >= |bm| { bm := bm + Zeros(byteIndex + 1 - |bm|); }
      bm := bm[byteIndex := SetBit(bm[byteIndex], bit)];
      windows := windows[window := bm];
      OneMore(types, i);
    }
    assert types[..|types|] == types;
    out := WriteWindows(windows, TypesIn(types));
  }

  lemma NoWindows(types: seq<U16>)
    ensures WindowsHold(map[], TypesIn(types[..0]))
  {
    hide Octet;
    forall w: Byte ensures UsedOctets(TypesIn(types[..0]), w, MAX_OCTETS) == 0 {
      EmptyWindow(TypesIn(types[..0]), w);
    }
  }

  lemma OneMore(types: seq<U16>, i: nat)
    requires i < |types|
    ensures TypesIn(types[..i + 1]) == TypesIn(types[..i]) + {types[i] as nat}
  {
    assert types[..i + 1] == types[..i] + [types[i]];
  }

  method WriteWindows(windows: map<Byte, Bytes>, ghost T: set<nat>) returns (out: Bytes)
    requires WindowsHold(windows, T)
    ensures out == Encode(T)
  {
    hide Octet, UsedOctets, OctetsOf, Wire, Blocks;
    var nums := SortedKeys(windows.Keys);
    out := [];
    ghost var lo: nat := 0;
    BlocksSized(T, 0);
    assert Wire(Blocks(T, 0)) == [] by { NoBlocks(T); }
    for i := 0 to |nums|
      invariant lo <= WINDOW && Sized(Blocks(T, lo)) && out == Wire(Blocks(T, lo))
      invariant forall j :: 0 <= j < i ==> nums[j] < lo
      invariant forall j :: i <= j < |nums| ==> nums[j] >= lo
    {
      var w := nums[i];
      assert w in windows;
      forall v: Byte | lo <= v < w ensures UsedOctets(T, v, MAX_OCTETS) == 0 { Between(windows, T, nums, i, lo, v); }
      NextBlock(T, lo, w);
      out := out + ([w, |windows[w]|] + windows[w]);
      lo := w + 1;
    }
    forall v: Byte | lo <= v < WINDOW ensures UsedOctets(T, v, MAX_OCTETS) == 0 {
      Between(windows, T, nums, |nums|, lo, v);
    }
    SkipWindows(T, lo, WINDOW);
  }

  lemma NoBlocks(T: set<nat>)
    ensures Blocks(T, 0) == [] && Sized([]) && Wire([]) == []
  {
  }

  lemma Between(windows: map<Byte, Bytes>, T: set<nat>, nums: seq<Byte>, i: nat, lo: nat, v: Byte)
    requires WindowsHold(windows, T) && i <= |nums| && Increasing(nums) && forall x :: x in nums <==> x in windows.Keys
    requires lo <= v && (i < |nums| ==> v < nums[i])
    requires forall j :: 0 <= j < i ==> nums[j] < lo
    ensures UsedOctets(T, v, MAX_OCTETS) == 0
  {
    hide Octet, UsedOctets, OctetsOf;
    assert v !in nums;
  }

  // ---- the encoder in place ----

  ghost predicate Sorted(xs: seq<U16>) {
    forall i, j :: 0 <= i < j < |xs| ==> xs[i] <= xs[j]
  }

  function Insert(x: U16, ys: seq<U16>): (r: seq<U16>)
    requires Sorted(ys)
    ensures |r| == |ys| + 1 && Sorted(r) && forall y :: y in r <==> y == x || y in ys
  {
    if ys == [] || x <= ys[0] then [x] + ys
    else
      var rest := Insert(x, ys[1..]);
      assert forall y :: y in rest ==> ys[0] <= y by {
        forall y | y in rest ensures ys[0] <= y {
          if y in ys[1..] {
            var j :| 0 <= j < |ys[1..]| && ys[1..][j] == y;
            assert ys[j + 1] == y;
          }
        }
      }
      assert ys == [ys[0]] + ys[1..];
      SortedCons(ys[0], rest);
      [ys[0]] + rest
  }

  lemma SortedCons(x: U16, rest: seq<U16>)
    requires Sorted(rest) && forall y :: y in rest ==> x <= y
    ensures Sorted([x] + rest)
  {
    forall i, j | 0 <= i < j < |[x] + rest| ensures ([x] + rest)[i] <= ([x] + rest)[j] {
      assert ([x] + rest)[j] == rest[j - 1];
      if i > 0 { assert ([x] + rest)[i] == rest[i - 1]; } else { assert rest[j - 1] in rest; }
    }
  }

  /** slices.Sort on type numbers. */
  function Sort(xs: seq<U16>): (r: seq<U16>)
    ensures |r| == |xs| && Sorted(r) && forall y :: y in r <==> y in xs
  {
    if xs == [] then []
    else
      assert xs == [xs[0]] + xs[1..];
      Insert(xs[0], Sort(xs[1..]))
  }

  const ROOM := 34

  /** Windows below cb are out, and the 32 octets of window cb are being filled from start + 2 on. */
  ghost predicate Building(b: Bytes, orig: nat, start: nat, cb: nat, T: set<nat>) {
    && orig <= start && start + ROOM <= |b| && cb < WINDOW
    && Sized(Blocks(T, cb)) && b[orig..start] == Wire(Blocks(T, cb))
    && b[start] == cb && b[start + 2..start + ROOM] == OctetsOf(T, cb, MAX_OCTETS)
    && forall t :: t in T ==> t / WINDOW <= cb
  }

  /** Every window below w is out, and no type lies beyond. */
  ghost predicate Built(b: Bytes, orig: nat, offset: nat, w: nat, T: set<nat>) {
    && orig <= offset <= |b| && w <= WINDOW
    && Sized(Blocks(T, w)) && b[orig..offset] == Wire(Blocks(T, w))
    && forall t :: t in T ==> t / WINDOW < w
  }

  lemma Close(b: Bytes, orig: nat, start: nat, cb: nat, T: set<nat>, len: nat)
    requires Building(b, orig, start, cb, T) && len == UsedOctets(T, cb, MAX_OCTETS) > 0
    ensures Built(b[start + 1 := len], orig, start + 2 + len, cb + 1, T)
  {
    hide Octet, UsedOctets, Wire, Blocks;
    var b' := b[start + 1 := len];
    NextBlock(T, cb, cb);
    assert b'[orig..start] == b[orig..start];
    var octets := OctetsOf(T, cb, len);
    assert b'[start + 2..start + 2 + len] == b[start + 2..start + ROOM][..len] == octets;
    assert b'[start..start + 2 + len] == [cb, len] + octets;
    assert b'[orig..start + 2 + len] == b'[orig..start] + b'[start..start + 2 + len];
  }

  lemma Open(b: Bytes, b': Bytes, orig: nat, offset: nat, w: nat, block: nat, T: set<nat>)
    requires Built(b, orig, offset, w, T) && w <= block < WINDOW && offset + ROOM <= |b| == |b'|
    requires b'[orig..offset] == b[orig..offset] && b'[offset] == block
    requires forall i :: offset + 2 <= i < offset + ROOM ==> b'[i] == 0
    ensures Building(b', orig, offset, block, T) && UsedOctets(T, block, MAX_OCTETS) == 0
  {
    hide Octet, UsedOctets, Wire, Blocks;
    forall v: Byte | w <= v < block ensures UsedOctets(T, v, MAX_OCTETS) == 0 { EmptyWindow(T, v); }
    SkipWindows(T, w, block);
    EmptyWindow(T, block);
    assert b'[offset + 2..offset + ROOM] == OctetsOf(T, block, MAX_OCTETS);
  }

  lemma Mark(b: Bytes, orig: nat, start: nat, cb: nat, T: set<nat>, t: nat)
    requires Building(b, orig, start, cb, T) && t / WINDOW == cb
    ensures t % WINDOW / 8 < MAX_OCTETS
    ensures
      var at := start + 2 + t % WINDOW / 8;
      Building(b[at := SetBit(b[at], t % 8)], orig, start, cb, T + {t})
  {
    hide Octet, UsedOctets, Wire, Blocks, SetBit;
    Places(t);
    var k := t % WINDOW / 8;
    var at := start + 2 + k;
    var b' := b[at := SetBit(b[at], t % 8)];
    BlocksBelow(T, t, cb);
    OctetsGain(T, t, MAX_OCTETS);
    assert b'[orig..start] == b[orig..start];
    assert b[at] == b[start + 2..start + ROOM][k];
    assert b'[start + 2..start + ROOM] == b[start + 2..start + ROOM][k := SetBit(b[at], t % 8)];
  }

  /** Begins a window: its number, and its octets cleared. */
  method OpenBlock(buf: array<Byte>, offset: nat, block: Byte)
    requires offset + ROOM <= buf.Length
    modifies buf
    ensures buf[..offset] == old(buf[..offset]) && buf[offset] == block
    ensures forall i :: offset + 2 <= i < offset + ROOM ==> buf[i] == 0
  {
    buf[offset] := block;
    forall i | offset + 2 <= i < offset + ROOM { buf[i] := 0; }
  }

  /** Bytes the windows below w take. */
  ghost function OutBefore(T: set<nat>, w: nat): nat
    requires w <= WINDOW
  {
    BlocksSized(T, w);
    |Wire(Blocks(T, w))|
  }

  /** Where the window of t begins there is room for a whole one: it is cleared in full before it is filled. */
  ghost predicate RoomFor(length: nat, orig: nat, T: set<nat>, t: nat) {
    t / WINDOW < WINDOW ==> orig + OutBefore(T, t / WINDOW) + ROOM <= length
  }

  ghost predicate Roomy(length: nat, orig: nat, T: set<nat>) {
    forall t :: t in T ==> RoomFor(length, orig, T, t)
  }

  /** The highest bit seen in the window matches its octets in use, or is about to be set by bit. */
  ghost predicate HighestBit(T: set<nat>, cb: nat, maxBit: nat, bit: nat) {
    var u := UsedOctets(T, cb, MAX_OCTETS);
    maxBit < WINDOW && (u == maxBit / 8 + 1 || (u == 0 && maxBit == bit))
  }

  lemma HighestAfter(T: set<nat>, cb: nat, maxBit: nat, t: nat)
    requires t / WINDOW == cb && HighestBit(T, cb, maxBit, t % WINDOW)
    ensures UsedOctets(T + {t}, cb, MAX_OCTETS) == Max(maxBit, t % WINDOW) / 8 + 1
  {
    hide Octet, UsedOctets;
    UsedGrows(T, t, cb);
  }

  /** What is out by the time a window is begun is part of the whole encoding, and three more bytes at least follow. */
  lemma {:induction false} MoreToCome(S: set<nat>, T: set<nat>, w: nat, t: nat)
    requires w <= WINDOW && S <= T && t in T && w <= t / WINDOW < WINDOW
    requires forall x :: x in T && x / WINDOW < w ==> x in S
    ensures Sized(Blocks(S, w)) && |Wire(Blocks(S, w))| + 3 <= |Encode(T)|
  {
    hide Octet, UsedOctets, Wire, BlockOf;
    BlocksSized(S, w);
    BlocksSized(T, w);
    SameBlocks(S, T, w);
    BlocksGrow(T, w, t / WINDOW);
    WindowInUse(T, t);
    GrowsByBlock(T, t / WINDOW);
    BlocksGrow(T, t / WINDOW + 1, WINDOW);
  }

  lemma {:induction false} SameBlocks(S: set<nat>, T: set<nat>, w: nat)
    requires w <= WINDOW && S <= T && forall x :: x in T && x / WINDOW < w ==> x in S
    ensures Blocks(S, w) == Blocks(T, w)
  {
    hide BlockOf;
    if w > 0 {
      SameBlocks(S, T, w - 1);
      SameBlock(S, T, w - 1);
    }
  }

  lemma SameBlock(S: set<nat>, T: set<nat>, w: Byte)
    requires S <= T && forall x :: x in T && x / WINDOW <= w ==> x in S
    ensures BlockOf(S, w) == BlockOf(T, w)
  {
    hide Octet, UsedOctets;
    forall k: nat | k < MAX_OCTETS ensures Octet(S, w, k) == Octet(T, w, k) {
      SameOctet(S, T, w, k);
    }
    var u := UsedOctets(T, w, MAX_OCTETS);
    if u > 0 { assert Octet(S, w, u - 1) == Octet(T, w, u - 1); }
    UsedUnique(S, w, MAX_OCTETS, u);
    assert OctetsOf(S, w, u) == OctetsOf(T, w, u);
  }

  lemma SameOctet(S: set<nat>, T: set<nat>, w: nat, k: nat)
    requires k < MAX_OCTETS && S <= T && forall x :: x in T && x / WINDOW <= w ==> x in S
    ensures Octet(S, w, k) == Octet(T, w, k)
  {
    hide FromBits;
    forall b: nat | b < 8 ensures TypeAt(w, k, b) in S <==> TypeAt(w, k, b) in T {
      DivisionUnique(TypeAt(w, k, b), WINDOW, w, k * 8 + b);
    }
    assert TypeAt(w, k, 0) in S <==> TypeAt(w, k, 0) in T;
    assert TypeAt(w, k, 1) in S <==> TypeAt(w, k, 1) in T;
    assert TypeAt(w, k, 2) in S <==> TypeAt(w, k, 2) in T;
    assert TypeAt(w, k, 3) in S <==> TypeAt(w, k, 3) in T;
    assert TypeAt(w, k, 4) in S <==> TypeAt(w, k, 4) in T;
    assert TypeAt(w, k, 5) in S <==> TypeAt(w, k, 5) in T;
    assert TypeAt(w, k, 6) in S <==> TypeAt(w, k, 6) in T;
    assert TypeAt(w, k, 7) in S <==> TypeAt(w, k, 7) in T;
  }

  lemma {:induction false} BlocksGrow(T: set<nat>, a: nat, b: nat)
    requires a <= b <= WINDOW
    ensures Sized(Blocks(T, a)) && Sized(Blocks(T, b)) && |Wire(Blocks(T, a))| <= |Wire(Blocks(T, b))|
    decreases b
  {
    hide BlockOf, Wire;
    BlocksSized(T, a);
    BlocksSized(T, b);
    if a < b {
      BlocksGrow(T, a, b - 1);
      WirePrefix(Blocks(T, b - 1), BlockOf(T, b - 1));
    }
  }

  lemma GrowsByBlock(T: set<nat>, w: nat)
    requires w < WINDOW && UsedOctets(T, w, MAX_OCTETS) > 0
    ensures Sized(Blocks(T, w)) && Sized(Blocks(T, w + 1)) && |Wire(Blocks(T, w + 1))| >= |Wire(Blocks(T, w))| + 3
  {
    hide Octet, UsedOctets, Wire, Blocks;
    NextBlock(T, w, w);
  }

  lemma PrefixTypes(ts: seq<U16>, i: nat)
    requires i < |ts| && Sorted(ts)
    ensures TypesIn(ts[..i]) <= TypesIn(ts) && ts[i] as nat in TypesIn(ts)
    ensures forall x :: x in TypesIn(ts) && x / WINDOW < ts[i] / WINDOW ==> x in TypesIn(ts[..i])
    ensures i > 0 ==> ts[i - 1] / WINDOW <= ts[i] / WINDOW
    ensures i == 0 ==> TypesIn(ts[..i]) == {}
  {
    forall x: nat | x in TypesIn(ts) && x / WINDOW < ts[i] / WINDOW ensures x in TypesIn(ts[..i]) {
      var j :| 0 <= j < |ts| && ts[j] == x;
      EarlierWindow(ts[j], ts[i]);
      assert ts[..i][j] == x;
    }
    if i > 0 { DivideMono(ts[i - 1], ts[i]); }
  }

  lemma DivideMono(a: nat, b: nat)
    requires a <= b
    ensures a / WINDOW <= b / WINDOW
  {
  }

  lemma EarlierWindow(a: nat, b: nat)
    requires a / WINDOW < b / WINDOW
    ensures a < b
  {
  }

  /** The state of the loop once a window has been begun. */
  ghost predicate Filling(b: Bytes, orig: nat, start: nat, cb: nat, maxBit: nat, T: set<nat>) {
    Building(b, orig, start, cb, T) && maxBit < WINDOW && UsedOctets(T, cb, MAX_OCTETS) == maxBit / 8 + 1
  }

  /** Writes the length of the window at start. */
  method FinishBlock(buf: array<Byte>, ghost orig: nat, start: nat, ghost cb: nat, maxBit: nat, ghost T: set<nat>)
    returns (offset: nat)
    requires Filling(buf[..], orig, start, cb, maxBit, T)
    modifies buf
    ensures Built(buf[..], orig, offset, cb + 1, T) && buf[..orig] == old(buf[..orig])
  {
    hide Octet, UsedOctets, Wire, Blocks;
    var bitmapLen: Byte := maxBit / 8 + 1;
    ghost var b := buf[..];
    Close(b, orig, start, cb, T, bitmapLen);
    buf[start + 1] := bitmapLen;
    assert buf[..] == b[start + 1 := bitmapLen];
    offset := start + 2 + bitmapLen;
  }

  /** Begins the window of a type unless there is no room to clear it. */
  method BeginBlock(buf: array<Byte>, ghost orig: nat, offset: nat, ghost w: nat, block: Byte, ghost T: set<nat>)
    returns (ok: bool)
    requires Built(buf[..], orig, offset, w, T) && w <= block
    modifies buf
    ensures ok <==> offset + ROOM <= buf.Length
    ensures ok ==> Building(buf[..], orig, offset, block, T) && UsedOctets(T, block, MAX_OCTETS) == 0
    ensures !ok ==> buf[..] == old(buf[..])
    ensures buf[..orig] == old(buf[..orig])
  {
    hide Octet, UsedOctets, Wire, Blocks;
    if offset + ROOM > buf.Length { return false; }
    ghost var b := buf[..];
    OpenBlock(buf, offset, block);
    ghost var b' := buf[..];
    assert b'[..offset] == b[..offset];
    assert b'[orig..offset] == b'[..offset][orig..] && b[orig..offset] == b[..offset][orig..];
    assert b'[..orig] == b'[..offset][..orig] && b[..orig] == b[..offset][..orig];
    Open(b, b', orig, offset, w, block, T);
    return true;
  }

  /** Sets the bit of a type in the window being filled. */
  method MarkType(buf: array<Byte>, ghost orig: nat, start: nat, ghost cb: nat, maxBit: nat, t: U16, ghost T: set<nat>)
    returns (newMax: nat)
    requires Building(buf[..], orig, start, cb, T) && t / WINDOW == cb && HighestBit(T, cb, maxBit, t % WINDOW)
    modifies buf
    ensures Filling(buf[..], orig, start, cb, newMax, T + {t as nat}) && buf[..orig] == old(buf[..orig])
  {
    hide Octet, UsedOctets, Wire, Blocks, SetBit;
    var bitPos := t % WINDOW;
    newMax := maxBit;
    if bitPos > newMax { newMax := bitPos; }
    HighestAfter(T, cb, maxBit, t);
    ghost var b := buf[..];
    Mark(b, orig, start, cb, T, t);
    var at := start + 2 + bitPos / 8;
    buf[at] := SetBit(buf[at], bitPos % 8);
    assert bitPos % 8 == t % 8 by { Places(t); LowBitsOf(t); }
    assert buf[..] == b[at := SetBit(b[at], t % 8)];
  }

  lemma LowBitsOf(t: nat)
    ensures t % WINDOW % 8 == t % 8
  {
    var low := t % WINDOW;
    assert t == t / WINDOW * WINDOW + low;
    DivisionUnique(t, 8, t / WINDOW * 32 + low / 8, low % 8);
  }

  /**
   Sorts the types and writes their windows one after another, each with its octets cleared first.
   An empty list is refused, and so is a buffer without room to clear a window.
   */
  method EncodeTypeBitMaps(buf: array<Byte>, offset: nat, types: seq<U16>) returns (n: nat, ok: bool)
    requires offset <= buf.Length
    modifies buf
    ensures buf[..offset] == old(buf[..offset])
    ensures ok <==> types != [] && Roomy(buf.Length, offset, TypesIn(types))
    ensures ok ==> offset + n <= buf.Length && buf[offset..offset + n] == Encode(TypesIn(types))
  {
    hide Octet, UsedOctets, Wire, Blocks, Encode, Built, Building, TypesIn, RoomFor;
    if |types| == 0 { return 0, false; }
    var ts := Sort(types);
    ghost var T := TypesIn(ts);
    assert T == TypesIn(types) by { SameTypes(ts, types); }
    NothingBuilt(buf[..], offset, ts);
    var off: nat, cb: int, start: nat, maxBit: nat := offset, -1, 0, 0;
    for i := 0 to |ts|
      invariant buf[..offset] == old(buf[..offset])
      invariant i == 0 ==> cb == -1 && Built(buf[..], offset, off, 0, TypesIn(ts[..i]))
      invariant i > 0 ==> cb == ts[i - 1] / WINDOW && Filling(buf[..], offset, start, cb, maxBit, TypesIn(ts[..i]))
      invariant i > 0 ==> RoomFor(buf.Length, offset, T, ts[i - 1])
      invariant forall x :: x in TypesIn(ts[..i]) ==> RoomFor(buf.Length, offset, T, x)
    {
      ghost var S := TypesIn(ts[..i]);
      var t := ts[i];
      var block: Byte := t / WINDOW;
      PrefixTypes(ts, i);
      if block != cb {
        if cb != -1 {
          off := FinishBlock(buf, offset, start, cb, maxBit, S);
        }
        ghost var w := cb + 1;
        cb, start, maxBit := block, off, t % WINDOW;
        WindowBegins(buf[..], offset, off, w, S, T, t);
        var room := BeginBlock(buf, offset, off, w, block, S);
        if !room { return 0, false; }
      } else {
        SameRoom(buf.Length, offset, T, ts[i - 1], t);
      }
      maxBit := MarkType(buf, offset, start, cb, maxBit, t, S);
      OneMore(ts, i);
    }
    assert ts[..|ts|] == ts;
    off := FinishBlock(buf, offset, start, cb, maxBit, T);
    WholeEncoding(buf[..], offset, off, cb + 1, T);
    return off - offset, true;
  }

  lemma SameTypes(a: seq<U16>, b: seq<U16>)
    requires forall x :: x in a <==> x in b
    ensures TypesIn(a) == TypesIn(b)
  {
  }

  lemma NothingBuilt(b: Bytes, offset: nat, ts: seq<U16>)
    requires offset <= |b|
    ensures Built(b, offset, offset, 0, TypesIn(ts[..0])) && TypesIn(ts[..0]) == {}
  {
  }

  /** A window begins right behind those before it. */
  lemma WindowBegins(b: Bytes, orig: nat, off: nat, w: nat, S: set<nat>, T: set<nat>, t: nat)
    requires Built(b, orig, off, w, S) && w <= t / WINDOW < WINDOW && S <= T
    requires forall x :: x in T && x / WINDOW < t / WINDOW ==> x in S
    ensures RoomFor(|b|, orig, T, t) <==> off + ROOM <= |b|
  {
    hide Octet, UsedOctets, Blocks, Wire;
    var block := t / WINDOW;
    SameBlocks(S, T, block);
    forall v: Byte | w <= v < block ensures UsedOctets(S, v, MAX_OCTETS) == 0 { EmptyWindow(S, v); }
    SkipWindows(S, w, block);
  }

  lemma SameRoom(length: nat, orig: nat, T: set<nat>, s: nat, t: nat)
    requires s / WINDOW == t / WINDOW
    ensures RoomFor(length, orig, T, s) <==> RoomFor(length, orig, T, t)
  {
  }

  /** The last window decides. */
  lemma LastWindowDecides(length: nat, orig: nat, T: set<nat>, t: nat)
    requires t in T && t / WINDOW < WINDOW && forall x :: x in T ==> x <= t
    ensures Roomy(length, orig, T) <==> orig + OutBefore(T, t / WINDOW) + ROOM <= length
  {
    hide Blocks, Wire;
    if RoomFor(length, orig, T, t) {
      forall x | x in T ensures RoomFor(length, orig, T, x) {
        DivideMono(x, t);
        BlocksGrow(T, x / WINDOW, t / WINDOW);
      }
    }
  }

  /** A buffer that reaches 31 bytes beyond the encoding always has the room. */
  lemma AmpleRoom(length: nat, orig: nat, T: set<nat>)
    requires orig + |Encode(T)| + MAX_OCTETS - 1 <= length
    ensures Roomy(length, orig, T)
  {
    hide Blocks, Wire, Encode;
    forall t | t in T ensures RoomFor(length, orig, T, t) {
      if t / WINDOW < WINDOW { MoreToCome(T, T, t / WINDOW, t); }
    }
  }

  lemma WholeEncoding(b: Bytes, orig: nat, off: nat, w: nat, T: set<nat>)
    requires Built(b, orig, off, w, T)
    ensures orig <= off <= |b| && b[orig..off] == Encode(T)
  {
    hide Octet, UsedOctets, Wire, Blocks;
    BlocksSized(T, WINDOW);
    forall v: Byte | w <= v < WINDOW ensures UsedOctets(T, v, MAX_OCTETS) == 0 { EmptyWindow(T, v); }
    SkipWindows(T, w, WINDOW);
  }
}
