/** Bytes, Go's byte-wise string order, ASCII case folding and big-endian integers. */
module Octets {

  type Byte = x: int | 0 <= x < 256
  type Bytes = seq<Byte>
  type U16 = x: int | 0 <= x < 0x1_0000
  type U32 = x: int | 0 <= x < 0x1_0000_0000

  const DOT: Byte := 46
  const STAR: Byte := 42

  datatype Option<+T> = None | Some(value: T)

  // ---- ASCII case folding ----

  function Lower(b: Byte): Byte {
    if 65 <= b <= 90 then b + 32 else b
  }

  function LowerAll(s: Bytes): (r: Bytes)
    ensures |r| == |s|
    ensures forall i :: 0 <= i < |s| ==> r[i] == Lower(s[i])
  {
    seq(|s|, i requires 0 <= i < |s| => Lower(s[i]))
  }

  lemma LowerAllIdempotent(s: Bytes)
    ensures LowerAll(LowerAll(s)) == LowerAll(s)
  {
  }

  // ---- Go's order on strings: lexicographic by byte ----

  predicate Less(a: Bytes, b: Bytes) {
    if b == [] then false
    else if a == [] then true
    else a[0] < b[0] || (a[0] == b[0] && Less(a[1..], b[1..]))
  }

  lemma {:induction false} LessIrreflexive(a: Bytes)
    ensures !Less(a, a)
  {
    if a != [] { LessIrreflexive(a[1..]); }
  }

  lemma {:induction false} LessTransitive(a: Bytes, b: Bytes, c: Bytes)
    requires Less(a, b) && Less(b, c)
    ensures Less(a, c)
  {
    if a != [] && a[0] == b[0] == c[0] {
      LessTransitive(a[1..], b[1..], c[1..]);
    }
  }

  lemma {:induction false} LessTotal(a: Bytes, b: Bytes)
    ensures Less(a, b) || a == b || Less(b, a)
  {
    if a != [] && b != [] && a[0] == b[0] {
      LessTotal(a[1..], b[1..]);
      assert a == [a[0]] + a[1..] && b == [b[0]] + b[1..];
    }
  }

  // ---- big-endian integers ----

  function PutU16(n: U16): (r: Bytes)
    ensures |r| == 2
  {
    [n / 256, n % 256]
  }

  function GetU16(b: Bytes): U16
    requires |b| == 2
  {
    (b[0] as int) * 256 + b[1]
  }

  function PutU32(n: U32): (r: Bytes)
    ensures |r| == 4
  {
    PutU16(n / 0x1_0000) + PutU16(n % 0x1_0000)
  }

  function GetU32(b: Bytes): U32
    requires |b| == 4
  {
    (GetU16(b[..2]) as int) * 0x1_0000 + GetU16(b[2..])
  }

  lemma U16RoundTrip(n: U16)
    ensures GetU16(PutU16(n)) == n
  {
  }

  lemma U32RoundTrip(n: U32)
    ensures GetU32(PutU32(n)) == n
  {
    assert PutU32(n)[..2] == PutU16(n / 0x1_0000);
    assert PutU32(n)[2..] == PutU16(n % 0x1_0000);
  }

  lemma U16Bytes(b: Bytes, n: U16)
    requires |b| == 2
    ensures GetU16(b) == n <==> b == PutU16(n)
  {
  }

  lemma U32Bytes(b: Bytes, n: U32)
    requires |b| == 4
    ensures GetU32(b) == n <==> b == PutU32(n)
  {
    U32RoundTrip(n);
    var m := GetU32(b);
    U16Bytes(b[..2], m / 0x1_0000);
    U16Bytes(b[2..], m % 0x1_0000);
    assert b == b[..2] + b[2..];
  }

  // ---- division ----

  lemma DivisionUnique(x: nat, s: nat, q: nat, r: nat)
    requires s > 0 && x == q * s + r && r < s
    ensures x / s == q && x % s == r
  {
    var q', r' := x / s, x % s;
    assert x == q' * s + r';
    if q' < q {
      assert q * s >= (q' + 1) * s by { MulMono(q' + 1, q, s); }
    } else if q' > q {
      assert q' * s >= (q + 1) * s by { MulMono(q + 1, q', s); }
    }
  }

  lemma MulMono(a: nat, b: nat, s: nat)
    requires a <= b
    ensures a * s <= b * s
  {
  }
}
