/** What the textual zone test of dynamic updates (internal/rfc2136/update.go) says about the tree of names. */
module UpdateNames {
  import opened Octets
  import opened Records
  import opened Names
  import opened Zones
  import opened Operations
  import opened UpdateRules
  import opened DynamicUpdate

  ghost predicate NoOuterSpace(s: Bytes) {
    s != [] ==> !IsSpace(s[0]) && !IsSpace(s[|s| - 1])
  }

  lemma {:induction false} TrimLeftTrims(s: Bytes)
    ensures TrimLeft(s) != [] ==> !IsSpace(TrimLeft(s)[0])
  {
    if s != [] && IsSpace(s[0]) { TrimLeftTrims(s[1..]); }
  }

  lemma {:induction false} TrimRightTrims(s: Bytes)
    ensures TrimRight(s) <= s && (TrimRight(s) != [] ==> !IsSpace(TrimRight(s)[|TrimRight(s)| - 1]))
  {
    if s != [] && IsSpace(s[|s| - 1]) { TrimRightTrims(s[..|s| - 1]); }
  }

  lemma TrimTrims(s: Bytes)
    ensures NoOuterSpace(TrimRight(TrimLeft(s)))
  {
    TrimLeftTrims(s);
    TrimRightTrims(TrimLeft(s));
  }

  lemma LowerKeepsTrim(s: Bytes)
    requires NoOuterSpace(s)
    ensures NoOuterSpace(LowerAll(s)) && LowerAll(LowerAll(s)) == LowerAll(s)
  {
    LowerAllIdempotent(s);
  }

  /** Tab to carriage return, and space. */
  ghost predicate Blank(s: Bytes) {
    forall i :: 0 <= i < |s| ==> s[i] in {9, 10, 11, 12, 13, 32}
  }

  lemma {:induction false} TrimmedLeft(left: Bytes, s: Bytes)
    requires Blank(left) && (s != [] ==> !Blank(s[..1]))
    ensures TrimLeft(left + s) == s
  {
    if left == [] {
      assert left + s == s;
      assert s != [] ==> s[..1][0] == s[0];
    } else {
      assert (left + s)[0] == left[0] && (left + s)[1..] == left[1..] + s;
      TrimmedLeft(left[1..], s);
    }
  }

  lemma {:induction false} TrimmedRight(s: Bytes, right: Bytes)
    requires Blank(right) && (s != [] ==> !Blank(s[|s| - 1..]))
    ensures TrimRight(s + right) == s
    decreases |right|
  {
    if right == [] {
      assert s + right == s;
      assert s != [] ==> s[|s| - 1..][0] == s[|s| - 1];
    } else {
      var n := |right| - 1;
      assert (s + right)[|s| + n] == right[n] && (s + right)[..|s| + n] == s + right[..n];
      TrimmedRight(s, right[..n]);
    }
  }

  /** Around a name blanks do not count, and its canonical form is lower case with one dot at the end. */
  lemma CanonicalExactly(left: Bytes, name: Bytes, right: Bytes)
    requires Blank(left) && Blank(right) && (name != [] ==> !Blank(name[..1]) && !Blank(name[|name| - 1..]))
    ensures CanonicalName(left + name + right) ==
            if name == [] then [DOT]
            else if name[|name| - 1] == DOT then LowerAll(name) else LowerAll(name) + [DOT]
  {
    hide TrimLeft, TrimRight;
    if name == [] {
      assert left + name + right == (left + right) + [];
      TrimmedLeft(left + right, []);
      TrimmedRight([], []);
      assert TrimLeft(left + name + right) == [] == [] + [];
    } else {
      assert left + name + right == left + (name + right);
      assert (name + right)[..1] == name[..1];
      TrimmedLeft(left, name + right);
      TrimmedRight(name, right);
      assert LowerAll(name)[|name| - 1] == Lower(name[|name| - 1]);
      if |name| == 1 { assert name == [name[0]]; }
    }
  }

  /** Names are canonical once made so. */
  lemma CanonicalStays(name: Bytes)
    ensures CanonicalName(CanonicalName(name)) == CanonicalName(name)
  {
    hide TrimLeft, TrimRight, LowerAll;
    var t := TrimRight(TrimLeft(name));
    TrimTrims(name);
    LowerKeepsTrim(t);
    var c := CanonicalName(name);
    CanonicalOf(c, LowerAll(t));
  }

  lemma CanonicalOf(c: Bytes, lower: Bytes)
    requires NoOuterSpace(lower) && LowerAll(lower) == lower
    requires c == if lower == [] || lower == [DOT] then [DOT]
                  else if lower[|lower| - 1] != DOT then lower + [DOT] else lower
    ensures CanonicalName(c) == c
  {
    assert NoOuterSpace(c);
    assert TrimLeft(c) == c && TrimRight(c) == c;
    assert LowerAll(c) == c by {
      forall i | 0 <= i < |c| ensures Lower(c[i]) == c[i] {
        if i < |lower| && c != [DOT] { assert LowerAll(lower)[i] == lower[i]; }
      }
    }
  }

  lemma TrailingDot(t: Bytes)
    ensures PathOf(t + [DOT]) == PathOf(t)
  {
    assert t + [DOT] == t + [DOT] + [];
    PathOfDotted(t, []);
    assert PathOf([]) == [];
  }

  /** A name the test lets in lies in the zone's part of the tree. */
  lemma InZoneIsBelow(d: Bytes, z: Bytes)
    requires CanonicalName(d) == d && CanonicalName(z) == z && IsInZone(d, z)
    ensures PathOf(z) <= PathOf(d)
  {
    hide CanonicalName, Hops;
    if z == [DOT] {
      TrailingDot([]);
      assert [] + [DOT] == [DOT];
      assert PathOf([]) == [] by { HopsAtStart([]); }
    } else if d != z {
      var a := d[..|d| - |z| - 1];
      assert d == a + ([DOT] + z) == a + [DOT] + z;
      PathOfDotted(a, z);
    }
  }

  lemma {:induction false} TextAppend(q: Path, r: Path)
    requires q != [] && r != []
    ensures Text(q + r) == Text(r) + [DOT] + Text(q)
    decreases |q|
  {
    if |q| == 1 {
      assert (q + r)[1..] == r;
    } else {
      TextAppend(q[1..], r);
      assert (q + r)[1..] == q[1..] + r;
      assert Text(q + r) == Text(r) + [DOT] + Text(q[1..]) + [DOT] + q[0];
    }
  }

  /** The name of a path as the messages spell it. */
  function SpelledName(p: Path): Bytes {
    Text(p) + [DOT]
  }

  /** For names spelled canonically, the test holds exactly of the names at or below the zone. */
  lemma InZoneExactly(p: Path, q: Path)
    requires ProperPath(p) && ProperPath(q)
    requires CanonicalName(SpelledName(p)) == SpelledName(p) && CanonicalName(SpelledName(q)) == SpelledName(q)
    ensures IsInZone(SpelledName(p), SpelledName(q)) <==> q <= p
  {
    hide CanonicalName, Text, PathOf;
    var d, z := SpelledName(p), SpelledName(q);
    PathOfText(p);
    PathOfText(q);
    TrailingDot(Text(p));
    TrailingDot(Text(q));
    if IsInZone(d, z) { InZoneIsBelow(d, z); }
    if q <= p {
      if q == [] {
        assert Text(q) == [] by { RootText(); }
      } else if |q| < |p| {
        var r := p[|q|..];
        assert p == q + r;
        TextAppend(q, r);
        assert d == Text(r) + ([DOT] + z);
        assert d[|d| - |[DOT] + z|..] == [DOT] + z;
      } else {
        assert p == q;
      }
    }
  }

  lemma RootText()
    ensures Text([]) == []
  {
  }

  /** A successful update of a plain store leaves every name outside its zone as it was. */
  lemma PlainStoreConfined(m: Store, b: Bytes, d: Bytes)
    requires Verdict(m, b).0 == Success && |b| >= HEADER_SIZE && ReadZone(b).Some? && !IsInZone(d, ReadZone(b).value.0)
    ensures var now := Updated(m, Verdict(m, b).1); (d in now <==> d in m) && (d in m ==> now[d] == m[d])
  {
    hide ReadRRs, ReadZone, IsInZone, Updated, PrerequisitesCode;
    var ups := Verdict(m, b).1;
    NamedInZone(ups, ReadZone(b).value.0);
    UpdatedElsewhere(m, ups, d);
  }

  lemma NamedInZone(ups: seq<RawRR>, zone: Bytes)
    requires AllInZone(ups, zone)
    ensures forall d :: d in NamesOf(ups) ==> IsInZone(d, zone)
  {
    hide IsInZone;
    forall d | d in NamesOf(ups) ensures IsInZone(d, zone) {
      var u :| u in ups && u.name == d;
      var i :| 0 <= i < |ups| && ups[i] == u;
    }
  }
}
