/** What the sections of an UPDATE message read back as, layout by layout (internal/rfc2136/update.go). */
module UpdateSections {
  import opened Octets
  import opened Records
  import opened WireNames
  import opened UpdateRules
  import opened DynamicUpdate

  // ---- names ----

  /** A name of lower-case labels ls lies from off to next, in any case and with at most ten jumps. */
  predicate NameAt(b: Bytes, off: nat, ls: seq<Bytes>, next: nat) {
    Spells(b, 0, off, ls, MAX_JUMPS) && TextSize(ls) <= MAX_NAME && Skip(b, off) == next
  }

  lemma TextSizeLower(ls: seq<Bytes>)
    ensures TextSize(LowerLabels(ls)) == TextSize(ls)
  {
    if ls != [] {
      TextSizeLower(ls[1..]);
      assert LowerLabels(ls)[1..] == LowerLabels(ls[1..]);
    }
  }

  /** How the decoder can have accepted a name. */
  lemma DecodedStep(b: Bytes, off: nat, jumps: nat, len: nat)
    requires jumps <= MAX_JUMPS && len <= MAX_NAME && DecodeAt(b, off, jumps, len).Name?
    ensures off < |b|
    ensures var o: int := b[off]; var ls := DecodeAt(b, off, jumps, len).labels;
            if o == 0 then ls == []
            else if o >= JUMP_TAG then
              && jumps < MAX_JUMPS && off + 1 < |b| && (o - JUMP_TAG) * 256 + b[off + 1] < off
              && var r := DecodeAt(b, (o - JUMP_TAG) * 256 + b[off + 1], jumps + 1, len);
              r.Name? && ls == r.labels
            else
              && o <= MAX_LABEL && off + 1 + o <= |b| && len + o + 1 <= MAX_NAME
              && var r := DecodeAt(b, off + 1 + o, jumps, len + o + 1);
              r.Name? && ls == [b[off + 1..off + 1 + o]] + r.labels
  {
  }

  /** Whatever the decoder accepts is spelled there. */
  lemma {:induction false} DecodedSpells(b: Bytes, off: nat, jumps: nat, len: nat)
    requires jumps <= MAX_JUMPS && len <= MAX_NAME && DecodeAt(b, off, jumps, len).Name?
    ensures var ls := DecodeAt(b, off, jumps, len).labels;
            Spells(b, 0, off, LowerLabels(ls), MAX_JUMPS - jumps) && len + TextSize(ls) <= MAX_NAME
    decreases MAX_JUMPS - jumps, MAX_NAME - len
  {
    hide LowerLabels, LowerAll, Spells, TextSize, DecodeAt;
    DecodedStep(b, off, jumps, len);
    var o: int := b[off];
    if o == 0 {
      LowerLabelsNone();
      SpellsRoot(b, 0, off, MAX_JUMPS - jumps);
      TextSizeNone();
    } else if o >= JUMP_TAG {
      DecodedSpells(b, (o - JUMP_TAG) * 256 + b[off + 1], jumps + 1, len);
      SpellsJump(b, 0, off, LowerLabels(DecodeAt(b, off, jumps, len).labels), MAX_JUMPS - jumps - 1);
    } else {
      DecodedSpells(b, off + 1 + o, jumps, len + o + 1);
      var ls := DecodeAt(b, off + 1 + o, jumps, len + o + 1).labels;
      var l := b[off + 1..off + 1 + o];
      LowerLabelsCons(l, ls);
      SpellsLabel(b, 0, off, LowerAll(l), LowerLabels(ls), MAX_JUMPS - jumps);
      assert TextSize([l] + ls) == |l| + 1 + TextSize(ls) by { TextSizeCons(l, ls); }
    }
  }

  lemma TextSizeNone()
    ensures TextSize([]) == 0
  {
  }

  lemma TextSizeCons(l: Bytes, ls: seq<Bytes>)
    ensures TextSize([l] + ls) == |l| + 1 + TextSize(ls)
  {
    assert ([l] + ls)[1..] == ls;
  }

  /** The decoder accepts exactly the names laid out, and reads their labels up to case. */
  lemma ReadsNameIff(b: Bytes, off: nat, ls: seq<Bytes>, next: nat)
    ensures NameAt(b, off, ls, next) <==>
            Decode(b, off).Name? && LowerLabels(Decode(b, off).labels) == ls && Decode(b, off).next == next
  {
    hide DecodeAt, Spells, Skip, LowerLabels, TextSize;
    if Spells(b, 0, off, ls, MAX_JUMPS) { SpelledDecodes(b, 0, off, ls, MAX_JUMPS, 0, 0); }
    if Decode(b, off).Name? {
      DecodedSpells(b, off, 0, 0);
      SkipAgrees(b, off, 0, 0);
      TextSizeLower(Decode(b, off).labels);
    }
  }

  // ---- canonical names do not depend on case ----

  lemma {:induction false} TrimLeftLower(s: Bytes)
    ensures LowerAll(TrimLeft(s)) == TrimLeft(LowerAll(s))
  {
    if s != [] && IsSpace(s[0]) {
      TrimLeftLower(s[1..]);
      assert LowerAll(s)[1..] == LowerAll(s[1..]);
    }
  }

  lemma {:induction false} TrimRightLower(s: Bytes)
    ensures LowerAll(TrimRight(s)) == TrimRight(LowerAll(s))
  {
    if s != [] && IsSpace(s[|s| - 1]) {
      TrimRightLower(s[..|s| - 1]);
      assert LowerAll(s)[..|s| - 1] == LowerAll(s[..|s| - 1]);
    }
  }

  lemma CanonicalLower(s: Bytes)
    ensures CanonicalName(LowerAll(s)) == CanonicalName(s)
  {
    hide TrimLeft, TrimRight, LowerAll;
    TrimLeftLower(s);
    TrimRightLower(TrimLeft(s));
    LowerAllIdempotent(TrimRight(TrimLeft(s)));
  }

  lemma CanonicalOfLabels(ls: seq<Bytes>)
    ensures CanonicalName(NameText(ls)) == CanonicalName(NameText(LowerLabels(ls)))
  {
    hide CanonicalName, NameText;
    LowerNameText(ls);
    CanonicalLower(NameText(ls));
  }

  // ---- the zone section ----

  /** One zone entry: the name, the type SOA and the class IN, up to next. */
  predicate ZoneAt(b: Bytes, ls: seq<Bytes>, next: nat)
    requires |b| >= HEADER_SIZE
  {
    && GetU16(b[4..6]) == 1
    && 4 <= next <= |b| && NameAt(b, HEADER_SIZE, ls, next - 4)
    && b[next - 4..next] == PutU16(TYPE_SOA) + PutU16(CLASS_IN)
  }

  lemma TwoFields(b: Bytes, off: nat, x: U16, y: U16)
    requires off + 4 <= |b|
    ensures b[off..off + 4] == PutU16(x) + PutU16(y) <==>
            GetU16(b[off..off + 2]) == x && GetU16(b[off + 2..off + 4]) == y
  {
    hide GetU16, PutU16;
    U16Bytes(b[off..off + 2], x);
    U16Bytes(b[off + 2..off + 4], y);
    assert b[off..off + 4] == b[off..off + 2] + b[off + 2..off + 4];
    var s := PutU16(x) + PutU16(y);
    assert s[..2] == PutU16(x) && s[2..] == PutU16(y);
    assert b[off..off + 4][..2] == b[off..off + 2] && b[off..off + 4][2..] == b[off + 2..off + 4];
  }

  /** The zone section is read exactly when one is laid out, and gives its name in canonical form. */
  lemma ReadsZoneIff(b: Bytes, name: Bytes, next: nat)
    requires |b| >= HEADER_SIZE
    ensures ReadZone(b) == Some((name, next)) <==>
            exists ls :: ZoneAt(b, ls, next) && name == CanonicalName(NameText(ls))
  {
    hide Decode, NameAt, CanonicalName, NameText, GetU16, PutU16;
    var r := Decode(b, HEADER_SIZE);
    if r.Name? {
      ReadsNameIff(b, HEADER_SIZE, LowerLabels(r.labels), r.next);
      CanonicalOfLabels(r.labels);
      if r.next + 4 <= |b| { TwoFields(b, r.next, TYPE_SOA, CLASS_IN); }
      if ReadZone(b) == Some((name, next)) { assert ZoneAt(b, LowerLabels(r.labels), next); }
    }
    if ls :| ZoneAt(b, ls, next) && name == CanonicalName(NameText(ls)) {
      ReadsNameIff(b, HEADER_SIZE, ls, next - 4);
    }
  }

  // ---- the sections of records ----

  function Fixed(rr: RawRR): (f: Bytes)
    requires |rr.rdata| < 0x1_0000
    ensures |f| == RR_HEADER
  {
    PutU16(rr.rtype) + PutU16(rr.cls) + PutU32(rr.ttl) + PutU16(|rr.rdata|)
  }

  /** A record with the owner ls: the name, the fixed fields and the data, up to next. */
  predicate RecordAt(b: Bytes, off: nat, ls: seq<Bytes>, rr: RawRR, next: nat) {
    var e := next - |rr.rdata| - RR_HEADER;
    && |rr.rdata| < 0x1_0000 && 0 <= e && next <= |b|
    && rr.name == CanonicalName(NameText(ls)) && NameAt(b, off, ls, e)
    && b[e..next] == Fixed(rr) + rr.rdata
  }

  lemma Within(b: Bytes, lo: nat, hi: nat, i: nat, j: nat)
    requires lo <= hi <= |b| && i <= j && lo + j <= hi
    ensures b[lo..hi][i..j] == b[lo + i..lo + j]
  {
    var x, y := b[lo..hi][i..j], b[lo + i..lo + j];
    assert forall k :: 0 <= k < j - i ==> x[k] == y[k];
  }

  lemma FixedFields(b: Bytes, e: nat, rr: RawRR)
    requires e + RR_HEADER <= |b| && |rr.rdata| < 0x1_0000
    ensures b[e..e + 10] == Fixed(rr) <==>
            && GetU16(b[e..e + 2]) == rr.rtype && GetU16(b[e + 2..e + 4]) == rr.cls
            && GetU32(b[e + 4..e + 8]) == rr.ttl && GetU16(b[e + 8..e + 10]) == |rr.rdata|
  {
    hide GetU16, PutU16, GetU32, PutU32;
    var f, g := Fixed(rr), b[e..e + 10];
    U16Bytes(b[e..e + 2], rr.rtype);
    U16Bytes(b[e + 2..e + 4], rr.cls);
    U32Bytes(b[e + 4..e + 8], rr.ttl);
    U16Bytes(b[e + 8..e + 10], |rr.rdata|);
    assert f[..2] == PutU16(rr.rtype) && f[2..4] == PutU16(rr.cls);
    assert f[4..8] == PutU32(rr.ttl) && f[8..] == PutU16(|rr.rdata|);
    Within(b, e, e + 10, 0, 2);
    Within(b, e, e + 10, 2, 4);
    Within(b, e, e + 10, 4, 8);
    Within(b, e, e + 10, 8, 10);
    assert g[..2] == g[0..2] && g[8..] == g[8..10];
    assert g == g[..2] + g[2..4] + g[4..8] + g[8..];
  }

  lemma BodySplits(b: Bytes, e: nat, rr: RawRR)
    requires |rr.rdata| < 0x1_0000 && e + RR_HEADER + |rr.rdata| <= |b|
    ensures var at := e + RR_HEADER; var next := at + |rr.rdata|;
            b[e..next] == Fixed(rr) + rr.rdata <==> b[e..at] == Fixed(rr) && b[at..next] == rr.rdata
  {
    hide Fixed;
    var at := e + RR_HEADER;
    var next := at + |rr.rdata|;
    var f := Fixed(rr);
    assert b[e..next] == b[e..at] + b[at..next];
    assert b[e..next][..RR_HEADER] == b[e..at] && b[e..next][RR_HEADER..] == b[at..next];
    assert (f + rr.rdata)[..RR_HEADER] == f && (f + rr.rdata)[RR_HEADER..] == rr.rdata;
  }

  lemma RecordReads(b: Bytes, off: nat, ls: seq<Bytes>, rr: RawRR, next: nat)
    requires RecordAt(b, off, ls, rr, next)
    ensures ReadRR(b, off) == Some((rr, next))
  {
    hide Decode, NameAt, CanonicalName, NameText, GetU16, GetU32, Fixed;
    var e := next - |rr.rdata| - RR_HEADER;
    ReadsNameIff(b, off, ls, e);
    CanonicalOfLabels(Decode(b, off).labels);
    BodySplits(b, e, rr);
    FixedFields(b, e, rr);
  }

  lemma RecordFound(b: Bytes, off: nat, rr: RawRR, next: nat) returns (ls: seq<Bytes>)
    requires ReadRR(b, off) == Some((rr, next))
    ensures RecordAt(b, off, ls, rr, next)
  {
    hide Decode, NameAt, CanonicalName, NameText, GetU16, GetU32, Fixed;
    var r := Decode(b, off);
    ls := LowerLabels(r.labels);
    ReadsNameIff(b, off, ls, r.next);
    CanonicalOfLabels(r.labels);
    BodySplits(b, r.next, rr);
    FixedFields(b, r.next, rr);
  }

  /** Records one after the other from off to next. */
  ghost predicate SectionAt(b: Bytes, off: nat, rrs: seq<RawRR>, next: nat)
    decreases |rrs|
  {
    if rrs == [] then next == off
    else exists ls, mid: nat :: RecordAt(b, off, ls, rrs[0], mid) && SectionAt(b, mid, rrs[1..], next)
  }

  lemma {:induction false} SectionReads(b: Bytes, off: nat, rrs: seq<RawRR>, next: nat)
    requires SectionAt(b, off, rrs, next)
    ensures ReadRRs(b, off, |rrs|) == Some(Section(rrs, next))
    decreases |rrs|
  {
    hide RecordAt, ReadRR;
    if rrs != [] {
      var ls, mid: nat :| RecordAt(b, off, ls, rrs[0], mid) && SectionAt(b, mid, rrs[1..], next);
      RecordReads(b, off, ls, rrs[0], mid);
      SectionReads(b, mid, rrs[1..], next);
      assert [rrs[0]] + rrs[1..] == rrs;
    }
  }

  lemma {:induction false} SectionFound(b: Bytes, off: nat, n: nat, rrs: seq<RawRR>, next: nat)
    requires ReadRRs(b, off, n) == Some(Section(rrs, next))
    ensures |rrs| == n && SectionAt(b, off, rrs, next)
    decreases n
  {
    hide RecordAt, ReadRR;
    if n > 0 {
      var (rr, mid) := ReadRR(b, off).value;
      var ls := RecordFound(b, off, rr, mid);
      var rest := ReadRRs(b, mid, n - 1).value;
      SectionFound(b, mid, n - 1, rest.records, next);
      assert rrs[0] == rr && rrs[1..] == rest.records;
      assert RecordAt(b, off, ls, rrs[0], mid) && SectionAt(b, mid, rrs[1..], next);
    }
  }

  /** A section of n records is read exactly when n records are laid out, and gives them in order. */
  lemma ReadsSectionIff(b: Bytes, off: nat, n: nat, rrs: seq<RawRR>, next: nat)
    ensures ReadRRs(b, off, n) == Some(Section(rrs, next)) <==> |rrs| == n && SectionAt(b, off, rrs, next)
  {
    hide ReadRRs, SectionAt;
    if ReadRRs(b, off, n) == Some(Section(rrs, next)) { SectionFound(b, off, n, rrs, next); }
    if |rrs| == n && SectionAt(b, off, rrs, next) { SectionReads(b, off, rrs, next); }
  }

  // ---- the message ----

  /** A message whose zone, prerequisites and updates are laid out one behind the other. */
  ghost predicate MessageAt(b: Bytes, ls: seq<Bytes>, prs: seq<RawRR>, ups: seq<RawRR>) {
    && |b| >= HEADER_SIZE && GetU16(b[6..8]) == |prs| && GetU16(b[8..10]) == |ups|
    && exists x: nat, y: nat, z: nat ::
         ZoneAt(b, ls, x) && SectionAt(b, x, prs, y) && SectionAt(b, y, ups, z)
  }

  /** A message laid out that way for a zone the store has succeeds exactly when all its records lie in the zone and
      every prerequisite holds; what is then carried out is its update section. */
  lemma MessageSucceedsIff(m: Store, b: Bytes, ls: seq<Bytes>, prs: seq<RawRR>, ups: seq<RawRR>)
    requires MessageAt(b, ls, prs, ups)
    ensures var zone := CanonicalName(NameText(ls));
            && (Verdict(m, b).0 == Success <==>
                 && (zone in m || zone == [DOT]) && AllInZone(prs, zone) && AllInZone(ups, zone)
                 && forall i :: 0 <= i < |prs| ==> Satisfied(m, prs[i]))
            && (Verdict(m, b).0 == Success ==> Verdict(m, b).1 == ups)
  {
    hide ReadZone, ReadRRs, ZoneAt, SectionAt, AllInZone, Satisfied, CanonicalName, NameText, GetU16, PrerequisitesCode;
    var x: nat, y: nat, z: nat :| ZoneAt(b, ls, x) && SectionAt(b, x, prs, y) && SectionAt(b, y, ups, z);
    ReadsZoneIff(b, CanonicalName(NameText(ls)), x);
    ReadsSectionIff(b, x, |prs|, prs, y);
    ReadsSectionIff(b, y, |ups|, ups, z);
    PrerequisitesMean(m, prs, 0);
  }

  lemma SectionsFound(b: Bytes)
    requires |b| >= HEADER_SIZE && ReadZone(b).Some?
    requires ReadRRs(b, ReadZone(b).value.1, GetU16(b[6..8])).Some?
    requires ReadRRs(b, ReadRRs(b, ReadZone(b).value.1, GetU16(b[6..8])).value.next, GetU16(b[8..10])).Some?
    ensures exists ls, prs, ups :: MessageAt(b, ls, prs, ups)
  {
    hide ReadZone, ReadRRs, ZoneAt, SectionAt, GetU16, CanonicalName, NameText;
    var (name, x) := ReadZone(b).value;
    ReadsZoneIff(b, name, x);
    var ls :| ZoneAt(b, ls, x) && name == CanonicalName(NameText(ls));
    var prs := ReadRRs(b, x, GetU16(b[6..8])).value;
    ReadsSectionIff(b, x, GetU16(b[6..8]), prs.records, prs.next);
    var ups := ReadRRs(b, prs.next, GetU16(b[8..10])).value;
    ReadsSectionIff(b, prs.next, GetU16(b[8..10]), ups.records, ups.next);
    assert MessageAt(b, ls, prs.records, ups.records);
  }

  /** A message that is not laid out that way never succeeds. */
  lemma OnlyMessagesSucceed(m: Store, b: Bytes)
    requires Verdict(m, b).0 == Success
    ensures exists ls, prs, ups :: MessageAt(b, ls, prs, ups)
  {
    hide ReadZone, ReadRRs, AllInZone, PrerequisitesCode, GetU16, MessageAt;
    SectionsFound(b);
  }
}
