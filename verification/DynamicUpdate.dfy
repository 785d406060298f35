/**
 Processing of an UPDATE message (internal/rfc2136/update.go) over a plain store: a map from names to
 record sets that hands out references to what it holds.
 */
module DynamicUpdate {
  import opened Octets
  import opened Records
  import opened WireNames
  import opened UpdateRules

  const HEADER_SIZE := 12
  const RR_HEADER := 10

  // ---- names ----

  predicate IsSpace(b: Byte) {
    9 <= b <= 13 || b == 32
  }

  function TrimLeft(s: Bytes): Bytes {
    if s != [] && IsSpace(s[0]) then TrimLeft(s[1..]) else s
  }

  function TrimRight(s: Bytes): Bytes {
    if s != [] && IsSpace(s[|s| - 1]) then TrimRight(s[..|s| - 1]) else s
  }

  /** Lower case, without surrounding space, with a dot at the end. */
  function CanonicalName(name: Bytes): Bytes {
    var lower := LowerAll(TrimRight(TrimLeft(name)));
    if lower == [] || lower == [DOT] then [DOT]
    else if lower[|lower| - 1] != DOT then lower + [DOT]
    else lower
  }

  predicate HasSuffix(s: Bytes, t: Bytes) {
    |t| <= |s| && s[|s| - |t|..] == t
  }

  predicate IsInZone(domain: Bytes, zone: Bytes) {
    var d, z := CanonicalName(domain), CanonicalName(zone);
    z == [DOT] || d == z || HasSuffix(d, [DOT] + z)
  }

  // ---- the sections of the message ----

  datatype Section = Section(records: seq<RawRR>, next: nat)

  function ReadZone(b: Bytes): Option<(Bytes, nat)>
    requires |b| >= HEADER_SIZE
  {
    if GetU16(b[4..6]) != 1 then None
    else
      match Decode(b, HEADER_SIZE)
      case Failed(_) => None
      case Name(ls, e) =>
        if e + 4 > |b| || GetU16(b[e..e + 2]) != TYPE_SOA || GetU16(b[e + 2..e + 4]) != CLASS_IN then None
        else Some((CanonicalName(NameText(ls)), e + 4))
  }

  function ReadRR(b: Bytes, off: nat): Option<(RawRR, nat)> {
    match Decode(b, off)
    case Failed(_) => None
    case Name(ls, e) =>
      if e + RR_HEADER > |b| then None
      else
        var len := GetU16(b[e + 8..e + 10]);
        var at := e + RR_HEADER;
        if at + len > |b| then None
        else Some((RawRR(CanonicalName(NameText(ls)), GetU16(b[e..e + 2]), GetU16(b[e + 2..e + 4]),
                         GetU32(b[e + 4..e + 8]), b[at..at + len]), at + len))
  }

  function ReadRRs(b: Bytes, off: nat, n: nat): Option<Section>
    decreases n
  {
    if n == 0 then Some(Section([], off))
    else
      match ReadRR(b, off)
      case None => None
      case Some((rr, next)) =>
        match ReadRRs(b, next, n - 1)
        case None => None
        case Some(rest) => Some(rest.(records := [rr] + rest.records))
  }

  // ---- the outcome ----

  predicate AllInZone(rrs: seq<RawRR>, zone: Bytes) {
    forall i :: 0 <= i < |rrs| ==> IsInZone(rrs[i].name, zone)
  }

  /** The response code, and the operations carried out when it is Success. */
  function Verdict(m: Store, b: Bytes): (RCode, seq<RawRR>) {
    if |b| < HEADER_SIZE then (FormatError, [])
    else
      match ReadZone(b)
      case None => (FormatError, [])
      case Some((zone, off)) =>
        if zone !in m && zone != [DOT] then (NotAuth, [])
        else
          match ReadRRs(b, off, GetU16(b[6..8]))
          case None => (FormatError, [])
          case Some(prs) =>
            match ReadRRs(b, prs.next, GetU16(b[8..10]))
            case None => (FormatError, [])
            case Some(ups) =>
              if !AllInZone(prs.records, zone) || !AllInZone(ups.records, zone) then (NotZone, [])
              else (PrerequisitesCode(m, prs.records, 0), ups.records)
  }

  /** The store after a section: every named name at the fold of its operations, the others as they were. */
  ghost function Updated(m: Store, ups: seq<RawRR>): Store {
    map d | d in m.Keys + NamesOf(ups) && (d in NamesOf(ups) ==> Fold(SetsAt(m, d), ups, d) != []) ::
      Fold(SetsAt(m, d), ups, d)
  }

  lemma UpdatedElsewhere(m: Store, ups: seq<RawRR>, d: Bytes)
    requires d !in NamesOf(ups)
    ensures (d in Updated(m, ups) <==> d in m) && (d in m ==> Updated(m, ups)[d] == m[d])
  {
    FoldUnnamed(SetsAt(m, d), ups, d);
  }

  ghost predicate TidyStore(m: Store) {
    forall d :: d in m ==> Tidy(m[d]) && m[d] != []
  }

  /** Types stay unique and data free of repeats, and each name means what the RFC's rules make of it, in order. */
  lemma UpdatedMeans(m: Store, ups: seq<RawRR>, d: Bytes)
    requires TidyStore(m)
    ensures TidyStore(Updated(m, ups))
    ensures Meaning(SetsAt(Updated(m, ups), d)) == MeantFold(Meaning(SetsAt(m, d)), ups, d)
  {
    hide Tidy, Meaning, MeantFold, Fold;
    assert Tidy([]) by { Nothing(); }
    forall e | e in Updated(m, ups) ensures Tidy(Updated(m, ups)[e]) && Updated(m, ups)[e] != [] {
      FoldMeans(SetsAt(m, e), ups, e);
      if e !in NamesOf(ups) { FoldUnnamed(SetsAt(m, e), ups, e); }
    }
    FoldMeans(SetsAt(m, d), ups, d);
    if d !in NamesOf(ups) { FoldUnnamed(SetsAt(m, d), ups, d); }
  }

  // ---- record sets on the heap ----

  method ContainsRData(list: seq<Bytes>, target: Bytes) returns (found: bool)
    ensures found <==> target in list
  {
    for i := 0 to |list|
      invariant target !in list[..i]
    {
      if list[i] == target { return true; }
    }
    return false;
  }

  method Slice(sets: RRSets) returns (a: array<RRSet>)
    ensures fresh(a) && a[..] == sets
  {
    a := new RRSet[|sets|](i requires 0 <= i < |sets| => sets[i]);
  }

  lemma AddSkips(sets: RRSets, i: nat, up: RawRR)
    requires i < |sets| && sets[i].rtype != up.rtype
    ensures sets[..i] + AddRecord(sets[i..], up) == sets[..i + 1] + AddRecord(sets[i + 1..], up)
  {
    assert sets[i..][1..] == sets[i + 1..];
  }

  lemma AddLands(sets: RRSets, i: nat, up: RawRR)
    requires i < |sets| && sets[i].rtype == up.rtype
    ensures sets[..i] + AddRecord(sets[i..], up) == sets[i := Grown(sets[i], up)]
  {
    assert sets[i..][1..] == sets[i + 1..];
  }

  /** Adds to the first set of the type in place, or returns a longer slice. */
  method Add(records: array<RRSet>, up: RawRR) returns (r: array<RRSet>)
    modifies records
    ensures r == records || fresh(r)
    ensures r[..] == AddRecord(old(records[..]), up)
  {
    hide AddRecord;
    ghost var was := records[..];
    assert was[..0] + AddRecord(was[0..], up) == AddRecord(was, up) by { assert was[0..] == was; }
    for i := 0 to records.Length
      invariant records[..] == was && was[..i] + AddRecord(was[i..], up) == AddRecord(was, up)
    {
      if records[i].rtype == up.rtype {
        AddLands(was, i, up);
        var known := ContainsRData(records[i].rdata, up.rdata);
        records[i] := records[i].(ttl := up.ttl);
        if !known {
          records[i] := records[i].(rdata := records[i].rdata + [up.rdata]);
        }
        assert records[..] == was[i := Grown(was[i], up)];
        return records;
      }
      AddSkips(was, i, up);
    }
    AddEnds(was, up);
    r := Slice(records[..] + [RRSet(up.rtype, CLASS_IN, up.ttl, [up.rdata])]);
  }

  lemma AddEnds(was: RRSets, up: RawRR)
    ensures was[..|was|] + AddRecord(was[|was|..], up) == was + [NewSet(up)]
  {
  }

  lemma WithoutTypeSnoc(sets: RRSets, s: RRSet, t: U16)
    ensures WithoutType(sets + [s], t) == WithoutType(sets, t) + if s.rtype == t then [] else [s]
  {
    if sets == [] {
      assert ([] + [s])[1..] == [];
    } else {
      WithoutTypeSnoc(sets[1..], s, t);
      assert (sets + [s])[1..] == sets[1..] + [s];
    }
  }

  lemma OthersSnoc(ds: seq<Bytes>, x: Bytes, d: Bytes)
    ensures Others(ds + [x], d) == Others(ds, d) + if x == d then [] else [x]
  {
    if ds == [] {
      assert ([] + [x])[1..] == [];
    } else {
      OthersSnoc(ds[1..], x, d);
      assert (ds + [x])[1..] == ds[1..] + [x];
    }
  }

  lemma WithoutRecordSnoc(sets: RRSets, s: RRSet, t: U16, d: Bytes)
    ensures WithoutRecord(sets + [s], t, d) == WithoutRecord(sets, t, d) + Trimmed(s, t, d)
  {
    hide Trimmed;
    if sets == [] {
      assert ([] + [s])[1..] == [];
    } else {
      WithoutRecordSnoc(sets[1..], s, t, d);
      assert (sets + [s])[1..] == sets[1..] + [s];
    }
  }

  method DropType(records: seq<RRSet>, t: U16) returns (updated: RRSets)
    ensures updated == WithoutType(records, t)
  {
    updated := [];
    for i := 0 to |records|
      invariant updated == WithoutType(records[..i], t)
    {
      WithoutTypeSnoc(records[..i], records[i], t);
      assert records[..i + 1] == records[..i] + [records[i]];
      if records[i].rtype != t { updated := updated + [records[i]]; }
    }
    assert records[..|records|] == records;
  }

  method DropRecord(records: seq<RRSet>, t: U16, d: Bytes) returns (updated: RRSets)
    ensures updated == WithoutRecord(records, t, d)
  {
    hide WithoutRecord, Others;
    updated := [];
    assert WithoutRecord([], t, d) == [] by { NoneWithout(t, d); }
    for i := 0 to |records|
      invariant updated == WithoutRecord(records[..i], t, d)
    {
      WithoutRecordSnoc(records[..i], records[i], t, d);
      assert records[..i + 1] == records[..i] + [records[i]];
      if records[i].rtype != t {
        updated := updated + [records[i]];
        continue;
      }
      var remaining := Remaining(records[i].rdata, d);
      if |remaining| > 0 {
        updated := updated + [records[i].(rdata := remaining)];
      }
    }
    assert records[..|records|] == records;
  }

  lemma NoneWithout(t: U16, d: Bytes)
    ensures WithoutRecord([], t, d) == []
  {
  }

  method Remaining(list: seq<Bytes>, d: Bytes) returns (remaining: seq<Bytes>)
    ensures remaining == Others(list, d)
  {
    remaining := [];
    for i := 0 to |list|
      invariant remaining == Others(list[..i], d)
    {
      OthersSnoc(list[..i], list[i], d);
      assert list[..i + 1] == list[..i] + [list[i]];
      if list[i] != d { remaining := remaining + [list[i]]; }
    }
    assert list[..|list|] == list;
  }

  /** One operation on the sets of a name. Only the slice passed in is written to. */
  method ApplyUpdateOp(records: array<RRSet>, up: RawRR) returns (r: array<RRSet>)
    modifies records
    ensures r == records || fresh(r)
    ensures r[..] == UpdateSets(old(records[..]), up)
    ensures Effect(old(records[..]), up, r[..])
  {
    hide AddRecord, WithoutType, WithoutRecord, Effect;
    UpdateEffect(records[..], up);
    if Adds(up) {
      r := Add(records, up);
    } else if DropsSet(up) {
      var left := DropType(records[..], up.rtype);
      r := Slice(left);
    } else if DropsAll(up) {
      r := Slice([]);
    } else if DropsOne(up) {
      var left := DropRecord(records[..], up.rtype, up.rdata);
      r := Slice(left);
    } else {
      r := records;
    }
  }

  // ---- the store ----

  class PlainStore {
    var sets: map<Bytes, array<RRSet>>

    ghost function Contents(): Store
      reads this, sets.Values
    {
      map d | d in sets :: sets[d][..]
    }

    constructor ()
      ensures Contents() == map[]
    {
      sets := map[];
    }

    /** Hands out the stored slice itself. */
    method Get(name: Bytes) returns (a: array?<RRSet>)
      ensures a == null <==> name !in sets
      ensures a != null ==> name in sets && sets[name] == a
    {
      if name in sets { return sets[name]; }
      return null;
    }

    method Upsert(name: Bytes, a: array<RRSet>)
      modifies this
      ensures sets == old(sets)[name := a]
    {
      sets := sets[name := a];
    }

    method DeleteDomain(name: Bytes)
      modifies this
      ensures sets == old(sets) - {name}
    {
      sets := sets - {name};
    }
  }

  /** The pending sets of the names touched so far: new slices, one per name, each at its fold. */
  ghost predicate Pending(states: map<Bytes, array<RRSet>>, m: Store, ups: seq<RawRR>)
    reads states.Values
  {
    && states.Keys == NamesOf(ups)
    && (forall d :: d in states ==> states[d][..] == Fold(SetsAt(m, d), ups, d))
    && (forall d, e :: d in states && e in states && d != e ==> states[d] != states[e])
  }

  /** A private copy of the stored sets of a name, empty when it has none. */
  method Load(store: PlainStore, name: Bytes) returns (a: array<RRSet>)
    ensures fresh(a) && a[..] == SetsAt(store.Contents(), name)
  {
    var existing := store.Get(name);
    if existing == null {
      a := Slice([]);
    } else {
      a := Slice(existing[..]);
    }
  }

  /** One more operation: its name's pending sets, or a copy of the stored ones, are what it works on. */
  method Touch(states: map<Bytes, array<RRSet>>, up: RawRR, store: PlainStore, ghost done: seq<RawRR>, ghost m: Store)
    returns (next: map<Bytes, array<RRSet>>)
    requires Pending(states, m, done) && m == store.Contents()
    modifies states.Values
    ensures Pending(next, m, done + [up])
    ensures forall d :: d in next ==> next[d] in states.Values || fresh(next[d])
  {
    hide Fold, UpdateSets, NamesOf;
    var current: array<RRSet>;
    if up.name in states {
      current := states[up.name];
    } else {
      current := Load(store, up.name);
      FirstTouch(m, done, up.name);
    }
    var result := ApplyUpdateOp(current, up);
    next := states[up.name := result];
    NamesSnoc(done, up);
    forall d | d in next ensures next[d][..] == Fold(SetsAt(m, d), done + [up], d) {
      FoldSnoc(SetsAt(m, d), done, up, d);
    }
  }

  /** Computes the new sets of every name touched. Nothing the store holds is written to. */
  method Compute(updates: seq<RawRR>, store: PlainStore) returns (states: map<Bytes, array<RRSet>>)
    ensures Pending(states, store.Contents(), updates)
    ensures forall d :: d in states ==> fresh(states[d])
  {
    hide Fold, Pending;
    states := map[];
    ghost var m := store.Contents();
    assert Pending(states, m, updates[..0]) by { NothingPending(m); }
    for i := 0 to |updates|
      invariant Pending(states, m, updates[..i])
      invariant forall d :: d in states ==> fresh(states[d])
    {
      states := Touch(states, updates[i], store, updates[..i], m);
      assert updates[..i + 1] == updates[..i] + [updates[i]];
    }
    assert updates[..|updates|] == updates;
  }

  lemma NothingPending(m: Store)
    ensures Pending(map[], m, [])
  {
  }

  lemma NamesSnoc(ups: seq<RawRR>, up: RawRR)
    ensures NamesOf(ups + [up]) == NamesOf(ups) + {up.name}
  {
    assert up in ups + [up];
    forall n | n in NamesOf(ups) + {up.name} ensures n in NamesOf(ups + [up]) {
      if n in NamesOf(ups) {
        var u :| u in ups && u.name == n;
        assert u in ups + [up];
      }
    }
  }

  lemma FirstTouch(m: Store, ups: seq<RawRR>, name: Bytes)
    requires name !in NamesOf(ups)
    ensures Fold(SetsAt(m, name), ups, name) == SetsAt(m, name)
  {
    FoldUnnamed(SetsAt(m, name), ups, name);
  }

  /** What the store's map of slices becomes once the names in done are written. */
  ghost predicate Written(now: map<Bytes, array<RRSet>>, was: map<Bytes, array<RRSet>>,
                          states: map<Bytes, array<RRSet>>, done: set<Bytes>)
  {
    && (forall d :: d in done && d in states ==>
         (d in now <==> states[d].Length > 0) && (d in now ==> now[d] == states[d]))
    && (forall d :: d !in done ==> (d in now <==> d in was) && (d in now ==> now[d] == was[d]))
  }

  /** Writes the new sets name by name, in whatever order the names come. */
  method Commit(states: map<Bytes, array<RRSet>>, store: PlainStore)
    modifies store
    ensures Written(store.sets, old(store.sets), states, states.Keys)
  {
    var todo := states.Keys;
    while todo != {}
      invariant todo <= states.Keys && Written(store.sets, old(store.sets), states, states.Keys - todo)
      decreases |todo|
    {
      var d :| d in todo;
      todo := todo - {d};
      if states[d].Length == 0 {
        store.DeleteDomain(d);
      } else {
        store.Upsert(d, states[d]);
      }
    }
    assert states.Keys - todo == states.Keys;
  }

  /** The whole update section: the store ends at the fold of the operations, whatever order it was written in. */
  method ApplyUpdates(updates: seq<RawRR>, store: PlainStore)
    modifies store
    ensures store.Contents() == Updated(old(store.Contents()), updates)
    ensures forall a :: a in old(store.sets.Values) ==> a[..] == old(a[..])
  {
    hide Fold;
    ghost var m, was := store.Contents(), store.sets;
    var states := Compute(updates, store);
    Commit(states, store);
    forall d ensures (d in store.Contents() <==> d in Updated(m, updates))
                     && (d in store.Contents() ==> store.Contents()[d] == Updated(m, updates)[d])
    {
      if d in states {
        assert states[d][..] == Fold(SetsAt(m, d), updates, d);
      } else {
        UpdatedElsewhere(m, updates, d);
        if d in was { assert was[d] in was.Values; }
      }
    }
    SameMap(store.Contents(), Updated(m, updates));
  }

  lemma SameMap(a: Store, b: Store)
    requires forall d :: (d in a <==> d in b) && (d in a ==> a[d] == b[d])
    ensures a == b
  {
  }

  // ---- prerequisites and the message ----

  /** One prerequisite: a success exactly when it is well formed and holds, and the code its kind of failure has. */
  method EvaluatePrerequisite(pr: RawRR, existing: RRSets, found: bool) returns (code: RCode)
    requires found || existing == []
    ensures code == Success <==> WellFormed(pr) && Holds(Meaning(existing), pr)
    ensures code == FormatError <==> !WellFormed(pr)
    ensures WellFormed(pr) && !Holds(Meaning(existing), pr) ==> code == Refusal(pr)
    ensures Decided(existing, pr, code)
  {
    hide Meaning, Holds, Decided;
    PrerequisiteMeans(existing, pr);
    PrerequisiteDecided(existing, pr);
    if pr.cls == CLASS_ANY && pr.rtype != TYPE_ANY && |pr.rdata| == 0 {
      if !found { return NXRRSet; }
      var record := Search(existing, pr.rtype);
      if record.None? { return NXRRSet; }
      return Success;
    }
    if pr.cls == CLASS_IN && pr.rtype != TYPE_ANY && |pr.rdata| > 0 {
      if !found { return NXRRSet; }
      var record := Search(existing, pr.rtype);
      if record.None? { return NXRRSet; }
      var known := ContainsRData(record.value.rdata, pr.rdata);
      if !known { return NXRRSet; }
      return Success;
    }
    if pr.cls == CLASS_NONE && pr.rtype != TYPE_ANY && |pr.rdata| == 0 {
      if found {
        var record := Search(existing, pr.rtype);
        if record.Some? { return YXRRSet; }
      }
      return Success;
    }
    if pr.cls == CLASS_ANY && pr.rtype == TYPE_ANY && |pr.rdata| == 0 {
      if !found || |existing| == 0 { return NameError; }
      return Success;
    }
    if pr.cls == CLASS_NONE && pr.rtype == TYPE_ANY && |pr.rdata| == 0 {
      if found && |existing| > 0 { return YXDomain; }
      return Success;
    }
    return FormatError;
  }

  /** The section succeeds exactly when every prerequisite is well formed and holds. */
  method CheckPrerequisites(prs: seq<RawRR>, store: PlainStore) returns (code: RCode)
    ensures code == Success <==> forall i :: 0 <= i < |prs| ==> Satisfied(store.Contents(), prs[i])
    ensures code == PrerequisitesCode(store.Contents(), prs, 0)
  {
    hide Meaning, Holds, Decided, WellFormed, Refusal;
    PrerequisitesMean(store.Contents(), prs, 0);
    for i := 0 to |prs|
      invariant PrerequisitesCode(store.Contents(), prs, i) == PrerequisitesCode(store.Contents(), prs, 0)
    {
      var existing := store.Get(prs[i].name);
      code := EvaluatePrerequisite(prs[i], if existing == null then [] else existing[..], existing != null);
      if code != Success { return; }
    }
    return Success;
  }

  method ParseRR(b: Bytes, off: nat) returns (r: Option<(RawRR, nat)>)
    ensures r == ReadRR(b, off)
  {
    hide Decode, NameText, GetU16, GetU32, CanonicalName;
    var name, e, err := DecodeName(b, off);
    if err.Some? { return None; }
    if e + RR_HEADER > |b| { return None; }
    var len := GetU16(b[e + 8..e + 10]);
    var at := e + RR_HEADER;
    if at + len > |b| { return None; }
    var rtype, cls, ttl := GetU16(b[e..e + 2]), GetU16(b[e + 2..e + 4]), GetU32(b[e + 4..e + 8]);
    return Some((RawRR(CanonicalName(name), rtype, cls, ttl, b[at..at + len]), at + len));
  }

  /** What is read so far, followed by the rest of the section. */
  function Before(records: seq<RawRR>, rest: Option<Section>): Option<Section> {
    match rest case None => None case Some(s) => Some(s.(records := records + s.records))
  }

  method ParseRecords(b: Bytes, off: nat, count: nat) returns (r: Option<Section>)
    ensures r == ReadRRs(b, off, count)
  {
    hide ReadRR;
    var records: seq<RawRR>, at: nat := [], off;
    BeforeNothing(ReadRRs(b, off, count));
    for i := 0 to count
      invariant Before(records, ReadRRs(b, at, count - i)) == ReadRRs(b, off, count)
    {
      var rr := ParseRR(b, at);
      if rr.None? { return None; }
      BeforeMore(records, rr.value.0, ReadRRs(b, rr.value.1, count - i - 1));
      records, at := records + [rr.value.0], rr.value.1;
    }
    assert records + [] == records;
    return Some(Section(records, at));
  }

  lemma BeforeNothing(rest: Option<Section>)
    ensures Before([], rest) == rest
  {
    if rest.Some? { assert [] + rest.value.records == rest.value.records; }
  }

  lemma BeforeMore(records: seq<RawRR>, rr: RawRR, rest: Option<Section>)
    ensures rest.Some? ==>
              Before(records, Some(rest.value.(records := [rr] + rest.value.records))) == Before(records + [rr], rest)
  {
    if rest.Some? { assert records + ([rr] + rest.value.records) == records + [rr] + rest.value.records; }
  }

  method ParseZoneSection(b: Bytes) returns (r: Option<(Bytes, nat)>)
    requires |b| >= HEADER_SIZE
    ensures r == ReadZone(b)
  {
    hide Decode, NameText, GetU16, CanonicalName;
    if GetU16(b[4..6]) != 1 { return None; }
    var name, e, err := DecodeName(b, HEADER_SIZE);
    if err.Some? { return None; }
    if e + 4 > |b| { return None; }
    if GetU16(b[e..e + 2]) != TYPE_SOA || GetU16(b[e + 2..e + 4]) != CLASS_IN { return None; }
    return Some((CanonicalName(name), e + 4));
  }

  method CheckZone(rrs: seq<RawRR>, zone: Bytes) returns (ok: bool)
    ensures ok <==> AllInZone(rrs, zone)
  {
    hide IsInZone;
    for i := 0 to |rrs|
      invariant forall j :: 0 <= j < i ==> IsInZone(rrs[j].name, zone)
    {
      if !IsInZone(rrs[i].name, zone) { return false; }
    }
    return true;
  }

  /**
   Processes an UPDATE. Any code but Success leaves the store as it was; Success leaves it exactly at the fold
   of the update section. In either case no slice that was stored has been written to.
   */
  method Process(payload: Bytes, store: PlainStore) returns (code: RCode)
    modifies store
    ensures code == Verdict(old(store.Contents()), payload).0
    ensures code != Success ==> store.sets == old(store.sets)
    ensures code == Success ==>
              store.Contents() == Updated(old(store.Contents()), Verdict(old(store.Contents()), payload).1)
    ensures forall a :: a in old(store.sets.Values) ==> a[..] == old(a[..])
  {
    hide ReadZone, ReadRRs, AllInZone, PrerequisitesCode, Updated, GetU16;
    if |payload| < HEADER_SIZE { return FormatError; }
    var zone := ParseZoneSection(payload);
    if zone.None? { return FormatError; }
    var (name, off) := zone.value;
    var apex := store.Get(name);
    if apex == null && name != [DOT] { return NotAuth; }
    var prs := ParseRecords(payload, off, GetU16(payload[6..8]));
    if prs.None? { return FormatError; }
    var ups := ParseRecords(payload, prs.value.next, GetU16(payload[8..10]));
    if ups.None? { return FormatError; }
    var ok := CheckZone(prs.value.records, name);
    if !ok { return NotZone; }
    ok := CheckZone(ups.value.records, name);
    if !ok { return NotZone; }
    code := CheckPrerequisites(prs.value.records, store);
    if code != Success { return; }
    ApplyUpdates(ups.value.records, store);
  }
}
