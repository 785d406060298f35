/**
 The automatic raising of SOA serials by mutations (internal/store/batch.go): which apex a mutation
 raises, and what it leaves of the stored map.
 */
module ZoneSerials {
  import opened Octets
  import opened Records
  import opened Names
  import opened Zones
  import opened Operations
  import opened Tries
  import opened Resolution
  import opened QueryNames
  import opened AnswerMeanings
  import opened SoaRecords

  // ---- raising a serial within record sets ----

  /** The first SOA set with data, from i on. */
  function FirstSoa(sets: RRSets, i: nat): (r: Option<nat>)
    requires i <= |sets|
    ensures r.Some? ==> i <= r.value < |sets| && sets[r.value].rtype == TYPE_SOA && sets[r.value].rdata != []
    ensures r.Some? ==> forall j :: i <= j < r.value ==> sets[j].rtype != TYPE_SOA || sets[j].rdata == []
    ensures r.None? ==> forall j :: i <= j < |sets| ==> sets[j].rtype != TYPE_SOA || sets[j].rdata == []
    decreases |sets| - i
  {
    if i == |sets| then None
    else if sets[i].rtype == TYPE_SOA && sets[i].rdata != [] then Some(i)
    else FirstSoa(sets, i + 1)
  }

  predicate HasSerial(sets: RRSets) {
    FirstSoa(sets, 0).Some?
  }

  function RaiseSets(sets: RRSets): (r: RRSets)
    ensures |r| == |sets|
  {
    match FirstSoa(sets, 0)
    case None => sets
    case Some(i) => sets[i := sets[i].(rdata := sets[i].rdata[0 := Raised(sets[i].rdata[0])])]
  }

  /** Searches the sets and raises the first serial it meets. */
  method RaiseSerial(sets: RRSets) returns (out: RRSets, found: bool)
    ensures out == RaiseSets(sets) && found == HasSerial(sets)
  {
    hide Raised;
    for i := 0 to |sets|
      invariant FirstSoa(sets, i) == FirstSoa(sets, 0)
    {
      if sets[i].rtype == TYPE_SOA && |sets[i].rdata| > 0 {
        var raised := IncrementSoaSerial(sets[i].rdata[0]);
        return sets[i := sets[i].(rdata := sets[i].rdata[0 := raised])], true;
      }
    }
    return sets, false;
  }

  /** Of written SOA data only the serial moves, by one; every other set, type, TTL and datum is the same. */
  lemma RaisedSets(sets: RRSets, i: nat, e1: nat, e: nat, m: seq<Bytes>, r: seq<Bytes>)
    requires FirstSoa(sets, 0) == Some(i) && SoaData(sets[i].rdata[0], e1, e, m, r)
    ensures
      var now := RaiseSets(sets); var was := sets[i].rdata;
      && (forall j :: 0 <= j < |sets| && j != i ==> now[j] == sets[j])
      && now[i] == sets[i].(rdata := now[i].rdata) && |now[i].rdata| == |was|
      && (forall j :: 0 < j < |was| ==> now[i].rdata[j] == was[j])
      && |now[i].rdata[0]| == |was[0]|
      && ReadSoa(now[i].rdata[0]) ==
         match ReadSoa(was[0]) case None => None case Some(s) => Some(s.(serial := Next(s.serial)))
  {
    hide SoaData, ReadSoa, Raised;
    SerialPlusOne(sets[i].rdata[0], e1, e, m, r);
  }

  // ---- which apex ----

  function FindApexDomain(res: Result, domain: Bytes): Bytes {
    if res.HasAnswer() && res.answer.rtype == TYPE_SOA then domain
    else if res.HasAuthority() then res.authorityName
    else []
  }

  /** The changes a mutation makes, in the order the tree and the log receive them. */
  ghost function Expansion(m: Zone, op: Op): seq<Op> {
    if op.Upsert? && HasSerial(op.sets) then [Upsert(op.domain, RaiseSets(op.sets))]
    else
      var apex := FindApexDomain(SpecResolve(m, Query(op.domain, TYPE_SOA)), op.domain);
      if apex == [] || apex == op.domain || PathOf(apex) !in m || !HasSerial(m[PathOf(apex)]) then [op]
      else [Upsert(apex, RaiseSets(m[PathOf(apex)])), op]
  }

  /** The records an SOA query for the name would be answered from. */
  ghost function Answering(m: Zone, q: Query): RRSets {
    var p := PathOf(q.domain);
    if Under(m, p) then RecordsAt(m, p) else StarRecords(m, QueryHops(q), |p|)
  }

  /**
   How deep the apex lies whose serial a mutation of the name raises: the deepest SOA above it, unless
   a delegation comes before or the name itself, or the wildcard standing in for it, has an SOA or CNAME.
   */
  ghost function EnclosingApex(m: Zone, domain: Bytes): Option<nat> {
    var q := Query(domain, TYPE_SOA);
    var hs := QueryHops(q);
    if TopCut(m, q, hs, 0).Some? || Has(Answering(m, q), TYPE_SOA) || Has(Answering(m, q), TYPE_CNAME) then None
    else
      match DeepestApex(m, hs, |hs|)
      case None => None
      case Some(i) => if Search(m[At(hs, i)], TYPE_SOA).value.rdata == [] then None else Some(i)
  }

  lemma FormatShorter(q: Query, i: nat)
    requires i < |QueryHops(q)|
    ensures FormatName(q.domain, CursorAt(q, QueryHops(q), i)) != q.domain
    ensures FormatName(q.domain, CursorAt(q, QueryHops(q), i)) != []
  {
    hide Hops;
    var a := FormatName(q.domain, CursorAt(q, QueryHops(q), i));
    FormatPath(q, i);
    assert PathOf(q.domain) == LabelsOf(QueryHops(q));
    if i > 0 { TextAfterCursor(q.domain, i - 1); }
  }

  lemma TextAfterCursor(d: Bytes, i: nat)
    requires i < |Hops(d, |d|)|
    ensures var c := Hops(d, |d|)[i].cursor; c < |d| && (c == 0 || c + 1 < |d|)
  {
    hide Hops;
    HopsAreWithin(d, |d|);
    var c := Hops(d, |d|)[i].cursor;
    if c > 0 {
      CursorOnDot(d, |d|, i);
      if d[|d| - 1] == DOT {
        FirstHopBeforeDot(d);
        if i > 0 { CursorsBelow(d, |d|, i); }
      }
    }
  }

  lemma FirstHopBeforeDot(d: Bytes)
    requires d != [] && d[|d| - 1] == DOT && Hops(d, |d|) != []
    ensures Hops(d, |d|)[0].cursor < |d| - 1
  {
    HopsStep(d, |d|);
    HopsAreWithin(d, |d| - 1);
  }

  lemma CursorsBelow(d: Bytes, c: nat, i: nat)
    requires c <= |d| && 0 < i < |Hops(d, c)|
    ensures Hops(d, c)[i].cursor < Hops(d, c)[0].cursor
  {
    HopsRest(d, c, 1);
    HopsAreWithin(d, Hops(d, c)[0].cursor);
    assert Hops(d, c)[1..][i - 1] == Hops(d, c)[i];
  }

  /** The answer to an SOA query, case by case. */
  lemma SoaAnswer(m: Zone, domain: Bytes)
    ensures
      var q := Query(domain, TYPE_SOA);
      var hs := QueryHops(q);
      var r := SpecResolve(m, q);
      var rr := Answering(m, q);
      match TopCut(m, q, hs, 0)
      case Some(i) => !r.HasAnswer() && r.authorityName == FormatName(domain, CursorAt(q, hs, i))
      case None =>
        if Has(rr, TYPE_SOA) then !r.HasAuthority() && (r.HasAnswer() ==> r.answer.rtype == TYPE_SOA)
        else if Has(rr, TYPE_CNAME) then !r.HasAuthority() && (r.HasAnswer() ==> r.answer.rtype == TYPE_CNAME)
        else !r.HasAnswer() && r.authority == AuthorityOf(m, q, hs, |hs|).rrset
             && r.authorityName == AuthorityOf(m, q, hs, |hs|).name
  {
    hide TopCut, AuthorityOf, StarRecords, Hops, FormatName;
    var q := Query(domain, TYPE_SOA);
    assert PathOf(domain) == LabelsOf(QueryHops(q));
  }

  /** The name FindApexDomain gives: the name asked for, a delegation, the deepest apex, or none. */
  lemma ApexFound(m: Zone, domain: Bytes)
    ensures
      var q := Query(domain, TYPE_SOA);
      var hs := QueryHops(q);
      var r := SpecResolve(m, q);
      var rr := Answering(m, q);
      FindApexDomain(r, domain) ==
      match TopCut(m, q, hs, 0)
      case Some(i) => if r.HasAuthority() then FormatName(domain, CursorAt(q, hs, i)) else []
      case None =>
        if Has(rr, TYPE_SOA) then if r.HasAnswer() then domain else []
        else if Has(rr, TYPE_CNAME) || AuthorityOf(m, q, hs, |hs|).rrset.rdata == [] then []
        else AuthorityOf(m, q, hs, |hs|).name
  {
    hide TopCut, AuthorityOf, StarRecords, Hops, FormatName, SpecResolve;
    SoaAnswer(m, domain);
  }

  lemma SerialFound(sets: RRSets)
    requires Has(sets, TYPE_SOA) && Search(sets, TYPE_SOA).value.rdata != []
    ensures HasSerial(sets)
  {
    var x := Search(sets, TYPE_SOA).value;
    var j :| 0 <= j < |sets| && sets[j] == x;
  }

  lemma NoSerial(sets: RRSets)
    requires !Has(sets, TYPE_SOA)
    ensures !HasSerial(sets)
  {
  }

  /** The SOA above the name is where the walk says, and it is not the name itself. */
  lemma ApexText(m: Zone, domain: Bytes, i: nat)
    requires
      var q := Query(domain, TYPE_SOA);
      !Has(Answering(m, q), TYPE_SOA) && DeepestApex(m, QueryHops(q), |QueryHops(q)|) == Some(i)
    ensures
      var q := Query(domain, TYPE_SOA);
      var a := FormatName(domain, CursorAt(q, QueryHops(q), i));
      i < |PathOf(domain)| && PathOf(a) == PathOf(domain)[..i] && PathOf(a) in m && a != [] && a != domain
  {
    hide Hops, StarRecords;
    var q := Query(domain, TYPE_SOA);
    var hs := QueryHops(q);
    assert PathOf(domain) == LabelsOf(hs) == At(hs, |hs|);
    if i == |hs| { StoredIsUnder(m, PathOf(domain)); }
    FormatPath(q, i);
    FormatShorter(q, i);
  }

  /**
   A mutation without an SOA of its own raises a serial exactly when the map has an enclosing apex,
   it raises that apex alone, and the apex change goes first.
   */
  lemma ExpansionExactly(m: Zone, op: Op)
    requires !(op.Upsert? && HasSerial(op.sets))
    ensures
      var e := Expansion(m, op);
      var p := PathOf(op.domain);
      match EnclosingApex(m, op.domain)
      case None => e == [op]
      case Some(i) =>
        && i < |p| && p[..i] in m && HasSerial(m[p[..i]])
        && |e| == 2 && e[0].Upsert? && PathOf(e[0].domain) == p[..i] && e[0].sets == RaiseSets(m[p[..i]]) && e[1] == op
  {
    hide SpecResolve, TopCut, DeepestApex, Answering, PathOf, RaiseSets, HasSerial, Has, Search, QueryHops;
    var q := Query(op.domain, TYPE_SOA);
    var hs := QueryHops(q);
    SoaAnswer(m, op.domain);
    match TopCut(m, q, hs, 0)
    case Some(i) =>
      FormatPath(q, i);
      NoSerial(m[At(hs, i)]);
    case None =>
      if !Has(Answering(m, q), TYPE_SOA) && !Has(Answering(m, q), TYPE_CNAME) {
        match DeepestApex(m, hs, |hs|)
        case None =>
        case Some(i) =>
          ApexText(m, op.domain, i);
          ApexSerial(m, q, hs, i);
      }
  }

  lemma ApexSerial(m: Zone, q: Query, hs: seq<Hop>, i: nat)
    requires i <= |hs| && hs == QueryHops(q) && DeepestApex(m, hs, |hs|) == Some(i)
    ensures At(hs, i) in m && Search(m[At(hs, i)], TYPE_SOA).Some? && At(hs, i) == PathOf(q.domain)[..i]
    ensures Search(m[At(hs, i)], TYPE_SOA).value.rdata != [] ==> HasSerial(m[At(hs, i)])
  {
    hide Hops, HasSerial;
    if Search(m[At(hs, i)], TYPE_SOA).value.rdata != [] { SerialFound(m[At(hs, i)]); }
  }

  /** The map changes at the mutated name and at the raised apex, and nowhere else. */
  lemma OnlyTwoNames(m: Zone, op: Op, p: Path)
    requires p != PathOf(op.domain)
    ensures
      var now := ApplyAll(m, Expansion(m, op));
      var raised := !(op.Upsert? && HasSerial(op.sets)) && EnclosingApex(m, op.domain) == Some(|p|) &&
          p <= PathOf(op.domain);
      (p in now <==> p in m) && (p in m ==> now[p] == if raised then RaiseSets(m[p]) else m[p])
  {
    hide PathOf, EnclosingApex, RaiseSets, Expansion, ApplyAll;
    var e := Expansion(m, op);
    if op.Upsert? && HasSerial(op.sets) {
      OwnSerial(m, op);
      ApplyOne(m, e[0]);
    } else {
      ExpansionExactly(m, op);
      if |e| == 2 {
        RaisedNotEmpty(m, e[0].sets, PathOf(e[0].domain));
        ApplyTwo(m, e[0], e[1]);
        assert e == [e[0], e[1]];
        assert p <= PathOf(op.domain) ==> p == PathOf(op.domain)[..|p|];
      } else {
        ApplyOne(m, op);
      }
    }
  }

  lemma OwnSerial(m: Zone, op: Op)
    requires op.Upsert? && HasSerial(op.sets)
    ensures Expansion(m, op) == [Upsert(op.domain, RaiseSets(op.sets))]
  {
  }

  lemma RaisedNotEmpty(m: Zone, sets: RRSets, p: Path)
    requires p in m && HasSerial(m[p]) && sets == RaiseSets(m[p])
    ensures sets != []
  {
  }

  /** The mutated name ends with exactly the records given, their own serial raised. */
  lemma NameAfter(m: Zone, op: Op)
    ensures
      var now := ApplyAll(m, Expansion(m, op));
      var p := PathOf(op.domain);
      RecordsAt(now, p) == (if op.Delete? then [] else RaiseSets(op.sets)) && (p in now <==> RecordsAt(now, p) != [])
  {
    hide PathOf, RaiseSets, Expansion, ApplyAll;
    var e := Expansion(m, op);
    LastIsOp(m, op);
    var n := |e| - 1;
    assert e == e[..n] + [e[n]];
    ApplyAllSnoc(m, e[..n], e[n]);
  }

  lemma LastIsOp(m: Zone, op: Op)
    ensures var e := Expansion(m, op);
            e != [] && e[|e| - 1] == if op.Delete? then op else Upsert(op.domain, RaiseSets(op.sets))
  {
    hide PathOf, SpecResolve, FirstSoa;
    if op.Upsert? && !HasSerial(op.sets) { NothingRaised(op.sets); }
  }

  lemma NothingRaised(sets: RRSets)
    requires !HasSerial(sets)
    ensures RaiseSets(sets) == sets
  {
  }
}
