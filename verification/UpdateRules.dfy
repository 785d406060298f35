/**
 The rules of dynamic updates (internal/rfc2136/update.go, after sections 2.4, 2.5 and 3.4 of RFC 2136):
 what one operation does to the record sets of a name, and what it means on types and data alone.
 */
module UpdateRules {
  import opened Octets
  import opened Records

  datatype RawRR = RawRR(name: Bytes, rtype: U16, cls: U16, ttl: U32, rdata: Bytes)

  // ---- the four operations ----

  predicate Adds(up: RawRR) {
    up.cls == CLASS_IN && up.rtype != TYPE_ANY && up.rdata != []
  }

  predicate DropsSet(up: RawRR) {
    up.cls == CLASS_ANY && up.rtype != TYPE_ANY && up.ttl == 0 && up.rdata == []
  }

  predicate DropsAll(up: RawRR) {
    up.cls == CLASS_ANY && up.rtype == TYPE_ANY && up.ttl == 0 && up.rdata == []
  }

  predicate DropsOne(up: RawRR) {
    up.cls == CLASS_NONE && up.rtype != TYPE_ANY && up.ttl == 0 && up.rdata != []
  }

  function Grown(s: RRSet, up: RawRR): RRSet {
    s.(ttl := up.ttl, rdata := if up.rdata in s.rdata then s.rdata else s.rdata + [up.rdata])
  }

  function NewSet(up: RawRR): RRSet {
    RRSet(up.rtype, CLASS_IN, up.ttl, [up.rdata])
  }

  /** Joins the first set of the type, or starts one at the end. */
  function AddRecord(sets: RRSets, up: RawRR): RRSets {
    if sets == [] then [NewSet(up)]
    else if sets[0].rtype == up.rtype then [Grown(sets[0], up)] + sets[1..]
    else [sets[0]] + AddRecord(sets[1..], up)
  }

  function WithoutType(sets: RRSets, t: U16): RRSets {
    if sets == [] then []
    else (if sets[0].rtype == t then [] else [sets[0]]) + WithoutType(sets[1..], t)
  }

  function Others(ds: seq<Bytes>, d: Bytes): seq<Bytes> {
    if ds == [] then [] else (if ds[0] == d then [] else [ds[0]]) + Others(ds[1..], d)
  }

  /** What is left of one set; nothing when its last datum goes. */
  function Trimmed(s: RRSet, t: U16, d: Bytes): RRSets {
    if s.rtype != t then [s]
    else if Others(s.rdata, d) == [] then []
    else [s.(rdata := Others(s.rdata, d))]
  }

  function WithoutRecord(sets: RRSets, t: U16, d: Bytes): RRSets {
    if sets == [] then [] else Trimmed(sets[0], t, d) + WithoutRecord(sets[1..], t, d)
  }

  /** Anything that is none of the four is ignored. */
  function UpdateSets(sets: RRSets, up: RawRR): RRSets {
    if Adds(up) then AddRecord(sets, up)
    else if DropsSet(up) then WithoutType(sets, up.rtype)
    else if DropsAll(up) then []
    else if DropsOne(up) then WithoutRecord(sets, up.rtype, up.rdata)
    else sets
  }

  // ---- the meaning ----

  /** A record set as the RFC sees it: a time to live and a set of data. */
  datatype TypeData = TypeData(ttl: U32, data: set<Bytes>)

  function DataOf(ds: seq<Bytes>): set<Bytes> {
    set d | d in ds
  }

  function TypesOf(sets: RRSets): set<U16> {
    set s | s in sets :: s.rtype
  }

  function Meaning(sets: RRSets): map<U16, TypeData> {
    if sets == [] then map[]
    else Meaning(sets[1..])[sets[0].rtype := TypeData(sets[0].ttl, DataOf(sets[0].rdata))]
  }

  ghost predicate NoRepeat(ds: seq<Bytes>) {
    forall i, j :: 0 <= i < j < |ds| ==> ds[i] != ds[j]
  }

  /** Types are unique, and every set has data, each datum once. */
  ghost predicate Tidy(sets: RRSets) {
    && (forall i, j :: 0 <= i < j < |sets| ==> sets[i].rtype != sets[j].rtype)
    && forall i :: 0 <= i < |sets| ==> sets[i].rdata != [] && NoRepeat(sets[i].rdata)
  }

  function DataAt(m: map<U16, TypeData>, t: U16): set<Bytes> {
    if t in m then m[t].data else {}
  }

  function Meant(m: map<U16, TypeData>, up: RawRR): map<U16, TypeData> {
    if Adds(up) then m[up.rtype := TypeData(up.ttl, DataAt(m, up.rtype) + {up.rdata})]
    else if DropsSet(up) then m - {up.rtype}
    else if DropsAll(up) then map[]
    else if DropsOne(up) && up.rtype in m then
      var left := m[up.rtype].data - {up.rdata};
      if left == {} then m - {up.rtype} else m[up.rtype := m[up.rtype].(data := left)]
    else m
  }

  lemma {:induction false} MeaningTypes(sets: RRSets)
    ensures Meaning(sets).Keys == TypesOf(sets)
  {
    if sets != [] {
      MeaningTypes(sets[1..]);
      assert sets == [sets[0]] + sets[1..];
    }
  }

  lemma TidyRest(sets: RRSets)
    requires Tidy(sets) && sets != []
    ensures Tidy(sets[1..]) && sets[0].rtype !in TypesOf(sets[1..])
    ensures sets[0].rtype !in Meaning(sets[1..])
    ensures sets[0].rdata != [] && NoRepeat(sets[0].rdata)
  {
    hide NoRepeat, Meaning;
    var rest := sets[1..];
    forall s | s in rest ensures s.rtype != sets[0].rtype {
      var i :| 0 <= i < |rest| && rest[i] == s;
      assert sets[i + 1] == s;
    }
    MeaningTypes(rest);
  }

  lemma TidyCons(s: RRSet, rest: RRSets)
    requires Tidy(rest) && s.rtype !in TypesOf(rest) && s.rdata != [] && NoRepeat(s.rdata)
    ensures Tidy([s] + rest)
  {
    hide NoRepeat;
    var all := [s] + rest;
    forall i, j | 0 <= i < j < |all| ensures all[i].rtype != all[j].rtype {
      assert all[j] == rest[j - 1];
      if i == 0 { assert rest[j - 1] in rest; } else { assert all[i] == rest[i - 1]; }
    }
  }

  lemma MeaningCons(s: RRSet, rest: RRSets)
    ensures Meaning([s] + rest) == Meaning(rest)[s.rtype := TypeData(s.ttl, DataOf(s.rdata))]
    ensures TypesOf([s] + rest) == TypesOf(rest) + {s.rtype}
  {
    assert ([s] + rest)[1..] == rest;
  }

  // ---- each operation means what it should ----

  lemma GrownMeans(s: RRSet, up: RawRR)
    requires NoRepeat(s.rdata)
    ensures Grown(s, up).rdata != [] && NoRepeat(Grown(s, up).rdata)
    ensures DataOf(Grown(s, up).rdata) == DataOf(s.rdata) + {up.rdata}
  {
  }

  lemma {:induction false} AddMeans(sets: RRSets, up: RawRR)
    requires Tidy(sets)
    ensures Tidy(AddRecord(sets, up)) && TypesOf(AddRecord(sets, up)) == TypesOf(sets) + {up.rtype}
    ensures Meaning(AddRecord(sets, up)) ==
            Meaning(sets)[up.rtype := TypeData(up.ttl, DataAt(Meaning(sets), up.rtype) + {up.rdata})]
  {
    hide Tidy, NoRepeat, TypesOf, Meaning, DataOf;
    if sets == [] {
      OneSet(up);
      assert {} + {up.rdata} == {up.rdata};
    } else {
      TidyRest(sets);
      var s, rest := sets[0], sets[1..];
      assert sets == [s] + rest;
      MeaningCons(s, rest);
      if s.rtype == up.rtype {
        GrownMeans(s, up);
        TidyCons(Grown(s, up), rest);
        MeaningCons(Grown(s, up), rest);
      } else {
        AddMeans(rest, up);
        TidyCons(s, AddRecord(rest, up));
        MeaningCons(s, AddRecord(rest, up));
      }
    }
  }

  lemma OneSet(up: RawRR)
    ensures Tidy([NewSet(up)]) && TypesOf([NewSet(up)]) == {up.rtype} && TypesOf([]) == {}
    ensures Meaning([NewSet(up)]) == map[up.rtype := TypeData(up.ttl, {up.rdata})] && Meaning([]) == map[]
  {
    assert DataOf([up.rdata]) == {up.rdata};
    assert [NewSet(up)][1..] == [];
  }

  lemma Nothing()
    ensures Tidy([]) && Meaning([]) == map[] && TypesOf([]) == {}
  {
  }

  lemma {:induction false} DropSetMeans(sets: RRSets, t: U16)
    requires Tidy(sets)
    ensures Tidy(WithoutType(sets, t)) && Meaning(WithoutType(sets, t)) == Meaning(sets) - {t}
    ensures TypesOf(WithoutType(sets, t)) == TypesOf(sets) - {t}
  {
    hide Tidy, NoRepeat, TypesOf, Meaning;
    if sets == [] {
      Nothing();
    } else {
      TidyRest(sets);
      var s, rest := sets[0], sets[1..];
      assert sets == [s] + rest;
      MeaningCons(s, rest);
      DropSetMeans(rest, t);
      if s.rtype == t {
        assert [] + WithoutType(rest, t) == WithoutType(rest, t);
      } else {
        TidyCons(s, WithoutType(rest, t));
        MeaningCons(s, WithoutType(rest, t));
      }
    }
  }

  lemma {:induction false} OthersMeans(ds: seq<Bytes>, d: Bytes)
    requires NoRepeat(ds)
    ensures NoRepeat(Others(ds, d)) && DataOf(Others(ds, d)) == DataOf(ds) - {d}
    ensures Others(ds, d) == [] <==> DataOf(ds) - {d} == {}
  {
    hide NoRepeat, DataOf;
    if ds == [] {
      NoData();
    } else {
      var x, tail := ds[0], ds[1..];
      var rest := Others(tail, d);
      NoRepeatTail(ds);
      OthersMeans(tail, d);
      assert ds == [x] + tail;
      DataCons(x, tail);
      if x != d {
        DataCons(x, rest);
        NotInOthers(tail, d, x);
        NoRepeatCons(x, rest);
        assert x in DataOf(ds) - {d};
      } else {
        assert [] + rest == rest;
        assert d !in DataOf(tail);
      }
    }
  }

  lemma NoData()
    ensures DataOf([]) == {} && NoRepeat([])
  {
  }

  lemma DataCons(x: Bytes, rest: seq<Bytes>)
    ensures DataOf([x] + rest) == {x} + DataOf(rest)
  {
  }

  lemma NoRepeatTail(ds: seq<Bytes>)
    requires NoRepeat(ds) && ds != []
    ensures NoRepeat(ds[1..]) && ds[0] !in ds[1..] && ds[0] !in DataOf(ds[1..])
  {
  }

  lemma {:induction false} NotInOthers(ds: seq<Bytes>, d: Bytes, x: Bytes)
    requires x !in ds
    ensures x !in Others(ds, d)
  {
    if ds != [] { NotInOthers(ds[1..], d, x); }
  }

  lemma NoRepeatCons(x: Bytes, rest: seq<Bytes>)
    requires NoRepeat(rest) && x !in rest
    ensures NoRepeat([x] + rest)
  {
  }

  lemma DropNothing(sets: RRSets, t: U16, d: Bytes)
    requires t !in TypesOf(sets)
    ensures WithoutRecord(sets, t, d) == sets
  {
    if sets != [] {
      assert sets[0] in sets;
      DropNothing(sets[1..], t, d);
    }
  }

  /** The set of the type loses the datum, and goes when it was the last one. */
  lemma DropHere(s: RRSet, rest: RRSets, up: RawRR)
    requires Tidy([s] + rest) && DropsOne(up) && s.rtype == up.rtype
    ensures var r := Trimmed(s, up.rtype, up.rdata) + rest;
            Tidy(r) && Meaning(r) == Meant(Meaning([s] + rest), up) && TypesOf(r) <= TypesOf([s] + rest)
  {
    hide Tidy, NoRepeat, TypesOf, Meaning, Others, DataOf;
    var left := Others(s.rdata, up.rdata);
    assert ([s] + rest)[1..] == rest;
    TidyRest([s] + rest);
    MeaningCons(s, rest);
    OthersMeans(s.rdata, up.rdata);
    if left == [] {
      assert [] + rest == rest;
      assert Meaning([s] + rest) - {s.rtype} == Meaning(rest);
    } else {
      TidyCons(s.(rdata := left), rest);
      MeaningCons(s.(rdata := left), rest);
    }
  }

  lemma DropThere(s: RRSet, rest: RRSets, rest': RRSets, up: RawRR)
    requires Tidy([s] + rest) && DropsOne(up) && s.rtype != up.rtype
    requires Tidy(rest') && Meaning(rest') == Meant(Meaning(rest), up) && TypesOf(rest') <= TypesOf(rest)
    ensures Tidy([s] + rest') && Meaning([s] + rest') == Meant(Meaning([s] + rest), up)
    ensures TypesOf([s] + rest') <= TypesOf([s] + rest)
  {
    hide Tidy, NoRepeat, TypesOf, Meaning, DataOf;
    assert ([s] + rest)[1..] == rest;
    TidyRest([s] + rest);
    MeaningCons(s, rest);
    MeaningCons(s, rest');
    TidyCons(s, rest');
  }

  lemma {:induction false} DropOneMeans(sets: RRSets, up: RawRR)
    requires Tidy(sets) && DropsOne(up)
    ensures var r := WithoutRecord(sets, up.rtype, up.rdata);
            Tidy(r) && Meaning(r) == Meant(Meaning(sets), up) && TypesOf(r) <= TypesOf(sets)
  {
    hide Tidy, TypesOf, Meaning, Meant, Others;
    if sets == [] {
      Nothing();
      assert Meant(map[], up) == map[] by { MeantNothing(up); }
    } else {
      TidyRest(sets);
      var s, rest := sets[0], sets[1..];
      assert sets == [s] + rest;
      if s.rtype == up.rtype {
        DropNothing(rest, up.rtype, up.rdata);
        DropHere(s, rest, up);
      } else {
        DropOneMeans(rest, up);
        DropThere(s, rest, WithoutRecord(rest, up.rtype, up.rdata), up);
      }
    }
  }

  lemma MeantNothing(up: RawRR)
    requires DropsOne(up)
    ensures Meant(map[], up) == map[]
  {
  }

  /** Every operation keeps sets tidy and does to their meaning what section 3.4.2 of RFC 2136 asks. */
  lemma UpdateMeans(sets: RRSets, up: RawRR)
    requires Tidy(sets)
    ensures Tidy(UpdateSets(sets, up)) && Meaning(UpdateSets(sets, up)) == Meant(Meaning(sets), up)
  {
    hide Tidy, Meaning;
    if Adds(up) {
      AddMeans(sets, up);
    } else if DropsSet(up) {
      DropSetMeans(sets, up.rtype);
    } else if DropsAll(up) {
      Nothing();
    } else if DropsOne(up) {
      DropOneMeans(sets, up);
    }
  }

  // ---- the operations on the wire fields ----

  ghost predicate HasData(sets: RRSets, t: U16, d: Bytes) {
    exists i :: 0 <= i < |sets| && sets[i].rtype == t && d in sets[i].rdata
  }

  /** Every set of another type is there as it was, and nothing else of another type. */
  ghost predicate OthersKept(was: RRSets, now: RRSets, t: U16) {
    forall s: RRSet :: s.rtype != t ==> (s in now <==> s in was)
  }

  /** A new set of class 1 at the end, or the first of the type with the time and, once, the datum, at its end. */
  ghost predicate Joined(was: RRSets, now: RRSets, up: RawRR) {
    if forall i :: 0 <= i < |was| ==> was[i].rtype != up.rtype
    then now == was + [RRSet(up.rtype, 1, up.ttl, [up.rdata])]
    else exists i :: JoinedAt(was, now, up, i)
  }

  ghost predicate JoinedAt(was: RRSets, now: RRSets, up: RawRR, i: int) {
    && 0 <= i < |was| && was[i].rtype == up.rtype && (forall j :: 0 <= j < i ==> was[j].rtype != up.rtype)
    && var data := was[i].rdata + if up.rdata in was[i].rdata then [] else [up.rdata];
       now == was[i := RRSet(up.rtype, was[i].cls, up.ttl, data)]
  }

  /** Every set of the type was there with the same class and time to live, and at least the same data. */
  ghost predicate OnlyLess(was: RRSets, now: RRSets, t: U16) {
    forall s: RRSet :: s in now && s.rtype == t ==>
      exists o: RRSet :: o in was && o.rtype == t && o.cls == s.cls && o.ttl == s.ttl && s.rdata != []
                         && forall d :: d in s.rdata ==> d in o.rdata
  }

  /**
   What an operation with the given class, type, time to live and data does. Class 1 with data adds; class 255 without
   data and time drops a type, or, with type 255, everything; class 254 with data and without time drops one datum.
   Anything else does nothing.
   */
  ghost predicate Effect(was: RRSets, up: RawRR, now: RRSets) {
    var t := up.rtype;
    if up.cls == 1 && t != 255 && up.rdata != [] then
      && OthersKept(was, now, t) && Joined(was, now, up)
      && forall d :: HasData(now, t, d) <==> HasData(was, t, d) || d == up.rdata
    else if up.cls == 255 && t != 255 && up.ttl == 0 && up.rdata == [] then
      OthersKept(was, now, t) && forall s :: s in now ==> s.rtype != t
    else if up.cls == 255 && t == 255 && up.ttl == 0 && up.rdata == [] then now == []
    else if up.cls == 254 && t != 255 && up.ttl == 0 && up.rdata != [] then
      && OthersKept(was, now, t) && OnlyLess(was, now, t)
      && forall d :: HasData(now, t, d) <==> HasData(was, t, d) && d != up.rdata
    else now == was
  }

  lemma DataCons1(s: RRSet, rest: RRSets, t: U16, d: Bytes)
    ensures HasData([s] + rest, t, d) <==> (s.rtype == t && d in s.rdata) || HasData(rest, t, d)
  {
    var all := [s] + rest;
    if HasData(rest, t, d) {
      var i :| 0 <= i < |rest| && rest[i].rtype == t && d in rest[i].rdata;
      assert all[i + 1] == rest[i];
    }
    if s.rtype == t && d in s.rdata { assert all[0] == s; }
    if i :| 0 <= i < |all| && all[i].rtype == t && d in all[i].rdata {
      if i > 0 { assert all[i] == rest[i - 1]; }
    }
  }

  lemma {:induction false} AddEffect(sets: RRSets, up: RawRR)
    ensures var now, t := AddRecord(sets, up), up.rtype;
            && OthersKept(sets, now, t)
            && forall d :: HasData(now, t, d) <==> HasData(sets, t, d) || d == up.rdata
  {
    hide HasData;
    var now, t := AddRecord(sets, up), up.rtype;
    if sets == [] {
      assert now == [NewSet(up)] + [];
      forall d ensures HasData(now, t, d) <==> HasData(sets, t, d) || d == up.rdata {
        DataCons1(NewSet(up), [], t, d);
        NoData1(t, d);
      }
    } else {
      var s, rest := sets[0], sets[1..];
      assert sets == [s] + rest;
      if s.rtype == t {
        forall d ensures HasData(now, t, d) <==> HasData(sets, t, d) || d == up.rdata {
          DataCons1(s, rest, t, d);
          DataCons1(Grown(s, up), rest, t, d);
        }
      } else {
        AddEffect(rest, up);
        var after := AddRecord(rest, up);
        forall d ensures HasData(now, t, d) <==> HasData(sets, t, d) || d == up.rdata {
          DataCons1(s, rest, t, d);
          DataCons1(s, after, t, d);
        }
      }
    }
  }

  lemma {:induction false} AddJoins(sets: RRSets, up: RawRR)
    ensures Joined(sets, AddRecord(sets, up), up)
  {
    if sets == [] {
      assert [] + [NewSet(up)] == [NewSet(up)];
    } else {
      var s, rest := sets[0], sets[1..];
      assert sets == [s] + rest;
      if s.rtype == up.rtype {
        assert s.rdata + [] == s.rdata;
        assert JoinedAt(sets, AddRecord(sets, up), up, 0);
      } else {
        AddJoins(rest, up);
        var after := AddRecord(rest, up);
        if i :| JoinedAt(rest, after, up, i) {
          assert sets[i + 1] == rest[i];
          assert forall j :: 0 < j < i + 1 ==> sets[j] == rest[j - 1];
          assert JoinedAt(sets, [s] + after, up, i + 1);
        } else {
          assert forall j :: 0 < j < |sets| ==> sets[j] == rest[j - 1];
          assert [s] + (rest + [NewSet(up)]) == sets + [NewSet(up)];
        }
      }
    }
  }

  lemma NoData1(t: U16, d: Bytes)
    ensures !HasData([], t, d)
  {
  }

  lemma {:induction false} DropTypeEffect(sets: RRSets, t: U16)
    ensures var now := WithoutType(sets, t); OthersKept(sets, now, t) && forall s :: s in now ==> s.rtype != t
  {
    if sets != [] {
      DropTypeEffect(sets[1..], t);
      assert sets == [sets[0]] + sets[1..];
    }
  }

  lemma {:induction false} OthersAre(ds: seq<Bytes>, d: Bytes)
    ensures forall x :: x in Others(ds, d) <==> x in ds && x != d
  {
    if ds != [] {
      OthersAre(ds[1..], d);
      assert ds == [ds[0]] + ds[1..];
    }
  }

  lemma {:induction false} DropOneEffect(sets: RRSets, t: U16, x: Bytes)
    ensures var now := WithoutRecord(sets, t, x);
            && OthersKept(sets, now, t) && OnlyLess(sets, now, t)
            && forall d :: HasData(now, t, d) <==> HasData(sets, t, d) && d != x
  {
    hide HasData;
    if sets == [] {
      forall d ensures !HasData([], t, d) { NoData1(t, d); }
    } else {
      var s, rest := sets[0], sets[1..];
      assert sets == [s] + rest;
      DropOneEffect(rest, t, x);
      OthersAre(s.rdata, x);
      var left, after := Others(s.rdata, x), WithoutRecord(rest, t, x);
      forall d ensures HasData(WithoutRecord(sets, t, x), t, d) <==> HasData(sets, t, d) && d != x {
        DataCons1(s, rest, t, d);
        if s.rtype != t {
          DataCons1(s, after, t, d);
        } else if left != [] {
          DataCons1(s.(rdata := left), after, t, d);
        } else {
          assert [] + after == after;
          if d in s.rdata { assert d == x; }
        }
      }
      LessCons(s, rest, after, t, left);
    }
  }

  lemma LessCons(s: RRSet, rest: RRSets, after: RRSets, t: U16, left: seq<Bytes>)
    requires OnlyLess(rest, after, t) && forall d :: d in left ==> d in s.rdata
    ensures OnlyLess([s] + rest, after, t)
    ensures s.rtype != t ==> OnlyLess([s] + rest, [s] + after, t)
    ensures left != [] ==> OnlyLess([s] + rest, [s.(rdata := left)] + after, t)
  {
    assert s in [s] + rest;
    assert forall o :: o in rest ==> o in [s] + rest;
  }

  /** Every operation has the effect its fields call for. */
  lemma UpdateEffect(sets: RRSets, up: RawRR)
    ensures Effect(sets, up, UpdateSets(sets, up))
  {
    hide HasData, OthersKept, OnlyLess, Joined, AddRecord, WithoutType, WithoutRecord;
    AddJoins(sets, up);
    AddEffect(sets, up);
    DropTypeEffect(sets, up.rtype);
    DropOneEffect(sets, up.rtype, up.rdata);
  }

  // ---- a section of operations ----

  /** The records of one name after the operations on it, in the order given. */
  function Fold(sets: RRSets, ups: seq<RawRR>, name: Bytes): RRSets
    decreases |ups|
  {
    if ups == [] then sets
    else
      var n := |ups| - 1;
      var before := Fold(sets, ups[..n], name);
      if ups[n].name == name then UpdateSets(before, ups[n]) else before
  }

  function MeantFold(m: map<U16, TypeData>, ups: seq<RawRR>, name: Bytes): map<U16, TypeData>
    decreases |ups|
  {
    if ups == [] then m
    else
      var n := |ups| - 1;
      var before := MeantFold(m, ups[..n], name);
      if ups[n].name == name then Meant(before, ups[n]) else before
  }

  lemma FoldSnoc(sets: RRSets, ups: seq<RawRR>, up: RawRR, name: Bytes)
    ensures Fold(sets, ups + [up], name) ==
            if up.name == name then UpdateSets(Fold(sets, ups, name), up) else Fold(sets, ups, name)
  {
    assert (ups + [up])[..|ups|] == ups;
  }

  lemma {:induction false} FoldMeans(sets: RRSets, ups: seq<RawRR>, name: Bytes)
    requires Tidy(sets)
    ensures Tidy(Fold(sets, ups, name)) && Meaning(Fold(sets, ups, name)) == MeantFold(Meaning(sets), ups, name)
    decreases |ups|
  {
    hide Tidy, Meaning, UpdateSets, Meant;
    if ups != [] {
      var n := |ups| - 1;
      FoldMeans(sets, ups[..n], name);
      UpdateMeans(Fold(sets, ups[..n], name), ups[n]);
    }
  }

  lemma {:induction false} FoldUnnamed(sets: RRSets, ups: seq<RawRR>, name: Bytes)
    requires name !in NamesOf(ups)
    ensures Fold(sets, ups, name) == sets
    decreases |ups|
  {
    if ups != [] {
      assert ups[|ups| - 1] in ups;
      FoldUnnamed(sets, ups[..|ups| - 1], name);
    }
  }

  function NamesOf(ups: seq<RawRR>): set<Bytes> {
    set u | u in ups :: u.name
  }

  // ---- prerequisites ----

  type Store = map<Bytes, RRSets>

  function SetsAt(m: Store, name: Bytes): RRSets {
    if name in m then m[name] else []
  }

  /** Whether a well formed prerequisite holds of what a name means. */
  predicate Holds(m: map<U16, TypeData>, pr: RawRR) {
    if pr.cls == CLASS_ANY then if pr.rtype == TYPE_ANY then m != map[] else pr.rtype in m
    else if pr.cls == CLASS_NONE then if pr.rtype == TYPE_ANY then m == map[] else pr.rtype !in m
    else pr.rdata in DataAt(m, pr.rtype)
  }

  predicate WellFormed(pr: RawRR) {
    if pr.cls == CLASS_IN then pr.rtype != TYPE_ANY && pr.rdata != []
    else (pr.cls == CLASS_ANY || pr.cls == CLASS_NONE) && pr.rdata == []
  }

  /** The code for a well formed prerequisite that does not hold. */
  function Refusal(pr: RawRR): RCode {
    if pr.rtype == TYPE_ANY then if pr.cls == CLASS_ANY then NameError else YXDomain
    else if pr.cls == CLASS_NONE then YXRRSet
    else NXRRSet
  }

  /** Section 3.2 of RFC 2136, on what the name means. */
  function PrerequisiteCode(m: map<U16, TypeData>, pr: RawRR): RCode {
    if !WellFormed(pr) then FormatError else if Holds(m, pr) then Success else Refusal(pr)
  }

  function CodeAt(m: Store, pr: RawRR): RCode {
    PrerequisiteCode(Meaning(SetsAt(m, pr.name)), pr)
  }

  /** The code of the first prerequisite that does not hold. */
  function PrerequisitesCode(m: Store, prs: seq<RawRR>, i: nat): RCode
    requires i <= |prs|
    decreases |prs| - i
  {
    if i == |prs| then Success
    else if CodeAt(m, prs[i]) != Success then CodeAt(m, prs[i])
    else PrerequisitesCode(m, prs, i + 1)
  }

  predicate Satisfied(m: Store, pr: RawRR) {
    WellFormed(pr) && Holds(Meaning(SetsAt(m, pr.name)), pr)
  }

  /** A section succeeds exactly when all of it is well formed and holds, and else gives the first failure's code. */
  lemma {:induction false} PrerequisitesMean(m: Store, prs: seq<RawRR>, i: nat)
    requires i <= |prs|
    ensures PrerequisitesCode(m, prs, i) == Success <==> forall j :: i <= j < |prs| ==> Satisfied(m, prs[j])
    ensures PrerequisitesCode(m, prs, i) != Success ==>
              exists k :: i <= k < |prs| && !Satisfied(m, prs[k]) && PrerequisitesCode(m, prs, i) == CodeAt(m, prs[k])
                          && forall j :: i <= j < k ==> Satisfied(m, prs[j])
    decreases |prs| - i
  {
    hide Meaning, Holds, WellFormed;
    if i < |prs| { PrerequisitesMean(m, prs, i + 1); }
  }

  /** The first set of a type is what the type means, with or without further sets of that type. */
  lemma {:induction false} SearchMeans(sets: RRSets, t: U16)
    ensures Search(sets, t).Some? <==> t in Meaning(sets)
    ensures Search(sets, t).Some? ==> DataOf(Search(sets, t).value.rdata) == Meaning(sets)[t].data
    ensures sets == [] <==> Meaning(sets) == map[]
  {
    hide DataOf;
    if sets != [] {
      SearchMeans(sets[1..], t);
      assert sets[0].rtype in Meaning(sets);
    }
  }

  /** The name has records of the type. */
  ghost predicate HasType(sets: RRSets, t: U16) {
    exists i :: 0 <= i < |sets| && sets[i].rtype == t
  }

  /** The first set of the type has the datum. */
  ghost predicate FirstHas(sets: RRSets, t: U16, d: Bytes) {
    exists i :: FirstAt(sets, t, i) && d in sets[i].rdata
  }

  ghost predicate FirstAt(sets: RRSets, t: U16, i: int) {
    0 <= i < |sets| && sets[i].rtype == t && forall j :: 0 <= j < i ==> sets[j].rtype != t
  }

  /** The five prerequisites of section 2.4 of RFC 2136 by the numbers of class and type, and their codes. */
  ghost predicate Decided(sets: RRSets, pr: RawRR, code: RCode) {
    if pr.cls == 255 && pr.rdata == [] then
      if pr.rtype == 255 then code == if sets == [] then NameError else Success
      else code == if HasType(sets, pr.rtype) then Success else NXRRSet
    else if pr.cls == 254 && pr.rdata == [] then
      if pr.rtype == 255 then code == if sets == [] then Success else YXDomain
      else code == if HasType(sets, pr.rtype) then YXRRSet else Success
    else if pr.cls == 1 && pr.rtype != 255 && pr.rdata != [] then
      code == if FirstHas(sets, pr.rtype, pr.rdata) then Success else NXRRSet
    else code == FormatError
  }

  lemma {:induction false} SearchFinds(sets: RRSets, t: U16, d: Bytes)
    ensures Search(sets, t).Some? <==> HasType(sets, t)
    ensures Search(sets, t).Some? && d in Search(sets, t).value.rdata <==> FirstHas(sets, t, d)
  {
    if sets != [] {
      var rest := sets[1..];
      assert forall j :: 0 < j < |sets| ==> sets[j] == rest[j - 1];
      if sets[0].rtype == t {
        assert FirstAt(sets, t, 0);
      } else {
        SearchFinds(rest, t, d);
        if i :| FirstAt(rest, t, i) && d in rest[i].rdata {
          assert FirstAt(sets, t, i + 1) && sets[i + 1] == rest[i];
        }
        if i :| FirstAt(sets, t, i) && d in sets[i].rdata {
          assert FirstAt(rest, t, i - 1) && sets[i] == rest[i - 1];
        }
        if i :| 0 <= i < |rest| && rest[i].rtype == t { assert sets[i + 1] == rest[i]; }
      }
    }
  }

  /** Every prerequisite gets the code its fields and the records of its name call for. */
  lemma PrerequisiteDecided(sets: RRSets, pr: RawRR)
    ensures Decided(sets, pr, PrerequisiteCode(Meaning(sets), pr))
  {
    hide Meaning, HasType, FirstHas, Holds;
    SearchFinds(sets, pr.rtype, pr.rdata);
    PrerequisiteMeans(sets, pr);
  }

  /** Searching the sets for a type and a datum decides what a prerequisite asks. */
  lemma PrerequisiteMeans(sets: RRSets, pr: RawRR)
    ensures var s := Search(sets, pr.rtype); var known := s.Some? && pr.rdata in s.value.rdata;
            Holds(Meaning(sets), pr) <==>
              if pr.cls == CLASS_ANY then if pr.rtype == TYPE_ANY then sets != [] else s.Some?
              else if pr.cls == CLASS_NONE then if pr.rtype == TYPE_ANY then sets == [] else s.None?
              else known
  {
    hide Meaning;
    SearchMeans(sets, pr.rtype);
  }
}
