/**
 A condition on an update section, to be checked before it is written, under which the order of writing
 (internal/rfc2136/update.go) does not matter even to the serials the store raises (internal/store/batch.go).
 */
module CalmSections {
  import opened Octets
  import opened Records
  import opened Names
  import opened Zones
  import opened Operations
  import opened Tries
  import opened Resolution
  import opened SoaRecords
  import opened ZoneSerials
  import opened SerialLifts
  import opened WriteOrder

  /** Neither a delegation nor an apex. */
  predicate Interior(sets: RRSets) {
    !Has(sets, TYPE_NS) && !Has(sets, TYPE_SOA)
  }

  /** No answer to an SOA query. */
  predicate Silent(sets: RRSets) {
    !Has(sets, TYPE_SOA) && !Has(sets, TYPE_CNAME)
  }

  function StarAt(p: Path, i: nat): Path
    requires i <= |p|
  {
    p[..i] + [WILD]
  }

  /**
   No pending name above e is or becomes a delegation or an apex, and, unless e is stored, no wildcard above e has or
   gets an SOA or CNAME.
   */
  ghost predicate CalmName(m: Zone, final: Pendings, e: Bytes) {
    var p := PathOf(e);
    && (forall d :: d in final && PathOf(d) < p ==> Interior(RecordsAt(m, PathOf(d))) && Interior(final[d]))
    && (p in m || forall i :: 0 <= i < |p| ==> CalmStar(m, final, StarAt(p, i)))
  }

  ghost predicate CalmStar(m: Zone, final: Pendings, star: Path) {
    Silent(RecordsAt(m, star)) && forall d :: d in final && PathOf(d) == star ==> Silent(final[d])
  }

  /** The names are different paths, and every one that brings no serial of its own is calm. */
  ghost predicate Calm(m: Zone, final: Pendings) {
    && (forall d, e :: d in final && e in final && PathOf(d) == PathOf(e) ==> d == e)
    && (forall e :: e in final && !HasSerial(final[e]) ==> CalmName(m, final, e))
  }

  // ---- in between ----

  /** Different pending names. */
  ghost predicate Picked(final: Pendings, xs: seq<Bytes>) {
    (forall i :: 0 <= i < |xs| ==> xs[i] in final) && forall i, j :: 0 <= i < j < |xs| ==> xs[i] != xs[j]
  }

  /** Part of the way through, a path has what it had or what its name was left with. */
  lemma StateAt(m: Zone, final: Pendings, xs: seq<Bytes>, p: Path)
    requires Picked(final, xs)
    ensures var s := ApplyAll(m, Writes(final, xs));
            || ((forall d :: d in xs ==> PathOf(d) != p) && (p in s <==> p in m) && RecordsAt(s, p) == RecordsAt(m, p))
            || exists d :: d in xs && PathOf(d) == p && RecordsAt(s, p) == final[d]
  {
    hide PathOf, ApplyAll, Final, Writes;
    ApplyAllAt(m, Writes(final, xs), p);
    FinalOfWrites(final, xs, p);
  }

  lemma RoleSelf(a: RRSets)
    ensures SameRole(a, a)
  {
  }

  lemma InteriorRole(a: RRSets, b: RRSets)
    requires Interior(a) && Interior(b)
    ensures SameRole(a, b)
  {
  }

  lemma RolesKept(m: Zone, final: Pendings, xs: seq<Bytes>, e: Bytes, i: nat)
    requires Calm(m, final) && Picked(final, xs) && e in final && e !in xs && !HasSerial(final[e]) && i <= |PathOf(e)|
    ensures var r := PathOf(e)[..i]; SameRole(RecordsAt(m, r), RecordsAt(ApplyAll(m, Writes(final, xs)), r))
  {
    hide PathOf, ApplyAll, Writes, SameRole, Interior, CalmStar, HasSerial;
    var p := PathOf(e);
    var r := p[..i];
    var s := ApplyAll(m, Writes(final, xs));
    StateAt(m, final, xs, r);
    RoleSelf(RecordsAt(m, r));
    if d :| d in xs && PathOf(d) == r && RecordsAt(s, r) == final[d] {
      assert r != p && r < p;
      InteriorRole(RecordsAt(m, r), final[d]);
    }
  }

  lemma StarsKept(m: Zone, final: Pendings, xs: seq<Bytes>, star: Path)
    requires Picked(final, xs) && CalmStar(m, final, star)
    ensures Silent(RecordsAt(ApplyAll(m, Writes(final, xs)), star))
  {
    hide PathOf, ApplyAll, Writes, Silent;
    StateAt(m, final, xs, star);
  }

  /** Without a stored name and with silent wildcards nothing answers. */
  lemma NobodyAnswers(m: Zone, e: Bytes)
    requires var p := PathOf(e); p !in m && forall i :: 0 <= i < |p| ==> Silent(RecordsAt(m, StarAt(p, i)))
    ensures !Answered(m, e)
  {
    hide Under, DeepestStar, QueryHops, PathOf, Silent;
    HopsArePath(e);
    var q := Query(e, TYPE_SOA);
    var p, hs := PathOf(e), QueryHops(q);
    assert Silent([]) by { NothingSilent(); }
    assert Silent(Answering(m, q)) by {
      var star := DeepestStar(m, hs, |p|);
      if star.Some? { assert At(hs, star.value) + [WILD] == StarAt(p, star.value); }
    }
    SilentMeans(Answering(m, q));
  }

  lemma NothingSilent()
    ensures Silent([])
  {
  }

  lemma SilentMeans(sets: RRSets)
    requires Silent(sets)
    ensures !Has(sets, TYPE_SOA) && !Has(sets, TYPE_CNAME)
  {
  }

  lemma StoredAnswers(m: Zone, e: Bytes)
    requires PathOf(e) in m
    ensures Answering(m, Query(e, TYPE_SOA)) == m[PathOf(e)]
  {
    hide PathOf, StarRecords;
    HopsArePath(e);
    StoredIsUnder(m, PathOf(e));
  }

  /** Its turn does not matter to the apex a calm name raises. */
  lemma CalmApex(m: Zone, final: Pendings, xs: seq<Bytes>, e: Bytes)
    requires Calm(m, final) && Picked(final, xs) && e in final && e !in xs && !HasSerial(final[e])
    ensures EnclosingApex(ApplyAll(m, Writes(final, xs)), e) == EnclosingApex(m, e)
  {
    hide PathOf, ApplyAll, Writes, SameRole, EnclosingApex, Answering, Interior, Silent, Has, HasSerial;
    var p := PathOf(e);
    var s := ApplyAll(m, Writes(final, xs));
    forall i | 0 <= i <= |p| ensures SameRole(RecordsAt(m, p[..i]), RecordsAt(s, p[..i])) {
      RolesKept(m, final, xs, e, i);
    }
    StateAt(m, final, xs, p);
    assert (p in s <==> p in m) && RecordsAt(s, p) == RecordsAt(m, p);
    if p in m {
      StoredAnswers(m, e);
      StoredAnswers(s, e);
    } else {
      forall i | 0 <= i < |p| ensures Silent(RecordsAt(s, StarAt(p, i))) {
        assert CalmStar(m, final, StarAt(p, i));
        StarsKept(m, final, xs, StarAt(p, i));
      }
      NobodyAnswers(m, e);
      NobodyAnswers(s, e);
    }
    ApexFrom(m, s, e);
  }

  lemma CalmRaises(m: Zone, final: Pendings, xs: seq<Bytes>, e: Bytes, p: Path)
    requires Calm(m, final) && Picked(final, xs) && e in final && e !in xs
    ensures Raises(ApplyAll(m, Writes(final, xs)), WriteOf(final, e), p) <==> Raises(m, WriteOf(final, e), p)
    ensures (exists d :: d in final && PathOf(d) == p) ==> !Raises(m, WriteOf(final, e), p)
  {
    hide PathOf, ApplyAll, Writes, EnclosingApex, CalmName, FirstSoa;
    var op := WriteOf(final, e);
    assert HasSerial(final[e]) <==> op.Upsert? && HasSerial(op.sets) by { EmptySerial(); }
    if !HasSerial(final[e]) { CalmApex(m, final, xs, e); }
    if d :| d in final && PathOf(d) == p && Raises(m, op, p) {
      RaisesStored(m, op, p);
      PendingInterior(m, final, d, e);
      SerialSoa(m[p]);
    }
  }

  lemma EmptySerial()
    ensures !HasSerial([])
  {
  }

  lemma SerialSoa(sets: RRSets)
    requires HasSerial(sets)
    ensures !Interior(sets)
  {
  }

  lemma PendingInterior(m: Zone, final: Pendings, d: Bytes, e: Bytes)
    requires Calm(m, final) && d in final && e in final && !HasSerial(final[e]) && PathOf(d) < PathOf(e)
    ensures Interior(RecordsAt(m, PathOf(d)))
  {
    hide PathOf, Interior, CalmStar, HasSerial;
    assert CalmName(m, final, e);
  }

  // ---- counting ----

  /** The names among xs that raise p. */
  ghost function Raisers(m: Zone, final: Pendings, xs: seq<Bytes>, p: Path): set<Bytes>
    requires Picked(final, xs)
  {
    set d | d in xs && Raises(m, WriteOf(final, d), p)
  }

  /** A pending path is lifted by its own write alone, another once for every name that raises it. */
  ghost function CalmCount(m: Zone, final: Pendings, xs: seq<Bytes>, p: Path): nat
    requires Picked(final, xs)
  {
    if exists d :: d in xs && PathOf(d) == p && final[d] != [] then 1 else |Raisers(m, final, xs, p)|
  }

  lemma {:induction false} CalmLifts(m: Zone, final: Pendings, xs: seq<Bytes>, p: Path)
    requires Calm(m, final) && Picked(final, xs)
    ensures Lifts(m, Writes(final, xs), p) == CalmCount(m, final, xs, p)
    decreases |xs|
  {
    hide PathOf, ApplyAll, Calm, Raises, CalmCount;
    if xs == [] {
      NoCount(m, final, p);
    } else {
      var n := |xs| - 1;
      var before, e := xs[..n], xs[n];
      assert e !in before;
      CalmLifts(m, final, before, p);
      CalmRaises(m, final, before, e, p);
      assert Writes(final, xs)[..n] == Writes(final, before);
      CalmStep(m, final, xs, p);
    }
  }

  lemma NoCount(m: Zone, final: Pendings, p: Path)
    ensures CalmCount(m, final, [], p) == 0
  {
    assert Raisers(m, final, [], p) == {};
  }

  lemma NoOtherRaises(m: Zone, final: Pendings, xs: seq<Bytes>, p: Path)
    requires Calm(m, final) && Picked(final, xs)
    ensures (exists d :: d in xs && PathOf(d) == p) ==> Raisers(m, final, xs, p) == {}
  {
    hide PathOf, Calm, Raises;
    if d :| d in xs && PathOf(d) == p {
      forall e | e in xs ensures !Raises(m, WriteOf(final, e), p) {
        assert e !in [];
        CalmRaises(m, final, [], e, p);
      }
    }
  }

  lemma CalmStep(m: Zone, final: Pendings, xs: seq<Bytes>, p: Path)
    requires Calm(m, final) && Picked(final, xs) && xs != []
    ensures var n := |xs| - 1; var e := xs[n];
            CalmCount(m, final, xs, p) ==
            if PathOf(e) == p then One(final[e] != [])
            else CalmCount(m, final, xs[..n], p) + One(Raises(m, WriteOf(final, e), p))
  {
    hide PathOf, Raises, CalmName, HasSerial;
    var n := |xs| - 1;
    var before, e := xs[..n], xs[n];
    assert e !in before;
    assert forall d :: d in xs <==> d in before || d == e;
    NoOtherRaises(m, final, xs, p);
    if Raises(m, WriteOf(final, e), p) {
      assert Raisers(m, final, xs, p) == Raisers(m, final, before, p) + {e};
    } else {
      assert Raisers(m, final, xs, p) == Raisers(m, final, before, p);
    }
  }

  lemma CalmSame(m: Zone, final: Pendings, x: seq<Bytes>, y: seq<Bytes>, p: Path)
    requires Calm(m, final) && OrderOf(x, final.Keys) && OrderOf(y, final.Keys)
    ensures Lifts(m, Writes(final, x), p) == Lifts(m, Writes(final, y), p)
  {
    hide PathOf, Writes, Lifts, Calm, Raises;
    CalmLifts(m, final, x, p);
    CalmLifts(m, final, y, p);
    assert forall d :: d in x <==> d in y;
    assert Raisers(m, final, x, p) == Raisers(m, final, y, p);
  }

  /** Calm sections leave the same tree in every order, serials included. */
  lemma CalmOrders(m: Zone, final: Pendings)
    requires Calm(m, final)
    ensures OrderFree(m, final)
  {
    hide PathOf, ApplyAll, Writes, Lifts, CalmName, Movable, HasSerial, OrderFree;
    OrderFreeIff(m, final);
    forall x, y, p | OrderOf(x, final.Keys) && OrderOf(y, final.Keys)
      ensures SameCount(m, Writes(final, x), Writes(final, y), p)
    {
      CalmSame(m, final, x, y, p);
    }
  }
}
