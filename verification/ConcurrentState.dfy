/**
 The cached state with its calls split at every shared access (internal/state): readers look up,
 load a tree version, and store; a writer publishes versions, then clears shard after shard.
 */
module ConcurrentState {
  import opened Octets
  import opened Records
  import opened Tries
  import opened Resolution
  import opened Lru
  import AnswerCache
  import opened CachedState

  /** A reader has missed and loaded a version; Asking is a reader that has not looked yet. */
  datatype Reader = Asking(q: Query) | Loaded(q: Query, version: nat)

  datatype Held = Held(key: Key, value: RRSet)
  datatype Answered = Answered(q: Query, result: Result)

  /** How many shards the writer has cleared since its last publication. */
  datatype Phase = Quiet | Clearing(n: nat)

  datatype Sys = Sys(
    versions: seq<Trie>, held: set<Held>, readers: map<nat, Reader>, phase: Phase, answers: seq<Answered>)

  datatype Step =
    | Ask(id: nat, q: Query)
    | Hit(id: nat, value: RRSet)
    | Load(id: nat)
    | Finish(id: nat)
    | Evict(h: Held)
    | Publish(t: Trie)
    | ClearShard

  type Route = Key -> nat

  predicate Can(s: Sys, step: Step) {
    match step
    case Ask(id, _) => id !in s.readers
    case Hit(id, value) => id in s.readers && s.readers[id].Asking? && Held(KeyOf(s.readers[id].q), value) in s.held
    case Load(id) => id in s.readers && s.readers[id].Asking? && s.versions != []
    case Finish(id) => id in s.readers && s.readers[id].Loaded? && s.readers[id].version < |s.versions|
    case Evict(_) => true
    // The writer holds its lock until every shard is cleared; one batch may publish several versions.
    case Publish(_) => s.phase == Quiet || s.phase == Clearing(0)
    case ClearShard => s.phase.Clearing?
  }

  /** What the cache holds after storing an answer: a duration of zero removes the key. */
  function Stored(held: set<Held>, k: Key, r: Result): set<Held> {
    if !(r.rcode == Success && r.HasAnswer()) then held
    else
      var others := set h | h in held && h.key != k;
      if r.answer.ttl == 0 then others else others + {Held(k, r.answer)}
  }

  function After(s: Sys, step: Step, route: Route): Sys
    requires Can(s, step)
  {
    match step
    case Ask(id, q) => s.(readers := s.readers[id := Asking(q)])
    case Hit(id, value) =>
      s.(readers := s.readers - {id}, answers := s.answers + [Answered(s.readers[id].q, Positive(value))])
    case Load(id) => s.(readers := s.readers[id := Loaded(s.readers[id].q, |s.versions| - 1)])
    case Finish(id) =>
      var q := s.readers[id].q;
      var r := ResolveTrie(s.versions[s.readers[id].version], q);
      s.(readers := s.readers - {id}, answers := s.answers + [Answered(q, r)], held := Stored(s.held, KeyOf(q), r))
    case Evict(h) => s.(held := s.held - {h})
    case Publish(t) => s.(versions := s.versions + [t], phase := Clearing(0))
    case ClearShard =>
      var n := s.phase.n;
      s.(held := (set h | h in s.held && route(h.key) != n),
         phase := if n + 1 == AnswerCache.SHARD_COUNT then Quiet else Clearing(n + 1))
  }

  function Start(t: Trie): Sys {
    Sys([t], {}, map[], Quiet, [])
  }

  ghost predicate IsRun(s: Sys, steps: seq<Step>, route: Route)
    decreases |steps|
  {
    steps == [] || (Can(s, steps[0]) && IsRun(After(s, steps[0], route), steps[1..], route))
  }

  function EndOf(s: Sys, steps: seq<Step>, route: Route): Sys
    requires IsRun(s, steps, route)
    decreases |steps|
  {
    if steps == [] then s else EndOf(After(s, steps[0], route), steps[1..], route)
  }

  // ---- every answer was some version's answer ----

  ghost predicate GaveAnswer(versions: seq<Trie>, a: Answered) {
    exists i :: 0 <= i < |versions| && ResolveTrie(versions[i], a.q) == a.result
  }

  ghost predicate FromSome(versions: seq<Trie>, h: Held) {
    exists i :: 0 <= i < |versions| && Right(versions[i], h.key, h.value)
  }

  ghost predicate Honest(s: Sys) {
    && s.versions != []
    && (forall h :: h in s.held ==> FromSome(s.versions, h))
    && (forall id :: id in s.readers && s.readers[id].Loaded? ==> s.readers[id].version < |s.versions|)
    && (forall i :: 0 <= i < |s.answers| ==> GaveAnswer(s.versions, s.answers[i]))
  }

  lemma MoreVersions(versions: seq<Trie>, t: Trie)
    ensures forall h :: FromSome(versions, h) ==> FromSome(versions + [t], h)
    ensures forall a :: GaveAnswer(versions, a) ==> GaveAnswer(versions + [t], a)
  {
    hide ResolveTrie, Right;
    forall h | FromSome(versions, h) ensures FromSome(versions + [t], h) {
      var i :| 0 <= i < |versions| && Right(versions[i], h.key, h.value);
      assert (versions + [t])[i] == versions[i];
    }
    forall a | GaveAnswer(versions, a) ensures GaveAnswer(versions + [t], a) {
      var i :| 0 <= i < |versions| && ResolveTrie(versions[i], a.q) == a.result;
      assert (versions + [t])[i] == versions[i];
    }
  }

  lemma HeldAnswers(versions: seq<Trie>, q: Query, value: RRSet)
    requires FromSome(versions, Held(KeyOf(q), value))
    ensures GaveAnswer(versions, Answered(q, Positive(value)))
  {
    hide ResolveTrie;
    var i :| 0 <= i < |versions| && Right(versions[i], KeyOf(q), value);
    RightForAllSpellings(versions[i], q, value);
    assert ResolveTrie(versions[i], q) == Positive(value);
  }

  lemma StoredRight(t: Trie, q: Query)
    requires ResolveTrie(t, q).HasAnswer()
    ensures Right(t, KeyOf(q), ResolveTrie(t, q).answer)
  {
    hide ResolveTrie;
    AnswersArePositive(t, q);
    RightForAllSpellings(t, q, ResolveTrie(t, q).answer);
  }

  lemma StepHonest(s: Sys, step: Step, route: Route)
    requires Honest(s) && Can(s, step)
    ensures Honest(After(s, step, route))
  {
    hide ResolveTrie, Right, FromSome, GaveAnswer;
    match step
    case Hit(id, value) => HeldAnswers(s.versions, s.readers[id].q, value);
    case Publish(t) => MoreVersions(s.versions, t);
    case Finish(id) =>
      var q, i := s.readers[id].q, s.readers[id].version;
      FinishHonest(s.versions, i, q);
    case _ =>
  }

  lemma FinishHonest(versions: seq<Trie>, i: nat, q: Query)
    requires i < |versions|
    ensures var r := ResolveTrie(versions[i], q);
            GaveAnswer(versions, Answered(q, r)) && (r.HasAnswer() ==> FromSome(versions, Held(KeyOf(q), r.answer)))
  {
    hide ResolveTrie, Right;
    var r := ResolveTrie(versions[i], q);
    assert ResolveTrie(versions[i], q) == r;
    if r.HasAnswer() { StoredRight(versions[i], q); }
  }

  /** However the steps interleave, every answer is one that some published version gave. */
  lemma {:induction false} RunHonest(s: Sys, steps: seq<Step>, route: Route)
    requires Honest(s) && IsRun(s, steps, route)
    ensures Honest(EndOf(s, steps, route))
    decreases |steps|
  {
    hide Honest, After;
    if steps != [] {
      StepHonest(s, steps[0], route);
      RunHonest(After(s, steps[0], route), steps[1..], route);
    }
  }

  lemma EveryAnswerWasGiven(t: Trie, steps: seq<Step>, route: Route, i: nat)
    requires IsRun(Start(t), steps, route) && i < |EndOf(Start(t), steps, route).answers|
    ensures var e := EndOf(Start(t), steps, route); GaveAnswer(e.versions, e.answers[i])
  {
    RunHonest(Start(t), steps, route);
  }

  // ---- when answers are current ----

  function Current(s: Sys): Trie
    requires s.versions != []
  {
    s.versions[|s.versions| - 1]
  }

  /** The cache no longer needs clearing for this key. */
  predicate Swept(s: Sys, k: Key, route: Route) {
    s.phase.Quiet? || route(k) < s.phase.n
  }

  /** What has been swept holds the current version's answers. */
  ghost predicate SweptRight(s: Sys, route: Route) {
    s.versions != [] && forall h :: h in s.held && Swept(s, h.key, route) ==> Right(Current(s), h.key, h.value)
  }

  /** An answer that goes into the cache. */
  predicate Cached(r: Result) {
    r.rcode == Success && r.HasAnswer() && r.answer.ttl > 0
  }

  /**
   What a step must meet: a reader that stores under a swept key has loaded a version whose answer is not cached or is
   the current version's answer.
   */
  ghost predicate Timely(s: Sys, step: Step, route: Route)
    requires s.versions != [] && Can(s, step)
  {
    step.Finish? && Swept(s, KeyOf(s.readers[step.id].q), route) ==>
      var q := s.readers[step.id].q;
      var r := ResolveTrie(s.versions[s.readers[step.id].version], q);
      Cached(r) ==> r == ResolveTrie(Current(s), q)
  }

  /** The cache changes by a finished lookup at its own key, an eviction and a clearing, and by nothing else. */
  lemma HeldAfter(s: Sys, step: Step, route: Route, h: Held)
    requires Can(s, step)
    ensures h in After(s, step, route).held <==>
            match step
            case Finish(id) =>
              var r := ResolveTrie(s.versions[s.readers[id].version], s.readers[id].q);
              if h.key == KeyOf(s.readers[id].q) && r.rcode == Success && r.HasAnswer()
              then r.answer.ttl > 0 && h.value == r.answer else h in s.held
            case Evict(g) => h in s.held && h != g
            case ClearShard => h in s.held && route(h.key) != s.phase.n
            case _ => h in s.held
  {
    hide ResolveTrie;
  }

  /** A store under a swept key keeps what is swept right if and only if it is timely. */
  lemma FinishExactly(s: Sys, id: nat, route: Route)
    requires SweptRight(s, route) && Can(s, Finish(id))
    ensures SweptRight(After(s, Finish(id), route), route) <==> Timely(s, Finish(id), route)
  {
    hide ResolveTrie, Right;
    var q := s.readers[id].q;
    var r := ResolveTrie(s.versions[s.readers[id].version], q);
    var e := After(s, Finish(id), route);
    if r.HasAnswer() {
      AnswersArePositive(s.versions[s.readers[id].version], q);
      RightForAllSpellings(Current(s), q, r.answer);
    }
    if Cached(r) {
      assert Held(KeyOf(q), r.answer) in e.held;
    }
  }

  /** Every other step keeps it, publications and clearings included. */
  lemma StepRight(s: Sys, step: Step, route: Route)
    requires SweptRight(s, route) && Can(s, step) && forall k :: route(k) < AnswerCache.SHARD_COUNT
    ensures SweptRight(After(s, step, route), route) <==> Timely(s, step, route)
  {
    hide ResolveTrie, Right;
    match step
    case Finish(id) => FinishExactly(s, id, route);
    case _ =>
  }

  ghost predicate AllTimely(s: Sys, steps: seq<Step>, route: Route)
    requires s.versions != [] && IsRun(s, steps, route)
    decreases |steps|
  {
    steps == [] || (Timely(s, steps[0], route) && AllTimely(After(s, steps[0], route), steps[1..], route))
  }

  ghost predicate AlwaysRight(s: Sys, steps: seq<Step>, route: Route)
    requires IsRun(s, steps, route)
    decreases |steps|
  {
    SweptRight(s, route) && (steps == [] || AlwaysRight(After(s, steps[0], route), steps[1..], route))
  }

  /** Through a whole run, of any steps, the swept part of the cache is current if and only if every store is timely. */
  lemma {:induction false} RunRightIff(s: Sys, steps: seq<Step>, route: Route)
    requires SweptRight(s, route) && IsRun(s, steps, route) && forall k :: route(k) < AnswerCache.SHARD_COUNT
    ensures AlwaysRight(s, steps, route) <==> AllTimely(s, steps, route)
    decreases |steps|
  {
    hide Can, Timely, Right;
    if steps != [] {
      StepRight(s, steps[0], route);
      var s' := After(s, steps[0], route);
      if SweptRight(s', route) { RunRightIff(s', steps[1..], route); }
    }
  }

  // ---- fresh states ----

  /** No reader is left that loaded an older version, and what has been swept is the current version's. */
  ghost predicate Fresh(s: Sys, route: Route) {
    && SweptRight(s, route)
    && (forall id :: id in s.readers && s.readers[id].Loaded? ==> s.readers[id].version == |s.versions| - 1)
  }

  /** A publication made while no reader has a version loaded starts out fresh. */
  lemma PublishFresh(s: Sys, t: Trie, route: Route)
    requires Can(s, Publish(t)) && forall id :: id in s.readers ==> s.readers[id].Asking?
    ensures Fresh(After(s, Publish(t), route), route)
  {
  }

  /** The reader of a hit asks for a swept key. */
  ghost predicate HitsSwept(s: Sys, step: Step, route: Route)
    requires Can(s, step)
  {
    step.Hit? ==> Swept(s, KeyOf(s.readers[step.id].q), route)
  }

  /** Until the next publication a fresh state stays fresh, and swept keys are answered with the current version. */
  lemma StepFresh(s: Sys, step: Step, route: Route)
    requires Fresh(s, route) && Can(s, step) && !step.Publish?
    requires forall k :: route(k) < AnswerCache.SHARD_COUNT
    ensures
      var e := After(s, step, route);
      && Fresh(e, route) && e.versions == s.versions && s.answers <= e.answers
      && (HitsSwept(s, step, route) ==>
            forall i :: |s.answers| <= i < |e.answers| ==>
                e.answers[i].result == ResolveTrie(Current(s), e.answers[i].q))
  {
    hide ResolveTrie, Right;
    StepRight(s, step, route);
    if step.Hit? && HitsSwept(s, step, route) {
      var q := s.readers[step.id].q;
      assert Right(Current(s), KeyOf(q), step.value);
      HitIsAnswer(Current(s), q, step.value);
    }
  }

  ghost predicate AllHitsSwept(s: Sys, steps: seq<Step>, route: Route)
    requires IsRun(s, steps, route)
    decreases |steps|
  {
    steps == [] || (HitsSwept(s, steps[0], route) && AllHitsSwept(After(s, steps[0], route), steps[1..], route))
  }

  ghost predicate NoPublication(steps: seq<Step>) {
    forall i :: 0 <= i < |steps| ==> !steps[i].Publish?
  }

  lemma FreshHasVersion(s: Sys, route: Route)
    requires Fresh(s, route)
    ensures s.versions != []
  {
  }

  /**
   From a fresh state on, through any run without a publication, the state stays fresh and every answer given to a
   swept key, from the cache or from the tree, is the current version's.
   */
  lemma {:induction false} FreshRun(s: Sys, steps: seq<Step>, route: Route)
    requires Fresh(s, route) && IsRun(s, steps, route) && NoPublication(steps) && AllHitsSwept(s, steps, route)
    requires forall k :: route(k) < AnswerCache.SHARD_COUNT
    ensures
      var e := EndOf(s, steps, route);
      && Fresh(e, route) && e.versions == s.versions && s.answers <= e.answers
      && forall i :: |s.answers| <= i < |e.answers| ==> e.answers[i].result == ResolveTrie(Current(s), e.answers[i].q)
    decreases |steps|
  {
    hide Can, After, Fresh, HitsSwept, ResolveTrie;
    FreshHasVersion(s, route);
    if steps != [] {
      StepFresh(s, steps[0], route);
      var s' := After(s, steps[0], route);
      FreshRun(s', steps[1..], route);
      var e := EndOf(s', steps[1..], route);
      forall i | |s.answers| <= i < |e.answers| ensures e.answers[i].result == ResolveTrie(Current(s), e.answers[i].q) {
        if i < |s'.answers| { assert e.answers[i] == s'.answers[i]; }
      }
    }
  }

  /** Once the clearing is over every key is swept, so nothing is asked of the hits. */
  lemma {:induction false} QuietHits(s: Sys, steps: seq<Step>, route: Route)
    requires s.phase.Quiet? && IsRun(s, steps, route) && NoPublication(steps)
    ensures AllHitsSwept(s, steps, route)
    decreases |steps|
  {
    hide ResolveTrie;
    if steps != [] { QuietHits(After(s, steps[0], route), steps[1..], route); }
  }

  // ---- and when they are not ----

  lemma {:induction false} RunAppend(s: Sys, a: seq<Step>, b: seq<Step>, route: Route)
    requires IsRun(s, a, route) && IsRun(EndOf(s, a, route), b, route)
    ensures IsRun(s, a + b, route) && EndOf(s, a + b, route) == EndOf(EndOf(s, a, route), b, route)
    decreases |a|
  {
    hide Can, After;
    if a == [] {
      assert a + b == b;
    } else {
      RunAppend(After(s, a[0], route), a[1..], b, route);
      assert (a + b)[1..] == a[1..] + b;
    }
  }

  lemma RunOfThree(s: Sys, a: Step, b: Step, c: Step, route: Route)
    requires Can(s, a) && Can(After(s, a, route), b) && Can(After(After(s, a, route), b, route), c)
    ensures IsRun(s, [a, b, c], route)
    ensures EndOf(s, [a, b, c], route) == After(After(After(s, a, route), b, route), c, route)
  {
    hide Can, After;
    var s1 := After(s, a, route);
    var s2 := After(s1, b, route);
    assert [a, b, c][1..] == [b, c] && [b, c][1..] == [c] && [c][1..] == [];
    assert IsRun(After(s2, c, route), [], route);
    assert IsRun(s2, [c], route) && EndOf(s2, [c], route) == After(s2, c, route);
    assert IsRun(s1, [b, c], route) && EndOf(s1, [b, c], route) == EndOf(s2, [c], route);
  }

  function Clears(n: nat): seq<Step> {
    if n == 0 then [] else [ClearShard] + Clears(n - 1)
  }

  lemma {:induction false} SweepsClean(s: Sys, n: nat, route: Route)
    requires s.phase == Clearing(n) && n < AnswerCache.SHARD_COUNT && s.held == {}
    ensures var k := AnswerCache.SHARD_COUNT - n;
            IsRun(s, Clears(k), route) && EndOf(s, Clears(k), route) == s.(phase := Quiet)
    decreases AnswerCache.SHARD_COUNT - n
  {
    var k := AnswerCache.SHARD_COUNT - n;
    var s' := After(s, ClearShard, route);
    assert s'.held == {};
    assert Clears(k)[1..] == Clears(k - 1);
    if n + 1 < AnswerCache.SHARD_COUNT { SweepsClean(s', n + 1, route); }
  }

  /**
   The condition on readers is needed: one that loaded a version before a publication and stores after
   the clearing leaves an old answer behind, which a later reader is given though no writer is at work.
   */
  lemma StaleAnswer(a: RRSet, route: Route) returns (steps: seq<Step>)
    requires a.rdata != [] && a.rtype != TYPE_NS && a.rtype != TYPE_SOA && a.ttl > 0
    ensures
      var q := Query([], a.rtype); var s := Start(EMPTY.(rr := [a]));
      && IsRun(s, steps, route)
      && var e := EndOf(s, steps, route);
      e.phase == Quiet && e.versions == [EMPTY.(rr := [a]), EMPTY] && e.readers == map[]
      && |e.answers| == 2 && e.answers[1] == Answered(q, Positive(a)) && ResolveTrie(EMPTY, q) != Positive(a)
  {
    hide ResolveTrie, IsRun, EndOf;
    var q, s := Query([], a.rtype), Start(EMPTY.(rr := [a]));
    OneRecord(a);
    RunOfThree(s, Ask(0, q), Load(0), Publish(EMPTY), route);
    var s1 := Sys([EMPTY.(rr := [a]), EMPTY], {}, map[0 := Loaded(q, 0)], Clearing(0), []);
    assert EndOf(s, [Ask(0, q), Load(0), Publish(EMPTY)], route) == s1;
    SweepsClean(s1, 0, route);
    var s2 := s1.(phase := Quiet);
    assert KeyOf(q) == Key([], a.rtype);
    assert Stored({}, KeyOf(q), Positive(a)) == {Held(KeyOf(q), a)};
    RunOfThree(s2, Finish(0), Ask(1, q), Hit(1, a), route);
    RunAppend(s, [Ask(0, q), Load(0), Publish(EMPTY)], Clears(AnswerCache.SHARD_COUNT), route);
    steps := [Ask(0, q), Load(0), Publish(EMPTY)] + Clears(AnswerCache.SHARD_COUNT);
    RunAppend(s, steps, [Finish(0), Ask(1, q), Hit(1, a)], route);
    steps := steps + [Finish(0), Ask(1, q), Hit(1, a)];
  }

  lemma OneRecord(a: RRSet)
    requires a.rdata != [] && a.rtype != TYPE_NS && a.rtype != TYPE_SOA
    ensures ResolveTrie(EMPTY.(rr := [a]), Query([], a.rtype)) == Positive(a)
    ensures ResolveTrie(EMPTY, Query([], a.rtype)) != Positive(a)
  {
    assert Search([a], a.rtype) == Some(a);
  }
}
