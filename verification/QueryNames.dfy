/**
 How the spelling of a query name bears on its answer (internal/radix/resolve.go):
 letter case never changes more than the letters of the authority name, and the test
 "cursor is at the start" recognises the queried name itself except after a leading run of dots.
 */
module QueryNames {
  import opened Octets
  import opened Records
  import opened Names
  import opened Tries
  import opened Resolution

  // ---- letter case ----

  ghost predicate AuthAlike(a: Authority, b: Authority) {
    a.rrset == b.rrset && LowerAll(a.name) == LowerAll(b.name)
  }

  ghost predicate Alike(a: Result, b: Result) {
    && a.rcode == b.rcode && a.answer == b.answer && a.authority == b.authority
    && LowerAll(a.authorityName) == LowerAll(b.authorityName)
    && (a.HasAnswer() ==> a == b)
  }

  ghost predicate SameLetters(q: Query, r: Query) {
    LowerAll(q.domain) == LowerAll(r.domain) && q.qt == r.qt
  }

  lemma SameLength(q: Query, r: Query)
    requires SameLetters(q, r)
    ensures |q.domain| == |r.domain|
  {
    assert |LowerAll(q.domain)| == |LowerAll(r.domain)|;
  }

  lemma FormatAlike(q: Query, r: Query, cursor: nat)
    requires SameLetters(q, r) && cursor <= |q.domain| && |q.domain| == |r.domain|
    requires cursor > 0 && cursor < |q.domain| ==> cursor + 1 <= |q.domain|
    ensures LowerAll(FormatName(q.domain, cursor)) == LowerAll(FormatName(r.domain, cursor))
  {
    var a, b := FormatName(q.domain, cursor), FormatName(r.domain, cursor);
    forall i | 0 <= i < |a| ensures Lower(a[i]) == Lower(b[i]) {
      if cursor < |q.domain| {
        var j := if cursor > 0 then i + cursor + 1 else i;
        assert LowerAll(q.domain)[j] == LowerAll(r.domain)[j];
      }
    }
  }

  lemma EvaluateAlike(rr: RRSets, q: Query, r: Query, cursor: nat, a: Authority, b: Authority)
    requires SameLetters(q, r) && cursor <= |q.domain| && |q.domain| == |r.domain| && AuthAlike(a, b)
    ensures var x, y := Evaluate(rr, q, cursor, a), Evaluate(rr, r, cursor, b);
            (x.Stop? && y.Stop? && Alike(x.result, y.result)) || (x.Go? && y.Go? && AuthAlike(x.auth, y.auth))
  {
    FormatAlike(q, r, cursor);
  }

  lemma ResolveAtAlike(rr: RRSets, qt: U16, a: Authority, b: Authority)
    requires AuthAlike(a, b)
    ensures Alike(ResolveAt(rr, qt, a), ResolveAt(rr, qt, b))
    ensures Alike(WildcardResolve(rr, qt, a), WildcardResolve(rr, qt, b))
    ensures Alike(NameErrorResult(a), NameErrorResult(b))
  {
  }

  lemma {:induction false} DescendAlike(t: Trie, hs: seq<Hop>, q: Query, r: Query, fb: Option<Trie>, a: Authority,
                                        b: Authority)
    requires SameLetters(q, r) && |q.domain| == |r.domain| && AuthAlike(a, b)
    requires HopsWithin(hs, q) && HopsWithin(hs, r)
    ensures Alike(Descend(t, hs, q, fb, a), Descend(t, hs, r, fb, b))
    decreases |hs|
  {
    hide Alike, AuthAlike, SameLetters, Evaluate, ResolveAt, WildcardResolve, NameErrorResult, Child;
    if hs == [] {
      ResolveAtAlike(t.rr, q.qt, a, b);
      SameType(q, r);
      if fb.Some? { ResolveAtAlike(fb.value.rr, q.qt, a, b); }
    } else {
      SameType(q, r);
      var fb' := if t.wild.Some? then t.wild else fb;
      ResolveAtAlike(RecordsOf(fb'), q.qt, a, b);
      match Child(t, hs[0].lab)
      case None =>
      case Some(c) =>
        EvaluateAlike(c.rr, q, r, hs[0].cursor, a, b);
        var x, y := Evaluate(c.rr, q, hs[0].cursor, a), Evaluate(c.rr, r, hs[0].cursor, b);
        if x.Go? { DescendAlike(c, hs[1..], q, r, fb', x.auth, y.auth); }
    }
  }

  lemma SameType(q: Query, r: Query)
    requires SameLetters(q, r)
    ensures q.qt == r.qt
  {
  }

  lemma SameHops(q: Query, r: Query)
    requires SameLetters(q, r)
    ensures |q.domain| == |r.domain| && QueryHops(q) == QueryHops(r)
  {
    SameLength(q, r);
    HopsLower(q.domain, |q.domain|);
    HopsLower(r.domain, |r.domain|);
  }

  /**
   Two spellings of a name that differ in letter case only have the same answer: an answer
   section is identical, and an authority name differs at most in case.
   */
  lemma CaseNeverMatters(t: Trie, q: Query, r: Query)
    requires SameLetters(q, r)
    ensures Alike(ResolveTrie(t, q), ResolveTrie(t, r))
  {
    hide Alike, SameLetters, AuthAlike, Evaluate, Descend;
    SameHops(q, r);
    assert AuthAlike(NO_AUTHORITY, NO_AUTHORITY) by { SelfAlike(NO_AUTHORITY); }
    EvaluateAlike(t.rr, q, r, |q.domain|, NO_AUTHORITY, NO_AUTHORITY);
    var x, y := Evaluate(t.rr, q, |q.domain|, NO_AUTHORITY), Evaluate(t.rr, r, |r.domain|, NO_AUTHORITY);
    if x.Go? { DescendAlike(t, QueryHops(q), q, r, None, x.auth, y.auth); }
  }

  lemma SelfAlike(a: Authority)
    ensures AuthAlike(a, a)
  {
  }

  // ---- exactly at the name ----

  ghost predicate LastAtStart(hs: seq<Hop>) {
    hs != [] && hs[|hs| - 1].cursor == 0
  }

  lemma {:induction false} LastCursor(d: Bytes, c: nat)
    requires 0 < c <= |d|
    ensures LastAtStart(Hops(d, c)) <==> d[0] != DOT || (c >= 2 && d[1] != DOT)
    decreases c
  {
    hide Hops, LowerAll;
    HopsStep(d, c);
    var k := LastDot(d, c);
    if k > 0 {
      LastCursor(d, k);
    } else {
      HopsAtStart(d);
    }
  }

  lemma {:induction false} CursorsFall(d: Bytes, c: nat, i: nat)
    requires c <= |d| && i + 1 < |Hops(d, c)|
    ensures Hops(d, c)[i].cursor > 0
    decreases c
  {
    match NextStep(d, c)
    case Done =>
    case Found(l, k) => if i > 0 { CursorsFall(d, k, i - 1); }
  }

  /** The spellings whose own name the walk recognises as exact: no leading dot, or a single one before a label. */
  predicate PlainStart(d: Bytes) {
    d == [] || d[0] != DOT || (|d| >= 2 && d[1] != DOT)
  }

  /**
   The walk stands with its cursor at the start of the text only at the queried name itself,
   and it does so there if and only if the text starts plainly. The exemption of DS queries
   from referrals hangs on this test.
   */
  lemma ExactExactly(q: Query, i: nat)
    requires i <= |QueryHops(q)|
    ensures CursorAt(q, QueryHops(q), i) == 0 <==> i == |QueryHops(q)| && PlainStart(q.domain)
  {
    var d, hs := q.domain, QueryHops(q);
    if d != [] { LastCursor(d, |d|); }
    if 0 < i < |hs| { CursorsFall(d, |d|, i - 1); }
  }

  /** A DS query spelled "." is not exempt at a delegated root, while the same query spelled "" is. */
  lemma RootDotIsReferred(ns: RRSet)
    requires ns.rtype == TYPE_NS
    ensures
      var t := EMPTY.(rr := [ns]);
      && ResolveTrie(t, Query([DOT], TYPE_DS)) == Result(Success, ZERO_SET, ns, [DOT])
      && ResolveTrie(t, Query([], TYPE_DS)).authority == ZERO_SET
  {
    assert Search([ns], TYPE_NS) == Some(ns);
  }
}
