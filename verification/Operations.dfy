/** The mutations of the stored map, as the tree applies them and the log records them. */
module Operations {
  import opened Octets
  import opened Records
  import opened Names
  import opened Zones

  datatype Op = Upsert(domain: Bytes, sets: RRSets) | Delete(domain: Bytes)

  function PathOfOp(op: Op): Path {
    PathOf(op.domain)
  }

  /** An upsert without records is a deletion. */
  function Apply(m: Zone, op: Op): Zone {
    if op.Upsert? && op.sets != [] then m[PathOfOp(op) := op.sets] else m - {PathOfOp(op)}
  }

  function ApplyAll(m: Zone, ops: seq<Op>): Zone
    decreases |ops|
  {
    if ops == [] then m else Apply(ApplyAll(m, ops[..|ops| - 1]), ops[|ops| - 1])
  }

  lemma ApplyAllSnoc(m: Zone, ops: seq<Op>, op: Op)
    ensures ApplyAll(m, ops + [op]) == Apply(ApplyAll(m, ops), op)
  {
    assert (ops + [op])[..|ops|] == ops;
  }

  lemma {:induction false} ApplyAllAppend(m: Zone, a: seq<Op>, b: seq<Op>)
    ensures ApplyAll(m, a + b) == ApplyAll(ApplyAll(m, a), b)
    decreases |b|
  {
    hide Apply;
    if b == [] {
      assert a + b == a;
    } else {
      var n := |b| - 1;
      ApplyAllAppend(m, a, b[..n]);
      assert (a + b[..n]) + [b[n]] == a + b;
      ApplyAllSnoc(m, a + b[..n], b[n]);
    }
  }

  lemma ApplyOne(m: Zone, a: Op)
    ensures ApplyAll(m, [a]) == Apply(m, a)
  {
    hide Apply;
    assert [a][..0] == [];
  }

  lemma ApplyTwo(m: Zone, a: Op, b: Op)
    ensures ApplyAll(m, [a, b]) == Apply(Apply(m, a), b)
  {
    hide Apply;
    assert [a, b] == [a] + [b];
    ApplyAllSnoc(m, [a], b);
    ApplyOne(m, a);
  }

  // ---- the last word on a name ----

  /** The records a run leaves at p, and None when it never touches p. */
  function Final(ops: seq<Op>, p: Path): Option<RRSets>
    decreases |ops|
  {
    if ops == [] then None
    else
      var op := ops[|ops| - 1];
      if PathOfOp(op) != p then Final(ops[..|ops| - 1], p)
      else if op.Upsert? then Some(op.sets) else Some([])
  }

  /** After a run a name has the records of the last operation on it, and otherwise what it had. */
  lemma {:induction false} ApplyAllAt(m: Zone, ops: seq<Op>, p: Path)
    ensures var last := Final(ops, p); var now := ApplyAll(m, ops);
            && (last.Some? ==> (p in now <==> last.value != []) && RecordsAt(now, p) == last.value)
            && (last.None? ==> (p in now <==> p in m) && RecordsAt(now, p) == RecordsAt(m, p))
    decreases |ops|
  {
    hide PathOfOp;
    if ops != [] { ApplyAllAt(m, ops[..|ops| - 1], p); }
  }

  /** Replaying a run a second time changes nothing. */
  lemma ReplayIdempotent(m: Zone, ops: seq<Op>)
    ensures ApplyAll(ApplyAll(m, ops), ops) == ApplyAll(m, ops)
  {
    hide ApplyAll, Final;
    var once := ApplyAll(m, ops);
    var twice := ApplyAll(once, ops);
    forall p ensures (p in twice <==> p in once) && RecordsAt(twice, p) == RecordsAt(once, p) {
      ApplyAllAt(m, ops, p);
      ApplyAllAt(once, ops, p);
    }
    SameZone(twice, once);
  }

  lemma SameZone(a: Zone, b: Zone)
    requires forall p :: (p in a <==> p in b) && RecordsAt(a, p) == RecordsAt(b, p)
    ensures a == b
  {
    forall p | p in a ensures a[p] == b[p] { assert RecordsAt(a, p) == RecordsAt(b, p); }
  }
}
