/**
 The in-memory state (internal/state): a tree behind an answer cache. With every call as one step
 the cache is invisible: a query gets exactly what the tree alone would answer.
 */
module CachedState {
  import opened Octets
  import opened Records
  import opened Names
  import opened Tries
  import opened Operations
  import opened Resolution
  import opened QueryNames
  import opened Lru
  import opened AnswerCache
  import CacheHits
  import opened RadixTree

  const SECOND := 1_000_000_000
  const DEFAULT_CAPACITY := 10000

  /** Lower-cases ASCII letters, copying only when there is one to change. */
  method ToLowerAscii(s: Bytes) returns (out: Bytes)
    ensures out == LowerAll(s)
  {
    var hasUpper, i := false, 0;
    while i < |s| && !hasUpper
      invariant 0 <= i <= |s|
      invariant !hasUpper ==> forall j :: 0 <= j < i ==> Lower(s[j]) == s[j]
    {
      if 65 <= s[i] <= 90 { hasUpper := true; }
      i := i + 1;
    }
    if !hasUpper {
      assert LowerAll(s) == s;
      return s;
    }
    var a := new Byte[|s|];
    for k := 0 to |s|
      invariant forall j :: 0 <= j < k ==> a[j] == Lower(s[j])
    {
      var b: int := s[k];
      if 65 <= b <= 90 { b := b + 32; }
      a[k] := b;
    }
    assert a[..] == LowerAll(s);
    return a[..];
  }

  function KeyOf(q: Query): Key {
    Key(LowerAll(q.domain), q.qt)
  }

  /** What the state remembers: a positive answer with time to live. */
  predicate Cacheable(r: Result) {
    r.rcode == Success && r.HasAnswer() && r.answer.ttl > 0
  }

  /** A hit leaves the key's expiry as it is; a miss is remembered for the answer's time to live, or not at all. */
  ghost predicate Remembers(was: seq<Item>, held: seq<Item>, k: Key, now: int, res: Result) {
    forall t :: Hits(held, k, t) <==> if Hits(was, k, now) then Hits(was, k, t)
                                      else Cacheable(res) && t < now + res.answer.ttl * SECOND
  }

  function Positive(value: RRSet): Result {
    Result(Success, value, ZERO_SET, [])
  }

  /** The cached value is the tree's own answer to its key. */
  ghost predicate Right(t: Trie, k: Key, value: RRSet) {
    value.rdata != [] && ResolveTrie(t, Query(k.name, k.rtype)) == Positive(value)
  }

  ghost predicate AllRight(t: Trie, v: seq<Item>) {
    forall i :: 0 <= i < |v| ==> Right(t, v[i].key, v[i].value)
  }

  lemma AnswersArePositive(t: Trie, q: Query)
    ensures ResolveTrie(t, q).HasAnswer() ==> ResolveTrie(t, q) == Positive(ResolveTrie(t, q).answer)
  {
    var e := Evaluate(t.rr, q, |q.domain|, NO_AUTHORITY);
    if e.Go? { DescendPositive(t, QueryHops(q), q, None, e.auth); }
  }

  lemma {:induction false} DescendPositive(t: Trie, hs: seq<Hop>, q: Query, fb: Option<Trie>, auth: Authority)
    requires HopsWithin(hs, q)
    ensures var r := Descend(t, hs, q, fb, auth); r.HasAnswer() ==> r == Positive(r.answer)
    decreases |hs|
  {
    hide Child;
    if hs != [] {
      var fb' := if t.wild.Some? then t.wild else fb;
      match Child(t, hs[0].lab)
      case None =>
      case Some(c) =>
        var e := Evaluate(c.rr, q, hs[0].cursor, auth);
        if e.Go? { DescendPositive(c, hs[1..], q, fb', e.auth); }
    }
  }

  /** An answer stored or looked up under the lower-cased name serves every spelling of it. */
  lemma RightForAllSpellings(t: Trie, q: Query, value: RRSet)
    requires value.rdata != []
    ensures Right(t, KeyOf(q), value) <==> ResolveTrie(t, q) == Positive(value)
  {
    hide ResolveTrie;
    var k := Query(LowerAll(q.domain), q.qt);
    LowerAllIdempotent(q.domain);
    CaseNeverMatters(t, q, k);
  }

  lemma GetRight(t: Trie, v: seq<Item>, k: Key, now: int)
    requires AllRight(t, v)
    ensures AllRight(t, GetItem(v, k, now).0)
    ensures GetItem(v, k, now).1.Some? ==> Right(t, k, GetItem(v, k, now).1.value)
  {
    hide Right;
    var i := Find(v, k);
    if i >= 0 { assert Right(t, v[i].key, v[i].value); }
  }

  lemma SetRight(t: Trie, v: seq<Item>, capacity: nat, x: Item)
    requires AllRight(t, v) && Right(t, x.key, x.value) && capacity > 0
    ensures AllRight(t, SetItem(v, capacity, x)) && AllRight(t, DeleteKey(v, x.key))
  {
    hide Right, Find, AllRight, Without;
    var i := Find(v, x.key);
    if i >= 0 {
      WithoutRight(t, v, i);
      FrontRight(t, Without(v, i), x);
    } else {
      PrefixRight(t, v, if |v| > 0 then |v| - 1 else 0);
      FrontRight(t, v[..if |v| > 0 then |v| - 1 else 0], x);
      FrontRight(t, v, x);
    }
  }

  lemma WithoutRight(t: Trie, v: seq<Item>, i: nat)
    requires AllRight(t, v) && i < |v|
    ensures AllRight(t, Without(v, i))
  {
    hide Right;
    forall j | 0 <= j < |v| - 1 ensures Right(t, Without(v, i)[j].key, Without(v, i)[j].value) {
      assert Without(v, i)[j] == v[if j < i then j else j + 1];
    }
  }

  lemma PrefixRight(t: Trie, v: seq<Item>, n: nat)
    requires AllRight(t, v) && n <= |v|
    ensures AllRight(t, v[..n])
  {
    hide Right;
  }

  lemma FrontRight(t: Trie, v: seq<Item>, x: Item)
    requires AllRight(t, v) && Right(t, x.key, x.value)
    ensures AllRight(t, [x] + v)
  {
    hide Right;
  }

  ghost predicate Coherent(t: Trie, views: seq<seq<Item>>) {
    forall i :: 0 <= i < |views| ==> AllRight(t, views[i])
  }

  class State {
    var tree: Tree
    const cache: Cache

    ghost predicate Valid()
      reads this, tree, tree.repr, cache, cache.repr
    {
      && this !in tree.repr && this !in cache.repr
      && tree.Valid() && cache.Valid()
      && tree !in cache.repr && cache !in tree.repr && tree.repr !! cache.repr
      && Coherent(tree.trie, cache.views)
    }

    constructor (cacheCapacity: int, hash: Key -> nat)
      ensures Valid() && tree.contents == map[]
      ensures var total := if cacheCapacity <= 0 then 10000 else cacheCapacity;
              cache.capacity == if total / 256 > 1 then total / 256 else 1
      ensures fresh(tree) && fresh(tree.repr) && fresh(cache) && fresh(cache.repr)
    {
      cache := new Cache(if cacheCapacity <= 0 then DEFAULT_CAPACITY else cacheCapacity, hash);
      tree := new Tree();
    }

    /** Publishes another tree and flushes the cache. */
    method Swap(newTree: Tree)
      requires Valid() && newTree.Valid()
      requires this !in newTree.repr && cache !in newTree.repr && newTree !in cache.repr && newTree.repr !! cache.repr
      modifies this, cache, cache.repr
      ensures Valid() && tree == newTree && tree.contents == old(newTree.contents)
      ensures forall i :: 0 <= i < SHARD_COUNT ==> |cache.views| == SHARD_COUNT && cache.views[i] == []
    {
      hide Tree.Valid, Cache.Valid, Right;
      tree := newTree;
      cache.Clear();
      cache.Shape();
    }

    /** Applies a batch of mutations to the tree, then flushes the cache. */
    method Update(ops: seq<Op>)
      requires Valid()
      modifies tree, cache, cache.repr
      ensures Valid() && tree.contents == ApplyAll(old(tree.contents), ops)
      ensures forall i :: 0 <= i < SHARD_COUNT ==> |cache.views| == SHARD_COUNT && cache.views[i] == []
    {
      hide Tree.Valid, Cache.Valid, Right, Coherent;
      for i := 0 to |ops|
        invariant tree.Valid() && fresh(tree.repr - old(tree.repr)) && old(tree.repr) <= tree.repr
        invariant tree.contents == ApplyAll(old(tree.contents), ops[..i])
        invariant cache.Valid() && cache.repr == old(cache.repr)
      {
        ApplyAllSnoc(old(tree.contents), ops[..i], ops[i]);
        assert ops[..i + 1] == ops[..i] + [ops[i]];
        match ops[i]
        case Upsert(d, records) => tree.Upsert(d, records);
        case Delete(d) => tree.DeleteDomain(d);
      }
      assert ops[..|ops|] == ops;
      cache.Clear();
      cache.Shape();
      EmptyCoherent(tree.trie, cache.views);
    }

    /** A hit, a miss and a store: whatever the cache held, the answer is the one the current map determines. */
    method Resolve(domain: Bytes, qt: U16, now: int) returns (res: Result)
      requires Valid()
      modifies cache, cache.repr
      ensures Valid() && tree.contents == old(tree.contents)
      ensures res == SpecResolve(tree.contents, Query(domain, qt))
      ensures var k := KeyOf(Query(domain, qt)); var i := cache.Route(k);
              && |cache.views| == |old(cache.views)| == SHARD_COUNT
              && Remembers(old(cache.views)[i], cache.views[i], k, now, res)
              && forall j :: 0 <= j < SHARD_COUNT && j != i ==> cache.views[j] == old(cache.views)[j]
    {
      hide Tree.Valid, Cache.Valid, Right, Coherent, ResolveTrie, GetItem, SpecResolve, Hits, Live;
      ghost var q := Query(domain, qt);
      var name := ToLowerAscii(domain);
      var key := Key(name, qt);
      cache.Shape();
      cache.OneItemPerKey(cache.Route(key));
      CacheHits.ReadHits(cache.views[cache.Route(key)], key, now);
      var record := cache.Get(key, now);
      CoherentGet(tree.trie, old(cache.views), cache.Route(key), key, now);
      TreeAnswers(tree, q);
      if record.Some? {
        HitIsAnswer(tree.trie, q, record.value);
        return Result(Success, record.value, ZERO_SET, []);
      }
      res := tree.Resolve(domain, qt);
      if res.rcode == Success && res.HasAnswer() {
        Remember(key, res, now, q);
      }
    }

    /** Stores an answer the tree has just given. */
    method Remember(key: Key, res: Result, now: int, ghost q: Query)
      requires Valid() && key == KeyOf(q) && res == ResolveTrie(tree.trie, q) && res.HasAnswer()
      modifies cache, cache.repr
      ensures Valid()
      ensures var i := cache.Route(key);
              && |cache.views| == |old(cache.views)| == SHARD_COUNT
              && (forall j :: 0 <= j < SHARD_COUNT && j != i ==> cache.views[j] == old(cache.views)[j])
              && forall t :: Hits(cache.views[i], key, t) <==>
                             res.answer.ttl > 0 && t < now + res.answer.ttl * SECOND
    {
      hide Tree.Valid, Cache.Valid, Right, Coherent, ResolveTrie, SetItem, DeleteKey, Hits;
      AnswersArePositive(tree.trie, q);
      RightForAllSpellings(tree.trie, q, res.answer);
      cache.Shape();
      cache.OneItemPerKey(cache.Route(key));
      CacheHits.StoreHits(cache.views[cache.Route(key)], cache.capacity,
                          Item(key, res.answer, now + res.answer.ttl * SECOND));
      CoherentSet(tree.trie, cache.views, cache.Route(key), cache.capacity,
                  Item(key, res.answer, now + res.answer.ttl * SECOND));
      cache.Set(key, res.answer, res.answer.ttl * SECOND, now);
    }
  }

  lemma TreeAnswers(tree: Tree, q: Query)
    requires tree.Valid()
    ensures ResolveTrie(tree.trie, q) == SpecResolve(tree.contents, q)
  {
    ResolveIsSpec(tree.trie, tree.contents, q);
  }

  lemma HitIsAnswer(t: Trie, q: Query, value: RRSet)
    requires Right(t, KeyOf(q), value)
    ensures ResolveTrie(t, q) == Positive(value)
  {
    hide ResolveTrie;
    RightForAllSpellings(t, q, value);
  }

  lemma EmptyCoherent(t: Trie, views: seq<seq<Item>>)
    requires forall i :: 0 <= i < |views| ==> views[i] == []
    ensures Coherent(t, views)
  {
  }

  lemma CoherentGet(t: Trie, views: seq<seq<Item>>, i: nat, k: Key, now: int)
    requires Coherent(t, views) && i < |views|
    ensures var got := GetItem(views[i], k, now);
            Coherent(t, views[i := got.0]) && (got.1.Some? ==> Right(t, k, got.1.value))
  {
    hide AllRight, Right, GetItem;
    GetRight(t, views[i], k, now);
  }

  lemma CoherentSet(t: Trie, views: seq<seq<Item>>, i: nat, capacity: nat, x: Item)
    requires Coherent(t, views) && i < |views| && Right(t, x.key, x.value) && capacity > 0
    ensures Coherent(t, views[i := SetItem(views[i], capacity, x)])
    ensures Coherent(t, views[i := DeleteKey(views[i], x.key)])
  {
    hide AllRight, Right, SetItem, DeleteKey;
    SetRight(t, views[i], capacity, x);
  }
}
