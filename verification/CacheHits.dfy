/** What a read of a shard finds, in any run: exactly the live items, and for how long a stored item stays. */
module CacheHits {
  import opened Octets
  import opened Records
  import opened Lru
  import opened LruOrder

  /**
   In any run a read returns a value if and only if an unexpired item of its key is held, and then the value last
   stored. Afterwards the same items are held but for the key's expired one, and a found key comes first.
   */
  lemma ReadExactly(ops: seq<Op>, capacity: nat, k: Key, now: int)
    requires capacity > 0
    ensures var v := Run(ops, capacity); var (after, got) := GetItem(v, k, now);
            && (got.Some? <==> Hits(v, k, now))
            && (got.Some? ==> Latest(ops, k).Some? && got.value == Latest(ops, k).value.value)
            && (forall y :: y in after <==> y in v && (y.key == k ==> now < y.expiresAt))
            && (got.Some? ==> after[0].key == k)
  {
    hide Find, Without, Latest, Run, Live, DistinctKeys;
    var v := Run(ops, capacity);
    RunSound(ops, capacity);
    ReadKeeps(v, k, now);
    LiveIsFound(v, k, now);
    assert Find(v, k) >= 0 && now < v[Find(v, k)].expiresAt ==> Live(v, k, now, Find(v, k));
  }

  lemma ReadKeeps(v: seq<Item>, k: Key, now: int)
    requires DistinctKeys(v)
    ensures forall y :: y in GetItem(v, k, now).0 <==> y in v && (y.key == k ==> now < y.expiresAt)
  {
    hide Find;
    var i := Find(v, k);
    if i >= 0 {
      forall y ensures y in v <==> y == v[i] || y in Without(v, i) {
        assert v == v[..i] + [v[i]] + v[i + 1..];
      }
      forall y | y in Without(v, i) ensures y.key != k {
        var j :| 0 <= j < |v| - 1 && Without(v, i)[j] == y;
        WithoutAt(v, i, j);
      }
    }
  }

  /** A read that finds its key changes nothing about when it is found; one that does not leaves no item of the key. */
  lemma ReadHits(v: seq<Item>, k: Key, now: int)
    requires DistinctKeys(v)
    ensures DistinctKeys(GetItem(v, k, now).0)
    ensures forall t :: Hits(GetItem(v, k, now).0, k, t) <==> Hits(v, k, now) && Hits(v, k, t)
  {
    hide Find, Without;
    var i, after := Find(v, k), GetItem(v, k, now).0;
    if i >= 0 { WithoutKey(v, i); }
    forall t ensures Hits(after, k, t) <==> Hits(v, k, now) && Hits(v, k, t) {
      LiveIsFound(v, k, now);
      LiveIsFound(v, k, t);
      if i >= 0 {
        assert now < v[i].expiresAt ==> Live(v, k, now, i) && after[0] == v[i];
        assert t < v[i].expiresAt ==> Live(v, k, t, i) && (now < v[i].expiresAt ==> Live(after, k, t, 0));
      }
    }
  }

  lemma WithoutKey(v: seq<Item>, i: nat)
    requires DistinctKeys(v) && i < |v|
    ensures DistinctKeys(Without(v, i)) && forall j :: 0 <= j < |v| - 1 ==> Without(v, i)[j].key != v[i].key
  {
    forall j | 0 <= j < |v| - 1 ensures Without(v, i)[j] == v[if j < i then j else j + 1] {
      WithoutAt(v, i, j);
    }
  }

  /** A stored item is found until its expiry, and a dropped key not at all. */
  lemma StoreHits(v: seq<Item>, capacity: nat, x: Item)
    requires DistinctKeys(v) && capacity > 0
    ensures forall t :: Hits(SetItem(v, capacity, x), x.key, t) <==> t < x.expiresAt
    ensures forall t :: !Hits(DeleteKey(v, x.key), x.key, t)
  {
    hide Find, Without;
    var i, after := Find(v, x.key), SetItem(v, capacity, x);
    if i >= 0 { WithoutKey(v, i); }
    forall t ensures Hits(after, x.key, t) <==> t < x.expiresAt {
      assert t < x.expiresAt ==> Live(after, x.key, t, 0);
    }
  }

  // ---- how long a stored item stays ----

  /** Nothing stores the key again, drops it, reads it at or after its expiry, or clears the shard. */
  ghost predicate Spared(later: seq<Op>, x: Item) {
    forall i :: 0 <= i < |later| ==>
      match later[i]
      case Store(y) => y.key != x.key
      case Read(k, now) => k == x.key ==> now < x.expiresAt
      case Drop(k) => k != x.key
      case Clear => false
  }

  /** The other keys stored or read. */
  function Others(later: seq<Op>, k: Key): set<Key> {
    if later == [] then {}
    else
      Others(later[1..], k) +
      match later[0]
      case Store(y) => {y.key} - {k}
      case Read(other, _) => {other} - {k}
      case Drop(_) => {}
      case Clear => {}
  }

  /** The item is held, and only keys of the set are ahead of it. */
  ghost predicate Ahead(v: seq<Item>, x: Item, i: int, keys: set<Key>) {
    0 <= i < |v| && v[i] == x && forall j :: 0 <= j < i ==> v[j].key in keys
  }

  lemma {:induction false} AheadBound(v: seq<Item>, i: nat, keys: set<Key>)
    requires DistinctKeys(v) && i <= |v| && forall j :: 0 <= j < i ==> v[j].key in keys
    ensures i <= |keys|
  {
    if i > 0 {
      AheadBound(v, i - 1, keys - {v[i - 1].key});
    }
  }

  lemma AheadMore(v: seq<Item>, x: Item, i: int, keys: set<Key>, more: set<Key>)
    requires Ahead(v, x, i, keys) && keys <= more
    ensures Ahead(v, x, i, more)
  {
  }

  /** An item of another key leaves, or comes to the front. */
  lemma AheadWithout(v: seq<Item>, x: Item, i: nat, keys: set<Key>, j: nat, y: Item) returns (at: nat)
    requires Ahead(v, x, i, keys) && j < |v| && j != i
    ensures Ahead(Without(v, j), x, at, keys) && Ahead([y] + Without(v, j), x, at + 1, keys + {y.key})
  {
    at := if j < i then i - 1 else i;
    WithoutAt(v, j, at);
    forall k | 0 <= k < at ensures Without(v, j)[k].key in keys {
      WithoutAt(v, j, k);
    }
  }

  /** A new item ahead of an item that is among the first ones. */
  lemma AheadStore(v: seq<Item>, capacity: nat, x: Item, i: nat, keys: set<Key>, y: Item) returns (at: nat)
    requires capacity > 0 && DistinctKeys(v) && |v| <= capacity && y.key != x.key
    requires Ahead(v, x, i, keys) && |keys + {y.key}| < capacity
    ensures Ahead(SetItem(v, capacity, y), x, at, keys + {y.key})
  {
    var j := Find(v, y.key);
    if j >= 0 {
      at := AheadWithout(v, x, i, keys, j, y);
      at := at + 1;
    } else {
      at := i + 1;
      assert i + 1 <= |keys + {y.key}| by {
        assert DistinctKeys([y] + v);
        AheadBound([y] + v, i + 1, keys + {y.key});
      }
    }
  }

  lemma AheadRead(v: seq<Item>, x: Item, i: nat, keys: set<Key>, k: Key, now: int) returns (at: nat)
    requires DistinctKeys(v) && Ahead(v, x, i, keys) && (k == x.key ==> now < x.expiresAt)
    ensures Ahead(GetItem(v, k, now).0, x, at, keys + ({k} - {x.key}))
  {
    hide Find, Without;
    at := i;
    var j := Find(v, k);
    if k == x.key {
      FindIs(v, i);
      at := 0;
      assert GetItem(v, k, now).0[0] == x;
    } else if j >= 0 {
      at := AheadWithout(v, x, i, keys, j, v[j]);
      if now < v[j].expiresAt { at := at + 1; }
    }
  }

  lemma {:induction false} StaysAhead(later: seq<Op>, x: Item, earlier: seq<Op>, capacity: nat) returns (at: nat)
    requires capacity > 0 && Spared(later, x) && |Others(later, x.key)| < capacity
    ensures Ahead(Run(later + [Store(x)] + earlier, capacity), x, at, Others(later, x.key))
  {
    hide Ahead, SetItem, GetItem, Latest;
    var ops := later + [Store(x)] + earlier;
    if later == [] {
      assert ops[0] == Store(x) && ops[1..] == earlier;
      at := 0;
      StoredFirst(Run(earlier, capacity), capacity, x);
    } else {
      var rest, keys := later[1..], Others(later[1..], x.key);
      assert ops[0] == later[0] && ops[1..] == rest + [Store(x)] + earlier;
      Smaller(keys, Others(later, x.key));
      at := StaysAhead(rest, x, earlier, capacity);
      var v := Run(ops[1..], capacity);
      RunSound(ops[1..], capacity);
      match later[0]
      case Store(y) =>
        assert {y.key} - {x.key} == {y.key};
        at := AheadStore(v, capacity, x, at, keys, y);
      case Read(k, now) =>
        at := AheadRead(v, x, at, keys, k, now);
      case Drop(k) =>
        at := AheadDrop(v, x, at, keys, k);
    }
  }

  lemma StoredFirst(v: seq<Item>, capacity: nat, x: Item)
    requires capacity > 0
    ensures Ahead(SetItem(v, capacity, x), x, 0, {})
  {
  }

  lemma AheadDrop(v: seq<Item>, x: Item, i: nat, keys: set<Key>, k: Key) returns (at: nat)
    requires Ahead(v, x, i, keys) && k != x.key
    ensures Ahead(DeleteKey(v, k), x, at, keys)
  {
    at := i;
    if Find(v, k) >= 0 {
      at := AheadWithout(v, x, i, keys, Find(v, k), x);
    }
  }

  lemma Smaller(a: set<Key>, b: set<Key>)
    requires a <= b
    ensures |a| <= |b|
  {
    assert b == a + (b - a);
  }

  /** An item stored and spared since is found until its expiry while fewer than capacity other keys were used. */
  lemma FoundUntilExpiry(later: seq<Op>, x: Item, earlier: seq<Op>, capacity: nat, now: int)
    requires capacity > 0 && Spared(later, x) && |Others(later, x.key)| < capacity
    ensures GetItem(Run(later + [Store(x)] + earlier, capacity), x.key, now).1.Some? <==> now < x.expiresAt
    ensures now < x.expiresAt ==>
              GetItem(Run(later + [Store(x)] + earlier, capacity), x.key, now).1 == Some(x.value)
  {
    var ops := later + [Store(x)] + earlier;
    var i := StaysAhead(later, x, earlier, capacity);
    RunSound(ops, capacity);
    FindIs(Run(ops, capacity), i);
  }

  lemma {:induction false} NoneLatest(later: seq<Op>, k: Key, op: Op, earlier: seq<Op>)
    requires op == Drop(k) || op == Clear
    requires forall i :: 0 <= i < |later| && later[i].Store? ==> later[i].x.key != k
    ensures Latest(later + [op] + earlier, k) == None
  {
    var ops := later + [op] + earlier;
    if later == [] {
      assert ops[0] == op;
    } else {
      assert ops[0] == later[0] && ops[1..] == later[1..] + [op] + earlier;
      NoneLatest(later[1..], k, op, earlier);
    }
  }

  /** After a drop or a clearing a key is not found until it is stored again. */
  lemma GoneUntilStored(later: seq<Op>, k: Key, op: Op, earlier: seq<Op>, capacity: nat, now: int)
    requires capacity > 0 && (op == Drop(k) || op == Clear)
    requires forall i :: 0 <= i < |later| && later[i].Store? ==> later[i].x.key != k
    ensures !Hits(Run(later + [op] + earlier, capacity), k, now)
  {
    hide Latest;
    NoneLatest(later, k, op, earlier);
    RunSound(later + [op] + earlier, capacity);
  }

  // ---- while only new keys push others out ----

  function KeySet(ks: seq<Key>): set<Key> {
    set k | k in ks
  }

  /** The distinct keys used since k. */
  function Since(h: seq<Key>, k: Key): set<Key>
    requires k in h
  {
    KeySet(h[..Uses(h, k)])
  }

  function Uses(h: seq<Key>, k: Key): (n: nat)
    requires k in h
    ensures n < |h| && h[n] == k && k !in h[..n] && n == LastUse(h, k)
  {
    if h[0] == k then 0
    else
      var n := Uses(h[1..], k);
      assert h[..n + 1] == [h[0]] + h[1..][..n];
      n + 1
  }

  lemma SinceStep(h: seq<Key>, k: Key)
    requires h != [] && h[0] != k && k in h[1..]
    ensures Since(h, k) == {h[0]} + Since(h[1..], k)
  {
    var n := Uses(h[1..], k);
    assert h[..n + 1] == [h[0]] + h[1..][..n];
  }

  /** The key used earlier has more keys used since. */
  lemma SinceOrder(h: seq<Key>, a: Key, b: Key)
    requires a in h && b in h && Uses(h, a) < Uses(h, b)
    ensures |Since(h, a)| < |Since(h, b)| && a in Since(h, b)
  {
    var m, n := Uses(h, a), Uses(h, b);
    assert h[..n][m] == a;
    assert h[..m] == h[..n][..m];
    Smaller(Since(h, a) + {a}, Since(h, b));
  }

  lemma MinusAtIndex(ks: seq<Key>, k: Key, i: nat)
    requires DistinctSeq(ks) && i < |ks| && ks[i] != k
    ensures var j := if k in ks[..i] then i - 1 else i; 0 <= j < |Minus(ks, k)| && Minus(ks, k)[j] == ks[i]
  {
    if k in ks {
      var n :| 0 <= n < |ks| && ks[n] == k;
      MinusAt(ks, n);
      assert k in ks[..i] <==> n < i by { if n < i { assert ks[..i][n] == k; } }
      WithoutAt(ks, n, if n < i then i - 1 else i);
    } else {
      MinusAbsent(ks, k);
    }
  }

  /** Among the distinct keys, latest used first, a key stands behind the ones used since. */
  lemma {:induction false} RecentAt(h: seq<Key>, k: Key)
    requires k in h
    ensures |Since(h, k)| < |Recent(h)| && Recent(h)[|Since(h, k)|] == k
    decreases |h|, 0
  {
    hide Since, Uses, Minus;
    RecentDistinct(h);
    if h[0] == k {
      assert |Since(h, k)| == 0 by { SinceFirst(h); }
    } else {
      var rest := h[1..];
      RecentAt(rest, k);
      RecentDistinct(rest);
      var m := |Since(rest, k)|;
      SinceStep(h, k);
      MinusAtIndex(Recent(rest), h[0], m);
      assert h[0] in Recent(rest)[..m] <==> h[0] in Since(rest, k) by { AheadIffSince(rest, h[0], k); }
      assert Recent(h) == [h[0]] + Minus(Recent(rest), h[0]);
    }
  }

  lemma SinceFirst(h: seq<Key>)
    requires h != []
    ensures Since(h, h[0]) == {}
  {
  }

  lemma AheadIffSince(h: seq<Key>, a: Key, k: Key)
    requires k in h && a != k
    requires |Since(h, k)| < |Recent(h)| && Recent(h)[|Since(h, k)|] == k
    ensures a in Recent(h)[..|Since(h, k)|] <==> a in Since(h, k)
    decreases |h|, 1
  {
    hide Recent;
    RecentDistinct(h);
    if a in h {
      RecentAt(h, a);
      if Uses(h, a) < Uses(h, k) {
        SinceOrder(h, a, k);
        assert Recent(h)[..|Since(h, k)|][|Since(h, a)|] == a;
      } else {
        SinceOrder(h, k, a);
      }
    } else {
      RecentOnly(h);
    }
  }

  lemma {:induction false} RecentOnly(h: seq<Key>)
    ensures forall k :: k in Recent(h) ==> k in h
  {
    if h != [] {
      RecentOnly(h[1..]);
      RecentDistinct(h[1..]);
      MinusKeeps(Recent(h[1..]), h[0]);
    }
  }

  /** While nothing is dropped or expires, a key is held if and only if fewer than capacity others were used since. */
  lemma HeldIff(ops: seq<Op>, capacity: nat, k: Key)
    requires capacity > 0 && OnlyEvicts(ops, capacity)
    ensures var h := Used(ops, capacity);
            Find(Run(ops, capacity), k) >= 0 <==> k in h && |Since(h, k)| < capacity
  {
    hide Since, Used, Recent, OnlyEvicts, Run;
    var v, h := Run(ops, capacity), Used(ops, capacity);
    KeepsMostRecent(ops, capacity);
    RecentOnly(h);
    RecentDistinct(h);
    if Find(v, k) >= 0 { assert Keys(v)[Find(v, k)] == k; }
    if k in h {
      RecentAt(h, k);
      var n := |Since(h, k)|;
      if n < capacity {
        assert Keys(v)[n] == k;
      }
    }
  }
}
