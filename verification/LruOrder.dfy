/** What the sequence specification of a shard promises: bounded, duplicate free, least recently used out first. */
module LruOrder {
  import opened Octets
  import opened Records
  import opened Lru

  /** One operation on a shard; Read carries the clock it is made at. */
  datatype Op = Store(x: Item) | Read(k: Key, now: int) | Drop(k: Key) | Clear

  function Apply(v: seq<Item>, capacity: nat, op: Op): seq<Item>
    requires capacity > 0
  {
    match op
    case Store(x) => SetItem(v, capacity, x)
    case Read(k, now) => GetItem(v, k, now).0
    case Drop(k) => DeleteKey(v, k)
    case Clear => []
  }

  /** What a new shard holds after a run of operations, the latest operation first. */
  function Run(ops: seq<Op>, capacity: nat): seq<Item>
    requires capacity > 0
  {
    if ops == [] then [] else Apply(Run(ops[1..], capacity), capacity, ops[0])
  }

  /** The item last stored under k, unless it was dropped or everything was cleared since. */
  function Latest(ops: seq<Op>, k: Key): Option<Item> {
    if ops == [] then None
    else if ops[0].Store? && ops[0].x.key == k then Some(ops[0].x)
    else if ops[0].Clear? || (ops[0].Drop? && ops[0].k == k) then None
    else Latest(ops[1..], k)
  }

  ghost predicate Sound(v: seq<Item>, capacity: nat, ops: seq<Op>) {
    && DistinctKeys(v) && |v| <= capacity
    && forall i :: 0 <= i < |v| ==> Latest(ops, v[i].key) == Some(v[i])
  }

  lemma WithoutSound(v: seq<Item>, capacity: nat, ops: seq<Op>, i: nat)
    requires Sound(v, capacity, ops) && i < |v|
    ensures Sound(Without(v, i), capacity, ops)
    ensures forall j :: 0 <= j < |v| - 1 ==> Without(v, i)[j].key != v[i].key
  {
    hide Latest, Without;
    forall j: nat | j < |v| - 1
      ensures Latest(ops, Without(v, i)[j].key) == Some(Without(v, i)[j]) && Without(v, i)[j].key != v[i].key
    {
      WithoutAt(v, i, j);
    }
    forall j: nat, k: nat | j < k < |v| - 1 ensures Without(v, i)[j].key != Without(v, i)[k].key {
      WithoutAt(v, i, j);
      WithoutAt(v, i, k);
    }
  }

  lemma FrontSound(v: seq<Item>, capacity: nat, ops: seq<Op>, x: Item)
    requires Sound(v, capacity, ops) && |v| < capacity
    requires forall j :: 0 <= j < |v| ==> v[j].key != x.key
    ensures Latest(ops, x.key) == Some(x) ==> Sound([x] + v, capacity, ops)
    ensures Sound([x] + v, capacity, [Store(x)] + ops)
  {
    var more := [Store(x)] + ops;
    assert more[1..] == ops;
    forall j | 0 <= j < |v| + 1 ensures Latest(more, ([x] + v)[j].key) == Some(([x] + v)[j]) {
    }
  }

  lemma OthersSound(v: seq<Item>, capacity: nat, ops: seq<Op>, op: Op)
    requires Sound(v, capacity, ops)
    requires op.Drop? ==> forall j :: 0 <= j < |v| ==> v[j].key != op.k
    requires !op.Store? && !op.Clear?
    ensures Sound(v, capacity, [op] + ops)
  {
    assert ([op] + ops)[1..] == ops;
  }

  lemma StoreSound(v: seq<Item>, capacity: nat, ops: seq<Op>, x: Item)
    requires capacity > 0 && Sound(v, capacity, ops)
    ensures Sound(SetItem(v, capacity, x), capacity, [Store(x)] + ops)
  {
    hide Sound, Latest, Without, Find;
    var i := Find(v, x.key);
    assert |v| <= capacity by { SoundSize(v, capacity, ops); }
    if i >= 0 {
      WithoutSound(v, capacity, ops, i);
      FrontSound(Without(v, i), capacity, ops, x);
    } else if |v| >= capacity {
      WithoutSound(v, capacity, ops, |v| - 1);
      LastOut(v);
      FrontSound(v[..|v| - 1], capacity, ops, x);
    } else {
      FrontSound(v, capacity, ops, x);
    }
  }

  lemma SoundSize(v: seq<Item>, capacity: nat, ops: seq<Op>)
    requires Sound(v, capacity, ops)
    ensures |v| <= capacity
  {
  }

  lemma LastOut<T>(v: seq<T>)
    requires v != []
    ensures Without(v, |v| - 1) == v[..|v| - 1]
  {
  }

  lemma ReadSound(v: seq<Item>, capacity: nat, ops: seq<Op>, k: Key, now: int)
    requires Sound(v, capacity, ops)
    ensures Sound(GetItem(v, k, now).0, capacity, ops)
  {
    var i := Find(v, k);
    if i >= 0 {
      WithoutSound(v, capacity, ops, i);
      if now < v[i].expiresAt {
        FrontSound(Without(v, i), capacity, ops, v[i]);
      }
    }
  }

  lemma DropSound(v: seq<Item>, capacity: nat, ops: seq<Op>, k: Key)
    requires Sound(v, capacity, ops)
    ensures Sound(DeleteKey(v, k), capacity, ops)
    ensures forall j :: 0 <= j < |DeleteKey(v, k)| ==> DeleteKey(v, k)[j].key != k
  {
    var i := Find(v, k);
    if i >= 0 {
      WithoutSound(v, capacity, ops, i);
    }
  }

  /** In any run a shard is bounded, holds no key twice, and holds nothing but the latest item stored under its key. */
  lemma {:induction false} RunSound(ops: seq<Op>, capacity: nat)
    requires capacity > 0
    ensures Sound(Run(ops, capacity), capacity, ops)
  {
    hide Sound, Latest, Find, Without;
    if ops == [] {
      EmptySound(capacity, ops);
    } else {
      var rest, v := ops[1..], Run(ops[1..], capacity);
      RunSound(rest, capacity);
      assert [ops[0]] + rest == ops;
      match ops[0]
      case Store(x) =>
        StoreSound(v, capacity, rest, x);
      case Read(k, now) =>
        ReadSound(v, capacity, rest, k, now);
        OthersSound(GetItem(v, k, now).0, capacity, rest, ops[0]);
      case Drop(k) =>
        DropSound(v, capacity, rest, k);
        OthersSound(DeleteKey(v, k), capacity, rest, ops[0]);
      case Clear =>
        EmptySound(capacity, ops);
    }
  }

  lemma EmptySound(capacity: nat, ops: seq<Op>)
    ensures Sound([], capacity, ops)
  {
  }

  /** A read in any run returns the latest stored value of its key, and never one past its expiry. */
  lemma ReadsLatest(ops: seq<Op>, capacity: nat, k: Key, now: int)
    requires capacity > 0
    ensures
      var got := GetItem(Run(ops, capacity), k, now).1;
      got.Some? ==>
        Latest(ops, k).Some? && Latest(ops, k).value.value == got.value && now < Latest(ops, k).value.expiresAt
  {
    RunSound(ops, capacity);
    var i := Find(Run(ops, capacity), k);
  }

  // ---- least recently used ----

  function Keys(v: seq<Item>): (ks: seq<Key>)
    ensures |ks| == |v| && forall i :: 0 <= i < |v| ==> ks[i] == v[i].key
  {
    seq(|v|, i requires 0 <= i < |v| => v[i].key)
  }

  function Minus(ks: seq<Key>, k: Key): seq<Key> {
    if ks == [] then [] else if ks[0] == k then Minus(ks[1..], k) else [ks[0]] + Minus(ks[1..], k)
  }

  /** The distinct keys of a history, latest use first; the history itself is latest first. */
  function Recent(history: seq<Key>): seq<Key> {
    if history == [] then [] else [history[0]] + Minus(Recent(history[1..]), history[0])
  }

  function FirstN<T>(xs: seq<T>, n: nat): seq<T> {
    if |xs| <= n then xs else xs[..n]
  }

  /** No drop, no clearing, and no read of an expired item: nothing leaves but by eviction. */
  ghost predicate OnlyEvicts(ops: seq<Op>, capacity: nat)
    requires capacity > 0
  {
    ops == [] || (
      && OnlyEvicts(ops[1..], capacity)
      && var v := Run(ops[1..], capacity);
      match ops[0]
      case Store(_) => true
      case Read(k, now) => Find(v, k) >= 0 ==> now < v[Find(v, k)].expiresAt
      case Drop(_) => false
      case Clear => false)
  }

  /** The keys a run uses, latest first: each store, and each read that finds its key unexpired. */
  ghost function Used(ops: seq<Op>, capacity: nat): seq<Key>
    requires capacity > 0
  {
    if ops == [] then []
    else
      var before := Used(ops[1..], capacity);
      match ops[0]
      case Store(x) => [x.key] + before
      case Read(k, now) =>
        var v := Run(ops[1..], capacity);
        if Find(v, k) >= 0 && now < v[Find(v, k)].expiresAt then [k] + before else before
      case Drop(_) => before
      case Clear => before
  }

  lemma {:induction false} MinusAbsent(ks: seq<Key>, k: Key)
    requires k !in ks
    ensures Minus(ks, k) == ks
  {
    if ks != [] {
      assert ks[0] in ks;
      MinusAbsent(ks[1..], k);
    }
  }

  ghost predicate DistinctSeq(ks: seq<Key>) {
    forall i, j :: 0 <= i < j < |ks| ==> ks[i] != ks[j]
  }

  lemma {:induction false} MinusAt(ks: seq<Key>, i: nat)
    requires DistinctSeq(ks) && i < |ks|
    ensures Minus(ks, ks[i]) == Without(ks, i)
  {
    if i == 0 {
      MinusAbsent(ks[1..], ks[0]);
      assert Without(ks, 0) == ks[1..];
    } else {
      MinusAt(ks[1..], i - 1);
      assert Without(ks, i) == [ks[0]] + Without(ks[1..], i - 1);
    }
  }

  lemma {:induction false} MinusKeeps(ks: seq<Key>, k: Key)
    requires DistinctSeq(ks)
    ensures DistinctSeq(Minus(ks, k)) && k !in Minus(ks, k) && forall x :: x in Minus(ks, k) ==> x in ks
  {
    if ks != [] {
      MinusKeeps(ks[1..], k);
      assert ks[0] !in ks[1..];
      var rest := Minus(ks[1..], k);
      if ks[0] != k {
        assert Minus(ks, k) == [ks[0]] + rest;
      }
    }
  }

  lemma {:induction false} RecentDistinct(h: seq<Key>)
    ensures DistinctSeq(Recent(h))
  {
    if h != [] {
      RecentDistinct(h[1..]);
      MinusKeeps(Recent(h[1..]), h[0]);
    }
  }

  lemma SetKeysHeld(v: seq<Item>, capacity: nat, x: Item, ks: seq<Key>, i: nat)
    requires capacity > 0 && DistinctSeq(ks) && Keys(v) == FirstN(ks, capacity)
    requires i < |v| && Find(v, x.key) == i
    ensures Keys(SetItem(v, capacity, x)) == FirstN([x.key] + Minus(ks, x.key), capacity)
  {
    hide Minus, Find, Recent, DistinctSeq;
    assert Keys(v)[i] == x.key;
    MinusAt(ks, i);
    KeysWithout(v, i, x);
    FirstWithout(ks, i, capacity, x.key);
  }

  lemma KeysWithout(v: seq<Item>, i: nat, x: Item)
    requires i < |v|
    ensures Keys([x] + Without(v, i)) == [x.key] + Without(Keys(v), i)
  {
  }

  lemma FirstWithout(ks: seq<Key>, i: nat, n: nat, k: Key)
    requires i < |ks| && i < n
    ensures FirstN([k] + Without(ks, i), n) == [k] + Without(FirstN(ks, n), i)
  {
    if |ks| > n {
      assert ([k] + Without(ks, i))[..n] == [k] + Without(ks[..n], i);
    }
  }

  lemma SetKeysNew(v: seq<Item>, capacity: nat, x: Item, ks: seq<Key>)
    requires capacity > 0 && DistinctSeq(ks) && Keys(v) == FirstN(ks, capacity)
    requires Find(v, x.key) < 0
    ensures Keys(SetItem(v, capacity, x)) == FirstN([x.key] + Minus(ks, x.key), capacity)
  {
    hide Minus, Find;
    forall j | 0 <= j < |v| ensures ks[j] != x.key {
      assert Keys(v)[j] == v[j].key;
    }
    if x.key in ks {
      var j :| 0 <= j < |ks| && ks[j] == x.key;
      MinusAt(ks, j);
      assert Keys(SetItem(v, capacity, x)) == [x.key] + ks[..capacity - 1];
      assert Without(ks, j)[..capacity - 1] == ks[..capacity - 1];
    } else {
      MinusAbsent(ks, x.key);
      assert Keys(SetItem(v, capacity, x)) == FirstN([x.key] + ks, capacity);
    }
  }

  lemma StoreKeys(v: seq<Item>, capacity: nat, x: Item, ks: seq<Key>)
    requires capacity > 0 && DistinctSeq(ks) && Keys(v) == FirstN(ks, capacity)
    ensures Keys(SetItem(v, capacity, x)) == FirstN([x.key] + Minus(ks, x.key), capacity)
  {
    if Find(v, x.key) >= 0 {
      SetKeysHeld(v, capacity, x, ks, Find(v, x.key));
    } else {
      SetKeysNew(v, capacity, x, ks);
    }
  }

  lemma HitKeys(v: seq<Item>, capacity: nat, k: Key, now: int, ks: seq<Key>)
    requires capacity > 0 && DistinctSeq(ks) && Keys(v) == FirstN(ks, capacity)
    requires Find(v, k) >= 0 && now < v[Find(v, k)].expiresAt
    ensures Keys(GetItem(v, k, now).0) == FirstN([k] + Minus(ks, k), capacity)
  {
    var i := Find(v, k);
    SetKeysHeld(v, capacity, v[i], ks, i);
  }

  lemma RecentStep(k: Key, h: seq<Key>)
    ensures Recent([k] + h) == [k] + Minus(Recent(h), k)
  {
    assert ([k] + h)[1..] == h;
  }

  /**
   While nothing is dropped or expires, a shard holds exactly the most recently used distinct keys,
   as many as fit, in order of use: what leaves is always the least recently used.
   */
  lemma {:induction false} KeepsMostRecent(ops: seq<Op>, capacity: nat)
    requires capacity > 0 && OnlyEvicts(ops, capacity)
    ensures Keys(Run(ops, capacity)) == FirstN(Recent(Used(ops, capacity)), capacity)
  {
    hide Find, Minus, Recent, SetItem, DistinctSeq;
    if ops == [] {
      RecentNone();
    } else {
      KeepsMostRecent(ops[1..], capacity);
      var v, h := Run(ops[1..], capacity), Used(ops[1..], capacity);
      RecentDistinct(h);
      match ops[0]
      case Store(x) =>
        StoreKeys(v, capacity, x, Recent(h));
        RecentStep(x.key, h);
      case Read(k, now) =>
        if Find(v, k) >= 0 {
          HitKeys(v, capacity, k, now, Recent(h));
          RecentStep(k, h);
        }
    }
  }

  lemma RecentNone()
    ensures Recent([]) == []
  {
  }

  // ---- in any run ----

  /** How many uses ago k was last used. */
  function LastUse(history: seq<Key>, k: Key): nat {
    if history == [] || history[0] == k then 0 else 1 + LastUse(history[1..], k)
  }

  /** Items whose keys were used, the latest used first. */
  ghost predicate InOrder(v: seq<Item>, history: seq<Key>) {
    && (forall i :: 0 <= i < |v| ==> v[i].key in history)
    && forall i, j :: 0 <= i < j < |v| ==> LastUse(history, v[i].key) < LastUse(history, v[j].key)
  }

  lemma WithoutInOrder(v: seq<Item>, h: seq<Key>, i: nat)
    requires InOrder(v, h) && DistinctKeys(v) && i < |v|
    ensures InOrder(Without(v, i), h) && forall j :: 0 <= j < |v| - 1 ==> Without(v, i)[j].key != v[i].key
  {
    hide LastUse, Without;
    forall j: nat | j < |v| - 1 ensures Without(v, i)[j].key in h && Without(v, i)[j].key != v[i].key {
      WithoutAt(v, i, j);
    }
    forall j: nat, k: nat | j < k < |v| - 1
      ensures LastUse(h, Without(v, i)[j].key) < LastUse(h, Without(v, i)[k].key)
    {
      WithoutAt(v, i, j);
      WithoutAt(v, i, k);
    }
  }

  /** A use moves its key to the front of all others. */
  lemma UseInOrder(v: seq<Item>, h: seq<Key>, x: Item)
    requires InOrder(v, h) && forall j :: 0 <= j < |v| ==> v[j].key != x.key
    ensures InOrder([x] + v, [x.key] + h)
  {
    var more, all := [x.key] + h, [x] + v;
    assert more[1..] == h;
    assert LastUse(more, x.key) == 0;
    forall j | 0 <= j < |v| ensures LastUse(more, v[j].key) == 1 + LastUse(h, v[j].key) && v[j].key in more {
    }
    forall i, j | 0 <= i < j < |all| ensures LastUse(more, all[i].key) < LastUse(more, all[j].key) {
      assert all[j] == v[j - 1];
      if i > 0 { assert all[i] == v[i - 1]; }
    }
  }

  lemma StoreInOrder(v: seq<Item>, h: seq<Key>, capacity: nat, x: Item)
    requires InOrder(v, h) && DistinctKeys(v) && capacity > 0 && |v| <= capacity
    ensures InOrder(SetItem(v, capacity, x), [x.key] + h)
  {
    hide InOrder, Without, Find;
    var i := Find(v, x.key);
    if i >= 0 {
      WithoutInOrder(v, h, i);
      UseInOrder(Without(v, i), h, x);
    } else if |v| >= capacity {
      WithoutInOrder(v, h, |v| - 1);
      LastOut(v);
      UseInOrder(v[..|v| - 1], h, x);
    } else {
      UseInOrder(v, h, x);
    }
  }

  lemma ReadInOrder(v: seq<Item>, h: seq<Key>, k: Key, now: int)
    requires InOrder(v, h) && DistinctKeys(v)
    ensures var live := Find(v, k) >= 0 && now < v[Find(v, k)].expiresAt;
            InOrder(GetItem(v, k, now).0, if live then [k] + h else h)
  {
    hide InOrder, Without;
    var i := Find(v, k);
    if i >= 0 {
      WithoutInOrder(v, h, i);
      if now < v[i].expiresAt { UseInOrder(Without(v, i), h, v[i]); }
    }
  }

  lemma DropInOrder(v: seq<Item>, h: seq<Key>, k: Key)
    requires InOrder(v, h) && DistinctKeys(v)
    ensures InOrder(DeleteKey(v, k), h)
  {
    hide InOrder, Without;
    if Find(v, k) >= 0 { WithoutInOrder(v, h, Find(v, k)); }
  }

  lemma NothingInOrder(h: seq<Key>)
    ensures InOrder([], h)
  {
  }

  /** In any run, with drops, expiry and clearing, what a shard holds is in order of last use. */
  lemma {:induction false} RunInOrder(ops: seq<Op>, capacity: nat)
    requires capacity > 0
    ensures InOrder(Run(ops, capacity), Used(ops, capacity))
  {
    hide InOrder, SetItem, GetItem, DeleteKey, Latest;
    if ops == [] {
      NothingInOrder([]);
    } else {
      RunInOrder(ops[1..], capacity);
      RunSound(ops[1..], capacity);
      var v, h := Run(ops[1..], capacity), Used(ops[1..], capacity);
      match ops[0]
      case Store(x) => StoreInOrder(v, h, capacity, x);
      case Read(k, now) => ReadInOrder(v, h, k, now);
      case Drop(k) => DropInOrder(v, h, k);
      case Clear => NothingInOrder(h);
    }
  }

  /** In any run, what makes room for a new key is the key used longest ago of all that are held. */
  lemma EvictsLeastRecent(ops: seq<Op>, capacity: nat, x: Item)
    requires capacity > 0 && Find(Run(ops, capacity), x.key) < 0 && |Run(ops, capacity)| == capacity
    ensures var v, h := Run(ops, capacity), Used(ops, capacity);
            && Run([Store(x)] + ops, capacity) == [x] + v[..capacity - 1]
            && forall i :: 0 <= i < capacity - 1 ==> LastUse(h, v[i].key) < LastUse(h, v[capacity - 1].key)
  {
    hide Find, LastUse, Used;
    RunInOrder(ops, capacity);
    assert ([Store(x)] + ops)[1..] == ops;
  }
}
