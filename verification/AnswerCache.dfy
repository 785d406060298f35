/** The sharded answer cache (internal/cache/cache.go): every key belongs to the one shard its hash selects. */
module AnswerCache {
  import opened Octets
  import opened Records
  import opened Lru

  const SHARD_COUNT := 256

  class Cache {
    const shards: seq<Shard>
    const hash: Key -> nat
    ghost const capacity: nat
    ghost var views: seq<seq<Item>>
    ghost var repr: set<object>

    /** The shards are apart from one another, and views is what they hold. */
    ghost predicate Valid()
      reads this, repr
    {
      && this !in repr && |shards| == |views| == SHARD_COUNT && capacity > 0
      && (forall i :: 0 <= i < SHARD_COUNT ==> Apart(i))
      && (forall i, j :: 0 <= i < j < SHARD_COUNT ==>
           shards[i] in repr && shards[j] in repr && Separate(shards[i], shards[j]))
    }

    ghost predicate Apart(i: nat)
      requires i < |shards| == |views|
      reads this, repr
    {
      && shards[i] in repr && shards[i].repr <= repr && shards[i].capacity == capacity
      && shards[i].Valid() && shards[i].View() == views[i]
    }

    constructor (totalCapacity: int, hash: Key -> nat)
      ensures Valid() && fresh(repr) &&
              capacity == if totalCapacity / SHARD_COUNT > 1 then totalCapacity / SHARD_COUNT else 1
      ensures forall i :: 0 <= i < SHARD_COUNT ==> views[i] == []
    {
      hide Shard.Valid, Shard.View;
      var shardCap := if totalCapacity / SHARD_COUNT > 1 then totalCapacity / SHARD_COUNT else 1;
      var made: seq<Shard> := [];
      ghost var r: set<object> := {};
      for i := 0 to SHARD_COUNT
        invariant |made| == i && fresh(r)
        invariant forall j :: 0 <= j < i ==> NewShard(made[j], shardCap, r)
        invariant forall j, k :: 0 <= j < k < i ==> Separate(made[j], made[k])
      {
        var s := new Shard(shardCap);
        made := made + [s];
        r := r + {s} + s.repr;
      }
      shards, this.hash, capacity := made, hash, shardCap;
      views := seq(SHARD_COUNT, _ => []);
      repr := r;
    }

    function Route(k: Key): (i: nat)
      ensures i < SHARD_COUNT
    {
      hash(k) % SHARD_COUNT
    }

    lemma Shape()
      requires Valid()
      ensures |views| == SHARD_COUNT && capacity > 0
    {
    }

    lemma OneItemPerKey(i: nat)
      requires Valid() && i < SHARD_COUNT
      ensures DistinctKeys(views[i])
    {
      assert Apart(i);
      var s := shards[i];
      LinkedInner(s.head, s.list, s.tail);
      IndexedDistinct(s.items, s.list);
    }

    /** A change inside one shard leaves the others as they were. */
    twostate lemma Kept(i: nat)
      requires old(Valid()) && i < SHARD_COUNT
      requires shards[i].Valid() && fresh(shards[i].repr - old(shards[i].repr)) && this !in shards[i].repr
      requires views == old(views)[i := shards[i].View()] && repr == old(repr) + shards[i].repr
      requires forall o :: o in old(repr) && o != shards[i] && o !in old(shards[i].repr) ==> unchanged(o)
      ensures Valid()
    {
      hide Shard.Valid, Shard.View;
      forall j | 0 <= j < SHARD_COUNT ensures old(shards[j].repr) <= old(repr) && shards[j] in old(repr) {
        assert old(Apart(j));
      }
      forall j | 0 <= j < SHARD_COUNT && j != i ensures unchanged(shards[j]) && Apart(j) {
        assert old(Apart(j));
        assert old(Separate(shards[if i < j then i else j], shards[if i < j then j else i]));
      }
      assert old(Apart(i));
      assert Apart(i);
      forall j, k | 0 <= j < k < SHARD_COUNT ensures Separate(shards[j], shards[k]) {
        assert old(Separate(shards[j], shards[k]));
      }
    }

    method Get(k: Key, now: int) returns (value: Option<RRSet>)
      requires Valid()
      modifies this`views, repr
      ensures Valid() && repr == old(repr)
      ensures var i := Route(k); var got := GetItem(old(views)[i], k, now);
              views == old(views)[i := got.0] && value == got.1
      ensures value.Some? <==> Hits(old(views)[Route(k)], k, now)
      ensures value.Some? ==> forall j :: Live(old(views)[Route(k)], k, now, j) ==>
                value.value == old(views)[Route(k)][j].value
    {
      hide GetItem, Shard.Valid, Shard.View;
      var i := Route(k);
      assert Apart(i);
      value := shards[i].Get(k, now);
      views := views[i := shards[i].View()];
      Kept(i);
    }

    /** A duration that is not positive removes the key instead. */
    method Set(k: Key, value: RRSet, ttl: int, now: int)
      requires Valid()
      modifies this, repr
      ensures Valid() && fresh(repr - old(repr))
      ensures var i := Route(k); var was := old(views)[i];
              views == old(views)[i := if ttl <= 0 then DeleteKey(was, k)
                                       else SetItem(was, capacity, Item(k, value, now + ttl))]
    {
      hide DeleteKey, SetItem, Shard.Valid, Shard.View;
      var i := Route(k);
      assert Apart(i);
      shards[i].Set(k, value, ttl, now);
      views := views[i := shards[i].View()];
      repr := repr + shards[i].repr;
      Kept(i);
    }

    method Delete(k: Key)
      requires Valid()
      modifies this`views, repr
      ensures Valid() && repr == old(repr)
      ensures views == old(views)[Route(k) := DeleteKey(old(views)[Route(k)], k)]
    {
      hide DeleteKey, Shard.Valid, Shard.View;
      var i := Route(k);
      assert Apart(i);
      shards[i].Delete(k);
      views := views[i := shards[i].View()];
      Kept(i);
    }

    method ClearShard(i: nat)
      requires Valid() && i < SHARD_COUNT
      modifies this`views, repr
      ensures Valid() && repr == old(repr) && views == old(views)[i := []]
    {
      assert Apart(i);
      shards[i].Clear();
      views := views[i := shards[i].View()];
      Kept(i);
    }

    method Clear()
      requires Valid()
      modifies this`views, repr
      ensures Valid() && repr == old(repr) && forall i :: 0 <= i < SHARD_COUNT ==> views[i] == []
    {
      hide Apart, Separate;
      for i := 0 to SHARD_COUNT
        invariant Valid() && repr == old(repr)
        invariant forall j :: 0 <= j < i ==> views[j] == []
      {
        ClearShard(i);
      }
    }
  }

  ghost predicate NewShard(s: Shard, capacity: nat, r: set<object>)
    reads s, r
  {
    s in r && s.repr <= r && s.Valid() && s.capacity == capacity && s.View() == []
  }

  ghost predicate Separate(s: Shard, t: Shard)
    reads s, t
  {
    s != t && s.repr !! t.repr && s !in t.repr && t !in s.repr
  }
}
