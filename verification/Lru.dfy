/**
 The answer cache (internal/cache/cache.go): shards, each a map into a doubly linked list between
 two sentinels. A shard behaves like a sequence of items, most recently used first.
 */
module Lru {
  import opened Octets
  import opened Records

  datatype Key = Key(name: Bytes, rtype: U16)
  datatype Item = Item(key: Key, value: RRSet, expiresAt: int)

  // ---- the sequence a shard behaves like ----

  function Find(v: seq<Item>, k: Key): (i: int)
    ensures -1 <= i < |v|
    ensures i >= 0 ==> v[i].key == k
    ensures i == -1 ==> forall j :: 0 <= j < |v| ==> v[j].key != k
  {
    if v == [] then -1
    else if v[0].key == k then 0
    else var i := Find(v[1..], k); if i == -1 then -1 else i + 1
  }

  function Without<T>(v: seq<T>, i: nat): (r: seq<T>)
    requires i < |v|
    ensures |r| == |v| - 1
  {
    v[..i] + v[i + 1..]
  }

  /** An update moves to the front; a new key at capacity pushes out the last item. */
  function SetItem(v: seq<Item>, capacity: nat, x: Item): seq<Item>
    requires capacity > 0
  {
    var i := Find(v, x.key);
    if i >= 0 then [x] + Without(v, i)
    else if |v| >= capacity then [x] + v[..|v| - 1]
    else [x] + v
  }

  function DeleteKey(v: seq<Item>, k: Key): seq<Item> {
    var i := Find(v, k);
    if i >= 0 then Without(v, i) else v
  }

  /** A hit moves to the front, an expired item is dropped and not returned. */
  function GetItem(v: seq<Item>, k: Key, now: int): (seq<Item>, Option<RRSet>) {
    var i := Find(v, k);
    if i < 0 then (v, None)
    else if now >= v[i].expiresAt then (Without(v, i), None)
    else ([v[i]] + Without(v, i), Some(v[i].value))
  }

  ghost predicate DistinctKeys(v: seq<Item>) {
    forall i, j :: 0 <= i < j < |v| ==> v[i].key != v[j].key
  }

  lemma FindIs(v: seq<Item>, i: nat)
    requires DistinctKeys(v) && i < |v|
    ensures Find(v, v[i].key) == i
  {
  }

  /** The i-th item is the key's, and unexpired. */
  ghost predicate Live(v: seq<Item>, k: Key, now: int, i: int) {
    0 <= i < |v| && v[i].key == k && now < v[i].expiresAt
  }

  ghost predicate Hits(v: seq<Item>, k: Key, now: int) {
    exists i :: Live(v, k, now, i)
  }

  lemma LiveIsFound(v: seq<Item>, k: Key, now: int)
    requires DistinctKeys(v)
    ensures forall i :: Live(v, k, now, i) <==> i == Find(v, k) >= 0 && now < v[i].expiresAt
  {
    forall i | Live(v, k, now, i) ensures i == Find(v, k) {
      FindIs(v, i);
    }
  }

  // ---- linked entries ----

  class Entry {
    var prev: Entry?
    var next: Entry?
    var key: Key
    var value: RRSet
    var expiresAt: int

    constructor (key: Key, value: RRSet, expiresAt: int)
      ensures this.key == key && this.value == value && this.expiresAt == expiresAt
    {
      this.prev, this.next, this.key, this.value, this.expiresAt := null, null, key, value, expiresAt;
    }

    ghost function Contents(): Item
      reads `key, `value, `expiresAt
    {
      Item(key, value, expiresAt)
    }
  }

  /** Neighbours point at each other, and no entry occurs twice. */
  ghost predicate Linked(chain: seq<Entry>)
    reads chain`prev, chain`next
  {
    && (forall i :: 0 <= i < |chain| - 1 ==> chain[i].next == chain[i + 1])
    && (forall i :: 0 < i < |chain| ==> chain[i].prev == chain[i - 1])
    && (forall i, j :: 0 <= i < j < |chain| ==> chain[i] != chain[j])
  }

  method Unlink(e: Entry, ghost chain: seq<Entry>, ghost i: nat)
    requires Linked(chain) && 0 < i < |chain| - 1 && chain[i] == e
    modifies chain`prev, chain`next
    ensures Linked(Without(chain, i)) && e.prev == null && e.next == null
  {
    assert chain[i].prev == chain[i - 1] && chain[i].next == chain[i + 1];
    e.prev.next := e.next;
    e.next.prev := e.prev;
    e.prev := null;
    e.next := null;
    ghost var rest := Without(chain, i);
    forall k | 0 <= k < |rest| - 1 ensures rest[k].next == rest[k + 1] && rest[k + 1].prev == rest[k] {
      var a, b := if k < i then k else k + 1, if k + 1 < i then k + 1 else k + 2;
      assert rest[k] == chain[a] && rest[k + 1] == chain[b];
      assert old(chain[a].next) == chain[a + 1] && old(chain[b].prev) == chain[b - 1];
    }
    forall k, l | 0 <= k < l < |rest| ensures rest[k] != rest[l] {
      assert rest[k] == chain[if k < i then k else k + 1] && rest[l] == chain[if l < i then l else l + 1];
    }
  }

  method LinkFront(head: Entry, e: Entry, ghost chain: seq<Entry>)
    requires Linked(chain) && |chain| >= 2 && chain[0] == head && e !in chain
    modifies chain`prev, chain`next, e`prev, e`next
    ensures Linked([head, e] + chain[1..])
  {
    assert chain[0].next == chain[1];
    e.next := head.next;
    e.prev := head;
    head.next.prev := e;
    head.next := e;
    ghost var all := [head, e] + chain[1..];
    forall k | 0 <= k < |all| - 1 ensures all[k].next == all[k + 1] && all[k + 1].prev == all[k] {
      if k >= 2 {
        assert all[k] == chain[k - 1] && all[k + 1] == chain[k];
        assert old(chain[k - 1].next) == chain[k] && old(chain[k].prev) == chain[k - 1];
      }
    }
    forall k, l | 0 <= k < l < |all| ensures all[k] != all[l] {
      if k >= 2 { assert all[k] == chain[k - 1]; }
      if l >= 2 { assert all[l] == chain[l - 1]; }
    }
  }

  // ---- the map beside the list ----

  /** The map points at exactly the entries of the list, each under its key. */
  ghost predicate Indexed(items: map<Key, Entry>, list: seq<Entry>)
    reads list`key
  {
    && (forall i :: 0 <= i < |list| ==> list[i].key in items && items[list[i].key] == list[i])
    && (forall k :: k in items ==> items[k] in list && items[k].key == k)
    && |items| == |list|
  }

  ghost function ViewOf(list: seq<Entry>): (v: seq<Item>)
    reads list`key, list`value, list`expiresAt
    ensures |v| == |list| && forall i :: 0 <= i < |list| ==> v[i] == list[i].Contents()
  {
    if list == [] then [] else [list[0].Contents()] + ViewOf(list[1..])
  }

  ghost predicate NoRepeat(list: seq<Entry>) {
    forall i, j :: 0 <= i < j < |list| ==> list[i] != list[j]
  }

  lemma IndexedDistinct(items: map<Key, Entry>, list: seq<Entry>)
    requires Indexed(items, list) && NoRepeat(list)
    ensures DistinctKeys(ViewOf(list))
  {
  }

  lemma WithoutAt<T>(list: seq<T>, i: nat, j: nat)
    requires i < |list| && j < |list| - 1
    ensures Without(list, i)[j] == list[if j < i then j else j + 1]
  {
  }

  lemma NoRepeatWithout(list: seq<Entry>, i: nat)
    requires NoRepeat(list) && i < |list|
    ensures NoRepeat(Without(list, i)) && list[i] !in Without(list, i)
  {
    var rest := Without(list, i);
    forall j | 0 <= j < |rest| ensures rest[j] == list[if j < i then j else j + 1] && rest[j] != list[i] {
      WithoutAt(list, i, j);
    }
  }

  lemma ViewWithout(list: seq<Entry>, i: nat)
    requires i < |list|
    ensures ViewOf(Without(list, i)) == Without(ViewOf(list), i)
  {
    var v, w := ViewOf(Without(list, i)), Without(ViewOf(list), i);
    forall j | 0 <= j < |v| ensures v[j] == w[j] {
      WithoutAt(list, i, j);
      WithoutAt(ViewOf(list), i, j);
    }
  }

  lemma {:induction false} IndexedWithout(items: map<Key, Entry>, list: seq<Entry>, i: nat)
    requires Indexed(items, list) && NoRepeat(list) && i < |list|
    ensures Indexed(items - {list[i].key}, Without(list, i))
  {
    hide NoRepeat;
    var rest, less := Without(list, i), items - {list[i].key};
    NoRepeatWithout(list, i);
    assert |less| == |rest| by { assert less.Keys == items.Keys - {list[i].key}; }
    forall j | 0 <= j < |rest| ensures rest[j].key in less && less[rest[j].key] == rest[j] {
      WithoutAt(list, i, j);
      assert rest[j] in rest;
    }
    forall k | k in less ensures less[k] in rest {
      var j :| 0 <= j < |list| && list[j] == items[k];
      WithoutAt(list, i, if j < i then j else j - 1);
    }
  }

  lemma FrontHas(items: map<Key, Entry>, list: seq<Entry>, e: Entry, k: Key)
    requires Indexed(items, list) && k in items[e.key := e] && e.key !in items
    ensures items[e.key := e][k] in [e] + list && items[e.key := e][k].key == k
  {
    if k != e.key {
      var j :| 0 <= j < |list| && list[j] == items[k];
      assert ([e] + list)[j + 1] == items[k];
    }
  }

  lemma FrontAt(items: map<Key, Entry>, list: seq<Entry>, e: Entry, j: nat)
    requires Indexed(items, list) && e.key !in items && j <= |list|
    ensures var x := ([e] + list)[j]; x.key in items[e.key := e] && items[e.key := e][x.key] == x
  {
    if j > 0 { assert ([e] + list)[j] == list[j - 1]; }
  }

  lemma IndexedFront(items: map<Key, Entry>, list: seq<Entry>, e: Entry)
    requires Indexed(items, list) && e.key !in items
    ensures Indexed(items[e.key := e], [e] + list)
  {
    var more, all := items[e.key := e], [e] + list;
    assert |more| == |all| by { assert more.Keys == items.Keys + {e.key}; }
    forall j: nat | j < |all| ensures all[j].key in more && more[all[j].key] == all[j] {
      FrontAt(items, list, e, j);
    }
    forall k | k in more ensures more[k] in all && more[k].key == k {
      FrontHas(items, list, e, k);
    }
  }

  lemma ViewFront(list: seq<Entry>, e: Entry)
    ensures ViewOf([e] + list) == [e.Contents()] + ViewOf(list)
  {
    assert ([e] + list)[1..] == list;
  }

  lemma IndexedFind(items: map<Key, Entry>, list: seq<Entry>, k: Key) returns (i: int)
    requires Indexed(items, list) && NoRepeat(list)
    ensures i == Find(ViewOf(list), k) && (k in items <==> i >= 0) && (i >= 0 ==> list[i] == items[k])
    ensures DistinctKeys(ViewOf(list))
  {
    i := Find(ViewOf(list), k);
    IndexedDistinct(items, list);
    if k in items {
      var j :| 0 <= j < |list| && list[j] == items[k];
      FindIs(ViewOf(list), j);
    }
  }

  lemma LinkedInner(head: Entry, list: seq<Entry>, tail: Entry)
    requires Linked([head] + list + [tail])
    ensures NoRepeat(list) && head !in list && tail !in list
  {
    var chain := [head] + list + [tail];
    forall i | 0 <= i < |list| ensures list[i] == chain[i + 1] && list[i] != head && list[i] != tail {
      assert chain[0] == head && chain[|list| + 1] == tail;
    }
    forall i, j | 0 <= i < j < |list| ensures list[i] != list[j] {
      assert chain[i + 1] != chain[j + 1];
    }
  }

  lemma ChainWithout(head: Entry, list: seq<Entry>, tail: Entry, i: nat)
    requires i < |list|
    ensures ([head] + list + [tail])[i + 1] == list[i]
    ensures [head] + Without(list, i) + [tail] == Without([head] + list + [tail], i + 1)
  {
    var chain := [head] + list + [tail];
    assert chain[..i + 1] == [head] + list[..i];
    assert chain[i + 2..] == list[i + 1..] + [tail];
  }

  lemma ChainFront(head: Entry, list: seq<Entry>, tail: Entry, e: Entry)
    ensures [head] + ([e] + list) + [tail] == [head, e] + ([head] + list + [tail])[1..]
    ensures ([head] + list + [tail])[0] == head
  {
    assert ([head] + list + [tail])[1..] == list + [tail];
  }

  lemma ViewAt(list: seq<Entry>, i: nat)
    requires i < |list|
    ensures ViewOf(list)[i] == list[i].Contents()
  {
  }

  lemma FirstEntry(head: Entry, list: seq<Entry>, tail: Entry)
    requires Linked([head] + list + [tail])
    ensures list != [] ==> head.next == list[0]
  {
    var chain := [head] + list + [tail];
    assert chain[0].next == chain[1];
  }

  lemma LastEntry(head: Entry, list: seq<Entry>, tail: Entry)
    requires Linked([head] + list + [tail])
    ensures list != [] ==> tail.prev == list[|list| - 1]
  {
    var chain := [head] + list + [tail];
    assert chain[|list| + 1].prev == chain[|list|];
  }

  lemma FrontAgain(v: seq<Item>)
    requires v != []
    ensures v == [v[0]] + Without(v, 0)
  {
  }

  lemma WithoutLast(v: seq<Item>)
    requires v != []
    ensures Without(v, |v| - 1) == v[..|v| - 1]
  {
  }

  lemma WithoutUpdated(v: seq<Item>, i: nat, x: Item)
    requires i < |v|
    ensures Without(v[i := x], i) == Without(v, i)
  {
  }

  lemma IndexedSize(items: map<Key, Entry>, list: seq<Entry>)
    requires Indexed(items, list)
    ensures |items| == |list|
  {
  }

  lemma IndexedKey(items: map<Key, Entry>, list: seq<Entry>, i: nat)
    requires Indexed(items, list) && i < |list|
    ensures list[i].key in items && items[list[i].key] == list[i] && |items| == |list|
  {
  }

  // ---- a shard ----

  class Shard {
    const capacity: nat
    const head: Entry
    const tail: Entry
    var items: map<Key, Entry>
    ghost var list: seq<Entry>
    ghost var repr: set<object>

    ghost function Chain(): seq<Entry>
      reads this
    {
      [head] + list + [tail]
    }

    /** The list is well linked, and the map points at exactly its entries. */
    ghost predicate Valid()
      reads this, repr
    {
      && this !in repr && head in repr && tail in repr && (forall i :: 0 <= i < |list| ==> list[i] in repr)
      && Linked(Chain())
      && Indexed(items, list)
      && |list| <= capacity && capacity > 0
    }

    ghost function View(): seq<Item>
      requires Valid()
      reads this, repr
    {
      ViewOf(list)
    }

    constructor (capacity: nat)
      requires capacity > 0
      ensures Valid() && fresh(repr) && this.capacity == capacity && View() == []
    {
      this.capacity := capacity;
      var k := Key([], 0);
      head := new Entry(k, ZERO_SET, 0);
      tail := new Entry(k, ZERO_SET, 0);
      items, list := map[], [];
      new;
      repr := {head, tail};
      head.next := tail;
      tail.prev := head;
    }

    /** Takes the i-th entry out of the list and the map. */
    method Drop(e: Entry, ghost i: nat)
      requires Valid() && i < |list| && list[i] == e
      modifies this`items, this`list, Chain()`prev, Chain()`next
      ensures Valid() && list == Without(old(list), i) && items == old(items) - {e.key}
      ensures View() == Without(old(View()), i)
      ensures e !in list && e != head && e != tail && e in repr
    {
      hide Linked, Indexed, Without, ViewOf;
      ghost var chain := Chain();
      ChainWithout(head, list, tail, i);
      LinkedInner(head, list, tail);
      IndexedWithout(items, list, i);
      ViewWithout(list, i);
      NoRepeatWithout(list, i);
      Unlink(e, chain, i + 1);
      items := items - {e.key};
      list := Without(list, i);
      forall j | 0 <= j < |list| ensures list[j] in repr {
        WithoutAt(old(list), i, j);
      }
    }

    /** Puts an entry at the front of the list and into the map. */
    method PushFront(e: Entry)
      requires Valid() && e !in Chain() && e.key !in items && |list| < capacity
      modifies this`items, this`list, this`repr, Chain()`prev, Chain()`next, e`prev, e`next
      ensures Valid() && repr == old(repr) + {e} && list == [e] + old(list)
      ensures items == old(items)[e.key := e]
      ensures View() == [old(e.Contents())] + old(View())
    {
      hide Linked, Indexed, ViewOf;
      ghost var chain := Chain();
      ChainFront(head, list, tail, e);
      IndexedFront(items, list, e);
      ViewFront(list, e);
      LinkFront(head, e, chain);
      items := items[e.key := e];
      list := [e] + list;
      repr := repr + {e};
    }

    /** Looks a key up; a live hit moves to the front, an expired entry goes away. */
    method Get(k: Key, now: int) returns (value: Option<RRSet>)
      requires Valid()
      modifies this, repr
      ensures Valid() && repr == old(repr)
      ensures (View(), value) == GetItem(old(View()), k, now)
      ensures value.Some? <==> Hits(old(View()), k, now)
      ensures value.Some? ==> forall i :: Live(old(View()), k, now, i) ==> value.value == old(View())[i].value
    {
      hide Linked, Indexed, ViewOf, Find, DistinctKeys;
      LinkedInner(head, list, tail);
      ghost var i := IndexedFind(items, list, k);
      LiveIsFound(View(), k, now);
      if k !in items { return None; }
      var e := items[k];
      ViewAt(list, i);
      if now >= e.expiresAt {
        Drop(e, i);
        return None;
      }
      value := Some(e.value);
      Promote(e, i);
    }

    /** Moves an entry to the front; nothing to do when it is there already. */
    method Promote(e: Entry, ghost i: nat)
      requires Valid() && i < |list| && list[i] == e
      modifies this, repr
      ensures Valid() && repr == old(repr) && items == old(items)
      ensures View() == [old(e.Contents())] + Without(old(View()), i)
    {
      hide Linked, Indexed, ViewOf, Without;
      ViewAt(list, i);
      LinkedInner(head, list, tail);
      FirstEntry(head, list, tail);
      if head.next == e {
        assert i == 0;
        FrontAgain(View());
        return;
      }
      ghost var before := items;
      IndexedKey(items, list, i);
      Drop(e, i);
      PushFront(e);
      assert items == before;
    }

    method Delete(k: Key)
      requires Valid()
      modifies this, repr
      ensures Valid() && repr == old(repr) && View() == DeleteKey(old(View()), k)
    {
      hide Linked, Indexed, ViewOf, Find;
      LinkedInner(head, list, tail);
      ghost var i := IndexedFind(items, list, k);
      if k in items { Drop(items[k], i); }
    }

    /** The map and the view agree on a key. */
    lemma Holds(k: Key) returns (i: int)
      requires Valid()
      ensures i == Find(View(), k) && |View()| == |items| == |list| && (k in items <==> i >= 0)
      ensures i >= 0 ==> list[i] == items[k]
    {
      LinkedInner(head, list, tail);
      i := IndexedFind(items, list, k);
    }

    /** Inserts or updates; at capacity the entry at the tail is recycled for the new key. */
    method Set(k: Key, value: RRSet, ttl: int, now: int)
      requires Valid()
      modifies this, repr
      ensures Valid() && fresh(repr - old(repr))
      ensures View() == if ttl <= 0 then DeleteKey(old(View()), k)
                        else SetItem(old(View()), capacity, Item(k, value, now + ttl))
    {
      hide Valid, View, Find, Without;
      if ttl <= 0 {
        Delete(k);
        return;
      }
      ghost var i := Holds(k);
      assert capacity > 0 by { HasRoom(); }
      if k in items {
        Update(items[k], i, value, now + ttl);
      } else if |items| >= capacity {
        Recycle(k, value, now + ttl);
      } else {
        Insert(k, value, now + ttl);
      }
    }

    lemma HasRoom()
      requires Valid()
      ensures capacity > 0
    {
    }

    method Insert(k: Key, value: RRSet, expiresAt: int)
      requires Valid() && k !in items && |items| < capacity
      modifies this, repr
      ensures Valid() && fresh(repr - old(repr))
      ensures View() == [Item(k, value, expiresAt)] + old(View())
    {
      hide Linked, Indexed, ViewOf;
      IndexedSize(items, list);
      var e := new Entry(k, value, expiresAt);
      PushFront(e);
    }

    method Update(e: Entry, ghost i: nat, value: RRSet, expiresAt: int)
      requires Valid() && i < |list| && list[i] == e
      modifies this, repr
      ensures Valid() && repr == old(repr)
      ensures View() == [old(View())[i].(value := value, expiresAt := expiresAt)] + Without(old(View()), i)
    {
      hide Linked, Indexed, ViewOf, Without;
      Rewrite(e, i, value, expiresAt);
      WithoutUpdated(old(View()), i, Item(e.key, value, expiresAt));
      Promote(e, i);
    }

    /** Reuses the least recently used entry for a key the shard does not hold. */
    method Recycle(k: Key, value: RRSet, expiresAt: int)
      requires Valid() && k !in items && list != []
      modifies this, repr
      ensures Valid() && repr == old(repr)
      ensures View() == [Item(k, value, expiresAt)] + old(View())[..|old(View())| - 1]
    {
      hide Valid, View;
      var e := TakeLast();
      PutBack(e, k, value, expiresAt);
    }

    /** Takes the entry at the tail out of the list and the map. */
    method TakeLast() returns (e: Entry)
      requires Valid() && list != []
      modifies this, repr
      ensures Valid() && repr == old(repr) && View() == old(View())[..|old(View())| - 1] && |old(View())| == |old(list)|
      ensures e !in Chain() && e in repr && |list| < capacity && forall k :: k in items ==> k in old(items)
    {
      hide Linked, Indexed, ViewOf, Without;
      LastEntry(head, list, tail);
      e := tail.prev;
      WithoutLast(View());
      Drop(e, |list| - 1);
    }

    /** Fills an entry that is out of the list and links it at the front. */
    method PutBack(e: Entry, k: Key, value: RRSet, expiresAt: int)
      requires Valid() && e !in Chain() && e in repr && k !in items && |list| < capacity
      modifies this, repr
      ensures Valid() && repr == old(repr) && View() == [Item(k, value, expiresAt)] + old(View())
    {
      hide Linked, Indexed, ViewOf;
      Refill(e, k, value, expiresAt);
      PushFront(e);
      assert repr == old(repr);
    }

    /** Fills an entry that is out of the list. */
    method Refill(e: Entry, k: Key, value: RRSet, expiresAt: int)
      requires Valid() && e !in list
      modifies e`key, e`value, e`expiresAt
      ensures Valid() && View() == old(View()) && e.Contents() == Item(k, value, expiresAt)
    {
      hide Linked, Without;
      e.key, e.value, e.expiresAt := k, value, expiresAt;
      assert forall i :: 0 <= i < |list| ==> list[i] != e;
    }

    method Rewrite(e: Entry, ghost i: nat, value: RRSet, expiresAt: int)
      requires Valid() && i < |list| && list[i] == e
      modifies e`value, e`expiresAt
      ensures Valid() && View() == old(View())[i := Item(e.key, value, expiresAt)]
    {
      hide Linked, Indexed;
      LinkedInner(head, list, tail);
      e.value := value;
      e.expiresAt := expiresAt;
      ghost var v, w := View(), old(View())[i := Item(e.key, value, expiresAt)];
      forall j | 0 <= j < |v| ensures v[j] == w[j] {
        assert j != i ==> list[j] != e;
      }
    }

    /** Empties the shard; dropped entries are simply forgotten. */
    method Clear()
      requires Valid()
      modifies this, repr
      ensures Valid() && repr == old(repr) && View() == []
    {
      assert Chain()[0] == head && Chain()[|list| + 1] == tail;
      items := map[];
      head.next := tail;
      tail.prev := head;
      list := [];
      assert Chain() == [head, tail];
    }
  }
}
