/** common/cache/lrucache.go: the map and the list that realise the cache. The mutex is not modelled:
    every method is one critical section. */
module LruCache {
  import opened LinkedList
  import opened Options
  import opened Sequences
  import opened LruSpec
  import opened LruExpiry
  import Spec = LruSpec

  class Entry<K, V> {
    const key: K
    var value: V
    var expires: int

    constructor (key: K, value: V, expires: int)
      ensures this.key == key && this.value == value && this.expires == expires
    {
      this.key, this.value, this.expires := key, value, expires;
    }
  }

  /** The map leads from every key to the one list element that holds it. Keys and the elements'
      entries never change, so this does not depend on the heap. */
  ghost predicate Indexed<K, V>(nodes: seq<Element<Entry<K, V>>>, cache: map<K, Element<Entry<K, V>>>) {
    (forall n :: n in nodes ==> n.value.key in cache && cache[n.value.key] == n)
    && (forall k :: k in cache ==> cache[k] in nodes && cache[k].value.key == k)
  }

  /** The entries of a list's elements have these contents. */
  ghost predicate Mirrors<K, V>(nodes: seq<Element<Entry<K, V>>>, items: seq<Item<K, V>>)
    reads set n | n in nodes :: n.value
  {
    |items| == |nodes|
    && forall i :: 0 <= i < |nodes| ==>
         items[i].key == nodes[i].value.key && items[i].value == nodes[i].value.value && items[i].expires == nodes[i].value.expires
  }

  ghost predicate Within<K, V>(nodes: seq<Element<Entry<K, V>>>, repr: set<object>) {
    forall n :: n in nodes ==> n in repr && n.value in repr
  }

  lemma MirroredAt<K, V>(nodes: seq<Element<Entry<K, V>>>, items: seq<Item<K, V>>, k: nat)
    requires Mirrors(nodes, items) && k < |nodes|
    ensures k < |items| && items[k] == Item(nodes[k].value.key, nodes[k].value.value, nodes[k].value.expires)
  {
  }

  lemma MirrorsWithout<K, V>(nodes: seq<Element<Entry<K, V>>>, items: seq<Item<K, V>>, k: nat, repr: set<object>)
    requires Mirrors(nodes, items) && Within(nodes, repr) && k < |nodes|
    ensures Mirrors(Without(nodes, k), Without(items, k)) && Within(Without(nodes, k), repr)
    ensures Mirrors(Without(nodes, k) + [nodes[k]], Without(items, k) + [items[k]])
    ensures Within(Without(nodes, k) + [nodes[k]], repr)
  {
    var ns, us := Without(nodes, k), Without(items, k);
    forall i | 0 <= i < |ns|
      ensures ns[i] == nodes[if i < k then i else i + 1] && us[i] == items[if i < k then i else i + 1]
    {
    }
  }

  lemma MirrorsAppended<K, V>(nodes: seq<Element<Entry<K, V>>>, items: seq<Item<K, V>>, le: Element<Entry<K, V>>, repr: set<object>)
    requires Mirrors(nodes, items) && Within(nodes, repr)
    ensures Mirrors(nodes + [le], items + [Item(le.value.key, le.value.value, le.value.expires)])
    ensures Within(nodes + [le], repr + {le.value, le})
  {
  }

  lemma DistinctNodes<T>(list: List<T>)
    requires list.Valid()
    ensures Distinct(list.nodes)
  {
  }

  lemma IndexedWithout<K, V>(nodes: seq<Element<Entry<K, V>>>, cache: map<K, Element<Entry<K, V>>>, k: nat)
    requires Indexed(nodes, cache) && Distinct(nodes) && k < |nodes|
    ensures Indexed(Without(nodes, k), cache - {nodes[k].value.key})
    ensures Indexed(Without(nodes, k) + [nodes[k]], cache)
  {
    WithoutMembers(nodes, k);
  }

  lemma EmptyIndexed<K, V>()
    ensures Indexed<K, V>([], map[])
  {
  }

  lemma IndexedAppended<K, V>(nodes: seq<Element<Entry<K, V>>>, cache: map<K, Element<Entry<K, V>>>, le: Element<Entry<K, V>>)
    requires Indexed(nodes, cache) && le.value.key !in cache
    ensures Indexed(nodes + [le], cache[le.value.key := le])
  {
  }

  class LruCache<K(==), V> {
    const cfg: Config
    var cache: map<K, Element<Entry<K, V>>>
    var lru: List<Entry<K, V>>
    var calls: seq<(K, V)> // the calls made to onEvict so far
    ghost var items: seq<Item<K, V>> // the entries, least recently touched first
    ghost var Repr: set<object>

    ghost predicate Valid()
      reads this, Repr
    {
      this in Repr && lru in Repr && Within(lru.nodes, Repr)
      && lru.Valid() && Indexed(lru.nodes, cache) && Mirrors(lru.nodes, items)
    }

    ghost function State(): State<K, V>
      reads this
    {
      Spec.State(items, calls)
    }

    constructor (cfg: Config)
      ensures Valid() && this.cfg == cfg && State() == Spec.State([], []) && fresh(Repr)
    {
      this.cfg := cfg;
      cache, calls, items := map[], [], [];
      lru := new List();
      new;
      Repr := {this, lru};
    }

    /** The map and the list agree on which keys there are, and no key is there twice. */
    lemma KeyAgrees(key: K)
      requires Valid()
      ensures Unique(items) && |items| == |lru.nodes|
      ensures key in cache <==> Has(items, key)
      ensures key in cache ==> lru.nodes[Find(items, key)] == cache[key]
    {
      hide Find;
      KeysDistinct();
      if key in cache {
        var i :| 0 <= i < |lru.nodes| && lru.nodes[i] == cache[key];
        assert items[i].key == key;
      }
      if Has(items, key) {
        assert lru.nodes[Find(items, key)] in lru.nodes;
      }
    }

    lemma KeysDistinct()
      requires Valid()
      ensures Unique(items) && |items| == |lru.nodes|
      ensures forall i, j :: 0 <= i < j < |items| ==> lru.nodes[i].value.key != lru.nodes[j].value.key
    {
      forall i, j | 0 <= i < j < |items| ensures items[i].key != items[j].key {
        assert lru.nodes[i] in lru.nodes && lru.nodes[j] in lru.nodes;
      }
    }

    /** Takes an element out of the list; the map still has its key. */
    method Unlink(le: Element<Entry<K, V>>, ghost k: nat)
      requires Valid() && k < |lru.nodes| && lru.nodes[k] == le
      modifies `items, lru, lru.nodes
      ensures lru.Valid() && Within(lru.nodes, Repr) && Mirrors(lru.nodes, items)
      ensures lru.nodes == Without(old(lru.nodes), k) && items == Without(old(items), k)
    {
      hide Indexed, Without;
      ghost var nodes := lru.nodes;
      lru.Remove(le, k);
      MirrorsWithout(nodes, items, k, Repr);
      items := Without(items, k);
    }

    method DeleteElement(le: Element<Entry<K, V>>, ghost k: nat)
      requires Valid() && k < |lru.nodes| && lru.nodes[k] == le
      modifies Repr
      ensures Valid() && Repr == old(Repr) && lru == old(lru)
      ensures State() == Drop(cfg, old(State()), k)
    {
      hide Indexed, Without, Mirrors, List.Valid;
      MirroredAt(lru.nodes, items, k);
      DistinctNodes(lru);
      IndexedWithout(lru.nodes, cache, k);
      Unlink(le, k);
      cache := cache - {le.value.key};
      if cfg.hasCallback {
        calls := calls + [(le.value.key, le.value.value)];
      }
    }

    method MaybeDeleteOldest(now: int)
      requires Valid()
      modifies Repr
      ensures Valid() && Repr == old(Repr) && lru == old(lru)
      ensures State() == Purge(cfg, old(State()), now)
    {
      hide Indexed;
      if !cfg.staleReturn && cfg.maxAge > 0 {
        while lru.head != null && lru.head.value.expires <= now
          invariant Valid() && Repr == old(Repr) && lru == old(lru)
          invariant Purge(cfg, State(), now) == Purge(cfg, old(State()), now)
          decreases lru.len
        {
          DeleteElement(lru.head, 0);
        }
      }
    }

    /** The entry of a key that is there: moved to the recent end, with a new value and expiry. */
    method Refresh(le: Element<Entry<K, V>>, ghost k: nat, value: V, expires: int)
      requires Valid() && k < |lru.nodes| && lru.nodes[k] == le
      modifies Repr
      ensures Valid() && Repr == old(Repr) && lru == old(lru) && calls == old(calls)
      ensures items == Without(old(items), k) + [Item(old(items[k].key), value, expires)]
    {
      hide Indexed, Without;
      MoveItem(le, k);
      KeyAgrees(items[k].key);
      SetContent(le.value, |lru.nodes| - 1, value, expires);
    }

    method MoveItem(le: Element<Entry<K, V>>, ghost k: nat)
      requires Valid() && k < |lru.nodes| && lru.nodes[k] == le
      modifies Repr
      ensures Valid() && Repr == old(Repr) && lru == old(lru) && calls == old(calls)
      ensures items == Without(old(items), k) + [old(items)[k]] && lru.nodes == Without(old(lru.nodes), k) + [le]
    {
      hide Indexed, Without, List.Valid, Mirrors;
      ghost var nodes := lru.nodes;
      DistinctNodes(lru);
      IndexedWithout(nodes, cache, k);
      lru.MoveToBack(le, k);
      MirrorsWithout(nodes, items, k, Repr);
      items := Without(items, k) + [items[k]];
    }

    method SetContent(e: Entry<K, V>, ghost k: nat, value: V, expires: int)
      requires Valid() && k < |lru.nodes| && lru.nodes[k].value == e && Unique(items)
      modifies Repr
      ensures Valid() && Repr == old(Repr) && lru == old(lru) && calls == old(calls)
      ensures items == old(items)[k := Item(old(items[k].key), value, expires)]
    {
      hide Indexed;
      assert forall i :: 0 <= i < |items| && i != k ==> items[i].key != items[k].key;
      e.value := value;
      e.expires := expires;
      items := items[k := Item(items[k].key, value, expires)];
    }

    method Append(key: K, value: V, expires: int)
      requires Valid() && key !in cache
      modifies Repr
      ensures Valid() && fresh(Repr - old(Repr)) && lru == old(lru) && calls == old(calls)
      ensures items == old(items) + [Item(key, value, expires)]
    {
      hide Indexed, Mirrors, List.Valid;
      var e := new Entry(key, value, expires);
      var le := lru.PushBack(e);
      IndexedAppended(old(lru.nodes), cache, le);
      MirrorsAppended(old(lru.nodes), items, le, Repr);
      cache := cache[key := le];
      items := items + [Item(key, value, expires)];
      Repr := Repr + {e, le};
    }

    method SetWithExpire(key: K, value: V, expires: int, now: int)
      requires Valid()
      modifies Repr
      ensures Valid() && fresh(Repr - old(Repr)) && lru == old(lru)
      ensures State() == Spec.Set(cfg, old(State()), Item(key, value, expires), now)
    {
      hide Find, Purge, Indexed;
      KeyAgrees(key);
      if key in cache {
        Refresh(cache[key], Find(items, key), value, expires);
      } else {
        Append(key, value, expires);
        if cfg.maxSize > 0 && lru.len > cfg.maxSize {
          DeleteElement(lru.head, 0);
        }
      }
      MaybeDeleteOldest(now);
    }

    method Set(key: K, value: V, now: int, later: int)
      requires Valid()
      modifies Repr
      ensures Valid() && fresh(Repr - old(Repr)) && lru == old(lru)
      ensures State() == Spec.Set(cfg, old(State()), Item(key, value, if cfg.maxAge > 0 then now + cfg.maxAge else 0), later)
    {
      hide Spec.Set, Indexed;
      var expires := 0;
      if cfg.maxAge > 0 { expires := now + cfg.maxAge; }
      SetWithExpire(key, value, expires, later);
    }

    method Get(key: K, now: int, later: int) returns (r: Option<V>)
      requires Valid()
      modifies Repr
      ensures Valid() && Repr == old(Repr) && lru == old(lru)
      ensures var (t, item) := Spec.Get(cfg, old(State()), key, now, later);
              State() == t && r == if item.Some? then Some(item.value.value) else None
      ensures forall i :: 0 <= i < |old(items)| && old(items)[i].key == key ==>
                r == if Fresh(cfg, old(items)[i], now) then Some(old(items)[i].value) else None
      ensures (forall i :: 0 <= i < |old(items)| ==> old(items)[i].key != key) ==> r == None
    {
      hide Find, Purge, Drop, Indexed, Mirrors, List.Valid, Without;
      KeyAgrees(key);
      if key !in cache { return None; }
      var le := cache[key];
      ghost var k := Find(items, key);
      MirroredAt(lru.nodes, items, k);
      if !cfg.staleReturn && cfg.maxAge > 0 && le.value.expires <= now {
        DeleteElement(le, k);
        MaybeDeleteOldest(later);
        return None;
      }
      r := Some(le.value.value);
      Refresh(le, k, le.value.value, if cfg.maxAge > 0 && cfg.updateAgeOnGet then later + cfg.maxAge else le.value.expires);
    }

    method Exist(key: K) returns (r: bool)
      requires Valid()
      ensures r == Has(items, key)
    {
      KeyAgrees(key);
      r := key in cache;
    }

    method Delete(key: K)
      requires Valid()
      modifies Repr
      ensures Valid() && Repr == old(Repr) && lru == old(lru)
      ensures State() == Spec.Delete(cfg, old(State()), key)
    {
      hide Find, Indexed;
      KeyAgrees(key);
      if key in cache {
        DeleteElement(cache[key], Find(items, key));
      }
    }

    /** A new list and map over the same entries. */
    method Copy() returns (copies: List<Entry<K, V>>, index: map<K, Element<Entry<K, V>>>)
      requires Valid()
      ensures fresh(copies) && copies.Valid() && |copies.nodes| == |items| && Indexed(copies.nodes, index)
      ensures forall i :: 0 <= i < |items| ==> fresh(copies.nodes[i]) && copies.nodes[i].value == lru.nodes[i].value
    {
      hide Indexed, Mirrors, List.Valid;
      EmptyIndexed<K, V>();
      KeysDistinct();
      lru.Follow(0);
      copies := new List<Entry<K, V>>();
      index := map[];
      var e := lru.head;
      ghost var i := 0;
      while e != null
        invariant 0 <= i <= |lru.nodes| && e == if i < |lru.nodes| then lru.nodes[i] else null
        invariant fresh(copies) && copies.Valid() && |copies.nodes| == i
        invariant forall j :: 0 <= j < i ==> fresh(copies.nodes[j]) && copies.nodes[j].value == lru.nodes[j].value
        invariant Indexed(copies.nodes, index)
        invariant forall j :: i <= j < |lru.nodes| ==> lru.nodes[j].value.key !in index
        decreases |lru.nodes| - i
      {
        ghost var before := copies.nodes;
        var copy := copies.PushBack(e.value);
        IndexedAppended(before, index, copy);
        index := index[e.value.key := copy];
        lru.Follow(i);
        e, i := e.next, i + 1;
      }
    }

    /** Overwrites `n` with the same entries in the same order. The list elements are new, but the
        entries themselves are shared from now on. */
    method CloneTo(n: LruCache<K, V>)
      requires Valid() && n != this
      modifies n`lru, n`cache, n`items, n`Repr
      ensures n.Valid() && n.items == items && n.calls == old(n.calls)
      ensures Bounded(n.cfg, n.items) <==> n.cfg.maxSize <= 0 || |items| <= n.cfg.maxSize
      ensures fresh(n.lru) && forall i :: 0 <= i < |n.items| ==> fresh(n.lru.nodes[i])
      ensures forall i :: 0 <= i < |items| ==> n.lru.nodes[i].value == lru.nodes[i].value
    {
      hide Indexed, List.Valid;
      n.lru, n.cache := Copy();
      n.items := items;
      n.Repr := {n, n.lru} + (set x | x in n.lru.nodes) + (set x | x in n.lru.nodes :: x.value);
    }
  }
}
