/** What gets, sets and deletes of an ageing cache come to, entry by entry and over every run. */
module LruExpiry {
  import opened LinkedList
  import opened Options
  import opened LruSpec

  /** An entry that a get may still answer with. */
  predicate Fresh<K, V>(cfg: Config, item: Item<K, V>, now: int) {
    cfg.staleReturn || cfg.maxAge <= 0 || now < item.expires
  }

  /** An entry as a get leaves it: with `updateAgeOnGet` it starts to age again. */
  function Refreshed<K, V>(cfg: Config, item: Item<K, V>, later: int): Item<K, V> {
    if cfg.maxAge > 0 && cfg.updateAgeOnGet then Item(item.key, item.value, later + cfg.maxAge) else item
  }

  /** A get answers exactly with an entry of the key that is not out of date, which then is the most recent
      one; one out of date leaves the cache. */
  lemma GetAnswers<K, V>(cfg: Config, s: State<K, V>, key: K, now: int, later: int)
    requires Unique(s.items)
    ensures var (t, r) := Get(cfg, s, key, now, later);
            r.Some? <==> exists i :: 0 <= i < |s.items| && s.items[i].key == key && Fresh(cfg, s.items[i], now)
    ensures var (t, r) := Get(cfg, s, key, now, later);
            forall i :: 0 <= i < |s.items| && s.items[i].key == key ==>
              if Fresh(cfg, s.items[i], now) then
                r == Some(Refreshed(cfg, s.items[i], later)) && t.items == Without(s.items, i) + [r.value] && t.calls == s.calls
              else forall j :: 0 <= j < |t.items| ==> t.items[j].key != key
    ensures (forall i :: 0 <= i < |s.items| ==> s.items[i].key != key) ==> Get(cfg, s, key, now, later) == (s, None)
  {
    hide Find, Purge;
    var k := Find(s.items, key);
    if k < |s.items| && !Fresh(cfg, s.items[k], now) {
      var dropped := Drop(cfg, s, k);
      var n := PurgeIsExact(cfg, dropped, later);
      forall j | 0 <= j < |dropped.items[n..]| ensures dropped.items[n..][j].key != key {
        assert dropped.items[n..][j] == dropped.items[n + j];
      }
    }
  }

  /** What purging does: from the old end it drops entries that are out of date, up to the first that is
      not. */
  lemma {:induction false} PurgeIsExact<K, V>(cfg: Config, s: State<K, V>, now: int) returns (n: nat)
    ensures n <= |s.items| && Purge(cfg, s, now).items == s.items[n..]
    ensures n > 0 ==> !cfg.staleReturn && cfg.maxAge > 0
    ensures forall i :: 0 <= i < n ==> s.items[i].expires <= now
    ensures n < |s.items| ==> cfg.staleReturn || cfg.maxAge <= 0 || now < s.items[n].expires
    decreases |s.items|
  {
    if Expires(cfg) && |s.items| > 0 && s.items[0].expires <= now {
      var t := Drop(cfg, s, 0);
      var m := PurgeIsExact(cfg, t, now);
      n := m + 1;
      assert t.items == s.items[1..];
    } else {
      n := 0;
    }
  }

  /** And it tells the callback of each, in that order. */
  lemma {:induction false} PurgeReports<K, V>(cfg: Config, s: State<K, V>, now: int)
    ensures var n := |s.items| - |Purge(cfg, s, now).items|;
            Purge(cfg, s, now).calls == s.calls + if cfg.hasCallback then PairSeq(s.items[..n]) else []
    decreases |s.items|
  {
    hide Purge, PairSeq;
    if Expires(cfg) && |s.items| > 0 && s.items[0].expires <= now {
      var t := Drop(cfg, s, 0);
      PurgeTurn(cfg, s, now);
      PurgeReports(cfg, t, now);
      assert t.items == s.items[1..];
      OneCallMore(s, |t.items| - |Purge(cfg, t, now).items|);
    } else {
      PurgeStops(cfg, s, now);
      assert s.calls + [] == s.calls;
    }
  }

  lemma PurgeStops<K, V>(cfg: Config, s: State<K, V>, now: int)
    requires !(Expires(cfg) && |s.items| > 0 && s.items[0].expires <= now)
    ensures Purge(cfg, s, now) == s && PairSeq(s.items[..0]) == []
  {
  }

  lemma PurgeTurn<K, V>(cfg: Config, s: State<K, V>, now: int)
    requires Expires(cfg) && |s.items| > 0 && s.items[0].expires <= now
    ensures Purge(cfg, s, now) == Purge(cfg, Drop(cfg, s, 0), now)
  {
  }

  lemma OneCallMore<K, V>(s: State<K, V>, m: nat)
    requires m < |s.items|
    ensures (s.calls + [(s.items[0].key, s.items[0].value)]) + PairSeq(s.items[1..][..m]) == s.calls + PairSeq(s.items[..m + 1])
  {
    assert PairSeq(s.items[..m + 1]) == [(s.items[0].key, s.items[0].value)] + PairSeq(s.items[1..][..m]);
  }

  /** Who is in the cache after an event: an entry that was there before and is not the key's, or the key's
      own, as set or as refreshed by a get it has answered. */
  lemma WhoIsHeld<K, V>(cfg: Config, s: State<K, V>, e: Event<K, V>, x: Item<K, V>)
    requires Unique(s.items) && x in Happen(cfg, s, e).items
    ensures match e
            case SetAt(item, _) => x == item || (x in s.items && x.key != item.key)
            case GetAt(key, now, later) =>
              (x in s.items && x.key != key)
              || exists y :: y in s.items && y.key == key && Fresh(cfg, y, now) && x == Refreshed(cfg, y, later)
            case DeleteOf(key) => x in s.items && x.key != key
  {
    hide Unique, Set, Get, Delete;
    match e
    case SetAt(item, now) => HeldAfterSet(cfg, s, item, now, x);
    case GetAt(key, now, later) => HeldAfterGet(cfg, s, key, now, later, x);
    case DeleteOf(key) => HeldAfterDelete(cfg, s, key, x);
  }

  lemma HeldAfterSet<K, V>(cfg: Config, s: State<K, V>, item: Item<K, V>, now: int, x: Item<K, V>)
    requires Unique(s.items) && x in Set(cfg, s, item, now).items
    ensures x == item || (x in s.items && x.key != item.key)
  {
    hide Find, Purge, Unique, Put;
    OthersMembers(s.items, item.key);
    PutMembers(cfg, s, item, x);
    var n := PurgeIsExact(cfg, Put(cfg, s, item), now);
    assert x in Put(cfg, s, item).items;
  }

  lemma PutMembers<K, V>(cfg: Config, s: State<K, V>, item: Item<K, V>, x: Item<K, V>)
    ensures x in Put(cfg, s, item).items ==> x in Others(s.items, item.key) || x == item
  {
    hide Find;
    var grown := Others(s.items, item.key) + [item];
    assert Put(cfg, s, item).items == grown || Put(cfg, s, item).items == grown[1..];
  }

  lemma HeldAfterGet<K, V>(cfg: Config, s: State<K, V>, key: K, now: int, later: int, x: Item<K, V>)
    requires Unique(s.items) && x in Get(cfg, s, key, now, later).0.items
    ensures (x in s.items && x.key != key)
            || exists y :: y in s.items && y.key == key && Fresh(cfg, y, now) && x == Refreshed(cfg, y, later)
  {
    hide Find, Purge, Unique;
    OthersMembers(s.items, key);
    var k := Find(s.items, key);
    if k == |s.items| {
      AbsentKey(s.items, key);
    } else if Fresh(cfg, s.items[k], now) {
      assert s.items[k] in s.items && Get(cfg, s, key, now, later).0.items == Others(s.items, key) + [Refreshed(cfg, s.items[k], later)];
    } else {
      var n := PurgeIsExact(cfg, Drop(cfg, s, k), later);
      assert x in Others(s.items, key);
    }
  }

  lemma HeldAfterDelete<K, V>(cfg: Config, s: State<K, V>, key: K, x: Item<K, V>)
    requires Unique(s.items) && x in Delete(cfg, s, key).items
    ensures x in s.items && x.key != key
  {
    hide Find, Unique;
    OthersMembers(s.items, key);
    AbsentKey(s.items, key);
    assert Delete(cfg, s, key).items == Others(s.items, key);
  }

  lemma AbsentKey<K, V>(items: seq<Item<K, V>>, key: K)
    ensures Find(items, key) == |items| ==> forall x :: x in items ==> x.key != key
  {
    hide Find;
    if Find(items, key) == |items| {
      forall x | x in items ensures x.key != key {
        var i :| 0 <= i < |items| && items[i] == x;
      }
    }
  }

  /** The expiry that a key's entry has if it is still held: set with it, or started again by a get. */
  function ExpiryOf<K(==), V>(cfg: Config, events: seq<Event<K, V>>, key: K): int
    decreases |events|
  {
    if |events| == 0 then 0
    else
      var e := events[|events| - 1];
      if e.SetAt? && e.item.key == key then e.item.expires
      else if e.GetAt? && e.key == key && cfg.maxAge > 0 && cfg.updateAgeOnGet then e.later + cfg.maxAge
      else ExpiryOf(cfg, events[..|events| - 1], key)
  }

  lemma {:induction false} HoldsLatestExpiries<K, V>(cfg: Config, events: seq<Event<K, V>>)
    ensures forall x :: x in History(cfg, events).items ==> x.expires == ExpiryOf(cfg, events, x.key)
    decreases |events|
  {
    hide Happen, Unique;
    if |events| > 0 {
      var before, e := events[..|events| - 1], events[|events| - 1];
      HoldsLatestExpiries(cfg, before);
      EveryPairIsAccountedFor(cfg, before);
      forall x | x in History(cfg, events).items ensures x.expires == ExpiryOf(cfg, events, x.key) {
        WhoIsHeld(cfg, History(cfg, before), e, x);
      }
    }
  }

  /** Over every run, for all options and clock readings: a get answers exactly if an entry of the key is held
      that the events so far have not let grow out of date, and then with the value last set. */
  lemma GetsInRuns<K, V>(cfg: Config, events: seq<Event<K, V>>, key: K, now: int, later: int)
    ensures var s := History(cfg, events);
            var r := Get(cfg, s, key, now, later).1;
            (r.Some? <==> (exists i :: 0 <= i < |s.items| && s.items[i].key == key)
                          && (cfg.staleReturn || cfg.maxAge <= 0 || now < ExpiryOf(cfg, events, key)))
            && (r.Some? ==> Some(r.value.value) == LastSet(events, key))
  {
    hide History, Get, LastSet, ExpiryOf, Unique;
    var s := History(cfg, events);
    EveryPairIsAccountedFor(cfg, events);
    HoldsLatestExpiries(cfg, events);
    HoldsLatestValues(cfg, events);
    GetAnswers(cfg, s, key, now, later);
    if i :| 0 <= i < |s.items| && s.items[i].key == key {
      assert s.items[i] in s.items;
    }
  }

  /** A key out of date is forgotten by the get that finds it so: until it is set again gets miss. */
  lemma {:induction false} StaysAway<K, V>(cfg: Config, s: State<K, V>, events: seq<Event<K, V>>, key: K)
    requires Unique(s.items) && forall i :: 0 <= i < |s.items| ==> s.items[i].key != key
    requires forall i :: 0 <= i < |events| && events[i].SetAt? ==> events[i].item.key != key
    ensures var t := After(cfg, s, events);
            Unique(t.items) && forall i :: 0 <= i < |t.items| ==> t.items[i].key != key
    decreases |events|
  {
    hide Happen, Unique;
    if |events| > 0 {
      var before, e := events[..|events| - 1], events[|events| - 1];
      StaysAway(cfg, s, before, key);
      var t := After(cfg, s, before);
      HappenKeepsUnique(cfg, t, e);
      forall x | x in Happen(cfg, t, e).items ensures x.key != key {
        WhoIsHeld(cfg, t, e, x);
      }
    }
  }

  function After<K(==), V>(cfg: Config, s: State<K, V>, events: seq<Event<K, V>>): State<K, V>
    decreases |events|
  {
    if |events| == 0 then s else Happen(cfg, After(cfg, s, events[..|events| - 1]), events[|events| - 1])
  }

  lemma HappenKeepsUnique<K, V>(cfg: Config, s: State<K, V>, e: Event<K, V>)
    requires Unique(s.items)
    ensures Unique(Happen(cfg, s, e).items)
  {
    hide Unique, Set, Get, Delete;
    match e
    case SetAt(item, now) => SetKeepsInvariants(cfg, s, item, now);
    case GetAt(key, now, later) => GetKeepsInvariants(cfg, s, key, now, later);
    case DeleteOf(key) => DeleteKeepsInvariants(cfg, s, key);
  }

  /** What a set leaves: the new entry last, the others in order, over the bound without the first; and then
      without those at the old end that are out of date. */
  lemma WhatSetLeaves<K, V>(cfg: Config, s: State<K, V>, item: Item<K, V>, now: int) returns (kept: seq<Item<K, V>>, n: nat)
    requires Unique(s.items)
    ensures (exists i :: 0 <= i < |s.items| && s.items[i].key == item.key && kept == Without(s.items, i) + [item])
            || ((forall i :: 0 <= i < |s.items| ==> s.items[i].key != item.key)
                && kept == if 0 < cfg.maxSize <= |s.items| then (s.items + [item])[1..] else s.items + [item])
    ensures n <= |kept| && Set(cfg, s, item, now).items == kept[n..]
    ensures n > 0 ==> !cfg.staleReturn && cfg.maxAge > 0
    ensures forall i :: 0 <= i < n ==> kept[i].expires <= now
    ensures n < |kept| ==> cfg.staleReturn || cfg.maxAge <= 0 || now < kept[n].expires
  {
    hide Find, Purge, Put;
    var put := Put(cfg, s, item);
    kept := put.items;
    WhatPutLeaves(cfg, s, item);
    n := PurgeIsExact(cfg, put, now);
  }

  lemma WhatPutLeaves<K, V>(cfg: Config, s: State<K, V>, item: Item<K, V>)
    ensures var kept := Put(cfg, s, item).items;
            (exists i :: 0 <= i < |s.items| && s.items[i].key == item.key && kept == Without(s.items, i) + [item])
            || ((forall i :: 0 <= i < |s.items| ==> s.items[i].key != item.key)
                && kept == if 0 < cfg.maxSize <= |s.items| then (s.items + [item])[1..] else s.items + [item])
  {
    hide Find, Without;
    var k := Find(s.items, item.key);
    if k < |s.items| {
      assert s.items[k].key == item.key && Put(cfg, s, item).items == Without(s.items, k) + [item];
    } else {
      WithoutFirst(s.items + [item]);
    }
  }

  lemma WithoutFirst<T>(s: seq<T>)
    requires |s| > 0
    ensures Without(s, 0) == s[1..]
  {
  }

  /** A get that finds its entry out of date also drops what else is out of date at the old end. */
  lemma StaleGetPurges<K, V>(cfg: Config, s: State<K, V>, key: K, now: int, later: int, i: nat) returns (n: nat)
    requires Unique(s.items) && i < |s.items| && s.items[i].key == key && !Fresh(cfg, s.items[i], now)
    ensures var rest := Without(s.items, i);
            n <= |rest| && Get(cfg, s, key, now, later).0.items == rest[n..]
            && (forall j :: 0 <= j < n ==> rest[j].expires <= later) && (n < |rest| ==> later < rest[n].expires)
  {
    hide Find, Purge;
    n := PurgeIsExact(cfg, Drop(cfg, s, i), later);
  }
}
