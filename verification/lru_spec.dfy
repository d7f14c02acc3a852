/** What the cache of common/cache/lrucache.go is: a sequence of entries with distinct keys, least
    recently touched first. */
module LruSpec {
  import opened LinkedList
  import opened Options
  import opened Sequences

  datatype Item<K, V> = Item(key: K, value: V, expires: int)

  datatype Config = Config(maxAge: int, maxSize: int, updateAgeOnGet: bool, staleReturn: bool, hasCallback: bool)

  /** The entries, and the calls made to the eviction callback. */
  datatype State<K, V> = State(items: seq<Item<K, V>>, calls: seq<(K, V)>)

  predicate Unique<K(==), V>(items: seq<Item<K, V>>) {
    forall i, j :: 0 <= i < j < |items| ==> items[i].key != items[j].key
  }

  /** A positive maximal size is a bound, and any other is none. */
  predicate Bounded<K, V>(cfg: Config, items: seq<Item<K, V>>) { cfg.maxSize > 0 ==> |items| <= cfg.maxSize }

  /** The position of a key, or the length when it is absent. */
  function Find<K(==), V>(items: seq<Item<K, V>>, key: K): (k: nat)
    ensures k <= |items|
    ensures k < |items| ==> items[k].key == key
    ensures forall i :: 0 <= i < k ==> items[i].key != key
  {
    if items == [] || items[0].key == key then 0 else 1 + Find(items[1..], key)
  }

  predicate Has<K(==), V>(items: seq<Item<K, V>>, key: K) { Find(items, key) < |items| }

  // ---------- Operations ----------

  /** One entry leaves, with one call of the callback. */
  function Drop<K, V>(cfg: Config, s: State<K, V>, k: nat): (r: State<K, V>)
    requires k < |s.items|
    ensures |r.items| == |s.items| - 1
  {
    State(Without(s.items, k),
          if cfg.hasCallback then s.calls + [(s.items[k].key, s.items[k].value)] else s.calls)
  }

  predicate Expires(cfg: Config) { !cfg.staleReturn && cfg.maxAge > 0 }

  /** Entries leave from the least recent end while that one is out of date. */
  function Purge<K, V>(cfg: Config, s: State<K, V>, now: int): (r: State<K, V>)
    ensures |r.items| <= |s.items|
    decreases |s.items|
  {
    if Expires(cfg) && |s.items| > 0 && s.items[0].expires <= now then Purge(cfg, Drop(cfg, s, 0), now) else s
  }

  function Set<K(==), V>(cfg: Config, s: State<K, V>, item: Item<K, V>, now: int): State<K, V> {
    Purge(cfg, Put(cfg, s, item), now)
  }

  function Put<K(==), V>(cfg: Config, s: State<K, V>, item: Item<K, V>): State<K, V> {
    var k := Find(s.items, item.key);
    if k < |s.items| then s.(items := Without(s.items, k) + [item])
    else
      var grown := s.(items := s.items + [item]);
      if cfg.maxSize > 0 && |grown.items| > cfg.maxSize then Drop(cfg, grown, 0) else grown
  }

  /** The clock is read at `now` for the expiry test and at `later` afterwards. */
  function Get<K(==), V>(cfg: Config, s: State<K, V>, key: K, now: int, later: int): (State<K, V>, Option<Item<K, V>>) {
    var k := Find(s.items, key);
    if k == |s.items| then (s, None)
    else if Expires(cfg) && s.items[k].expires <= now then (Purge(cfg, Drop(cfg, s, k), later), None)
    else
      var item := if cfg.maxAge > 0 && cfg.updateAgeOnGet then s.items[k].(expires := later + cfg.maxAge) else s.items[k];
      (s.(items := Without(s.items, k) + [item]), Some(item))
  }

  function Delete<K(==), V>(cfg: Config, s: State<K, V>, key: K): State<K, V> {
    var k := Find(s.items, key);
    if k < |s.items| then Drop(cfg, s, k) else s
  }

  // ---------- Every step ----------

  function PairSeq<K, V>(items: seq<Item<K, V>>): (r: seq<(K, V)>)
    ensures |r| == |items|
  {
    seq(|items|, i requires 0 <= i < |items| => (items[i].key, items[i].value))
  }

  /** The key-value pairs held. */
  ghost function Pairs<K, V>(items: seq<Item<K, V>>): multiset<(K, V)> { multiset(PairSeq(items)) }

  lemma MultisetWithout<T>(s: seq<T>, k: nat)
    requires k < |s|
    ensures multiset(s) == multiset(Without(s, k)) + multiset{s[k]}
  {
    assert s == s[..k] + ([s[k]] + s[k + 1..]);
  }

  lemma PairsWithout<K, V>(items: seq<Item<K, V>>, k: nat)
    requires k < |items|
    ensures Pairs(items) == Pairs(Without(items, k)) + multiset{(items[k].key, items[k].value)}
  {
    MultisetWithout(PairSeq(items), k);
    assert PairSeq(Without(items, k)) == Without(PairSeq(items), k);
  }

  lemma PairsMoved<K, V>(items: seq<Item<K, V>>, k: nat, item: Item<K, V>)
    requires k < |items| && item.key == items[k].key && item.value == items[k].value
    ensures Pairs(Without(items, k) + [item]) == Pairs(items)
  {
    PairsWithout(items, k);
    assert PairSeq(Without(items, k) + [item]) == PairSeq(Without(items, k)) + [(item.key, item.value)];
  }

  /** The callback has been told of exactly what left between two states. */
  ghost predicate Accounted<K, V>(cfg: Config, before: multiset<(K, V)>, calls: seq<(K, V)>, after: State<K, V>) {
    calls <= after.calls
    && if cfg.hasCallback then before == Pairs(after.items) + multiset(after.calls[|calls|..])
       else calls == after.calls && Pairs(after.items) <= before
  }

  lemma DropAccounts<K, V>(cfg: Config, s: State<K, V>, k: nat)
    requires k < |s.items|
    ensures Accounted(cfg, Pairs(s.items), s.calls, Drop(cfg, s, k))
    ensures Unique(s.items) ==> Unique(Drop(cfg, s, k).items)
  {
    PairsWithout(s.items, k);
    assert cfg.hasCallback ==> Drop(cfg, s, k).calls[|s.calls|..] == [(s.items[k].key, s.items[k].value)];
  }

  lemma {:induction false} PurgeAccounts<K, V>(cfg: Config, s: State<K, V>, now: int)
    requires Unique(s.items)
    ensures Accounted(cfg, Pairs(s.items), s.calls, Purge(cfg, s, now)) && Unique(Purge(cfg, s, now).items)
    ensures Expires(cfg) && Purge(cfg, s, now).items != [] ==> Purge(cfg, s, now).items[0].expires > now
    decreases |s.items|
  {
    if Expires(cfg) && |s.items| > 0 && s.items[0].expires <= now {
      var t := Drop(cfg, s, 0);
      DropAccounts(cfg, s, 0);
      PurgeAccounts(cfg, t, now);
      AccountsCompose(cfg, Pairs(s.items), s.calls, t, Purge(cfg, t, now));
    } else {
      assert s.calls[|s.calls|..] == [];
    }
  }

  lemma AccountsCompose<K, V>(cfg: Config, before: multiset<(K, V)>, calls: seq<(K, V)>, mid: State<K, V>, after: State<K, V>)
    requires Accounted(cfg, before, calls, mid) && Accounted(cfg, Pairs(mid.items), mid.calls, after)
    ensures Accounted(cfg, before, calls, after)
  {
    if cfg.hasCallback {
      assert after.calls[|calls|..] == mid.calls[|calls|..] + after.calls[|mid.calls|..];
    }
  }

  /** Setting keeps keys distinct and the size within its bound, and every entry that leaves is
      reported exactly once; a replaced value is not. */
  lemma SetKeepsInvariants<K, V>(cfg: Config, s: State<K, V>, item: Item<K, V>, now: int)
    requires Unique(s.items)
    ensures Unique(Set(cfg, s, item, now).items)
    ensures Bounded(cfg, s.items) ==> Bounded(cfg, Set(cfg, s, item, now).items)
    ensures Accounted(cfg, Pairs(Others(s.items, item.key) + [item]), s.calls, Set(cfg, s, item, now))
  {
    hide Accounted, Pairs, Purge, Find;
    PutKeepsInvariants(cfg, s, item);
    var put := Put(cfg, s, item);
    PurgeAccounts(cfg, put, now);
    AccountsCompose(cfg, Pairs(Others(s.items, item.key) + [item]), s.calls, put, Set(cfg, s, item, now));
  }

  function Others<K(==), V>(items: seq<Item<K, V>>, key: K): seq<Item<K, V>> {
    var k := Find(items, key);
    if k < |items| then Without(items, k) else items
  }

  lemma UniqueWhenMoved<K, V>(items: seq<Item<K, V>>, item: Item<K, V>)
    requires Unique(items)
    ensures Unique(Others(items, item.key) + [item])
  {
    hide Find;
  }

  lemma NothingLeft<K, V>(cfg: Config, s: State<K, V>)
    ensures Accounted(cfg, Pairs(s.items), s.calls, s)
  {
    hide Pairs;
    assert s.calls[|s.calls|..] == [];
  }

  lemma PutKeepsInvariants<K, V>(cfg: Config, s: State<K, V>, item: Item<K, V>)
    requires Unique(s.items)
    ensures Unique(Put(cfg, s, item).items)
    ensures Bounded(cfg, s.items) ==> Bounded(cfg, Put(cfg, s, item).items)
    ensures Accounted(cfg, Pairs(Others(s.items, item.key) + [item]), s.calls, Put(cfg, s, item))
  {
    hide Accounted, Pairs, Find, Unique;
    var grown := s.(items := Others(s.items, item.key) + [item]);
    UniqueWhenMoved(s.items, item);
    NothingLeft(cfg, grown);
    DropAccounts(cfg, grown, 0);
  }

  lemma GetKeepsInvariants<K, V>(cfg: Config, s: State<K, V>, key: K, now: int, later: int)
    requires Unique(s.items)
    ensures Unique(Get(cfg, s, key, now, later).0.items) && |Get(cfg, s, key, now, later).0.items| <= |s.items|
    ensures Accounted(cfg, Pairs(s.items), s.calls, Get(cfg, s, key, now, later).0)
  {
    hide Accounted, Pairs, Purge, Find, Unique;
    var k := Find(s.items, key);
    var (t, r) := Get(cfg, s, key, now, later);
    if k == |s.items| {
      NothingLeft(cfg, s);
    } else if Expires(cfg) && s.items[k].expires <= now {
      DropAccounts(cfg, s, k);
      PurgeAccounts(cfg, Drop(cfg, s, k), later);
      AccountsCompose(cfg, Pairs(s.items), s.calls, Drop(cfg, s, k), t);
    } else {
      PairsMoved(s.items, k, r.value);
      NothingLeft(cfg, t);
      UniqueWhenMoved(s.items, r.value);
    }
  }

  lemma DeleteKeepsInvariants<K, V>(cfg: Config, s: State<K, V>, key: K)
    requires Unique(s.items)
    ensures Unique(Delete(cfg, s, key).items) && |Delete(cfg, s, key).items| <= |s.items|
    ensures Accounted(cfg, Pairs(s.items), s.calls, Delete(cfg, s, key))
  {
    hide Accounted, Pairs, Unique;
    var k := Find(s.items, key);
    if k < |s.items| {
      DropAccounts(cfg, s, k);
    } else {
      NothingLeft(cfg, s);
    }
  }

  // ---------- Every run, with deletions and a clock ----------

  /** An operation and the clock readings it makes. */
  datatype Event<K, V> =
    | SetAt(item: Item<K, V>, now: int)
    | GetAt(key: K, now: int, later: int)
    | DeleteOf(key: K)

  function Happen<K(==), V>(cfg: Config, s: State<K, V>, e: Event<K, V>): State<K, V> {
    match e
    case SetAt(item, now) => Set(cfg, s, item, now)
    case GetAt(key, now, later) => Get(cfg, s, key, now, later).0
    case DeleteOf(key) => Delete(cfg, s, key)
  }

  function History<K(==), V>(cfg: Config, events: seq<Event<K, V>>): State<K, V> {
    if events == [] then State([], []) else Happen(cfg, History(cfg, events[..|events| - 1]), events[|events| - 1])
  }

  /** All pairs ever set. */
  ghost function Entered<K, V>(events: seq<Event<K, V>>): multiset<(K, V)> {
    if events == [] then multiset{}
    else
      var e := events[|events| - 1];
      Entered(events[..|events| - 1]) + if e.SetAt? then multiset{(e.item.key, e.item.value)} else multiset{}
  }

  /** The pairs whose value was replaced by a set while they were held. */
  ghost function Overwritten<K, V>(cfg: Config, events: seq<Event<K, V>>): multiset<(K, V)> {
    if events == [] then multiset{}
    else
      var before, e := events[..|events| - 1], events[|events| - 1];
      Overwritten(cfg, before) + if e.SetAt? then Replaced(History(cfg, before).items, e.item.key) else multiset{}
  }

  ghost function Replaced<K, V>(items: seq<Item<K, V>>, key: K): multiset<(K, V)> {
    var k := Find(items, key);
    if k < |items| then multiset{(items[k].key, items[k].value)} else multiset{}
  }

  lemma ReplacedAndOthers<K, V>(items: seq<Item<K, V>>, item: Item<K, V>)
    ensures Pairs(items) == Pairs(Others(items, item.key)) + Replaced(items, item.key)
    ensures Pairs(Others(items, item.key) + [item]) == Pairs(Others(items, item.key)) + multiset{(item.key, item.value)}
  {
    hide Find;
    var k := Find(items, item.key);
    if k < |items| {
      PairsWithout(items, k);
    }
    var others := Others(items, item.key);
    assert PairSeq(others + [item]) == PairSeq(others) + [(item.key, item.value)];
  }

  /** In every run, whatever the options, keys are unique and the bound holds; with a callback every pair
      ever set is held, has been overwritten or has been handed to the callback, exactly once. */
  lemma {:induction false} EveryPairIsAccountedFor<K, V>(cfg: Config, events: seq<Event<K, V>>)
    ensures var s := History(cfg, events);
            Unique(s.items) && Bounded(cfg, s.items)
            && if cfg.hasCallback then Entered(events) == Pairs(s.items) + Overwritten(cfg, events) + multiset(s.calls)
               else s.calls == [] && Pairs(s.items) + Overwritten(cfg, events) <= Entered(events)
    decreases |events|
  {
    hide Find, Purge, Pairs, Unique, Set, Get, Delete, Replaced;
    if events == [] {
      NothingHeld<K, V>();
    } else {
      var before, e := events[..|events| - 1], events[|events| - 1];
      var s := History(cfg, before);
      EveryPairIsAccountedFor(cfg, before);
      match e
      case SetAt(item, now) =>
        SetKeepsInvariants(cfg, s, item, now);
        ReplacedAndOthers(s.items, item);
        CallsSplit(s.calls, Set(cfg, s, item, now).calls);
        Balance(Pairs(Others(s.items, item.key)), Replaced(s.items, item.key), Overwritten(cfg, before), Entered(before),
                multiset{(item.key, item.value)}, Pairs(Set(cfg, s, item, now).items));
      case GetAt(key, now, later) =>
        GetKeepsInvariants(cfg, s, key, now, later);
        CallsSplit(s.calls, Get(cfg, s, key, now, later).0.calls);
      case DeleteOf(key) =>
        DeleteKeepsInvariants(cfg, s, key);
        CallsSplit(s.calls, Delete(cfg, s, key).calls);
    }
  }

  lemma Balance<T>(others: multiset<T>, replaced: multiset<T>, overwritten: multiset<T>, entered: multiset<T>,
                   item: multiset<T>, held: multiset<T>)
    requires others + replaced + overwritten <= entered && held <= others + item
    ensures held + (overwritten + replaced) <= entered + item
  {
  }

  lemma NothingHeld<K, V>()
    ensures Unique<K, V>([]) && Pairs<K, V>([]) == multiset{}
  {
  }

  lemma CallsSplit<T>(a: seq<T>, b: seq<T>)
    ensures a <= b ==> multiset(b) == multiset(a) + multiset(b[|a|..])
  {
    if a <= b {
      assert b == a + b[|a|..];
    }
  }

  // ---------- Recency over every run ----------

  /** The distinct keys touched and not deleted since, by their last touch, the latest at the end. A set
      always touches, a get only when the key is there. */
  function LiveKeys<K(==), V>(cfg: Config, events: seq<Event<K, V>>): seq<K> {
    if events == [] then []
    else
      var before, e := events[..|events| - 1], events[|events| - 1];
      match e
      case SetAt(item, _) => Bump(LiveKeys(cfg, before), item.key)
      case GetAt(key, _, _) =>
        if Has(History(cfg, before).items, key) then Bump(LiveKeys(cfg, before), key) else LiveKeys(cfg, before)
      case DeleteOf(key) => Remove(LiveKeys(cfg, before), key)
  }

  function Bump<K(==)>(keys: seq<K>, key: K): seq<K> { Remove(keys, key) + [key] }

  function Remove<K(==)>(keys: seq<K>, key: K): seq<K> {
    if keys == [] then [] else if keys[0] == key then Remove(keys[1..], key) else [keys[0]] + Remove(keys[1..], key)
  }

  function Keys<K, V>(items: seq<Item<K, V>>): (keys: seq<K>)
    ensures |keys| == |items|
  {
    seq(|items|, i requires 0 <= i < |items| => items[i].key)
  }

  function Latest<T>(s: seq<T>, n: nat): seq<T> { if |s| <= n then s else s[|s| - n..] }

  lemma {:induction false} RemoveConcat<K>(a: seq<K>, b: seq<K>, key: K)
    ensures Remove(a + b, key) == Remove(a, key) + Remove(b, key)
  {
    if a == [] {
      assert a + b == b;
    } else {
      RemoveConcat(a[1..], b, key);
      assert (a + b)[1..] == a[1..] + b && (a + b)[0] == a[0];
      var x, y := Remove(a[1..], key), Remove(b, key);
      assert ([a[0]] + x) + y == [a[0]] + (x + y);
    }
  }

  lemma {:induction false} RemoveAbsent<K>(keys: seq<K>, key: K)
    requires key !in keys
    ensures Remove(keys, key) == keys
  {
    if keys != [] {
      RemoveAbsent(keys[1..], key);
    }
  }

  lemma {:induction false} RemoveAt<K>(keys: seq<K>, k: nat)
    requires Distinct(keys) && k < |keys|
    ensures Remove(keys, keys[k]) == Without(keys, k)
    decreases k
  {
    if k == 0 {
      RemoveAbsent(keys[1..], keys[0]);
      assert Without(keys, 0) == keys[1..];
    } else {
      assert keys[0] != keys[k];
      RemoveAt(keys[1..], k - 1);
      assert Without(keys, k) == [keys[0]] + Without(keys[1..], k - 1);
    }
  }

  lemma {:induction false} RemoveMembers<K>(keys: seq<K>, key: K)
    ensures forall x :: x in Remove(keys, key) <==> x in keys && x != key
  {
    if keys != [] {
      RemoveMembers(keys[1..], key);
      forall x ensures x in Remove(keys, key) <==> x in keys && x != key {
        assert x in keys <==> x == keys[0] || x in keys[1..];
      }
    }
  }

  lemma BumpKeepsDistinct<K>(keys: seq<K>, key: K)
    requires Distinct(keys)
    ensures Distinct(Bump(keys, key))
  {
    RemoveMembers(keys, key);
    if key in keys {
      var k :| 0 <= k < |keys| && keys[k] == key;
      RemoveAt(keys, k);
    } else {
      RemoveAbsent(keys, key);
    }
  }

  lemma DistinctParts<K>(early: seq<K>, late: seq<K>, key: K)
    requires Distinct(early + late)
    ensures Distinct(late) && (key in late ==> key !in early)
  {
    forall i, j | 0 <= i < j < |late| ensures late[i] != late[j] {
      assert (early + late)[|early| + i] != (early + late)[|early| + j];
    }
    if key in late {
      var k :| 0 <= k < |late| && late[k] == key;
      forall i | 0 <= i < |early| ensures early[i] != key {
        assert (early + late)[i] != (early + late)[|early| + k];
      }
    }
  }

  /** Taking a key out of the recent part, or out of the older part. */
  lemma RemoveFromParts<K>(early: seq<K>, late: seq<K>, key: K)
    requires Distinct(early + late)
    ensures key in late ==> Remove(early + late, key) == early + Remove(late, key) && |Remove(late, key)| == |late| - 1
    ensures key !in late ==> Remove(early + late, key) == Remove(early, key) + late
  {
    DistinctParts(early, late, key);
    RemoveConcat(early, late, key);
    if key in late {
      var k :| 0 <= k < |late| && late[k] == key;
      RemoveAbsent(early, key);
      RemoveAt(late, k);
    } else {
      RemoveAbsent(late, key);
    }
  }

  lemma LatestOfEnd<T>(a: seq<T>, b: seq<T>, n: nat)
    requires n <= |b|
    ensures Latest(a + b, n) == Latest(b, n)
  {
    assert (a + b)[|a| + |b| - n..] == b[|b| - n..];
    assert |b| == n ==> b[0..] == b;
  }

  /** What an event does to the keys held, when entries do not age. */
  lemma HappenKeys<K, V>(cfg: Config, s: State<K, V>, e: Event<K, V>)
    requires !Expires(cfg) && Unique(s.items) && Bounded(cfg, s.items)
    ensures var key := if e.SetAt? then e.item.key else e.key;
            Keys(Happen(cfg, s, e).items)
            == if Has(s.items, key) then if e.DeleteOf? then Remove(Keys(s.items), key) else Bump(Keys(s.items), key)
               else if !e.SetAt? then Keys(s.items)
               else if cfg.maxSize > 0 then Latest(Keys(s.items) + [key], cfg.maxSize)
               else Keys(s.items) + [key]
  {
    hide Find, Remove;
    var key := if e.SetAt? then e.item.key else e.key;
    var k := Find(s.items, key);
    var t := Happen(cfg, s, e);
    if k < |s.items| {
      RemoveAt(Keys(s.items), k);
      assert Keys(t.items) == if e.DeleteOf? then Without(Keys(s.items), k) else Without(Keys(s.items), k) + [key];
    } else if e.SetAt? {
      var grown := s.items + [e.item];
      assert Keys(grown) == Keys(s.items) + [key];
      assert |grown| > cfg.maxSize > 0 ==> Keys(Without(grown, 0)) == Keys(grown)[1..];
    }
  }

  /** A cache that does not age and holds more than its bound keeps its size until a key is deleted: a set
      drops one entry, whatever the excess. */
  lemma OverfullStays<K, V>(cfg: Config, s: State<K, V>, e: Event<K, V>)
    requires !Expires(cfg) && !Bounded(cfg, s.items) && !e.DeleteOf?
    ensures |Happen(cfg, s, e).items| == |s.items|
  {
    hide Find;
    if e.SetAt? {
      assert |Put(cfg, s, e.item).items| == |s.items|;
    }
  }

  lemma HasKey<K, V>(items: seq<Item<K, V>>, key: K)
    ensures Has(items, key) <==> key in Keys(items)
  {
    hide Find;
    if Has(items, key) {
      assert Keys(items)[Find(items, key)] == key;
    } else {
      forall i | 0 <= i < |items| ensures Keys(items)[i] != key {
        assert items[i].key != key;
      }
    }
  }

  ghost predicate NoDeletes<K, V>(events: seq<Event<K, V>>) {
    forall i :: 0 <= i < |events| ==> !events[i].DeleteOf?
  }

  /** How many keys a cache of this bound holds of `n` live ones, if none was ever deleted. */
  function Kept(cfg: Config, n: nat): nat { if 0 < cfg.maxSize < n then cfg.maxSize else n }

  /** One event on the live keys, split into those evicted and those held. */
  lemma EventOnLive<K, V>(cfg: Config, s: State<K, V>, e: Event<K, V>, live: seq<K>)
    requires !Expires(cfg) && Unique(s.items) && Bounded(cfg, s.items)
    requires Distinct(live) && |s.items| <= |live| && Keys(s.items) == Latest(live, |s.items|)
    ensures var key := if e.SetAt? then e.item.key else e.key;
            var after := if e.DeleteOf? then Remove(live, key)
                         else if e.SetAt? || Has(s.items, key) then Bump(live, key) else live;
            var t := Happen(cfg, s, e);
            Distinct(after) && |t.items| <= |after| && Keys(t.items) == Latest(after, |t.items|)
            && (!e.DeleteOf? && |s.items| == Kept(cfg, |live|) ==> |t.items| == Kept(cfg, |after|))
  {
    hide Happen, Has, Find, Remove, Bump, Latest, Distinct, Unique;
    var key := if e.SetAt? then e.item.key else e.key;
    var late := Keys(s.items);
    var early := EarlierThan(live, late);
    HappenKeys(cfg, s, e);
    HasKey(s.items, key);
    BumpKeepsDistinct(live, key);
    RemoveKeepsDistinct(live, key);
    if key in late {
      TakenFromLate(early, late, key);
    } else {
      TakenFromEarly(early, late, key);
    }
  }

  lemma EarlierThan<K>(live: seq<K>, late: seq<K>) returns (early: seq<K>)
    requires |late| <= |live| && late == Latest(live, |late|)
    ensures live == early + late
  {
    early := live[..|live| - |late|];
  }

  /** A key of the recent part is removed or touched. */
  lemma TakenFromLate<K>(early: seq<K>, late: seq<K>, key: K)
    requires Distinct(early + late) && key in late
    ensures |Remove(late, key)| == |late| - 1 && |Remove(early + late, key)| == |early + late| - 1
    ensures |Bump(late, key)| == |late| && |Bump(early + late, key)| == |early + late|
    ensures Remove(late, key) == Latest(Remove(early + late, key), |late| - 1)
    ensures Bump(late, key) == Latest(Bump(early + late, key), |late|)
  {
    hide Remove;
    RemoveFromParts(early, late, key);
    assert Bump(early + late, key) == early + Bump(late, key);
    LatestOfEnd(early, Bump(late, key), |late|);
    LatestOfEnd(early, Remove(late, key), |late| - 1);
  }

  /** A key outside the recent part is removed, or set and so becomes the last. */
  lemma TakenFromEarly<K>(early: seq<K>, late: seq<K>, key: K)
    requires Distinct(early + late) && key !in late
    ensures |late| <= |Remove(early + late, key)| && |late| < |Bump(early + late, key)|
    ensures early == [] ==> |Bump(early + late, key)| == |late| + 1
    ensures late == Latest(Remove(early + late, key), |late|)
    ensures forall n: nat {:trigger Latest(late + [key], n)} ::
              var r := Latest(late + [key], n);
              |r| == (if n <= |late| then n else |late| + 1) && r == Latest(Bump(early + late, key), |r|)
    ensures late + [key] == Latest(Bump(early + late, key), |late| + 1)
  {
    hide Remove;
    RemoveFromParts(early, late, key);
    RemoveAbsent([], key);
    assert Bump(early + late, key) == Remove(early, key) + (late + [key]);
    LatestOfEnd(Remove(early, key), late, |late|);
    forall n: nat
      ensures var r := Latest(late + [key], n);
              |r| == (if n <= |late| then n else |late| + 1) && r == Latest(Bump(early + late, key), |r|)
    {
      LatestOfEnd(Remove(early, key), late + [key], |Latest(late + [key], n)|);
    }
    LatestOfEnd(Remove(early, key), late + [key], |late| + 1);
  }

  lemma RemoveKeepsDistinct<K>(keys: seq<K>, key: K)
    requires Distinct(keys)
    ensures Distinct(Remove(keys, key))
  {
    if key in keys {
      var k :| 0 <= k < |keys| && keys[k] == key;
      RemoveAt(keys, k);
    } else {
      RemoveAbsent(keys, key);
    }
  }

  /** The refinement: whatever is done to a cache that does not age, the keys it holds are the most
      recently touched of the live ones, in the order they were last touched; and if none was ever
      deleted, they are as many as fit. */
  lemma {:induction false} HoldsTheMostRecent<K, V>(cfg: Config, events: seq<Event<K, V>>)
    requires !Expires(cfg)
    ensures var items, live := History(cfg, events).items, LiveKeys(cfg, events);
            Distinct(live) && |items| <= |live| && Keys(items) == Latest(live, |items|)
            && (NoDeletes(events) ==> |items| == Kept(cfg, |live|))
    decreases |events|
  {
    hide Happen, Find, Unique, Bump, Remove, Latest, Kept;
    if events == [] {
      EmptyKeys<K, V>(cfg);
    } else {
      var before, e := events[..|events| - 1], events[|events| - 1];
      HoldsTheMostRecent(cfg, before);
      EveryPairIsAccountedFor(cfg, before);
      EventOnLive(cfg, History(cfg, before), e, LiveKeys(cfg, before));
      assert NoDeletes(events) ==> NoDeletes(before) && !events[|events| - 1].DeleteOf?;
    }
  }

  lemma EmptyKeys<K, V>(cfg: Config)
    ensures Keys<K, V>([]) == Latest([], 0) && Kept(cfg, 0) == 0
  {
  }

  /** The value of the last set of a key. */
  function LastSet<K(==), V>(events: seq<Event<K, V>>, key: K): Option<V> {
    if events == [] then None
    else
      var e := events[|events| - 1];
      if e.SetAt? && e.item.key == key then Some(e.item.value) else LastSet(events[..|events| - 1], key)
  }

  /** Every entry held carries the last value set for its key, in every run. */
  lemma {:induction false} HoldsLatestValues<K, V>(cfg: Config, events: seq<Event<K, V>>)
    ensures var items := History(cfg, events).items;
            forall i :: 0 <= i < |items| ==> LastSet(events, items[i].key) == Some(items[i].value)
    decreases |events|
  {
    hide Happen, Unique;
    if events != [] {
      var before, e := events[..|events| - 1], events[|events| - 1];
      var s, t := History(cfg, before), History(cfg, events);
      HoldsLatestValues(cfg, before);
      EveryPairIsAccountedFor(cfg, before);
      forall i | 0 <= i < |t.items| ensures LastSet(events, t.items[i].key) == Some(t.items[i].value) {
        HeldOrSet(cfg, s, e, i);
      }
    }
  }

  /** What is held after an event was held before it or has just been set. */
  lemma HeldOrSet<K, V>(cfg: Config, s: State<K, V>, e: Event<K, V>, i: nat)
    requires Unique(s.items) && i < |Happen(cfg, s, e).items|
    ensures var item := Happen(cfg, s, e).items[i];
            if e.SetAt? && item.key == e.item.key then item.value == e.item.value
            else exists j :: 0 <= j < |s.items| && s.items[j].key == item.key && s.items[j].value == item.value
  {
    hide Find, Purge, Set, Get, Delete;
    var t := Happen(cfg, s, e);
    var pair := (t.items[i].key, t.items[i].value);
    PairIsHeld(t.items, i);
    match e
    case SetAt(item, now) =>
      SetKeepsInvariants(cfg, s, item, now);
      var put := Others(s.items, item.key) + [item];
      assert pair in Pairs(put);
      var j := HeldPair(put, pair);
      OthersMembers(s.items, item.key);
    case GetAt(key, now, later) =>
      GetKeepsInvariants(cfg, s, key, now, later);
      assert pair in Pairs(s.items);
      var j := HeldPair(s.items, pair);
    case DeleteOf(key) =>
      DeleteKeepsInvariants(cfg, s, key);
      assert pair in Pairs(s.items);
      var j := HeldPair(s.items, pair);
  }

  lemma PairIsHeld<K, V>(items: seq<Item<K, V>>, i: nat)
    requires i < |items|
    ensures (items[i].key, items[i].value) in Pairs(items)
  {
    assert PairSeq(items)[i] == (items[i].key, items[i].value);
  }

  lemma HeldPair<K, V>(items: seq<Item<K, V>>, pair: (K, V)) returns (j: nat)
    requires pair in Pairs(items)
    ensures j < |items| && items[j].key == pair.0 && items[j].value == pair.1
  {
    assert pair in PairSeq(items);
    j :| 0 <= j < |items| && PairSeq(items)[j] == pair;
  }

  lemma OthersMembers<K, V>(items: seq<Item<K, V>>, key: K)
    requires Unique(items)
    ensures forall i :: 0 <= i < |Others(items, key)| ==>
              Others(items, key)[i] in items && Others(items, key)[i].key != key
  {
    hide Find;
    var k := Find(items, key);
    forall i | 0 <= i < |Others(items, key)|
      ensures Others(items, key)[i] in items && Others(items, key)[i].key != key
    {
      assert Others(items, key)[i] == items[if i < k then i else i + 1];
    }
  }
}
