/** The order of the cache's entries, over every run and for all options, ageing included. */
module LruRecency {
  import opened LinkedList
  import opened LruSpec

  predicate Names<K(==), V>(e: Event<K, V>, key: K) {
    (e.SetAt? && e.item.key == key) || (e.GetAt? && e.key == key)
  }

  /** The last event that set or got a key, or -1. */
  function LastMention<K(==), V>(events: seq<Event<K, V>>, key: K): (n: int)
    ensures -1 <= n < |events|
    decreases |events|
  {
    if |events| == 0 then -1
    else if Names(events[|events| - 1], key) then |events| - 1
    else LastMention(events[..|events| - 1], key)
  }

  /** The entries stand in the order of their keys' last mentions. */
  ghost predicate ByMention<K, V>(events: seq<Event<K, V>>, items: seq<Item<K, V>>) {
    forall i, j :: 0 <= i < j < |items| ==> LastMention(events, items[i].key) < LastMention(events, items[j].key)
  }

  lemma DropsKeepOrder<K, V>(events: seq<Event<K, V>>, items: seq<Item<K, V>>, k: nat)
    requires ByMention(events, items)
    ensures k < |items| ==> ByMention(events, Without(items, k))
    ensures k <= |items| ==> ByMention(events, items[k..])
  {
    hide LastMention;
  }

  /** Purging takes entries off the old end. */
  lemma {:induction false} PurgeIsSuffix<K, V>(cfg: Config, s: State<K, V>, now: int) returns (n: nat)
    ensures n <= |s.items| && Purge(cfg, s, now).items == s.items[n..]
    decreases |s.items|
  {
    if Expires(cfg) && |s.items| > 0 && s.items[0].expires <= now {
      var t := Drop(cfg, s, 0);
      var m := PurgeIsSuffix(cfg, t, now);
      n := m + 1;
      assert t.items == s.items[1..];
    } else {
      n := 0;
    }
  }

  /** An event that does not name a key of the entries leaves their order as it was. */
  lemma UnnamedKeepOrder<K, V>(events: seq<Event<K, V>>, items: seq<Item<K, V>>)
    requires |events| > 0 && ByMention(events[..|events| - 1], items)
    requires forall i :: 0 <= i < |items| ==> !Names(events[|events| - 1], items[i].key)
    ensures ByMention(events, items)
  {
    forall i | 0 <= i < |items|
      ensures LastMention(events, items[i].key) == LastMention(events[..|events| - 1], items[i].key)
    {
    }
  }

  /** The entry of the key just named goes last. */
  lemma NamedGoesLast<K, V>(events: seq<Event<K, V>>, items: seq<Item<K, V>>, item: Item<K, V>)
    requires |events| > 0 && ByMention(events[..|events| - 1], items)
    requires forall i :: 0 <= i < |items| ==> items[i].key != item.key
    requires Names(events[|events| - 1], item.key)
    ensures ByMention(events, items + [item])
  {
    UnnamedKeepOrder(events, items);
    forall i | 0 <= i < |items| ensures LastMention(events, items[i].key) < |events| - 1 {
      assert LastMention(events, items[i].key) == LastMention(events[..|events| - 1], items[i].key);
    }
  }

  lemma OthersKeepOrder<K, V>(events: seq<Event<K, V>>, items: seq<Item<K, V>>, key: K)
    requires ByMention(events, items) && Unique(items)
    ensures ByMention(events, Others(items, key))
    ensures forall i :: 0 <= i < |Others(items, key)| ==> Others(items, key)[i].key != key
  {
    hide LastMention;
    DropsKeepOrder(events, items, Find(items, key));
    OthersMembers(items, key);
  }

  lemma SetKeepsOrder<K, V>(cfg: Config, events: seq<Event<K, V>>, s: State<K, V>)
    requires |events| > 0 && Unique(s.items) && ByMention(events[..|events| - 1], s.items)
    requires events[|events| - 1].SetAt?
    ensures ByMention(events, Happen(cfg, s, events[|events| - 1]).items)
  {
    hide Find, ByMention, Purge, Unique;
    var e := events[|events| - 1];
    OthersKeepOrder(events[..|events| - 1], s.items, e.item.key);
    var grown := Others(s.items, e.item.key) + [e.item];
    NamedGoesLast(events, Others(s.items, e.item.key), e.item);
    DropsKeepOrder(events, grown, 0);
    var put := Put(cfg, s, e.item);
    assert put.items == grown || put.items == Without(grown, 0);
    var n := PurgeIsSuffix(cfg, put, e.now);
    DropsKeepOrder(events, put.items, n);
  }

  lemma GetKeepsOrder<K, V>(cfg: Config, events: seq<Event<K, V>>, s: State<K, V>)
    requires |events| > 0 && Unique(s.items) && ByMention(events[..|events| - 1], s.items)
    requires events[|events| - 1].GetAt?
    ensures ByMention(events, Happen(cfg, s, events[|events| - 1]).items)
  {
    hide Find, ByMention, Purge, Unique;
    var e := events[|events| - 1];
    var others := Others(s.items, e.key);
    OthersKeepOrder(events[..|events| - 1], s.items, e.key);
    UnnamedKeepOrder(events, others);
    var k := Find(s.items, e.key);
    if k < |s.items| {
      if Expires(cfg) && s.items[k].expires <= e.now {
        var n := PurgeIsSuffix(cfg, Drop(cfg, s, k), e.later);
        DropsKeepOrder(events, others, n);
      } else {
        FoundKey(s.items, e.key);
        var item := if cfg.maxAge > 0 && cfg.updateAgeOnGet then s.items[k].(expires := e.later + cfg.maxAge) else s.items[k];
        NamedGoesLast(events, others, item);
      }
    }
  }

  lemma FoundKey<K, V>(items: seq<Item<K, V>>, key: K)
    ensures Find(items, key) < |items| ==> items[Find(items, key)].key == key
  {
  }

  lemma DeleteKeepsOrder<K, V>(cfg: Config, events: seq<Event<K, V>>, s: State<K, V>)
    requires |events| > 0 && ByMention(events[..|events| - 1], s.items) && events[|events| - 1].DeleteOf?
    ensures ByMention(events, Happen(cfg, s, events[|events| - 1]).items)
  {
    hide Find, ByMention;
    UnnamedKeepOrder(events, s.items);
    DropsKeepOrder(events, s.items, Find(s.items, events[|events| - 1].key));
  }

  /** In every run, whatever the options and the clock, the entries stand in the order in which their keys
      were last set or got. */
  lemma {:induction false} EntriesAreByRecency<K, V>(cfg: Config, events: seq<Event<K, V>>)
    ensures ByMention(events, History(cfg, events).items)
    decreases |events|
  {
    hide Happen, ByMention, Unique;
    if events == [] {
      NothingIsByMention<K, V>();
    } else {
      var before := events[..|events| - 1];
      EntriesAreByRecency(cfg, before);
      EveryPairIsAccountedFor(cfg, before);
      match events[|events| - 1]
      case SetAt(_, _) => SetKeepsOrder(cfg, events, History(cfg, before));
      case GetAt(_, _, _) => GetKeepsOrder(cfg, events, History(cfg, before));
      case DeleteOf(_) => DeleteKeepsOrder(cfg, events, History(cfg, before));
    }
  }

  lemma NothingIsByMention<K, V>()
    ensures ByMention<K, V>([], [])
  {
  }

  /** A new key set on a full cache evicts exactly one entry for its size, the one whose key was last set
      or got longest ago, and hands it to the callback. */
  lemma FullCacheEvictsLeastRecent<K, V>(cfg: Config, events: seq<Event<K, V>>, item: Item<K, V>)
    requires cfg.maxSize > 0
    requires var items := History(cfg, events).items; |items| == cfg.maxSize && !Has(items, item.key)
    ensures var s := History(cfg, events);
            var put := Put(cfg, s, item);
            put.items == s.items[1..] + [item]
            && put.calls == s.calls + (if cfg.hasCallback then [(s.items[0].key, s.items[0].value)] else [])
            && forall i :: 1 <= i < |s.items| ==> LastMention(events, s.items[0].key) < LastMention(events, s.items[i].key)
  {
    hide Find, LastMention, History;
    EntriesAreByRecency(cfg, events);
  }
}
