/** component/fakeip/memory.go and pool.go: the store and the allocator. The mutex is not modelled:
    every method is one critical section. The clock plays no part, since entries do not age. */
module FakeIpPool {
  import opened ByteCodec
  import opened Options
  import opened LruSpec
  import opened FakeIpSpec
  import opened LruCache
  import Spec = FakeIpSpec
  import Lru = LruSpec

  lemma UniqueFind<K, V>(items: seq<Item<K, V>>, x: Item<K, V>)
    requires Unique(items) && x in items
    ensures Has(items, x.key) && items[Find(items, x.key)] == x
  {
    hide Find;
    var i :| 0 <= i < |items| && items[i] == x;
  }

  /** Without ageing, getting an entry moves it to the recent end. */
  lemma GetMoves<K, V>(cfg: Config, s: State<K, V>, x: Item<K, V>)
    requires cfg.maxAge == 0 && Unique(s.items) && x in s.items
    ensures Get(cfg, s, x.key, 0, 0) == (s.(items := Others(s.items, x.key) + [x]), Some(x))
  {
    hide Find;
    UniqueFind(s.items, x);
  }

  class MemoryStore {
    const cache: LruCache<Key, Val>
    const size: nat

    ghost predicate Valid()
      reads cache, cache.Repr
    {
      cache.Valid() && cache.cfg == CacheConfig(size)
    }

    constructor (size: nat)
      ensures Valid() && fresh(cache) && fresh(cache.Repr) && cache.items == [] && cache.calls == [] && this.size == size
    {
      this.size := size;
      cache := new LruCache<Key, Val>(CacheConfig(size));
    }

    /** Getting by host also touches the address's entry. */
    method GetByHost(host: string, ghost pairs: seq<Pair>) returns (r: Option<Bytes>)
      requires Valid() && cache.items == Flatten(pairs) && Bijective(pairs)
      modifies cache.Repr
      ensures Valid() && cache.Repr == old(cache.Repr) && cache.calls == old(cache.calls)
      ensures var k := HostAt(pairs, host);
              if k < |pairs| then r == Some(UintToIp(pairs[k].ip)) && cache.items == Flatten(Touch(pairs, k, false))
              else r == None && cache.items == Flatten(pairs)
    {
      hide Find, HostAt, UintToIp, IpToUint, Touch, Flatten;
      ghost var k := HostAt(pairs, host);
      cache.KeyAgrees(HostKey(host));
      if k < |pairs| {
        TouchingBoth(pairs, k, false);
        GetMoves(cache.cfg, cache.State(), HostItem(pairs[k]));
      } else {
        AbsentKeys(pairs, HostKey(host));
      }
      var elm := cache.Get(HostKey(host), 0, 0);
      if elm.None? { return None; }
      var ip := elm.value.address;
      AddressRoundTrip(pairs[k].ip);
      cache.KeyAgrees(IpKey(IpToUint(ip)));
      GetMoves(cache.cfg, cache.State(), IpItem(pairs[k]));
      var _ := cache.Get(IpKey(IpToUint(ip)), 0, 0);
      return Some(ip);
    }

    /** Getting by address also touches the host's entry. */
    method GetByIP(ip: Bytes, ghost pairs: seq<Pair>) returns (r: Option<string>)
      requires |ip| == 4 && Valid() && cache.items == Flatten(pairs) && Bijective(pairs)
      modifies cache.Repr
      ensures Valid() && cache.Repr == old(cache.Repr) && cache.calls == old(cache.calls)
      ensures var k := IpAt(pairs, IpToUint(ip));
              if k < |pairs| then r == Some(pairs[k].host) && cache.items == Flatten(Touch(pairs, k, true))
              else r == None && cache.items == Flatten(pairs)
    {
      hide Find, IpAt, UintToIp, IpToUint, Touch, Flatten;
      ghost var k := IpAt(pairs, IpToUint(ip));
      cache.KeyAgrees(IpKey(IpToUint(ip)));
      if k < |pairs| {
        TouchingBoth(pairs, k, true);
        GetMoves(cache.cfg, cache.State(), IpItem(pairs[k]));
      } else {
        AbsentKeys(pairs, IpKey(IpToUint(ip)));
      }
      var elm := cache.Get(IpKey(IpToUint(ip)), 0, 0);
      if elm.None? { return None; }
      var host := elm.value.name;
      cache.KeyAgrees(HostKey(host));
      GetMoves(cache.cfg, cache.State(), HostItem(pairs[k]));
      var _ := cache.Get(HostKey(host), 0, 0);
      return Some(host);
    }

    method PutByHost(host: string, ip: Bytes)
      requires Valid()
      modifies cache.Repr
      ensures Valid() && fresh(cache.Repr - old(cache.Repr))
      ensures cache.State() == Lru.Set(cache.cfg, old(cache.State()), Item(HostKey(host), IpVal(ip), 0), 0)
    {
      cache.Set(HostKey(host), IpVal(ip), 0, 0);
    }

    method PutByIP(ip: Bytes, host: string)
      requires Valid() && |ip| == 4
      modifies cache.Repr
      ensures Valid() && fresh(cache.Repr - old(cache.Repr))
      ensures cache.State() == Lru.Set(cache.cfg, old(cache.State()), Item(IpKey(IpToUint(ip)), HostVal(host), 0), 0)
    {
      cache.Set(IpKey(IpToUint(ip)), HostVal(host), 0, 0);
    }

    method Exist(ip: Bytes) returns (r: bool)
      requires Valid() && |ip| == 4
      ensures r == Has(cache.items, IpKey(IpToUint(ip)))
    {
      r := cache.Exist(IpKey(IpToUint(ip)));
    }
  }

  lemma LiveIsHas(pairs: seq<Pair>, ip: u32)
    requires Bijective(pairs)
    ensures Live(pairs, ip) <==> Has(Flatten(pairs), IpKey(ip))
  {
    hide Find, IpAt, UintToIp;
    if Live(pairs, ip) {
      var p := pairs[IpAt(pairs, ip)];
      assert p in pairs && IpItem(p) in ItemsOf(p);
      FlattenHolds(pairs, IpItem(p));
      var i :| 0 <= i < |Flatten(pairs)| && Flatten(pairs)[i] == IpItem(p);
    } else {
      AbsentKeys(pairs, IpKey(ip));
    }
  }

  /** The offset after this one on a ring of length `n`. */
  function Next(offset: nat, n: nat): (o: nat)
    requires offset < n
    ensures o == if offset + 1 == n then 0 else offset + 1
  {
    (offset + 1) % n
  }

  class Pool {
    const min: u32
    const max: u32
    const gateway: u32
    var offset: u32
    const store: MemoryStore
    ghost var pairs: seq<Pair> // what the store holds, least recently touched first

    ghost function Ring(): Ring { Spec.Ring(min, max, store.size) }

    ghost function State(): Spec.Pool
      reads this
    {
      Spec.Pool(pairs, offset)
    }

    ghost predicate Valid()
      reads this, store.cache, store.cache.Repr
    {
      store.Valid() && this !in store.cache.Repr && Inv(Ring(), State()) && gateway == min - 1
      && store.cache.items == Flatten(pairs)
    }

    /** New, once the network has been found big enough: see Create. */
    constructor Over(base: u32, total: nat, size: nat)
      requires total >= 2 && base + total + 1 < 0x1_0000_0000
      ensures 1 <= size < total - 1 ==> Valid()
      ensures fresh(store) && fresh(store.cache.Repr) && store.cache.items == []
      ensures Ring() == Spec.Ring(base + 2, base + total + 1, size) && State() == Spec.Pool([], 0)
      ensures gateway == base + 1
    {
      min, max, gateway, offset, pairs := base + 2, base + total + 1, base + 1, 0, [];
      store := new MemoryStore(size);
    }

    method Lookup(host: string) returns (ip: Bytes)
      requires Valid()
      modifies this, store.cache.Repr
      ensures Valid() && fresh(store.cache.Repr - old(store.cache.Repr))
      ensures (State(), ip) == (Spec.Lookup(Ring(), old(State()), host).0, UintToIp(Spec.Lookup(Ring(), old(State()), host).1))
      ensures if forall i :: 0 <= i < |old(pairs)| ==> old(pairs)[i].host != host then ip == UintToIp(min + offset - 1)
              else offset == old(offset)
    {
      hide Scan, HostAt, IpAt, Flatten, Touch, UintToIp, IpToUint, Bijective, MakeRoom, Lru.Set, LruCache.Valid;
      LookupKeepsInv(Ring(), State(), host);
      var found := store.GetByHost(host, pairs);
      if found.Some? {
        pairs := Touch(pairs, HostAt(pairs, host), false);
        return found.value;
      }
      ip := LookupNew(host);
    }

    /** Lookup of a host that is not there. */
    method LookupNew(host: string) returns (ip: Bytes)
      requires Valid() && HostAt(pairs, host) == |pairs|
      modifies this, store.cache.Repr
      ensures store.Valid() && this !in store.cache.Repr && fresh(store.cache.Repr - old(store.cache.Repr))
      ensures store.cache.items == Flatten(pairs)
      ensures (State(), ip) == (Spec.Lookup(Ring(), old(State()), host).0, UintToIp(Spec.Lookup(Ring(), old(State()), host).1))
    {
      hide Scan, HostAt, IpAt, Flatten, Touch, UintToIp, IpToUint, Bijective, MakeRoom, Lru.Set, LruCache.Valid;
      HandsOutFreeAddress(Ring(), State());
      ghost var p := Pair(host, Ring().Address(Scan(Ring(), pairs, offset, 1)), true);
      AddingBoth(pairs, p, store.size, store.cache.calls);
      AddressRoundTrip(p.ip);
      ip := Allocate(host);
      store.PutByHost(host, ip);
      pairs := MakeRoom(pairs, store.size) + [p];
    }

    /** The loop of `get`: goes round the ring to the first address not in use. */
    method Advance()
      requires Valid()
      modifies this`offset
      ensures offset == Scan(Ring(), pairs, old(offset), 1) && offset < Ring().Length()
    {
      hide Live, Flatten, UintToIp, IpToUint, Bijective, Next, Has, LruCache.Valid;
      var current := offset;
      ghost var d := 1;
      while true
        invariant 1 <= d <= Ring().Length() && offset == Ahead(Ring(), current, d - 1)
        invariant Scan(Ring(), pairs, current, d) == Scan(Ring(), pairs, current, 1)
        decreases Ring().Length() - d
      {
        offset := Next(offset, max - min);
        assert offset == Ahead(Ring(), current, d);
        if offset == current { break; }
        var ip := UintToIp(min + offset - 1);
        AddressRoundTrip(min + offset - 1);
        var exist := store.Exist(ip);
        LiveIsHas(pairs, min + offset - 1);
        if !exist { break; }
        d := d + 1;
      }
    }

    /** `get`: the address found is stored with the host at once. */
    method Allocate(host: string) returns (ip: Bytes)
      requires Valid()
      modifies this`offset, store.cache.Repr
      ensures store.Valid() && fresh(store.cache.Repr - old(store.cache.Repr))
      ensures offset == Scan(Ring(), pairs, old(offset), 1) && offset < Ring().Length()
      ensures ip == UintToIp(Ring().Address(offset))
      ensures store.cache.State()
              == Lru.Set(store.cache.cfg, old(store.cache.State()), Item(IpKey(IpToUint(ip)), HostVal(host), 0), 0)
    {
      hide Scan, Flatten, UintToIp, IpToUint, Bijective, Lru.Set, LruCache.Valid;
      Advance();
      ip := UintToIp(min + offset - 1);
      store.PutByIP(ip, host);
    }

    method LookBack(ip: Bytes) returns (host: Option<string>)
      requires Valid()
      modifies this, store.cache.Repr
      ensures Valid() && fresh(store.cache.Repr - old(store.cache.Repr))
      ensures To4(ip).None? ==> host == None && State() == old(State())
      ensures To4(ip).Some? ==> (State(), host) == Spec.LookBack(old(State()), IpToUint(To4(ip).value))
    {
      hide IpAt, Flatten, UintToIp, IpToUint, Bijective, Touch, LruCache.Valid;
      var ip4 := To4(ip);
      if ip4.None? { return None; }
      LookBackKeepsInv(Ring(), State(), IpToUint(ip4.value));
      host := store.GetByIP(ip4.value, pairs);
      if host.Some? {
        pairs := Touch(pairs, IpAt(pairs, IpToUint(ip4.value)), true);
      }
    }

    method Exist(ip: Bytes) returns (r: bool)
      requires Valid()
      ensures r == (To4(ip).Some? && Live(pairs, IpToUint(To4(ip).value)))
    {
      hide Flatten, IpToUint;
      var ip4 := To4(ip);
      if ip4.None? { return false; }
      LiveIsHas(pairs, IpToUint(ip4.value));
      r := store.Exist(ip4.value);
    }
  }

  /** New: fails exactly when the network has no address besides its own and the broadcast one. The
      base is a network address, as net.ParseCIDR leaves it. */
  method Create(base: u32, ones: nat, size: nat) returns (pool: Option<Pool>)
    requires ones <= 32 && base % Pow2(32 - ones) == 0 && base + Pow2(32 - ones) <= 0x1_0000_0000
    ensures pool.None? <==> ones >= 31
    ensures pool.Some? && 1 <= size < Pow2(32 - ones) - 3 ==> pool.value.Valid()
    ensures pool.Some? ==>
              Pow2(32 - ones) >= 4
              && fresh(pool.value) && pool.value.store.cache.items == []
              && pool.value.Ring() == Spec.Ring(base + 2, base + Pow2(32 - ones) - 1, size)
              && pool.value.State() == Spec.Pool([], 0) && pool.value.gateway == base + 1
  {
    var total := Pow2(32 - ones) - 2;
    if total <= 0 {
      return None;
    }
    var p := new Pool.Over(base, total, size);
    return Some(p);
  }
}
