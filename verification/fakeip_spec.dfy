/** component/fakeip: hosts and addresses in one cache, two entries per host, over a ring of addresses. */
module FakeIpSpec {
  import opened ByteCodec
  import opened LinkedList
  import opened Options
  import opened LruSpec

  // ---------- Addresses ----------

  function IpToUint(ip: Bytes): u32
    requires |ip| == 4
  {
    0x1_0000 * (Be16(ip[0], ip[1]) as int) + Be16(ip[2], ip[3])
  }

  function UintToIp(v: u32): (ip: Bytes)
    ensures |ip| == 4
  {
    PutBe16(v / 0x1_0000) + PutBe16(v % 0x1_0000)
  }

  lemma AddressRoundTrip(v: u32)
    ensures IpToUint(UintToIp(v)) == v
  {
    Put16RoundTrip(v / 0x1_0000);
    Put16RoundTrip(v % 0x1_0000);
  }

  lemma IpRoundTrip(ip: Bytes)
    requires |ip| == 4
    ensures UintToIp(IpToUint(ip)) == ip
  {
    hide PutBe16, Be16;
    var high, low := Be16(ip[0], ip[1]), Be16(ip[2], ip[3]);
    assert IpToUint(ip) / 0x1_0000 == high && IpToUint(ip) % 0x1_0000 == low;
    Be16RoundTrip(ip[0], ip[1]);
    Be16RoundTrip(ip[2], ip[3]);
  }

  /** net.IP.To4: a 4-byte address, or the last four bytes of a mapped 16-byte one. */
  function To4(ip: Bytes): (r: Option<Bytes>)
    ensures r.Some? ==> |r.value| == 4
  {
    if |ip| == 4 then Some(ip)
    else if |ip| == 16 && ip[..12] == [0, 0, 0, 0, 0, 0, 0, 0, 0, 0, 255, 255] then Some(ip[12..])
    else None
  }

  /** Four bytes are an IPv4 address, and so are sixteen that begin with ten zeros and two bytes of 255. */
  lemma To4Means(ip: Bytes, v4: Bytes)
    ensures To4(ip) == Some(v4) <==>
              |v4| == 4 && (ip == v4 || ip == [0, 0, 0, 0, 0, 0, 0, 0, 0, 0, 255, 255] + v4)
  {
    if |ip| == 16 { assert ip == ip[..12] + ip[12..]; }
  }

  /** The number of an address is its four bytes, the first the highest. */
  lemma NumberOfAddress(ip: Bytes)
    requires |ip| == 4
    ensures IpToUint(ip) == 0x100_0000 * ip[0] as int + 0x1_0000 * ip[1] as int + 0x100 * ip[2] as int + ip[3] as int
  {
  }

  // ---------- What the cache holds ----------

  datatype Key = HostKey(host: string) | IpKey(ip: u32)
  datatype Val = IpVal(address: Bytes) | HostVal(name: string)

  /** A host and its address; `hostLast` tells which of the two entries is the more recent. */
  datatype Pair = Pair(host: string, ip: u32, hostLast: bool)

  function HostItem(p: Pair): Item<Key, Val> { Item(HostKey(p.host), IpVal(UintToIp(p.ip)), 0) }
  function IpItem(p: Pair): Item<Key, Val> { Item(IpKey(p.ip), HostVal(p.host), 0) }

  function ItemsOf(p: Pair): (items: seq<Item<Key, Val>>)
    ensures |items| == 2
  {
    if p.hostLast then [IpItem(p), HostItem(p)] else [HostItem(p), IpItem(p)]
  }

  function Flatten(pairs: seq<Pair>): (items: seq<Item<Key, Val>>)
    ensures |items| == 2 * |pairs|
  {
    if pairs == [] then [] else ItemsOf(pairs[0]) + Flatten(pairs[1..])
  }

  lemma {:induction false} FlattenConcat(a: seq<Pair>, b: seq<Pair>)
    ensures Flatten(a + b) == Flatten(a) + Flatten(b)
  {
    hide ItemsOf;
    if a == [] {
      assert a + b == b;
    } else {
      FlattenConcat(a[1..], b);
      assert (a + b)[1..] == a[1..] + b && (a + b)[0] == a[0];
      Regroup(ItemsOf(a[0]), Flatten(a[1..]), Flatten(b));
    }
  }

  /** No host and no address twice: the pairs are a bijection. */
  predicate Bijective(pairs: seq<Pair>) {
    forall i, j :: 0 <= i < j < |pairs| ==> pairs[i].host != pairs[j].host && pairs[i].ip != pairs[j].ip
  }

  lemma {:induction false} FlattenHolds(pairs: seq<Pair>, item: Item<Key, Val>)
    ensures item in Flatten(pairs) <==> exists p :: p in pairs && item in ItemsOf(p)
  {
    if pairs != [] {
      FlattenHolds(pairs[1..], item);
      if item in Flatten(pairs) && item !in ItemsOf(pairs[0]) {
        assert item in Flatten(pairs[1..]);
      }
      if p :| p in pairs && item in ItemsOf(p) {
        assert p == pairs[0] || p in pairs[1..];
      }
    }
  }

  /** The position of a host among the pairs, or their number. */
  function HostAt(pairs: seq<Pair>, host: string): (k: nat)
    ensures k <= |pairs|
    ensures k < |pairs| ==> pairs[k].host == host
    ensures forall i :: 0 <= i < k ==> pairs[i].host != host
  {
    if pairs == [] || pairs[0].host == host then 0 else 1 + HostAt(pairs[1..], host)
  }

  function IpAt(pairs: seq<Pair>, ip: u32): (k: nat)
    ensures k <= |pairs|
    ensures k < |pairs| ==> pairs[k].ip == ip
    ensures forall i :: 0 <= i < k ==> pairs[i].ip != ip
  {
    if pairs == [] || pairs[0].ip == ip then 0 else 1 + IpAt(pairs[1..], ip)
  }

  predicate Live(pairs: seq<Pair>, ip: u32) { IpAt(pairs, ip) < |pairs| }

  /** Host-to-address and address-to-host entries answer each other. */
  lemma EntriesAreInverse(pairs: seq<Pair>, host: string, ip: u32)
    ensures Item(HostKey(host), IpVal(UintToIp(ip)), 0) in Flatten(pairs)
            <==> Item(IpKey(ip), HostVal(host), 0) in Flatten(pairs)
  {
    hide UintToIp;
    var there := Item(HostKey(host), IpVal(UintToIp(ip)), 0);
    var back: Item<Key, Val> := Item(IpKey(ip), HostVal(host), 0);
    FlattenHolds(pairs, there);
    FlattenHolds(pairs, back);
    forall p | p in pairs ensures there in ItemsOf(p) <==> back in ItemsOf(p) {
      AddressRoundTrip(ip);
      AddressRoundTrip(p.ip);
    }
  }

  // ---------- The cache's steps on whole pairs ----------

  lemma {:induction false} FindIs<K, V>(items: seq<Item<K, V>>, key: K, k: nat)
    requires k < |items| && items[k].key == key && forall i :: 0 <= i < k ==> items[i].key != key
    ensures Find(items, key) == k
    decreases k
  {
    if k > 0 {
      FindIs(items[1..], key, k - 1);
    }
  }

  lemma {:induction false} FindSplit<K, V>(a: seq<Item<K, V>>, x: Item<K, V>, b: seq<Item<K, V>>)
    requires forall i :: 0 <= i < |a| ==> a[i].key != x.key
    ensures Find(a + [x] + b, x.key) == |a| && Others(a + [x] + b, x.key) == a + b
  {
    var all := a + [x] + b;
    FindIs(all, x.key, |a|);
    assert Without(all, |a|) == a + b;
  }

  /** A touched pair leaves its place and comes last, the entry touched first before the other. */
  function Touch(pairs: seq<Pair>, k: nat, hostLast: bool): seq<Pair>
    requires k < |pairs|
  {
    Without(pairs, k) + [pairs[k].(hostLast := hostLast)]
  }

  lemma KeysBefore(pairs: seq<Pair>, k: nat)
    requires Bijective(pairs) && k < |pairs|
    ensures forall i :: 0 <= i < 2 * k ==>
              Flatten(pairs[..k])[i].key != HostKey(pairs[k].host) && Flatten(pairs[..k])[i].key != IpKey(pairs[k].ip)
  {
    hide Flatten;
    var before := Flatten(pairs[..k]);
    forall i | 0 <= i < 2 * k
      ensures before[i].key != HostKey(pairs[k].host) && before[i].key != IpKey(pairs[k].ip)
    {
      FlattenHolds(pairs[..k], before[i]);
      var p :| p in pairs[..k] && before[i] in ItemsOf(p);
      var j :| 0 <= j < k && pairs[j] == p;
      assert p.host != pairs[k].host && p.ip != pairs[k].ip;
      KeysOfPair(p, before[i]);
    }
  }

  lemma FlattenStep(pairs: seq<Pair>)
    requires |pairs| > 0
    ensures Flatten(pairs) == ItemsOf(pairs[0]) + Flatten(pairs[1..])
  {
  }

  lemma {:induction false} FlattenAround(pairs: seq<Pair>, k: nat)
    requires k < |pairs|
    ensures Flatten(pairs) == Flatten(pairs[..k]) + (ItemsOf(pairs[k]) + Flatten(pairs[k + 1..]))
    ensures Flatten(Without(pairs, k)) == Flatten(pairs[..k]) + Flatten(pairs[k + 1..])
  {
    hide ItemsOf, Flatten;
    FlattenStep(pairs);
    if k == 0 {
      NothingFlattened(pairs[..0]);
      assert Without(pairs, 0) == pairs[1..];
    } else {
      FlattenAround(pairs[1..], k - 1);
      FlattenStep(pairs[..k]);
      FlattenStep(Without(pairs, k));
      assert pairs[..k][1..] == pairs[1..][..k - 1];
      assert pairs[1..][k..] == pairs[k + 1..];
      assert Without(pairs, k)[1..] == Without(pairs[1..], k - 1);
      var first, mid, last := ItemsOf(pairs[0]), Flatten(pairs[1..][..k - 1]), Flatten(pairs[k + 1..]);
      Regroup(first, mid, ItemsOf(pairs[k]) + last);
      Regroup(first, mid, last);
    }
  }

  lemma NothingFlattened(pairs: seq<Pair>)
    requires |pairs| == 0
    ensures Flatten(pairs) == []
  {
  }

  lemma TouchInOrder<K, V>(a: seq<Item<K, V>>, first: Item<K, V>, second: Item<K, V>, b: seq<Item<K, V>>)
    requires forall i :: 0 <= i < |a| ==> a[i].key != first.key && a[i].key != second.key
    ensures var once := Others(a + ([first, second] + b), first.key) + [first];
            once == a + [second] + (b + [first]) && Others(once, second.key) + [second] == (a + b) + [first, second]
  {
    hide Others, Find;
    assert a + ([first, second] + b) == a + [first] + ([second] + b);
    FindSplit(a, first, [second] + b);
    assert a + ([second] + b) + [first] == a + [second] + (b + [first]);
    FindSplit(a, second, b + [first]);
    assert a + (b + [first]) + [second] == (a + b) + [first, second];
  }

  lemma TouchOutOfOrder<K, V>(a: seq<Item<K, V>>, first: Item<K, V>, second: Item<K, V>, b: seq<Item<K, V>>)
    requires forall i :: 0 <= i < |a| ==> a[i].key != first.key && a[i].key != second.key
    requires first.key != second.key
    ensures var once := Others(a + ([second, first] + b), first.key) + [first];
            once == a + [second] + (b + [first]) && Others(once, second.key) + [second] == (a + b) + [first, second]
  {
    hide Others, Find;
    assert a + ([second, first] + b) == (a + [second]) + [first] + b;
    FindSplit(a + [second], first, b);
    assert (a + [second]) + b + [first] == a + [second] + (b + [first]);
    FindSplit(a, second, b + [first]);
    assert a + (b + [first]) + [second] == (a + b) + [first, second];
  }

  /** Getting both entries of a pair, in either order, is touching the pair. */
  lemma {:induction false} TouchingBoth(pairs: seq<Pair>, k: nat, hostLast: bool)
    requires Bijective(pairs) && k < |pairs|
    ensures var p := pairs[k];
            var first := if hostLast then IpItem(p) else HostItem(p);
            var second := if hostLast then HostItem(p) else IpItem(p);
            var once := Others(Flatten(pairs), first.key) + [first];
            first in Flatten(pairs) && second in once
            && Others(once, second.key) + [second] == Flatten(Touch(pairs, k, hostLast))
  {
    hide UintToIp, Others, Find;
    var p := pairs[k];
    var a, b := Flatten(pairs[..k]), Flatten(pairs[k + 1..]);
    var first := if hostLast then IpItem(p) else HostItem(p);
    var second := if hostLast then HostItem(p) else IpItem(p);
    KeysBefore(pairs, k);
    FlattenAround(pairs, k);
    if p.hostLast == hostLast {
      TouchInOrder(a, first, second, b);
    } else {
      TouchOutOfOrder(a, first, second, b);
    }
    assert first in ItemsOf(p);
    FlattenConcat(Without(pairs, k), [p.(hostLast := hostLast)]);
    assert [p.(hostLast := hostLast)][1..] == [];
  }

  function CacheConfig(size: nat): Config { Config(0, 2 * size, false, false, false) }

  /** The pairs kept when one more arrives: at the bound, the least recent one goes. */
  function MakeRoom(pairs: seq<Pair>, size: nat): seq<Pair> {
    if |pairs| >= size && |pairs| > 0 then pairs[1..] else pairs
  }

  lemma AbsentKeys(pairs: seq<Pair>, key: Key)
    requires key.HostKey? ==> HostAt(pairs, key.host) == |pairs|
    requires key.IpKey? ==> !Live(pairs, key.ip)
    ensures !Has(Flatten(pairs), key)
  {
    hide UintToIp, Find, HostAt, IpAt;
    hide Flatten;
    var items := Flatten(pairs);
    forall i | 0 <= i < |items| ensures items[i].key != key {
      FlattenHolds(pairs, items[i]);
      var p :| p in pairs && items[i] in ItemsOf(p);
      var j :| 0 <= j < |pairs| && pairs[j] == p;
      KeysOfPair(p, items[i]);
    }
    NoKeyFound(items, key);
  }

  lemma KeysOfPair(p: Pair, item: Item<Key, Val>)
    requires item in ItemsOf(p)
    ensures item.key == HostKey(p.host) || item.key == IpKey(p.ip)
  {
  }

  lemma NoKeyFound<K, V>(items: seq<Item<K, V>>, key: K)
    requires forall i :: 0 <= i < |items| ==> items[i].key != key
    ensures !Has(items, key)
  {
  }

  /** Putting both entries of a new pair evicts, half by half, exactly one whole pair. */
  lemma {:induction false} AddingBoth(pairs: seq<Pair>, p: Pair, size: nat, calls: seq<(Key, Val)>)
    requires p.hostLast && size > 0 && |pairs| <= size
    requires HostAt(pairs, p.host) == |pairs| && !Live(pairs, p.ip)
    ensures var cfg := CacheConfig(size);
            Set(cfg, Set(cfg, State(Flatten(pairs), calls), IpItem(p), 0), HostItem(p), 0)
            == State(Flatten(MakeRoom(pairs, size) + [p]), calls)
  {
    hide Find, HostAt, IpAt, UintToIp;
    var cfg := CacheConfig(size);
    AbsentKeys(pairs, HostKey(p.host));
    AbsentKeys(pairs, IpKey(p.ip));
    var before := Flatten(pairs);
    var one := Set(cfg, State(before, calls), IpItem(p), 0);
    assert one.items == (if |pairs| == size then before[1..] else before) + [IpItem(p)];
    StillAbsent(before, IpItem(p), HostKey(p.host));
    FlattenConcat(MakeRoom(pairs, size), [p]);
    assert [p][1..] == [];
    var two := Set(cfg, one, HostItem(p), 0);
    if |pairs| == size {
      assert before[2..] == Flatten(pairs[1..]);
      assert two.items == before[2..] + [IpItem(p), HostItem(p)];
    } else {
      assert two.items == before + [IpItem(p), HostItem(p)];
    }
  }

  lemma StillAbsent<K, V>(items: seq<Item<K, V>>, item: Item<K, V>, key: K)
    requires !Has(items, key) && item.key != key
    ensures !Has(items + [item], key) && (|items| > 0 ==> !Has(items[1..] + [item], key))
  {
    hide Find;
    forall i | 0 <= i < |items| ensures items[i].key != key {
    }
  }

  // ---------- The pool ----------

  /** The range of addresses, and how many hosts are kept at once. */
  datatype Ring = Ring(min: u32, max: u32, size: nat) {
    predicate Valid() { 2 <= min && min + size < max }

    function Length(): nat
      requires Valid()
    {
      max - min
    }

    function Address(offset: nat): u32
      requires Valid() && offset < Length()
    {
      min + offset - 1
    }
  }

  datatype Pool = Pool(pairs: seq<Pair>, offset: nat)

  ghost predicate Inv(ring: Ring, s: Pool) {
    ring.Valid() && ring.size > 0 && s.offset < ring.Length()
    && Bijective(s.pairs) && |s.pairs| <= ring.size
    && forall i :: 0 <= i < |s.pairs| ==> ring.min - 1 <= s.pairs[i].ip <= ring.max - 2
  }

  function Ahead(ring: Ring, offset: nat, d: nat): (o: nat)
    requires ring.Valid() && offset < ring.Length() && d <= ring.Length()
    ensures o < ring.Length()
  {
    if offset + d < ring.Length() then offset + d else offset + d - ring.Length()
  }

  /** The first offset after `current` whose address is not in use, or `current` again. */
  function Scan(ring: Ring, pairs: seq<Pair>, current: nat, d: nat): (o: nat)
    requires ring.Valid() && current < ring.Length() && 1 <= d <= ring.Length()
    ensures o < ring.Length()
    decreases ring.Length() - d
  {
    var o := Ahead(ring, current, d);
    if o == current || !Live(pairs, ring.Address(o)) then o else Scan(ring, pairs, current, d + 1)
  }

  function Lookup(ring: Ring, s: Pool, host: string): (Pool, u32)
    requires ring.Valid() && s.offset < ring.Length()
  {
    var k := HostAt(s.pairs, host);
    if k < |s.pairs| then (s.(pairs := Touch(s.pairs, k, false)), s.pairs[k].ip)
    else
      var o := Scan(ring, s.pairs, s.offset, 1);
      (Pool(MakeRoom(s.pairs, ring.size) + [Pair(host, ring.Address(o), true)], o), ring.Address(o))
  }

  function LookBack(s: Pool, ip: u32): (Pool, Option<string>) {
    var k := IpAt(s.pairs, ip);
    if k < |s.pairs| then (s.(pairs := Touch(s.pairs, k, true)), Some(s.pairs[k].host)) else (s, None)
  }

  // ---------- The address handed out is free ----------

  ghost function Ips(pairs: seq<Pair>): (ips: set<int>)
    ensures |ips| <= |pairs|
  {
    if pairs == [] then {} else {pairs[0].ip as int} + Ips(pairs[1..])
  }

  lemma {:induction false} IpsHold(pairs: seq<Pair>, ip: u32)
    ensures Live(pairs, ip) <==> (ip as int) in Ips(pairs)
  {
    if pairs != [] {
      IpsHold(pairs[1..], ip);
    }
  }

  ghost function Interval(low: int, n: nat): (r: set<int>)
    ensures |r| == n && forall x :: x in r <==> low <= x < low + n
  {
    if n == 0 then {} else Interval(low, n - 1) + {low + n - 1}
  }

  lemma SubsetIsNoLarger<T>(a: set<T>, b: set<T>)
    requires a <= b
    ensures |a| <= |b|
  {
    assert b == a + (b - a);
  }

  /** With fewer hosts than addresses, some address is not in use. */
  lemma SomeAddressIsFree(ring: Ring, pairs: seq<Pair>)
    requires ring.Valid() && |pairs| <= ring.size
    ensures exists o :: 0 <= o < ring.Length() && !Live(pairs, ring.Address(o))
  {
    hide IpAt;
    if forall o :: 0 <= o < ring.Length() ==> Live(pairs, ring.Address(o)) {
      var all := Interval(ring.min - 1, ring.Length());
      forall x | x in all ensures x in Ips(pairs) {
        assert ring.Address(x - ring.min + 1) == x;
        IpsHold(pairs, x);
      }
      SubsetIsNoLarger(all, Ips(pairs));
    }
  }

  lemma {:induction false} ScanFindsFree(ring: Ring, pairs: seq<Pair>, current: nat, d: nat, free: nat)
    requires ring.Valid() && current < ring.Length() && 1 <= d <= ring.Length()
    requires free < ring.Length() && !Live(pairs, ring.Address(free))
    requires exists e :: d <= e <= ring.Length() && Ahead(ring, current, e) == free
    ensures !Live(pairs, ring.Address(Scan(ring, pairs, current, d)))
    decreases ring.Length() - d
  {
    hide IpAt;
    var o := Ahead(ring, current, d);
    if o != current && Live(pairs, ring.Address(o)) {
      ScanFindsFree(ring, pairs, current, d + 1, free);
    }
  }

  lemma HandsOutFreeAddress(ring: Ring, s: Pool)
    requires Inv(ring, s)
    ensures !Live(s.pairs, ring.Address(Scan(ring, s.pairs, s.offset, 1)))
  {
    hide Scan, Live, Bijective;
    SomeAddressIsFree(ring, s.pairs);
    var free :| 0 <= free < ring.Length() && !Live(s.pairs, ring.Address(free));
    var e := if free > s.offset then free - s.offset else free + ring.Length() - s.offset;
    assert Ahead(ring, s.offset, e) == free;
    ScanFindsFree(ring, s.pairs, s.offset, 1, free);
  }

  // ---------- Every step ----------

  lemma TouchKeeps(pairs: seq<Pair>, k: nat, hostLast: bool)
    requires Bijective(pairs) && k < |pairs|
    ensures Bijective(Touch(pairs, k, hostLast)) && |Touch(pairs, k, hostLast)| == |pairs|
  {
  }

  lemma AbsentPair(pairs: seq<Pair>, host: string, ip: u32)
    requires HostAt(pairs, host) == |pairs| && !Live(pairs, ip)
    ensures forall i :: 0 <= i < |pairs| ==> pairs[i].host != host && pairs[i].ip != ip
  {
    hide HostAt, IpAt;
  }

  /** A lookup keeps the bijection, the range and the bound, and answers with the address the host
      then has: its old one if it had one, one that was in nobody's use otherwise. */
  lemma LookupKeepsInv(ring: Ring, s: Pool, host: string)
    requires Inv(ring, s)
    ensures var (t, ip) := Lookup(ring, s, host);
            Inv(ring, t) && |t.pairs| > 0 && t.pairs[|t.pairs| - 1].host == host && t.pairs[|t.pairs| - 1].ip == ip
            && (HostAt(s.pairs, host) == |s.pairs| ==> !Live(s.pairs, ip))
            && ring.min - 1 <= ip <= ring.max - 2
  {
    hide Scan, HostAt, IpAt;
    var k := HostAt(s.pairs, host);
    if k < |s.pairs| {
      TouchKeeps(s.pairs, k, false);
    } else {
      HandsOutFreeAddress(ring, s);
      AbsentPair(s.pairs, host, ring.Address(Scan(ring, s.pairs, s.offset, 1)));
    }
  }

  lemma LookBackKeepsInv(ring: Ring, s: Pool, ip: u32)
    requires Inv(ring, s)
    ensures Inv(ring, LookBack(s, ip).0)
    ensures LookBack(s, ip).1.Some? <==> Live(s.pairs, ip)
  {
    hide IpAt;
    var k := IpAt(s.pairs, ip);
    if k < |s.pairs| {
      TouchKeeps(s.pairs, k, true);
    }
  }

  /** What Lookup answers, LookBack turns into the host again. */
  lemma LookBackInvertsLookup(ring: Ring, s: Pool, host: string)
    requires Inv(ring, s)
    ensures var (t, ip) := Lookup(ring, s, host); LookBack(t, ip).1 == Some(host)
  {
    hide Scan, HostAt, IpAt;
    LookupKeepsInv(ring, s, host);
    var (t, ip) := Lookup(ring, s, host);
    var k := IpAt(t.pairs, ip);
    assert t.pairs[|t.pairs| - 1].ip == ip;
  }

  /** Once the scan has passed offset 0 it does not come back to it. */
  lemma {:induction false} ScanPastZero(ring: Ring, pairs: seq<Pair>, current: nat, d: nat)
    requires ring.Valid() && current < ring.Length() && ring.Length() - current < d <= ring.Length()
    ensures Scan(ring, pairs, current, d) != 0
    decreases ring.Length() - d
  {
    hide Live;
    var o := Ahead(ring, current, d);
    if o != current && Live(pairs, ring.Address(o)) {
      ScanPastZero(ring, pairs, current, d + 1);
    }
  }

  lemma {:induction false} ScanUpToZero(ring: Ring, pairs: seq<Pair>, current: nat, d: nat)
    requires ring.Valid() && current < ring.Length() && 1 <= d <= ring.Length() - current
    ensures Scan(ring, pairs, current, d) == 0
            <==> (forall o :: current + d <= o < ring.Length() ==> Live(pairs, ring.Address(o)))
                 && (current == 0 || !Live(pairs, ring.Address(0)))
    decreases ring.Length() - d
  {
    hide Live;
    var o := Ahead(ring, current, d);
    if d < ring.Length() - current {
      assert o == current + d;
      if Live(pairs, ring.Address(o)) {
        ScanUpToZero(ring, pairs, current, d + 1);
      }
    } else if current != 0 && Live(pairs, ring.Address(0)) {
      ScanPastZero(ring, pairs, current, d + 1);
    }
  }

  /** The ring starts one below `min`: a new host is handed the gateway's address exactly when nobody has
      it and every address after the offset is in use. */
  lemma GatewayIsHandedOutIff(ring: Ring, s: Pool, host: string)
    requires Inv(ring, s) && HostAt(s.pairs, host) == |s.pairs|
    ensures Lookup(ring, s, host).1 == ring.min - 1
            <==> !Live(s.pairs, ring.min - 1) && forall o :: s.offset < o < ring.Length() ==> Live(s.pairs, ring.Address(o))
  {
    hide Live, Scan, Inv;
    InvMeans(ring, s);
    HandsOutFreeAddress(ring, s);
    ScanUpToZero(ring, s.pairs, s.offset, 1);
    assert ring.Address(0) == ring.min - 1;
  }

  lemma InvMeans(ring: Ring, s: Pool)
    requires Inv(ring, s)
    ensures ring.Valid() && s.offset < ring.Length()
  {
  }

  // ---------- Every run ----------

  datatype Op = LookupOp(host: string) | LookBackOp(ip: u32)

  function Step(ring: Ring, s: Pool, op: Op): Pool
    requires ring.Valid() && s.offset < ring.Length()
  {
    match op
    case LookupOp(host) => Lookup(ring, s, host).0
    case LookBackOp(ip) => LookBack(s, ip).0
  }

  /** The host an operation touches: the one looked up, or the one found behind an address. */
  function TouchedBy(s: Pool, op: Op): set<string> {
    match op
    case LookupOp(host) => {host}
    case LookBackOp(ip) =>
      var k := IpAt(s.pairs, ip);
      if k < |s.pairs| then {s.pairs[k].host} else {}
  }

  lemma StepKeepsInv(ring: Ring, s: Pool, op: Op)
    requires Inv(ring, s)
    ensures Inv(ring, Step(ring, s, op))
  {
    hide Lookup, LookBack, HostAt, IpAt;
    match op
    case LookupOp(host) => LookupKeepsInv(ring, s, host);
    case LookBackOp(ip) => LookBackKeepsInv(ring, s, ip);
  }

  ghost function Run(ring: Ring, s: Pool, ops: seq<Op>): (t: Pool)
    requires Inv(ring, s)
    ensures Inv(ring, t)
    decreases |ops|
  {
    if ops == [] then s
    else
      StepKeepsInv(ring, s, ops[0]);
      Run(ring, Step(ring, s, ops[0]), ops[1..])
  }

  ghost function TouchedIn(ring: Ring, s: Pool, ops: seq<Op>): set<string>
    requires Inv(ring, s)
    decreases |ops|
  {
    if ops == [] then {}
    else
      StepKeepsInv(ring, s, ops[0]);
      TouchedBy(s, ops[0]) + TouchedIn(ring, Step(ring, s, ops[0]), ops[1..])
  }

  /** `host` has `ip`, and every host touched more recently is in `since`. */
  ghost predicate HasSince(pairs: seq<Pair>, host: string, ip: u32, since: set<string>) {
    exists k :: 0 <= k < |pairs| && AtSince(pairs, k, host, ip, since)
  }

  ghost predicate AtSince(pairs: seq<Pair>, k: nat, host: string, ip: u32, since: set<string>)
    requires k < |pairs|
  {
    pairs[k].host == host && pairs[k].ip == ip && forall i :: k < i < |pairs| ==> pairs[i].host in since
  }

  /** The hosts after a position are as many as the pairs after it. */
  lemma {:induction false} HostsAfter(pairs: seq<Pair>, k: nat, since: set<string>)
    requires Bijective(pairs) && k <= |pairs|
    requires forall i :: k <= i < |pairs| ==> pairs[i].host in since
    ensures |pairs| - k <= |since|
    decreases |pairs| - k
  {
    if k < |pairs| {
      var rest := since - {pairs[k].host};
      HostsAfter(pairs, k + 1, rest);
      assert since == rest + {pairs[k].host};
    }
  }

  lemma TouchKeepsAddress(pairs: seq<Pair>, k: nat, hostLast: bool, host: string, ip: u32, since: set<string>)
    requires Bijective(pairs) && k < |pairs| && HasSince(pairs, host, ip, since)
    ensures HasSince(Touch(pairs, k, hostLast), host, ip, since + ({pairs[k].host} - {host}))
  {
    var now := since + ({pairs[k].host} - {host});
    var h :| 0 <= h < |pairs| && AtSince(pairs, h, host, ip, since);
    var touched := Touch(pairs, k, hostLast);
    if k == h {
      assert AtSince(touched, |touched| - 1, host, ip, now);
    } else {
      assert pairs[k].host != host;
      assert AtSince(touched, if k < h then h - 1 else h, host, ip, now);
    }
  }

  lemma Newcomer(pairs: seq<Pair>, p: Pair, full: bool, h: nat, host: string, ip: u32, since: set<string>, now: set<string>)
    requires h < |pairs| && AtSince(pairs, h, host, ip, since) && (full ==> h > 0)
    requires p.host in now && since <= now
    ensures HasSince((if full then pairs[1..] else pairs) + [p], host, ip, now)
  {
    var after := (if full then pairs[1..] else pairs) + [p];
    var k := if full then h - 1 else h;
    forall i | k < i < |after| ensures after[i].host in now {
      if i < |after| - 1 { assert after[i] == pairs[if full then i + 1 else i]; }
    }
    assert AtSince(after, k, host, ip, now);
  }

  lemma NewcomerKeepsAddress(pairs: seq<Pair>, p: Pair, size: nat, host: string, ip: u32, since: set<string>)
    requires Bijective(pairs) && |pairs| <= size && HasSince(pairs, host, ip, since) && host !in since
    requires forall i :: 0 <= i < |pairs| ==> pairs[i].host != p.host
    requires |since + ({p.host} - {host})| < size
    ensures HasSince(MakeRoom(pairs, size) + [p], host, ip, since + ({p.host} - {host}))
  {
    var now := since + ({p.host} - {host});
    var h :| 0 <= h < |pairs| && AtSince(pairs, h, host, ip, since);
    assert p.host != host;
    var others := since - {p.host};
    HostsAfter(pairs, h + 1, others);
    assert now == others + {p.host} && |now| == |others| + 1;
    Newcomer(pairs, p, |pairs| >= size, h, host, ip, since, now);
  }

  /** One step: the host keeps its address as long as it stays among the `size` most recent. */
  lemma StepKeepsAddress(ring: Ring, s: Pool, op: Op, host: string, ip: u32, since: set<string>)
    requires Inv(ring, s) && HasSince(s.pairs, host, ip, since) && host !in since
    requires |since + (TouchedBy(s, op) - {host})| < ring.size
    ensures HasSince(Step(ring, s, op).pairs, host, ip, since + (TouchedBy(s, op) - {host}))
  {
    hide HasSince, Scan, HostAt, IpAt, MakeRoom, Touch;
    match op
    case LookupOp(name) =>
      var k := HostAt(s.pairs, name);
      if k < |s.pairs| {
        TouchKeepsAddress(s.pairs, k, false, host, ip, since);
      } else {
        var o := Scan(ring, s.pairs, s.offset, 1);
        NewcomerKeepsAddress(s.pairs, Pair(name, ring.Address(o), true), ring.size, host, ip, since);
      }
    case LookBackOp(address) =>
      var k := IpAt(s.pairs, address);
      if k < |s.pairs| {
        TouchKeepsAddress(s.pairs, k, true, host, ip, since);
      } else {
        assert since + ({} - {host}) == since;
      }
  }

  /** A host keeps its address while fewer than `size` other hosts are touched. */
  lemma {:induction false} KeepsAddress(ring: Ring, s: Pool, ops: seq<Op>, host: string, ip: u32, since: set<string>)
    requires Inv(ring, s) && HasSince(s.pairs, host, ip, since) && host !in since
    requires |since + (TouchedIn(ring, s, ops) - {host})| < ring.size
    ensures HasSince(Run(ring, s, ops).pairs, host, ip, since + (TouchedIn(ring, s, ops) - {host}))
    decreases |ops|
  {
    hide Step, TouchedBy, HasSince, Bijective;
    if ops == [] {
      assert since + ({} - {host}) == since;
    } else {
      var t := Step(ring, s, ops[0]);
      var now := since + (TouchedBy(s, ops[0]) - {host});
      StepKeepsInv(ring, s, ops[0]);
      var all := since + (TouchedIn(ring, s, ops) - {host});
      assert all == now + (TouchedIn(ring, t, ops[1..]) - {host});
      SubsetIsNoLarger(now, all);
      StepKeepsAddress(ring, s, ops[0], host, ip, since);
      KeepsAddress(ring, t, ops[1..], host, ip, now);
    }
  }

  /** So a later lookup of the host gives the same address again. */
  lemma SameAddressAgain(ring: Ring, s: Pool, host: string, ops: seq<Op>)
    requires Inv(ring, s)
    ensures Inv(ring, Lookup(ring, s, host).0)
    ensures var (t, ip) := Lookup(ring, s, host);
            |TouchedIn(ring, t, ops) - {host}| < ring.size ==>
              Lookup(ring, Run(ring, t, ops), host).1 == ip
  {
    hide Lookup, Run, TouchedIn, Bijective;
    LookupKeepsInv(ring, s, host);
    var (t, ip) := Lookup(ring, s, host);
    if |TouchedIn(ring, t, ops) - {host}| < ring.size {
      assert AtSince(t.pairs, |t.pairs| - 1, host, ip, {});
      assert {} + (TouchedIn(ring, t, ops) - {host}) == TouchedIn(ring, t, ops) - {host};
      KeepsAddress(ring, t, ops, host, ip, {});
      HeldIsFound(ring, Run(ring, t, ops), host, ip, TouchedIn(ring, t, ops) - {host});
    }
  }

  lemma HeldIsFound(ring: Ring, s: Pool, host: string, ip: u32, since: set<string>)
    requires Inv(ring, s) && HasSince(s.pairs, host, ip, since)
    ensures Lookup(ring, s, host).1 == ip
  {
    hide Scan, HostAt;
    var k :| 0 <= k < |s.pairs| && AtSince(s.pairs, k, host, ip, since);
    var h := HostAt(s.pairs, host);
  }
}
