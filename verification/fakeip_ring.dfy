/** component/fakeip/pool.go: the order in which addresses are handed out, and when one comes up again. */
module FakeIpRing {
  import opened ByteCodec
  import opened FakeIpSpec

  /** How far the scan goes: over addresses in use to the first one that is free. */
  lemma {:induction false} ScanDistance(ring: Ring, pairs: seq<Pair>, current: nat, d: nat) returns (n: nat)
    requires ring.Valid() && current < ring.Length() && 1 <= d <= ring.Length()
    ensures d <= n <= ring.Length() && Scan(ring, pairs, current, d) == Ahead(ring, current, n)
    ensures forall e :: d <= e < n ==> Live(pairs, ring.Address(Ahead(ring, current, e)))
    decreases ring.Length() - d
  {
    hide Live;
    var o := Ahead(ring, current, d);
    if o == current || !Live(pairs, ring.Address(o)) {
      n := d;
    } else {
      n := ScanDistance(ring, pairs, current, d + 1);
    }
  }

  lemma AheadIsModulo(ring: Ring, from: nat, d: nat)
    requires ring.Valid() && from < ring.Length() && d <= ring.Length()
    ensures Ahead(ring, from, d) == (from + d) % ring.Length()
  {
    Round(from + d, ring.Length());
  }

  lemma Round(x: nat, n: nat)
    requires x < 2 * n
    ensures x % n == if x < n then x else x - n
  {
  }

  predicate IsNew(s: Pool, host: string) { forall i :: 0 <= i < |s.pairs| ==> s.pairs[i].host != host }

  /** A new host gets the first free address behind the one handed out last, going round, and that is where
      the next search begins. */
  lemma OffsetFollowsAddress(ring: Ring, s: Pool, host: string) returns (d: nat)
    requires Inv(ring, s) && IsNew(s, host)
    ensures var (t, ip) := Lookup(ring, s, host);
            ip == ring.min + t.offset - 1 && 1 <= d <= ring.Length() && t.offset == Ahead(ring, s.offset, d)
            && !Live(s.pairs, ip) && forall e :: 1 <= e < d ==> Live(s.pairs, ring.Address(Ahead(ring, s.offset, e)))
  {
    hide Scan, Live, Bijective, HostAt, IpAt, MakeRoom, Inv;
    InvMeans(ring, s);
    HandsOutFreeAddress(ring, s);
    d := ScanDistance(ring, s.pairs, s.offset, 1);
  }

  /** Looking up a known host, or looking back, leaves the place in the ring, and the addresses in use. */
  lemma OffsetStays(ring: Ring, s: Pool, op: Op)
    requires Inv(ring, s) && (op.LookupOp? ==> !IsNew(s, op.host))
    ensures Step(ring, s, op).offset == s.offset
    ensures forall ip :: Live(Step(ring, s, op).pairs, ip) <==> Live(s.pairs, ip)
  {
    hide Scan, HostAt, IpAt;
    var t := Step(ring, s, op);
    var k := match op case LookupOp(host) => HostAt(s.pairs, host) case LookBackOp(ip) => IpAt(s.pairs, ip);
    if k < |s.pairs| {
      forall ip ensures Live(t.pairs, ip) <==> Live(s.pairs, ip) {
        TouchKeepsLive(s.pairs, k, op.LookBackOp?, ip);
      }
    }
  }

  lemma TouchKeepsLive(pairs: seq<Pair>, k: nat, hostLast: bool, ip: u32)
    requires k < |pairs|
    ensures Live(Touch(pairs, k, hostLast), ip) <==> Live(pairs, ip)
  {
    hide IpAt;
    var t := Touch(pairs, k, hostLast);
    if Live(pairs, ip) {
      var i := IpAt(pairs, ip);
      assert t[if i < k then i else if i == k then |t| - 1 else i - 1].ip == ip;
    }
    if Live(t, ip) {
      var i := IpAt(t, ip);
      assert pairs[if i < k then i else if i == |t| - 1 then k else i + 1].ip == ip;
    }
  }

  // ---------- When an address comes up again ----------

  /** How many operations of a run hand out an address. */
  ghost function HandedOut(ring: Ring, s: Pool, ops: seq<Op>): nat
    requires Inv(ring, s)
    decreases |ops|
  {
    if ops == [] then 0
    else
      StepKeepsInv(ring, s, ops[0]);
      (if ops[0].LookupOp? && IsNew(s, ops[0].host) then 1 else 0) + HandedOut(ring, Step(ring, s, ops[0]), ops[1..])
  }

  /** How many of the `n` addresses behind an offset are in use. */
  function InUse(ring: Ring, pairs: seq<Pair>, from: nat, n: nat): nat
    requires ring.Valid() && from < ring.Length() && n <= ring.Length()
    decreases n
  {
    if n == 0 then 0
    else InUse(ring, pairs, from, n - 1) + if Live(pairs, ring.Address(Ahead(ring, from, n))) then 1 else 0
  }

  ghost function InUseSet(ring: Ring, pairs: seq<Pair>, from: nat, n: nat): (r: set<int>)
    requires ring.Valid() && from < ring.Length() && n < ring.Length()
    ensures |r| == InUse(ring, pairs, from, n)
    ensures forall x :: x in r ==> x in Ips(pairs) && exists e :: 1 <= e <= n && x == ring.Address(Ahead(ring, from, e))
    decreases n
  {
    if n == 0 then {}
    else
      var ip := ring.Address(Ahead(ring, from, n));
      var rest := InUseSet(ring, pairs, from, n - 1);
      IpsHold(pairs, ip);
      if Live(pairs, ip) then rest + {ip as int} else rest
  }

  /** The others in use are one fewer than all in use, if the one at the offset is. */
  lemma OthersInUse(ring: Ring, pairs: seq<Pair>, from: nat)
    requires ring.Valid() && from < ring.Length() && Live(pairs, ring.Address(from))
    ensures InUse(ring, pairs, from, ring.Length() - 1) < |pairs|
  {
    hide Live, InUse;
    var others := InUseSet(ring, pairs, from, ring.Length() - 1);
    var ip := ring.Address(from) as int;
    IpsHold(pairs, ring.Address(from));
    assert ip !in others;
    SubsetIsNoLarger(others + {ip}, Ips(pairs));
  }

  /** Since the pool stood at `t` the search has moved on by `moved` places, less than once round: each was
      handed out by one of `given` operations or was in use at `t`, and nothing ahead has been put into use. */
  ghost predicate Under(ring: Ring, t: Pool, u: Pool, moved: nat, given: nat) {
    Inv(ring, t) && Inv(ring, u) && moved < ring.Length()
    && u.offset == Ahead(ring, t.offset, moved)
    && moved <= given + InUse(ring, t.pairs, t.offset, moved)
    && forall e :: moved < e < ring.Length() && Live(u.pairs, ring.Address(Ahead(ring, t.offset, e))) ==>
         Live(t.pairs, ring.Address(Ahead(ring, t.offset, e)))
  }

  /** The places up to `d` behind `moved` were all in use at `t`. */
  lemma {:induction false} Skipped(ring: Ring, t: Pool, moved: nat, d: nat)
    requires Inv(ring, t) && moved + d <= ring.Length()
    requires forall e :: moved < e <= moved + d ==> e < ring.Length() && Live(t.pairs, ring.Address(Ahead(ring, t.offset, e)))
    ensures InUse(ring, t.pairs, t.offset, moved + d) == InUse(ring, t.pairs, t.offset, moved) + d
    decreases d
  {
    hide Live, Bijective;
    if d > 0 { Skipped(ring, t, moved, d - 1); }
  }

  lemma AddedLive(pairs: seq<Pair>, size: nat, p: Pair, ip: u32)
    requires Live(MakeRoom(pairs, size) + [p], ip)
    ensures ip == p.ip || Live(pairs, ip)
  {
    hide IpAt;
    var kept := MakeRoom(pairs, size);
    var i := IpAt(kept + [p], ip);
    if i < |kept| {
      assert pairs[if kept == pairs then i else i + 1].ip == ip;
    }
  }

  lemma StaysUnder(ring: Ring, t: Pool, u: Pool, moved: nat, given: nat, host: string, d: nat)
    requires Under(ring, t, u, moved, given) && IsNew(u, host) && 1 <= d && moved + d < ring.Length()
    requires Lookup(ring, u, host).0.offset == Ahead(ring, u.offset, d)
    requires InUse(ring, t.pairs, t.offset, moved + d - 1) == InUse(ring, t.pairs, t.offset, moved) + d - 1
    ensures Under(ring, t, Lookup(ring, u, host).0, moved + d, given + 1)
    ensures Lookup(ring, u, host).0.offset != t.offset
  {
    hide Live, Scan, Bijective, HostAt, MakeRoom;
    LookupKeepsInv(ring, u, host);
    var v := Lookup(ring, u, host).0;
    assert HostAt(u.pairs, host) == |u.pairs|;
    forall e | moved + d < e < ring.Length() && Live(v.pairs, ring.Address(Ahead(ring, t.offset, e)))
      ensures Live(t.pairs, ring.Address(Ahead(ring, t.offset, e)))
    {
      AddedLive(u.pairs, ring.size, v.pairs[|v.pairs| - 1], ring.Address(Ahead(ring, t.offset, e)));
    }
  }

  /** A search from `u`: either it stays under one round, or enough addresses have been handed out. */
  lemma Moves(ring: Ring, t: Pool, u: Pool, moved: nat, given: nat, host: string) returns (d: nat)
    requires Under(ring, t, u, moved, given) && IsNew(u, host)
    requires Live(t.pairs, ring.Address(t.offset))
    ensures 1 <= d <= ring.Length()
    ensures moved + d < ring.Length() ==> Under(ring, t, Lookup(ring, u, host).0, moved + d, given + 1)
    ensures moved + d < ring.Length() ==> Lookup(ring, u, host).0.offset != t.offset
    ensures moved + d >= ring.Length() ==> ring.Length() <= given + ring.size
  {
    hide Live, Scan, Bijective, InUse;
    d := OffsetFollowsAddress(ring, u, host);
    var within := if moved + d < ring.Length() then d - 1 else ring.Length() - 1 - moved;
    forall e | moved < e <= moved + within ensures Live(t.pairs, ring.Address(Ahead(ring, t.offset, e))) {
      assert Ahead(ring, u.offset, e - moved) == Ahead(ring, t.offset, e);
    }
    Skipped(ring, t, moved, within);
    if moved + d < ring.Length() {
      StaysUnder(ring, t, u, moved, given, host, d);
    } else {
      OthersInUse(ring, t.pairs, t.offset);
    }
  }

  lemma {:induction false} UnderOverRuns(ring: Ring, t: Pool, u: Pool, ops: seq<Op>, moved: nat, given: nat, other: string)
    requires Under(ring, t, u, moved, given) && Live(t.pairs, ring.Address(t.offset))
    ensures var v := Run(ring, u, ops);
            IsNew(v, other) && Lookup(ring, v, other).1 == ring.Address(t.offset) ==>
              ring.Length() <= given + HandedOut(ring, u, ops) + ring.size
    decreases |ops|
  {
    hide Live, Scan, Bijective, InUse, Lookup, Step;
    if ops == [] {
      if IsNew(u, other) {
        var d := Moves(ring, t, u, moved, given, other);
        OffsetIs(ring, u, other);
      }
    } else {
      StepKeepsInv(ring, u, ops[0]);
      if ops[0].LookupOp? && IsNew(u, ops[0].host) {
        var d := Moves(ring, t, u, moved, given, ops[0].host);
        if moved + d < ring.Length() {
          StepIsLookup(ring, u, ops[0]);
          UnderOverRuns(ring, t, Step(ring, u, ops[0]), ops[1..], moved + d, given + 1, other);
        }
      } else {
        OffsetStays(ring, u, ops[0]);
        UnderOverRuns(ring, t, Step(ring, u, ops[0]), ops[1..], moved, given, other);
      }
    }
  }

  lemma StepIsLookup(ring: Ring, s: Pool, op: Op)
    requires Inv(ring, s) && op.LookupOp?
    ensures Step(ring, s, op) == Lookup(ring, s, op.host).0
  {
  }

  lemma OffsetIs(ring: Ring, s: Pool, host: string)
    requires Inv(ring, s) && IsNew(s, host)
    ensures Lookup(ring, s, host).0.offset < ring.Length()
    ensures Lookup(ring, s, host).1 == ring.Address(Lookup(ring, s, host).0.offset)
  {
    hide HostAt, Scan;
  }

  /** An address once handed out does not go to a host that is then new, be it another one or the same one
      evicted meanwhile, before the ring has come round: all its addresses but `size` have been handed out in
      between. */
  lemma AddressesComeUpLate(ring: Ring, s: Pool, host: string, ops: seq<Op>, other: string)
    requires Inv(ring, s) && IsNew(s, host)
    ensures Inv(ring, Lookup(ring, s, host).0)
    ensures var (t, ip) := Lookup(ring, s, host);
            var u := Run(ring, t, ops);
            IsNew(u, other) && Lookup(ring, u, other).1 == ip ==>
              HandedOut(ring, t, ops) >= ring.Length() - ring.size
  {
    hide Live, Lookup, Run, HandedOut;
    LookupKeepsInv(ring, s, host);
    OffsetIs(ring, s, host);
    var (t, ip) := Lookup(ring, s, host);
    assert t.pairs[|t.pairs| - 1].ip == ip;
    LastIsLive(t.pairs);
    UnderOverRuns(ring, t, t, ops, 0, 0, other);
  }

  lemma LastIsLive(pairs: seq<Pair>)
    requires |pairs| > 0
    ensures Live(pairs, pairs[|pairs| - 1].ip)
  {
    hide IpAt;
  }
}
