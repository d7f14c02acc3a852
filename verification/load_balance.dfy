/** adapter/outboundgroup/loadbalance.go: jump consistent hashing and the two strategies. Floats are
    taken as reals. */
module LoadBalance {
  import opened ByteCodec

  const WORD := 0x1_0000_0000_0000_0000

  function NextKey(key: u64): u64 { (key * 2862933555777941757 + 1) % WORD }

  /** Where a walk that stands at bucket `b` with this key jumps to. */
  function Jump(b: nat, key: u64): (j: nat)
    ensures j > b
  {
    RatioAtLeastOne(key);
    JumpsAhead(b, key);
    ((b + 1) as real * (0x8000_0000 as real / (key / 0x2_0000_0000 + 1) as real)).Floor
  }

  lemma RatioAtLeastOne(key: u64)
    ensures 1 <= key / 0x2_0000_0000 + 1 <= 0x8000_0000
    ensures 0x8000_0000 as real / (key / 0x2_0000_0000 + 1) as real >= 1.0
  {
    var d := (key / 0x2_0000_0000 + 1) as real;
    QuotientAtLeastOne(0x8000_0000 as real, d);
  }

  lemma QuotientAtLeastOne(n: real, d: real)
    requires n >= d > 0.0
    ensures n / d >= 1.0
  {
    var q := n / d;
    assert q * d == n;
    if q < 1.0 {
      ProductBelow(q, d);
    }
  }

  lemma ProductBelow(q: real, d: real)
    requires q < 1.0 && d > 0.0
    ensures q * d < d
  {
    assert (1.0 - q) * d > 0.0;
  }

  lemma JumpsAhead(b: nat, key: u64)
    ensures ((b + 1) as real * (0x8000_0000 as real / (key / 0x2_0000_0000 + 1) as real)).Floor > b
  {
    RatioAtLeastOne(key);
    var q := 0x8000_0000 as real / (key / 0x2_0000_0000 + 1) as real;
    var x := (b + 1) as real;
    assert x * (q - 1.0) >= 0.0;
    assert x * q >= x;
    assert (x * q).Floor >= x.Floor;
  }

  /** The last bucket below `buckets` on the walk that stands at `b` and is about to go to `j`. */
  function Walk(key: u64, b: nat, j: nat, buckets: int): nat
    decreases buckets - j
  {
    if j >= buckets then b else Walk(NextKey(key), j, Jump(j, NextKey(key)), buckets)
  }

  method JumpHash(key: u64, buckets: int) returns (bucket: nat)
    ensures bucket == Walk(key, 0, 0, buckets)
    ensures buckets >= 1 ==> bucket < buckets
  {
    hide Jump, NextKey, Walk;
    var k := key;
    var b: nat, j: nat := 0, 0;
    while j < buckets
      invariant Walk(k, b, j, buckets) == Walk(key, 0, 0, buckets)
      invariant b < buckets || (j == 0 && b == 0)
      decreases buckets - j
    {
      Unfold(k, b, j, buckets);
      b := j;
      k := NextKey(k);
      JumpIsAhead(b, k);
      j := Jump(b, k);
    }
    Unfold(k, b, j, buckets);
    bucket := b;
  }

  lemma Unfold(key: u64, b: nat, j: nat, buckets: int)
    ensures j >= buckets ==> Walk(key, b, j, buckets) == b
    ensures j < buckets ==> Walk(key, b, j, buckets) == Walk(NextKey(key), j, Jump(j, NextKey(key)), buckets)
  {
    hide NextKey, Jump;
  }

  lemma JumpIsAhead(b: nat, key: u64)
    ensures Jump(b, key) > b
  {
  }

  /** One bucket more: a key stays where it was or goes to the new bucket. */
  lemma {:induction false} StaysOrMovesToTheNew(key: u64, b: nat, j: nat, n: nat)
    ensures Walk(key, b, j, n + 1) == Walk(key, b, j, n) || Walk(key, b, j, n + 1) == n
    decreases n - j
  {
    hide Walk, Jump, NextKey;
    Unfold(key, b, j, n);
    Unfold(key, b, j, n + 1);
    if j < n {
      JumpIsAhead(j, NextKey(key));
      StaysOrMovesToTheNew(NextKey(key), j, Jump(j, NextKey(key)), n);
    } else if j == n {
      JumpIsAhead(j, NextKey(key));
      Unfold(NextKey(key), j, Jump(j, NextKey(key)), n + 1);
    }
  }

  /** However many buckets are added, no key moves between old ones. */
  lemma {:induction false} NeverMovesBetweenOldBuckets(key: u64, n: nat, m: nat)
    requires 1 <= n <= m
    ensures Walk(key, 0, 0, m) == Walk(key, 0, 0, n) || Walk(key, 0, 0, m) >= n
    decreases m
  {
    hide Walk;
    if n < m {
      NeverMovesBetweenOldBuckets(key, n, m - 1);
      StaysOrMovesToTheNew(key, 0, 0, m - 1);
    }
  }

  /** A bucket below a walk's limit; all of them are, when there are any. */
  lemma {:induction false} WalkStaysBelow(key: u64, b: nat, j: nat, buckets: nat)
    requires b < buckets
    ensures Walk(key, b, j, buckets) < buckets
    decreases buckets - j
  {
    hide Walk, Jump, NextKey;
    Unfold(key, b, j, buckets);
    if j < buckets {
      JumpIsAhead(j, NextKey(key));
      WalkStaysBelow(NextKey(key), j, Jump(j, NextKey(key)), buckets);
    }
  }

  /** In whole numbers: a jump leads to the quotient of `b + 1` parts of 2^31 by the upper half of the key. */
  lemma JumpIsQuotient(b: nat, key: u64)
    ensures Jump(b, key) == (b + 1) * 0x8000_0000 / (key / 0x2_0000_0000 + 1)
  {
    var d := key / 0x2_0000_0000 + 1;
    FloorOfQuotient(b + 1, 0x8000_0000, d);
  }

  lemma FloorOfQuotient(a: nat, m: nat, d: nat)
    requires d > 0
    ensures (a as real * (m as real / d as real)).Floor == a * m / d
  {
    var n := a * m;
    var q, r := n / d, n % d;
    var x := a as real * (m as real / d as real);
    assert n == d * q + r;
    assert x * d as real == n as real;
    Between(x, q, d, n);
  }

  lemma Between(x: real, q: int, d: nat, n: nat)
    requires d > 0 && x * d as real == n as real && d * q <= n < d * (q + 1)
    ensures x.Floor == q
  {
    var e := d as real;
    assert q as real * e <= x * e < (q + 1) as real * e;
    if x < q as real { ProductBelowTwo(x, q as real, e); }
    if x >= (q + 1) as real && x != (q + 1) as real { ProductBelowTwo((q + 1) as real, x, e); }
  }

  lemma ProductBelowTwo(x: real, y: real, e: real)
    requires x < y && e > 0.0
    ensures x * e < y * e
  {
    assert (y - x) * e > 0.0;
  }

  /** A key followed through: 1 among ten buckets jumps to 6 and then past the last. */
  lemma KnownBucket()
    ensures Walk(1, 0, 0, 10) == 6
  {
    hide Walk, Jump;
    Unfold(1, 0, 0, 10);
    JumpIsQuotient(0, 2862933555777941758);
    Unfold(2862933555777941758, 0, 6, 10);
    JumpIsQuotient(6, 7520437575244155655);
    Unfold(7520437575244155655, 6, 17, 10);
  }

  const MAX_RETRY := 5

  function Try(hash: u32, i: nat, buckets: nat): nat
    requires i < MAX_RETRY
  {
    Walk(hash + i, 0, 0, buckets)
  }

  /** The choices are those of five consecutive keys. */
  lemma FiveChoices(hash: u32, i: nat, buckets: nat)
    requires i < 5
    ensures MAX_RETRY == 5 && Try(hash, i, buckets) == Walk(hash + i, 0, 0, buckets)
  {
  }

  /** strategyConsistentHashing: the first of five hashed choices that is alive, or the first proxy. */
  method ConsistentHashing(hash: u32, alive: seq<bool>) returns (pick: nat)
    requires |alive| > 0
    ensures pick < |alive|
    ensures forall i :: 0 <= i < MAX_RETRY ==> Try(hash, i, |alive|) < |alive|
    ensures (exists i :: 0 <= i < MAX_RETRY && Try(hash, i, |alive|) == pick && alive[pick]
                         && forall h :: 0 <= h < i ==> !alive[Try(hash, h, |alive|)])
            || (pick == 0 && forall h :: 0 <= h < MAX_RETRY ==> !alive[Try(hash, h, |alive|)])
  {
    hide Walk;
    forall i | 0 <= i < MAX_RETRY ensures Try(hash, i, |alive|) < |alive| {
      WalkStaysBelow(hash + i, 0, 0, |alive|);
    }
    for i := 0 to MAX_RETRY
      invariant forall h :: 0 <= h < i ==> !alive[Try(hash, h, |alive|)]
    {
      pick := JumpHash(hash + i, |alive|);
      assert pick == Try(hash, i, |alive|);
      if alive[pick] { return; }
    }
    pick := 0;
  }

  /** strategyRoundRobin: the variable its closure keeps. */
  class RoundRobin {
    var idx: nat

    constructor ()
      ensures idx == 0
    {
      idx := 0;
    }

    /** The first living proxy after the last pick, going round once; the first of all if none lives. */
    method Pick(alive: seq<bool>) returns (pick: nat)
      requires |alive| > 0
      modifies this
      ensures pick < |alive| && idx < |alive|
      ensures (exists k :: 0 <= k < |alive| && alive[k]) <==> alive[pick]
      ensures alive[pick] ==>
                exists d :: 1 <= d <= |alive| && pick == idx == Round(old(idx), d, |alive|)
                            && forall e :: 1 <= e < d ==> !alive[Round(old(idx), e, |alive|)]
      ensures !alive[pick] ==> pick == 0 && idx == Round(old(idx), |alive|, |alive|)
    {
      hide Round;
      var length := |alive|;
      ghost var start := idx;
      RoundStart(start, length);
      for i := 0 to length
        invariant idx % length == Round(start, i, length) && (i > 0 ==> idx < length)
        invariant forall e :: 1 <= e <= i ==> !alive[Round(start, e, length)]
      {
        RoundNext(start, i, length, idx);
        idx := (idx + 1) % length;
        if alive[idx] { return idx; }
      }
      RoundReachesAll(start, alive);
      RoundSmall(idx, length);
      pick := 0;
    }
  }

  function Round(start: nat, d: nat, length: nat): (k: nat)
    requires length > 0
    ensures k < length
  {
    (start + d) % length
  }

  lemma RoundStart(start: nat, length: nat)
    requires length > 0
    ensures start % length == Round(start, 0, length)
  {
  }

  lemma RoundSmall(k: nat, length: nat)
    requires k < length
    ensures k % length == k
  {
  }

  lemma RoundNext(start: nat, i: nat, length: nat, idx: nat)
    requires length > 0 && idx % length == Round(start, i, length)
    ensures (idx + 1) % length == Round(start, i + 1, length) < length
    ensures (idx + 1) % length % length == (idx + 1) % length
  {
    SameRemainder(idx, start + i, length);
    RoundSmall((idx + 1) % length, length);
  }

  lemma SameRemainder(a: nat, b: nat, n: nat)
    requires n > 0 && a % n == b % n
    ensures (a + 1) % n == (b + 1) % n
  {
    AddRemainder(a, n);
    AddRemainder(b, n);
  }

  lemma AddRemainder(a: nat, n: nat)
    requires n > 0
    ensures (a + 1) % n == if a % n + 1 == n then 0 else a % n + 1
  {
    var q, r := a / n, a % n;
    assert a == n * q + r;
    if r + 1 == n {
      assert a + 1 == n * (q + 1);
      Unique(a + 1, n, q + 1, 0);
    } else {
      Unique(a + 1, n, q, r + 1);
    }
  }

  lemma Unique(a: nat, n: nat, q: nat, r: nat)
    requires n > 0 && a == n * q + r && r < n
    ensures a % n == r
  {
    var q', r' := a / n, a % n;
    assert a == n * q' + r';
    MulAtLeast(n, q - q');
    MulAtLeast(n, q' - q);
    assert n * (q - q') == r' - r && n * (q' - q) == r - r';
  }

  lemma MulAtLeast(n: nat, d: int)
    ensures d >= 1 ==> n * d >= n
  {
  }

  /** Going round once passes every index. */
  lemma RoundReachesAll(start: nat, alive: seq<bool>)
    requires |alive| > 0
    requires forall e :: 1 <= e <= |alive| ==> !alive[Round(start, e, |alive|)]
    ensures forall k :: 0 <= k < |alive| ==> !alive[k]
  {
    hide Round;
    forall k | 0 <= k < |alive| ensures !alive[k] {
      var e := DistanceTo(start, k, |alive|);
      assert !alive[Round(start, e, |alive|)];
    }
  }

  lemma DistanceTo(start: nat, k: nat, length: nat) returns (e: nat)
    requires k < length
    ensures 1 <= e <= length && Round(start, e, length) == k
  {
    var q, r := start / length, start % length;
    assert start == length * q + r;
    if k > r {
      e := k - r;
      Unique(start + e, length, q, k);
    } else {
      e := k + length - r;
      assert start + e == length * (q + 1) + k;
      Unique(start + e, length, q + 1, k);
    }
  }
}
