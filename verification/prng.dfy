/** transport/ssr/tools/random.go: the generator both ends of an SSR stream re-seed for every frame. */
module Prng {
  import opened ByteCodec

  /** The generator's two words. */
  datatype Rng = Rng(s0: u64, s1: u64)

  const WORD: int := 0x1_0000_0000_0000_0000

  function Shl(x: u64, n: nat): u64
    decreases n
  {
    if n == 0 then x else Shl(2 * x % WORD, n - 1)
  }

  function Shr(x: u64, n: nat): u64
    decreases n
  {
    if n == 0 then x else Shr(x / 2, n - 1)
  }

  /** One step: the new words and the number drawn. */
  function Step(r: Rng): (Rng, u64) {
    var x := Xor64(r.s0, Shl(r.s0, 23));
    var z := Xor64(x, Xor64(Xor64(r.s1, Shr(x, 17)), Shr(r.s1, 26)));
    (Rng(r.s1, z), (z + r.s1) % WORD)
  }

  function Skip(r: Rng, n: nat): Rng
    decreases n
  {
    if n == 0 then r else Skip(Step(r).0, n - 1)
  }

  function Load(bin: Bytes): Rng
    requires |bin| >= 16
  {
    Rng(Le64(bin[..8]), Le64(bin[8..16]))
  }

  /** The words after seeding from a hash whose first two bytes have been replaced by `length`. */
  function Seeded(length: nat, tail: Bytes): Rng
    requires |tail| >= 14
  {
    Skip(Load(PutLe16(length % 0x1_0000) + tail), 4)
  }

  // ---------- What a step does to the bits ----------

  lemma {:induction false} ShrBit(x: u64, n: nat, i: nat)
    ensures Bit(Shr(x, n), i) == Bit(x, i + n)
    decreases n
  {
    if n > 0 { ShrBit(x / 2, n - 1, i); }
  }

  lemma {:induction false} ShlBit(x: u64, n: nat, i: nat)
    requires i < 64
    ensures Bit(Shl(x, n), i) <==> i >= n && Bit(x, i - n)
    decreases n
  {
    if n > 0 {
      ShlBit(2 * x % WORD, n - 1, i);
      if i >= n - 1 { DoubledBit(x, i - (n - 1)); }
    }
  }

  lemma DoubledBit(x: u64, i: nat)
    requires i < 64
    ensures Bit(2 * x % WORD, i) <==> i >= 1 && Bit(x, i - 1)
  {
    WordSizes();
    var k := 2 * x / WORD;
    LowBit(2 * x % WORD, 64, k, i);
    assert 2 * x % WORD + Pow2(64) * k == 2 * x;
  }

  /** Bit `i` of the first word combined with itself, 23 places up. */
  predicate Spread(a: u64, i: nat) { i < 64 && Bit(a, i) != (i >= 23 && Bit(a, i - 23)) }

  /** The step as a linear map of bits; the number drawn is the sum of the new words. */
  lemma StepBits(r: Rng, i: nat)
    requires i < 64
    ensures var t := Step(r).0;
            t.s0 == r.s1 && Step(r).1 == (t.s0 + t.s1) % 0x1_0000_0000_0000_0000
            && (Bit(t.s1, i) <==> (Spread(r.s0, i) != Spread(r.s0, i + 17)) != (Bit(r.s1, i) != Bit(r.s1, i + 26)))
  {
    hide Xor, Shl, Shr, Bit;
    var x := Xor64(r.s0, Shl(r.s0, 23));
    var u := Xor64(r.s1, Shr(x, 17));
    var v := Xor64(u, Shr(r.s1, 26));
    XorBit(x, v, i);
    XorBit(u, Shr(r.s1, 26), i);
    XorBit(r.s1, Shr(x, 17), i);
    ShrBit(r.s1, 26, i);
    ShrBit(x, 17, i);
    SpreadBit(r.s0, i);
    SpreadBit(r.s0, i + 17);
  }

  lemma SpreadBit(a: u64, i: nat)
    ensures Bit(Xor64(a, Shl(a, 23)), i) == Spread(a, i)
  {
    hide Xor, Shl, Bit;
    if i < 64 {
      XorBit(a, Shl(a, 23), i);
      ShlBit(a, 23, i);
    } else {
      WordSizes();
      HighBit(Xor64(a, Shl(a, 23)), 64, i);
    }
  }

  /** From the top bit down, the combination of `Spread` with itself 17 places up gives `Spread` back. */
  lemma {:induction false} SpreadFromTop(a: u64, b: u64, i: nat)
    requires forall j :: 0 <= j < 64 ==> (Spread(a, j) != Spread(a, j + 17)) == (Spread(b, j) != Spread(b, j + 17))
    ensures Spread(a, i) == Spread(b, i)
    decreases 64 - i
  {
    hide Bit;
    if i < 64 { SpreadFromTop(a, b, i + 17); }
  }

  /** And from the lowest bit up, `Spread` gives the word back. */
  lemma {:induction false} WordFromSpread(a: u64, b: u64, i: nat)
    requires forall j: nat :: Spread(a, j) == Spread(b, j)
    ensures Bit(a, i) == Bit(b, i)
    decreases i
  {
    hide Bit;
    if i < 64 {
      if i >= 23 { WordFromSpread(a, b, i - 23); }
      assert Spread(a, i) == Spread(b, i);
    } else {
      WordSizes();
      HighBit(a, 64, i);
      HighBit(b, 64, i);
    }
  }

  /** No two states step to the same one, so nothing of a seed is lost however many steps are made. */
  lemma StepIsInjective(r: Rng, q: Rng)
    requires Step(r).0 == Step(q).0
    ensures r == q
  {
    hide Step, Bit, Spread;
    forall j | 0 <= j < 64
      ensures (Spread(r.s0, j) != Spread(r.s0, j + 17)) == (Spread(q.s0, j) != Spread(q.s0, j + 17))
    {
      StepBits(r, j);
      StepBits(q, j);
    }
    forall j: nat ensures Spread(r.s0, j) == Spread(q.s0, j) { SpreadFromTop(r.s0, q.s0, j); }
    forall j: nat ensures Bit(r.s0, j) == Bit(q.s0, j) { WordFromSpread(r.s0, q.s0, j); }
    SameBits(r.s0, q.s0);
    StepBits(r, 0);
    StepBits(q, 0);
  }

  lemma {:induction false} SkipIsInjective(r: Rng, q: Rng, n: nat)
    requires Skip(r, n) == Skip(q, n)
    ensures r == q
    decreases n
  {
    hide Step;
    if n > 0 {
      SkipIsInjective(Step(r).0, Step(q).0, n - 1);
      StepIsInjective(r, q);
    }
  }

  /** Seeding makes four steps from the sixteen bytes. */
  lemma SeedIsFourSteps(length: nat, tail: Bytes)
    requires |tail| == 14
    ensures Seeded(length, tail) == Step(Step(Step(Step(Load(PutLe16(length % 0x1_0000) + tail)).0).0).0).0
  {
    hide Step, PutLe16, Le64;
    FourSteps(Load(PutLe16(length % 0x1_0000) + tail));
  }

  lemma FourSteps(r: Rng)
    ensures Skip(r, 4) == Step(Step(Step(Step(r).0).0).0).0
  {
    hide Step;
    var a := Step(r).0;
    var b := Step(a).0;
    assert Skip(r, 4) == Skip(a, 3) && Skip(a, 3) == Skip(b, 2) && Skip(b, 2) == Skip(Step(b).0, 1);
  }

  /** The seed of a frame is decided by its length and the fourteen bytes of hash, and decides both. */
  lemma SeedsDiffer(length: nat, tail: Bytes, length': nat, tail': Bytes)
    requires |tail| == |tail'| == 14
    ensures Seeded(length, tail) == Seeded(length', tail') <==> length % 0x1_0000 == length' % 0x1_0000 && tail == tail'
  {
    hide PutLe16, Le64, Skip;
    if Seeded(length, tail) == Seeded(length', tail') {
      var a, b := PutLe16(length % 0x1_0000) + tail, PutLe16(length' % 0x1_0000) + tail';
      SkipIsInjective(Load(a), Load(b), 4);
      Le64IsInjective(a[..8], b[..8]);
      Le64IsInjective(a[8..16], b[8..16]);
      assert a == a[..8] + a[8..16] && b == b[..8] + b[8..16];
      assert a[..2] == PutLe16(length % 0x1_0000) && b[..2] == PutLe16(length' % 0x1_0000) && a[2..] == tail && b[2..] == tail';
      Put16RoundTrip(length % 0x1_0000);
      Put16RoundTrip(length' % 0x1_0000);
    }
  }

  class XorShift128Plus {
    var s0: u64
    var s1: u64

    ghost function State(): Rng
      reads this
    {
      Rng(s0, s1)
    }

    constructor ()
      ensures State() == Rng(0, 0)
    {
      s0, s1 := 0, 0;
    }

    method Next() returns (drawn: u64)
      modifies this
      ensures (State(), drawn) == Step(old(State()))
    {
      var x, y := s0, s1;
      s0 := y;
      x := Xor64(x, Shl(x, 23));
      x := Xor64(x, Xor64(Xor64(y, Shr(x, 17)), Shr(y, 26)));
      s1 := x;
      drawn := (x + y) % WORD;
    }

    /** A slice shorter than 16 bytes makes it panic: the padded copy made of it is shadowed, and the
        empty outer variable is sliced. */
    method InitFromBin(bin: Bytes) returns (panics: bool)
      modifies this
      ensures panics <==> |bin| < 16
      ensures State() == if panics then old(State()) else Load(bin)
    {
      if |bin| < 16 { return true; }
      s0, s1 := Le64(bin[..8]), Le64(bin[8..16]);
      panics := false;
    }

    /** Overwrites the first two bytes of the caller's slice with `length` before loading it. `bin` is the
        slice with all its capacity, of which `size` bytes are in the slice; the loads look only at the
        capacity. Too little of either makes it panic, after the overwriting if there is room for that. */
    method InitFromBinAndLength(bin: array<byte>, size: nat, length: nat) returns (panics: bool)
      requires size <= bin.Length
      modifies this, bin
      ensures panics <==> size < 2 || bin.Length < 16
      ensures bin[..] == if size < 2 then old(bin[..]) else PutLe16(length % 0x1_0000) + old(bin[2..])
      ensures !panics ==> State() == Seeded(length, old(bin[2..]))
    {
      hide Step, PutLe16, Le64;
      if size < 2 { return true; }
      var prefix := PutLe16(length % 0x1_0000);
      bin[0], bin[1] := prefix[0], prefix[1];
      assert bin[..] == prefix + old(bin[2..]);
      if bin.Length < 16 { return true; }
      s0, s1 := Le64(bin[..8]), Le64(bin[8..16]);
      assert bin[..][..8] == bin[..8] && bin[..][8..16] == bin[8..16];
      ghost var start := State();
      for i := 0 to 4
        invariant Skip(State(), 4 - i) == Skip(start, 4)
        invariant bin[..] == prefix + old(bin[2..])
      {
        var _ := Next();
      }
      panics := false;
    }
  }
}
