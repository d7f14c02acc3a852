/** 32-bit murmur3, over a whole string and piece by piece. */
module MurmurSpec {
  import opened ByteCodec

  const WORD := 0x1_0000_0000

  function TimesC1(k: u32): u32 { k as int * 0xcc9e2d51 % 0x1_0000_0000 }

  function TimesC2(k: u32): u32 { k as int * 0x1b873593 % 0x1_0000_0000 }

  function RotateLeft13(x: u32): u32 { x % 0x8_0000 * 0x2000 + x / 0x8_0000 }

  function RotateLeft15(x: u32): u32 { x % 0x2_0000 * 0x8000 + x / 0x2_0000 }

  function Scramble(k: u32): u32 { TimesC2(RotateLeft15(TimesC1(k))) }

  type Block = b: Bytes | |b| == 4 witness [0, 0, 0, 0]

  function MixBlock(h: u32, block: Block): u32 {
    var r := RotateLeft13(Xor32(h, Scramble(Le32(block))));
    (r * 4 + r + 0xe6546b64) % WORD
  }

  /** How a block changes the running hash. What follows holds for any such function. */
  type Mixer = (u32, Block) -> u32

  /** The running hash after the whole blocks of `p`. */
  function Mix(mixer: Mixer, h: u32, p: Bytes): u32
    decreases |p|
  {
    if |p| < 4 then h else Mix(mixer, mixer(h, p[..4]), p[4..])
  }

  /** The bytes after the last whole block. */
  function TailOf(p: Bytes): (t: Bytes)
    ensures |t| < 4 && |t| <= |p| && t == p[|p| - |t|..]
    decreases |p|
  {
    if |p| < 4 then p else TailOf(p[4..])
  }

  /** Up to three pending bytes as a little-endian number, the last one first. */
  function TailWord(t: Bytes): u32
    requires |t| < 4
  {
    var k: u32 := 0;
    var k: u32 := if |t| >= 3 then Xor32(k, t[2] as int * 0x1_0000) else k;
    var k: u32 := if |t| >= 2 then Xor32(k, t[1] as int * 0x100) else k;
    if |t| >= 1 then Xor32(k, t[0]) else k
  }

  function Finish(h: u32, t: Bytes, length: nat): u32
    requires |t| < 4
  {
    var a := if |t| == 0 then h else Xor32(h, Scramble(TailWord(t)));
    Avalanche(Xor32(a, length % WORD))
  }

  function Avalanche(h: u32): u32 {
    var a: u32 := Xor32(h, h / 0x1_0000) as int * 0x85ebca6b % 0x1_0000_0000;
    var b: u32 := Xor32(a, a / 0x2000) as int * 0xc2b2ae35 % 0x1_0000_0000;
    Xor32(b, b / 0x1_0000)
  }

  /** The hash of a string. */
  function Hash(data: Bytes, seed: u32): u32 { Finish(Mix(MixBlock, seed, data), TailOf(data), |data|) }

  /** What a digest remembers between writes. */
  datatype Digest = Digest(h1: u32, tail: Bytes, clen: nat) {
    predicate Valid() { |tail| < 4 }

    function Sum32(): u32
      requires Valid()
    {
      Finish(h1, tail, clen)
    }
  }

  function Fresh(seed: u32): Digest { Digest(seed, [], 0) }

  function AfterWrite(mixer: Mixer, d: Digest, p: Bytes): (r: Digest)
    ensures r.Valid()
  {
    Digest(Mix(mixer, d.h1, d.tail + p), TailOf(d.tail + p), d.clen + |p|)
  }

  function AfterWrites(mixer: Mixer, d: Digest, parts: seq<Bytes>): Digest
    decreases |parts|
  {
    if |parts| == 0 then d else AfterWrites(mixer, AfterWrite(mixer, d, parts[0]), parts[1..])
  }

  /** Whole blocks may be mixed early; what remains goes in front of what comes next. */
  lemma {:induction false} MixInTwo(mixer: Mixer, h: u32, a: Bytes, b: Bytes)
    ensures Mix(mixer, h, a + b) == Mix(mixer, Mix(mixer, h, a), TailOf(a) + b)
    ensures TailOf(a + b) == TailOf(TailOf(a) + b)
    decreases |a|
  {
    if |a| >= 4 {
      assert (a + b)[..4] == a[..4] && (a + b)[4..] == a[4..] + b;
      MixInTwo(mixer, mixer(h, a[..4]), a[4..], b);
    }
  }

  /** One block further. */
  lemma MixStep(mixer: Mixer, h: u32, p: Bytes, lo: nat)
    requires lo + 4 <= |p|
    ensures Mix(mixer, h, p[lo..]) == Mix(mixer, mixer(h, p[lo..lo + 4]), p[lo + 4..])
    ensures TailOf(p[lo..]) == TailOf(p[lo + 4..])
  {
    assert p[lo..][..4] == p[lo..lo + 4] && p[lo..][4..] == p[lo + 4..];
  }

  lemma NoBlockLeft(mixer: Mixer, h: u32, p: Bytes)
    requires |p| < 4
    ensures Mix(mixer, h, p) == h && TailOf(p) == p
  {
  }

  lemma {:induction false} WritesAccumulate(mixer: Mixer, seed: u32, before: Bytes, parts: seq<Bytes>)
    ensures AfterWrites(mixer, Digest(Mix(mixer, seed, before), TailOf(before), |before|), parts)
            == var all := before + Concat(parts); Digest(Mix(mixer, seed, all), TailOf(all), |all|)
    decreases |parts|
  {
    hide Mix, TailOf;
    if |parts| == 0 {
      assert before + Concat(parts) == before;
    } else {
      MixInTwo(mixer, seed, before, parts[0]);
      WritesAccumulate(mixer, seed, before + parts[0], parts[1..]);
      Regroup(before, parts[0], Concat(parts[1..]));
    }
  }

  /** However a string is split into writes, the digest ends in the state one write of it leaves. */
  lemma SplitIsIrrelevant(mixer: Mixer, seed: u32, parts: seq<Bytes>)
    ensures AfterWrites(mixer, Fresh(seed), parts) == AfterWrite(mixer, Fresh(seed), Concat(parts))
  {
    hide Mix, TailOf, Concat, AfterWrites;
    NoBlockLeft(mixer, seed, []);
    WritesAccumulate(mixer, seed, [], parts);
    assert [] + Concat(parts) == Concat(parts);
  }

  // ---------- The published hash ----------

  lemma Powers()
    ensures Pow2(8) == 0x100 && Pow2(16) == 0x1_0000 && Pow2(24) == 0x100_0000
    ensures Pow2(13) == 0x2000 && Pow2(15) == 0x8000 && Pow2(17) == 0x2_0000 && Pow2(19) == 0x8_0000
  {
    WordSizes();
    assert Pow2(9) == 2 * Pow2(8) && Pow2(10) == 2 * Pow2(9) && Pow2(11) == 2 * Pow2(10) && Pow2(12) == 2 * Pow2(11);
    assert Pow2(14) == 2 * Pow2(13) && Pow2(17) == 2 * Pow2(16) && Pow2(18) == 2 * Pow2(17);
    assert Pow2(19) == 2 * Pow2(18) && Pow2(13) == 2 * Pow2(12) && Pow2(15) == 2 * Pow2(14);
    assert Pow2(20) == 2 * Pow2(19) && Pow2(21) == 2 * Pow2(20) && Pow2(22) == 2 * Pow2(21) && Pow2(23) == 2 * Pow2(22);
    assert Pow2(24) == 2 * Pow2(23);
  }

  /** The two rotations move every bit up, and the top ones round. */
  lemma RotateBits(x: u32, i: nat)
    requires i < 32
    ensures Bit(RotateLeft15(x), if i < 17 then i + 15 else i - 17) == Bit(x, i)
    ensures Bit(RotateLeft13(x), if i < 19 then i + 13 else i - 19) == Bit(x, i)
  {
    hide Bit, Pow2;
    Powers();
    SwapParts(x / 0x2_0000, x % 0x2_0000, 15, 17, 0x8000, 0x2_0000, i);
    SwapParts(x / 0x8_0000, x % 0x8_0000, 13, 19, 0x2000, 0x8_0000, i);
  }

  lemma SwapParts(high: nat, low: nat, up: nat, down: nat, p: nat, q: nat, i: nat)
    requires p == Pow2(up) && q == Pow2(down) && high < p && low < q
    ensures i < up + down ==> Bit(low * p + high, if i < down then i + up else i - down) == Bit(high * q + low, i)
  {
    hide Bit, Pow2;
    BitOfParts(high, low, down, i);
    if i < up + down { BitOfParts(low, high, up, if i < down then i + up else i - down); }
  }

  /** murmur3 as it is published: what a block does, what the last bytes do, and how it ends. */
  lemma Published(h: u32, block: Block, a: byte, b: byte, c: byte, length: nat)
    ensures MixBlock(h, block) == (RotateLeft13(Xor32(h, Scramble(Le32(block)))) as int * 5 + 0xe6546b64) % 0x1_0000_0000
    ensures var n := length % 0x1_0000_0000;
            Finish(h, [], length) == Avalanche(Xor32(h, n))
            && Finish(h, [a], length) == Avalanche(Xor32(Xor32(h, Scramble(Le32([a, 0, 0, 0]))), n))
            && Finish(h, [a, b], length) == Avalanche(Xor32(Xor32(h, Scramble(Le32([a, b, 0, 0]))), n))
            && Finish(h, [a, b, c], length) == Avalanche(Xor32(Xor32(h, Scramble(Le32([a, b, c, 0]))), n))
  {
    hide Avalanche, Scramble, Xor32, Le32, TailWord;
    TailIsNumber(a, b, c);
  }

  lemma PublishedAvalanche(h: u32)
    ensures var x := Xor32(h, h / 0x1_0000) as int * 0x85ebca6b % 0x1_0000_0000;
            var y := Xor32(x, x / 0x2000) as int * 0xc2b2ae35 % 0x1_0000_0000;
            Avalanche(h) == Xor32(y, y / 0x1_0000)
  {
    hide Xor;
  }

  lemma PublishedScramble(k: u32)
    ensures Scramble(k) == RotateLeft15(k as int * 0xcc9e2d51 % 0x1_0000_0000) as int * 0x1b873593 % 0x1_0000_0000
  {
  }

  /** The pending bytes make up the number they would with zeros behind them. */
  lemma TailIsNumber(a: byte, b: byte, c: byte)
    ensures TailWord([a]) == Le32([a, 0, 0, 0]) && TailWord([a, b]) == Le32([a, b, 0, 0]) && TailWord([a, b, c]) == Le32([a, b, c, 0])
  {
    hide Xor, Pow2;
    Powers();
    XorDisjoint(0, c as int * 0x1_0000, 24);
    XorDisjoint(c, b as int * 0x100, 16);
    XorDisjoint(c as int * 0x100 + b, a, 8);
    XorDisjoint(0, b as int * 0x100, 16);
    XorDisjoint(b, a, 8);
    XorDisjoint(0, a, 8);
  }
}
