/** common/murmur3: the incremental digest, whose pending bytes are a view of its own buffer, and the
    hash of a whole string. Blocks are read in little-endian order. */
module Murmur {
  import opened ByteCodec
  import opened MurmurSpec

  const CAPACITY := 16

  /** A view of an array, as a Go slice is one. */
  datatype Slice = Slice(base: array<byte>, lo: nat, hi: nat) {
    ghost predicate Valid() { lo <= hi <= base.Length }

    function Bytes(): Bytes
      requires Valid()
      reads base
    {
      base[lo..hi]
    }
  }

  /** append, where the capacity suffices: the bytes go into the same array. */
  method Append(s: Slice, p: Slice) returns (r: Slice)
    requires s.Valid() && p.Valid() && s.base != p.base
    requires s.hi + (p.hi - p.lo) <= s.base.Length
    modifies s.base
    ensures r == Slice(s.base, s.lo, s.hi + (p.hi - p.lo))
    ensures r.Bytes() == old(s.Bytes()) + p.Bytes()
    ensures p.Bytes() == old(p.Bytes())
  {
    forall i | 0 <= i < p.hi - p.lo { s.base[s.hi + i] := p.base[p.lo + i]; }
    r := Slice(s.base, s.lo, s.hi + (p.hi - p.lo));
  }

  class Digest32 {
    const seed: u32
    const buf: array<byte>
    var tail: Slice
    var clen: nat
    var h1: u32

    ghost predicate Valid()
      reads this
    {
      buf.Length == CAPACITY && tail == Slice(buf, 0, tail.hi) && tail.hi < 4
    }

    ghost function State(): (d: Digest)
      requires Valid()
      reads this, buf
      ensures d.Valid()
    {
      Digest(h1, buf[..tail.hi], clen)
    }

    constructor (seed: u32)
      ensures Valid() && State() == Fresh(seed) && fresh(buf) && this.seed == seed
    {
      this.seed, clen, h1 := seed, 0, seed;
      var own := new byte[CAPACITY](i => 0);
      buf, tail := own, Slice(own, 0, 0);
    }

    method Reset()
      requires Valid()
      modifies this
      ensures Valid() && State() == Fresh(seed)
    {
      clen, tail, h1 := 0, Slice(buf, 0, 0), seed;
    }

    /** Digests as many blocks as possible; the rest is a view of the argument. */
    method BMix(p: Slice) returns (rest: Slice)
      requires p.Valid()
      modifies `h1
      ensures h1 == Mix(MixBlock, old(h1), p.Bytes())
      ensures rest.Valid() && rest == Slice(p.base, rest.lo, p.hi) && rest.Bytes() == TailOf(p.Bytes())
    {
      hide Mix, TailOf;
      var used;
      var bytes := p.base[p.lo..p.hi];
      h1, used := BlockLoop(bytes, h1);
      rest := Slice(p.base, p.lo + used, p.hi);
      assert bytes[used..] == p.base[p.lo + used..p.hi];
    }

    static method BlockLoop(p: Bytes, start: u32) returns (h: u32, used: nat)
      ensures h == Mix(MixBlock, start, p)
      ensures used <= |p| && p[used..] == TailOf(p)
    {
      hide Mix, TailOf, MixBlock;
      h, used := start, 0;
      assert p[0..] == p;
      var nblocks := |p| / 4;
      for i := 0 to nblocks
        invariant used == 4 * i
        invariant Mix(MixBlock, h, p[used..]) == Mix(MixBlock, start, p)
        invariant TailOf(p[used..]) == TailOf(p)
      {
        MixStep(MixBlock, h, p, used);
        h := MixBlock(h, p[used..used + 4]);
        used := used + 4;
      }
      NoBlockLeft(MixBlock, h, p[used..]);
    }

    /** The pending bytes are completed to a block in the digest's own buffer when enough arrive, and
        extended there when not; either way what remains is copied back to its front. */
    method Write(p: array<byte>) returns (n: nat)
      requires Valid() && p != buf
      modifies this, buf
      ensures Valid() && n == p.Length && p[..] == old(p[..])
      ensures State() == AfterWrite(MixBlock, old(State()), p[..])
    {
      hide Mix, TailOf;
      n := p.Length;
      clen := clen + n;
      Absorb(p);
    }

    method Absorb(p: array<byte>)
      requires Valid() && p != buf
      modifies `h1, `tail, buf
      ensures Valid() && p[..] == old(p[..])
      ensures h1 == Mix(MixBlock, old(h1), old(buf[..tail.hi]) + p[..])
      ensures buf[..tail.hi] == TailOf(old(buf[..tail.hi]) + p[..])
    {
      hide Mix, TailOf;
      var rest := StickBack(p);
      tail := BMix(rest);
      TailIsShort(rest.Bytes());
      KeepTail();
    }

    /** Keeps an own copy of the pending bytes, which may be in the buffer already, further back. */
    method KeepTail()
      requires buf.Length == CAPACITY && tail.Valid() && tail.hi - tail.lo < 4
      modifies `tail, buf
      ensures Valid() && buf[..tail.hi] == old(tail.Bytes())
    {
      var nn, from := tail.hi - tail.lo, tail;
      ghost var left := from.base[from.lo..from.hi];
      forall i | 0 <= i < nn { buf[i] := from.base[from.lo + i]; }
      tail := Slice(buf, 0, nn);
      forall i | 0 <= i < nn ensures buf[i] == left[i] {
      }
    }

    method StickBack(p: array<byte>) returns (rest: Slice)
      requires Valid() && p != buf
      modifies `h1, buf
      ensures rest.Valid() && (rest.base == p || rest.base == buf) && p[..] == old(p[..])
      ensures var all := old(tail.Bytes()) + p[..];
              Mix(MixBlock, h1, rest.Bytes()) == Mix(MixBlock, old(h1), all) && TailOf(rest.Bytes()) == TailOf(all)
    {
      hide Mix, TailOf;
      rest := Slice(p, 0, p.Length);
      ghost var all := tail.Bytes() + p[..];
      assert rest.Bytes() == p[..];
      if tail.hi > 0 {
        var nfree := 4 - tail.hi;
        if nfree < p.Length {
          var block := Append(tail, Slice(p, 0, nfree));
          rest := Slice(p, nfree, p.Length);
          assert all == block.Bytes() + rest.Bytes();
          MixInTwo(MixBlock, h1, block.Bytes(), rest.Bytes());
          OneBlock(block.Bytes());
          assert [] + rest.Bytes() == rest.Bytes();
          var _ := BMix(block);
        } else {
          rest := Append(tail, rest);
        }
      } else {
        assert rest.Bytes() == all;
      }
    }

    method Sum32() returns (h: u32)
      requires Valid()
      ensures h == State().Sum32()
    {
      h := SumOf(h1, tail, clen);
    }

    /** The whole digest of a byte string, for comparison with Sum32WithSeed. */
    static method OfParts(seed: u32, parts: seq<Bytes>) returns (h: u32)
      ensures h == Hash(Concat(parts), seed)
    {
      hide AfterWrite, Mix, TailOf, Finish;
      var d := new Digest32(seed);
      assert parts[0..] == parts;
      for i := 0 to |parts|
        invariant d.Valid() && fresh(d) && fresh(d.buf)
        invariant AfterWrites(MixBlock, d.State(), parts[i..]) == AfterWrites(MixBlock, Fresh(seed), parts)
      {
        var p := new byte[|parts[i]|](j requires 0 <= j < |parts[i]| => parts[i][j]);
        assert p[..] == parts[i];
        assert parts[i..][1..] == parts[i + 1..];
        var _ := d.Write(p);
      }
      SplitIsIrrelevant(MixBlock, seed, parts);
      AfterOneWrite(seed, Concat(parts));
      h := d.Sum32();
    }
  }

  lemma AfterOneWrite(seed: u32, data: Bytes)
    ensures AfterWrite(MixBlock, Fresh(seed), data).Sum32() == Hash(data, seed)
  {
    hide Mix, TailOf, Finish;
    assert [] + data == data;
  }

  lemma OneBlock(b: Bytes)
    requires |b| == 4
    ensures TailOf(b) == []
  {
  }

  lemma TailIsShort(b: Bytes)
    ensures |TailOf(b)| < 4
  {
  }

  /** The end of both ways of hashing: the pending bytes, the length, the avalanche. */
  method SumOf(h: u32, tail: Slice, length: nat) returns (sum: u32)
    requires tail.Valid() && tail.hi - tail.lo < 4
    ensures sum == Finish(h, tail.Bytes(), length)
  {
    hide Xor32, Scramble, Avalanche;
    sum := h;
    var k: u32 := 0;
    var n := tail.hi - tail.lo;
    if n >= 3 { k := Xor32(k, tail.base[tail.lo + 2] as int * 0x1_0000); }
    if n >= 2 { k := Xor32(k, tail.base[tail.lo + 1] as int * 0x100); }
    if n >= 1 {
      k := Xor32(k, tail.base[tail.lo]);
      sum := Xor32(sum, Scramble(k));
    }
    sum := Avalanche(Xor32(sum, length % WORD));
  }

  method Sum32WithSeed(data: array<byte>, seed: u32) returns (h: u32)
    ensures h == Hash(data[..], seed)
  {
    hide Mix, TailOf, Finish;
    TailIsShort(data[..]);
    var used;
    h, used := Digest32.BlockLoop(data[..], seed);
    var rest := Slice(data, used, data.Length);
    assert rest.Bytes() == data[..][used..];
    h := SumOf(h, rest, data.Length);
  }
}
