/** Bytes, fixed-width integers and the two byte orders used by the wire formats. */
module ByteCodec {
  type byte = x: int | 0 <= x < 256
  type Bytes = seq<byte>
  type u16 = x: int | 0 <= x < 0x1_0000
  type u32 = x: int | 0 <= x < 0x1_0000_0000
  type u64 = x: int | 0 <= x < 0x1_0000_0000_0000_0000

  /** An infinite supply of bytes: a cipher's keystream, or the random bytes one call draws. */
  type Supply = nat -> byte

  function Pow2(n: nat): (r: nat)
    ensures r > 0
  {
    if n == 0 then 1 else 2 * Pow2(n - 1)
  }

  lemma {:induction false} Pow2Sum(m: nat, n: nat)
    ensures Pow2(m + n) == Pow2(m) * Pow2(n)
  {
    if m > 0 {
      Pow2Sum(m - 1, n);
    }
  }

  lemma WordSizes()
    ensures Pow2(8) == 0x100 && Pow2(16) == 0x1_0000 && Pow2(32) == 0x1_0000_0000
    ensures Pow2(64) == 0x1_0000_0000_0000_0000
  {
    assert Pow2(2) == 4;
    Squared(2, 4);
    Squared(4, 0x10);
    Squared(8, 0x100);
    Squared(16, 0x1_0000);
    Squared(32, 0x1_0000_0000);
  }

  lemma Squared(n: nat, p: nat)
    requires Pow2(n) == p
    ensures Pow2(n + n) == p * p
  {
    hide Pow2;
    Pow2Sum(n, n);
  }

  /** Bitwise exclusive or, bit by bit from the lowest. */
  function Xor(a: nat, b: nat): nat
    decreases a + b
  {
    if a == 0 && b == 0 then 0
    else (if a % 2 == b % 2 then 0 else 1) + 2 * Xor(a / 2, b / 2)
  }

  lemma {:induction false} XorCancels(a: nat, b: nat)
    ensures Xor(Xor(a, b), b) == a
    decreases a + b
  {
    if a != 0 || b != 0 {
      XorCancels(a / 2, b / 2);
      var x := Xor(a, b);
      assert x / 2 == Xor(a / 2, b / 2);
    }
  }

  lemma {:induction false} XorBelow(a: nat, b: nat, width: nat)
    requires a < Pow2(width) && b < Pow2(width)
    ensures Xor(a, b) < Pow2(width)
    decreases width
  {
    if a != 0 || b != 0 {
      XorBelow(a / 2, b / 2, width - 1);
    }
  }

  /** Bit `i`, the lowest being 0. */
  predicate Bit(x: nat, i: nat)
    decreases i
  {
    if i == 0 then x % 2 == 1 else Bit(x / 2, i - 1)
  }

  /** What exclusive or is: a bit is set exactly when it is set in one of the two. */
  lemma {:induction false} XorBit(a: nat, b: nat, i: nat)
    ensures Bit(Xor(a, b), i) <==> Bit(a, i) != Bit(b, i)
    decreases i
  {
    if a == 0 && b == 0 {
      ZeroBit(i);
    } else {
      assert Xor(a, b) / 2 == Xor(a / 2, b / 2);
      if i > 0 { XorBit(a / 2, b / 2, i - 1); }
    }
  }

  lemma {:induction false} ZeroBit(i: nat)
    ensures !Bit(0, i)
    decreases i
  {
    if i > 0 { ZeroBit(i - 1); }
  }

  lemma {:induction false} HighBit(x: nat, width: nat, i: nat)
    requires x < Pow2(width) && width <= i
    ensures !Bit(x, i)
    decreases i
  {
    if width == 0 {
      ZeroBit(i);
    } else {
      HighBit(x / 2, width - 1, i - 1);
    }
  }

  /** What is added from bit `width` on does not change the bits below. */
  lemma {:induction false} LowBit(x: nat, width: nat, k: nat, i: nat)
    requires i < width
    ensures Bit(x + Pow2(width) * k, i) == Bit(x, i)
    decreases i
  {
    var p := Pow2(width - 1);
    assert x + Pow2(width) * k == x + 2 * (p * k);
    if i > 0 { LowBit(x / 2, width - 1, k, i - 1); }
  }

  /** The bits make up the number. */
  lemma {:induction false} SameBits(x: nat, y: nat)
    requires forall i: nat :: Bit(x, i) == Bit(y, i)
    ensures x == y
    decreases x + y
  {
    assert Bit(x, 0) == Bit(y, 0);
    if x > 0 || y > 0 {
      forall i: nat ensures Bit(x / 2, i) == Bit(y / 2, i) {
        assert Bit(x, i + 1) == Bit(y, i + 1);
      }
      SameBits(x / 2, y / 2);
    }
  }

  /** The bits of a number put together from a high and a low part. */
  lemma {:induction false} BitOfParts(high: nat, low: nat, width: nat, i: nat)
    requires low < Pow2(width)
    ensures Bit(high * Pow2(width) + low, i) == if i < width then Bit(low, i) else Bit(high, i - width)
    decreases width
  {
    if i < width {
      LowBit(low, width, high, i);
    } else if width > 0 {
      var p := Pow2(width - 1);
      assert high * Pow2(width) + low == 2 * (high * p) + low;
      assert (2 * (high * p) + low) / 2 == high * p + low / 2;
      BitOfParts(high, low / 2, width - 1, i - 1);
    }
  }

  /** Numbers without a common bit are added by exclusive or. */
  lemma {:induction false} XorDisjoint(high: nat, low: nat, width: nat)
    requires low < Pow2(width)
    ensures Xor(high * Pow2(width), low) == high * Pow2(width) + low
    decreases width
  {
    if width == 0 {
      XorNothing(high);
    } else {
      var p := Pow2(width - 1);
      assert high * Pow2(width) == 2 * (high * p);
      XorDisjoint(high, low / 2, width - 1);
    }
  }

  lemma {:induction false} XorNothing(a: nat)
    ensures Xor(a, 0) == a
  {
    if a > 0 { XorNothing(a / 2); }
  }

  function Xor8(a: byte, b: byte): byte {
    WordSizes();
    XorBelow(a, b, 8);
    Xor(a, b)
  }

  function Xor16(a: u16, b: u16): u16 {
    WordSizes();
    XorBelow(a, b, 16);
    Xor(a, b)
  }

  function Xor32(a: u32, b: u32): u32 {
    WordSizes();
    XorBelow(a, b, 32);
    Xor(a, b)
  }

  function Xor64(a: u64, b: u64): u64 {
    WordSizes();
    XorBelow(a, b, 64);
    Xor(a, b)
  }

  function Le16(low: byte, high: byte): u16 { low + 256 * high }

  function PutLe16(n: u16): (b: Bytes)
    ensures |b| == 2
  {
    [n % 256, n / 256]
  }

  function Be16(high: byte, low: byte): u16 { 256 * high + low }

  function PutBe16(n: u16): (b: Bytes)
    ensures |b| == 2
  {
    [n / 256, n % 256]
  }

  lemma Put16RoundTrip(n: u16)
    ensures Le16(PutLe16(n)[0], PutLe16(n)[1]) == n
    ensures Be16(PutBe16(n)[0], PutBe16(n)[1]) == n
  {
  }

  lemma Be16RoundTrip(high: byte, low: byte)
    ensures PutBe16(Be16(high, low)) == [high, low]
  {
  }

  lemma Xor16Cancels(a: u16, b: u16)
    ensures Xor16(Xor16(a, b), b) == a
  {
    XorCancels(a, b);
  }

  function Le32(b: Bytes): u32
    requires |b| == 4
  {
    Le16(b[0], b[1]) + 0x1_0000 * (Le16(b[2], b[3]) as int)
  }

  function PutLe32(n: u32): (b: Bytes)
    ensures |b| == 4
  {
    PutLe16(n % 0x1_0000) + PutLe16(n / 0x1_0000)
  }

  function Le64(b: Bytes): u64
    requires |b| == 8
  {
    Le32(b[..4]) + 0x1_0000_0000 * Le32(b[4..])
  }

  lemma Le32IsInjective(a: Bytes, b: Bytes)
    requires |a| == |b| == 4 && Le32(a) == Le32(b)
    ensures a == b
  {
    hide Le16;
    assert Le16(a[0], a[1]) == Le16(b[0], b[1]) && Le16(a[2], a[3]) == Le16(b[2], b[3]);
    Le16IsInjective(a[0], a[1], b[0], b[1]);
    Le16IsInjective(a[2], a[3], b[2], b[3]);
  }

  lemma Le16IsInjective(a: byte, b: byte, c: byte, d: byte)
    requires Le16(a, b) == Le16(c, d)
    ensures a == c && b == d
  {
  }

  lemma Le64IsInjective(a: Bytes, b: Bytes)
    requires |a| == |b| == 8 && Le64(a) == Le64(b)
    ensures a == b
  {
    hide Le32;
    Le32IsInjective(a[..4], b[..4]);
    Le32IsInjective(a[4..], b[4..]);
    assert a == a[..4] + a[4..] && b == b[..4] + b[4..];
  }

  /** What the byte orders are: digits to the base 256, the lowest or the highest first. */
  lemma Digits(n: u32, k: u16)
    ensures var b := PutLe32(n);
            n == b[0] as int + 0x100 * b[1] as int + 0x1_0000 * b[2] as int + 0x100_0000 * b[3] as int
    ensures var b := PutLe16(k); k == b[0] as int + 0x100 * b[1] as int
    ensures var b := PutBe16(k); k == 0x100 * b[0] as int + b[1] as int
  {
  }

  lemma DigitsRead(b: Bytes)
    requires |b| == 4
    ensures Le32(b) == b[0] as int + 0x100 * b[1] as int + 0x1_0000 * b[2] as int + 0x100_0000 * b[3] as int
    ensures Be16(b[0], b[1]) == 0x100 * b[0] as int + b[1] as int
  {
  }

  /** `n` bytes of a supply, starting at `from`. */
  function Take(s: Supply, from: nat, n: nat): (b: Bytes)
    ensures |b| == n
  {
    seq(n, i requires 0 <= i < n => s(from + i))
  }

  /** A stream cipher at position `pos`: every byte is combined with the keystream. */
  function StreamXor(keystream: Supply, pos: nat, data: Bytes): (b: Bytes)
    ensures |b| == |data|
  {
    seq(|data|, i requires 0 <= i < |data| => Xor8(data[i], keystream(pos + i)))
  }

  lemma StreamXorCancels(keystream: Supply, pos: nat, data: Bytes)
    ensures StreamXor(keystream, pos, StreamXor(keystream, pos, data)) == data
  {
    var once := StreamXor(keystream, pos, data);
    var twice := StreamXor(keystream, pos, once);
    forall i | 0 <= i < |data| ensures twice[i] == data[i] {
      XorCancels(data[i], keystream(pos + i));
    }
  }

  lemma SliceOfPrefix<T>(s: seq<T>, more: seq<T>, i: nat, j: nat)
    requires i <= j <= |s|
    ensures (s + more)[i..j] == s[i..j]
  {
  }

  function Concat(parts: seq<Bytes>): Bytes {
    if parts == [] then [] else parts[0] + Concat(parts[1..])
  }

  lemma {:induction false} ConcatAppend(a: seq<Bytes>, b: seq<Bytes>)
    ensures Concat(a + b) == Concat(a) + Concat(b)
  {
    if a == [] {
      assert a + b == b;
    } else {
      ConcatAppend(a[1..], b);
      assert (a + b)[1..] == a[1..] + b && (a + b)[0] == a[0];
      Regroup(a[0], Concat(a[1..]), Concat(b));
    }
  }

  lemma Regroup<T>(x: seq<T>, y: seq<T>, z: seq<T>)
    ensures x + (y + z) == (x + y) + z
  {
  }

  /** What was appended last is the end of it all. */
  lemma EndOf<T>(before: seq<T>, last: seq<T>, n: nat)
    requires n == |last|
    ensures (before + last)[|before + last| - n..] == last
  {
  }

  /** Pieces of `limit` bytes and a last one that may be shorter. */
  function Pieces(b: Bytes, limit: nat): (pieces: seq<Bytes>)
    requires limit > 0
    ensures forall i :: 0 <= i < |pieces| ==> 0 < |pieces[i]| <= limit
    decreases |b|
  {
    if |b| == 0 then [] else if |b| <= limit then [b] else [b[..limit]] + Pieces(b[limit..], limit)
  }

  lemma {:induction false} PiecesKeepBytes(b: Bytes, limit: nat)
    requires limit > 0
    ensures Concat(Pieces(b, limit)) == b
    decreases |b|
  {
    if |b| > limit {
      PiecesKeepBytes(b[limit..], limit);
      assert Pieces(b, limit)[1..] == Pieces(b[limit..], limit);
    } else if |b| > 0 {
      assert Pieces(b, limit)[1..] == [];
    }
  }

  /** All pieces but the last are full. */
  lemma {:induction false} PiecesAreFull(b: Bytes, limit: nat)
    requires limit > 0
    ensures forall i :: 0 <= i < |Pieces(b, limit)| - 1 ==> |Pieces(b, limit)[i]| == limit
    decreases |b|
  {
    if |b| > limit { PiecesAreFull(b[limit..], limit); }
  }

  /** A byte buffer that is written at the end and consumed from the front. */
  class Buffer {
    var data: Bytes

    constructor (initial: Bytes)
      ensures data == initial
    {
      data := initial;
    }

    method Write(b: Bytes)
      modifies this
      ensures data == old(data) + b
    {
      data := data + b;
    }

    method Next(n: nat) returns (b: Bytes)
      requires n <= |data|
      modifies this
      ensures old(data) == b + data && |b| == n
    {
      b := data[..n];
      data := data[n..];
    }

    method Reset()
      modifies this
      ensures data == []
    {
      data := [];
    }
  }
}
