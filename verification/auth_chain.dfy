/** transport/ssr/protocol/auth_chain_a.go and auth_chain_b.go: the protocol object itself, with its
    hashes, generators, counters and ciphers updated in place. */
module AuthChain {
  import opened ByteCodec
  import opened Options
  import opened Framing
  import opened Prng
  import opened AuthChainSpec
  import Stream = AuthChainStream

  /** Binary search for the first entry that is at least `x`, as sort.Search does it. */
  method Search(sizes: seq<nat>, x: int) returns (i: nat)
    requires Sorted(sizes)
    ensures i == FirstAtLeast(sizes, x)
  {
    i := 0;
    var j := |sizes|;
    while i < j
      invariant 0 <= i <= j <= |sizes|
      invariant forall k :: 0 <= k < i ==> sizes[k] < x
      invariant forall k :: j <= k < |sizes| ==> sizes[k] >= x
    {
      var h := (i + j) / 2;
      if sizes[h] < x { i := h + 1; } else { j := h; }
    }
    FirstIsUnique(sizes, x, i);
  }

  lemma {:induction false} FirstIsUnique(sizes: seq<nat>, x: int, i: nat)
    requires i <= |sizes|
    requires forall k :: 0 <= k < i ==> sizes[k] < x
    requires i < |sizes| ==> sizes[i] >= x
    ensures i == FirstAtLeast(sizes, x)
    decreases i
  {
    if i > 0 {
      FirstIsUnique(sizes[1..], x, i - 1);
    }
  }

  /** sort.Ints: the same entries in order. */
  method SortInts(list: seq<nat>) returns (sorted: seq<nat>)
    ensures Sorted(sorted) && multiset(sorted) == multiset(list)
  {
    sorted := [];
    for n := 0 to |list|
      invariant Sorted(sorted) && multiset(sorted) == multiset(list[..n])
    {
      var i := Search(sorted, list[n]);
      InsertedInOrder(sorted, i, list[n]);
      InsertedOnce(sorted, i, list[n]);
      assert list[..n + 1] == list[..n] + [list[n]];
      sorted := sorted[..i] + [list[n]] + sorted[i..];
    }
    assert list[..|list|] == list;
  }

  lemma InsertedOnce(sizes: seq<nat>, i: nat, x: nat)
    requires i <= |sizes|
    ensures multiset(sizes[..i] + [x] + sizes[i..]) == multiset(sizes) + multiset{x}
  {
    assert sizes == sizes[..i] + sizes[i..];
  }

  lemma InsertedInOrder(sizes: seq<nat>, i: nat, x: nat)
    requires Sorted(sizes) && i == FirstAtLeast(sizes, x)
    ensures Sorted(sizes[..i] + [x] + sizes[i..])
  {
    hide FirstAtLeast;
    var r := sizes[..i] + [x] + sizes[i..];
    forall a, b | 0 <= a < b < |r| ensures r[a] <= r[b] {
      var a' := if a < i then a else a - 1;
      var b' := if b < i then b else b - 1;
      if a == i {
        assert r[b] == sizes[b'] && sizes[i] <= sizes[b'];
      } else if b == i {
        assert r[a] == sizes[a];
      } else {
        assert r[a] == sizes[a'] && r[b] == sizes[b'];
      }
    }
  }

  /** The next `n` sizes a generator yields. */
  function Sizes(r: Rng, n: nat): (sizes: seq<nat>)
    ensures |sizes| == n
    decreases n
  {
    if n == 0 then [] else [Step(r).1 % 2340 % 2040 % 1440] + Sizes(Step(r).0, n - 1)
  }

  /** The two lists of auth_chain_b hold, in order, what a generator seeded with the key yields. */
  ghost predicate DrawnFrom(p: Padding, key: Bytes, overhead: nat)
    requires |key| >= 16
  {
    p.PaddingB? && p.overhead == overhead
    && var first := Step(Load(key));
       var second := Step(Skip(first.0, first.1 % 8 + 4));
       multiset(p.sizes) == multiset(Sizes(first.0, first.1 % 8 + 4))
       && multiset(p.sizes2) == multiset(Sizes(second.0, second.1 % 16 + 8))
  }

  lemma LastIsLargest(a: seq<nat>, x: nat)
    requires Sorted(a) && x in a
    ensures x <= a[|a| - 1]
  {
  }

  lemma WithoutLast(a: seq<nat>)
    requires Sorted(a) && |a| > 0
    ensures Sorted(a[..|a| - 1])
  {
  }

  lemma SameWithoutLast(a: seq<nat>, b: seq<nat>)
    requires multiset(a) == multiset(b) && |a| == |b| > 0 && a[|a| - 1] == b[|a| - 1]
    ensures multiset(a[..|a| - 1]) == multiset(b[..|a| - 1])
  {
    var n := |a| - 1;
    assert a == a[..n] + [a[n]] && b == b[..n] + [b[n]];
    assert multiset(a[..n]) == multiset(a) - multiset{a[n]};
    assert multiset(b[..n]) == multiset(b) - multiset{b[n]};
  }

  /** Sorting leaves no choice: what is in a sorted list decides the list. */
  lemma {:induction false} SortedIsDetermined(a: seq<nat>, b: seq<nat>)
    requires Sorted(a) && Sorted(b) && multiset(a) == multiset(b)
    ensures a == b
    decreases |a|
  {
    hide Sorted;
    SameMembers(a, b);
    if |a| > 0 {
      var n := |a| - 1;
      LastIsLargest(a, b[n]);
      LastIsLargest(b, a[n]);
      WithoutLast(a);
      WithoutLast(b);
      SameWithoutLast(a, b);
      SortedIsDetermined(a[..n], b[..n]);
      assert a == a[..n] + [a[n]] && b == b[..n] + [b[n]];
    }
  }

  /** What is in the lists: 4 to 11 and 8 to 23 numbers, drawn one after the other. */
  lemma WhatIsDrawn(p: Padding, key: Bytes, overhead: nat)
    requires |key| >= 16 && DrawnFrom(p, key, overhead)
    ensures 4 <= |p.sizes| <= 11 && 8 <= |p.sizes2| <= 23
    ensures var first := Step(Load(key));
            forall i :: 0 <= i < |p.sizes| ==> Step(Skip(first.0, i)).1 % 2340 % 2040 % 1440 in p.sizes
  {
    hide Step, Skip, Sizes;
    var first := Step(Load(key));
    var n := first.1 % 8 + 4;
    var second := Step(Skip(first.0, n));
    SameMembers(p.sizes, Sizes(first.0, n));
    SameMembers(p.sizes2, Sizes(second.0, second.1 % 16 + 8));
    forall i | 0 <= i < n ensures Step(Skip(first.0, i)).1 % 2340 % 2040 % 1440 in p.sizes {
      SizeAt(first.0, n, i);
      assert Sizes(first.0, n)[i] in Sizes(first.0, n);
    }
  }

  lemma {:induction false} SizeAt(r: Rng, n: nat, i: nat)
    requires i < n
    ensures Sizes(r, n)[i] == Step(Skip(r, i)).1 % 2340 % 2040 % 1440
    decreases n
  {
    hide Step;
    if i > 0 { SizeAt(Step(r).0, n - 1, i - 1); }
  }

  /** Both ends have the same lists: the key decides them. */
  lemma BothEndsAgree(p: Padding, q: Padding, key: Bytes, overhead: nat)
    requires |key| >= 16 && DrawnFrom(p, key, overhead) && DrawnFrom(q, key, overhead)
    ensures p == q
  {
    hide Step;
    SortedIsDetermined(p.sizes, q.sizes);
    SortedIsDetermined(p.sizes2, q.sizes2);
  }

  class Protocol {
    const key: Bytes
    const userKey: Bytes
    const hmac: Hmac
    const keystream: Supply
    const overhead: nat
    var padding: Padding
    var lastClientHash: array<byte>
    var lastServerHash: array<byte>
    var encrypted: nat // position of the encrypting cipher in the keystream
    var decrypted: nat // position of the decrypting cipher
    const randomClient: XorShift128Plus
    const randomServer: XorShift128Plus
    var packID: u32
    var recvID: u32
    var rawTrans: bool

    ghost predicate Valid()
      reads this, lastClientHash, lastServerHash
    {
      lastClientHash.Length == lastServerHash.Length == 16 && lastClientHash != lastServerHash
      && randomClient != randomServer
    }

    ghost function Shared(): Link
      reads this
    {
      Link(userKey, hmac, keystream, padding)
    }

    /** Where the sending half stands. */
    ghost function Tx(): End
      requires Valid()
      reads this, lastClientHash, lastServerHash
    {
      End(lastClientHash[2..], encrypted, packID)
    }

    /** Where the receiving half stands. */
    ghost function Rx(): End
      requires Valid()
      reads this, lastClientHash, lastServerHash
    {
      End(lastServerHash[2..], decrypted, recvID)
    }

    /** StreamConn: both counters start at 1. The hashes and the cipher positions are those the
        authentication header leaves, which both ends know. */
    constructor (key: Bytes, userKey: Bytes, hmac: Hmac, keystream: Supply, overhead: nat,
                 clientHash: Bytes, serverHash: Bytes, encrypted: nat, decrypted: nat)
      requires |clientHash| == |serverHash| == 16
      ensures Valid() && fresh(lastClientHash) && fresh(lastServerHash) && fresh(randomClient) && fresh(randomServer)
      ensures Shared() == Link(userKey, hmac, keystream, PaddingA)
      ensures Tx() == End(clientHash[2..], encrypted, 1) && Rx() == End(serverHash[2..], decrypted, 1) && !rawTrans
    {
      this.key, this.userKey, this.hmac, this.keystream, this.overhead := key, userKey, hmac, keystream, overhead;
      padding := PaddingA;
      var client := new byte[16](i requires 0 <= i < 16 => clientHash[i]);
      var server := new byte[16](i requires 0 <= i < 16 => serverHash[i]);
      lastClientHash, lastServerHash := client, server;
      this.encrypted, this.decrypted := encrypted, decrypted;
      randomClient := new XorShift128Plus();
      randomServer := new XorShift128Plus();
      packID, recvID, rawTrans := 1, 1, false;
      new;
      assert client[..] == clientHash && server[..] == serverHash;
      assert client[2..] == clientHash[2..] && server[2..] == serverHash[2..];
    }

    /** auth_chain_b: draws the two lists of sizes that a frame is padded up to, from the key alone:
        by BothEndsAgree the two ends have the same lists. */
    method InitDataSize() returns (panics: bool)
      requires Valid()
      modifies `padding, randomServer
      ensures Valid() && (panics <==> |key| < 16)
      ensures !panics ==> DrawnFrom(padding, key, overhead)
    {
      hide Step;
      panics := randomServer.InitFromBin(key);
      if panics { return; }
      var length := randomServer.Next();
      var sizes := DrawSizes(length % 8 + 4);
      length := randomServer.Next();
      var sizes2 := DrawSizes(length % 16 + 8);
      padding := PaddingB(overhead, sizes, sizes2);
    }

    method DrawSizes(count: nat) returns (sizes: seq<nat>)
      requires count > 0
      modifies randomServer
      ensures ValidSizes(sizes)
      ensures multiset(sizes) == multiset(Sizes(old(randomServer.State()), count))
      ensures randomServer.State() == Skip(old(randomServer.State()), count)
    {
      hide Step;
      var drawn: seq<nat> := [];
      for n := 0 to count
        invariant forall d :: d in drawn ==> d < 1440
        invariant drawn + Sizes(randomServer.State(), count - n) == Sizes(old(randomServer.State()), count)
        invariant Skip(randomServer.State(), count - n) == Skip(old(randomServer.State()), count)
      {
        var x := randomServer.Next();
        drawn := drawn + [x % 2340 % 2040 % 1440];
      }
      sizes := SortInts(drawn);
      SameMembers(sizes, drawn);
      forall i | 0 <= i < |sizes| ensures sizes[i] < 1440 {
        assert sizes[i] in sizes;
      }
    }

    /** The caller's hash is overwritten in place, but only in the two bytes that no later
        computation reads before overwriting them again. */
    method GetRandLengthA(length: nat, lastHash: array<byte>, random: XorShift128Plus) returns (n: nat)
      requires lastHash.Length == 16 && padding.PaddingA?
      modifies lastHash, random
      ensures n == Pad(padding, length, old(lastHash[2..])).count
      ensures lastHash[2..] == old(lastHash[2..])
      ensures lastHash[..2] == if Unpadded(padding, length) then old(lastHash[..2]) else PutLe16(length % 0x1_0000)
      ensures !Unpadded(padding, length) ==> random.State() == Pad(padding, length, old(lastHash[2..])).rng
    {
      hide Step, Seeded, PutLe16, PutLe32, DrawByLength;
      if length > 1440 { return 0; }
      var _ := random.InitFromBinAndLength(lastHash, 16, length);
      SplitHash(lastHash[..], length, old(lastHash[2..]));
      n := DrawTail(length, random);
    }

    method GetRandLengthB(length: nat, lastHash: array<byte>, random: XorShift128Plus) returns (n: nat)
      requires lastHash.Length == 16 && padding.PaddingB?
      modifies lastHash, random
      ensures n == Pad(padding, length, old(lastHash[2..])).count
      ensures lastHash[2..] == old(lastHash[2..])
      ensures lastHash[..2] == if Unpadded(padding, length) then old(lastHash[..2]) else PutLe16(length % 0x1_0000)
      ensures !Unpadded(padding, length) ==> random.State() == Pad(padding, length, old(lastHash[2..])).rng
    {
      hide Step, Seeded, PutLe16, PutLe32, DrawByLength;
      if length >= 1440 { return 0; }
      var _ := random.InitFromBinAndLength(lastHash, 16, length);
      SplitHash(lastHash[..], length, old(lastHash[2..]));
      n := PickSize(length, random);
    }

    /** A listed size at or after the first that is big enough, from the first list or the second. */
    method PickSize(length: nat, random: XorShift128Plus) returns (n: nat)
      requires padding.PaddingB?
      modifies random
      ensures Draw(n, random.State()) == PadFromSizes(padding, length, old(random.State()))
    {
      hide DrawByLength, DrawBelow, FirstAtLeast;
      var pos := Search(padding.sizes, length + padding.overhead);
      var x := Choose(|padding.sizes|, random);
      if pos + x < |padding.sizes| {
        return padding.sizes[pos + x] - length - padding.overhead;
      }
      pos := Search(padding.sizes2, length + padding.overhead);
      x := Choose(|padding.sizes2|, random);
      if pos + x < |padding.sizes2| {
        return padding.sizes2[pos + x] - length - padding.overhead;
      }
      if pos + x < pos + |padding.sizes2| - 1 { return 0; }
      n := DrawTail(length, random);
    }

    static method Choose(n: nat, random: XorShift128Plus) returns (x: nat)
      requires n > 0
      modifies random
      ensures Draw(x, random.State()) == DrawBelow(old(random.State()), n)
    {
      hide Step;
      var drawn := random.Next();
      x := drawn % n;
    }

    /** The `randDataLength` field holds one method or the other. */
    method RandDataLength(length: nat, lastHash: array<byte>, random: XorShift128Plus) returns (n: nat)
      requires lastHash.Length == 16
      modifies lastHash, random
      ensures n == Pad(padding, length, old(lastHash[2..])).count
      ensures lastHash[2..] == old(lastHash[2..])
      ensures lastHash[..2] == if Unpadded(padding, length) then old(lastHash[..2]) else PutLe16(length % 0x1_0000)
      ensures !Unpadded(padding, length) ==> random.State() == Pad(padding, length, old(lastHash[2..])).rng
    {
      if padding.PaddingA? {
        n := GetRandLengthA(length, lastHash, random);
      } else {
        n := GetRandLengthB(length, lastHash, random);
      }
    }

    static method DrawTail(length: nat, random: XorShift128Plus) returns (n: nat)
      modifies random
      ensures Draw(n, random.State()) == DrawByLength(old(random.State()), length)
    {
      hide Step;
      var x := random.Next();
      if length > 1300 { return x % 31; }
      if length > 900 { return x % 127; }
      if length > 400 { return x % 521; }
      return x % 1021;
    }

    static method GetRandStartPos(length: nat, random: XorShift128Plus) returns (start: nat)
      modifies random
      ensures Layout(length, start) == Place(Draw(length, old(random.State())))
    {
      hide Step;
      if length == 0 { return 0; }
      var x := random.Next();
      return x % 8589934609 % length;
    }

    /** Where the data of a frame goes, drawn from the hash and a generator both ends share. */
    method DrawLayout(dataLength: nat, lastHash: array<byte>, random: XorShift128Plus) returns (l: Layout)
      requires lastHash.Length == 16
      modifies lastHash, random
      ensures l.Valid() && lastHash[2..] == old(lastHash[2..])
      ensures l.count == LayoutOf(padding, dataLength, old(lastHash[2..])).count
      ensures dataLength > 0 ==> l == LayoutOf(padding, dataLength, old(lastHash[2..]))
    {
      hide Step, PadFromSizes, DrawByLength, Seeded;
      var n := RandDataLength(dataLength, lastHash, random);
      var start := 0;
      if dataLength > 0 && n > 0 {
        start := GetRandStartPos(n, random);
      }
      l := Layout(n, start);
    }

    /** encrypter.XORKeyStream(data, data). */
    method EncryptInPlace(data: array<byte>, lo: nat, hi: nat)
      requires lo <= hi <= data.Length
      modifies `encrypted, data
      ensures encrypted == old(encrypted) + (hi - lo)
      ensures data[lo..hi] == StreamXor(keystream, old(encrypted), old(data[lo..hi]))
      ensures forall i :: 0 <= i < data.Length ==>
                data[i] == if lo <= i < hi then Xor8(old(data[i]), keystream(old(encrypted) + (i - lo))) else old(data[i])
    {
      hide Xor8;
      forall i | lo <= i < hi {
        data[i] := Xor8(data[i], keystream(encrypted + (i - lo)));
      }
      encrypted := encrypted + (hi - lo);
    }

    /** Appends one frame carrying data[lo..hi], which is encrypted where it stands. */
    method PackData(poolBuf: Buffer, data: array<byte>, lo: nat, hi: nat, noise: Supply)
      requires Valid() && lo <= hi <= data.Length
      requires data != lastClientHash && data != lastServerHash
      modifies `lastClientHash, `encrypted, `packID, lastClientHash, randomClient, poolBuf, data
      ensures Valid() && (lastClientHash == old(lastClientHash) || fresh(lastClientHash))
      ensures poolBuf.data == old(poolBuf.data) + Frame(Shared(), old(Tx()), old(data[lo..hi]), noise)
      ensures Tx() == AfterFrame(Shared(), old(Tx()), old(data[lo..hi]), noise)
      ensures var f := poolBuf.data[|old(poolBuf.data)|..];
              |f| >= 2 && lastClientHash[..] == hmac(userKey + PutLe32(old(packID)), f[..|f| - 2])
      ensures encrypted == old(encrypted) + (hi - lo)
      ensures forall i :: 0 <= i < data.Length ==>
                data[i] == if lo <= i < hi then Xor8(old(data[i]), keystream(old(encrypted) + (i - lo))) else old(data[i])
    {
      hide LayoutOf, StreamXor, Mixed, PutLe16, PutLe32, Xor16, Xor8, Le16;
      ghost var plain, before := data[lo..hi], Tx();
      EncryptInPlace(data, lo, hi);
      var cipher := data[lo..hi];
      var mask := Le16(lastClientHash[14], lastClientHash[15]);
      assert mask == Mask(before);
      var head := PutLe16(Xor16((hi - lo) % 0x1_0000, mask));
      assert lastClientHash[2..] == before.tail;
      var l := DrawLayout(hi - lo, lastClientHash, randomClient);
      var body := head + Mixed(l, cipher, noise);
      OnlyDataHasAPlace(Shared(), before, [0, 0, 0, 0, 0], cipher, noise, hi - lo, l, LayoutOf(padding, hi - lo, before.tail));
      assert body == Body(Shared(), before, plain, noise, LayoutOf(padding, |plain|, before.tail));
      Seal(poolBuf, body);
    }

    /** Appends the body of a frame and the start of its digest, which becomes the next hash. */
    method Seal(poolBuf: Buffer, body: Bytes)
      requires Valid()
      modifies `lastClientHash, `packID, poolBuf
      ensures Valid() && fresh(lastClientHash)
      ensures var mac := hmac(MacKey(Shared(), old(packID)), body);
              poolBuf.data == old(poolBuf.data) + (body + mac[..2]) && lastClientHash[..] == mac
      ensures packID == (old(packID) + 1) % 0x1_0000_0000
    {
      var mac := hmac(userKey + PutLe32(packID), body);
      poolBuf.Write(body);
      poolBuf.Write(mac[..2]);
      packID := (packID + 1) % 0x1_0000_0000;
      lastClientHash := HashOf(mac);
    }

    static method HashOf(mac: Bytes) returns (hash: array<byte>)
      requires |mac| == 16
      ensures fresh(hash) && hash[..] == mac && hash[2..] == mac[2..]
    {
      hash := new byte[16](i requires 0 <= i < 16 => mac[i]);
      assert hash[..] == mac;
    }

    /** Encode once the header has been sent. The caller's bytes are left encrypted. */
    method Encode(buf: Buffer, b: array<byte>, noise: nat -> Supply)
      requires Valid() && b != lastClientHash && b != lastServerHash
      modifies `lastClientHash, `encrypted, `packID, lastClientHash, randomClient, buf, b
      ensures Valid()
      ensures var sent := Send(Stream.SenderOf(Shared()), old(Tx()), Stream.Cut(Stream.Write(old(b[..]), noise), 0));
              buf.data == old(buf.data) + sent.wire && Tx() == sent.end
      ensures forall i :: 0 <= i < b.Length ==> b[i] == Xor8(old(b[i]), keystream(old(encrypted) + i))
    {
      hide Frame, AfterFrame, StreamXor, Send, Stream.Cut, Stream.SenderOf;
      ghost var whole := b[..];
      ghost var all := Send(Stream.SenderOf(Shared()), Tx(), Stream.Cut(Stream.Write(whole, noise), 0));
      var lo, k := 0, 0;
      assert whole[0..] == whole;
      while b.Length - lo > 2800
        invariant 0 <= lo <= b.Length && Valid()
        invariant lastClientHash == old(lastClientHash) || fresh(lastClientHash)
        invariant b != lastClientHash
        invariant encrypted == old(encrypted) + lo
        invariant forall i :: 0 <= i < b.Length ==>
                    b[i] == if i < lo then Xor8(whole[i], keystream(old(encrypted) + i)) else whole[i]
        invariant var todo := Send(Stream.SenderOf(Shared()), Tx(), Stream.Cut(Stream.Write(whole[lo..], noise), k));
                  old(buf.data) + all.wire == buf.data + todo.wire && todo.end == all.end
      {
        ghost var w := Stream.Write(whole[lo..], noise);
        assert w.b[..2800] == b[lo..lo + 2800] && w.b[2800..] == whole[lo + 2800..];
        Stream.SendCut(Shared(), Tx(), w, k);
        PackData(buf, b, lo, lo + 2800, noise(k));
        lo, k := lo + 2800, k + 1;
      }
      ghost var w := Stream.Write(whole[lo..], noise);
      assert w.b == b[lo..];
      Stream.SendCut(Shared(), Tx(), w, k);
      if b.Length - lo > 0 {
        assert b[lo..b.Length] == w.b;
        PackData(buf, b, lo, b.Length, noise(k));
      }
    }

    /** One turn of the decoding loop: what is at the front of `src` and, if it is a frame, its
        payload passed on. An incomplete frame leaves the state as it was, although the stored hash
        has been written to. */
    method DecodeFrame(dst: Buffer, src: Buffer) returns (v: Verdict<End>)
      requires Valid() && dst != src && |src.data| > 4
      modifies `lastServerHash, `decrypted, `recvID, lastServerHash, randomServer, dst, src
      ensures Valid() && (lastServerHash == old(lastServerHash) || fresh(lastServerHash))
      ensures v == Judge(Shared(), old(Rx()), old(src.data))
      ensures !v.Accepted? ==> dst.data == old(dst.data) && src.data == old(src.data)
      ensures !v.Accepted? && v != Refused(Panicked) ==> Rx() == old(Rx())
      ensures v.Accepted? ==> dst.data == old(dst.data) + v.payload && src.data == old(src.data)[v.size..] && Rx() == v.next
      ensures v.Accepted? ==>
                2 <= v.size <= |old(src.data)|
                && lastServerHash[..] == hmac(userKey + PutLe32(old(recvID)), old(src.data)[..v.size - 2])
    {
      hide LayoutOf, Judge, JudgeAt, Xor16, Le16;
      ghost var before, bytes := Rx(), src.data;
      var dataLength := Xor16(Le16(src.data[0], src.data[1]), Le16(lastServerHash[14], lastServerHash[15]));
      var l := DrawLayout(dataLength, lastServerHash, randomServer);
      JudgedAt(Shared(), before, bytes, dataLength, l);
      v := DecodeAt(dst, src, dataLength, l);
    }

    /** The same once the length of the data and its place are known. */
    method DecodeAt(dst: Buffer, src: Buffer, dataLength: u16, l: Layout) returns (v: Verdict<End>)
      requires Valid() && dst != src && |src.data| > 4 && l.Valid()
      modifies `lastServerHash, `decrypted, `recvID, dst, src
      ensures Valid() && (lastServerHash == old(lastServerHash) || fresh(lastServerHash))
      ensures v == JudgeAt(Shared(), old(Rx()), old(src.data), dataLength, l)
      ensures !v.Accepted? ==> dst.data == old(dst.data) && src.data == old(src.data)
      ensures !v.Accepted? && v != Refused(Panicked) ==> Rx() == old(Rx())
      ensures v.Accepted? ==> dst.data == old(dst.data) + v.payload && src.data == old(src.data)[v.size..] && Rx() == v.next
      ensures v.Accepted? ==>
                2 <= v.size <= |old(src.data)|
                && lastServerHash[..] == hmac(userKey + PutLe32(old(recvID)), old(src.data)[..v.size - 2])
    {
      hide PutLe32, StreamXor;
      var length := dataLength + l.count;
      if length >= 4096 { return Refused(LengthError); }
      if 4 + length > |src.data| { return Incomplete; }
      var mac := hmac(userKey + PutLe32(recvID), src.data[..length + 2]);
      if mac[..2] != src.data[length + 2..length + 4] { return Refused(ChecksumError); }
      lastServerHash := HashOf(mac);
      var pos := 2 + l.start;
      var plain := StreamXor(keystream, decrypted, src.data[pos..pos + dataLength]);
      decrypted := decrypted + dataLength;
      if recvID == 1 && |plain| < 2 { return Refused(Panicked); }
      var payload := if recvID == 1 then plain[2..] else plain;
      dst.Write(payload);
      recvID := (recvID + 1) % 0x1_0000_0000;
      var _ := src.Next(length + 4);
      v := Accepted(payload, length + 4, End(mac[2..], decrypted, recvID));
    }

    /** Consumes the complete frames of `src` and leaves an incomplete one for the next call. */
    method Decode(dst: Buffer, src: Buffer) returns (failure: Option<Failure>)
      requires Valid() && dst != src
      modifies `lastServerHash, `decrypted, `recvID, `rawTrans, lastServerHash, randomServer, dst, src
      ensures Valid()
      ensures old(rawTrans) ==>
                failure == None && dst.data == old(dst.data) + old(src.data) && src.data == []
                && Rx() == old(Rx()) && rawTrans
      ensures !old(rawTrans) ==>
                var r := Framing.Decode(Stream.JudgeOf(Shared()), old(Rx()), old(src.data));
                failure == r.failure && dst.data == old(dst.data) + r.out
                && rawTrans == (failure.Some? && failure.value != Panicked)
                && (failure != Some(Panicked) ==> src.data == r.rest && Rx() == r.end)
    {
      hide Judge, Framing.Decode;
      if rawTrans {
        dst.Write(src.data);
        src.Reset();
        return None;
      }
      ghost var goal := Framing.Decode(Stream.JudgeOf(Shared()), Rx(), src.data);
      while |src.data| > 4
        invariant Valid() && !rawTrans
        invariant lastServerHash == old(lastServerHash) || fresh(lastServerHash)
        invariant var todo := Framing.Decode(Stream.JudgeOf(Shared()), Rx(), src.data);
                  old(dst.data) + goal.out == dst.data + todo.out && goal == todo.(out := goal.out)
        decreases |src.data|
      {
        ghost var before, bytes := Rx(), src.data;
        var v := DecodeFrame(dst, src);
        DecodeUnfolds(Stream.JudgeOf(Shared()), before, bytes);
        match v
        case Accepted(_, _, _) =>
        case Incomplete => break;
        case Refused(why) =>
          if why == Panicked { return Some(why); }
          rawTrans := true;
          src.Reset();
          return Some(why);
      }
      FewBytes(Shared(), Rx(), src.data);
      failure := None;
    }
  }

  lemma FewBytes(link: Link, s: End, src: Bytes)
    ensures |src| <= 4 ==> Judge(link, s, src) == Incomplete
    ensures Judge(link, s, src) == Incomplete ==> Framing.Decode(Stream.JudgeOf(link), s, src) == Outcome([], src, s, None)
  {
    hide LayoutOf, DataLength, JudgeAt;
  }

  lemma JudgedAt(link: Link, s: End, src: Bytes, dataLength: u16, l: Layout)
    requires |src| > 4 && l.Valid()
    requires dataLength == Xor16(Le16(src[0], src[1]), Le16(s.tail[12], s.tail[13]))
    requires l.count == LayoutOf(link.padding, dataLength, s.tail).count
    requires dataLength > 0 ==> l == LayoutOf(link.padding, dataLength, s.tail)
    ensures Judge(link, s, src) == JudgeAt(link, s, src, dataLength, l)
  {
    hide Xor16, Le16, LayoutOf, JudgeAt;
    OnlyDataHasAPlace(link, s, src, [], i => 0, dataLength, l, LayoutOf(link.padding, dataLength, s.tail));
  }

  lemma SplitHash(hash: Bytes, length: nat, tail: Bytes)
    requires |hash| == 16 && |tail| == 14 && hash == PutLe16(length % 0x1_0000) + tail
    ensures hash[..2] == PutLe16(length % 0x1_0000) && hash[2..] == tail
  {
  }

  lemma SameMembers(a: seq<nat>, b: seq<nat>)
    requires multiset(a) == multiset(b)
    ensures |a| == |b|
    ensures forall x :: x in a <==> x in b
  {
    assert |multiset(a)| == |a| && |multiset(b)| == |b|;
    forall x ensures x in a <==> x in b {
      assert x in a <==> x in multiset(a);
      assert x in b <==> x in multiset(b);
    }
  }
}
