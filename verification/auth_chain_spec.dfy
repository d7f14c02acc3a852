/** The auth_chain_a and auth_chain_b stream format: what one end writes and what the other makes
    of any bytes it is given, in any pieces. */
module AuthChainSpec {
  import opened ByteCodec
  import opened Framing
  import opened Prng

  /** HMAC-MD5, of which only determinism and the length of a digest matter. */
  type Hmac = f: (Bytes, Bytes) -> Bytes | forall k, d :: |f(k, d)| == 16
    witness (k: Bytes, d: Bytes) => seq(16, i => 0)

  /** How the padding of a frame is drawn: the two `getRandLength` methods. */
  datatype PaddingMethod =
    | PaddingA
    | PaddingB(overhead: nat, sizes: seq<nat>, sizes2: seq<nat>)
  {
    predicate Valid() {
      PaddingB? ==> ValidSizes(sizes) && ValidSizes(sizes2)
    }
  }

  type Padding = p: PaddingMethod | p.Valid() witness PaddingA

  predicate Sorted(sizes: seq<nat>) {
    forall i, j :: 0 <= i < j < |sizes| ==> sizes[i] <= sizes[j]
  }

  predicate ValidSizes(sizes: seq<nat>) {
    |sizes| > 0 && Sorted(sizes) && forall i :: 0 <= i < |sizes| ==> sizes[i] < 1440
  }

  /** What both ends share: the user key, the digest, the keystream and the padding method. */
  datatype Link = Link(userKey: Bytes, hmac: Hmac, keystream: Supply, padding: Padding)

  /** All of a 16-byte hash but its first two bytes: those are overwritten before they are ever read. */
  type Tail = b: Bytes | |b| == 14 witness [0, 0, 0, 0, 0, 0, 0, 0, 0, 0, 0, 0, 0, 0]

  /** What an end's position in the stream comes to between frames: its hash, the place in the
      keystream and the number of the next frame. */
  datatype End = End(tail: Tail, pos: nat, id: u32)

  // ---------- Padding ----------

  /** The first index whose entry is at least `x`, or the length when there is none. */
  function FirstAtLeast(sizes: seq<nat>, x: int): (i: nat)
    ensures i <= |sizes|
    ensures i < |sizes| ==> sizes[i] >= x
    ensures forall j :: 0 <= j < i ==> sizes[j] < x
  {
    if |sizes| == 0 || sizes[0] >= x then 0 else 1 + FirstAtLeast(sizes[1..], x)
  }

  datatype Draw = Draw(count: nat, rng: Rng)

  function DrawBelow(r: Rng, n: nat): (d: Draw)
    requires n > 0
    ensures d.count < n
  {
    var (r', x) := Step(r);
    Draw(x % n, r')
  }

  /** The tail of both methods: the longer the data, the smaller the bound. */
  function TailBound(length: nat): (n: nat)
    ensures n > 0
  {
    if length > 1300 then 31 else if length > 900 then 127 else if length > 400 then 521 else 1021
  }

  function DrawByLength(r: Rng, length: nat): Draw { DrawBelow(r, TailBound(length)) }

  /** True when the data is so long that the method pads nothing and leaves generator and hash alone. */
  predicate Unpadded(p: Padding, length: nat) {
    if p.PaddingA? then length > 1440 else length >= 1440
  }

  /** How much padding accompanies `length` bytes of data, and the generator afterwards. */
  function Pad(p: Padding, length: nat, tail: Tail): Draw
  {
    var r := Seeded(length, tail);
    if Unpadded(p, length) then Draw(0, r)
    else if p.PaddingA? then DrawByLength(r, length)
    else PadFromSizes(p, length, r)
  }

  /** What is missing to the size listed `x` places after the first that is big enough. */
  function Missing(sizes: seq<nat>, used: nat, x: nat): (n: nat)
    requires Sorted(sizes) && FirstAtLeast(sizes, used) + x < |sizes|
    ensures exists i :: FirstAtLeast(sizes, used) <= i < |sizes| && n == sizes[i] - used
  {
    sizes[FirstAtLeast(sizes, used) + x] - used
  }

  /** Method B pads up to a size listed at or a few places after the first one that is big enough. */
  function PadFromSizes(p: Padding, length: nat, r: Rng): Draw
    requires p.PaddingB?
  {
    var used := length + p.overhead;
    var pos := FirstAtLeast(p.sizes, used);
    var first := DrawBelow(r, |p.sizes|);
    if pos + first.count < |p.sizes| then
      Draw(Missing(p.sizes, used, first.count), first.rng)
    else
      var pos2 := FirstAtLeast(p.sizes2, used);
      var second := DrawBelow(first.rng, |p.sizes2|);
      if pos2 + second.count < |p.sizes2| then Draw(Missing(p.sizes2, used, second.count), second.rng)
      else if pos2 + second.count < pos2 + |p.sizes2| - 1 then Draw(0, second.rng)
      else DrawByLength(second.rng, length)
  }

  /** Where a frame's data sits: `start` bytes of padding before it, the rest of `count` after. */
  datatype Layout = Layout(count: nat, start: nat) {
    predicate Valid() { start < count || start == count == 0 }
  }

  function Place(d: Draw): (l: Layout)
    ensures l.Valid()
  {
    Layout(d.count, if d.count == 0 then 0 else Step(d.rng).1 % 8589934609 % d.count)
  }

  function LayoutOf(p: Padding, length: nat, tail: Tail): (l: Layout)
    ensures l.Valid()
  {
    Place(Pad(p, length, tail))
  }

  lemma PadFromSizesFits(p: Padding, length: nat, r: Rng)
    requires p.PaddingB?
    ensures var n := PadFromSizes(p, length, r).count; length + n < 1440 || n < TailBound(length)
  {
    hide DrawBelow, FirstAtLeast, TailBound, Missing;
  }

  /** No frame the encoder emits reaches the decoder's limit, whichever padding method is used. */
  lemma PaddedFits(p: Padding, length: nat, tail: Tail)
    requires length <= 2800
    ensures length + LayoutOf(p, length, tail).count < 4096
    ensures length > 1440 ==> LayoutOf(p, length, tail).count == 0
    ensures length <= 1440 ==> length + LayoutOf(p, length, tail).count <= 2000
  {
    hide DrawBelow, PadFromSizes, Seeded, Step;
    if p.PaddingB? { PadFromSizesFits(p, length, Seeded(length, tail)); }
  }

  // ---------- One frame ----------

  function MacKey(link: Link, id: u32): Bytes { link.userKey + PutLe32(id) }

  /** The two length bytes are masked with the last two bytes of the hash. */
  function Mask(s: End): u16 {
    Le16(s.tail[12], s.tail[13])
  }

  function Follow(s: End, mac: Bytes, length: nat): End
    requires |mac| == 16
  {
    End(mac[2..], s.pos + length, (s.id + 1) % 0x1_0000_0000)
  }

  /** The ciphertext hidden at its drawn place among random bytes. */
  function Mixed(l: Layout, cipher: Bytes, noise: Supply): Bytes
    requires l.Valid()
  {
    if cipher == [] then Take(noise, 0, l.count)
    else Take(noise, 0, l.start) + cipher + Take(noise, l.start, l.count - l.start)
  }

  /** A frame without its checksum. */
  function Body(link: Link, s: End, data: Bytes, noise: Supply, l: Layout): Bytes
    requires l.Valid()
  {
    PutLe16(Xor16(|data| % 0x1_0000, Mask(s))) + Mixed(l, StreamXor(link.keystream, s.pos, data), noise)
  }

  /** The digest of a frame becomes the next hash of both ends; its first two bytes are sent. */
  function FrameMac(link: Link, s: End, data: Bytes, noise: Supply): (mac: Bytes)
    ensures |mac| == 16
  {
    link.hmac(MacKey(link, s.id), Body(link, s, data, noise, LayoutOf(link.padding, |data|, s.tail)))
  }

  function Frame(link: Link, s: End, data: Bytes, noise: Supply): Bytes
  {
    Body(link, s, data, noise, LayoutOf(link.padding, |data|, s.tail)) + FrameMac(link, s, data, noise)[..2]
  }

  function AfterFrame(link: Link, s: End, data: Bytes, noise: Supply): End {
    Follow(s, FrameMac(link, s, data, noise), |data|)
  }

  function DataLength(s: End, src: Bytes): u16
    requires |src| >= 2
  {
    Xor16(Le16(src[0], src[1]), Mask(s))
  }

  /** The decoder's view of the front of its buffer. Frame 1 has to have the two bytes that are sliced
      off it; where it has not, the source panics. */
  function Judge(link: Link, s: End, src: Bytes): (v: Verdict<End>)
    ensures v.Accepted? ==> 4 <= v.size <= |src|
  {
    if |src| <= 4 then Incomplete
    else
      var dataLength := DataLength(s, src);
      JudgeAt(link, s, src, dataLength, LayoutOf(link.padding, dataLength, s.tail))
  }

  function JudgeAt(link: Link, s: End, src: Bytes, dataLength: nat, l: Layout): (v: Verdict<End>)
    requires |src| > 4 && l.Valid()
    ensures v.Accepted? ==> v.size == dataLength + l.count + 4 <= |src|
  {
    var length := dataLength + l.count;
    if length >= 4096 then Refused(LengthError)
    else if 4 + length > |src| then Incomplete
    else
      var mac := link.hmac(MacKey(link, s.id), src[..length + 2]);
      if mac[..2] != src[length + 2..length + 4] then Refused(ChecksumError)
      else
        var pos := if dataLength > 0 then 2 + l.start else 2;
        var plain := StreamXor(link.keystream, s.pos, src[pos..pos + dataLength]);
        if s.id == 1 && dataLength < 2 then Refused(Panicked)
        else Accepted(Strip(s.id, plain), length + 4, Follow(s, mac, dataLength))
  }

  /** The receiver drops the first two bytes of the frame numbered 1. */
  function Strip(id: u32, payload: Bytes): Bytes {
    if id == 1 && |payload| >= 2 then payload[2..] else payload
  }

  lemma FrameSlices(head: Bytes, front: Bytes, cipher: Bytes, back: Bytes, mac: Bytes, extra: Bytes)
    requires |head| == 2 && |mac| == 2
    ensures var body := head + (front + cipher + back);
            var src := body + mac + extra;
            src[..|body|] == body && src[|body|..|body| + 2] == mac && src[..2] == head
            && src[2 + |front|..2 + |front| + |cipher|] == cipher
  {
    var body := head + (front + cipher + back);
    var src := body + mac + extra;
    assert src[..|body|] == body;
    assert body[2 + |front|..2 + |front| + |cipher|] == cipher;
  }

  lemma BodySlices(link: Link, s: End, data: Bytes, noise: Supply, l: Layout, mac: Bytes, extra: Bytes)
    requires l.Valid() && 1 <= |data| && |mac| == 2
    ensures var body := Body(link, s, data, noise, l);
            var src := body + mac + extra;
            |body| == |data| + l.count + 2 && src[..|body|] == body && src[|body|..|body| + 2] == mac
            && src[2 + l.start..2 + l.start + |data|] == StreamXor(link.keystream, s.pos, data)
            && src[..2] == PutLe16(Xor16(|data| % 0x1_0000, Mask(s)))
  {
    hide Xor16, Le16, PutLe16, PutLe32, Pad, Place;
    FrameSlices(PutLe16(Xor16(|data| % 0x1_0000, Mask(s))), Take(noise, 0, l.start),
                StreamXor(link.keystream, s.pos, data), Take(noise, l.start, l.count - l.start), mac, extra);
  }

  lemma JudgeFrameAt(link: Link, s: End, data: Bytes, noise: Supply, extra: Bytes, l: Layout, mac: Bytes)
    requires l.Valid() && 1 <= |data| && |data| + l.count < 4096
    requires mac == link.hmac(MacKey(link, s.id), Body(link, s, data, noise, l))
    ensures JudgeAt(link, s, Body(link, s, data, noise, l) + mac[..2] + extra, |data|, l)
            == if s.id == 1 && |data| < 2 then Refused(Panicked)
               else Accepted(Strip(s.id, data), |data| + l.count + 4, Follow(s, mac, |data|))
  {
    hide Xor16, Le16, PutLe16, PutLe32, Pad, Place;
    BodySlices(link, s, data, noise, l, mac[..2], extra);
    StreamXorCancels(link.keystream, s.pos, data);
  }

  lemma FrameLength(link: Link, s: End, data: Bytes, noise: Supply, extra: Bytes)
    requires 1 <= |data| <= 2800
    ensures var src := Frame(link, s, data, noise) + extra;
            |Frame(link, s, data, noise)| == |data| + LayoutOf(link.padding, |data|, s.tail).count + 4
            && DataLength(s, src) == |data|
  {
    hide Xor16, Le16, PutLe16, PutLe32, Pad, Place;
    var src := Frame(link, s, data, noise) + extra;
    BodySlices(link, s, data, noise, LayoutOf(link.padding, |data|, s.tail), FrameMac(link, s, data, noise)[..2], extra);
    assert src[0] == src[..2][0] && src[1] == src[..2][1];
    Put16RoundTrip(Xor16(|data|, Mask(s)));
    Xor16Cancels(|data|, Mask(s));
  }

  /** A complete frame is recognised, at its exact size, whatever follows it. */
  lemma JudgeFrame(link: Link, s: End, data: Bytes, noise: Supply, extra: Bytes)
    requires 1 <= |data| <= 2800
    ensures |Frame(link, s, data, noise)| > 4
    ensures Judge(link, s, Frame(link, s, data, noise) + extra)
            == if s.id == 1 && |data| < 2 then Refused(Panicked)
               else Accepted(Strip(s.id, data), |Frame(link, s, data, noise)|, AfterFrame(link, s, data, noise))
  {
    hide Xor16, Le16, PutLe16, PutLe32, Pad, Place;
    FrameLength(link, s, data, noise, extra);
    PaddedFits(link.padding, |data|, s.tail);
    JudgeFrameAt(link, s, data, noise, extra, LayoutOf(link.padding, |data|, s.tail), FrameMac(link, s, data, noise));
  }

  lemma JudgeAtIsFinal(link: Link, s: End, src: Bytes, more: Bytes, dataLength: nat, l: Layout)
    requires |src| > 4 && l.Valid()
    requires !JudgeAt(link, s, src, dataLength, l).Incomplete?
    ensures JudgeAt(link, s, src + more, dataLength, l) == JudgeAt(link, s, src, dataLength, l)
  {
    hide Xor16, Le16, PutLe32;
    var length := dataLength + l.count;
    if length < 4096 {
      SliceOfPrefix(src, more, 0, length + 2);
      SliceOfPrefix(src, more, length + 2, length + 4);
      SliceOfPrefix(src, more, if dataLength > 0 then 2 + l.start else 2,
                    (if dataLength > 0 then 2 + l.start else 2) + dataLength);
    }
  }

  /** Without data the place of the padding is never looked at. */
  lemma OnlyDataHasAPlace(link: Link, s: End, src: Bytes, cipher: Bytes, noise: Supply, dataLength: nat, l: Layout, l': Layout)
    requires |src| > 4 && l.Valid() && l'.Valid()
    requires l.count == l'.count && (dataLength > 0 ==> l == l')
    ensures JudgeAt(link, s, src, dataLength, l) == JudgeAt(link, s, src, dataLength, l')
    ensures |cipher| == dataLength ==> Mixed(l, cipher, noise) == Mixed(l', cipher, noise)
  {
  }

  /** Nothing that arrives later changes a verdict already reached. */
  lemma JudgeIsFinal(link: Link, s: End, src: Bytes, more: Bytes)
    requires !Judge(link, s, src).Incomplete?
    ensures Judge(link, s, src + more) == Judge(link, s, src)
  {
    hide Xor16, Le16, PutLe32, Pad, Place;
    var dataLength := DataLength(s, src);
    assert (src + more)[..2] == src[..2];
    JudgeAtIsFinal(link, s, src, more, dataLength, LayoutOf(link.padding, dataLength, s.tail));
  }

  // ---------- What is on the wire ----------

  /** The digest of a frame without its last two bytes: those are its first two, and the other fourteen are
      the hash that the next frame is masked and padded with. */
  lemma HashMovesOn(link: Link, s: End, data: Bytes, noise: Supply)
    ensures var f := Frame(link, s, data, noise);
            var t := AfterFrame(link, s, data, noise);
            var digest := link.hmac(link.userKey + PutLe32(s.id), f[..|f| - 2]);
            f[|f| - 2..] == digest[..2] && t.tail == digest[2..]
            && t.pos == s.pos + |data| && t.id == (s.id + 1) % 0x1_0000_0000
  {
    hide Body, PutLe32, Pad, Place;
    var body := Body(link, s, data, noise, LayoutOf(link.padding, |data|, s.tail));
    assert Frame(link, s, data, noise)[..|body|] == body;
  }

  /** The receiver moves on in the same way, by the bytes it has been sent. */
  lemma ReceivedHashMovesOn(link: Link, s: End, src: Bytes)
    requires Judge(link, s, src).Accepted?
    ensures var v := Judge(link, s, src);
            var digest := link.hmac(link.userKey + PutLe32(s.id), src[..v.size - 2]);
            src[v.size - 2..v.size] == digest[..2] && v.next.tail == digest[2..]
            && v.next.pos == s.pos + Xor16(Le16(src[0], src[1]), Le16(s.tail[12], s.tail[13]))
            && v.next.id == (s.id + 1) % 0x1_0000_0000
  {
    hide PutLe32, Xor16, Le16, LayoutOf;
  }

  /** The length is masked with the last two bytes of the hash, and the data stands encrypted where the
      layout says. */
  lemma FrameOnTheWire(link: Link, s: End, data: Bytes, noise: Supply)
    requires 1 <= |data| < 0x1_0000
    ensures var f := Frame(link, s, data, noise);
            var l := LayoutOf(link.padding, |data|, s.tail);
            |f| == 2 + l.count + |data| + 2 && (l.start < l.count || l.count == 0)
            && Le16(f[0], f[1]) == Xor16(|data|, Le16(s.tail[12], s.tail[13]))
            && forall i :: 0 <= i < |data| ==> f[2 + l.start + i] == Xor8(data[i], link.keystream(s.pos + i))
  {
    hide Xor16, Xor8, Le16, PutLe16, PutLe32, LayoutOf, Body, FrameMac;
    var f, l := Frame(link, s, data, noise), LayoutOf(link.padding, |data|, s.tail);
    BodySlices(link, s, data, noise, l, FrameMac(link, s, data, noise)[..2], []);
    assert f + [] == f;
    Put16RoundTrip(Xor16(|data|, Mask(s)));
    assert f[0] == f[..2][0] && f[1] == f[..2][1];
    forall i | 0 <= i < |data| ensures f[2 + l.start + i] == Xor8(data[i], link.keystream(s.pos + i)) {
      assert f[2 + l.start + i] == f[2 + l.start..2 + l.start + |data|][i];
    }
  }

  /** auth_chain_a pads the less the longer the data is, and from 1441 bytes on not at all; the place of the
      data is drawn next. */
  lemma PaddingOfA(length: nat, tail: Tail)
    ensures var l := LayoutOf(PaddingA, length, tail);
            var first := Step(Seeded(length, tail));
            l.count == (if length > 1440 then 0
                        else first.1 % if length > 1300 then 31 else if length > 900 then 127 else if length > 400 then 521 else 1021)
            && l.start == if l.count == 0 then 0 else Step(first.0).1 % 8589934609 % l.count
  {
    hide Step, Seeded;
  }

  /** auth_chain_b pads up to a size listed a few places, drawn at random, after the first that is big enough,
      overhead included; past the end of the first list it tries the second, and past the end of that it pads
      nothing or, for the largest draw, as auth_chain_a does. */
  lemma PaddingOfB(p: Padding, length: nat, tail: Tail)
    requires p.PaddingB?
    ensures var count := LayoutOf(p, length, tail).count;
            var used := length + p.overhead;
            var first := Step(Seeded(length, tail));
            var i := FirstAtLeast(p.sizes, used) + first.1 % |p.sizes|;
            if length >= 1440 then count == 0
            else if i < |p.sizes| then used + count == p.sizes[i]
            else
              var second := Step(first.0);
              var j := FirstAtLeast(p.sizes2, used) + second.1 % |p.sizes2|;
              if j < |p.sizes2| then used + count == p.sizes2[j]
              else if second.1 % |p.sizes2| < |p.sizes2| - 1 then count == 0
              else
                count == Step(second.0).1 % if length > 1300 then 31 else if length > 900 then 127 else if length > 400 then 521 else 1021
  {
    hide Step, Seeded, FirstAtLeast;
  }

  /** When a decoder waits, and of what it complains: `n` is the unmasked length and the padding that goes
      with it. */
  lemma VerdictsMean(link: Link, s: End, src: Bytes)
    requires |src| > 4
    ensures var dataLength := Xor16(Le16(src[0], src[1]), Le16(s.tail[12], s.tail[13]));
            var n := dataLength + LayoutOf(link.padding, dataLength, s.tail).count;
            var v := Judge(link, s, src);
            (v == Refused(LengthError) <==> n >= 4096)
            && (v == Incomplete <==> n < 4096 && |src| < n + 4)
            && (n < 4096 && n + 4 <= |src| ==>
                  var authentic := src[n + 2..n + 4] == link.hmac(link.userKey + PutLe32(s.id), src[..n + 2])[..2];
                  (v == Refused(ChecksumError) <==> !authentic)
                  && (v == Refused(Panicked) <==> authentic && s.id == 1 && dataLength < 2)
                  && (v.Accepted? <==> authentic && (s.id != 1 || dataLength >= 2))
                  && (v.Accepted? ==> v.size == n + 4 && |v.payload| == dataLength - if s.id == 1 then 2 else 0))
  {
    hide Xor16, Le16, PutLe32, LayoutOf;
  }
}
