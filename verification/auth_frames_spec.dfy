/** The data frames of auth_aes128_sha1 and auth_sha1_v4: length, checksum of the length, padding that
    says how long it is, data, checksum of it all. The two differ in byte order, in the checksums and
    in whether frames are numbered. */
module AuthFramesSpec {
  import opened ByteCodec
  import opened Framing
  import opened Options

  type HmacSha1 = f: (Bytes, Bytes) -> Bytes | forall k, d :: |f(k, d)| == 20
    witness (k: Bytes, d: Bytes) => seq(20, i => 0)

  datatype Format =
    | Aes128(userKey: Bytes, hmac: HmacSha1, overhead: int)
    | Sha1V4(crc32: Bytes -> u32, adler32: Bytes -> u32)
  {
    function Head(id: u32, size: Bytes): (b: Bytes)
      ensures |b| == 2
    {
      if Aes128? then hmac(userKey + PutLe32(id), size)[..2] else PutLe16(crc32(size) % 0x1_0000)
    }

    function Tail(id: u32, sealed: Bytes): (b: Bytes)
      ensures |b| == 4
    {
      if Aes128? then hmac(userKey + PutLe32(id), sealed)[..4] else PutLe32(adler32(sealed))
    }

    function Put16(n: u16): (b: Bytes)
      ensures |b| == 2
    {
      if Aes128? then PutLe16(n) else PutBe16(n)
    }

    function Get16(first: byte, second: byte): u16 {
      if Aes128? then Le16(first, second) else Be16(first, second)
    }

    /** Only auth_aes128 numbers its frames. */
    function Next(id: u32): u32 {
      if Aes128? then (id + 1) % 0x1_0000_0000 else id
    }
  }

  /** The bytes of one frame, the amount of padding drawn for it, and the padding itself. */
  datatype Message = Message(data: Bytes, pad: nat, noise: Supply)

  function RandData(f: Format, pad: nat, noise: Supply): (b: Bytes)
    ensures |b| == pad + if pad < 128 then 1 else 3
  {
    (if pad < 128 then [pad + 1] else [255] + f.Put16((pad + 3) % 0x1_0000)) + Take(noise, 0, pad)
  }

  function PackedLength(dataLength: nat, pad: nat): nat {
    2 + 2 + 3 + pad + dataLength + 4 - if pad < 128 then 2 else 0
  }

  function Sealed(f: Format, id: u32, m: Message): (b: Bytes)
    ensures |b| == PackedLength(|m.data|, m.pad) - 4
  {
    var size := f.Put16(PackedLength(|m.data|, m.pad) % 0x1_0000);
    size + f.Head(id, size) + RandData(f, m.pad, m.noise) + m.data
  }

  function Frame(f: Format, id: u32, m: Message): (b: Bytes)
    ensures |b| == PackedLength(|m.data|, m.pad)
  {
    Sealed(f, id, m) + f.Tail(id, Sealed(f, id, m))
  }

  /** The decoder's view of the front of its buffer. */
  function Judge(f: Format, id: u32, src: Bytes): Verdict<u32> {
    if |src| <= 4 then Incomplete
    else if f.Head(id, src[..2]) != src[2..4] then Refused(MacError)
    else JudgeAt(f, id, src, f.Get16(src[0], src[1]))
  }

  function JudgeAt(f: Format, id: u32, src: Bytes, length: nat): Verdict<u32>
    requires |src| > 4
  {
    if length >= 8192 || length < 7 then Refused(LengthError)
    else if length > |src| then Incomplete
    else if f.Tail(id, src[..length - 4]) != src[length - 4..length] then Refused(ChecksumError)
    else
      var pos := DataStart(f, src);
      if pos > length - 4 then Refused(Panicked) else Accepted(src[pos..length - 4], length, f.Next(id))
  }

  function DataStart(f: Format, src: Bytes): nat
    requires |src| >= 7
  {
    (if src[4] < 255 then src[4] else f.Get16(src[5], src[6])) + 4
  }

  function JudgeOf(f: Format): JudgeFor<u32> { (id: u32, src: Bytes) => Judge(f, id, src) }

  function SenderOf(f: Format): Sender<u32, Message> {
    Sender((id: u32, m: Message) => Frame(f, id, m), (id: u32, m: Message) => f.Next(id), (id: u32, m: Message) => m.data)
  }

  lemma JudgeIsSound(f: Format)
    ensures Sound(JudgeOf(f))
  {
    hide Judge;
    forall id: u32, src: Bytes, more: Bytes | !Judge(f, id, src).Incomplete?
      ensures Judge(f, id, src + more) == Judge(f, id, src)
    {
      JudgeIsFinal(f, id, src, more);
    }
    forall id: u32, src: Bytes | Judge(f, id, src).Accepted? ensures 0 < Judge(f, id, src).size <= |src| {
      AcceptedWithin(f, id, src);
    }
  }

  lemma AcceptedWithin(f: Format, id: u32, src: Bytes)
    ensures Judge(f, id, src).Accepted? ==> 0 < Judge(f, id, src).size <= |src|
  {
  }

  lemma OnlyTheseFailures(f: Format, id: u32, src: Bytes)
    ensures var v := Judge(f, id, src);
            v.Refused? ==> v.why == MacError || v.why == LengthError || v.why == ChecksumError || v.why == Panicked
  {
  }

  lemma FewBytes(f: Format, id: u32, src: Bytes)
    ensures |src| <= 4 ==> Decode(JudgeOf(f), id, src) == Outcome([], src, id, None)
  {
  }

  /** Nothing that arrives later changes a verdict already reached. */
  lemma JudgeIsFinal(f: Format, id: u32, src: Bytes, more: Bytes)
    requires !Judge(f, id, src).Incomplete?
    ensures Judge(f, id, src + more) == Judge(f, id, src)
  {
    hide PutLe16, PutLe32, Le16, Be16;
    SliceOfPrefix(src, more, 0, 2);
    SliceOfPrefix(src, more, 2, 4);
    var length := f.Get16(src[0], src[1]);
    if 7 <= length < 8192 && length <= |src| {
      SliceOfPrefix(src, more, 0, length - 4);
      SliceOfPrefix(src, more, length - 4, length);
      var pos := DataStart(f, src);
      if pos <= length - 4 { SliceOfPrefix(src, more, pos, length - 4); }
    }
  }

  lemma SizeRoundTrip(f: Format, n: u16)
    ensures f.Get16(f.Put16(n)[0], f.Put16(n)[1]) == n
  {
    Put16RoundTrip(n);
  }

  lemma FrameSlices(size: Bytes, head: Bytes, fill: Bytes, data: Bytes, tail: Bytes, extra: Bytes)
    requires |size| == 2 && |head| == 2 && |tail| == 4 && |fill| > 0
    ensures var sealed := size + head + fill + data;
            var src := sealed + tail + extra;
            src[..2] == size && src[2..4] == head && src[0] == size[0] && src[1] == size[1] && src[4] == fill[0]
            && (|fill| >= 3 ==> src[5] == fill[1] && src[6] == fill[2])
            && src[..|sealed|] == sealed && src[|sealed|..|sealed| + 4] == tail
            && src[4 + |fill|..|sealed|] == data
  {
    var sealed := size + head + fill + data;
    var src := sealed + tail + extra;
    assert src[..|sealed|] == sealed;
    assert src == size + head + (fill + data + tail + extra);
  }

  /** The padding says where the data starts. */
  lemma PaddingSaysItsLength(f: Format, pad: nat, noise: Supply)
    requires pad + 3 < 0x1_0000
    ensures var fill := RandData(f, pad, noise);
            (fill[0] == 255 ==> |fill| >= 3)
            && |fill| == if fill[0] < 255 then fill[0] else f.Get16(fill[1], fill[2])
  {
    hide PutLe16, PutBe16, Le16, Be16, Take;
    if pad >= 128 {
      SizeRoundTrip(f, pad + 3);
      var prefix := f.Put16(pad + 3);
      assert RandData(f, pad, noise)[1..3] == prefix;
    }
  }

  /** What the decoder makes of the front of a frame: the length it reads is the length modulo 2^16. */
  lemma JudgeFrame(f: Format, id: u32, m: Message, extra: Bytes)
    ensures Judge(f, id, Frame(f, id, m) + extra) == JudgeAt(f, id, Frame(f, id, m) + extra, |Frame(f, id, m)| % 0x1_0000)
  {
    hide PutLe16, PutLe32, Le16, Be16, RandData;
    var size := f.Put16(PackedLength(|m.data|, m.pad) % 0x1_0000);
    FrameSlices(size, f.Head(id, size), RandData(f, m.pad, m.noise), m.data, f.Tail(id, Sealed(f, id, m)), extra);
    SizeRoundTrip(f, PackedLength(|m.data|, m.pad) % 0x1_0000);
  }

  lemma ShortFrameAccepted(f: Format, id: u32, m: Message, extra: Bytes)
    requires |Frame(f, id, m)| < 8192
    ensures JudgeAt(f, id, Frame(f, id, m) + extra, |Frame(f, id, m)|) == Accepted(m.data, |Frame(f, id, m)|, f.Next(id))
  {
    hide PutLe16, PutLe32, Le16, Be16, RandData;
    var size := f.Put16(PackedLength(|m.data|, m.pad) % 0x1_0000);
    FrameSlices(size, f.Head(id, size), RandData(f, m.pad, m.noise), m.data, f.Tail(id, Sealed(f, id, m)), extra);
    PaddingSaysItsLength(f, m.pad, m.noise);
    assert |RandData(f, m.pad, m.noise)| + |m.data| + 8 == |Frame(f, id, m)|;
  }

  /** A frame is understood, at its exact size and whatever follows it, exactly when it is shorter
      than the decoder's limit. */
  lemma RecognisedIffShort(f: Format, id: u32, m: Message)
    ensures Recognised(JudgeOf(f), SenderOf(f), id, m) <==> |Frame(f, id, m)| < 8192
  {
    hide JudgeAt, Judge, Frame;
    if |Frame(f, id, m)| < 8192 {
      forall extra: Bytes
        ensures Judge(f, id, Frame(f, id, m) + extra) == Accepted(m.data, |Frame(f, id, m)|, f.Next(id))
      {
        JudgeFrame(f, id, m, extra);
        ShortFrameAccepted(f, id, m, extra);
      }
    } else {
      JudgeFrame(f, id, m, []);
      assert |Frame(f, id, m) + []| > 4;
      AcceptedSize(f, id, Frame(f, id, m) + [], |Frame(f, id, m)| % 0x1_0000);
    }
  }

  lemma AcceptedSize(f: Format, id: u32, src: Bytes, length: nat)
    requires |src| > 4
    ensures JudgeAt(f, id, src, length).Accepted? ==> JudgeAt(f, id, src, length).size == length < 8192
  {
  }

  // ---------- Padding draws and writes ----------

  type Fraction = x: real | 0.0 <= x < 1.0

  /** What the random source yields while one frame is made: a float, an integer and bytes. */
  datatype Luck = Luck(fraction: Fraction, whole: nat, noise: Supply)

  /** The square root is taken for positive skews only; every call passes -0.3. */
  function TrapezoidRandom(max: nat, base: Fraction): nat { (base * max as real).Floor }

  /** math/rand panics when the bound is not positive. */
  function Intn(n: int, draw: nat): (k: nat)
    requires n > 0
    ensures k < n
  {
    draw % n
  }

  /** The padding drawn for a frame with `dataLength` bytes out of a write of `full`. */
  function PadFor(f: Format, dataLength: nat, full: nat, luck: Luck): nat {
    if f.Aes128? then
      var rev := 1460 - dataLength - 9;
      if full >= 32 * 1024 - f.overhead || rev == 0 then 0
      else if rev < 0 then
        if rev > -1460 then TrapezoidRandom(rev + 1460, luck.fraction) else Intn(32, luck.whole)
      else if dataLength > 900 then Intn(rev, luck.whole)
      else TrapezoidRandom(rev, luck.fraction)
    else if dataLength > 1200 then 0
    else if dataLength > 400 then Intn(256, luck.whole)
    else Intn(512, luck.whole)
  }

  lemma TrapezoidBelow(max: nat, base: Fraction)
    ensures TrapezoidRandom(max, base) <= max
  {
    var m := max as real;
    assert (1.0 - base) * m >= 0.0;
    assert base * m <= m;
  }

  /** Whatever is drawn, a frame of at most 8100 bytes of data stays within the decoder's limits. */
  lemma EveryDrawFits(f: Format, dataLength: nat, full: nat, luck: Luck)
    requires dataLength <= 8100
    ensures 7 <= PackedLength(dataLength, PadFor(f, dataLength, full, luck)) < 8192
  {
    if dataLength < 1451 {
      TrapezoidBelow(1451 - dataLength, luck.fraction);
    } else if dataLength < 2911 {
      TrapezoidBelow(2911 - dataLength, luck.fraction);
    }
  }

  /** One call of `Encode` after the header: its bytes, the length the padding is drawn for, and the
      luck each frame has. */
  datatype Write = Write(b: Bytes, full: nat, luck: nat -> Luck)

  function MessageFor(f: Format, data: Bytes, full: nat, luck: Luck): Message {
    Message(data, PadFor(f, |data|, full, luck), luck.noise)
  }

  /** The frames one write is cut into, the `k`-th first. */
  function Cut(f: Format, w: Write, k: nat): seq<Message>
    decreases |w.b|
  {
    if |w.b| > 8100 then [MessageFor(f, w.b[..8100], w.full, w.luck(k))] + Cut(f, w.(b := w.b[8100..]), k + 1)
    else if |w.b| > 0 then [MessageFor(f, w.b, w.full, w.luck(k))]
    else []
  }

  /** How sending a write unfolds: a full piece and the rest, or one last piece. */
  lemma SendCut(f: Format, id: u32, w: Write, k: nat)
    ensures |w.b| > 8100 ==>
              var rest := Send(SenderOf(f), f.Next(id), Cut(f, w.(b := w.b[8100..]), k + 1));
              Send(SenderOf(f), id, Cut(f, w, k))
              == rest.(wire := Frame(f, id, MessageFor(f, w.b[..8100], w.full, w.luck(k))) + rest.wire)
    ensures 0 < |w.b| <= 8100 ==>
              Send(SenderOf(f), id, Cut(f, w, k)) == Sent(Frame(f, id, MessageFor(f, w.b, w.full, w.luck(k))), f.Next(id))
    ensures |w.b| == 0 ==> Send(SenderOf(f), id, Cut(f, w, k)) == Sent([], id)
  {
    hide Frame, PadFor;
    if |w.b| > 8100 {
      assert Cut(f, w, k)[1..] == Cut(f, w.(b := w.b[8100..]), k + 1);
    } else if |w.b| > 0 {
      assert Cut(f, w, k)[1..] == [];
    }
  }

  /** All frames of a write but the last carry 8100 bytes. */
  lemma {:induction false} CutIsFull(f: Format, w: Write, k: nat)
    ensures forall i :: 0 <= i < |Cut(f, w, k)| - 1 ==> |Cut(f, w, k)[i].data| == 8100
    decreases |w.b|
  {
    hide PadFor;
    if |w.b| > 8100 { CutIsFull(f, w.(b := w.b[8100..]), k + 1); }
  }

  function CutOf(f: Format): Write -> seq<Message> { (w: Write) => Cut(f, w, 0) }

  function DataOf(): Message -> Bytes { (m: Message) => m.data }

  function Data(messages: seq<Message>): Bytes { Joined(DataOf(), messages) }

  function BytesOf(): Write -> Bytes { (w: Write) => w.b }

  function Written(writes: seq<Write>): Bytes { Joined(BytesOf(), writes) }

  ghost predicate Short(messages: seq<Message>) {
    forall i :: 0 <= i < |messages| ==> 7 <= PackedLength(|messages[i].data|, messages[i].pad) < 8192
  }

  lemma {:induction false} CutIsShortAndKeepsBytes(f: Format, w: Write, k: nat)
    ensures Data(Cut(f, w, k)) == w.b && Short(Cut(f, w, k))
    decreases |w.b|
  {
    hide PadFor;
    if |w.b| > 8100 {
      var rest := Cut(f, w.(b := w.b[8100..]), k + 1);
      CutIsShortAndKeepsBytes(f, w.(b := w.b[8100..]), k + 1);
      EveryDrawFits(f, 8100, w.full, w.luck(k));
      assert Cut(f, w, k)[1..] == rest;
    } else if |w.b| > 0 {
      EveryDrawFits(f, |w.b|, w.full, w.luck(k));
      JoinedOne(DataOf(), MessageFor(f, w.b, w.full, w.luck(k)));
    }
  }

  lemma {:induction false} CutAllIsShortAndKeepsBytes(f: Format, writes: seq<Write>)
    ensures Data(CutAll(CutOf(f), writes)) == Written(writes) && Short(CutAll(CutOf(f), writes))
    decreases |writes|
  {
    if |writes| > 0 {
      CutIsShortAndKeepsBytes(f, writes[0], 0);
      CutAllIsShortAndKeepsBytes(f, writes[1..]);
      JoinedInTwo(DataOf(), Cut(f, writes[0], 0), CutAll(CutOf(f), writes[1..]));
    }
  }

  lemma {:induction false} ShortIsRecognised(f: Format, id: u32, messages: seq<Message>)
    requires Short(messages)
    ensures AllRecognised(JudgeOf(f), SenderOf(f), id, messages)
    ensures Payloads(SenderOf(f), id, messages) == Data(messages)
    decreases |messages|
  {
    hide Recognised;
    if |messages| > 0 {
      RecognisedIffShort(f, id, messages[0]);
      ShortIsRecognised(f, f.Next(id), messages[1..]);
    }
  }

  /** The round trip: any writes, whatever is drawn for them, cut into any chunks, come out as written,
      and the receiver's frame number ends where the sender's does. */
  lemma StreamRoundTrip(f: Format, id: u32, writes: seq<Write>, chunks: seq<Bytes>)
    requires Concat(chunks) == SendAll(SenderOf(f), CutOf(f), id, writes).wire
    ensures Feed(JudgeOf(f), id, [], chunks)
            == Outcome(Written(writes), [], SendAll(SenderOf(f), CutOf(f), id, writes).end, None)
  {
    hide Feed, SendAll, CutAll, Recognised, JudgeAt, Sound, AllRecognised;
    var messages := CutAll(CutOf(f), writes);
    SendAllIsSend(SenderOf(f), CutOf(f), id, writes);
    CutAllIsShortAndKeepsBytes(f, writes);
    ShortIsRecognised(f, id, messages);
    JudgeIsSound(f);
    ChunkedRoundTrip(JudgeOf(f), SenderOf(f), id, messages, chunks);
  }

  // ---------- What is on the wire ----------

  /** A frame byte by byte: its length, a checksum of that, the padding with its own length, the data, and a
      checksum of all before. */
  lemma FrameOnTheWire(f: Format, id: u32, m: Message)
    requires |Frame(f, id, m)| < 0x1_0000
    ensures var b := Frame(f, id, m);
            var n := |b|;
            n == 2 + 2 + m.pad + (if m.pad < 128 then 1 else 3) + |m.data| + 4
            && b[n - 4 - |m.data|..n - 4] == m.data
            && match f
               case Aes128(userKey, hmac, _) =>
                 Le16(b[0], b[1]) == n && b[2..4] == hmac(userKey + PutLe32(id), b[..2])[..2]
                 && b[n - 4..] == hmac(userKey + PutLe32(id), b[..n - 4])[..4]
                 && (if m.pad < 128 then b[4] == m.pad + 1 else b[4] == 255 && Le16(b[5], b[6]) == m.pad + 3)
               case Sha1V4(crc32, adler32) =>
                 Be16(b[0], b[1]) == n && b[2..4] == PutLe16(crc32(b[..2]) % 0x1_0000)
                 && b[n - 4..] == PutLe32(adler32(b[..n - 4]))
                 && (if m.pad < 128 then b[4] == m.pad + 1 else b[4] == 255 && Be16(b[5], b[6]) == m.pad + 3)
  {
    hide PutLe16, PutBe16, PutLe32, Le16, Be16, RandData;
    var n := |Frame(f, id, m)|;
    var size, fill := f.Put16(n), RandData(f, m.pad, m.noise);
    FrameSlices(size, f.Head(id, size), fill, m.data, f.Tail(id, Sealed(f, id, m)), []);
    assert Frame(f, id, m) + [] == Frame(f, id, m);
    SizeRoundTrip(f, n);
    PaddingPrefix(f, m.pad, m.noise);
  }

  lemma PaddingPrefix(f: Format, pad: nat, noise: Supply)
    requires pad + 3 < 0x1_0000
    ensures var fill := RandData(f, pad, noise);
            if pad < 128 then fill[0] == pad + 1 else fill[0] == 255 && |fill| >= 3 && f.Get16(fill[1], fill[2]) == pad + 3
  {
    hide PutLe16, PutBe16, Le16, Be16, Take;
    if pad >= 128 {
      SizeRoundTrip(f, pad + 3);
      var fill := RandData(f, pad, noise);
      assert fill[1] == f.Put16(pad + 3)[0] && fill[2] == f.Put16(pad + 3)[1];
    }
  }

  /** What the decoder has checked of a frame it accepts, and the number it goes on with. */
  lemma AcceptedOnTheWire(f: Format, id: u32, src: Bytes)
    requires Judge(f, id, src).Accepted?
    ensures var v := Judge(f, id, src);
            7 <= v.size < 8192 && v.size <= |src| && v.payload <= src[v.size - 4 - |v.payload|..]
            && match f
               case Aes128(userKey, hmac, _) =>
                 Le16(src[0], src[1]) == v.size && src[2..4] == hmac(userKey + PutLe32(id), src[..2])[..2]
                 && src[v.size - 4..v.size] == hmac(userKey + PutLe32(id), src[..v.size - 4])[..4]
                 && v.next == (id + 1) % 0x1_0000_0000
               case Sha1V4(crc32, adler32) =>
                 Be16(src[0], src[1]) == v.size && src[2..4] == PutLe16(crc32(src[..2]) % 0x1_0000)
                 && src[v.size - 4..v.size] == PutLe32(adler32(src[..v.size - 4])) && v.next == id
  {
    hide PutLe16, PutLe32, Le16, Be16;
  }

  /** The frames of a stream are numbered one after the other, modulo 2^32, by auth_aes128; auth_sha1_v4 has
      no numbers. */
  lemma {:induction false} NumberInStream(f: Format, id: u32, messages: seq<Message>)
    ensures Send(SenderOf(f), id, messages).end == if f.Aes128? then (id + |messages|) % 0x1_0000_0000 else id
    decreases |messages|
  {
    hide Frame;
    if |messages| > 0 { NumberInStream(f, f.Next(id), messages[1..]); }
  }

  /** How much padding is drawn. auth_aes128 fills up a packet of 1451 bytes, or two of 1460 more, to some
      part, hardly pads beyond, and not at all in a large write; auth_sha1_v4 pads the less the longer the data
      is. */
  lemma PaddingLimits(f: Format, dataLength: nat, full: nat, luck: Luck)
    ensures var pad := PadFor(f, dataLength, full, luck);
            match f
            case Aes128(_, _, overhead) =>
              if full + overhead >= 32768 || dataLength == 1451 then pad == 0
              else if dataLength < 1451 then
                var room := 1451 - dataLength;
                pad == (if dataLength > 900 then luck.whole % room else (luck.fraction * room as real).Floor) <= room
              else if dataLength < 2911 then
                var room := 2911 - dataLength;
                pad == (luck.fraction * room as real).Floor <= room
              else pad == luck.whole % 32
            case Sha1V4(_, _) =>
              pad == if dataLength > 1200 then 0 else luck.whole % if dataLength > 400 then 256 else 512
  {
    if dataLength < 1451 {
      TrapezoidBelow(1451 - dataLength, luck.fraction);
    } else if dataLength < 2911 {
      TrapezoidBelow(2911 - dataLength, luck.fraction);
    }
  }

  /** When a decoder waits, and of what it complains: `n` is the length the frame states. */
  lemma VerdictsMean(f: Format, id: u32, src: Bytes)
    requires |src| > 4
    ensures var n: nat := if f.Aes128? then Le16(src[0], src[1]) else Be16(src[0], src[1]);
            var v := Judge(f, id, src);
            var lengthHolds := if f.Aes128? then src[2..4] == f.hmac(f.userKey + PutLe32(id), src[..2])[..2]
                               else src[2..4] == PutLe16(f.crc32(src[..2]) % 0x1_0000);
            (v == Refused(MacError) <==> !lengthHolds)
            && (v == Refused(LengthError) <==> lengthHolds && !(7 <= n < 8192))
            && (v == Incomplete <==> lengthHolds && 7 <= n < 8192 && |src| < n)
            && (lengthHolds && 7 <= n < 8192 && n <= |src| ==>
                  var authentic := if f.Aes128? then src[n - 4..n] == f.hmac(f.userKey + PutLe32(id), src[..n - 4])[..4]
                                   else src[n - 4..n] == PutLe32(f.adler32(src[..n - 4]));
                  (v == Refused(ChecksumError) <==> !authentic) && (v.Accepted? ==> v.size == n))
  {
    hide Le16, Be16, PutLe16, PutLe32;
  }
}
