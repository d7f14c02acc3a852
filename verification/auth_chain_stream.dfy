/** Whole auth_chain streams: any bytes, cut anywhere, and what a sender's frames come to. */
module AuthChainStream {
  import opened ByteCodec
  import opened Options
  import opened Framing
  import opened AuthChainSpec

  /** One frame's data and the random bytes drawn for it. */
  datatype Message = Message(data: Bytes, noise: Supply)

  function JudgeOf(link: Link): JudgeFor<End> { (s: End, src: Bytes) => Judge(link, s, src) }

  /** Frames in sending order; the receiver is to strip two bytes off the frame numbered 1. */
  function SenderOf(link: Link): Sender<End, Message> {
    Sender((s: End, m: Message) => Frame(link, s, m.data, m.noise),
           (s: End, m: Message) => AfterFrame(link, s, m.data, m.noise),
           (s: End, m: Message) => Strip(s.id, m.data))
  }

  lemma JudgeIsSound(link: Link)
    ensures Sound(JudgeOf(link))
  {
    hide Judge;
    forall s: End, src: Bytes, more: Bytes | !Judge(link, s, src).Incomplete?
      ensures Judge(link, s, src + more) == Judge(link, s, src)
    {
      JudgeIsFinal(link, s, src, more);
    }
  }

  function NextId(id: u32): u32 { (id + 1) % 0x1_0000_0000 }

  /** The payloads as the receiver passes them on: the frame numbered 1 loses its first two bytes. */
  function Delivered(id: u32, messages: seq<Message>): Bytes
    decreases |messages|
  {
    if |messages| == 0 then []
    else Strip(id, messages[0].data) + Delivered(NextId(id), messages[1..])
  }

  /** Every frame numbered 1 has the two bytes the receiver will slice off. */
  predicate Strippable(id: u32, messages: seq<Message>)
    decreases |messages|
  {
    |messages| == 0 || ((id == 1 ==> |messages[0].data| >= 2) && Strippable(NextId(id), messages[1..]))
  }

  ghost predicate Sendable(messages: seq<Message>) {
    forall i :: 0 <= i < |messages| ==> 1 <= |messages[i].data| <= 2800
  }

  lemma NextIds(link: Link, s: End, m: Message)
    ensures AfterFrame(link, s, m.data, m.noise).id == NextId(s.id)
  {
    hide FrameMac, Body;
  }

  lemma FrameIsRecognised(link: Link, s: End, m: Message)
    requires 1 <= |m.data| <= 2800 && (s.id == 1 ==> |m.data| >= 2)
    ensures Recognised(JudgeOf(link), SenderOf(link), s, m)
  {
    hide Frame, AfterFrame, Judge;
    JudgeFrame(link, s, m.data, m.noise, []);
    forall extra: Bytes
      ensures Judge(link, s, Frame(link, s, m.data, m.noise) + extra)
              == Accepted(Strip(s.id, m.data), |Frame(link, s, m.data, m.noise)|, AfterFrame(link, s, m.data, m.noise))
    {
      JudgeFrame(link, s, m.data, m.noise, extra);
    }
  }

  lemma {:induction false} AllAreRecognised(link: Link, s: End, messages: seq<Message>)
    requires Sendable(messages) && Strippable(s.id, messages)
    ensures AllRecognised(JudgeOf(link), SenderOf(link), s, messages)
    ensures Payloads(SenderOf(link), s, messages) == Delivered(s.id, messages)
    decreases |messages|
  {
    hide Recognised, Frame, AfterFrame;
    if |messages| > 0 {
      var m := messages[0];
      FrameIsRecognised(link, s, m);
      NextIds(link, s, m);
      AllAreRecognised(link, AfterFrame(link, s, m.data, m.noise), messages[1..]);
    }
  }

  /** The receiver of a whole stream ends where the sender did, with nothing left over, having
      delivered the payloads in order, exactly when no frame makes it panic. */
  lemma {:induction false} ReceiverPanicsOrFollows(link: Link, s: End, messages: seq<Message>)
    requires Sendable(messages)
    ensures var sent := Send(SenderOf(link), s, messages);
            var got := Decode(JudgeOf(link), s, sent.wire);
            if Strippable(s.id, messages) then got == Outcome(Delivered(s.id, messages), [], sent.end, None)
            else got.failure == Some(Panicked)
    decreases |messages|
  {
    hide Frame, AfterFrame, Judge;
    if Strippable(s.id, messages) {
      AllAreRecognised(link, s, messages);
      NothingIsIncomplete(link, Send(SenderOf(link), s, messages).end);
      ReceiverFollowsSender(JudgeOf(link), SenderOf(link), s, messages);
    } else {
      var m := messages[0];
      var frame, next := Frame(link, s, m.data, m.noise), AfterFrame(link, s, m.data, m.noise);
      var tail := Send(SenderOf(link), next, messages[1..]).wire;
      JudgeFrame(link, s, m.data, m.noise, tail);
      NextIds(link, s, m);
      assert (frame + tail)[|frame|..] == tail;
      if s.id != 1 || |m.data| >= 2 {
        ReceiverPanicsOrFollows(link, next, messages[1..]);
      }
    }
  }

  lemma NothingIsIncomplete(link: Link, s: End)
    ensures Judge(link, s, []) == Incomplete
  {
  }

  /** In every run each frame is masked, padded and authenticated with the digest of the one before it: what
      a run leaves behind is the digest of its last frame, keyed with that frame's number. */
  lemma HashIsLastDigest(link: Link, s: End, messages: seq<Message>) returns (before: Sent<End>, f: Bytes)
    requires |messages| > 0
    ensures before == Send(SenderOf(link), s, messages[..|messages| - 1])
    ensures f == Frame(link, before.end, messages[|messages| - 1].data, messages[|messages| - 1].noise)
    ensures Send(SenderOf(link), s, messages).wire == before.wire + f && |f| >= 2
    ensures Send(SenderOf(link), s, messages).end.tail
            == link.hmac(link.userKey + PutLe32(before.end.id), f[..|f| - 2])[2..]
    ensures before.end.id == (s.id + |messages| - 1) % 0x1_0000_0000
  {
    hide *;
    var n := |messages| - 1;
    assert messages == messages[..n] + [messages[n]];
    SendInTwo(SenderOf(link), s, messages[..n], [messages[n]]);
    before := Send(SenderOf(link), s, messages[..n]);
    f := Frame(link, before.end, messages[n].data, messages[n].noise);
    SendOne(link, before.end, messages[n]);
    HashMovesOn(link, before.end, messages[n].data, messages[n].noise);
    IdsCount(link, s, messages[..n]);
  }

  lemma SendOne(link: Link, s: End, m: Message)
    ensures Send(SenderOf(link), s, [m]) == Sent(Frame(link, s, m.data, m.noise), AfterFrame(link, s, m.data, m.noise))
    ensures |Frame(link, s, m.data, m.noise)| >= 2
  {
    assert [m][1..] == [];
  }

  /** The packet number counts the frames, modulo 2^32. */
  lemma {:induction false} IdsCount(link: Link, s: End, messages: seq<Message>)
    ensures Send(SenderOf(link), s, messages).end.id == (s.id + |messages|) % 0x1_0000_0000
    decreases |messages|
  {
    hide Frame, AfterFrame;
    if |messages| > 0 {
      NextIds(link, s, messages[0]);
      IdsCount(link, AfterFrame(link, s, messages[0].data, messages[0].noise), messages[1..]);
    }
  }

  // ---------- The two stripped bytes, and the counter that wraps ----------

  function DataOf(): Message -> Bytes { (m: Message) => m.data }

  function Data(messages: seq<Message>): Bytes { Joined(DataOf(), messages) }

  /** How many of `n` frames numbered from `id` on carry the number 1. */
  function Firsts(id: u32, n: nat): nat
    decreases n
  {
    if n == 0 then 0 else (if id == 1 then 1 else 0) + Firsts(NextId(id), n - 1)
  }

  /** How many frames go by before the counter comes round to 1. */
  function UntilFirst(id: u32): nat { if id <= 1 then 1 - id else 0x1_0000_0001 - id }

  lemma NextIdIsCloser(id: u32)
    requires id != 1
    ensures UntilFirst(NextId(id)) == UntilFirst(id) - 1
    ensures NextId(id) == 1 <==> UntilFirst(id) == 1
  {
  }

  /** While the 32-bit counter does not come round to 1, nothing is stripped. */
  lemma {:induction false} FirstsUntilWrap(id: u32, n: nat)
    requires id != 1
    ensures Firsts(id, n) == 0 <==> n <= UntilFirst(id)
    decreases n
  {
    hide NextId;
    if n > 0 {
      NextIdIsCloser(id);
      if NextId(id) != 1 {
        FirstsUntilWrap(NextId(id), n - 1);
      }
    }
  }

  lemma {:induction false} DeliveredLength(id: u32, messages: seq<Message>)
    requires Strippable(id, messages)
    ensures |Delivered(id, messages)| + 2 * Firsts(id, |messages|) == |Data(messages)|
    ensures Firsts(id, |messages|) == 0 ==> Delivered(id, messages) == Data(messages)
    decreases |messages|
  {
    if |messages| > 0 {
      DeliveredLength(NextId(id), messages[1..]);
    }
  }

  /** A session numbered from 1 delivers everything but its first two bytes exactly as long as it
      has at most 2^32 frames: the next frame is numbered 1 again and loses two bytes as well. */
  lemma OnlyTheFirstTwoBytesAreLost(messages: seq<Message>)
    requires |messages| > 0 && Strippable(1, messages)
    ensures |Data(messages)| >= 2
    ensures Delivered(1, messages) == Data(messages)[2..] <==> |messages| <= 0x1_0000_0000
  {
    DeliveredLength(1, messages);
    DeliveredLength(2, messages[1..]);
    FirstsUntilWrap(2, |messages| - 1);
    var head := messages[0].data;
    assert Data(messages)[2..] == head[2..] + Data(messages[1..]);
  }

  // ---------- Writes ----------

  /** One call of `Encode`: its bytes, and the random bytes of each frame it makes. */
  datatype Write = Write(b: Bytes, noise: nat -> Supply)

  /** The frames one write is cut into, the `k`-th first. */
  function Cut(w: Write, k: nat): (messages: seq<Message>)
    ensures Sendable(messages)
    decreases |w.b|
  {
    if |w.b| > 2800 then [Message(w.b[..2800], w.noise(k))] + Cut(w.(b := w.b[2800..]), k + 1)
    else if |w.b| > 0 then [Message(w.b, w.noise(k))]
    else []
  }

  /** How sending a write unfolds: a full piece and the rest, or one last piece. */
  lemma SendCut(link: Link, s: End, w: Write, k: nat)
    ensures |w.b| > 2800 ==>
              var rest := Send(SenderOf(link), AfterFrame(link, s, w.b[..2800], w.noise(k)), Cut(w.(b := w.b[2800..]), k + 1));
              Send(SenderOf(link), s, Cut(w, k)) == rest.(wire := Frame(link, s, w.b[..2800], w.noise(k)) + rest.wire)
    ensures 0 < |w.b| <= 2800 ==>
              Send(SenderOf(link), s, Cut(w, k)) == Sent(Frame(link, s, w.b, w.noise(k)), AfterFrame(link, s, w.b, w.noise(k)))
    ensures |w.b| == 0 ==> Send(SenderOf(link), s, Cut(w, k)) == Sent([], s)
  {
    hide Frame, AfterFrame;
    if |w.b| > 2800 {
      assert Cut(w, k)[1..] == Cut(w.(b := w.b[2800..]), k + 1);
    } else if |w.b| > 0 {
      assert Cut(w, k)[1..] == [];
    }
  }

  lemma {:induction false} CutKeepsBytes(w: Write, k: nat)
    ensures Data(Cut(w, k)) == w.b
    decreases |w.b|
  {
    if |w.b| > 2800 {
      CutKeepsBytes(w.(b := w.b[2800..]), k + 1);
      assert Cut(w, k)[1..] == Cut(w.(b := w.b[2800..]), k + 1);
    } else if |w.b| > 0 {
      JoinedOne(DataOf(), Message(w.b, w.noise(k)));
    }
  }

  /** All frames of a write but the last carry 2800 bytes. */
  lemma {:induction false} CutIsFull(w: Write, k: nat)
    ensures forall i :: 0 <= i < |Cut(w, k)| - 1 ==> |Cut(w, k)[i].data| == 2800
    decreases |w.b|
  {
    if |w.b| > 2800 { CutIsFull(w.(b := w.b[2800..]), k + 1); }
  }

  function CutOf(): Write -> seq<Message> { (w: Write) => Cut(w, 0) }

  function BytesOf(): Write -> Bytes { (w: Write) => w.b }

  function Written(writes: seq<Write>): Bytes { Joined(BytesOf(), writes) }

  lemma {:induction false} CutAllKeepsBytes(writes: seq<Write>)
    ensures Data(CutAll(CutOf(), writes)) == Written(writes) && Sendable(CutAll(CutOf(), writes))
    decreases |writes|
  {
    if |writes| > 0 {
      CutKeepsBytes(writes[0], 0);
      CutAllKeepsBytes(writes[1..]);
      JoinedInTwo(DataOf(), Cut(writes[0], 0), CutAll(CutOf(), writes[1..]));
    }
  }

  /** The main theorem. A receiver starting from the sender's hash, keystream position and number 1
      is sent any writes, and gets the bytes in any chunks: it delivers all that was written but the
      first two bytes, and both ends agree on hash, position and number afterwards. */
  lemma StreamRoundTrip(link: Link, s: End, writes: seq<Write>, chunks: seq<Bytes>)
    requires s.id == 1
    requires 0 < |CutAll(CutOf(), writes)| <= 0x1_0000_0000 && |CutAll(CutOf(), writes)[0].data| >= 2
    requires Concat(chunks) == SendAll(SenderOf(link), CutOf(), s, writes).wire
    ensures |Written(writes)| >= 2
    ensures Feed(JudgeOf(link), s, [], chunks)
            == Outcome(Written(writes)[2..], [], SendAll(SenderOf(link), CutOf(), s, writes).end, None)
  {
    hide *;
    var messages := CutAll(CutOf(), writes);
    SendAllIsSend(SenderOf(link), CutOf(), s, writes);
    CutAllKeepsBytes(writes);
    StrippableFromOne(messages);
    ReceiverPanicsOrFollows(link, s, messages);
    OnlyTheFirstTwoBytesAreLost(messages);
    JudgeIsSound(link);
    DecodeNothing(link, s);
    ChunkingIsIrrelevant(JudgeOf(link), s, [], chunks);
    assert [] + Concat(chunks) == Concat(chunks);
  }

  lemma StrippableFromOne(messages: seq<Message>)
    requires 0 < |messages| <= 0x1_0000_0000 && |messages[0].data| >= 2
    ensures Strippable(1, messages)
  {
    StrippableUntilWrap(2, messages[1..]);
  }

  lemma DecodeNothing(link: Link, s: End)
    ensures Decode(JudgeOf(link), s, []) == Outcome([], [], s, None)
  {
  }

  lemma {:induction false} StrippableUntilWrap(id: u32, messages: seq<Message>)
    requires id != 1 && |messages| <= UntilFirst(id)
    ensures Strippable(id, messages)
    decreases |messages|
  {
    hide NextId;
    NextIdIsCloser(id);
    if |messages| > 1 {
      StrippableUntilWrap(NextId(id), messages[1..]);
    }
  }
}
