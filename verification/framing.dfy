/** Streams cut into frames: decoding from buffers that fill up in arbitrary pieces. Every format of
    this project that is decoded in a loop over a receive buffer is an instance. */
module Framing {
  import opened ByteCodec
  import opened Options

  /** Why a decoder gives up; Panicked stands for a slice expression out of range. */
  datatype Failure = LengthError | ChecksumError | MacError | MagicError | Panicked

  /** What the front of a receive buffer turns out to be, for a decoder in some state. */
  datatype Verdict<S> = Incomplete | Refused(why: Failure) | Accepted(payload: Bytes, size: nat, next: S)

  type JudgeFor<!S> = (S, Bytes) -> Verdict<S>

  /** Frames are not empty, lie within the buffer, and a verdict other than Incomplete is final:
      whatever arrives later does not change it. */
  ghost predicate Sound<S(!new)>(judge: JudgeFor<S>) {
    (forall s, src :: judge(s, src).Accepted? ==> 0 < judge(s, src).size <= |src|)
    && (forall s, src, more :: !judge(s, src).Incomplete? ==> judge(s, src + more) == judge(s, src))
  }

  /** What one pass leaves behind; a failure empties the buffer. */
  datatype Outcome<S> = Outcome(out: Bytes, rest: Bytes, end: S, failure: Option<Failure>)

  function Decode<S>(judge: JudgeFor<S>, s: S, src: Bytes): Outcome<S>
    decreases |src|
  {
    match judge(s, src)
    case Incomplete => Outcome([], src, s, None)
    case Refused(why) => Outcome([], [], s, Some(why))
    case Accepted(payload, size, next) =>
      if 0 < size <= |src| then
        var r := Decode(judge, next, src[size..]);
        r.(out := payload + r.out)
      else Outcome([], src, s, None)
  }

  /** One turn of a decoding loop. */
  lemma DecodeUnfolds<S>(judge: JudgeFor<S>, s: S, src: Bytes)
    requires judge(s, src).Accepted? ==> 0 < judge(s, src).size <= |src|
    ensures var v := judge(s, src);
            var r := Decode(judge, s, src);
            if v.Incomplete? then r == Outcome([], src, s, None)
            else if v.Refused? then r == Outcome([], [], s, Some(v.why))
            else
              var q := Decode(judge, v.next, src[v.size..]);
              r == q.(out := v.payload + q.out)
  {
  }

  /** Chunks arrive one at a time; what a pass leaves waits for the next; a failure ends the stream. */
  function Feed<S>(judge: JudgeFor<S>, s: S, pending: Bytes, chunks: seq<Bytes>): Outcome<S>
    decreases |chunks|
  {
    if chunks == [] then Outcome([], pending, s, None)
    else
      var r := Decode(judge, s, pending + chunks[0]);
      if r.failure.Some? then r
      else
        var q := Feed(judge, r.end, r.rest, chunks[1..]);
        q.(out := r.out + q.out)
  }

  /** Decoding two pieces one after the other is decoding them at once. */
  lemma {:induction false} DecodeInTwo<S(!new)>(judge: JudgeFor<S>, s: S, a: Bytes, b: Bytes)
    requires Sound(judge)
    ensures var r := Decode(judge, s, a);
            Decode(judge, s, a + b)
            == if r.failure.Some? then r
               else var q := Decode(judge, r.end, r.rest + b); q.(out := r.out + q.out)
    decreases |a|
  {
    hide Decode;
    var v := judge(s, a);
    DecodeUnfolds(judge, s, a);
    if !v.Incomplete? {
      assert judge(s, a + b) == v;
      DecodeUnfolds(judge, s, a + b);
      if v.Accepted? {
        assert (a + b)[v.size..] == a[v.size..] + b;
        DecodeInTwo(judge, v.next, a[v.size..], b);
        var r := Decode(judge, v.next, a[v.size..]);
        Regroup(v.payload, r.out, Decode(judge, r.end, r.rest + b).out);
      }
    }
  }

  /** A pass that stops at an incomplete frame can be repeated: it finds the same frame incomplete. */
  lemma {:induction false} LeftoverIsSettled<S(!new)>(judge: JudgeFor<S>, s: S, src: Bytes)
    requires Sound(judge) && Decode(judge, s, src).failure.None?
    ensures var r := Decode(judge, s, src); Decode(judge, r.end, r.rest) == Outcome([], r.rest, r.end, None)
    decreases |src|
  {
    var v := judge(s, src);
    if v.Accepted? {
      LeftoverIsSettled(judge, v.next, src[v.size..]);
    }
  }

  /** How the bytes were cut up decides nothing: not for good streams, not for bad ones. */
  lemma {:induction false} ChunkingIsIrrelevant<S(!new)>(judge: JudgeFor<S>, s: S, pending: Bytes, chunks: seq<Bytes>)
    requires Sound(judge) && Decode(judge, s, pending) == Outcome([], pending, s, None)
    ensures Feed(judge, s, pending, chunks) == Decode(judge, s, pending + Concat(chunks))
    decreases |chunks|
  {
    hide Sound;
    if chunks == [] {
      assert pending + Concat(chunks) == pending;
    } else {
      var first := pending + chunks[0];
      var r := Decode(judge, s, first);
      assert pending + Concat(chunks) == first + Concat(chunks[1..]);
      DecodeInTwo(judge, s, first, Concat(chunks[1..]));
      if r.failure.None? {
        LeftoverIsSettled(judge, s, first);
        ChunkingIsIrrelevant(judge, r.end, r.rest, chunks[1..]);
      }
    }
  }

  // ---------- Senders ----------

  /** The frame a sender in some state makes of a message, its state afterwards, and what the
      receiver is meant to pass on. */
  datatype Sender<!S, !M> = Sender(frame: (S, M) -> Bytes, after: (S, M) -> S, payload: (S, M) -> Bytes)

  datatype Sent<S> = Sent(wire: Bytes, end: S)

  function Send<S, M>(sender: Sender<S, M>, s: S, messages: seq<M>): Sent<S>
    decreases |messages|
  {
    if |messages| == 0 then Sent([], s)
    else
      var r := Send(sender, sender.after(s, messages[0]), messages[1..]);
      r.(wire := sender.frame(s, messages[0]) + r.wire)
  }

  function Payloads<S, M>(sender: Sender<S, M>, s: S, messages: seq<M>): Bytes
    decreases |messages|
  {
    if |messages| == 0 then []
    else sender.payload(s, messages[0]) + Payloads(sender, sender.after(s, messages[0]), messages[1..])
  }

  lemma {:induction false} SendInTwo<S, M>(sender: Sender<S, M>, s: S, a: seq<M>, b: seq<M>)
    ensures var first := Send(sender, s, a);
            var second := Send(sender, first.end, b);
            Send(sender, s, a + b) == Sent(first.wire + second.wire, second.end)
    decreases |a|
  {
    if |a| == 0 {
      assert a + b == b;
    } else {
      SendInTwo(sender, sender.after(s, a[0]), a[1..], b);
      assert (a + b)[1..] == a[1..] + b;
    }
  }

  /** Where a frame stands in the stream, and the state it is made in. */
  lemma FrameInStream<S, M>(sender: Sender<S, M>, s: S, messages: seq<M>, k: nat) returns (before: Sent<S>, after: Bytes)
    requires k < |messages|
    ensures before == Send(sender, s, messages[..k])
    ensures Send(sender, s, messages).wire == before.wire + sender.frame(before.end, messages[k]) + after
  {
    assert messages == messages[..k] + messages[k..];
    SendInTwo(sender, s, messages[..k], messages[k..]);
    before := Send(sender, s, messages[..k]);
    after := Send(sender, sender.after(before.end, messages[k]), messages[k..][1..]).wire;
    Regroup(before.wire, sender.frame(before.end, messages[k]), after);
  }

  /** The bytes that messages, or writes, carry, one after the other. */
  function Joined<M>(bytes: M -> Bytes, messages: seq<M>): Bytes
    decreases |messages|
  {
    if |messages| == 0 then [] else bytes(messages[0]) + Joined(bytes, messages[1..])
  }

  lemma {:induction false} JoinedInTwo<M>(bytes: M -> Bytes, a: seq<M>, b: seq<M>)
    ensures Joined(bytes, a + b) == Joined(bytes, a) + Joined(bytes, b)
    decreases |a|
  {
    if |a| == 0 {
      assert a + b == b;
    } else {
      JoinedInTwo(bytes, a[1..], b);
      assert (a + b)[1..] == a[1..] + b;
    }
  }

  lemma JoinedOne<M>(bytes: M -> Bytes, m: M)
    ensures Joined(bytes, [m]) == bytes(m)
  {
    assert Joined(bytes, [m][1..]) == [];
  }

  /** All frames of a run of writes, each write being cut into the messages of its frames. */
  function CutAll<M, W>(cut: W -> seq<M>, writes: seq<W>): seq<M>
    decreases |writes|
  {
    if |writes| == 0 then [] else cut(writes[0]) + CutAll(cut, writes[1..])
  }

  /** Successive writes, each sent from where the last one stopped. */
  function SendAll<S, M, W>(sender: Sender<S, M>, cut: W -> seq<M>, s: S, writes: seq<W>): Sent<S>
    decreases |writes|
  {
    if |writes| == 0 then Sent([], s)
    else
      var first := Send(sender, s, cut(writes[0]));
      var r := SendAll(sender, cut, first.end, writes[1..]);
      r.(wire := first.wire + r.wire)
  }

  lemma {:induction false} SendAllIsSend<S, M, W>(sender: Sender<S, M>, cut: W -> seq<M>, s: S, writes: seq<W>)
    ensures SendAll(sender, cut, s, writes) == Send(sender, s, CutAll(cut, writes))
    decreases |writes|
  {
    if |writes| > 0 {
      SendAllIsSend(sender, cut, Send(sender, s, cut(writes[0])).end, writes[1..]);
      SendInTwo(sender, s, cut(writes[0]), CutAll(cut, writes[1..]));
    }
  }

  /** The receiver recognises this frame, at its exact size, whatever follows it. */
  ghost predicate Recognised<S(!new), M>(judge: JudgeFor<S>, sender: Sender<S, M>, s: S, m: M) {
    |sender.frame(s, m)| > 0
    && forall extra: Bytes ::
         judge(s, sender.frame(s, m) + extra) == Accepted(sender.payload(s, m), |sender.frame(s, m)|, sender.after(s, m))
  }

  /** Every frame of a run is recognised in the state the sender is then in. */
  ghost predicate AllRecognised<S(!new), M>(judge: JudgeFor<S>, sender: Sender<S, M>, s: S, messages: seq<M>)
    decreases |messages|
  {
    |messages| == 0
    || (Recognised(judge, sender, s, messages[0])
        && AllRecognised(judge, sender, sender.after(s, messages[0]), messages[1..]))
  }

  /** A receiver that recognises every frame delivers the payloads in order, ends in the sender's
      state and leaves nothing over. */
  lemma {:induction false} ReceiverFollowsSender<S(!new), M>(judge: JudgeFor<S>, sender: Sender<S, M>, s: S, messages: seq<M>)
    requires AllRecognised(judge, sender, s, messages) && judge(Send(sender, s, messages).end, []) == Incomplete
    ensures var sent := Send(sender, s, messages);
            Decode(judge, s, sent.wire) == Outcome(Payloads(sender, s, messages), [], sent.end, None)
    decreases |messages|
  {
    if |messages| > 0 {
      var frame, next := sender.frame(s, messages[0]), sender.after(s, messages[0]);
      var tail := Send(sender, next, messages[1..]).wire;
      ReceiverFollowsSender(judge, sender, next, messages[1..]);
      assert judge(s, frame + tail).Accepted?;
      assert (frame + tail)[|frame|..] == tail;
    }
  }

  /** The round trip: the frames of a run, cut into any chunks. */
  lemma ChunkedRoundTrip<S(!new), M>(judge: JudgeFor<S>, sender: Sender<S, M>, s: S, messages: seq<M>, chunks: seq<Bytes>)
    requires Sound(judge) && AllRecognised(judge, sender, s, messages)
    requires forall t :: judge(t, []) == Incomplete
    requires Concat(chunks) == Send(sender, s, messages).wire
    ensures Feed(judge, s, [], chunks) == Outcome(Payloads(sender, s, messages), [], Send(sender, s, messages).end, None)
  {
    hide Sound;
    ReceiverFollowsSender(judge, sender, s, messages);
    ChunkingIsIrrelevant(judge, s, [], chunks);
    assert [] + Concat(chunks) == Concat(chunks);
  }

  /** While a good stream is still arriving nothing fails, and what has been passed on is the
      beginning of what the whole stream delivers. */
  lemma DeliveredSoFar<S(!new)>(judge: JudgeFor<S>, s: S, chunks: seq<Bytes>, later: Bytes)
    requires Sound(judge) && judge(s, []) == Incomplete
    requires Decode(judge, s, Concat(chunks) + later).failure.None?
    ensures Feed(judge, s, [], chunks).failure.None?
    ensures Feed(judge, s, [], chunks).out <= Decode(judge, s, Concat(chunks) + later).out
  {
    hide Sound;
    ChunkingIsIrrelevant(judge, s, [], chunks);
    assert [] + Concat(chunks) == Concat(chunks);
    DecodeInTwo(judge, s, Concat(chunks), later);
  }
}
