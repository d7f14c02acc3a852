/** transport/ssr/protocol/stream.go: reads through a protocol that decodes in frames. */
module SsrConn {
  import opened ByteCodec
  import opened Framing
  import opened Options

  const RELAY_BUFFER_SIZE := 20 * 1024

  datatype ReadError = Network | Protocol(why: Failure)

  /** A reader's buffers account for every byte that came in: it has passed on, and still holds, just
      what one pass over all of it delivers. */
  ghost predicate Accounted<S>(judge: JudgeFor<S>, start: S, received: Bytes, delivered: Bytes,
                               decoded: Bytes, underDecoded: Bytes, state: S) {
    Decode(judge, start, received) == Outcome(delivered + decoded, underDecoded, state, None)
  }

  class Conn<S(!new)> {
    const judge: JudgeFor<S>
    const poisons: Failure -> bool // the failures after which the protocol stops decoding
    var state: S
    var rawTrans: bool
    var decoded: Bytes
    var underDecoded: Bytes
    ghost const start: S
    ghost var received: Bytes
    ghost var delivered: Bytes
    ghost var broken: bool

    ghost predicate Valid()
      reads this
    {
      Sound(judge) && (!broken ==> !rawTrans && Accounted(judge, start, received, delivered, decoded, underDecoded, state))
    }

    constructor (judge: JudgeFor<S>, poisons: Failure -> bool, start: S)
      requires Sound(judge) && judge(start, []) == Incomplete
      ensures Valid() && !broken && received == delivered == [] && this.judge == judge && this.start == start
    {
      this.judge, this.poisons, this.start, state := judge, poisons, start, start;
      rawTrans, decoded, underDecoded := false, [], [];
      received, delivered, broken := [], [], false;
    }

    /** `arrived` is what a read of the underlying connection yields, if one is made. */
    method Read(size: nat, arrived: Option<Bytes>) returns (b: Bytes, error: Option<ReadError>)
      requires Valid() && (arrived.Some? ==> |arrived.value| <= RELAY_BUFFER_SIZE)
      modifies this
      ensures Valid() && |b| <= size && delivered == old(delivered) + b
      ensures received == old(received) + if |old(decoded)| == 0 && arrived.Some? then arrived.value else []
      ensures |old(decoded)| > 0 ==> error == None && (size > 0 ==> b != []) && broken == old(broken)
      ensures error == Some(Network) <==> |old(decoded)| == 0 && arrived == None
      ensures error.Some? ==> b == [] && (error.value.Protocol? ==> broken)
      ensures !old(broken) ==> (broken <==> Decode(judge, start, received).failure.Some?)
      ensures !old(broken) && broken ==> error == Some(Protocol(Decode(judge, start, received).failure.value))
      ensures !old(broken) && broken ==> rawTrans == poisons(Decode(judge, start, received).failure.value)
      ensures old(rawTrans) ==>
                rawTrans && (|old(decoded)| == 0 && arrived.Some? ==>
                               error == None && b + decoded == old(underDecoded) + arrived.value && underDecoded == [])
    {
      if |decoded| > 0 {
        b := ReadDecoded(size);
        return b, None;
      }
      if arrived == None { return [], Some(Network); }
      ghost var before := underDecoded;
      underDecoded := underDecoded + arrived.value;
      received := received + arrived.value;
      if rawTrans {
        decoded, underDecoded := underDecoded, [];
      } else {
        var r := Decode(judge, state, underDecoded);
        DecodeInTwo(judge, start, old(received), arrived.value);
        decoded, underDecoded, state := r.out, r.rest, r.end;
        if r.failure.Some? {
          rawTrans := poisons(r.failure.value);
          broken := true;
          return [], Some(Protocol(r.failure.value));
        }
        assert delivered + [] == delivered;
      }
      b := ReadDecoded(size);
      error := None;
    }

    method ReadDecoded(size: nat) returns (b: Bytes)
      requires Valid()
      modifies `decoded, `delivered
      ensures Valid() && |b| <= size && old(decoded) == b + decoded && delivered == old(delivered) + b
      ensures size > 0 && |old(decoded)| > 0 ==> b != []
    {
      var n := if size < |decoded| then size else |decoded|;
      b := decoded[..n];
      assert delivered + decoded == (delivered + b) + decoded[n..];
      decoded, delivered := decoded[n..], delivered + b;
    }
  }

  /** Reads of any sizes over any chunks of what a sender sends yield its payloads in order, nothing
      lost and nothing twice; once all has come in and the buffer is drained, they are complete. */
  lemma ReadsYieldPayloads<S(!new), M>(judge: JudgeFor<S>, sender: Sender<S, M>, start: S, messages: seq<M>,
                                       received: Bytes, delivered: Bytes, decoded: Bytes, underDecoded: Bytes, state: S)
    requires Sound(judge) && AllRecognised(judge, sender, start, messages)
    requires judge(Send(sender, start, messages).end, []) == Incomplete
    requires received <= Send(sender, start, messages).wire
    requires Accounted(judge, start, received, delivered, decoded, underDecoded, state)
    ensures delivered <= delivered + decoded <= Payloads(sender, start, messages)
    ensures received == Send(sender, start, messages).wire ==>
              delivered + decoded == Payloads(sender, start, messages) && underDecoded == []
              && state == Send(sender, start, messages).end
  {
    hide Sound;
    var wire := Send(sender, start, messages).wire;
    ReceiverFollowsSender(judge, sender, start, messages);
    var later := wire[|received|..];
    assert received + later == wire;
    DecodeInTwo(judge, start, received, later);
  }

  /** No stream that a sender can have begun makes a reader fail. */
  lemma GoodStreamsDoNotFail<S(!new), M>(judge: JudgeFor<S>, sender: Sender<S, M>, start: S, messages: seq<M>, received: Bytes)
    requires Sound(judge) && AllRecognised(judge, sender, start, messages)
    requires judge(Send(sender, start, messages).end, []) == Incomplete
    requires received <= Send(sender, start, messages).wire
    ensures Decode(judge, start, received).failure == None
  {
    hide Sound;
    var wire := Send(sender, start, messages).wire;
    ReceiverFollowsSender(judge, sender, start, messages);
    assert received + wire[|received|..] == wire;
    DecodeInTwo(judge, start, received, wire[|received|..]);
  }

  /** A reader on the stream of a sender, of which `rest` has not come in yet. */
  ghost predicate OnStream<S(!new), M>(c: Conn<S>, sender: Sender<S, M>, messages: seq<M>, rest: Bytes)
    reads c
  {
    c.Valid() && !c.broken && c.received + rest == Send(sender, c.start, messages).wire
  }

  ghost predicate Readable<S(!new), M>(judge: JudgeFor<S>, sender: Sender<S, M>, start: S, messages: seq<M>) {
    AllRecognised(judge, sender, start, messages) && judge(Send(sender, start, messages).end, []) == Incomplete
  }

  /** One read: when it needs more bytes, at most `amount` of them come in, and the end of the stream is
      an error. */
  method ReadOnce<S(!new), M>(c: Conn<S>, size: nat, amount: nat, rest0: Bytes, ghost sender: Sender<S, M>, ghost messages: seq<M>)
    returns (b: Bytes, error: Option<ReadError>, rest: Bytes)
    requires OnStream(c, sender, messages, rest0) && Readable(c.judge, sender, c.start, messages)
    modifies c
    ensures OnStream(c, sender, messages, rest) && c.delivered == old(c.delivered) + b
    ensures c.delivered <= Payloads(sender, c.start, messages)
    ensures error.Some? ==> error == Some(Network) && rest == [] && c.delivered == Payloads(sender, c.start, messages)
    ensures rest0 == [] ==> rest == []
    ensures rest == [] && c.decoded == [] ==>
              c.delivered == Payloads(sender, c.start, messages) && c.state == Send(sender, c.start, messages).end
  {
    hide Readable, Sound, Decode, Send, Payloads, AllRecognised;
    var n := if amount < RELAY_BUFFER_SIZE then amount else RELAY_BUFFER_SIZE;
    if n > |rest0| { n := |rest0|; }
    rest := rest0;
    var arrived := None;
    if |c.decoded| == 0 && |rest0| > 0 {
      arrived, rest := Some(rest0[..n]), rest0[n..];
    }
    ghost var before := c.received;
    Standing(c, sender, messages, rest0);
    assert (before + rest0[..n]) + rest0[n..] == before + rest0;
    StreamIsGood(c.judge, sender, c.start, messages, before + rest0[..n], rest0[n..]);
    StreamIsGood(c.judge, sender, c.start, messages, before, rest0);
    b, error := c.Read(size, arrived);
    Standing(c, sender, messages, rest);
  }

  lemma StreamIsGood<S(!new), M>(judge: JudgeFor<S>, sender: Sender<S, M>, start: S, messages: seq<M>, received: Bytes, rest: Bytes)
    requires Sound(judge) && Readable(judge, sender, start, messages)
    requires received + rest == Send(sender, start, messages).wire
    ensures Decode(judge, start, received).failure == None
  {
    hide Sound, Decode, Send, AllRecognised;
    GoodStreamsDoNotFail(judge, sender, start, messages, received);
  }

  lemma Standing<S(!new), M>(c: Conn<S>, sender: Sender<S, M>, messages: seq<M>, rest: Bytes)
    requires OnStream(c, sender, messages, rest) && Readable(c.judge, sender, c.start, messages)
    ensures c.delivered + c.decoded <= Payloads(sender, c.start, messages)
    ensures rest == [] ==>
              c.delivered + c.decoded == Payloads(sender, c.start, messages) && c.state == Send(sender, c.start, messages).end
  {
    hide Sound, Decode, Send, Payloads, AllRecognised;
    assert c.received + [] == c.received;
    ReadsYieldPayloads(c.judge, sender, c.start, messages, c.received, c.delivered, c.decoded, c.underDecoded, c.state);
  }

  /** Any reads on the stream of a sender, however its bytes come in. What has been read is a prefix of
      what was sent; the only error is the end of the stream, once all has been delivered; and a reader
      that has drained the stream has the sender's state. */
  method Reads<S(!new), M>(c: Conn<S>, wire: Bytes, sizes: seq<nat>, amounts: seq<nat>,
                           ghost sender: Sender<S, M>, ghost messages: seq<M>)
    returns (got: Bytes, errors: seq<Option<ReadError>>, rest: Bytes)
    requires c.delivered == [] && OnStream(c, sender, messages, wire) && Readable(c.judge, sender, c.start, messages)
    requires |amounts| == |sizes|
    modifies c
    ensures |errors| == |sizes| && got <= Payloads(sender, c.start, messages) && c.delivered == got
    ensures forall i :: 0 <= i < |errors| && errors[i].Some? ==>
              errors[i] == Some(Network) && rest == [] && got == Payloads(sender, c.start, messages)
    ensures rest == [] && c.decoded == [] ==>
              got == Payloads(sender, c.start, messages) && c.state == Send(sender, c.start, messages).end
  {
    hide OnStream, Readable, Payloads, Send, Conn.Valid;
    got, errors, rest := [], [], wire;
    Standing(c, sender, messages, wire);
    for i := 0 to |sizes|
      invariant |errors| == i && OnStream(c, sender, messages, rest) && c.delivered == got
      invariant got <= Payloads(sender, c.start, messages)
      invariant forall k :: 0 <= k < i && errors[k].Some? ==>
                  errors[k] == Some(Network) && rest == [] && got == Payloads(sender, c.start, messages)
      invariant rest == [] && c.decoded == [] ==>
                  got == Payloads(sender, c.start, messages) && c.state == Send(sender, c.start, messages).end
    {
      var b, error;
      b, error, rest := ReadOnce(c, sizes[i], amounts[i], rest, sender, messages);
      got, errors := got + b, errors + [error];
    }
  }
}
