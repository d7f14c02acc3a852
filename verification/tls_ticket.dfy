/** transport/ssr/obfs/tls1.2_ticket_auth.go: the connection, its handshake and its buffers. */
module TlsTicket {
  import opened ByteCodec
  import opened Framing
  import opened Options
  import opened TlsTicketSpec
  import SsrConn

  /** hmacSHA1: ten bytes keyed with the server key and the client id. */
  type TicketMac = f: Bytes -> Bytes | forall d :: |f(d)| == 10
    witness (d: Bytes) => seq(10, i => 0)

  datatype ReadError = Network | TooShortData | HmacError | MagicNumber

  /** The second flight: change-cipher-spec and a finished message with its code. */
  function Finish(mac: TicketMac, noise: Supply): Bytes {
    var head := [0x14, 3, 3, 0, 1, 1, 0x16, 3, 3, 0, 0x20] + Take(noise, 0, 22);
    head + mac(head)
  }

  /** What a server's answer has to look like. */
  predicate AnswerAccepted(mac: TicketMac, buf: Bytes)
    requires |buf| >= 76
  {
    buf[33..43] == mac(buf[11..33]) && buf[|buf| - 10..] == mac(buf[..|buf| - 10])
  }

  /** Two records: a change of ciphers, and a finished message of 22 random bytes and the code of all that
      goes before it. */
  lemma FinishOnTheWire(mac: TicketMac, noise: Supply)
    ensures var f := Finish(mac, noise);
            |f| == (5 + 1) + (5 + 32) && f[..11] == [0x14, 3, 3, 0, 1, 1, 0x16, 3, 3, 0, 32]
            && f[11..33] == Take(noise, 0, 22) && f[33..] == mac(f[..33])
  {
    hide Take;
    var f := Finish(mac, noise);
    var head := [0x14, 3, 3, 0, 1, 1, 0x16, 3, 3, 0, 0x20] + Take(noise, 0, 22);
    assert f[..33] == head;
  }

  /** An answer is accepted if and only if it is made with the key: 22 bytes behind the first eleven carry
      their code, and the whole ends with the code of all before. */
  lemma AnswersAreAuthentic(mac: TicketMac, buf: Bytes)
    requires |buf| >= 76
    ensures AnswerAccepted(mac, buf) <==>
              exists first: Bytes, random: Bytes, rest: Bytes :: IsAnswer(mac, buf, first, random, rest)
  {
    if AnswerAccepted(mac, buf) {
      var first, random, rest := buf[..11], buf[11..33], buf[43..|buf| - 10];
      assert buf[..|buf| - 10] == first + random + mac(random) + rest;
      assert buf == buf[..|buf| - 10] + buf[|buf| - 10..];
      assert IsAnswer(mac, buf, first, random, rest);
    }
    if first: Bytes, random: Bytes, rest: Bytes :| IsAnswer(mac, buf, first, random, rest) {
      var body := first + random + mac(random) + rest;
      assert buf[..|buf| - 10] == body && buf[|buf| - 10..] == mac(body);
      assert body[11..33] == random && body[33..43] == mac(random);
      assert buf[11..33] == body[11..33] && buf[33..43] == body[33..43];
    }
  }

  predicate IsAnswer(mac: TicketMac, buf: Bytes, first: Bytes, random: Bytes, rest: Bytes) {
    var body := first + random + mac(random) + rest;
    |first| == 11 && |random| == 22 && buf == body + mac(body)
  }

  /** Every accepted byte is in exactly one record, in order: records wait in sendBuf until the
      handshake is over and are on the wire, after the two flights, from then on. */
  ghost predicate SendSide(status: int, hello: Bytes, finish: Bytes, out: Bytes, sendBuf: Bytes,
                           pieces: seq<Bytes>, accepted: Bytes) {
    (status == 0 || status == 1 || status == 8)
    && Concat(pieces) == accepted
    && (status == 0 ==> hello == [])
    && (status < 8 ==> out == hello && sendBuf == Records(pieces))
    && (status == 8 ==> out == hello + finish + Records(pieces) && sendBuf == [])
  }

  /** Nothing is taken for records before the handshake is over; from then on every byte that came in is
      accounted for, up to the first wrong magic number. */
  ghost predicate ReceiveSide(status: int, received: Bytes, delivered: Bytes, decoded: Bytes, underDecoded: Bytes,
                              broken: bool) {
    (status != 8 ==> received == delivered == decoded == underDecoded == [] && !broken)
    && (!broken ==> SsrConn.Accounted(RecordJudge(), (), received, delivered, decoded, underDecoded, ()))
  }

  lemma SecondFlight(hello: Bytes, finish0: Bytes, out: Bytes, sendBuf: Bytes, pieces: seq<Bytes>, accepted: Bytes, finish: Bytes)
    requires SendSide(1, hello, finish0, out, sendBuf, pieces, accepted)
    ensures SendSide(8, hello, finish, out + (finish + sendBuf), [], pieces, accepted)
  {
    hide Records, Concat;
    Regroup(hello, finish, sendBuf);
  }

  lemma Opened(received: Bytes, delivered: Bytes, decoded: Bytes, underDecoded: Bytes, broken: bool)
    requires ReceiveSide(1, received, delivered, decoded, underDecoded, broken)
    ensures ReceiveSide(8, received, delivered, decoded, underDecoded, broken)
  {
    hide JudgeRecord;
  }

  class Conn {
    const mac: TicketMac
    const out: Buffer // what the underlying connection has been given to send
    var handshakeStatus: int
    var decoded: Bytes
    var underDecoded: Bytes
    var sendBuf: Bytes
    // What has happened so far.
    ghost var hello: Bytes // the first flight
    ghost var finish: Bytes // the second
    ghost var pieces: seq<Bytes> // the payloads framed so far, sent or buffered
    ghost var accepted: Bytes // all bytes given to Write
    ghost var received: Bytes // all bytes that came in after the handshake
    ghost var delivered: Bytes
    ghost var broken: bool

    ghost predicate Valid()
      reads this, out
    {
      SendSide(handshakeStatus, hello, finish, out.data, sendBuf, pieces, accepted)
      && ReceiveSide(handshakeStatus, received, delivered, decoded, underDecoded, broken)
    }

    constructor (mac: TicketMac, out: Buffer)
      requires out.data == []
      ensures Valid() && handshakeStatus == 0 && this.mac == mac && this.out == out && accepted == received == []
    {
      this.mac, this.out, handshakeStatus := mac, out, 0;
      decoded, underDecoded, sendBuf := [], [], [];
      hello, finish, pieces, accepted, received, delivered, broken := [], [], [], [], [], [], false;
    }

    /** `clientHello` is the first flight, should it be sent now; `luck` and `noise` are what the random
        sources yield. */
    method Write(b: Bytes, clientHello: Bytes, luck: nat -> nat, noise: Supply) returns (n: nat)
      requires Valid()
      modifies this, out
      ensures Valid() && accepted == old(accepted) + b
      ensures handshakeStatus == if old(handshakeStatus) == 0 then 1
                                 else if old(handshakeStatus) == 1 && |b| > 0 then 1 else 8
      ensures n == if old(handshakeStatus) == 1 && |b| == 0 then 0 else |b|
      ensures hello == if old(handshakeStatus) == 0 then clientHello else old(hello)
      ensures old(pieces) <= pieces
      ensures old(handshakeStatus) < 8 && |b| > 0 ==> pieces == old(pieces) + [b]
      ensures old(handshakeStatus) == 8 ==> pieces == old(pieces) + Cut(b, luck, 0)
      ensures received == old(received) && delivered == old(delivered) && decoded == old(decoded) && broken == old(broken)
    {
      hide Records, Concat, SendSide, ReceiveSide, Cut, Finish, AnswerAccepted, Decode;
      var length := |b|;
      StatusIsKnown(handshakeStatus, hello, finish, out.data, sendBuf, pieces, accepted);
      if handshakeStatus == 8 {
        SendPieces(b, luck);
        return length;
      }
      n := WriteEarly(b, clientHello, noise);
    }

    /** A write during the handshake: the bytes wait, and the handshake is begun or, by a write of nothing,
        finished. */
    method WriteEarly(b: Bytes, clientHello: Bytes, noise: Supply) returns (n: nat)
      requires Valid() && (handshakeStatus == 0 || handshakeStatus == 1)
      modifies `handshakeStatus, `sendBuf, `hello, `finish, `pieces, `accepted, out
      ensures Valid() && accepted == old(accepted) + b
      ensures handshakeStatus == if old(handshakeStatus) == 0 || |b| > 0 then 1 else 8
      ensures n == |b|
      ensures hello == if old(handshakeStatus) == 0 then clientHello else old(hello)
      ensures pieces == if |b| > 0 then old(pieces) + [b] else old(pieces)
    {
      hide Records, Concat, SendSide, ReceiveSide, Finish, AnswerAccepted, Decode;
      Enqueue(b);
      if handshakeStatus == 0 {
        StartHandshake(clientHello);
      } else if |b| == 0 {
        FinishHandshake(noise);
      }
      n := |b|;
    }

    method StartHandshake(clientHello: Bytes)
      requires Valid() && handshakeStatus == 0
      modifies `handshakeStatus, `hello, out
      ensures Valid() && handshakeStatus == 1 && hello == clientHello
    {
      hide Records, Concat;
      handshakeStatus := 1;
      out.Write(clientHello);
      hello := clientHello;
    }

    /** Sends the second flight and with it all that was buffered. */
    method FinishHandshake(noise: Supply)
      requires Valid() && handshakeStatus == 1
      modifies `handshakeStatus, `finish, `sendBuf, out
      ensures Valid() && handshakeStatus == 8 && finish == Finish(mac, noise)
    {
      hide Finish, SendSide, ReceiveSide, Records, Concat, Decode, JudgeRecord, AnswerAccepted, Take;
      var buf := Finish(mac, noise);
      SecondFlight(hello, finish, out.data, sendBuf, pieces, accepted, buf);
      Opened(received, delivered, decoded, underDecoded, broken);
      finish := buf;
      buf, sendBuf := buf + sendBuf, [];
      handshakeStatus := 8;
      out.Write(buf);
    }

    method Enqueue(b: Bytes)
      requires Valid() && handshakeStatus < 8
      modifies `sendBuf, `pieces, `accepted
      ensures Valid() && accepted == old(accepted) + b
      ensures pieces == if |b| > 0 then old(pieces) + [b] else old(pieces)
    {
      hide Record, Records, Concat, ReceiveSide;
      if |b| > 0 {
        sendBuf := sendBuf + Record(b);
        OneMore(pieces, b);
        pieces := pieces + [b];
        accepted := accepted + b;
      } else {
        assert accepted + b == accepted;
      }
    }

    method CutAndFrame(b: Bytes, luck: nat -> nat) returns (wire: Bytes)
      ensures wire == Records(Cut(b, luck, 0))
    {
      hide Record, Records, Concat, Cut;
      var rest, k := b, 0;
      ghost var cut := Cut(b, luck, 0);
      ghost var done: seq<Bytes> := [];
      wire := [];
      NoRecords();
      while |rest| > 2048
        invariant wire == Records(done) && done + Cut(rest, luck, k) == cut
      {
        CutUnfolds(rest, luck, k);
        var size := luck(k) % 4096 + 100;
        if |rest| < size { size := |rest|; }
        wire := wire + Record(rest[..size]);
        OneMore(done, rest[..size]);
        done := done + [rest[..size]];
        rest, k := rest[size..], k + 1;
      }
      CutUnfolds(rest, luck, k);
      if |rest| > 0 {
        wire := wire + Record(rest);
        OneMore(done, rest);
        done := done + [rest];
      }
      assert done == cut;
    }

    method SendPieces(b: Bytes, luck: nat -> nat)
      requires Valid() && handshakeStatus == 8
      modifies `pieces, `accepted, out
      ensures Valid() && accepted == old(accepted) + b && pieces == old(pieces) + Cut(b, luck, 0)
    {
      hide Record, Records, Concat, Cut, ReceiveSide;
      var buf := CutAndFrame(b, luck);
      ghost var cut := Cut(b, luck, 0);
      RecordsInTwo(pieces, cut);
      ConcatAppend(pieces, cut);
      CutKeepsBytes(b, luck, 0);
      out.Write(buf);
      pieces, accepted := pieces + cut, accepted + b;
      assert out.data == hello + finish + Records(pieces);
    }

    /** `arrived` is what a read of the underlying connection yields, if one is made. */
    method Read(size: nat, arrived: Option<Bytes>, clientHello: Bytes, noise: Supply)
      returns (b: Bytes, error: Option<ReadError>)
      requires Valid() && (arrived.Some? ==> |arrived.value| <= SsrConn.RELAY_BUFFER_SIZE)
      modifies this, out
      ensures Valid() && accepted == old(accepted) && old(pieces) <= pieces
      ensures |b| <= size && delivered == old(delivered) + b
      ensures old(handshakeStatus) <= handshakeStatus
      ensures handshakeStatus != old(handshakeStatus) ==>
                error == None && arrived.Some? && |arrived.value| >= 76 && AnswerAccepted(mac, arrived.value)
                && handshakeStatus == if old(handshakeStatus) == 0 then 1 else 8
      ensures error == Some(Network) <==> |old(decoded)| == 0 && arrived == None
      ensures received == old(received)
                          + if old(handshakeStatus) == 8 && |old(decoded)| == 0 && arrived.Some? then arrived.value else []
      ensures !old(broken) ==> (broken <==> Decode(RecordJudge(), (), received).failure.Some?)
      ensures error == Some(MagicNumber) ==> broken
    {
      hide Records, JudgeRecord, Concat, SendSide, ReceiveSide, Decode, AnswerAccepted, Finish, Cut;
      Sides(handshakeStatus, received, delivered, decoded, underDecoded, broken);
      if |decoded| > 0 {
        b := ReadDecoded(size);
        return b, None;
      }
      if arrived == None { return [], Some(Network); }
      if handshakeStatus == 8 {
        b, error := ReadRecords(size, arrived.value);
        return;
      }
      b := [];
      error := Answer(arrived.value, clientHello, noise);
    }

    method ReadRecords(size: nat, buf: Bytes) returns (b: Bytes, error: Option<ReadError>)
      requires Valid() && handshakeStatus == 8 && |decoded| == 0
      modifies `decoded, `underDecoded, `received, `delivered, `broken
      ensures Valid() && |b| <= size && delivered == old(delivered) + b && received == old(received) + buf
      ensures !old(broken) ==> (broken <==> Decode(RecordJudge(), (), received).failure.Some?)
      ensures error == None || (error == Some(MagicNumber) && broken)
    {
      hide Records, JudgeRecord, Concat, SendSide, ReceiveSide, Decode;
      var ok := Absorb(buf);
      if !ok { return [], Some(MagicNumber); }
      b := ReadDecoded(size);
      error := None;
    }

    /** What came in during the handshake: the next step of it, if it is a proper answer. */
    method Answer(buf: Bytes, clientHello: Bytes, noise: Supply) returns (error: Option<ReadError>)
      requires Valid() && handshakeStatus != 8
      modifies this, out
      ensures Valid() && accepted == old(accepted) && old(pieces) <= pieces
      ensures delivered == old(delivered) && received == old(received) && broken == old(broken)
      ensures if error == None then
                |buf| >= 76 && AnswerAccepted(mac, buf) && old(handshakeStatus) < handshakeStatus
                && handshakeStatus == if old(handshakeStatus) == 0 then 1 else 8
              else
                handshakeStatus == old(handshakeStatus) && (error == Some(TooShortData) || error == Some(HmacError))
    {
      hide Records, JudgeRecord, Concat, SendSide, ReceiveSide, Decode, AnswerAccepted, Finish, Cut;
      if |buf| < 11 + 32 + 1 + 32 { return Some(TooShortData); }
      if !AnswerAccepted(mac, buf) { return Some(HmacError); }
      StatusIsKnown(handshakeStatus, hello, finish, out.data, sendBuf, pieces, accepted);
      var _ := Write([], clientHello, k => 0, noise);
      error := None;
    }

    /** Takes in what arrived; a wrong magic number empties the buffer. */
    method Absorb(buf: Bytes) returns (ok: bool)
      requires Valid() && handshakeStatus == 8 && |decoded| == 0
      modifies `decoded, `underDecoded, `received, `broken
      ensures Valid() && received == old(received) + buf
      ensures !old(broken) ==> (broken <==> Decode(RecordJudge(), (), received).failure.Some?)
      ensures !ok ==> broken
    {
      hide Records, JudgeRecord, Concat, SendSide, Decode;
      JudgeIsSound();
      DecodeInTwo(RecordJudge(), (), received, buf);
      received := received + buf;
      underDecoded := underDecoded + buf;
      var payload;
      ok, payload, underDecoded := Reassemble(underDecoded);
      assert delivered + decoded == delivered;
      decoded := decoded + payload;
      assert decoded == payload;
      broken := broken || !ok;
    }

    /** The loop over the received records. */
    static method Reassemble(src: Bytes) returns (ok: bool, payload: Bytes, rest: Bytes)
      ensures Decode(RecordJudge(), (), src) == Outcome(payload, rest, (), if ok then None else Some(MagicError))
    {
      hide JudgeRecord, Be16, Decode;
      payload, rest := [], src;
      ghost var goal := Decode(RecordJudge(), (), src);
      assert [] + goal.out == goal.out;
      while |rest| > 5
        invariant var todo := Decode(RecordJudge(), (), rest); goal == todo.(out := payload + todo.out)
        decreases |rest|
      {
        Turn(rest);
        if rest[..3] != MAGIC {
          assert payload + [] == payload;
          return false, payload, [];
        }
        var size: nat := Be16(rest[3], rest[4]);
        if |rest| < 5 + size { break; }
        rest := rest[5..];
        payload, rest := payload + rest[..size], rest[size..];
      }
      Turn(rest);
      assert payload + [] == payload;
      ok := true;
    }

    method ReadDecoded(size: nat) returns (b: Bytes)
      requires Valid() && handshakeStatus == 8
      modifies `decoded, `delivered
      ensures Valid() && |b| <= size && old(decoded) == b + decoded && delivered == old(delivered) + b
    {
      hide Records, Concat, JudgeRecord, SendSide;
      var n := if size < |decoded| then size else |decoded|;
      b := decoded[..n];
      assert delivered + decoded == (delivered + b) + decoded[n..];
      decoded, delivered := decoded[n..], delivered + b;
    }

    /** Once the handshake is over, whoever reads the records after the two flights, in any chunks, gets
        every byte ever accepted, those from before the end of the handshake included, provided no write
        before that was longer than a record's length field can say. */
    lemma EveryAcceptedByteArrivesOnce(chunks: seq<Bytes>)
      requires Valid() && handshakeStatus == 8 && Fitting(pieces)
      requires Concat(chunks) == out.data[|hello + finish|..]
      ensures Feed(RecordJudge(), (), [], chunks) == Outcome(accepted, [], (), None)
    {
      hide Records, Concat, Feed;
      assert out.data[|hello + finish|..] == Records(pieces);
      RecordsRoundTrip(pieces, chunks);
    }
  }

  lemma OneMore(pieces: seq<Bytes>, b: Bytes)
    ensures Records(pieces + [b]) == Records(pieces) + Record(b)
    ensures Concat(pieces + [b]) == Concat(pieces) + b
  {
    hide Record, Records;
    RecordsInTwo(pieces, [b]);
    OneRecord(b);
    ConcatAppend(pieces, [b]);
    assert Concat([b]) == b;
  }

  lemma StatusIsKnown(status: int, hello: Bytes, finish: Bytes, out: Bytes, sendBuf: Bytes, pieces: seq<Bytes>, accepted: Bytes)
    requires SendSide(status, hello, finish, out, sendBuf, pieces, accepted)
    ensures status == 0 || status == 1 || status == 8
  {
  }

  lemma Sides(status: int, received: Bytes, delivered: Bytes, decoded: Bytes, underDecoded: Bytes, broken: bool)
    requires ReceiveSide(status, received, delivered, decoded, underDecoded, broken)
    ensures status != 8 ==> received == delivered == decoded == underDecoded == [] && !broken
    ensures !broken ==> Decode(RecordJudge(), (), received).failure == None
  {
  }

  lemma NoRecords()
    ensures Records([]) == []
  {
  }

  lemma CutUnfolds(b: Bytes, luck: nat -> nat, k: nat)
    ensures |b| > 2048 ==>
              var drawn := luck(k) % 4096 + 100;
              var size := if |b| < drawn then |b| else drawn;
              Cut(b, luck, k) == [b[..size]] + Cut(b[size..], luck, k + 1)
    ensures |b| <= 2048 ==> Cut(b, luck, k) == if |b| > 0 then [b] else []
  {
  }

  /** One turn of the record loop. */
  lemma Turn(src: Bytes)
    ensures var r := Decode(RecordJudge(), (), src);
            if |src| <= 5 then r == Outcome([], src, (), None)
            else if src[..3] != MAGIC then r == Outcome([], [], (), Some(MagicError))
            else
              var size: nat := Be16(src[3], src[4]);
              if |src| < 5 + size then r == Outcome([], src, (), None)
              else
                var q := Decode(RecordJudge(), (), src[5 + size..]);
                r == q.(out := src[5..5 + size] + q.out)
  {
    hide Be16;
    DecodeUnfolds(RecordJudge(), (), src);
  }
}
