/** transport/vmess/aead.go: writer and reader of sealed records. */
module VmessAead {
  import opened ByteCodec
  import opened Framing
  import opened Options
  import opened VmessSpec

  /** The counter in front of ten bytes of the IV, in a 32-byte array that is reused. */
  method PutNonce(nonce: array<byte>, count: u16, iv: Iv)
    requires nonce.Length == 32
    modifies nonce
    ensures nonce[..NONCE_SIZE] == Nonce(iv, count)
    ensures Be16(nonce[0], nonce[1]) == count && nonce[2..12] == iv[2..12]
  {
    hide PutBe16;
    var head := PutBe16(count);
    nonce[0], nonce[1] := head[0], head[1];
    forall i | 2 <= i < 12 { nonce[i] := iv[i]; }
    assert nonce[..NONCE_SIZE] == head + iv[2..12];
    Put16RoundTrip(count);
  }

  /** copy: puts `b` at `lo`. */
  method CopyInto(buf: array<byte>, lo: nat, b: Bytes)
    requires lo + |b| <= buf.Length
    modifies buf
    ensures buf[lo..lo + |b|] == b
    ensures buf[..lo] == old(buf[..lo]) && buf[lo + |b|..] == old(buf[lo + |b|..])
  {
    forall i | 0 <= i < |b| { buf[lo + i] := b[i]; }
  }

  class Writer {
    const aead: Aead
    const iv: Iv
    const nonce: array<byte>
    var count: u16

    ghost predicate Valid() {
      nonce.Length == 32
    }

    constructor (aead: Aead, iv: Iv)
      ensures Valid() && count == 0 && this.aead == aead && this.iv == iv && fresh(nonce)
    {
      this.aead, this.iv, count := aead, iv, 0;
      nonce := new byte[32](i => 0);
    }

    /** Seals one piece in place in the relay buffer and hands the record over. */
    method WriteRecord(out: Buffer, buf: array<byte>, piece: Bytes)
      requires Valid() && buf != nonce && buf.Length == RELAY_BUFFER_SIZE
      requires 0 < |piece| <= CHUNK_SIZE - aead.overhead
      modifies `count, nonce, buf, out
      ensures out.data == old(out.data) + Record(aead, iv, old(count), piece)
      ensures count == NextCount(old(count))
    {
      hide PutBe16, Nonce;
      CopyInto(buf, LEN_SIZE, piece);
      var size := |piece| + aead.overhead;
      ghost var head := PutBe16(size % 0x1_0000);
      CopyInto(buf, 0, PutBe16(size % 0x1_0000));
      assert buf[LEN_SIZE..LEN_SIZE + |piece|] == buf[LEN_SIZE..][..|piece|] == piece;
      PutNonce(nonce, count, iv);
      var sealed := aead.seal(nonce[..NONCE_SIZE], buf[LEN_SIZE..LEN_SIZE + |piece|]);
      CopyInto(buf, LEN_SIZE, sealed);
      assert buf[..LEN_SIZE] == head;
      count := NextCount(count);
      assert buf[..LEN_SIZE + size] == buf[..LEN_SIZE] + buf[LEN_SIZE..LEN_SIZE + size];
      out.Write(buf[..LEN_SIZE + size]);
    }

    method Write(out: Buffer, b: Bytes) returns (n: nat)
      requires Valid()
      modifies `count, nonce, out
      ensures n == |b|
      ensures var sent := Send(RecordSender(aead, iv), old(count), Pieces(b, CHUNK_SIZE - aead.overhead));
              out.data == old(out.data) + sent.wire && count == sent.end
    {
      hide Record, Pieces, Send, NextCount;
      var buf := new byte[RELAY_BUFFER_SIZE](i => 0);
      var limit := CHUNK_SIZE - aead.overhead;
      ghost var all := Send(RecordSender(aead, iv), count, Pieces(b, limit));
      var length: nat := |b|;
      n := 0;
      assert b[0..] == b;
      while length != 0
        invariant n + length == |b|
        invariant var todo := Send(RecordSender(aead, iv), count, Pieces(b[n..], limit));
                  old(out.data) + all.wire == out.data + todo.wire && todo.end == all.end
      {
        SendPieces(RecordSender(aead, iv), count, b[n..], limit);
        var readLen := if length < limit then length else limit;
        assert b[n..][..readLen] == b[n..n + readLen] && b[n..][readLen..] == b[n + readLen..];
        WriteRecord(out, buf, b[n..n + readLen]);
        n := n + readLen;
        length := length - readLen;
      }
      SendPieces(RecordSender(aead, iv), count, b[n..], limit);
    }
  }

  datatype ReadError = Eof | Bad(why: Failure)

  /** How a read ends when the reader holds nothing, given what is next in its input. */
  function ErrorFor<S>(v: Verdict<S>): Option<ReadError> {
    if v.Accepted? then None else if v.Refused? then Some(Bad(v.why)) else Some(Eof)
  }

  class Reader {
    const aead: Aead
    const iv: Iv
    const nonce: array<byte>
    var buf: Option<Bytes>
    var offset: nat
    var count: u16

    ghost predicate Valid()
      reads this
    {
      nonce.Length == 32 && (buf.Some? ==> offset < |buf.value|)
    }

    /** What has been opened but not yet passed on. */
    ghost function Held(): Bytes
      requires Valid()
      reads this
    {
      if buf.Some? then buf.value[offset..] else []
    }

    constructor (aead: Aead, iv: Iv)
      ensures Valid() && buf == None && count == 0 && this.aead == aead && this.iv == iv && fresh(nonce)
    {
      this.aead, this.iv, count, buf, offset := aead, iv, 0, None, 0;
      nonce := new byte[32](i => 0);
    }

    /** Nothing is lost and nothing is repeated: what was still to be delivered is what this read puts
        into `b` and what is still to be delivered after it. */
    method Read(input: Buffer, b: array<byte>) returns (n: nat, error: Option<ReadError>)
      requires Valid() && b != nonce
      modifies `buf, `offset, `count, nonce, input, b
      ensures Valid() && n <= b.Length
      ensures error == if old(buf).Some? then None else ErrorFor(JudgeRecord(aead, iv, old(count), old(input.data)))
      ensures error == None ==>
                Pending(RecordJudge(aead, iv), old(count), old(Held()), old(input.data))
                == b[..n] + Pending(RecordJudge(aead, iv), count, Held(), input.data)
      ensures old(buf).Some? ==> count == old(count) && input.data == old(input.data)
      ensures old(buf).None? ==>
                var v := JudgeRecord(aead, iv, old(count), old(input.data));
                if v.Accepted? then count == v.next && v.size <= |old(input.data)| && input.data == old(input.data)[v.size..]
                else
                  n == 0 && buf == None && |input.data| <= |old(input.data)|
                  && count == if v == Refused(MacError) then NextCount(old(count)) else old(count)
      ensures old(buf).Some? && n == 0 ==> b.Length == 0
    {
      hide JudgeRecord, Pending;
      if buf.Some? {
        ghost var rest := Held();
        n := Drain(b);
        Split(RecordJudge(aead, iv), count, rest, n, input.data);
        return n, None;
      }
      ghost var before, number := input.data, count;
      RecordTurn(aead, iv, count, before);
      var record := Next(input);
      if record.Stop? { return 0, Some(record.why); }
      var plain := record.value;
      n := CopyOut(b, plain);
      Split(RecordJudge(aead, iv), count, plain, n, input.data);
      error := None;
      if b.Length >= |plain| {
        assert plain[n..] == [];
        return;
      }
      offset := n;
      buf := Some(plain);
    }

    method Drain(b: array<byte>) returns (n: nat)
      requires Valid() && buf.Some?
      modifies `buf, `offset, b
      ensures Valid() && n <= b.Length && n <= |old(Held())| && (n == 0 ==> b.Length == 0)
      ensures b[..n] == old(Held())[..n] && Held() == old(Held())[n..]
    {
      n := CopyOut(b, buf.value[offset..]);
      offset := offset + n;
      if offset == |buf.value| { buf := None; }
    }

    /** Reads and opens the next record. */
    method Next(input: Buffer) returns (r: Opened)
      requires Valid()
      modifies `count, nonce, input
      ensures var v := JudgeRecord(aead, iv, old(count), old(input.data));
              if v.Accepted? then
                r == Plain(v.payload) && count == v.next && v.size <= |old(input.data)| && input.data == old(input.data)[v.size..]
              else
                ErrorFor(v).Some? && r == Stop(ErrorFor(v).value) && |input.data| <= |old(input.data)|
                && count == if v == Refused(MacError) then NextCount(old(count)) else old(count)
    {
      hide PutBe16, Be16, Nonce, NextCount;
      ghost var before := input.data;
      if |input.data| < LEN_SIZE { input.Reset(); return Stop(Eof); }
      var sizeBuf := input.Next(LEN_SIZE);
      assert sizeBuf[0] == before[0] && sizeBuf[1] == before[1];
      var size := Be16(sizeBuf[0], sizeBuf[1]);
      if size > MAX_SIZE { return Stop(Bad(LengthError)); }
      if |input.data| < size { input.Reset(); return Stop(Eof); }
      var sealed := input.Next(size);
      assert before[LEN_SIZE..LEN_SIZE + size] == sealed && before[LEN_SIZE + size..] == input.data;
      PutNonce(nonce, count, iv);
      var plain := aead.open(nonce[..NONCE_SIZE], sealed);
      count := NextCount(count);
      if plain == None { return Stop(Bad(MacError)); }
      r := Plain(plain.value);
    }
  }

  datatype Opened = Plain(value: Bytes) | Stop(why: ReadError)

  /** The wire of all writes, and the counter after them. */
  method WriteAll(w: Writer, out: Buffer, writes: seq<Bytes>)
    requires w.Valid()
    modifies w`count, w.nonce, out
    ensures var sent := SendAll(RecordSender(w.aead, w.iv), CutOf(CHUNK_SIZE - w.aead.overhead), old(w.count), writes);
            out.data == old(out.data) + sent.wire && w.count == sent.end
  {
    hide SendAll, Send, Pieces, Record;
    var limit := CHUNK_SIZE - w.aead.overhead;
    ghost var all := SendAll(RecordSender(w.aead, w.iv), CutOf(limit), w.count, writes);
    assert writes[0..] == writes;
    for i := 0 to |writes|
      invariant var todo := SendAll(RecordSender(w.aead, w.iv), CutOf(limit), w.count, writes[i..]);
                old(out.data) + all.wire == out.data + todo.wire && todo.end == all.end
    {
      SendNextWrite(RecordSender(w.aead, w.iv), limit, w.count, writes, i);
      var _ := w.Write(out, writes[i]);
    }
    SendNextWrite(RecordSender(w.aead, w.iv), limit, w.count, writes, |writes|);
  }

  /** One read of a reader that is on track: it fails only at the end, when all has been delivered. */
  method ReadOnce(r: Reader, input: Buffer, size: nat, ghost end: u16) returns (bytes: Bytes, error: Option<ReadError>)
    requires r.Valid() && OnTrack(RecordJudge(r.aead, r.iv), r.count, input.data, end)
    modifies r`buf, r`offset, r`count, r.nonce, input
    ensures r.Valid() && OnTrack(RecordJudge(r.aead, r.iv), r.count, input.data, end)
    ensures Pending(RecordJudge(r.aead, r.iv), old(r.count), old(r.Held()), old(input.data))
            == bytes + Pending(RecordJudge(r.aead, r.iv), r.count, r.Held(), input.data)
    ensures error.Some? ==> error == Some(Eof) && r.buf == None && input.data == []
    ensures old(r.buf) == None && old(input.data) == [] ==> r.buf == None && input.data == []
  {
    hide OnTrack, Pending, JudgeRecord;
    ghost var before, number := input.data, r.count;
    OnTheWay(r.aead, r.iv, r.count, before, end);
    var b := new byte[size](i => 0);
    var n;
    n, error := r.Read(input, b);
    bytes := b[..n];
    if error.Some? {
      StaysAtTheEnd(r.aead, r.iv, number, r.count, end);
    }
  }

  lemma OnTheWay(aead: Aead, iv: Iv, count: u16, input: Bytes, end: u16)
    requires OnTrack(RecordJudge(aead, iv), count, input, end)
    ensures var v := JudgeRecord(aead, iv, count, input);
            if input == [] then v == Incomplete && count == end
            else v.Accepted? && v.size <= |input| && OnTrack(RecordJudge(aead, iv), v.next, input[v.size..], end)
  {
    hide Be16, Nonce, NextCount;
    TrackGoesOn(RecordJudge(aead, iv), count, input, end);
  }

  /** Any reads of a reader that is on track, with `all` still to be delivered. */
  method ReadMany(r: Reader, input: Buffer, sizes: seq<nat>, ghost all: Bytes, ghost end: u16)
    returns (got: Bytes, errors: seq<Option<ReadError>>)
    requires r.Valid() && OnTrack(RecordJudge(r.aead, r.iv), r.count, input.data, end)
    requires Pending(RecordJudge(r.aead, r.iv), r.count, r.Held(), input.data) == all
    modifies r`buf, r`offset, r`count, r.nonce, input
    ensures |errors| == |sizes| && got <= all
    ensures forall i :: 0 <= i < |errors| && errors[i].Some? ==> errors[i] == Some(Eof) && got == all
    ensures r.buf == None && input.data == [] ==> got == all && r.count == end
  {
    hide OnTrack, Pending, JudgeRecord, Decode, Reader.Valid, Reader.Held;
    got, errors := [], [];
    for i := 0 to |sizes|
      invariant |errors| == i && r.Valid()
      invariant OnTrack(RecordJudge(r.aead, r.iv), r.count, input.data, end)
      invariant got + Pending(RecordJudge(r.aead, r.iv), r.count, r.Held(), input.data) == all
      invariant forall k :: 0 <= k < i && errors[k].Some? ==> errors[k] == Some(Eof) && r.buf == None && input.data == []
    {
      var bytes, error := ReadOnce(r, input, sizes[i], end);
      got, errors := got + bytes, errors + [error];
    }
    if r.buf == None && input.data == [] {
      OnTheWay(r.aead, r.iv, r.count, [], end);
      NothingPending(r);
    }
  }

  /** Any writes, then any reads. What has been read is a prefix of what was written; the only error is
      the end of the input, once all has been delivered; and a reader that has taken everything has the
      writer's counter, wrap-around included. */
  method WritesThenReads(aead: Aead, iv: Iv, writes: seq<Bytes>, sizes: seq<nat>)
    returns (got: Bytes, errors: seq<Option<ReadError>>, w: Writer, r: Reader, input: Buffer)
    ensures |errors| == |sizes| && got <= Concat(writes)
    ensures forall i :: 0 <= i < |errors| && errors[i].Some? ==> errors[i] == Some(Eof) && got == Concat(writes)
    ensures r.buf == None && input.data == [] ==> got == Concat(writes) && r.count == w.count
  {
    hide OnTrack, SendAll, Concat, JudgeRecord, Decode, Pending;
    w := new Writer(aead, iv);
    input := new Buffer([]);
    WriteAll(w, input, writes);
    r := new Reader(aead, iv);
    Begins(aead, iv, writes, input.data, w.count);
    got, errors := ReadMany(r, input, sizes, Concat(writes), w.count);
  }

  lemma Begins(aead: Aead, iv: Iv, writes: seq<Bytes>, wire: Bytes, end: u16)
    requires var sent := SendAll(RecordSender(aead, iv), CutOf(CHUNK_SIZE - aead.overhead), 0, writes);
             wire == [] + sent.wire && end == sent.end
    ensures OnTrack(RecordJudge(aead, iv), 0, wire, end) && Pending(RecordJudge(aead, iv), 0, [], wire) == Concat(writes)
  {
    hide SendAll, Decode, JudgeRecord;
    SealedRoundTrip(aead, iv, 0, writes);
    assert wire == SendAll(RecordSender(aead, iv), CutOf(CHUNK_SIZE - aead.overhead), 0, writes).wire;
  }

  lemma NothingPending(r: Reader)
    requires r.Valid() && r.buf == None
    ensures Pending(RecordJudge(r.aead, r.iv), r.count, r.Held(), []) == []
  {
  }

  lemma StaysAtTheEnd(aead: Aead, iv: Iv, before: u16, after: u16, end: u16)
    requires before == after && before == end
    ensures OnTrack(RecordJudge(aead, iv), after, [], end)
  {
  }

  /** copy: as much as there is room for. */
  method CopyOut(b: array<byte>, from: Bytes) returns (n: nat)
    modifies b
    ensures n == if |from| < b.Length then |from| else b.Length
    ensures b[..n] == from[..n] && b[n..] == old(b[n..])
  {
    n := if |from| < b.Length then |from| else b.Length;
    forall i | 0 <= i < n { b[i] := from[i]; }
  }

  lemma Split<S>(judge: JudgeFor<S>, s: S, held: Bytes, n: nat, input: Bytes)
    requires n <= |held|
    ensures Pending(judge, s, held, input) == held[..n] + Pending(judge, s, held[n..], input)
  {
    assert held == held[..n] + held[n..];
  }

  /** One record's worth of what is still to be delivered. */
  lemma RecordTurn(aead: Aead, iv: Iv, count: u16, src: Bytes)
    ensures var v := JudgeRecord(aead, iv, count, src);
            v.Accepted? ==>
              LEN_SIZE <= v.size <= |src|
              && Pending(RecordJudge(aead, iv), count, [], src) == Pending(RecordJudge(aead, iv), v.next, v.payload, src[v.size..])
  {
    hide Be16, Nonce, NextCount;
  }
}

/** transport/vmess/chunk.go: the same records without sealing. */
module VmessChunk {
  import opened ByteCodec
  import opened Framing
  import opened Options
  import opened VmessSpec
  import opened VmessAead

  class Writer {
    constructor () {}

    method Write(out: Buffer, b: Bytes) returns (n: nat)
      modifies out
      ensures n == |b|
      ensures out.data == old(out.data) + Send(ChunkSender(), (), Pieces(b, CHUNK_SIZE)).wire
    {
      hide PutBe16, Pieces, Send;
      var buf := new byte[RELAY_BUFFER_SIZE](i => 0);
      ghost var all := Send(ChunkSender(), (), Pieces(b, CHUNK_SIZE));
      var length: nat := |b|;
      n := 0;
      assert b[0..] == b;
      while length != 0
        invariant n + length == |b|
        invariant old(out.data) + all.wire == out.data + Send(ChunkSender(), (), Pieces(b[n..], CHUNK_SIZE)).wire
      {
        SendPieces(ChunkSender(), (), b[n..], CHUNK_SIZE);
        var readLen := CHUNK_SIZE;
        if length < CHUNK_SIZE { readLen := length; }
        assert b[n..][..readLen] == b[n..n + readLen] && b[n..][readLen..] == b[n + readLen..];
        WriteChunk(out, buf, b[n..n + readLen]);
        n := n + readLen;
        length := length - readLen;
      }
      SendPieces(ChunkSender(), (), b[n..], CHUNK_SIZE);
    }

    method WriteChunk(out: Buffer, buf: array<byte>, piece: Bytes)
      requires buf.Length == RELAY_BUFFER_SIZE && |piece| <= CHUNK_SIZE
      modifies buf, out
      ensures out.data == old(out.data) + Chunk(piece)
    {
      hide PutBe16;
      CopyInto(buf, LEN_SIZE, piece);
      CopyInto(buf, 0, PutBe16(|piece| % 0x1_0000));
      assert buf[LEN_SIZE..LEN_SIZE + |piece|] == buf[LEN_SIZE..][..|piece|] == piece;
      assert buf[..LEN_SIZE + |piece|] == buf[..LEN_SIZE] + buf[LEN_SIZE..LEN_SIZE + |piece|];
      out.Write(buf[..LEN_SIZE + |piece|]);
    }
  }

  class Reader {
    var buf: Option<Bytes>
    var offset: nat

    ghost predicate Valid()
      reads this
    {
      buf.Some? ==> offset < |buf.value|
    }

    ghost function Held(): Bytes
      requires Valid()
      reads this
    {
      if buf.Some? then buf.value[offset..] else []
    }

    constructor ()
      ensures Valid() && buf == None
    {
      buf, offset := None, 0;
    }

    /** As for sealed records; a record that fits goes to `b` without passing through the buffer. */
    method Read(input: Buffer, b: array<byte>) returns (n: nat, error: Option<ReadError>)
      requires Valid()
      modifies this, input, b
      ensures Valid() && n <= b.Length
      ensures error == if old(buf).Some? then None else ErrorFor(JudgeChunk(old(input.data)))
      ensures error == None ==>
                Pending(ChunkJudge(), (), old(Held()), old(input.data)) == b[..n] + Pending(ChunkJudge(), (), Held(), input.data)
      ensures old(buf).Some? ==> input.data == old(input.data)
      ensures old(buf).None? ==>
                var v := JudgeChunk(old(input.data));
                if v.Accepted? then v.size <= |old(input.data)| && input.data == old(input.data)[v.size..]
                else n == 0 && buf == None && |input.data| <= |old(input.data)|
      ensures old(buf).Some? && n == 0 ==> b.Length == 0
    {
      hide JudgeChunk, Pending;
      if buf.Some? {
        ghost var rest := Held();
        n := Drain(b);
        Split(ChunkJudge(), (), rest, n, input.data);
        return n, None;
      }
      ghost var before := input.data;
      ChunkTurn(before);
      var next := Next(input);
      if next.Stop? { return 0, Some(next.why); }
      var data := next.value;
      n := CopyOut(b, data);
      Split(ChunkJudge(), (), data, n, input.data);
      error := None;
      if b.Length >= |data| {
        assert data[n..] == [];
        return;
      }
      offset := n;
      buf := Some(data);
    }

    method Drain(b: array<byte>) returns (n: nat)
      requires Valid() && buf.Some?
      modifies this, b
      ensures Valid() && n <= b.Length && n <= |old(Held())| && (n == 0 ==> b.Length == 0)
      ensures b[..n] == old(Held())[..n] && Held() == old(Held())[n..]
    {
      n := CopyOut(b, buf.value[offset..]);
      offset := offset + n;
      if offset == |buf.value| { buf := None; }
    }

    method Next(input: Buffer) returns (r: Opened)
      requires Valid()
      modifies input
      ensures var v := JudgeChunk(old(input.data));
              if v.Accepted? then r == Plain(v.payload) && v.size <= |old(input.data)| && input.data == old(input.data)[v.size..]
              else ErrorFor(v).Some? && r == Stop(ErrorFor(v).value) && |input.data| <= |old(input.data)|
    {
      hide Be16;
      ghost var before := input.data;
      if |input.data| < LEN_SIZE { input.Reset(); return Stop(Eof); }
      var sizeBuf := input.Next(LEN_SIZE);
      assert sizeBuf[0] == before[0] && sizeBuf[1] == before[1];
      var size := Be16(sizeBuf[0], sizeBuf[1]);
      if size > MAX_SIZE { return Stop(Bad(LengthError)); }
      if |input.data| < size { input.Reset(); return Stop(Eof); }
      var data := input.Next(size);
      assert before[LEN_SIZE..LEN_SIZE + size] == data && before[LEN_SIZE + size..] == input.data;
      r := Plain(data);
    }
  }

  lemma ChunkTurn(src: Bytes)
    ensures var v := JudgeChunk(src);
            v.Accepted? ==>
              LEN_SIZE <= v.size <= |src|
              && Pending(ChunkJudge(), (), [], src) == Pending(ChunkJudge(), (), v.payload, src[v.size..])
  {
    hide Be16;
  }

  method WriteAll(out: Buffer, writes: seq<Bytes>)
    modifies out
    ensures out.data == old(out.data) + SendAll(ChunkSender(), CutOf(CHUNK_SIZE), (), writes).wire
  {
    hide SendAll, Send, Pieces, Chunk;
    var w := new Writer();
    ghost var all := SendAll(ChunkSender(), CutOf(CHUNK_SIZE), (), writes);
    assert writes[0..] == writes;
    for i := 0 to |writes|
      invariant old(out.data) + all.wire == out.data + SendAll(ChunkSender(), CutOf(CHUNK_SIZE), (), writes[i..]).wire
    {
      SendNextWrite(ChunkSender(), CHUNK_SIZE, (), writes, i);
      assert Send(ChunkSender(), (), Pieces(writes[i], CHUNK_SIZE)).end == ();
      var _ := w.Write(out, writes[i]);
    }
    SendNextWrite(ChunkSender(), CHUNK_SIZE, (), writes, |writes|);
  }

  /** One read of a reader that is on track: it fails only at the end, when all has been delivered. */
  method ReadOnce(r: Reader, input: Buffer, size: nat) returns (bytes: Bytes, error: Option<ReadError>)
    requires r.Valid() && OnTrack(ChunkJudge(), (), input.data, ())
    modifies r, input
    ensures r.Valid() && OnTrack(ChunkJudge(), (), input.data, ())
    ensures Pending(ChunkJudge(), (), old(r.Held()), old(input.data)) == bytes + Pending(ChunkJudge(), (), r.Held(), input.data)
    ensures error.Some? ==> error == Some(Eof) && r.buf == None && input.data == []
    ensures old(r.buf) == None && old(input.data) == [] ==> r.buf == None && input.data == []
  {
    hide OnTrack, Pending, JudgeChunk;
    OnTheWay(input.data);
    var b := new byte[size](i => 0);
    var n;
    n, error := r.Read(input, b);
    bytes := b[..n];
  }

  lemma OnTheWay(input: Bytes)
    requires OnTrack(ChunkJudge(), (), input, ())
    ensures var v := JudgeChunk(input);
            if input == [] then v == Incomplete
            else v.Accepted? && v.size <= |input| && OnTrack(ChunkJudge(), (), input[v.size..], ())
  {
    hide Be16;
    TrackGoesOn(ChunkJudge(), (), input, ());
    assert JudgeChunk(input).Accepted? ==> JudgeChunk(input).next == ();
  }

  /** Any writes, then any reads: a prefix, and no error but the end of the input, at the end. */
  method WritesThenReads(writes: seq<Bytes>, sizes: seq<nat>)
    returns (got: Bytes, errors: seq<Option<ReadError>>, r: Reader, input: Buffer)
    ensures |errors| == |sizes| && got <= Concat(writes)
    ensures forall i :: 0 <= i < |errors| && errors[i].Some? ==> errors[i] == Some(Eof) && got == Concat(writes)
    ensures r.buf == None && input.data == [] ==> got == Concat(writes)
  {
    hide OnTrack, SendAll, Concat, JudgeChunk, Decode;
    input := new Buffer([]);
    WriteAll(input, writes);
    r := new Reader();
    Begins(writes, input.data);
    got, errors := [], [];
    for i := 0 to |sizes|
      invariant |errors| == i && r.Valid() && fresh(r) && fresh(input)
      invariant OnTrack(ChunkJudge(), (), input.data, ())
      invariant got + Pending(ChunkJudge(), (), r.Held(), input.data) == Concat(writes)
      invariant forall k :: 0 <= k < i && errors[k].Some? ==> errors[k] == Some(Eof) && r.buf == None && input.data == []
    {
      var bytes, error := ReadOnce(r, input, sizes[i]);
      got, errors := got + bytes, errors + [error];
    }
    if input.data == [] {
      NothingPending();
    }
  }

  lemma Begins(writes: seq<Bytes>, wire: Bytes)
    requires wire == [] + SendAll(ChunkSender(), CutOf(CHUNK_SIZE), (), writes).wire
    ensures OnTrack(ChunkJudge(), (), wire, ()) && Pending(ChunkJudge(), (), [], wire) == Concat(writes)
  {
    hide SendAll, Decode, JudgeChunk;
    PlainRoundTrip(writes);
    assert wire == SendAll(ChunkSender(), CutOf(CHUNK_SIZE), (), writes).wire;
    assert SendAll(ChunkSender(), CutOf(CHUNK_SIZE), (), writes).end == ();
  }

  lemma NothingPending()
    ensures Pending(ChunkJudge(), (), [], []) == []
  {
  }
}
