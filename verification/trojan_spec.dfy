/** The datagram frames of Trojan: address, length, CRLF, payload; long payloads are cut up. */
module TrojanSpec {
  import opened ByteCodec
  import opened Options
  import opened Socks5Addr

  const MAX_LENGTH := 8192
  const CRLF: Bytes := [13, 10]

  function Frame(addr: Bytes, payload: Bytes): Bytes { addr + PutBe16(|payload| % 0x1_0000) + CRLF + payload }

  function FramesOf(addr: Bytes, pieces: seq<Bytes>): Bytes
    decreases |pieces|
  {
    if |pieces| == 0 then [] else Frame(addr, pieces[0]) + FramesOf(addr, pieces[1..])
  }

  /** What a write puts on the wire: one frame, even for nothing, or the frames of the pieces. */
  function Wire(addr: Bytes, payload: Bytes): Bytes {
    if |payload| <= MAX_LENGTH then Frame(addr, payload) else FramesOf(addr, Pieces(payload, MAX_LENGTH))
  }

  datatype Packet = Packet(addr: Bytes, payload: Bytes)

  function WireAll(packets: seq<Packet>): Bytes
    decreases |packets|
  {
    if |packets| == 0 then [] else Wire(packets[0].addr, packets[0].payload) + WireAll(packets[1..])
  }

  // ---------- Reading ----------

  datatype Error = ShortBuffer | ReadAddr | ReadLength | Invalid | ReadCrlf | ReadPayload | Eof

  /** The front of a frame: whose payload follows, how long it is, and how many bytes came before it. */
  datatype Head = Head(addr: Option<UdpAddr>, total: nat, size: nat) | NoHead(error: Error)

  /** The two bytes before the payload are skipped, whatever they are. */
  function ParseHead(input: Bytes): (h: Head)
    ensures h.Head? ==> 0 < h.size <= |input| && h.total <= MAX_LENGTH
  {
    var a := SplitAddr(input);
    if a.None? then NoHead(ReadAddr)
    else
      var n := |a.value|;
      if |input| < n + 2 then NoHead(ReadLength)
      else
        var total := Be16(input[n], input[n + 1]);
        if total > MAX_LENGTH then NoHead(Invalid)
        else if |input| < n + 4 then NoHead(ReadCrlf)
        else Head(ToUdpAddr(a.value), total, n + 4)
  }

  /** A payload byte and the address it came from. */
  datatype Tagged = Tagged(value: byte, from: Option<UdpAddr>)

  function Tag(b: Bytes, from: Option<UdpAddr>): (t: seq<Tagged>)
    ensures |t| == |b|
  {
    seq(|b|, i requires 0 <= i < |b| => Tagged(b[i], from))
  }

  /** What a reader has still to deliver: the rest of the frame it is in, then the frames that follow. */
  function Left(remain: nat, from: Option<UdpAddr>, input: Bytes): seq<Tagged>
    decreases |input|, 1
  {
    if remain > |input| then Tag(input, from) else Tag(input[..remain], from) + FromFrames(input[remain..])
  }

  function FromFrames(input: Bytes): seq<Tagged>
    decreases |input|, 0
  {
    var h := ParseHead(input);
    if h.NoHead? then [] else Left(h.total, h.addr, input[h.size..])
  }

  /** Part of the current frame is delivered. */
  lemma LeftSplits(remain: nat, from: Option<UdpAddr>, input: Bytes, n: nat)
    requires n <= remain && n <= |input|
    ensures Left(remain, from, input) == Tag(input[..n], from) + Left(remain - n, from, input[n..])
  {
    hide FromFrames;
    if remain <= |input| {
      assert input[n..][..remain - n] == input[n..remain] && input[n..][remain - n..] == input[remain..];
      assert Tag(input[..remain], from) == Tag(input[..n], from) + Tag(input[n..remain], from);
    } else {
      assert Tag(input, from) == Tag(input[..n], from) + Tag(input[n..], from);
    }
  }

  lemma FrameHead(addr: Addr, payload: Bytes, more: Bytes)
    requires |payload| <= MAX_LENGTH
    ensures var input := Frame(addr, payload) + more;
            ParseHead(input) == Head(ToUdpAddr(addr), |payload|, |addr| + 4)
            && input[|addr| + 4..] == payload + more
  {
    hide PutBe16, Be16, ToUdpAddr, WellFormed;
    var input := Frame(addr, payload) + more;
    var size := PutBe16(|payload|);
    assert input == addr + (size + CRLF + payload + more);
    assert input[|addr|] == size[0] && input[|addr| + 1] == size[1];
    Put16RoundTrip(|payload|);
    assert addr <= input;
    SplitFindsTheAddress(input, addr);
  }

  /** One frame is read back whole, tagged with its address. */
  lemma FrameIsDelivered(addr: Addr, payload: Bytes, more: Bytes)
    requires |payload| <= MAX_LENGTH
    ensures FromFrames(Frame(addr, payload) + more) == Tag(payload, ToUdpAddr(addr)) + FromFrames(more)
  {
    hide ParseHead, Frame, ToUdpAddr;
    FrameHead(addr, payload, more);
    assert (payload + more)[..|payload|] == payload && (payload + more)[|payload|..] == more;
  }

  lemma {:induction false} FramesAreDelivered(addr: Addr, pieces: seq<Bytes>, more: Bytes)
    requires forall i :: 0 <= i < |pieces| ==> |pieces[i]| <= MAX_LENGTH
    ensures FromFrames(FramesOf(addr, pieces) + more) == Tag(Concat(pieces), ToUdpAddr(addr)) + FromFrames(more)
    decreases |pieces|
  {
    hide FromFrames, Frame, ToUdpAddr;
    if |pieces| == 0 {
      assert FramesOf(addr, pieces) + more == more;
      assert Tag([], ToUdpAddr(addr)) == [];
    } else {
      var rest := FramesOf(addr, pieces[1..]) + more;
      assert FramesOf(addr, pieces) + more == Frame(addr, pieces[0]) + rest;
      FrameIsDelivered(addr, pieces[0], rest);
      FramesAreDelivered(addr, pieces[1..], more);
      assert Tag(Concat(pieces), ToUdpAddr(addr)) == Tag(pieces[0], ToUdpAddr(addr)) + Tag(Concat(pieces[1..]), ToUdpAddr(addr));
    }
  }

  lemma WireIsDelivered(addr: Addr, payload: Bytes, more: Bytes)
    ensures FromFrames(Wire(addr, payload) + more) == Tag(payload, ToUdpAddr(addr)) + FromFrames(more)
  {
    hide FromFrames, Frame, FramesOf, Pieces, ToUdpAddr;
    if |payload| <= MAX_LENGTH {
      FrameIsDelivered(addr, payload, more);
    } else {
      PiecesFit(payload);
      PiecesKeepBytes(payload, MAX_LENGTH);
      FramesAreDelivered(addr, Pieces(payload, MAX_LENGTH), more);
    }
  }

  lemma PiecesFit(payload: Bytes)
    ensures forall i :: 0 <= i < |Pieces(payload, MAX_LENGTH)| ==> 0 < |Pieces(payload, MAX_LENGTH)[i]| <= MAX_LENGTH
  {
  }

  function AllTagged(packets: seq<Packet>): seq<Tagged>
    requires forall i :: 0 <= i < |packets| ==> WellFormed(packets[i].addr)
    decreases |packets|
  {
    if |packets| == 0 then [] else Tag(packets[0].payload, ToUdpAddr(packets[0].addr)) + AllTagged(packets[1..])
  }

  /** The round trip: every byte of every packet, in order, with the address it was sent for. */
  lemma {:induction false} PacketsRoundTrip(packets: seq<Packet>)
    requires forall i :: 0 <= i < |packets| ==> WellFormed(packets[i].addr)
    ensures FromFrames(WireAll(packets)) == AllTagged(packets)
    decreases |packets|
  {
    hide Wire, ToUdpAddr;
    if |packets| > 0 {
      hide FromFrames;
      PacketsRoundTrip(packets[1..]);
      WireIsDelivered(packets[0].addr, packets[0].payload, WireAll(packets[1..]));
    }
  }

  // ---------- Streams of whole frames ----------

  /** Frame after frame, each with all of its payload. */
  predicate Whole(input: Bytes)
    decreases |input|
  {
    input == []
    || var h := ParseHead(input);
       h.Head? && h.size + h.total <= |input| && Whole(input[h.size + h.total..])
  }

  /** The rest of a frame, then whole frames. */
  predicate WholeAfter(remain: nat, input: Bytes) { remain <= |input| && Whole(input[remain..]) }

  lemma FrameIsWhole(addr: Addr, payload: Bytes, more: Bytes)
    requires |payload| <= MAX_LENGTH && Whole(more)
    ensures Whole(Frame(addr, payload) + more)
  {
    hide ParseHead, Frame, ToUdpAddr;
    var input := Frame(addr, payload) + more;
    FrameHead(addr, payload, more);
    var n := |addr| + 4;
    assert input[n..][|payload|..] == more;
    assert input[n + |payload|..] == input[n..][|payload|..];
    assert |input[n..]| == |payload| + |more|;
  }

  lemma {:induction false} FramesAreWhole(addr: Addr, pieces: seq<Bytes>, more: Bytes)
    requires (forall i :: 0 <= i < |pieces| ==> |pieces[i]| <= MAX_LENGTH) && Whole(more)
    ensures Whole(FramesOf(addr, pieces) + more)
    decreases |pieces|
  {
    hide Whole, Frame;
    if |pieces| == 0 {
      assert FramesOf(addr, pieces) + more == more;
    } else {
      var rest := FramesOf(addr, pieces[1..]) + more;
      assert FramesOf(addr, pieces) + more == Frame(addr, pieces[0]) + rest;
      FramesAreWhole(addr, pieces[1..], more);
      FrameIsWhole(addr, pieces[0], rest);
    }
  }

  lemma {:induction false} WireIsWhole(packets: seq<Packet>)
    requires forall i :: 0 <= i < |packets| ==> WellFormed(packets[i].addr)
    ensures Whole(WireAll(packets))
    decreases |packets|
  {
    hide Frame, FramesOf, Pieces;
    if |packets| > 0 {
      hide Whole;
      var p, more := packets[0], WireAll(packets[1..]);
      WireIsWhole(packets[1..]);
      if |p.payload| <= MAX_LENGTH {
        FrameIsWhole(p.addr, p.payload, more);
      } else {
        PiecesFit(p.payload);
        FramesAreWhole(p.addr, Pieces(p.payload, MAX_LENGTH), more);
      }
    }
  }

  /** Whole frames whose payloads come to nothing may still be frames; only their bytes are counted. */
  lemma NothingLeftOfNothing(from: Option<UdpAddr>)
    ensures Left(0, from, []) == []
  {
  }

  /** A frame byte by byte: address, length with the high byte first, CR and LF, payload. */
  lemma FrameOnTheWire(addr: Bytes, payload: Bytes)
    requires |payload| < 0x1_0000
    ensures Frame(addr, payload) == addr + [|payload| / 256, |payload| % 256, 13, 10] + payload
  {
    assert PutBe16(|payload|) + CRLF == [|payload| / 256, |payload| % 256, 13, 10];
  }

  /** What a write sends: one frame up to 8192 bytes, even of nothing, and else full frames of 8192 and one
      that holds the rest. */
  lemma {:induction false} WireOfWrite(addr: Bytes, payload: Bytes)
    ensures |payload| <= 8192 ==> Wire(addr, payload) == Frame(addr, payload)
    ensures |payload| > 8192 ==> Wire(addr, payload) == Frame(addr, payload[..8192]) + Wire(addr, payload[8192..])
    decreases |payload|
  {
    hide Frame;
    if |payload| > 8192 {
      var rest := payload[8192..];
      assert Pieces(payload, MAX_LENGTH)[1..] == Pieces(rest, MAX_LENGTH);
      if |rest| <= 8192 {
        var one: seq<Bytes> := [rest];
        assert Pieces(rest, MAX_LENGTH) == one;
        assert FramesOf(addr, one) == Frame(addr, rest) + FramesOf(addr, one[1..]);
      }
    }
  }

  /** What can be wrong with the front of a frame, in the order of the bytes. */
  lemma HeadErrors(input: Bytes, addr: Bytes)
    requires WellFormed(addr) && addr <= input
    ensures var n, left := |addr|, |input| - |addr|;
            ParseHead(input) ==
            if left < 2 then NoHead(ReadLength)
            else
              var total := 256 * input[n] as int + input[n + 1];
              if total > 8192 then NoHead(Invalid) else if left < 4 then NoHead(ReadCrlf) else Head(ToUdpAddr(addr), total, n + 4)
  {
    SplitFindsTheAddress(input, addr);
  }

  lemma NoAddressNoHead(input: Bytes)
    ensures ParseHead(input) == NoHead(ReadAddr) <==> forall n :: 0 <= n <= |input| ==> !WellFormed(input[..n])
  {
    hide WellFormed, ToUdpAddr;
    if n :| 0 <= n <= |input| && WellFormed(input[..n]) { SplitFindsTheAddress(input, input[..n]); }
    var a := SplitAddr(input);
    if a.Some? { assert input[..|a.value|] == a.value; }
  }
}
