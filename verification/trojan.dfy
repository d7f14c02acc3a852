/** transport/trojan/trojan.go: writing and reading datagrams over a stream. */
module Trojan {
  import opened ByteCodec
  import opened Options
  import opened Socks5Addr
  import Spec = TrojanSpec
  import opened TrojanSpec

  /** writePacket: reports the length of the frame, not that of the payload. */
  method WriteFrame(w: Buffer, addr: Bytes, payload: Bytes) returns (n: nat)
    modifies w
    ensures w.data == old(w.data) + Frame(addr, payload) && n == |addr| + 4 + |payload|
  {
    hide PutBe16;
    var buf := new Buffer([]);
    buf.Write(addr);
    buf.Write(PutBe16(|payload| % 0x1_0000));
    buf.Write(CRLF);
    buf.Write(payload);
    w.Write(buf.data);
    n := |buf.data|;
  }

  /** A payload that fits one frame is reported with the frame's length, a longer one with its own: the
      count is what a caller of WriteTo expects exactly for the longer ones. */
  method WritePacket(w: Buffer, addr: Bytes, payload: Bytes) returns (n: nat)
    modifies w
    ensures w.data == old(w.data) + Wire(addr, payload)
    ensures n == if |payload| <= MAX_LENGTH then |addr| + 4 + |payload| else |payload|
    ensures n == |payload| <==> |payload| > MAX_LENGTH
  {
    hide Frame, Pieces, FramesOf;
    if |payload| <= MAX_LENGTH {
      n := WriteFrame(w, addr, payload);
      return;
    }
    var offset := 0;
    var total := |payload|;
    ghost var all := FramesOf(addr, Pieces(payload, MAX_LENGTH));
    assert payload[0..] == payload;
    while true
      invariant offset < total
      invariant old(w.data) + all == w.data + FramesOf(addr, Pieces(payload[offset..], MAX_LENGTH))
      decreases total - offset
    {
      var cursor := offset + MAX_LENGTH;
      if cursor > total { cursor := total; }
      NextPiece(addr, payload[offset..], payload[offset..cursor], payload[cursor..]);
      var _ := WriteFrame(w, addr, payload[offset..cursor]);
      offset := cursor;
      if offset == total { break; }
    }
    assert payload[total..] == [];
    n := total;
  }

  lemma NextPiece(addr: Bytes, b: Bytes, piece: Bytes, rest: Bytes)
    requires |b| > 0 && b == piece + rest && |piece| == if |b| > MAX_LENGTH then MAX_LENGTH else |b|
    ensures FramesOf(addr, Pieces(b, MAX_LENGTH)) == Frame(addr, piece) + FramesOf(addr, Pieces(rest, MAX_LENGTH))
    ensures |rest| == 0 ==> FramesOf(addr, Pieces(rest, MAX_LENGTH)) == []
  {
    hide Frame;
    if |b| > MAX_LENGTH {
      assert b[..MAX_LENGTH] == piece && b[MAX_LENGTH..] == rest;
      assert Pieces(b, MAX_LENGTH)[1..] == Pieces(rest, MAX_LENGTH);
    } else {
      assert piece == b && rest == [];
      assert Pieces(b, MAX_LENGTH)[1..] == [];
    }
  }

  /** Reads the head of a frame and as much of its payload as there is room for. The address is copied
      before the buffer it was read into is used again. */
  method ReadPacket(r: Buffer, payload: array<byte>)
    returns (addr: Option<UdpAddr>, n: nat, remain: nat, error: Option<Spec.Error>)
    modifies r, payload
    ensures payload.Length < MAX_ADDR_LEN ==> error == Some(Spec.Error.ReadAddr) && r.data == old(r.data)
    ensures |r.data| <= |old(r.data)|
    ensures payload.Length >= MAX_ADDR_LEN ==>
              var h := ParseHead(old(r.data));
              (error == None <==> h.Head? && |old(r.data)| - h.size >= Smaller(h.total, payload.Length))
              && (h.NoHead? ==> error == Some(h.error))
              && (h.Head? && error.Some? ==> error == Some(ReadPayload))
              && (error == None ==>
                    addr == h.addr && n == Smaller(h.total, payload.Length) && remain == h.total - n
                    && payload[..n] == old(r.data)[h.size..h.size + n] && r.data == old(r.data)[h.size + n..])
  {
    hide ParseHead;
    n, remain := 0, 0;
    ghost var input := r.data;
    var total;
    addr, total, error := ReadHead(r, payload);
    if error.Some? { return; }
    ghost var after := r.data;
    var length := payload.Length;
    if total < length { length := total; }
    var ok := ReadFull(r, payload, 0, length);
    if !ok { return addr, 0, 0, Some(ReadPayload); }
    assert payload[..length] == payload[..][..length] == after[..length];
    n, remain := length, total - length;
  }

  /** The address, the length and two bytes that are not looked at. */
  method ReadHead(r: Buffer, payload: array<byte>) returns (addr: Option<UdpAddr>, total: nat, error: Option<Spec.Error>)
    modifies r, payload
    ensures payload.Length < MAX_ADDR_LEN ==> error == Some(Spec.Error.ReadAddr) && r.data == old(r.data)
    ensures |r.data| <= |old(r.data)|
    ensures payload.Length >= MAX_ADDR_LEN ==>
              var h := ParseHead(old(r.data));
              if h.NoHead? then error == Some(h.error)
              else error == None && addr == h.addr && total == h.total && r.data == old(r.data)[h.size..]
  {
    hide Be16, WellFormed, ToUdpAddr, SplitAddr;
    addr, total, error := None, 0, None;
    ghost var input := r.data;
    var size, e := Socks5Addr.ReadAddr(r, payload);
    if e.Some? { return addr, total, Some(Spec.Error.ReadAddr); }
    addr := ToUdpAddr(payload[..size]);
    var ok := ReadFull(r, payload, 0, 2);
    if !ok { return addr, total, Some(ReadLength); }
    assert payload[0] == payload[..][0] == input[size] && payload[1] == payload[..][1] == input[size + 1];
    total := Be16(payload[0], payload[1]);
    if total > MAX_LENGTH { return addr, total, Some(Invalid); }
    ok := ReadFull(r, payload, 0, 2);
    if !ok { return addr, total, Some(ReadCrlf); }
    assert r.data == input[size + 4..];
  }

  class PacketConn {
    const conn: Buffer
    var remain: nat
    var rAddr: Option<UdpAddr>

    constructor (conn: Buffer)
      ensures this.conn == conn && remain == 0
    {
      this.conn, remain, rAddr := conn, 0, None;
    }

    /** What has still to be delivered. */
    ghost function Todo(): seq<Tagged>
      reads this, conn
    {
      Left(remain, rAddr, conn.data)
    }

    /** Nothing lost, nothing twice, every byte with the address of its frame. `ready` is how many bytes a
        plain read of the connection finds, when one is made. */
    method ReadFrom(b: array<byte>, ready: nat) returns (n: nat, addr: Option<UdpAddr>, error: Option<Spec.Error>)
      modifies this, conn, b
      ensures n <= b.Length
      ensures error == None ==> old(Todo()) == Tag(b[..n], addr) + Todo()
      ensures error == None && old(remain) > 0 ==> n + remain == old(remain) && n <= |old(conn.data)| && conn.data == old(conn.data)[n..]
      ensures error == None && old(remain) == 0 ==>
                var h := ParseHead(old(conn.data));
                h.Head? && n == Smaller(h.total, b.Length) && remain == h.total - n
                && h.size + n <= |old(conn.data)| && conn.data == old(conn.data)[h.size + n..]
      ensures b.Length < MAX_ADDR_LEN && old(remain) == 0 ==> error == Some(Spec.Error.ReadAddr) && conn.data == old(conn.data)
      ensures old(conn.data) == [] ==> conn.data == []
      ensures old(remain) == 0 && b.Length >= MAX_ADDR_LEN && ParseHead(old(conn.data)).NoHead? ==>
                error == Some(ParseHead(old(conn.data)).error)
      ensures error == None && b.Length > 0 && ready > 0 && n == 0 ==> old(remain) == 0 && remain == 0 && |conn.data| < |old(conn.data)|
      ensures error == None && remain > 0 ==> rAddr == addr
      ensures error.Some? ==> n == 0 && remain == old(remain)
      ensures old(remain) > 0 ==> (error.Some? <==> old(conn.data) == [] && b.Length > 0)
      ensures old(remain) == 0 && b.Length >= MAX_ADDR_LEN ==>
                (error == None <==> var h := ParseHead(old(conn.data));
                                    h.Head? && |old(conn.data)| - h.size >= Smaller(h.total, b.Length))
    {
      hide ParseHead, FromFrames, Left;
      if remain != 0 {
        n, addr, error := ReadRemainder(b, ready);
        return;
      }
      ghost var input := conn.data;
      var left;
      addr, n, left, error := ReadPacket(conn, b);
      if error.Some? { return 0, None, error; }
      FrameStarts(input, rAddr, n);
      if left != 0 {
        remain := left;
        rAddr := addr;
      } else {
        NothingRemains(addr, rAddr, conn.data);
      }
    }

    method ReadRemainder(b: array<byte>, ready: nat) returns (n: nat, addr: Option<UdpAddr>, error: Option<Spec.Error>)
      requires remain > 0
      modifies this, conn, b
      ensures n <= b.Length
      ensures error == None ==> old(Todo()) == Tag(b[..n], addr) + Todo() && n + remain == old(remain)
      ensures error == None ==> n <= |old(conn.data)| && conn.data == old(conn.data)[n..]
      ensures error.Some? ==> conn.data == old(conn.data)
      ensures error == None && b.Length > 0 && ready > 0 ==> n > 0
      ensures error == None && remain > 0 ==> rAddr == addr
      ensures error.Some? ==> n == 0 && remain == old(remain)
      ensures error.Some? <==> old(conn.data) == [] && b.Length > 0
    {
      hide FromFrames, Left;
      var length := b.Length;
      if remain < length { length := remain; }
      if |conn.data| == 0 && length > 0 { return 0, None, Some(Spec.Error.Eof); }
      LeftSplits(remain, rAddr, conn.data, Smaller(Smaller(length, ready), |conn.data|));
      n := Smaller(Smaller(length, ready), |conn.data|);
      var got := conn.Next(n);
      forall i | 0 <= i < n { b[i] := got[i]; }
      assert b[..n] == got;
      remain := remain - n;
      addr, error := rAddr, None;
      if remain == 0 {
        NothingRemains(rAddr, None, conn.data);
        rAddr := None;
      }
    }
  }

  /** One read: the buffer offered, and what a plain read of the connection finds if one is made. */
  datatype Attempt = Attempt(size: nat, ready: nat)

  /** Any reads on the wire of any packets. What they yield is a prefix of the packets' bytes, each with
      its packet's address. A read fails only between two frames, for want of room for an address or
      because everything has been delivered, and a failed read changes nothing. */
  method ReadAll(packets: seq<Packet>, attempts: seq<Attempt>) returns (got: seq<Tagged>, ends: seq<Option<Spec.Error>>, last: PacketConn)
    requires forall i :: 0 <= i < |packets| ==> WellFormed(packets[i].addr)
    ensures fresh(last) && fresh(last.conn) && |ends| == |attempts|
    ensures got + last.Todo() == AllTagged(packets) && WholeAfter(last.remain, last.conn.data)
    ensures forall i :: 0 <= i < |ends| && ends[i].Some? ==>
              ends[i] == Some(Spec.Error.ReadAddr) && (attempts[i].size < MAX_ADDR_LEN || got == AllTagged(packets))
    ensures last.remain == 0 && last.conn.data == [] ==> got == AllTagged(packets)
  {
    hide Whole, Left, FromFrames, WireAll, AllTagged, Tag;
    var wire := WireOf(packets);
    var conn := new Buffer(wire);
    last := new PacketConn(conn);
    StartsWhole(packets, last.rAddr);
    got, ends := [], [];
    assert got + last.Todo() == AllTagged(packets);
    for i := 0 to |attempts|
      invariant |ends| == i && fresh(last) && fresh(last.conn)
      invariant got + last.Todo() == AllTagged(packets) && WholeAfter(last.remain, last.conn.data)
      invariant forall k :: 0 <= k < i && ends[k].Some? ==>
                  ends[k] == Some(Spec.Error.ReadAddr)
                  && (attempts[k].size < MAX_ADDR_LEN || (last.remain == 0 && last.conn.data == []))
    {
      var b := new byte[attempts[i].size](k => 0);
      var bytes, end := ReadOnce(last, b, attempts[i].ready);
      got, ends := got + bytes, ends + [end];
    }
    NothingLeftOfNothing(last.rAddr);
    assert last.remain == 0 && last.conn.data == [] ==> got + [] == got;
  }

  /** The wire of all packets, put together by WritePacket. */
  method WireOf(packets: seq<Packet>) returns (wire: Bytes)
    ensures wire == WireAll(packets)
  {
    hide Wire;
    var w := new Buffer([]);
    assert packets[0..] == packets;
    for i := 0 to |packets|
      invariant fresh(w) && w.data + WireAll(packets[i..]) == WireAll(packets)
    {
      assert packets[i..][1..] == packets[i + 1..];
      var _ := WritePacket(w, packets[i].addr, packets[i].payload);
    }
    wire := w.data;
  }

  lemma StartsWhole(packets: seq<Packet>, from: Option<UdpAddr>)
    requires forall i :: 0 <= i < |packets| ==> WellFormed(packets[i].addr)
    ensures WholeAfter(0, WireAll(packets)) && Left(0, from, WireAll(packets)) == AllTagged(packets)
  {
    hide Whole, FromFrames;
    PacketsRoundTrip(packets);
    WireIsWhole(packets);
    NothingRemains(from, from, WireAll(packets));
    assert WireAll(packets)[0..] == WireAll(packets);
  }

  /** One read of a connection that has whole frames before it. */
  method ReadOnce(pc: PacketConn, b: array<byte>, ready: nat) returns (bytes: seq<Tagged>, end: Option<Spec.Error>)
    requires WholeAfter(pc.remain, pc.conn.data)
    modifies pc, pc.conn, b
    ensures old(pc.Todo()) == bytes + pc.Todo() && WholeAfter(pc.remain, pc.conn.data)
    ensures end.Some? ==> end == Some(Spec.Error.ReadAddr) && (b.Length < MAX_ADDR_LEN || (pc.remain == 0 && pc.conn.data == []))
    ensures old(pc.remain) == 0 && old(pc.conn.data) == [] ==> pc.remain == 0 && pc.conn.data == []
  {
    hide Whole, Left, FromFrames, ParseHead, Tag;
    ghost var input, remain, from := pc.conn.data, pc.remain, pc.rAddr;
    WholeReads(remain, input, b.Length);
    var n, addr, e := pc.ReadFrom(b, ready);
    if e.Some? {
      NothingRemains(from, pc.rAddr, pc.conn.data);
      return [], e;
    }
    bytes, end := Tag(b[..n], addr), None;
    WholeGoesOn(remain, input, b.Length, n);
  }

  /** Between frames with whole ones ahead, the next read finds a head and its payload, unless nothing
      is left. */
  lemma WholeReads(remain: nat, input: Bytes, size: nat)
    requires WholeAfter(remain, input)
    ensures remain == 0 && input != [] ==> var h := ParseHead(input); h.Head? && |input| - h.size >= Smaller(h.total, size)
    ensures input == [] ==> remain == 0 && ParseHead(input) == NoHead(Spec.Error.ReadAddr)
  {
    hide ParseHead;
    assert input[0..] == input;
    NoHeadOfNothing();
  }

  lemma NoHeadOfNothing()
    ensures ParseHead([]) == NoHead(Spec.Error.ReadAddr)
  {
  }

  lemma WholeGoesOn(remain: nat, input: Bytes, size: nat, n: nat)
    requires WholeAfter(remain, input)
    ensures remain > 0 && n <= remain ==> WholeAfter(remain - n, input[n..])
    ensures var h := ParseHead(input);
            remain == 0 && h.Head? && n <= h.total && h.size + n <= |input| ==> WholeAfter(h.total - n, input[h.size + n..])
  {
    hide ParseHead;
    if remain > 0 {
      if n <= remain {
        assert input[n..][remain - n..] == input[remain..];
      }
    } else {
      var h := ParseHead(input);
      assert input[0..] == input;
      NoHeadOfNothing();
      if h.Head? && n <= h.total && h.size + n <= |input| {
        assert input[h.size + n..][h.total - n..] == input[h.size + h.total..];
      }
    }
  }

  function Smaller(a: nat, b: nat): nat { if a < b then a else b }

  /** What a reader between two frames has to deliver does not depend on the address it remembers. */
  lemma NothingRemains(a: Option<UdpAddr>, b: Option<UdpAddr>, input: Bytes)
    ensures Left(0, a, input) == Left(0, b, input) == FromFrames(input)
  {
    hide FromFrames;
    assert input[0..] == input;
  }

  lemma FrameStarts(input: Bytes, from: Option<UdpAddr>, n: nat)
    requires var h := ParseHead(input); h.Head? && n <= h.total && h.size + n <= |input|
    ensures var h := ParseHead(input);
            Left(0, from, input) == Tag(input[h.size..h.size + n], h.addr) + Left(h.total - n, h.addr, input[h.size + n..])
  {
    hide ParseHead, Left;
    var h := ParseHead(input);
    NothingRemains(from, from, input);
    LeftSplits(h.total, h.addr, input[h.size..], n);
    assert input[h.size..][..n] == input[h.size..h.size + n] && input[h.size..][n..] == input[h.size + n..];
  }
}
