/** transport/socks5/socks5.go: addresses (section 5 of RFC 1928) and the datagram header (section 7). */
module Socks5Addr {
  import opened ByteCodec
  import opened Options

  const ATYP_IPV4 := 1
  const ATYP_DOMAIN := 3
  const ATYP_IPV6 := 4
  const MAX_ADDR_LEN := 1 + 1 + 255 + 2

  datatype Error = Eof | ShortBuffer | AddressNotSupported

  /** How long an address is, judged by its first byte, and by its second one for a name. */
  function AddrLength(b: Bytes): Option<nat>
    requires |b| > 0
  {
    if b[0] == ATYP_DOMAIN then (if |b| < 2 then None else Some(1 + 1 + b[1] as nat + 2))
    else if b[0] == ATYP_IPV4 then Some(1 + 4 + 2)
    else if b[0] == ATYP_IPV6 then Some(1 + 16 + 2)
    else None
  }

  /** A whole address and nothing else. */
  predicate WellFormed(a: Bytes) { |a| > 0 && AddrLength(a) == Some(|a|) }

  type Addr = a: Bytes | WellFormed(a) witness [1, 0, 0, 0, 0, 0, 0]

  function SplitAddr(b: Bytes): (a: Option<Bytes>)
    ensures a.Some? ==> WellFormed(a.value) && a.value <= b
  {
    if |b| < 1 || AddrLength(b) == None || |b| < AddrLength(b).value then None
    else
      assert AddrLength(b[..AddrLength(b).value]) == AddrLength(b);
      Some(b[..AddrLength(b).value])
  }

  /** Exactly the inputs that begin with an address are split, and there is only one way to. */
  lemma SplitFindsTheAddress(b: Bytes, a: Bytes)
    requires WellFormed(a)
    ensures a <= b <==> SplitAddr(b) == Some(a)
  {
    if a <= b {
      assert b[..|a|] == a;
      assert b[0] == a[0] && (|a| > 1 ==> b[1] == a[1]);
    }
  }

  datatype UdpAddr = UdpAddr(ip: Bytes, port: u16)

  function ToUdpAddr(a: Addr): (u: Option<UdpAddr>)
    ensures u == None <==> a[0] == ATYP_DOMAIN
  {
    if a[0] == ATYP_IPV4 then Some(UdpAddr(a[1..5], Be16(a[5], a[6])))
    else if a[0] == ATYP_IPV6 then Some(UdpAddr(a[1..17], Be16(a[17], a[18])))
    else None
  }

  function FromUdpAddr(u: UdpAddr): Bytes {
    [if |u.ip| == 4 then ATYP_IPV4 else ATYP_IPV6] + u.ip + PutBe16(u.port)
  }

  /** An IP address and port survive the encoding, and an encoded one survives the decoding. */
  lemma UdpAddrRoundTrip(u: UdpAddr, a: Addr)
    requires |u.ip| == 4 || |u.ip| == 16
    ensures WellFormed(FromUdpAddr(u)) && ToUdpAddr(FromUdpAddr(u)) == Some(u)
    ensures ToUdpAddr(a).Some? ==> FromUdpAddr(ToUdpAddr(a).value) == a
  {
    hide PutBe16, Be16;
    Put16RoundTrip(u.port);
    var b := FromUdpAddr(u);
    var n := |u.ip|;
    assert b[n + 1..] == PutBe16(u.port) && b[1..n + 1] == u.ip;
    if a[0] != ATYP_DOMAIN {
      var k := if a[0] == ATYP_IPV4 then 5 else 17;
      Be16RoundTrip(a[k], a[k + 1]);
      assert a == [a[0]] + a[1..k] + [a[k], a[k + 1]];
    }
  }

  /** The three kinds of address: four bytes, a name with its length in front, or sixteen bytes, each with a
      port behind it. */
  lemma AddressOnTheWire(a: Bytes)
    ensures WellFormed(a) <==>
              (|a| == 7 && a[0] == 1) || (|a| == 19 && a[0] == 4) || (|a| >= 4 && a[0] == 3 && |a| == 1 + 1 + a[1] as nat + 2)
    ensures WellFormed(a) && a[0] != 3 ==>
              ToUdpAddr(a) == Some(UdpAddr(a[1..|a| - 2], 256 * a[|a| - 2] as int + a[|a| - 1]))
  {
  }

  /** io.ReadFull into b[lo..lo + n]; an input that ends early is used up. */
  method ReadFull(r: Buffer, b: array<byte>, lo: nat, n: nat) returns (ok: bool)
    requires lo + n <= b.Length
    modifies r, b
    ensures ok == (n <= |old(r.data)|)
    ensures ok ==> b[..] == old(b[..lo]) + old(r.data)[..n] + old(b[lo + n..]) && r.data == old(r.data)[n..]
    ensures !ok ==> r.data == []
  {
    if |r.data| < n {
      r.Reset();
      return false;
    }
    var got := r.Next(n);
    forall i | 0 <= i < n { b[lo + i] := got[i]; }
    ok := true;
  }

  /** Reads an address into the front of `b` and returns its length there. */
  method ReadAddr(r: Buffer, b: array<byte>) returns (n: nat, error: Option<Error>)
    modifies r, b
    ensures b.Length < MAX_ADDR_LEN ==> error == Some(ShortBuffer) && r.data == old(r.data)
    ensures b.Length >= MAX_ADDR_LEN ==>
              (error == None <==> SplitAddr(old(r.data)).Some?)
              && (error == Some(AddressNotSupported) <==> |old(r.data)| > 0 && old(r.data)[0] !in {ATYP_IPV4, ATYP_DOMAIN, ATYP_IPV6})
    ensures |r.data| <= |old(r.data)|
    ensures error == None ==>
              n <= MAX_ADDR_LEN <= b.Length && SplitAddr(old(r.data)) == Some(b[..n]) && old(r.data) == b[..n] + r.data
  {
    hide SplitAddr, AddrLength;
    if b.Length < MAX_ADDR_LEN { return 0, Some(ShortBuffer); }
    ghost var input := r.data;
    var head, rest, e := ReadHead(r, b);
    n, error := head, e;
    SplitMeans(input);
    if error.Some? { return; }
    ghost var front := b[..head];
    var ok := ReadFull(r, b, head, rest);
    n := head + rest;
    if !ok { return n, Some(Eof); }
    assert b[..n] == b[..][..n] == front + input[head..n] == input[..n];
  }

  /** The first byte, and the length of a name: how many bytes have been read and how many follow. */
  method ReadHead(r: Buffer, b: array<byte>) returns (head: nat, rest: nat, error: Option<Error>)
    requires b.Length >= MAX_ADDR_LEN
    modifies r, b
    ensures |r.data| <= |old(r.data)|
    ensures var input := old(r.data);
            if |input| == 0 then error == Some(Eof)
            else if input[0] !in {ATYP_IPV4, ATYP_DOMAIN, ATYP_IPV6} then error == Some(AddressNotSupported)
            else if AddrLength(input).None? then error == Some(Eof)
            else
              error == None && head + rest == AddrLength(input).value <= MAX_ADDR_LEN
              && head <= |input| && b[..head] == input[..head] && r.data == input[head..]
  {
    ghost var input := r.data;
    head, rest, error := 1, 0, None;
    var ok := ReadFull(r, b, 0, 1);
    if !ok { return 0, 0, Some(Eof); }
    assert b[0] == b[..][0] == input[0];
    if b[0] == ATYP_DOMAIN {
      ok := ReadFull(r, b, 1, 1);
      if !ok { return 0, 0, Some(Eof); }
      assert b[1] == b[..][1] == input[1] && b[0] == b[..][0];
      head, rest := 2, b[1] as nat + 2;
    } else if b[0] == ATYP_IPV4 {
      rest := 4 + 2;
    } else if b[0] == ATYP_IPV6 {
      rest := 16 + 2;
    } else {
      return 0, 0, Some(AddressNotSupported);
    }
  }

  lemma SplitMeans(b: Bytes)
    ensures SplitAddr(b).Some? <==> |b| > 0 && AddrLength(b).Some? && AddrLength(b).value <= |b|
    ensures SplitAddr(b).Some? ==> SplitAddr(b).value == b[..AddrLength(b).value]
    ensures |b| > 0 && AddrLength(b).Some? ==> b[0] in {ATYP_IPV4, ATYP_DOMAIN, ATYP_IPV6}
  {
  }

  // ---------- Datagrams ----------

  datatype UdpError = Insufficient | ReservedNotZero | Fragmented | NoHeader

  datatype Datagram = Datagram(addr: Bytes, payload: Bytes)

  function EncodeUdpPacket(addr: Bytes, payload: Bytes): Bytes { [0, 0, 0] + addr + payload }

  function DecodeUdpPacket(packet: Bytes): (Option<Datagram>, Option<UdpError>) {
    if |packet| < 5 then (None, Some(Insufficient))
    else if packet[..2] != [0, 0] then (None, Some(ReservedNotZero))
    else if packet[2] != 0 then (None, Some(Fragmented))
    else
      var addr := SplitAddr(packet[3..]);
      if addr == None then (None, Some(NoHeader)) else (Some(Datagram(addr.value, packet[3 + |addr.value|..])), None)
  }

  /** What is wrong with a packet that is not decoded: too short, reserved bytes set, a fragment, or no address
      behind the first three bytes. */
  lemma UdpErrors(packet: Bytes)
    ensures var e := DecodeUdpPacket(packet).1;
            (e == Some(Insufficient) <==> |packet| < 5)
            && (|packet| >= 5 ==>
                  (e == Some(ReservedNotZero) <==> packet[0] != 0 || packet[1] != 0)
                  && (e == Some(Fragmented) <==> packet[0] == packet[1] == 0 && packet[2] != 0)
                  && (e == Some(NoHeader) <==>
                        packet[..3] == [0, 0, 0] && forall n :: 0 <= n <= |packet| - 3 ==> !WellFormed(packet[3..][..n]))
                  && (e == None <==> packet[..3] == [0, 0, 0] && exists n :: 0 <= n <= |packet| - 3 && WellFormed(packet[3..][..n])))
  {
    if |packet| >= 5 {
      var rest := packet[3..];
      assert packet[..2] == [packet[0], packet[1]] && packet[..3] == [packet[0], packet[1], packet[2]];
      if n :| 0 <= n <= |rest| && WellFormed(rest[..n]) { SplitFindsTheAddress(rest, rest[..n]); }
      if SplitAddr(rest).Some? { assert rest[..|SplitAddr(rest).value|] == SplitAddr(rest).value; }
    }
  }

  /** A datagram comes back as it was exactly when its address is well formed. */
  lemma UdpPacketRoundTrip(addr: Bytes, payload: Bytes)
    ensures DecodeUdpPacket(EncodeUdpPacket(addr, payload)) == (Some(Datagram(addr, payload)), None) <==> WellFormed(addr)
  {
    var packet := EncodeUdpPacket(addr, payload);
    assert packet[3..] == addr + payload;
    if WellFormed(addr) {
      assert addr <= addr + payload;
      SplitFindsTheAddress(addr + payload, addr);
      assert packet[..2] == [0, 0] && packet[3 + |addr|..] == payload;
    }
  }

  /** Whatever is decoded can be encoded again, to the same packet. */
  lemma UdpPacketIsCanonical(packet: Bytes)
    requires DecodeUdpPacket(packet).0.Some?
    ensures var d := DecodeUdpPacket(packet).0.value; WellFormed(d.addr) && EncodeUdpPacket(d.addr, d.payload) == packet
  {
    var d := DecodeUdpPacket(packet).0.value;
    assert packet == packet[..3] + packet[3..] && packet[..3] == packet[..2] + [packet[2]];
    assert packet[3..] == d.addr + d.payload;
  }
}
