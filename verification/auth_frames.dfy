/** transport/ssr/protocol/auth_aes128_sha1.go: the protocol object, once its header has been sent. */
module AuthAes128 {
  import opened ByteCodec
  import opened Framing
  import opened Options
  import Spec = AuthFramesSpec

  class Protocol {
    const userKey: Bytes
    const hmac: Spec.HmacSha1
    const overhead: int
    var packID: u32
    var recvID: u32
    var rawTrans: bool

    ghost function Shape(): Spec.Format { Spec.Aes128(userKey, hmac, overhead) }

    constructor (userKey: Bytes, hmac: Spec.HmacSha1, overhead: int)
      ensures packID == recvID == 1 && !rawTrans && Shape() == Spec.Aes128(userKey, hmac, overhead)
    {
      this.userKey, this.hmac, this.overhead := userKey, hmac, overhead;
      packID, recvID, rawTrans := 1, 1, false;
    }

    method PackRandData(poolBuf: Buffer, size: nat, noise: Supply)
      modifies poolBuf
      ensures poolBuf.data == old(poolBuf.data) + Spec.RandData(Shape(), size, noise)
    {
      hide PutLe16;
      if size < 128 {
        poolBuf.Write([size + 1]);
      } else {
        poolBuf.Write([255]);
        poolBuf.Write(PutLe16((size + 3) % 0x1_0000));
      }
      poolBuf.Write(Take(noise, 0, size));
    }

    /** A frame up to its last checksum: what that checksum is of. */
    method PackSealed(poolBuf: Buffer, macKey: Bytes, packedDataLength: nat, data: Bytes, randDataLength: nat, noise: Supply)
      requires macKey == userKey + PutLe32(packID)
      requires packedDataLength == Spec.PackedLength(|data|, randDataLength)
      modifies poolBuf
      ensures poolBuf.data == old(poolBuf.data) + Spec.Sealed(Shape(), packID, Spec.Message(data, randDataLength, noise))
    {
      hide PutLe16, PutLe32, Spec.PackedLength, Spec.RandData;
      ghost var before := poolBuf.data;
      ghost var size := PutLe16(packedDataLength % 0x1_0000);
      poolBuf.Write(PutLe16(packedDataLength % 0x1_0000));
      EndOf(before, size, 2);
      poolBuf.Write(hmac(macKey, poolBuf.data[|poolBuf.data| - 2..])[..2]);
      PackRandData(poolBuf, randDataLength, noise);
      poolBuf.Write(data);
    }

    method PackData(poolBuf: Buffer, data: Bytes, fullDataLength: nat, luck: Spec.Luck)
      modifies poolBuf, `packID
      ensures var m := Spec.MessageFor(Shape(), data, fullDataLength, luck);
              poolBuf.data == old(poolBuf.data) + Spec.Frame(Shape(), old(packID), m)
      ensures packID == Shape().Next(old(packID))
    {
      hide PutLe32, Spec.PadFor, Spec.Sealed;
      ghost var before := poolBuf.data;
      var randDataLength := Spec.PadFor(Spec.Aes128(userKey, hmac, overhead), |data|, fullDataLength, luck);
      var packedDataLength := 2 + 2 + 3 + randDataLength + |data| + 4;
      if randDataLength < 128 { packedDataLength := packedDataLength - 2; }
      var macKey := userKey + PutLe32(packID);
      PackSealed(poolBuf, macKey, packedDataLength, data, randDataLength, luck.noise);
      packID := (packID + 1) % 0x1_0000_0000;
      EndOf(before, Spec.Sealed(Shape(), old(packID), Spec.Message(data, randDataLength, luck.noise)), packedDataLength - 4);
      poolBuf.Write(hmac(macKey, poolBuf.data[|poolBuf.data| - packedDataLength + 4..])[..4]);
    }

    method Encode(buf: Buffer, b: Bytes, fullDataLength: nat, luck: nat -> Spec.Luck)
      modifies buf, `packID
      ensures var sent := Send(Spec.SenderOf(Shape()), old(packID), Spec.Cut(Shape(), Spec.Write(b, fullDataLength, luck), 0));
              buf.data == old(buf.data) + sent.wire && packID == sent.end
    {
      hide Spec.Cut, Send, Spec.Frame;
      ghost var all := Send(Spec.SenderOf(Shape()), packID, Spec.Cut(Shape(), Spec.Write(b, fullDataLength, luck), 0));
      var rest, k := b, 0;
      while |rest| > 8100
        invariant var todo := Send(Spec.SenderOf(Shape()), packID, Spec.Cut(Shape(), Spec.Write(rest, fullDataLength, luck), k));
                  old(buf.data) + all.wire == buf.data + todo.wire && todo.end == all.end
      {
        Spec.SendCut(Shape(), packID, Spec.Write(rest, fullDataLength, luck), k);
        PackData(buf, rest[..8100], fullDataLength, luck(k));
        rest, k := rest[8100..], k + 1;
      }
      Spec.SendCut(Shape(), packID, Spec.Write(rest, fullDataLength, luck), k);
      if |rest| > 0 {
        PackData(buf, rest, fullDataLength, luck(k));
      }
    }

    /** One turn of the decoding loop. */
    method DecodeFrame(dst: Buffer, src: Buffer) returns (v: Verdict<u32>)
      requires dst != src && |src.data| > 4
      modifies dst, src, `recvID
      ensures v == Spec.Judge(Shape(), old(recvID), old(src.data))
      ensures !v.Accepted? ==> dst.data == old(dst.data) && src.data == old(src.data)
      ensures !v.Accepted? && v != Refused(Panicked) ==> recvID == old(recvID)
      ensures v.Accepted? ==> dst.data == old(dst.data) + v.payload && src.data == old(src.data)[v.size..] && recvID == v.next
    {
      hide PutLe32, Le16;
      ghost var id := recvID;
      var macKey := userKey + PutLe32(recvID);
      if hmac(macKey, src.data[..2])[..2] != src.data[2..4] { return Refused(MacError); }
      var length := Le16(src.data[0], src.data[1]);
      if length >= 8192 || length < 7 { return Refused(LengthError); }
      if length > |src.data| { return Incomplete; }
      if hmac(macKey, src.data[..length - 4])[..4] != src.data[length - 4..length] { return Refused(ChecksumError); }
      recvID := (recvID + 1) % 0x1_0000_0000;
      var pos: nat := src.data[4];
      if pos < 255 {
        pos := pos + 4;
      } else {
        pos := Le16(src.data[5], src.data[6]) + 4;
      }
      assert pos == Spec.DataStart(Shape(), src.data);
      if pos > length - 4 { return Refused(Panicked); }
      var payload := src.data[pos..length - 4];
      dst.Write(payload);
      var _ := src.Next(length);
      v := Accepted(payload, length, recvID);
    }

    /** Consumes the complete frames of `src` and leaves an incomplete one for the next call. A wrong
        checksum of the length does not switch decoding off, the other errors do. */
    method Decode(dst: Buffer, src: Buffer) returns (failure: Option<Failure>)
      requires dst != src
      modifies dst, src, `recvID, `rawTrans
      ensures old(rawTrans) ==>
                failure == None && dst.data == old(dst.data) + old(src.data) && src.data == []
                && recvID == old(recvID) && rawTrans
      ensures !old(rawTrans) ==>
                var r := Framing.Decode(Spec.JudgeOf(Shape()), old(recvID), old(src.data));
                failure == r.failure && dst.data == old(dst.data) + r.out
                && rawTrans == (failure == Some(LengthError) || failure == Some(ChecksumError))
                && (failure != Some(Panicked) ==> src.data == r.rest && recvID == r.end)
    {
      hide Spec.Judge;
      if rawTrans {
        dst.Write(src.data);
        src.Reset();
        return None;
      }
      ghost var goal := Framing.Decode(Spec.JudgeOf(Shape()), recvID, src.data);
      while |src.data| > 4
        invariant !rawTrans
        invariant var todo := Framing.Decode(Spec.JudgeOf(Shape()), recvID, src.data);
                  old(dst.data) + goal.out == dst.data + todo.out && goal == todo.(out := goal.out)
        decreases |src.data|
      {
        Spec.AcceptedWithin(Shape(), recvID, src.data);
        DecodeUnfolds(Spec.JudgeOf(Shape()), recvID, src.data);
        Spec.OnlyTheseFailures(Shape(), recvID, src.data);
        var v := DecodeFrame(dst, src);
        match v
        case Accepted(_, _, _) =>
        case Incomplete => return None;
        case Refused(why) =>
          if why == Panicked { return Some(why); }
          if why != MacError { rawTrans := true; }
          src.Reset();
          return Some(why);
      }
      Spec.FewBytes(Shape(), recvID, src.data);
      failure := None;
    }
  }
}

/** transport/ssr/protocol/auth_sha1_v4.go: the same without numbers, keys or secrets. */
module AuthSha1V4 {
  import opened ByteCodec
  import opened Framing
  import opened Options
  import Spec = AuthFramesSpec

  class Protocol {
    const crc32: Bytes -> u32
    const adler32: Bytes -> u32
    var rawTrans: bool

    ghost function Shape(): Spec.Format { Spec.Sha1V4(crc32, adler32) }

    constructor (crc32: Bytes -> u32, adler32: Bytes -> u32)
      ensures !rawTrans && Shape() == Spec.Sha1V4(crc32, adler32)
    {
      this.crc32, this.adler32 := crc32, adler32;
      rawTrans := false;
    }

    method PackRandData(poolBuf: Buffer, size: nat, noise: Supply)
      modifies poolBuf
      ensures poolBuf.data == old(poolBuf.data) + Spec.RandData(Shape(), size, noise)
    {
      hide PutBe16;
      if size < 128 {
        poolBuf.Write([size + 1]);
      } else {
        poolBuf.Write([255]);
        poolBuf.Write(PutBe16((size + 3) % 0x1_0000));
      }
      poolBuf.Write(Take(noise, 0, size));
    }

    /** A frame up to its last checksum: what that checksum is of. */
    method PackSealed(poolBuf: Buffer, packedDataLength: nat, data: Bytes, randDataLength: nat, noise: Supply)
      requires packedDataLength == Spec.PackedLength(|data|, randDataLength)
      modifies poolBuf
      ensures poolBuf.data == old(poolBuf.data) + Spec.Sealed(Shape(), 0, Spec.Message(data, randDataLength, noise))
    {
      hide PutLe16, PutBe16, Spec.PackedLength, Spec.RandData;
      ghost var before := poolBuf.data;
      ghost var size := PutBe16(packedDataLength % 0x1_0000);
      poolBuf.Write(PutBe16(packedDataLength % 0x1_0000));
      EndOf(before, size, 2);
      poolBuf.Write(PutLe16(crc32(poolBuf.data[|poolBuf.data| - 2..]) % 0x1_0000));
      PackRandData(poolBuf, randDataLength, noise);
      poolBuf.Write(data);
    }

    method PackData(poolBuf: Buffer, data: Bytes, luck: Spec.Luck)
      modifies poolBuf
      ensures var m := Spec.MessageFor(Shape(), data, 0, luck);
              poolBuf.data == old(poolBuf.data) + Spec.Frame(Shape(), 0, m)
    {
      hide PutLe32, Spec.PadFor, Spec.Sealed;
      ghost var before := poolBuf.data;
      var randDataLength := Spec.PadFor(Spec.Sha1V4(crc32, adler32), |data|, 0, luck);
      var packedDataLength := 2 + 2 + 3 + randDataLength + |data| + 4;
      if randDataLength < 128 { packedDataLength := packedDataLength - 2; }
      PackSealed(poolBuf, packedDataLength, data, randDataLength, luck.noise);
      EndOf(before, Spec.Sealed(Shape(), 0, Spec.Message(data, randDataLength, luck.noise)), packedDataLength - 4);
      poolBuf.Write(PutLe32(adler32(poolBuf.data[|poolBuf.data| - packedDataLength + 4..])));
    }

    method Encode(buf: Buffer, b: Bytes, luck: nat -> Spec.Luck)
      modifies buf
      ensures buf.data == old(buf.data) + Send(Spec.SenderOf(Shape()), 0, Spec.Cut(Shape(), Spec.Write(b, 0, luck), 0)).wire
    {
      hide Spec.Cut, Send, Spec.Frame;
      ghost var all := Send(Spec.SenderOf(Shape()), 0, Spec.Cut(Shape(), Spec.Write(b, 0, luck), 0));
      var rest, k := b, 0;
      while |rest| > 8100
        invariant var todo := Send(Spec.SenderOf(Shape()), 0, Spec.Cut(Shape(), Spec.Write(rest, 0, luck), k));
                  old(buf.data) + all.wire == buf.data + todo.wire
      {
        Spec.SendCut(Shape(), 0, Spec.Write(rest, 0, luck), k);
        PackData(buf, rest[..8100], luck(k));
        rest, k := rest[8100..], k + 1;
      }
      Spec.SendCut(Shape(), 0, Spec.Write(rest, 0, luck), k);
      if |rest| > 0 {
        PackData(buf, rest, luck(k));
      }
    }

    /** One turn of the decoding loop. */
    method DecodeFrame(dst: Buffer, src: Buffer) returns (v: Verdict<u32>)
      requires dst != src && |src.data| > 4
      modifies dst, src
      ensures v == Spec.Judge(Shape(), 0, old(src.data))
      ensures !v.Accepted? ==> dst.data == old(dst.data) && src.data == old(src.data)
      ensures v.Accepted? ==> dst.data == old(dst.data) + v.payload && src.data == old(src.data)[v.size..] && v.next == 0
    {
      hide PutLe32, PutLe16, Be16, Le16;
      SameNumber(crc32(src.data[..2]) % 0x1_0000, src.data[2], src.data[3]);
      assert src.data[2..4] == [src.data[2], src.data[3]];
      if crc32(src.data[..2]) % 0x1_0000 != Le16(src.data[2], src.data[3]) { return Refused(MacError); }
      var length := Be16(src.data[0], src.data[1]);
      if length >= 8192 || length < 7 { return Refused(LengthError); }
      if length > |src.data| { return Incomplete; }
      SameWord(adler32(src.data[..length - 4]), src.data[length - 4..length]);
      if adler32(src.data[..length - 4]) != Le32(src.data[length - 4..length]) { return Refused(ChecksumError); }
      var pos: nat := src.data[4];
      if pos < 255 {
        pos := pos + 4;
      } else {
        pos := Be16(src.data[5], src.data[6]) + 4;
      }
      assert pos == Spec.DataStart(Shape(), src.data);
      if pos > length - 4 { return Refused(Panicked); }
      var payload := src.data[pos..length - 4];
      dst.Write(payload);
      var _ := src.Next(length);
      v := Accepted(payload, length, 0);
    }

    method Decode(dst: Buffer, src: Buffer) returns (failure: Option<Failure>)
      requires dst != src
      modifies dst, src, `rawTrans
      ensures old(rawTrans) ==> failure == None && dst.data == old(dst.data) + old(src.data) && src.data == [] && rawTrans
      ensures !old(rawTrans) ==>
                var r := Framing.Decode(Spec.JudgeOf(Shape()), 0, old(src.data));
                failure == r.failure && dst.data == old(dst.data) + r.out
                && rawTrans == (failure == Some(LengthError) || failure == Some(ChecksumError))
                && (failure != Some(Panicked) ==> src.data == r.rest)
    {
      hide Spec.Judge;
      if rawTrans {
        dst.Write(src.data);
        src.Reset();
        return None;
      }
      ghost var goal := Framing.Decode(Spec.JudgeOf(Shape()), 0, src.data);
      while |src.data| > 4
        invariant !rawTrans
        invariant var todo := Framing.Decode(Spec.JudgeOf(Shape()), 0, src.data);
                  old(dst.data) + goal.out == dst.data + todo.out && goal == todo.(out := goal.out)
        decreases |src.data|
      {
        Spec.AcceptedWithin(Shape(), 0, src.data);
        DecodeUnfolds(Spec.JudgeOf(Shape()), 0, src.data);
        Spec.OnlyTheseFailures(Shape(), 0, src.data);
        var v := DecodeFrame(dst, src);
        match v
        case Accepted(_, _, _) =>
        case Incomplete => return None;
        case Refused(why) =>
          if why == Panicked { return Some(why); }
          if why != MacError { rawTrans := true; }
          src.Reset();
          return Some(why);
      }
      Spec.FewBytes(Shape(), 0, src.data);
      failure := None;
    }
  }

  lemma SameNumber(n: u16, low: byte, high: byte)
    ensures n == Le16(low, high) <==> PutLe16(n) == [low, high]
  {
  }

  lemma SameWord(n: u32, b: Bytes)
    requires |b| == 4
    ensures n == Le32(b) <==> PutLe32(n) == b
  {
    SameNumber(n % 0x1_0000, b[0], b[1]);
    SameNumber(n / 0x1_0000, b[2], b[3]);
    assert b == [b[0], b[1]] + [b[2], b[3]];
    assert PutLe32(n)[..2] == PutLe16(n % 0x1_0000) && PutLe32(n)[2..] == PutLe16(n / 0x1_0000);
  }
}
