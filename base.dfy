/** The owned payload types of base.rs, built on the reader and the integer
    codec of codec.rs: an unprefixed payload that is the rest of its
    enclosing region, and payloads behind a 24-bit and a 16-bit length. */
module Base {
  import opened Bytes
  import Codec

  /** A payload whose length is given by the enclosing framing. */
  datatype Payload = Payload(bytes: seq<Byte>)
  {
    /** Appends the bytes verbatim, with no length in front. */
    method Encode(bytes: ByteVec)
      modifies bytes
      ensures bytes.data == old(bytes.data) + this.bytes
    {
      bytes.ExtendFromSlice(this.bytes);
    }

    /** Always succeeds with everything the reader has left, and does not
        move the reader. */
    static method Read(r: Codec.Reader) returns (p: Option<Payload>)
      requires r.Valid()
      ensures p.Some? && r.buf == r.buf[..r.Used()] + p.value.bytes
    {
      return Some(Payload(r.Rest()));
    }

    static function New(bytes: seq<Byte>): (p: Payload)
      ensures p.bytes == bytes && p.Len() == |bytes|
    {
      Payload(bytes)
    }

    /** The capacity hint of the Rust version does not change the contents. */
    static function Empty(): (p: Payload)
      ensures p.bytes == [] && p.Len() == 0
    {
      New([])
    }

    static function FromSlice(data: seq<Byte>): (p: Payload)
      ensures p.bytes == data && p.Len() == |data|
    {
      New(data)
    }

    function Len(): nat
    {
      |bytes|
    }

    method GetEncoding() returns (e: seq<Byte>)
      ensures e == bytes
    {
      var v := new ByteVec();
      Encode(v);
      e := v.data;
    }
  }

  /** Encoding an unprefixed payload and reading it from a fresh reader over
      the output gives it back, and the reader is left where it was: every
      byte is still unread. */
  method PayloadReadBack(p: Payload) returns (q: Option<Payload>, left: nat)
    ensures q == Some(p) && left == p.Len()
  {
    var out := new ByteVec();
    p.Encode(out);
    var r := new Codec.Reader.Init(out.data);
    q := Payload.Read(r);
    left := r.Left();
  }

  /** A payload behind a 24-bit big-endian length. */
  datatype PayloadU24 = PayloadU24(bytes: seq<Byte>)
  {
    static function New(bytes: seq<Byte>): (p: PayloadU24)
      ensures p.bytes == bytes && p.Len() == |bytes|
    {
      PayloadU24(bytes)
    }

    function Len(): nat
    {
      |bytes|
    }

    /** The wire form: the length cast to `u32` without any check, of which
        the 24-bit encoder keeps the low three bytes, then the bytes. */
    function Encoding(): (e: seq<Byte>)
      ensures |e| == 3 + Len()
      ensures BeValue(e[..3]) == Len() % 0x100_0000
      ensures e[3..] == bytes
    {
      BeValueOfBeBytes(Len() % 0x1_0000_0000, 3);
      ModOfMod(Len(), 0x100_0000, 0x100);
      assert Pow256(3) == 0x100_0000 by { Pow256Table(); }
      BeBytes(Len() % 0x1_0000_0000, 3) + bytes
    }

    method Encode(bytes: ByteVec)
      modifies bytes
      ensures bytes.data == old(bytes.data) + Encoding()
    {
      Codec.EncodeU24(Len() % 0x1_0000_0000, bytes);
      bytes.ExtendFromSlice(this.bytes);
    }

    /** A 24-bit length, then that many bytes. */
    static method Read(r: Codec.Reader) returns (p: Option<PayloadU24>)
      requires r.Valid()
      modifies r
      ensures r.Valid()
      ensures Codec.SliceRead(r.buf, old(r.offs), 3, if p.Some? then Some(p.value.bytes) else None, r.offs)
    {
      var s := r.U24EncodedSlice();
      if s.None? {
        return None;
      }
      return Some(New(s.value));
    }

    method GetEncoding() returns (e: seq<Byte>)
      ensures e == Encoding()
    {
      var v := new ByteVec();
      Encode(v);
      e := v.data;
    }
  }

  /** A payload shorter than 2^24 bytes, encoded with anything after it,
      reads back from a fresh reader over the output, leaving exactly the
      bytes after it unread. */
  method PayloadU24ReadBack(p: PayloadU24, trailing: seq<Byte>) returns (q: Option<PayloadU24>, left: nat)
    requires p.Len() < 0x100_0000
    ensures q == Some(p) && left == |trailing|
  {
    var out := new ByteVec();
    p.Encode(out);
    out.ExtendFromSlice(trailing);
    assert Pow256(3) == 0x100_0000;
    assert p.Len() % 0x1_0000_0000 == p.Len();
    assert out.data == [] + BeBytes(p.Len(), 3) + p.bytes + trailing;
    Codec.SliceReadOfEncoding([], p.bytes, trailing, 3);
    var r := new Codec.Reader.Init(out.data);
    q := PayloadU24.Read(r);
    left := r.Left();
  }

  /** A payload behind a 16-bit big-endian length. */
  datatype PayloadU16 = PayloadU16(bytes: seq<Byte>)
  {
    static function New(bytes: seq<Byte>): (p: PayloadU16)
      ensures p.bytes == bytes && p.Len() == |bytes|
    {
      PayloadU16(bytes)
    }

    function Len(): nat
    {
      |bytes|
    }

    /** The wire form: the length cast to `u16` without any check, then the bytes. */
    function Encoding(): (e: seq<Byte>)
      ensures |e| == 2 + Len()
      ensures BeValue(e[..2]) == Len() % 0x1_0000
      ensures e[2..] == bytes
    {
      Pow256Table();
      BeValueOfBeBytesExact(Len() % 0x1_0000, 2);
      BeBytes(Len() % 0x1_0000, 2) + bytes
    }

    method Encode(bytes: ByteVec)
      modifies bytes
      ensures bytes.data == old(bytes.data) + Encoding()
    {
      Codec.EncodeU16(Len() % 0x1_0000, bytes);
      bytes.ExtendFromSlice(this.bytes);
    }

    /** A 16-bit length, then a sub-reader bounded to that many bytes whose
        whole content is the body. */
    static method Read(r: Codec.Reader) returns (p: Option<PayloadU16>)
      requires r.Valid()
      modifies r
      ensures r.Valid()
      ensures Codec.SliceRead(r.buf, old(r.offs), 2, if p.Some? then Some(p.value.bytes) else None, r.offs)
    {
      var len := r.ReadU16();
      if len.None? {
        return None;
      }
      var sub := r.Sub(len.value);
      if sub.None? {
        return None;
      }
      var body := sub.value.Rest();
      return Some(PayloadU16(body));
    }

    method GetEncoding() returns (e: seq<Byte>)
      ensures e == Encoding()
    {
      var v := new ByteVec();
      Encode(v);
      e := v.data;
    }
  }

  /** A payload of at most 65535 bytes, encoded with anything after it,
      reads back from a fresh reader over the output, leaving exactly the
      bytes after it unread. */
  method PayloadU16ReadBack(p: PayloadU16, trailing: seq<Byte>) returns (q: Option<PayloadU16>, left: nat)
    requires p.Len() <= 0xFFFF
    ensures q == Some(p) && left == |trailing|
  {
    var out := new ByteVec();
    p.Encode(out);
    out.ExtendFromSlice(trailing);
    assert Pow256(2) == 0x1_0000;
    assert p.Len() % 0x1_0000 == p.Len();
    assert out.data == [] + BeBytes(p.Len(), 2) + p.bytes + trailing;
    Codec.SliceReadOfEncoding([], p.bytes, trailing, 2);
    var r := new Codec.Reader.Init(out.data);
    q := PayloadU16.Read(r);
    left := r.Left();
  }

  /** A payload of 65536 bytes or more is written with its length modulo
      65536, so a reader sees only that many bytes and leaves the rest. */
  lemma PayloadU16OversizedReadsShort(p: PayloadU16)
    requires p.Len() > 0xFFFF
    ensures var n := p.Len() % 0x1_0000;
      Codec.SliceRead(p.Encoding(), 0, 2, Some(p.bytes[..n]), 2 + n)
  {
    var n := p.Len() % 0x1_0000;
    assert p.Encoding() == [] + BeBytes(n, 2) + p.bytes[..n] + p.bytes[n..];
    Pow256Table();
    Codec.SliceReadOfEncoding([], p.bytes[..n], p.bytes[n..], 2);
  }

  /** A u8-prefixed payload; in this file it has constructors and a length
      only (its encoder and decoder here are commented out). */
  datatype PayloadU8 = PayloadU8(bytes: seq<Byte>)
  {
    static function FromSlice(bytes: seq<Byte>): (p: PayloadU8)
      ensures p.bytes == bytes && p.Len() == |bytes|
    {
      PayloadU8(bytes)
    }

    static function New(bytes: seq<Byte>): (p: PayloadU8)
      ensures p.bytes == bytes && p.Len() == |bytes|
    {
      PayloadU8(bytes)
    }

    function Len(): nat
    {
      |bytes|
    }
  }
}
