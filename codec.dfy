/** The codec layer of codec.rs: the big-endian integer encoders and
    decoders, the `Reader` cursor over a borrowed byte buffer, and the
    length-prefixed payload types the cursor produces. */
module Codec {
  import opened Bytes

  /* ---------------------------------------------------------------------
     Fixed-width big-endian integers.

     The encoders append to a caller-owned vector; `(v >> 8k) as u8` is
     `v / 256^k % 256`. The decoders combine the shifted bytes with `|`;
     the shifted fields never overlap, so the OR is the sum written here
     (`OrIsSumU16` .. `OrIsSumU64` state this on the machine words).
     --------------------------------------------------------------------- */

  /** `decode_u16`'s OR of two widened bytes is their sum. */
  lemma OrIsSumU16(b0: bv8, b1: bv8)
    ensures ((b0 as bv16) << 8) | (b1 as bv16) == ((b0 as bv16) << 8) + (b1 as bv16)
  {
  }

  /** `decode_u24`'s OR of three widened bytes is their sum. */
  lemma OrIsSumU24(b0: bv8, b1: bv8, b2: bv8)
    ensures ((b0 as bv32) << 16) | ((b1 as bv32) << 8) | (b2 as bv32)
         == ((b0 as bv32) << 16) + ((b1 as bv32) << 8) + (b2 as bv32)
  {
  }

  /** `decode_u32`'s OR of four widened bytes is their sum. */
  lemma OrIsSumU32(b0: bv8, b1: bv8, b2: bv8, b3: bv8)
    ensures ((b0 as bv32) << 24) | ((b1 as bv32) << 16) | ((b2 as bv32) << 8) | (b3 as bv32)
         == ((b0 as bv32) << 24) + ((b1 as bv32) << 16) + ((b2 as bv32) << 8) + (b3 as bv32)
  {
  }

  /** `decode_u64`'s OR of eight widened bytes is their sum. */
  lemma OrIsSumU64(b0: bv8, b1: bv8, b2: bv8, b3: bv8, b4: bv8, b5: bv8, b6: bv8, b7: bv8)
    ensures ((b0 as bv64) << 56) | ((b1 as bv64) << 48) | ((b2 as bv64) << 40) | ((b3 as bv64) << 32)
          | ((b4 as bv64) << 24) | ((b5 as bv64) << 16) | ((b6 as bv64) << 8) | (b7 as bv64)
         == ((b0 as bv64) << 56) + ((b1 as bv64) << 48) + ((b2 as bv64) << 40) + ((b3 as bv64) << 32)
          + ((b4 as bv64) << 24) + ((b5 as bv64) << 16) + ((b6 as bv64) << 8) + (b7 as bv64)
  {
  }

  /** `extend`: append a slice to the vector. */
  method Extend(x: seq<Byte>, bytes: ByteVec)
    modifies bytes
    ensures bytes.data == old(bytes.data) + x
  {
    bytes.ExtendFromSlice(x);
  }

  method EncodeU8(v: Byte, bytes: ByteVec)
    modifies bytes
    ensures bytes.data == old(bytes.data) + BeBytes(v, 1)
  {
    bytes.Push(v);
  }

  /** Rust indexes `bytes[0]` unchecked, so a shorter slice is the caller's fault. */
  function DecodeU8(bytes: seq<Byte>): (r: Option<Byte>)
    requires |bytes| >= 1
    ensures r == Some(BeValue(bytes[..1]))
  {
    BeValueSnoc(bytes, 0);
    Some(bytes[0])
  }

  method EncodeU16(v: U16, bytes: ByteVec)
    modifies bytes
    ensures bytes.data == old(bytes.data) + BeBytes(v, 2)
  {
    bytes.Push(v / 0x100 % 0x100);
    bytes.Push(v % 0x100);
    BeBytesAsDigits(v, 2);
    Pow256Table();
    assert BeBytes(v, 2) == [v / 0x100 % 0x100, v % 0x100];
  }

  function DecodeU16(bytes: seq<Byte>): (r: Option<U16>)
    requires |bytes| >= 2
    ensures r == Some(BeValue(bytes[..2]))
  {
    BeValueSnoc(bytes, 0);
    BeValueSnoc(bytes, 1);
    Some(bytes[0] as nat * 0x100 + bytes[1])
  }

  /** The 24-bit encoder takes a `u32` and writes its three low-order bytes. */
  method EncodeU24(v: U32, bytes: ByteVec)
    modifies bytes
    ensures bytes.data == old(bytes.data) + BeBytes(v, 3)
  {
    bytes.Push(v / 0x1_0000 % 0x100);
    bytes.Push(v / 0x100 % 0x100);
    bytes.Push(v % 0x100);
    BeBytesAsDigits(v, 3);
    Pow256Table();
    assert BeBytes(v, 3) == [v / 0x1_0000 % 0x100, v / 0x100 % 0x100, v % 0x100];
  }

  function DecodeU24(bytes: seq<Byte>): (r: Option<U32>)
    requires |bytes| >= 3
    ensures r.Some? && r.value < 0x100_0000
    ensures r == Some(BeValue(bytes[..3]))
  {
    BeValueSnoc(bytes, 0);
    BeValueSnoc(bytes, 1);
    BeValueSnoc(bytes, 2);
    Some(bytes[0] as nat * 0x1_0000 + bytes[1] as nat * 0x100 + bytes[2])
  }

  method EncodeU32(v: U32, bytes: ByteVec)
    modifies bytes
    ensures bytes.data == old(bytes.data) + BeBytes(v, 4)
  {
    bytes.Push(v / 0x100_0000 % 0x100);
    bytes.Push(v / 0x1_0000 % 0x100);
    bytes.Push(v / 0x100 % 0x100);
    bytes.Push(v % 0x100);
    BeBytesAsDigits(v, 4);
    Pow256Table();
    assert BeBytes(v, 4) == [v / 0x100_0000 % 0x100, v / 0x1_0000 % 0x100, v / 0x100 % 0x100, v % 0x100];
  }

  function DecodeU32(bytes: seq<Byte>): (r: Option<U32>)
    requires |bytes| >= 4
    ensures r == Some(BeValue(bytes[..4]))
  {
    BeValueSnoc(bytes, 0);
    BeValueSnoc(bytes, 1);
    BeValueSnoc(bytes, 2);
    BeValueSnoc(bytes, 3);
    Some(bytes[0] as nat * 0x100_0000 + bytes[1] as nat * 0x1_0000 + bytes[2] as nat * 0x100 + bytes[3])
  }

  /** The 64-bit encoder fills an 8-byte scratch array and appends it. */
  method EncodeU64(v: U64, bytes: ByteVec)
    modifies bytes
    ensures bytes.data == old(bytes.data) + BeBytes(v, 8)
  {
    var b64 := new Byte[8](_ => 0);
    PutU64(v, b64);
    assert b64[..] == b64[..8];
    bytes.ExtendFromSlice(b64[..]);
  }

  /** Writes the eight bytes of v into the first eight cells of the array;
      Rust indexes the cells unchecked, so a shorter array is the caller's fault. */
  method PutU64(v: U64, bytes: array<Byte>)
    requires bytes.Length >= 8
    modifies bytes
    ensures bytes[..8] == BeBytes(v, 8)
    ensures bytes[8..] == old(bytes[8..])
  {
    bytes[0] := v / 0x100_0000_0000_0000 % 0x100;
    bytes[1] := v / 0x1_0000_0000_0000 % 0x100;
    bytes[2] := v / 0x100_0000_0000 % 0x100;
    bytes[3] := v / 0x1_0000_0000 % 0x100;
    bytes[4] := v / 0x100_0000 % 0x100;
    bytes[5] := v / 0x1_0000 % 0x100;
    bytes[6] := v / 0x100 % 0x100;
    bytes[7] := v % 0x100;
    BeBytesAsDigits(v, 8);
    Pow256Table();
  }

  function DecodeU64(bytes: seq<Byte>): (r: Option<U64>)
    requires |bytes| >= 8
    ensures r == Some(BeValue(bytes[..8]))
  {
    BeValueSnoc(bytes, 0);
    BeValueSnoc(bytes, 1);
    BeValueSnoc(bytes, 2);
    BeValueSnoc(bytes, 3);
    BeValueSnoc(bytes, 4);
    BeValueSnoc(bytes, 5);
    BeValueSnoc(bytes, 6);
    BeValueSnoc(bytes, 7);
    Some(bytes[0] as nat * 0x100_0000_0000_0000 + bytes[1] as nat * 0x1_0000_0000_0000
      + bytes[2] as nat * 0x100_0000_0000 + bytes[3] as nat * 0x1_0000_0000
      + bytes[4] as nat * 0x100_0000 + bytes[5] as nat * 0x1_0000 + bytes[6] as nat * 0x100 + bytes[7])
  }

  lemma DecodeEncodeU8(v: Byte)
    ensures DecodeU8(BeBytes(v, 1)) == Some(v)
  {
    BeValueOfBeBytesExact(v, 1);
  }

  lemma DecodeEncodeU16(v: U16)
    ensures DecodeU16(BeBytes(v, 2)) == Some(v)
  {
    Pow256Table();
    BeValueOfBeBytesExact(v, 2);
  }

  /** Only the low 24 bits of the `u32` survive the 3-byte round trip. */
  lemma DecodeEncodeU24(v: U32)
    ensures DecodeU24(BeBytes(v, 3)) == Some(v % 0x100_0000)
    ensures v < 0x100_0000 ==> DecodeU24(BeBytes(v, 3)) == Some(v)
  {
    Pow256Table();
    BeValueOfBeBytes(v, 3);
    assert BeBytes(v, 3)[..3] == BeBytes(v, 3);
  }

  lemma DecodeEncodeU32(v: U32)
    ensures DecodeU32(BeBytes(v, 4)) == Some(v)
  {
    Pow256Table();
    BeValueOfBeBytesExact(v, 4);
    assert BeBytes(v, 4)[..4] == BeBytes(v, 4);
  }

  lemma DecodeEncodeU64(v: U64)
    ensures DecodeU64(BeBytes(v, 8)) == Some(v)
  {
    Pow256Table();
    BeValueOfBeBytesExact(v, 8);
    assert BeBytes(v, 8)[..8] == BeBytes(v, 8);
  }

  /* ---------------------------------------------------------------------
     Payload types. In Rust each wraps a `Cow<[u8]>` that is either owned or
     borrowed from the reader's buffer; here each holds the bytes themselves.
     --------------------------------------------------------------------- */

  datatype PayloadU8 = PayloadU8(bytes: seq<Byte>)
  {
    /** Owned construction. */
    static function New(bytes: seq<Byte>): (p: PayloadU8)
      ensures p.bytes == bytes && p.Len() == |bytes|
    {
      PayloadU8(bytes)
    }

    /** Borrowed construction. */
    static function FromSlice(data: seq<Byte>): (p: PayloadU8)
      ensures p.bytes == data && p.Len() == |data|
    {
      PayloadU8(data)
    }

    function Len(): nat
    {
      |bytes|
    }

    /** The wire form: a 1-byte length, truncated by `as u8` without any
        check, then the bytes themselves. */
    function Encoding(): (e: seq<Byte>)
      ensures |e| == 1 + Len()
      ensures BeValue(e[..1]) == Len() % 0x100
      ensures e[1..] == bytes
    {
      BeValueOfBeBytesExact(Len() % 0x100, 1);
      BeBytes(Len() % 0x100, 1) + bytes
    }

    method Encode(bytes: ByteVec)
      modifies bytes
      ensures bytes.data == old(bytes.data) + Encoding()
    {
      EncodeU8(Len() % 0x100, bytes);
      Extend(this.bytes, bytes);
    }

    static method Read(r: Reader) returns (p: Option<PayloadU8>)
      requires r.Valid()
      modifies r
      ensures r.Valid()
      ensures SliceRead(r.buf, old(r.offs), 1, if p.Some? then Some(p.value.bytes) else None, r.offs)
    {
      p := r.U8Payload();
    }

    /** `Codec::get_encoding`: the output of `encode` into a fresh vector. */
    method GetEncoding() returns (e: seq<Byte>)
      ensures e == Encoding()
    {
      var v := new ByteVec();
      Encode(v);
      e := v.data;
    }
  }

  datatype PayloadU16 = PayloadU16(bytes: seq<Byte>)
  datatype PayloadU24 = PayloadU24(bytes: seq<Byte>)
  datatype PayloadU32 = PayloadU32(bytes: seq<Byte>)
  datatype PayloadU64 = PayloadU64(bytes: seq<Byte>)
  datatype Payload = Payload(bytes: seq<Byte>)
  /** Another name for `Payload`, for use inside `Reader`, whose method of
      that name hides the type. */
  type UnprefixedPayload = Payload

  /* ---------------------------------------------------------------------
     The Reader cursor.
     --------------------------------------------------------------------- */

  /** What a length-prefixed read at offset o of buf does: read a w-byte
      big-endian length, then take that many bytes. It fails without moving
      when fewer than w bytes remain, and fails AFTER consuming the prefix
      when the declared length exceeds what remains behind it. r is the
      slice returned and o' the offset afterwards. */
  ghost predicate SliceRead(buf: seq<Byte>, o: nat, w: nat, r: Option<seq<Byte>>, o': nat)
    requires o <= |buf|
  {
    if |buf| - o < w then r == None && o' == o
    else
      var len := BeValue(buf[o..o + w]);
      if |buf| - o - w < len then r == None && o' == o + w
      else r == Some(buf[o + w..o + w + len]) && o' == o + w + len
  }

  /** An encoded length followed by that many bytes reads back as those
      bytes, consuming exactly the prefix and the body, whatever precedes
      or follows them. */
  lemma SliceReadOfEncoding(pre: seq<Byte>, body: seq<Byte>, trailing: seq<Byte>, w: nat)
    requires |body| < Pow256(w)
    ensures SliceRead(pre + BeBytes(|body|, w) + body + trailing, |pre|, w, Some(body), |pre| + w + |body|)
  {
    var buf := pre + BeBytes(|body|, w) + body + trailing;
    assert buf[|pre|..|pre| + w] == BeBytes(|body|, w);
    BeValueOfBeBytesExact(|body|, w);
    assert buf[|pre| + w..|pre| + w + |body|] == body;
  }

  /** A length prefix that promises more bytes than follow makes the read
      fail after the prefix has been consumed. */
  lemma SliceReadTruncated(pre: seq<Byte>, len: nat, body: seq<Byte>, w: nat)
    requires |body| < len < Pow256(w)
    ensures SliceRead(pre + BeBytes(len, w) + body, |pre|, w, None, |pre| + w)
  {
    assert (pre + BeBytes(len, w) + body)[|pre|..|pre| + w] == BeBytes(len, w);
    BeValueOfBeBytesExact(len, w);
  }

  class Reader {
    const buf: seq<Byte>
    var offs: nat

    ghost predicate Valid()
      reads this
    {
      offs <= |buf|
    }

    constructor Init(bytes: seq<Byte>)
      ensures Valid()
      ensures buf == bytes && offs == 0
    {
      buf := bytes;
      offs := 0;
    }

    /** The unconsumed remainder: what was used and what is left make up
        the whole buffer. */
    function Rest(): (s: seq<Byte>)
      reads this
      requires Valid()
      ensures buf[..Used()] + s == buf
      ensures |s| == Left()
    {
      buf[offs..]
    }

    function Left(): (n: nat)
      reads this
      requires Valid()
      ensures Used() + n == |buf|
    {
      |buf| - offs
    }

    function Used(): (n: nat)
      reads this
      requires Valid()
      ensures n <= |buf|
    {
      offs
    }

    function AnyLeft(): (b: bool)
      reads this
      requires Valid()
      ensures b <==> Left() > 0
    {
      offs < |buf|
    }

    /** The next len bytes, or nothing (and no movement) if fewer remain;
        never a partial slice. */
    method Take(len: nat) returns (r: Option<seq<Byte>>)
      requires Valid()
      modifies this
      ensures Valid()
      ensures old(Left()) < len ==> r == None && offs == old(offs)
      ensures old(Left()) >= len ==> r == Some(buf[old(offs)..old(offs) + len]) && offs == old(offs) + len
    {
      if Left() < len {
        return None;
      }
      var current := offs;
      offs := offs + len;
      return Some(buf[current..current + len]);
    }

    /** A fresh reader over the next len bytes, starting at its own offset 0. */
    method Sub(len: nat) returns (r: Option<Reader>)
      requires Valid()
      modifies this
      ensures Valid()
      ensures old(Left()) < len ==> r == None && offs == old(offs)
      ensures old(Left()) >= len ==>
        && r.Some? && fresh(r.value) && r.value.Valid()
        && r.value.buf == buf[old(offs)..old(offs) + len]
        && r.value.Used() == 0 && r.value.Left() == len
        && offs == old(offs) + len
    {
      var bytes := Take(len);
      if bytes.None? {
        return None;
      }
      var child := new Reader.Init(bytes.value);
      return Some(child);
    }

    method ReadU8() returns (r: Option<nat>)
      requires Valid()
      modifies this
      ensures Valid()
      ensures old(Left()) < 1 ==> r == None && offs == old(offs)
      ensures old(Left()) >= 1 ==> r == Some(BeValue(buf[old(offs)..old(offs) + 1])) && offs == old(offs) + 1
    {
      if Left() < 1 {
        return None;
      }
      var arg := buf[offs];
      assert Some(arg) == DecodeU8(buf[offs..offs + 1]);
      offs := offs + 1;
      return Some(arg);
    }

    method ReadU16() returns (r: Option<nat>)
      requires Valid()
      modifies this
      ensures Valid()
      ensures old(Left()) < 2 ==> r == None && offs == old(offs)
      ensures old(Left()) >= 2 ==> r == Some(BeValue(buf[old(offs)..old(offs) + 2])) && offs == old(offs) + 2
    {
      if Left() < 2 {
        return None;
      }
      var arg0 := buf[offs];
      var arg1 := buf[offs + 1];
      assert Some(arg0 as nat * 0x100 + arg1) == DecodeU16(buf[offs..offs + 2]);
      offs := offs + 2;
      return Some(arg0 as nat * 0x100 + arg1);
    }

    method ReadU24() returns (r: Option<nat>)
      requires Valid()
      modifies this
      ensures Valid()
      ensures old(Left()) < 3 ==> r == None && offs == old(offs)
      ensures old(Left()) >= 3 ==> r == Some(BeValue(buf[old(offs)..old(offs) + 3])) && offs == old(offs) + 3
    {
      if Left() < 3 {
        return None;
      }
      var arg0 := buf[offs];
      var arg1 := buf[offs + 1];
      var arg2 := buf[offs + 2];
      var ret := arg0 as nat * 0x1_0000 + arg1 as nat * 0x100 + arg2;
      assert buf[offs..offs + 3][..3] == buf[offs..offs + 3];
      assert Some(ret) == DecodeU24(buf[offs..offs + 3]);
      offs := offs + 3;
      return Some(ret);
    }

    method ReadU32() returns (r: Option<nat>)
      requires Valid()
      modifies this
      ensures Valid()
      ensures old(Left()) < 4 ==> r == None && offs == old(offs)
      ensures old(Left()) >= 4 ==> r == Some(BeValue(buf[old(offs)..old(offs) + 4])) && offs == old(offs) + 4
    {
      if Left() < 4 {
        return None;
      }
      var arg0 := buf[offs];
      var arg1 := buf[offs + 1];
      var arg2 := buf[offs + 2];
      var arg3 := buf[offs + 3];
      var ret := arg0 as nat * 0x100_0000 + arg1 as nat * 0x1_0000 + arg2 as nat * 0x100 + arg3;
      assert buf[offs..offs + 4][..4] == buf[offs..offs + 4];
      assert Some(ret) == DecodeU32(buf[offs..offs + 4]);
      offs := offs + 4;
      return Some(ret);
    }

    method ReadU64() returns (r: Option<nat>)
      requires Valid()
      modifies this
      ensures Valid()
      ensures old(Left()) < 8 ==> r == None && offs == old(offs)
      ensures old(Left()) >= 8 ==> r == Some(BeValue(buf[old(offs)..old(offs) + 8])) && offs == old(offs) + 8
    {
      if Left() < 8 {
        return None;
      }
      var arg0 := buf[offs];
      var arg1 := buf[offs + 1];
      var arg2 := buf[offs + 2];
      var arg3 := buf[offs + 3];
      var arg4 := buf[offs + 4];
      var arg5 := buf[offs + 5];
      var arg6 := buf[offs + 6];
      var arg7 := buf[offs + 7];
      var ret := arg0 as nat * 0x100_0000_0000_0000 + arg1 as nat * 0x1_0000_0000_0000
        + arg2 as nat * 0x100_0000_0000 + arg3 as nat * 0x1_0000_0000
        + arg4 as nat * 0x100_0000 + arg5 as nat * 0x1_0000 + arg6 as nat * 0x100 + arg7;
      assert buf[offs..offs + 8][..8] == buf[offs..offs + 8];
      assert Some(ret) == DecodeU64(buf[offs..offs + 8]);
      offs := offs + 8;
      return Some(ret);
    }

    method U8EncodedSlice() returns (r: Option<seq<Byte>>)
      requires Valid()
      modifies this
      ensures Valid()
      ensures SliceRead(buf, old(offs), 1, r, offs)
    {
      var len := ReadU8();
      if len.None? {
        return None;
      }
      r := Take(len.value);
    }

    method U16EncodedSlice() returns (r: Option<seq<Byte>>)
      requires Valid()
      modifies this
      ensures Valid()
      ensures SliceRead(buf, old(offs), 2, r, offs)
    {
      var len := ReadU16();
      if len.None? {
        return None;
      }
      r := Take(len.value);
    }

    method U24EncodedSlice() returns (r: Option<seq<Byte>>)
      requires Valid()
      modifies this
      ensures Valid()
      ensures SliceRead(buf, old(offs), 3, r, offs)
    {
      var len := ReadU24();
      if len.None? {
        return None;
      }
      r := Take(len.value);
    }

    method U32EncodedSlice() returns (r: Option<seq<Byte>>)
      requires Valid()
      modifies this
      ensures Valid()
      ensures SliceRead(buf, old(offs), 4, r, offs)
    {
      var len := ReadU32();
      if len.None? {
        return None;
      }
      r := Take(len.value);
    }

    method U64EncodedSlice() returns (r: Option<seq<Byte>>)
      requires Valid()
      modifies this
      ensures Valid()
      ensures SliceRead(buf, old(offs), 8, r, offs)
    {
      var len := ReadU64();
      if len.None? {
        return None;
      }
      r := Take(len.value);
    }

    /** Everything that remains, as an unprefixed payload; the offset does not move. */
    method Payload() returns (p: Option<UnprefixedPayload>)
      requires Valid()
      ensures p == Some(UnprefixedPayload.Payload(buf[offs..]))
    {
      return Some(UnprefixedPayload.Payload(Rest()));
    }

    method U8Payload() returns (p: Option<PayloadU8>)
      requires Valid()
      modifies this
      ensures Valid()
      ensures SliceRead(buf, old(offs), 1, if p.Some? then Some(p.value.bytes) else None, offs)
    {
      var slice := U8EncodedSlice();
      if slice.None? {
        return None;
      }
      return Some(PayloadU8(slice.value));
    }

    method U16Payload() returns (p: Option<PayloadU16>)
      requires Valid()
      modifies this
      ensures Valid()
      ensures SliceRead(buf, old(offs), 2, if p.Some? then Some(p.value.bytes) else None, offs)
    {
      var slice := U16EncodedSlice();
      if slice.None? {
        return None;
      }
      return Some(PayloadU16(slice.value));
    }

    method U24Payload() returns (p: Option<PayloadU24>)
      requires Valid()
      modifies this
      ensures Valid()
      ensures SliceRead(buf, old(offs), 3, if p.Some? then Some(p.value.bytes) else None, offs)
    {
      var slice := U24EncodedSlice();
      if slice.None? {
        return None;
      }
      return Some(PayloadU24(slice.value));
    }

    method U32Payload() returns (p: Option<PayloadU32>)
      requires Valid()
      modifies this
      ensures Valid()
      ensures SliceRead(buf, old(offs), 4, if p.Some? then Some(p.value.bytes) else None, offs)
    {
      var slice := U32EncodedSlice();
      if slice.None? {
        return None;
      }
      return Some(PayloadU32(slice.value));
    }

    method U64Payload() returns (p: Option<PayloadU64>)
      requires Valid()
      modifies this
      ensures Valid()
      ensures SliceRead(buf, old(offs), 8, if p.Some? then Some(p.value.bytes) else None, offs)
    {
      var slice := U64EncodedSlice();
      if slice.None? {
        return None;
      }
      return Some(PayloadU64(slice.value));
    }
  }

  /** Encoding a payload of at most 255 bytes, appending anything at all,
      and reading from a fresh reader over the result gives the payload
      back and leaves exactly the appended bytes unread. */
  method PayloadU8ReadBack(p: PayloadU8, trailing: seq<Byte>) returns (q: Option<PayloadU8>, left: nat)
    requires p.Len() <= 0xFF
    ensures q == Some(p) && left == |trailing|
  {
    var out := new ByteVec();
    p.Encode(out);
    Extend(trailing, out);
    assert out.data == [] + BeBytes(p.Len(), 1) + p.bytes + trailing;
    SliceReadOfEncoding([], p.bytes, trailing, 1);
    var r := new Reader.Init(out.data);
    q := PayloadU8.Read(r);
    left := r.Left();
  }

  /** A payload longer than 255 bytes is written with its length modulo 256,
      so a reader sees only that many bytes and leaves the rest unread. */
  lemma PayloadU8OversizedReadsShort(p: PayloadU8)
    requires p.Len() > 0xFF
    ensures var n := p.Len() % 0x100;
      SliceRead(p.Encoding(), 0, 1, Some(p.bytes[..n]), 1 + n)
  {
    var n := p.Len() % 0x100;
    assert p.Encoding() == [] + BeBytes(n, 1) + p.bytes[..n] + p.bytes[n..];
    SliceReadOfEncoding([], p.bytes[..n], p.bytes[n..], 1);
  }

  /** A sub-reader is independent of its parent: once created, consuming it
      completely leaves the parent exactly n bytes further on. */
  method SubIsolation(r: Reader, n: nat) returns (child: Reader)
    requires r.Valid() && r.Left() >= n
    modifies r
    ensures r.Valid() && r.Used() == old(r.Used()) + n
    ensures child.Valid() && !child.AnyLeft() && child.Used() == n
  {
    var s := r.Sub(n);
    child := s.value;
    var all := child.Take(n);
  }

  /** The reader walk-through from the crate's unit test. */
  method ValidateReader() returns (r: Reader)
    ensures r.Valid() && !r.AnyLeft() && r.Used() == 10 && r.Left() == 0
  {
    var testData: seq<Byte> := [0, 1, 2, 3, 4, 5, 6, 7, 8, 9];
    r := new Reader.Init(testData);
    assert r.Rest() == testData && r.AnyLeft() && r.Left() == 10 && r.Used() == 0;

    var x := r.Take(2);
    assert testData[0..2] == [0, 1];
    assert x == Some([0, 1]);
    assert r.Rest() == [2, 3, 4, 5, 6, 7, 8, 9];
    assert r.AnyLeft() && r.Left() == 8 && r.Used() == 2;

    var tooLong := r.Sub(10);
    assert tooLong.None?;

    var sub := r.Sub(8);
    var child := sub.value;
    assert child.Rest() == [2, 3, 4, 5, 6, 7, 8, 9];
    assert child.AnyLeft() && child.Left() == 8 && child.Used() == 0;
  }
}
