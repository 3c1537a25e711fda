# codecbase, modelled in Dafny

A model of the zero-copy binary codec of the `codecbase` crate: the
`Reader` cursor that consumes a borrowed byte buffer front to back, the
fixed-width big-endian integer encoders and decoders (8, 16, 24, 32 and 64
bits), and the length-prefixed payload containers built from them, with the
properties each of them promises proved.

- `bytes.dfy` (module `Bytes`): the shared vocabulary. Rust's `u8`..`u64` are
  bounded naturals. `BeValue(s)` is the big-endian value of a byte string and
  `BeBytes(v, n)` the `n` low-order bytes of `v`, most significant first;
  `BeValueOfBeBytes` and `BeBytesOfBeValue` prove them inverse. `ByteVec` is
  the caller's `Vec<u8>`, which encoders only append to.
- `codec.dfy` (module `Codec`, for codec.rs): the integer codec as methods
  that push onto a `ByteVec` (and `PutU64`, which fills an array) and as pure
  decode functions; the `Reader` class with its `buf` and `offs` fields and
  the invariant `offs <= |buf|`; the predicate `SliceRead`, which says what
  a length-prefixed read does; and the payload types, of which `PayloadU8`
  carries the `Codec` implementation.
- `base.dfy` (module `Base`, for base.rs): the owned `Payload` (unprefixed),
  `PayloadU24`, `PayloadU16` and `PayloadU8`.

`x as u8` and `(v >> 8k) as u8` are written out as `% 0x100` and
`v / 256^k % 0x100`. The decoders OR shifted bytes into disjoint bit fields,
and the model writes that OR as the equal sum; `OrIsSumU16` .. `OrIsSumU64`
prove that equality on the machine words of each width.

The three length-prefixed containers (`Codec.PayloadU8`, `Base.PayloadU16`,
`Base.PayloadU24`) have an `Encoding()`: the length prefix and the bytes that
their `encode` appends, which `GetEncoding` returns. The unprefixed
`Base.Payload` has no prefix: its encoding is its bytes, and its
`GetEncoding` returns exactly those.

`PayloadU8ReadBack`, `PayloadU16ReadBack` and `PayloadU24ReadBack` encode a
payload, append arbitrary trailing bytes and read the result back through a
fresh `Reader`. Each proves that it gets the payload back and that exactly
the trailing bytes stay unread. `PayloadReadBack` appends no trailing bytes:
an unprefixed read returns everything that follows it and does not move the
reader. So it proves that it gets the payload back with every byte still
unread.

Four behaviours of the code that a reader of its API might not expect; the
model keeps each of them as written:

- A failed `uN_encoded_slice` (and every read built on it) is not free of
  side effects. When the length prefix is read but the body is too short,
  the prefix stays consumed (`SliceRead`, `SliceReadTruncated`).
- No encoder checks that a payload's length fits its prefix. `encode` casts
  the length with `as u8` / `as u16` / `as u32` and writes the whole body
  anyway (`PayloadU8OversizedReadsShort`, `PayloadU16OversizedReadsShort`).
- Only `PayloadU8` (codec.rs), `Payload`, `PayloadU16` and `PayloadU24`
  (base.rs) implement `Codec`. `PayloadU16`..`PayloadU64` in codec.rs are
  only produced by the reader.
- The raw `decode_uN` functions index the slice unchecked. Their callers
  must supply enough bytes, so the model makes that a `requires`.

## Model

| member | source | states |
|---|---|---|
| Bytes.BeValue | codec.rs:353-364 | the big-endian value of n bytes is below 256^n |
| Bytes.BeBytes | codec.rs:336-351 | an n-byte encoding has exactly n bytes |
| Bytes.BeValueOfBeBytes | codec.rs:289-364 | decoding the n-byte encoding of v gives v mod 256^n |
| Bytes.BeBytesOfBeValue | codec.rs:289-364 | encoding the value of n bytes into n bytes gives those bytes back |
| Bytes.BeBytesDigit | codec.rs:342-351 | byte i of the n-byte encoding is `(v >> 8(n-1-i)) as u8` |
| Codec.Extend | codec.rs:7-9 | the vector grows by exactly the given slice |
| Codec.EncodeU8 | codec.rs:289-291 | appends the 1-byte encoding, earlier contents untouched |
| Codec.OrIsSumU16 | codec.rs:303-305 | on `u16`, OR-ing the shifted high byte with the low byte equals adding them |
| Codec.OrIsSumU24 | codec.rs:314-316 | on `u32`, OR-ing three shifted bytes equals adding them |
| Codec.OrIsSumU32 | codec.rs:326-332 | on `u32`, OR-ing four shifted bytes equals adding them |
| Codec.OrIsSumU64 | codec.rs:353-364 | on `u64`, OR-ing eight shifted bytes equals adding them |
| Codec.DecodeU8 | codec.rs:293-295 | yields the value of the first byte |
| Codec.EncodeU16 | codec.rs:298-301 | appends exactly the 2-byte big-endian encoding, earlier contents untouched |
| Codec.DecodeU16 | codec.rs:303-305 | the shift-and-OR of the first 2 bytes is their big-endian value |
| Codec.EncodeU24 | codec.rs:308-312 | appends exactly 3 bytes, the low 24 bits of the u32, big-endian |
| Codec.DecodeU24 | codec.rs:314-316 | the shift-and-OR of the first 3 bytes is their big-endian value, below 2^24 |
| Codec.EncodeU32 | codec.rs:319-324 | appends exactly the 4-byte big-endian encoding |
| Codec.DecodeU32 | codec.rs:326-333 | the shift-and-OR of the first 4 bytes is their big-endian value |
| Codec.EncodeU64 | codec.rs:336-340 | appends exactly the 8-byte big-endian encoding |
| Codec.PutU64 | codec.rs:342-351 | the first 8 cells hold the big-endian encoding, later cells unchanged |
| Codec.DecodeU64 | codec.rs:353-364 | the shift-and-OR of the first 8 bytes is their big-endian value |
| Codec.DecodeEncodeU8 | codec.rs:289-295 | decode_u8 of encode_u8(v) is v |
| Codec.DecodeEncodeU16 | codec.rs:298-305 | decode_u16 of encode_u16(v) is v |
| Codec.DecodeEncodeU24 | codec.rs:308-316 | decode_u24 of encode_u24(v) is v mod 2^24, so exactly v when v < 2^24 |
| Codec.DecodeEncodeU32 | codec.rs:319-333 | decode_u32 of encode_u32(v) is v |
| Codec.DecodeEncodeU64 | codec.rs:336-364 | decode_u64 of encode_u64(v) is v |
| Codec.PayloadU8.New | codec.rs:14-16 | holds exactly the given bytes; len is their count |
| Codec.PayloadU8.FromSlice | codec.rs:17-19 | holds exactly the given bytes; len is their count |
| Codec.PayloadU8.Encoding | codec.rs:32-35 | 1 + len bytes: a 1-byte length equal to len mod 256, then the bytes |
| Codec.PayloadU8.Encode | codec.rs:32-35 | appends the encoding to the vector |
| Codec.PayloadU8.Read | codec.rs:36-38 | reads a 1-byte length and that many bytes, failing as `SliceRead` says |
| Codec.PayloadU8.GetEncoding | codec.rs:280-284 | returns exactly what encode appends to an empty vector |
| Codec.SliceReadOfEncoding | codec.rs:191-226 | a w-byte length then that many bytes reads back as those bytes, consuming w + length, when the length is below 256^w |
| Codec.SliceReadTruncated | codec.rs:79-86 | at any offset, a length that promises more bytes than follow fails, with the prefix consumed |
| Codec.Reader.Init | codec.rs:69-71 | a reader over the whole buffer at offset 0 |
| Codec.Reader.Rest | codec.rs:74-76 | the consumed prefix and the rest make up the buffer; the rest has left() bytes |
| Codec.Reader.Take | codec.rs:79-86 | too few bytes: None, offset unchanged; else exactly the next n bytes, offset up by n |
| Codec.Reader.AnyLeft | codec.rs:89-91 | true exactly when left() > 0 |
| Codec.Reader.Left | codec.rs:94-96 | used() + left() == buffer length |
| Codec.Reader.Used | codec.rs:99-101 | the consumed count never exceeds the buffer length |
| Codec.Reader.Sub | codec.rs:104-106 | fails like take; else a fresh reader over exactly the n bytes taken, with used() == 0 and left() == n, parent up by n |
| Codec.Reader.ReadU8 | codec.rs:109-116 | the next byte, offset up by 1; on an exhausted reader None, offset unchanged |
| Codec.Reader.ReadU16 | codec.rs:119-129 | big-endian value of the next 2 bytes, offset up by 2; too few: None, offset unchanged |
| Codec.Reader.ReadU24 | codec.rs:132-144 | big-endian value of the next 3 bytes, offset up by 3; too few: None, offset unchanged |
| Codec.Reader.ReadU32 | codec.rs:147-161 | big-endian value of the next 4 bytes, offset up by 4; too few: None, offset unchanged |
| Codec.Reader.ReadU64 | codec.rs:164-186 | big-endian value of the next 8 bytes, offset up by 8; too few: None, offset unchanged |
| Codec.Reader.U8EncodedSlice | codec.rs:191-194 | the len bytes after a 1-byte length len, offset up by 1 + len; None if the prefix or the take fails |
| Codec.Reader.U16EncodedSlice | codec.rs:199-202 | the same with a 2-byte length |
| Codec.Reader.U24EncodedSlice | codec.rs:207-210 | the same with a 3-byte length |
| Codec.Reader.U32EncodedSlice | codec.rs:215-218 | the same with a 4-byte length |
| Codec.Reader.U64EncodedSlice | codec.rs:223-226 | the same with an 8-byte length |
| Codec.Reader.Payload | codec.rs:229-231 | always the remaining bytes, without moving the reader |
| Codec.Reader.U8Payload | codec.rs:235-238 | wraps the result of the 1-byte-length slice read |
| Codec.Reader.U16Payload | codec.rs:242-245 | wraps the result of the 2-byte-length slice read |
| Codec.Reader.U24Payload | codec.rs:249-252 | wraps the result of the 3-byte-length slice read |
| Codec.Reader.U32Payload | codec.rs:256-259 | wraps the result of the 4-byte-length slice read |
| Codec.Reader.U64Payload | codec.rs:263-266 | wraps the result of the 8-byte-length slice read |
| Codec.PayloadU8ReadBack | codec.rs:31-38 | a payload of at most 255 bytes, encoded and read back, is returned intact with only the trailing bytes left |
| Codec.PayloadU8OversizedReadsShort | codec.rs:33 | a payload over 255 bytes reads back as only its first len mod 256 bytes |
| Codec.SubIsolation | codec.rs:104-106 | consuming a sub-reader completely leaves its parent exactly n bytes further on, nothing more |
| Codec.ValidateReader | lib.rs:16-77 | the crate's reader walk-through: take(2), sub(10) fails, sub(8) starts at 0 with 8 left, parent exhausted at 10 used |
| Base.Payload.Encode | base.rs:10-12 | appends the bytes verbatim, with no length prefix |
| Base.Payload.Read | base.rs:14-16 | always succeeds with all of rest(), without moving the reader |
| Base.Payload.New | base.rs:20-22 | holds exactly the given bytes |
| Base.Payload.Empty | base.rs:24-26 | holds no bytes, length 0 |
| Base.Payload.FromSlice | base.rs:28-32 | holds exactly the given bytes; len is their count |
| Base.Payload.GetEncoding | codec.rs:280-284 | the encoding of an unprefixed payload is its bytes |
| Base.PayloadReadBack | base.rs:9-17 | an unprefixed payload encoded and read back is returned intact, with every byte still unread |
| Base.PayloadU24.New | base.rs:41-43 | holds exactly the given bytes |
| Base.PayloadU24.Encoding | base.rs:49-52 | 3 + len bytes: a 3-byte big-endian length equal to len mod 2^24, then the bytes |
| Base.PayloadU24.Encode | base.rs:49-52 | appends the encoding to the vector |
| Base.PayloadU24.Read | base.rs:54-57 | a 3-byte length, then that many bytes; None when the length exceeds what remains |
| Base.PayloadU24.GetEncoding | codec.rs:280-284 | returns exactly what encode appends to an empty vector |
| Base.PayloadU24ReadBack | base.rs:48-58 | a payload under 2^24 bytes, encoded and read back, is returned intact with only the trailing bytes left |
| Base.PayloadU16.New | base.rs:65-67 | holds exactly the given bytes |
| Base.PayloadU16.Encoding | base.rs:73-76 | 2 + len bytes: a 2-byte big-endian length equal to len mod 2^16, then the bytes |
| Base.PayloadU16.Encode | base.rs:73-76 | appends the encoding to the vector |
| Base.PayloadU16.Read | base.rs:78-83 | a 2-byte length, then a sub-reader of exactly that many bytes as the body; outer reader up by 2 + length |
| Base.PayloadU16.GetEncoding | codec.rs:280-284 | returns exactly what encode appends to an empty vector |
| Base.PayloadU16ReadBack | base.rs:72-84 | a payload of at most 65535 bytes, encoded and read back, is returned intact with only the trailing bytes left |
| Base.PayloadU16OversizedReadsShort | base.rs:74 | a payload over 65535 bytes reads back as only its first len mod 2^16 bytes |
| Base.PayloadU8.FromSlice | base.rs:93-95 | holds exactly the given bytes; len is their count |
| Base.PayloadU8.New | base.rs:97-99 | holds exactly the given bytes; len is their count |

## Left out

- Ownership: the `Cow` borrowed/owned distinction and the lifetimes tying a
  reader or payload to its buffer. Every payload holds its bytes as a value.
  `New` and `FromSlice` therefore coincide.
- The `len` accessors are plain functions without a contract of their own.
  The constructor rows above state what they return.
- Machine widths: lengths and offsets are unbounded naturals. `read_u64`
  returns its value `as usize`, which is exact only on a 64-bit target; the
  model assumes one.
- The vector codecs `encode_vec_u*` / `read_vec_u*` and the second `Codec`
  implementation of `PayloadU8` in base.rs: both are commented out in the
  source and not compiled.
- The `try_ret!` macro (macros.rs is not part of this model): it is read as
  an early `None` return.
- `Debug` derives and the `Vec::with_capacity` hints, which do not affect
  contents.
- Module wiring in lib.rs (base.rs is not declared as a module there): base.rs
  is modelled anyway, over the reader and codec of codec.rs.
- Codec.DecodeU8, Codec.DecodeU16, Codec.DecodeU24, Codec.DecodeU32,
  Codec.DecodeU64, Codec.PutU64: Rust indexes the slice or array unchecked and
  panics when it is too short. The model requires enough bytes instead and
  does not model the panic. `put_u64`'s only caller passes an 8-byte array;
  the `decode_uN` functions have no caller in the crate.
