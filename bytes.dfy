/** Byte-level vocabulary shared by the codec: fixed-width unsigned integer
    types, the big-endian value of a byte string and the big-endian bytes of
    a value, and the growable byte vector that the encoders append to. */
module Bytes {

  datatype Option<+T> = None | Some(value: T)

  /** Rust's `u8` .. `u64` as bounded naturals. */
  type Byte = x: nat | x < 0x100
  type U16 = x: nat | x < 0x1_0000
  type U32 = x: nat | x < 0x1_0000_0000
  type U64 = x: nat | x < 0x1_0000_0000_0000_0000

  /** 256 to the power n: one more than the largest value n bytes can hold. */
  function Pow256(n: nat): (p: nat)
    ensures p > 0
  {
    if n == 0 then 1 else 0x100 * Pow256(n - 1)
  }

  /** The unsigned integer whose big-endian (most significant byte first)
      representation is s. */
  function BeValue(s: seq<Byte>): (v: nat)
    ensures v < Pow256(|s|)
  {
    if s == [] then 0 else BeValue(s[..|s| - 1]) * 0x100 + s[|s| - 1]
  }

  /** The n low-order bytes of v, most significant first: what writing v
      into n bytes with shifts and truncating casts produces. */
  function BeBytes(v: nat, n: nat): (s: seq<Byte>)
    ensures |s| == n
  {
    if n == 0 then [] else BeBytes(v / 0x100, n - 1) + [v % 0x100]
  }

  /** Division with remainder is unique. */
  lemma DivModUnique(v: nat, m: nat, q: nat, t: nat)
    requires m > 0 && t < m && v == m * q + t
    ensures v / m == q && v % m == t
  {
    var q0, t0 := v / m, v % m;
    assert v == m * q0 + t0;
    if q > q0 {
      assert m * q >= m * (q0 + 1) by { MulMonotone(m, q0 + 1, q); }
      assert false;
    } else if q < q0 {
      assert m * q0 >= m * (q + 1) by { MulMonotone(m, q + 1, q0); }
      assert false;
    }
  }

  lemma MulMonotone(m: nat, a: nat, b: nat)
    requires a <= b
    ensures m * a <= m * b
  {
  }

  /** Dividing by a and then by b, and splitting a remainder modulo a * b. */
  lemma DivModNested(v: nat, a: nat, b: nat)
    requires a > 0 && b > 0
    ensures a * b > 0
    ensures v / (a * b) == v / a / b
    ensures v % (a * b) == a * (v / a % b) + v % a
  {
    var q, r := v / a, v % a;
    var q2, r2 := q / b, q % b;
    assert v == a * q + r;
    assert q == b * q2 + r2;
    assert v == (a * b) * q2 + (a * r2 + r) by {
      calc {
        v;
        a * q + r;
        a * (b * q2 + r2) + r;
        (a * b) * q2 + (a * r2 + r);
      }
    }
    assert a * r2 <= a * (b - 1) by { MulMonotone(a, r2, b - 1); }
    assert a * r2 + r < a * b;
    DivModUnique(v, a * b, q2, a * r2 + r);
  }

  /** Truncating to a multiple of a and then to a keeps the remainder modulo a. */
  lemma ModOfMod(v: nat, a: nat, b: nat)
    requires a > 0 && b > 0
    ensures a * b > 0 && v % (a * b) % a == v % a
  {
    DivModNested(v, a, b);
    DivModUnique(v % (a * b), a, v / a % b, v % a);
  }

  /** Encoding n bytes keeps exactly the value modulo 256^n. */
  lemma {:induction false} BeValueOfBeBytes(v: nat, n: nat)
    ensures BeValue(BeBytes(v, n)) == v % Pow256(n)
  {
    if n > 0 {
      var s := BeBytes(v / 0x100, n - 1);
      assert BeBytes(v, n)[..n - 1] == s;
      BeValueOfBeBytes(v / 0x100, n - 1);
      DivModNested(v, 0x100, Pow256(n - 1));
    }
  }

  /** Decoding n bytes and encoding the value back into n bytes gives them back. */
  lemma {:induction false} BeBytesOfBeValue(s: seq<Byte>)
    ensures BeBytes(BeValue(s), |s|) == s
  {
    if s != [] {
      var init, last := s[..|s| - 1], s[|s| - 1];
      BeBytesOfBeValue(init);
      DivModUnique(BeValue(s), 0x100, BeValue(init), last);
      assert s == init + [last];
    }
  }

  /** Byte i of the n-byte encoding of v is v shifted right by 8 * (n - 1 - i)
      bits and truncated to 8 bits. */
  lemma {:induction false} BeBytesDigit(v: nat, n: nat, i: nat)
    requires i < n
    ensures BeBytes(v, n)[i] == v / Pow256(n - 1 - i) % 0x100
  {
    if i < n - 1 {
      BeBytesDigit(v / 0x100, n - 1, i);
      DivModNested(v, 0x100, Pow256(n - 2 - i));
    }
  }

  lemma BeBytesAsDigits(v: nat, n: nat)
    ensures forall i :: 0 <= i < n ==> BeBytes(v, n)[i] == v / Pow256(n - 1 - i) % 0x100
  {
    forall i | 0 <= i < n
      ensures BeBytes(v, n)[i] == v / Pow256(n - 1 - i) % 0x100
    {
      BeBytesDigit(v, n, i);
    }
  }

  /** A value below 256^n survives an n-byte encoding unchanged. */
  lemma BeValueOfBeBytesExact(v: nat, n: nat)
    requires v < Pow256(n)
    ensures BeValue(BeBytes(v, n)) == v
  {
    BeValueOfBeBytes(v, n);
    DivModUnique(v, Pow256(n), 0, v);
  }

  /** The value of one more byte at the end: the Horner step. */
  lemma BeValueSnoc(s: seq<Byte>, k: nat)
    requires k < |s|
    ensures BeValue(s[..k + 1]) == BeValue(s[..k]) * 0x100 + s[k]
  {
    assert s[..k + 1][..k] == s[..k];
  }

  lemma Pow256Table()
    ensures Pow256(1) == 0x100 && Pow256(2) == 0x1_0000 && Pow256(3) == 0x100_0000
    ensures Pow256(4) == 0x1_0000_0000 && Pow256(5) == 0x100_0000_0000
    ensures Pow256(6) == 0x1_0000_0000_0000 && Pow256(7) == 0x100_0000_0000_0000
    ensures Pow256(8) == 0x1_0000_0000_0000_0000
  {
  }

  /** Rust's growable `Vec<u8>` as the encoders use it: they only append. */
  class ByteVec {
    var data: seq<Byte>

    constructor ()
      ensures data == []
    {
      data := [];
    }

    method Push(b: Byte)
      modifies this
      ensures data == old(data) + [b]
    {
      data := data + [b];
    }

    method ExtendFromSlice(s: seq<Byte>)
      modifies this
      ensures data == old(data) + s
    {
      data := data + s;
    }
  }
}
