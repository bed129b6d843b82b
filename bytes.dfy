/**
  Byte-level building blocks of the wire format: fixed-width integers and
  their little-endian encodings (Rust's `to_le_bytes` / `from_le_bytes`),
  NUL-terminated C strings (`CStr::to_bytes_with_nul`), the first-NUL
  search (`memchr(0, buf)`) and decimal formatting (`format!("{}", n)`).
 */
module Bytes {
  import opened Wrappers

  type byte = x: int | 0 <= x < 0x100
  type int16 = x: int | -0x8000 <= x < 0x8000
  type int32 = x: int | -0x8000_0000 <= x < 0x8000_0000
  type uint16 = x: int | 0 <= x < 0x1_0000
  type uint64 = x: int | 0 <= x < 0x1_0000_0000_0000_0000

  /** 256 to the power n: the number of values n bytes can hold. */
  function Pow256(n: nat): (r: nat)
    ensures r >= 1
  {
    if n == 0 then 1 else 256 * Pow256(n - 1)
  }

  // ---------------------------------------------------------------------
  // Unsigned little-endian encoding
  // ---------------------------------------------------------------------

  /** The unsigned value of a little-endian byte sequence. */
  function FromLe(bs: seq<byte>): (u: nat)
    ensures u < Pow256(|bs|)
  {
    if bs == [] then 0
    else
      var rest := FromLe(bs[1..]);
      assert bs[0] + 256 * rest <= 255 + 256 * (Pow256(|bs| - 1) - 1);
      bs[0] + 256 * rest
  }

  /** The n little-endian bytes of u (least significant byte first). */
  function ToLe(u: nat, n: nat): (bs: seq<byte>)
    requires u < Pow256(n)
    ensures |bs| == n
    ensures FromLe(bs) == u
  {
    if n == 0 then []
    else
      var low := u % 256;
      var high := u / 256;
      assert high < Pow256(n - 1);
      var bs := [low] + ToLe(high, n - 1);
      assert bs[1..] == ToLe(high, n - 1);
      bs
  }

  /** Encoding is also a left inverse: bytes survive a decode/encode trip. */
  lemma {:induction false} ToLeFromLe(bs: seq<byte>)
    ensures ToLe(FromLe(bs), |bs|) == bs
  {
    if bs != [] {
      var rest := FromLe(bs[1..]);
      assert FromLe(bs) == bs[0] + 256 * rest;
      assert FromLe(bs) % 256 == bs[0];
      assert FromLe(bs) / 256 == rest;
      ToLeFromLe(bs[1..]);
    }
  }

  /** Two equal-length byte sequences with the same value are equal. */
  lemma FromLeInjective(a: seq<byte>, b: seq<byte>)
    requires |a| == |b| && FromLe(a) == FromLe(b)
    ensures a == b
  {
    ToLeFromLe(a);
    ToLeFromLe(b);
  }

  // ---------------------------------------------------------------------
  // Two's complement fixed-width integers
  // ---------------------------------------------------------------------

  /** Two's complement bit pattern of x in n bytes. */
  function Wrap(x: int, n: nat): (u: nat)
    requires 0 < n
    requires 0 <= x + Pow256(n) / 2 < Pow256(n)
    ensures u < Pow256(n)
    ensures x >= 0 ==> u == x
    ensures x < 0 ==> u == x + Pow256(n)
  {
    if x < 0 then x + Pow256(n) else x
  }

  /** The signed value of an n-byte two's complement bit pattern. */
  function Unwrap(u: nat, n: nat): (x: int)
    requires 0 < n && u < Pow256(n)
    ensures 0 <= x + Pow256(n) / 2 < Pow256(n)
    ensures Wrap(x, n) == u
  {
    Pow256Even(n);
    if u >= Pow256(n) / 2 then u - Pow256(n) else u
  }

  lemma Pow256Even(n: nat)
    requires 0 < n
    ensures Pow256(n) == 2 * (Pow256(n) / 2)
  {
    assert Pow256(n) == 256 * Pow256(n - 1);
  }

  lemma Pow256Values()
    ensures Pow256(2) == 0x1_0000
    ensures Pow256(4) == 0x1_0000_0000
    ensures Pow256(8) == 0x1_0000_0000_0000_0000
  {
  }

  /** `i16::to_le_bytes`. */
  function EncodeI16(x: int16): (bs: seq<byte>)
    ensures |bs| == 2
  {
    Pow256Values();
    ToLe(Wrap(x, 2), 2)
  }

  /** `i16::from_le_bytes`. */
  function DecodeI16(bs: seq<byte>): (x: int16)
    requires |bs| == 2
  {
    Pow256Values();
    Unwrap(FromLe(bs), 2)
  }

  /** `i32::to_le_bytes`. */
  function EncodeI32(x: int32): (bs: seq<byte>)
    ensures |bs| == 4
  {
    Pow256Values();
    ToLe(Wrap(x, 4), 4)
  }

  /** `i32::from_le_bytes`. */
  function DecodeI32(bs: seq<byte>): (x: int32)
    requires |bs| == 4
  {
    Pow256Values();
    Unwrap(FromLe(bs), 4)
  }

  /** `u64::to_le_bytes`. */
  function EncodeU64(x: uint64): (bs: seq<byte>)
    ensures |bs| == 8
  {
    Pow256Values();
    ToLe(x, 8)
  }

  /** `u64::from_le_bytes`. */
  function DecodeU64(bs: seq<byte>): (x: uint64)
    requires |bs| == 8
  {
    Pow256Values();
    FromLe(bs)
  }

  lemma WrapInjective(x: int, y: int, n: nat)
    requires 0 < n
    requires 0 <= x + Pow256(n) / 2 < Pow256(n)
    requires 0 <= y + Pow256(n) / 2 < Pow256(n)
    requires Wrap(x, n) == Wrap(y, n)
    ensures x == y
  {
  }

  /** Decoding undoes encoding and vice versa, for each width. */
  lemma I16RoundTrip(x: int16, bs: seq<byte>)
    requires |bs| == 2
    ensures DecodeI16(EncodeI16(x)) == x
    ensures EncodeI16(DecodeI16(bs)) == bs
  {
    Pow256Values();
    var y := DecodeI16(EncodeI16(x));
    WrapInjective(x, y, 2);
    ToLeFromLe(bs);
  }

  lemma I32RoundTrip(x: int32, bs: seq<byte>)
    requires |bs| == 4
    ensures DecodeI32(EncodeI32(x)) == x
    ensures EncodeI32(DecodeI32(bs)) == bs
  {
    Pow256Values();
    var y := DecodeI32(EncodeI32(x));
    WrapInjective(x, y, 4);
    ToLeFromLe(bs);
  }

  lemma U64RoundTrip(x: uint64, bs: seq<byte>)
    requires |bs| == 8
    ensures DecodeU64(EncodeU64(x)) == x
    ensures EncodeU64(DecodeU64(bs)) == bs
  {
    Pow256Values();
    ToLeFromLe(bs);
  }

  // ---------------------------------------------------------------------
  // C strings
  // ---------------------------------------------------------------------

  /** No interior NUL: the condition `CString::new` and `CStr` impose. */
  predicate NoNul(s: seq<byte>) {
    forall i :: 0 <= i < |s| ==> s[i] != 0
  }

  /** `to_bytes_with_nul`: the string's bytes followed by one NUL. */
  function CStr(s: seq<byte>): (r: seq<byte>)
    requires NoNul(s)
    ensures |r| == |s| + 1 && r[|s|] == 0 && r[..|s|] == s
  {
    s + [0]
  }

  /** `memchr(0, bs)`: the position of the first NUL byte, if any. */
  function FindNul(bs: seq<byte>): (r: Option<nat>)
    ensures r.None? <==> NoNul(bs)
    ensures r.Some? ==> r.value < |bs| && bs[r.value] == 0 && NoNul(bs[..r.value])
  {
    if bs == [] then None
    else if bs[0] == 0 then Some(0)
    else
      match FindNul(bs[1..])
      case None => None
      case Some(p) =>
        assert bs[..p + 1] == [bs[0]] + bs[1..][..p];
        Some(p + 1)
  }

  /** The first NUL of a C string followed by anything is its terminator. */
  lemma {:induction false} FindNulOfCStr(s: seq<byte>, rest: seq<byte>)
    requires NoNul(s)
    ensures FindNul(CStr(s) + rest) == Some(|s|)
  {
    var bs := CStr(s) + rest;
    assert bs[|s|] == 0;
    assert forall i :: 0 <= i < |s| ==> bs[i] == s[i];
  }

  /** Reads one NUL-terminated string; returns its bytes and what follows. */
  function ReadCStr(bs: seq<byte>): (r: Option<(seq<byte>, seq<byte>)>)
    ensures r.Some? ==> NoNul(r.value.0) && bs == CStr(r.value.0) + r.value.1
    ensures r.None? <==> NoNul(bs)
  {
    match FindNul(bs)
    case None => None
    case Some(p) =>
      assert bs == bs[..p] + [0] + bs[p + 1..];
      Some((bs[..p], bs[p + 1..]))
  }

  lemma ReadCStrOfCStr(s: seq<byte>, rest: seq<byte>)
    requires NoNul(s)
    ensures ReadCStr(CStr(s) + rest) == Some((s, rest))
  {
    FindNulOfCStr(s, rest);
    var bs := CStr(s) + rest;
    assert bs[..|s|] == s;
    assert bs[|s| + 1..] == rest;
  }

  /** Reads exactly n bytes; fails when fewer remain. */
  function ReadN(bs: seq<byte>, n: nat): (r: Option<(seq<byte>, seq<byte>)>)
    ensures r.Some? <==> n <= |bs|
    ensures r.Some? ==> |r.value.0| == n && bs == r.value.0 + r.value.1
  {
    if n <= |bs| then Some((bs[..n], bs[n..])) else None
  }

  lemma ReadNOf(a: seq<byte>, rest: seq<byte>)
    ensures ReadN(a + rest, |a|) == Some((a, rest))
  {
    assert (a + rest)[..|a|] == a;
    assert (a + rest)[|a|..] == rest;
  }

  // ---------------------------------------------------------------------
  // Byte strings built from pieces
  // ---------------------------------------------------------------------

  /** Twenty pieces appended one after another equal the same pieces nested to the right. */
  lemma Reassociate20<T>(p0: seq<T>, p1: seq<T>, p2: seq<T>, p3: seq<T>, p4: seq<T>,
                         p5: seq<T>, p6: seq<T>, p7: seq<T>, p8: seq<T>, p9: seq<T>,
                         p10: seq<T>, p11: seq<T>, p12: seq<T>, p13: seq<T>, p14: seq<T>,
                         p15: seq<T>, p16: seq<T>, p17: seq<T>, p18: seq<T>, p19: seq<T>)
    ensures p0 + p1 + p2 + p3 + p4 + p5 + p6 + p7 + p8 + p9
            + p10 + p11 + p12 + p13 + p14 + p15 + p16 + p17 + p18 + p19
         == p0 + (p1 + (p2 + (p3 + (p4 + (p5 + (p6 + (p7 + (p8 + (p9
            + (p10 + (p11 + (p12 + (p13 + (p14 + (p15 + (p16 + (p17 + (p18 + p19))))))))))))))))))
  {
  }

  // ---------------------------------------------------------------------
  // Text
  // ---------------------------------------------------------------------

  /** The bytes of an ASCII string literal. */
  function Ascii(s: string): (r: seq<byte>)
    ensures |r| == |s|
    ensures forall i :: 0 <= i < |s| ==> r[i] == (s[i] as int) % 256
  {
    seq(|s|, i requires 0 <= i < |s| => (s[i] as int) % 256)
  }

  /** Decimal digit byte '0'..'9'. */
  predicate IsDigit(b: byte) {
    0x30 <= b <= 0x39
  }

  /** `format!("{}", n)` for a natural number: its decimal digits. */
  function Decimal(n: nat): (ds: seq<byte>)
    ensures 1 <= |ds|
    ensures forall i :: 0 <= i < |ds| ==> IsDigit(ds[i])
    ensures ds[0] == 0x30 ==> n == 0
  {
    if n < 10 then [0x30 + n]
    else Decimal(n / 10) + [0x30 + n % 10]
  }

  /** The number a string of decimal digits denotes. */
  function DecimalValue(ds: seq<byte>): nat
    requires forall i :: 0 <= i < |ds| ==> IsDigit(ds[i])
  {
    if ds == [] then 0
    else
      var last := ds[|ds| - 1];
      assert IsDigit(last);
      10 * DecimalValue(ds[..|ds| - 1]) + (last - 0x30)
  }

  /** Formatting a number then reading its digits back gives the number. */
  lemma {:induction false} DecimalRoundTrip(n: nat)
    ensures DecimalValue(Decimal(n)) == n
  {
    var ds := Decimal(n);
    if n >= 10 {
      assert ds[..|ds| - 1] == Decimal(n / 10);
      DecimalRoundTrip(n / 10);
    }
  }

  /** Hence distinct numbers are formatted differently. */
  lemma DecimalInjective(m: nat, n: nat)
    requires Decimal(m) == Decimal(n)
    ensures m == n
  {
    DecimalRoundTrip(m);
    DecimalRoundTrip(n);
  }

  /** One digit below ten, two digits from ten to ninety-nine. */
  lemma DecimalLength(n: nat)
    ensures n < 10 ==> |Decimal(n)| == 1
    ensures 10 <= n < 100 ==> |Decimal(n)| == 2
  {
  }

  /** A decimal string never holds a NUL, so it is a valid C string body. */
  lemma DecimalNoNul(n: nat)
    ensures NoNul(Decimal(n))
  {
  }
}
