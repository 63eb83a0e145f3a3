/**
 * UTF-8 as defined by RFC 3629: the encoding of Unicode scalar values
 * (Dafny's `char`) as bytes, and the partial decoder that accepts exactly the
 * well-formed byte sequences of section 4 of RFC 3629. Rust's `str::as_bytes`
 * is `Encode`, and `String::from_utf8` is `Decode`.
 */
module Utf8 {
  import opened Wrappers

  newtype byte = x: int | 0 <= x < 256

  /** A continuation byte: UTF8-tail = %x80-BF. */
  predicate IsTail(b: byte) {
    0x80 <= b <= 0xBF
  }

  /** The bytes of one scalar value, shortest form (section 3 of RFC 3629). */
  function EncodeChar(c: char): (r: seq<byte>)
    ensures 1 <= |r| <= 4
  {
    var n := c as int;
    if n < 0x80 then
      [n as byte]
    else if n < 0x800 then
      [(0xC0 + n / 0x40) as byte, (0x80 + n % 0x40) as byte]
    else if n < 0x1_0000 then
      [(0xE0 + n / 0x1000) as byte, (0x80 + n / 0x40 % 0x40) as byte, (0x80 + n % 0x40) as byte]
    else
      [(0xF0 + n / 0x4_0000) as byte, (0x80 + n / 0x1000 % 0x40) as byte,
       (0x80 + n / 0x40 % 0x40) as byte, (0x80 + n % 0x40) as byte]
  }

  function Encode(s: string): (r: seq<byte>)
    ensures |s| <= |r|
  {
    if |s| == 0 then [] else EncodeChar(s[0]) + Encode(s[1..])
  }

  /**
   * The range the second byte of a multi-byte sequence must fall in, given
   * its lead byte (the UTF8-3 and UTF8-4 rules of section 4 of RFC 3629);
   * this is what rules out overlong forms, surrogates and values past U+10FFFF.
   */
  function SecondByteRange(lead: byte): (r: (byte, byte))
    requires 0xE0 <= lead <= 0xF4
  {
    if lead == 0xE0 then (0xA0, 0xBF)
    else if lead == 0xED then (0x80, 0x9F)
    else if lead == 0xF0 then (0x90, 0xBF)
    else if lead == 0xF4 then (0x80, 0x8F)
    else (0x80, 0xBF)
  }

  /** The first scalar value of `b` and how many bytes it takes, or None when `b` does not start well-formed. */
  function DecodeFirst(b: seq<byte>): (r: Option<(char, nat)>)
    requires |b| > 0
    ensures r.Some? ==> 1 <= r.value.1 <= |b|
  {
    var b0 := b[0] as int;
    if b0 <= 0x7F then
      Some((b0 as char, 1))
    else if 0xC2 <= b0 <= 0xDF then
      if 2 <= |b| && IsTail(b[1]) then
        Some((((b0 - 0xC0) * 0x40 + (b[1] as int - 0x80)) as char, 2))
      else None
    else if 0xE0 <= b0 <= 0xEF then
      var (lo, hi) := SecondByteRange(b[0]);
      if 3 <= |b| && lo <= b[1] <= hi && IsTail(b[2]) then
        Some((((b0 - 0xE0) * 0x1000 + (b[1] as int - 0x80) * 0x40 + (b[2] as int - 0x80)) as char, 3))
      else None
    else if 0xF0 <= b0 <= 0xF4 then
      var (lo, hi) := SecondByteRange(b[0]);
      if 4 <= |b| && lo <= b[1] <= hi && IsTail(b[2]) && IsTail(b[3]) then
        Some((((b0 - 0xF0) * 0x4_0000 + (b[1] as int - 0x80) * 0x1000
               + (b[2] as int - 0x80) * 0x40 + (b[3] as int - 0x80)) as char, 4))
      else None
    else
      None
  }

  function Decode(b: seq<byte>): (r: Option<string>)
    decreases |b|
  {
    if |b| == 0 then Some([])
    else match DecodeFirst(b)
      case None => None
      case Some((c, n)) =>
        match Decode(b[n..])
        case None => None
        case Some(s) => Some([c] + s)
  }

  /** Division by 0x40 is determined by a quotient and a remainder in range. */
  lemma DivMod64(n: int, q: int, r: int)
    requires 0 <= r < 0x40 && n == q * 0x40 + r
    ensures n / 0x40 == q && n % 0x40 == r
  {
  }

  /** Division by 0x1000 is determined by a quotient and a remainder in range. */
  lemma DivMod4096(n: int, q: int, r: int)
    requires 0 <= r < 0x1000 && n == q * 0x1000 + r
    ensures n / 0x1000 == q
  {
  }

  /** Division by 0x4_0000 is determined by a quotient and a remainder in range. */
  lemma DivMod262144(n: int, q: int, r: int)
    requires 0 <= r < 0x4_0000 && n == q * 0x4_0000 + r
    ensures n / 0x4_0000 == q
  {
  }

  lemma DecodeFirstOfEncodeChar2(c: char, rest: seq<byte>)
    requires 0x80 <= c as int < 0x800
    ensures DecodeFirst(EncodeChar(c) + rest) == Some((c, 2))
  {
    var n := c as int;
    var hi, lo := n / 0x40, n % 0x40;
    assert 2 <= hi < 0x20;
    var b := EncodeChar(c) + rest;
    assert b[0] as int == 0xC0 + hi && b[1] as int == 0x80 + lo;
    assert (b[0] as int - 0xC0) * 0x40 + (b[1] as int - 0x80) == n;
  }

  /** A three-byte scalar value is its three base-64 digits, as `EncodeChar` takes them apart. */
  lemma Digits3(n: int)
    requires 0x800 <= n < 0x1_0000
    ensures n == n / 0x1000 * 0x1000 + n / 0x40 % 0x40 * 0x40 + n % 0x40
    ensures n / 0x1000 < 0x10
  {
    var q1 := n / 0x40;
    DivMod4096(n, q1 / 0x40, q1 % 0x40 * 0x40 + n % 0x40);
  }

  /** A four-byte scalar value is its four base-64 digits, as `EncodeChar` takes them apart. */
  lemma Digits4(n: int)
    requires 0x1_0000 <= n < 0x11_0000
    ensures n == n / 0x4_0000 * 0x4_0000 + n / 0x1000 % 0x40 * 0x1000 + n / 0x40 % 0x40 * 0x40 + n % 0x40
    ensures n / 0x4_0000 <= 4
  {
    var q1 := n / 0x40;
    var q2 := q1 / 0x40;
    DivMod4096(n, q2, q1 % 0x40 * 0x40 + n % 0x40);
    DivMod262144(n, q2 / 0x40, q2 % 0x40 * 0x1000 + q1 % 0x40 * 0x40 + n % 0x40);
  }

  lemma DecodeFirstOfEncodeChar3(c: char, rest: seq<byte>)
    requires 0x800 <= c as int < 0x1_0000
    ensures DecodeFirst(EncodeChar(c) + rest) == Some((c, 3))
  {
    var n := c as int;
    Digits3(n);
    var h, m, l := n / 0x1000, n / 0x40 % 0x40, n % 0x40;
    assert h == 0 ==> 0x20 <= m;
    assert h == 0xD ==> m < 0x20;
    var b := EncodeChar(c) + rest;
    assert b[0] as int == 0xE0 + h && b[1] as int == 0x80 + m && b[2] as int == 0x80 + l;
    var (lo, hi) := SecondByteRange(b[0]);
    assert lo <= b[1] <= hi;
  }

  lemma DecodeFirstOfEncodeChar4(c: char, rest: seq<byte>)
    requires 0x1_0000 <= c as int
    ensures DecodeFirst(EncodeChar(c) + rest) == Some((c, 4))
  {
    var n := c as int;
    Digits4(n);
    var h, t1, t2, t3 := n / 0x4_0000, n / 0x1000 % 0x40, n / 0x40 % 0x40, n % 0x40;
    assert h == 0 ==> 0x10 <= t1;
    assert h == 4 ==> t1 < 0x10;
    var b := EncodeChar(c) + rest;
    assert b[0] as int == 0xF0 + h && b[1] as int == 0x80 + t1
        && b[2] as int == 0x80 + t2 && b[3] as int == 0x80 + t3;
    var (lo, hi) := SecondByteRange(b[0]);
    assert lo <= b[1] <= hi;
  }

  lemma DecodeFirstOfEncodeChar(c: char, rest: seq<byte>)
    ensures DecodeFirst(EncodeChar(c) + rest) == Some((c, |EncodeChar(c)|))
  {
    var n := c as int;
    if n < 0x80 {
    } else if n < 0x800 {
      DecodeFirstOfEncodeChar2(c, rest);
    } else if n < 0x1_0000 {
      DecodeFirstOfEncodeChar3(c, rest);
    } else {
      DecodeFirstOfEncodeChar4(c, rest);
    }
  }

  lemma EncodeCharOfDecodeFirst3(b: seq<byte>)
    requires |b| > 0 && DecodeFirst(b).Some? && DecodeFirst(b).value.1 == 3
    ensures EncodeChar(DecodeFirst(b).value.0) == b[..3]
  {
    var c := DecodeFirst(b).value.0;
    var n, b0 := c as int, b[0] as int;
    var t1, t2 := b[1] as int - 0x80, b[2] as int - 0x80;
    var q1 := (b0 - 0xE0) * 0x40 + t1;
    assert n == q1 * 0x40 + t2;
    DivMod64(n, q1, t2);
    DivMod64(q1, b0 - 0xE0, t1);
    DivMod4096(n, b0 - 0xE0, t1 * 0x40 + t2);
  }

  lemma EncodeCharOfDecodeFirst4(b: seq<byte>)
    requires |b| > 0 && DecodeFirst(b).Some? && DecodeFirst(b).value.1 == 4
    ensures EncodeChar(DecodeFirst(b).value.0) == b[..4]
  {
    var c := DecodeFirst(b).value.0;
    var n, b0 := c as int, b[0] as int;
    var t1, t2, t3 := b[1] as int - 0x80, b[2] as int - 0x80, b[3] as int - 0x80;
    var q2 := (b0 - 0xF0) * 0x40 + t1;
    var q1 := q2 * 0x40 + t2;
    assert n == q1 * 0x40 + t3;
    DivMod64(n, q1, t3);
    DivMod64(q1, q2, t2);
    DivMod4096(n, q2, t2 * 0x40 + t3);
    DivMod64(q2, b0 - 0xF0, t1);
    DivMod262144(n, b0 - 0xF0, t1 * 0x1000 + t2 * 0x40 + t3);
  }

  lemma EncodeCharOfDecodeFirst(b: seq<byte>)
    requires |b| > 0 && DecodeFirst(b).Some?
    ensures EncodeChar(DecodeFirst(b).value.0) == b[..DecodeFirst(b).value.1]
  {
    var (c, len) := DecodeFirst(b).value;
    if len == 2 {
      DivMod64(c as int, b[0] as int - 0xC0, b[1] as int - 0x80);
    } else if len == 3 {
      EncodeCharOfDecodeFirst3(b);
    } else if len == 4 {
      EncodeCharOfDecodeFirst4(b);
    }
  }

  /** Every string survives an encode followed by a decode. */
  lemma {:induction false} DecodeEncode(s: string)
    ensures Decode(Encode(s)) == Some(s)
  {
    if |s| > 0 {
      var e := EncodeChar(s[0]);
      DecodeFirstOfEncodeChar(s[0], Encode(s[1..]));
      assert (e + Encode(s[1..]))[|e|..] == Encode(s[1..]);
      DecodeEncode(s[1..]);
      assert [s[0]] + s[1..] == s;
    }
  }

  /** A well-formed sequence decodes as its first scalar value followed by the decoding of the rest. */
  lemma DecodeStep(b: seq<byte>)
    requires |b| > 0 && Decode(b).Some?
    ensures DecodeFirst(b).Some?
    ensures Decode(b[DecodeFirst(b).value.1..]).Some?
    ensures Decode(b).value == [DecodeFirst(b).value.0] + Decode(b[DecodeFirst(b).value.1..]).value
  {
  }

  /** Encoding a string with a first character puts that character's bytes first. */
  lemma EncodeCons(c: char, s: string)
    ensures Encode([c] + s) == EncodeChar(c) + Encode(s)
  {
    assert ([c] + s)[1..] == s;
  }

  lemma Reassemble(b: seq<byte>, n: nat, front: seq<byte>, back: seq<byte>)
    requires n <= |b| && front == b[..n] && back == b[n..]
    ensures front + back == b
  {
  }

  /** Whatever decodes re-encodes to the very same bytes. */
  lemma {:induction false} EncodeDecode(b: seq<byte>)
    requires Decode(b).Some?
    ensures Encode(Decode(b).value) == b
    decreases |b|
  {
    if |b| > 0 {
      DecodeStep(b);
      EncodeCharOfDecodeFirst(b);
      var (c, n) := DecodeFirst(b).value;
      var rest := Decode(b[n..]).value;
      EncodeDecode(b[n..]);
      EncodeCons(c, rest);
      Reassemble(b, n, EncodeChar(c), Encode(rest));
    }
  }

  /** Distinct strings have distinct encodings. */
  lemma EncodeInjective(s: string, t: string)
    requires Encode(s) == Encode(t)
    ensures s == t
  {
    DecodeEncode(s);
    DecodeEncode(t);
  }

  /** Distinct well-formed byte sequences decode to distinct strings. */
  lemma DecodeInjective(a: seq<byte>, b: seq<byte>)
    requires Decode(a).Some? && Decode(a) == Decode(b)
    ensures a == b
  {
    EncodeDecode(a);
    EncodeDecode(b);
  }
}
