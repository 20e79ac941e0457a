/**
  UTF-8, as Rust's `str::as_bytes` (encoding) and `String::from_utf8` (validating
  decoding) treat it. A Rust `String` is a sequence of Unicode scalar values, which
  is exactly Dafny's `string` (`seq<char>`). The byte layout follows RFC 3629
  section 3: one to four bytes per scalar, no overlong forms, no surrogates, no
  scalar above U+10FFFF.
*/
module Utf8 {
  import opened Wrappers
  import Lex

  type Byte = b: int | 0 <= b < 256

  /** The code points of a string, the sequence `char`-wise order compares. */
  function CodePoints(s: string): (r: seq<int>)
    ensures |r| == |s|
  {
    if s == [] then [] else [s[0] as int] + CodePoints(s[1..])
  }

  lemma {:induction false} CodePointsPrefix(s: string, k: nat)
    requires k <= |s|
    ensures CodePoints(s)[..k] == CodePoints(s[..k])
    ensures forall i :: 0 <= i < |s| ==> CodePoints(s)[i] == s[i] as int
  {
    if s != [] {
      CodePointsPrefix(s[1..], if k > 0 then k - 1 else 0);
      if k > 0 {
        assert s[..k] == [s[0]] + s[1..][..k - 1];
      }
    }
  }

  /** Number of bytes RFC 3629 assigns to the scalar c. */
  function Width(c: char): nat {
    var cp := c as int;
    if cp < 0x80 then 1 else if cp < 0x800 then 2 else if cp < 0x10000 then 3 else 4
  }

  predicate IsContinuation(b: Byte) {
    0x80 <= b < 0xC0
  }

  /** The bytes of one scalar value. */
  function EncodeChar(c: char): (r: seq<Byte>)
    ensures |r| == Width(c)
    ensures |r| == 1 <==> r[0] < 0x80
    ensures |r| == 2 <==> 0xC0 <= r[0] < 0xE0
    ensures |r| == 3 <==> 0xE0 <= r[0] < 0xF0
    ensures |r| == 4 <==> 0xF0 <= r[0] < 0xF8
    ensures forall i :: 1 <= i < |r| ==> IsContinuation(r[i])
  {
    var cp := c as int;
    if cp < 0x80 then [cp]
    else if cp < 0x800 then [0xC0 + cp / 64, 0x80 + cp % 64]
    else if cp < 0x10000 then [0xE0 + cp / 4096, 0x80 + (cp / 64) % 64, 0x80 + cp % 64]
    else [0xF0 + cp / 262144, 0x80 + (cp / 4096) % 64, 0x80 + (cp / 64) % 64, 0x80 + cp % 64]
  }

  /** `str::as_bytes`: the UTF-8 encoding of a whole string. */
  function Encode(s: string): (r: seq<Byte>)
    ensures |s| <= |r| <= 4 * |s|
    ensures |r| == 0 <==> s == []
  {
    if s == [] then [] else EncodeChar(s[0]) + Encode(s[1..])
  }

  /** One decoded scalar together with the number of bytes it took. */
  datatype Scalar = Scalar(c: char, len: nat)

  /**
    Decodes the scalar at the head of a non-empty byte sequence, rejecting
    truncated sequences, stray continuation bytes, overlong forms, surrogates and
    values above U+10FFFF. What it accepts is exactly the encoding of the scalar.
  */
  function DecodeScalar(b: seq<Byte>): (r: Option<Scalar>)
    requires |b| > 0
    ensures r.Some? ==> 1 <= r.value.len <= |b| && EncodeChar(r.value.c) == b[..r.value.len]
  {
    var b0 := b[0];
    if b0 < 0x80 then
      Some(Scalar(b0 as char, 1))
    else if 0xC0 <= b0 < 0xE0 then
      if |b| >= 2 && IsContinuation(b[1]) then
        var cp := (b0 as int - 0xC0) * 64 + (b[1] as int - 0x80);
        if 0x80 <= cp then
          Decoded2(b, cp);
          Some(Scalar(cp as char, 2))
        else None
      else None
    else if 0xE0 <= b0 < 0xF0 then
      if |b| >= 3 && IsContinuation(b[1]) && IsContinuation(b[2]) then
        var cp := (b0 as int - 0xE0) * 4096 + (b[1] as int - 0x80) * 64 + (b[2] as int - 0x80);
        if 0x800 <= cp && !(0xD800 <= cp < 0xE000) then
          Decoded3(b, cp);
          Some(Scalar(cp as char, 3))
        else None
      else None
    else if 0xF0 <= b0 < 0xF8 then
      if |b| >= 4 && IsContinuation(b[1]) && IsContinuation(b[2]) && IsContinuation(b[3]) then
        var cp := (b0 as int - 0xF0) * 262144 + (b[1] as int - 0x80) * 4096 + (b[2] as int - 0x80) * 64 + (b[3] as int - 0x80);
        if 0x10000 <= cp < 0x110000 then
          Decoded4(b, cp);
          Some(Scalar(cp as char, 4))
        else None
      else None
    else None
  }

  lemma Decoded2(b: seq<Byte>, cp: int)
    requires |b| >= 2 && 0xC0 <= b[0] < 0xE0 && IsContinuation(b[1])
    requires cp == (b[0] as int - 0xC0) * 64 + (b[1] as int - 0x80) && 0x80 <= cp
    ensures EncodeChar(cp as char) == b[..2]
  {
  }

  lemma Decoded3(b: seq<Byte>, cp: int)
    requires |b| >= 3 && 0xE0 <= b[0] < 0xF0 && IsContinuation(b[1]) && IsContinuation(b[2])
    requires cp == (b[0] as int - 0xE0) * 4096 + (b[1] as int - 0x80) * 64 + (b[2] as int - 0x80)
    requires 0x800 <= cp && !(0xD800 <= cp < 0xE000)
    ensures EncodeChar(cp as char) == b[..3]
  {
  }

  lemma Decoded4(b: seq<Byte>, cp: int)
    requires |b| >= 4 && 0xF0 <= b[0] < 0xF8
    requires IsContinuation(b[1]) && IsContinuation(b[2]) && IsContinuation(b[3])
    requires cp == (b[0] as int - 0xF0) * 262144 + (b[1] as int - 0x80) * 4096 + (b[2] as int - 0x80) * 64 + (b[3] as int - 0x80)
    requires 0x10000 <= cp < 0x110000
    ensures EncodeChar(cp as char) == b[..4]
  {
    var top: int := (b[0] as int - 0xF0) * 64 + (b[1] as int - 0x80);
    var hi: int := top * 64 + (b[2] as int - 0x80);
    assert cp == hi * 64 + (b[3] as int - 0x80);
    assert cp / 64 == hi && cp % 64 == b[3] - 0x80;
    assert hi / 64 == top && hi % 64 == b[2] - 0x80;
    assert top / 64 == b[0] - 0xF0 && top % 64 == b[1] - 0x80;
    assert cp / 4096 == hi / 64;
    assert cp / 262144 == top / 64;
  }

  /**
    `String::from_utf8`: the string whose encoding is b, or None when b is not
    well-formed UTF-8. Whatever it returns encodes back to b.
  */
  function Decode(b: seq<Byte>): (r: Option<string>)
    ensures r.Some? ==> Encode(r.value) == b
    decreases |b|
  {
    if b == [] then Some([])
    else
      match DecodeScalar(b)
      case None => None
      case Some(sc) =>
        match Decode(b[sc.len..])
        case None => None
        case Some(rest) =>
          assert b == b[..sc.len] + b[sc.len..];
          Some([sc.c] + rest)
  }

  /** The head of an encoding decodes to the scalar that was encoded, taking its whole width. */
  lemma DecodeScalarOfEncoding(c: char, rest: seq<Byte>)
    ensures DecodeScalar(EncodeChar(c) + rest) == Some(Scalar(c, Width(c)))
  {
    var b := EncodeChar(c) + rest;
    var cp := c as int;
    assert b[..Width(c)] == EncodeChar(c);
    if cp < 0x80 {
    } else if cp < 0x800 {
      assert b[0] == 0xC0 + cp / 64 && b[1] == 0x80 + cp % 64;
      assert (b[0] as int - 0xC0) * 64 + (b[1] as int - 0x80) == cp;
    } else if cp < 0x10000 {
      assert b[0] == 0xE0 + cp / 4096 && b[1] == 0x80 + (cp / 64) % 64 && b[2] == 0x80 + cp % 64;
      assert cp / 4096 == (cp / 64) / 64;
      assert (b[0] as int - 0xE0) * 4096 + (b[1] as int - 0x80) * 64 + (b[2] as int - 0x80) == cp;
    } else {
      assert b[0] == 0xF0 + cp / 262144 && b[1] == 0x80 + (cp / 4096) % 64;
      assert b[2] == 0x80 + (cp / 64) % 64 && b[3] == 0x80 + cp % 64;
      assert cp / 4096 == (cp / 64) / 64;
      assert cp / 262144 == (cp / 4096) / 64;
      assert (b[0] as int - 0xF0) * 262144 + (b[1] as int - 0x80) * 4096
        + (b[2] as int - 0x80) * 64 + (b[3] as int - 0x80) == cp;
    }
  }

  /** Round trip: decoding the encoding of any string gives that string back. */
  lemma {:induction false} DecodeEncode(s: string)
    ensures Decode(Encode(s)) == Some(s)
  {
    if s != [] {
      var b := Encode(s);
      DecodeScalarOfEncoding(s[0], Encode(s[1..]));
      assert b[Width(s[0])..] == Encode(s[1..]);
      DecodeEncode(s[1..]);
      assert s == [s[0]] + s[1..];
    }
  }

  /** Distinct strings have distinct encodings. */
  lemma EncodeInjective(s: string, t: string)
    ensures Encode(s) == Encode(t) <==> s == t
  {
    DecodeEncode(s);
    DecodeEncode(t);
  }

  /** Decode succeeds exactly on the encodings of strings, and then inverts Encode. */
  lemma DecodeIff(b: seq<Byte>, s: string)
    ensures Decode(b) == Some(s) <==> Encode(s) == b
  {
    if Encode(s) == b {
      DecodeEncode(s);
    }
  }

  /** Base-64 digits: the order of two numbers is decided by their high part, then their low digit. */
  lemma DigitOrder(x: int, y: int)
    requires 0 <= x < y
    ensures x / 64 <= y / 64
    ensures x / 64 == y / 64 ==> x % 64 < y % 64
  {
  }

  lemma DivDiv(x: int)
    requires 0 <= x
    ensures x / 4096 == (x / 64) / 64 && x / 262144 == (x / 4096) / 64
  {
  }

  /** Encodings of two scalars first differ at a position where the smaller scalar has the smaller byte. */
  lemma EncodeCharOrder(c: char, d: char) returns (k: nat)
    requires c as int < d as int
    ensures k < |EncodeChar(c)| && k < |EncodeChar(d)|
    ensures EncodeChar(c)[..k] == EncodeChar(d)[..k] && EncodeChar(c)[k] < EncodeChar(d)[k]
  {
    var x, y := c as int, d as int;
    k := 0;
    if Width(c) == Width(d) && Width(c) > 1 {
      DigitOrder(x, y);
      DivDiv(x);
      DivDiv(y);
      if x / 64 < y / 64 {
        DigitOrder(x / 64, y / 64);
        if x / 4096 < y / 4096 {
          DigitOrder(x / 4096, y / 4096);
        }
      }
      k := EqualWidthOrder(c, d);
    }
  }

  lemma EqualWidthOrder(c: char, d: char) returns (k: nat)
    requires c as int < d as int && Width(c) == Width(d) > 1
    requires (c as int) / 64 <= (d as int) / 64
    requires (c as int) / 64 == (d as int) / 64 ==> (c as int) % 64 < (d as int) % 64
    requires (c as int) / 4096 <= (d as int) / 4096
    requires (c as int) / 4096 == (d as int) / 4096 && (c as int) / 64 != (d as int) / 64
             ==> ((c as int) / 64) % 64 < ((d as int) / 64) % 64
    requires (c as int) / 262144 <= (d as int) / 262144
    requires (c as int) / 262144 == (d as int) / 262144 && (c as int) / 4096 != (d as int) / 4096
             ==> ((c as int) / 4096) % 64 < ((d as int) / 4096) % 64
    requires (c as int) / 4096 == ((c as int) / 64) / 64 && (d as int) / 4096 == ((d as int) / 64) / 64
    requires (c as int) / 262144 == ((c as int) / 4096) / 64 && (d as int) / 262144 == ((d as int) / 4096) / 64
    ensures k < |EncodeChar(c)| && k < |EncodeChar(d)|
    ensures EncodeChar(c)[..k] == EncodeChar(d)[..k] && EncodeChar(c)[k] < EncodeChar(d)[k]
  {
    var x, y := c as int, d as int;
    var ec, ed := EncodeChar(c), EncodeChar(d);
    if Width(c) == 2 {
      k := if x / 64 == y / 64 then 1 else 0;
    } else if Width(c) == 3 {
      k := if x / 4096 != y / 4096 then 0 else if x / 64 != y / 64 then 1 else 2;
    } else {
      k := if x / 262144 != y / 262144 then 0
           else if x / 4096 != y / 4096 then 1
           else if x / 64 != y / 64 then 2
           else 3;
    }
  }

  /** Byte order of encodings agrees with code point order of the strings. */
  lemma {:induction false} EncodeOrder(s: string, t: string)
    ensures Lex.Compare(Encode(s), Encode(t)) == Lex.Compare(CodePoints(s), CodePoints(t))
  {
    if s != [] && t != [] {
      var es, et := EncodeChar(s[0]), EncodeChar(t[0]);
      var xs, xt := Encode(s[1..]), Encode(t[1..]);
      if s[0] == t[0] {
        Lex.CompareCommonPrefix(es, xs, xt);
        Lex.CompareCommonPrefix([s[0] as int], CodePoints(s[1..]), CodePoints(t[1..]));
        EncodeOrder(s[1..], t[1..]);
      } else if s[0] as int < t[0] as int {
        var k := EncodeCharOrder(s[0], t[0]);
        assert (es + xs)[..k] == es[..k] && (et + xt)[..k] == et[..k];
        Lex.CompareDecidedAt(es + xs, et + xt, k);
      } else {
        var k := EncodeCharOrder(t[0], s[0]);
        assert (es + xs)[..k] == es[..k] && (et + xt)[..k] == et[..k];
        Lex.CompareDecidedAt(et + xt, es + xs, k);
        Lex.CompareReverse(et + xt, es + xs);
      }
    }
  }
}
