/**
 * UTF-8 as Rust's `str::as_bytes` and `std::str::from_utf8` see it
 * (section 3 of RFC 3629): the bytes of a string, and the check that turns a
 * byte sequence back into a string or refuses it.
 */
module Utf8 {
  import opened Wrappers

  type byte = x: int | 0 <= x < 256

  predicate IsContinuation(b: byte) {
    0x80 <= b < 0xC0
  }

  /** The scalar values a `char` may hold. */
  predicate IsScalar(n: int) {
    0 <= n < 0xD800 || 0xE000 <= n < 0x11_0000
  }

  /** The one to four bytes of one scalar value. */
  function EncodeChar(c: char): (r: seq<byte>)
    ensures 1 <= |r| <= 4
    ensures (c as int < 0x80) <==> |r| == 1
    ensures |r| == 1 ==> r[0] == c as int
    ensures |r| > 1 ==> r[0] >= 0xC0
    ensures forall i :: 1 <= i < |r| ==> IsContinuation(r[i])
  {
    var n := c as int;
    if n < 0x80 then [n]
    else if n < 0x800 then [0xC0 + n / 64, 0x80 + n % 64]
    else if n < 0x1_0000 then [0xE0 + n / 4096, 0x80 + (n / 64) % 64, 0x80 + n % 64]
    else [0xF0 + n / 262144, 0x80 + (n / 4096) % 64, 0x80 + (n / 64) % 64, 0x80 + n % 64]
  }

  /** `str::as_bytes`: the UTF-8 bytes of a string. */
  function Encode(s: string): (r: seq<byte>)
    ensures |r| >= |s|
  {
    if s == [] then [] else EncodeChar(s[0]) + Encode(s[1..])
  }

  /** The code point spelt by a lead byte's payload and `k` continuation bytes. */
  function Payload(b: seq<byte>, lead: int, k: nat): int
    requires k < |b|
  {
    if k == 0 then lead else Payload(b, lead, k - 1) * 64 + (b[k] as int - 0x80)
  }

  /**
   * The first scalar value of `b` and the number of bytes it takes, or None
   * when `b` does not start with a well-formed sequence: a stray continuation
   * byte, a truncated sequence, an overlong form, a surrogate, or a value
   * beyond U+10FFFF.
   */
  function DecodeFirst(b: seq<byte>): (r: Option<(char, nat)>)
    requires |b| > 0
    ensures r.Some? ==> 1 <= r.value.1 <= |b| && r.value.1 <= 4
  {
    var b0: int := b[0];
    var k := if b0 < 0x80 then 0 else if 0xC0 <= b0 < 0xE0 then 1
             else if 0xE0 <= b0 < 0xF0 then 2 else if 0xF0 <= b0 < 0xF8 then 3 else 4;
    var lead := if k == 0 then b0 else if k == 1 then b0 - 0xC0 else if k == 2 then b0 - 0xE0 else b0 - 0xF0;
    var least := if k == 0 then 0 else if k == 1 then 0x80 else if k == 2 then 0x800 else 0x1_0000;
    if k == 4 || |b| <= k then None
    else if !(forall i :: 1 <= i <= k ==> IsContinuation(b[i])) then None
    else
      var n := Payload(b, lead, k);
      if n < least || !IsScalar(n) then None else Some((n as char, k + 1))
  }

  /** `std::str::from_utf8`: the string spelt by `b`, or None when `b` is not UTF-8. */
  function Decode(b: seq<byte>): Option<string>
    decreases |b|
  {
    if b == [] then Some([])
    else match DecodeFirst(b)
      case None => None
      case Some((c, k)) =>
        match Decode(b[k..])
        case None => None
        case Some(s) => Some([c] + s)
  }

  /** (q * 64 + r) / 64 == q for a remainder below 64. */
  lemma DivModOf(q: int, r: int)
    requires 0 <= r < 64
    ensures (q * 64 + r) / 64 == q && (q * 64 + r) % 64 == r
  {
  }

  lemma {:induction false} EncodeAppend(a: string, b: string)
    ensures Encode(a + b) == Encode(a) + Encode(b)
  {
    if a == [] {
      assert a + b == b;
    } else {
      assert (a + b)[0] == a[0] && (a + b)[1..] == a[1..] + b;
      EncodeAppend(a[1..], b);
    }
  }

  /** An all-ASCII string keeps one byte per character. */
  lemma {:induction false} EncodeAscii(s: string)
    requires forall i :: 0 <= i < |s| ==> s[i] as int < 0x80
    ensures |Encode(s)| == |s|
    ensures forall i :: 0 <= i < |s| ==> Encode(s)[i] == s[i] as int
  {
    if s != [] {
      EncodeAscii(s[1..]);
    }
  }

  /** A line feed is the only character whose bytes hold the byte 0x0A. */
  lemma {:induction false} EncodeNoNewline(s: string)
    requires '\n' !in s
    ensures forall i :: 0 <= i < |Encode(s)| ==> Encode(s)[i] != 0x0A
  {
    if s != [] {
      EncodeNoNewline(s[1..]);
      var e := EncodeChar(s[0]);
      assert s[0] != '\n';
      assert forall i :: 0 <= i < |e| ==> e[i] != 0x0A;
      assert Encode(s) == e + Encode(s[1..]);
    }
  }

  /** Dividing by 64 twice or thrice is dividing by 4096 or 262144. */
  lemma DivTwice(n: nat)
    ensures n / 4096 == (n / 64) / 64 && n / 262144 == (n / 4096) / 64
  {
    var m, r := n / 64, n % 64;
    var q, s := m / 64, m % 64;
    assert n == 4096 * q + (64 * s + r);
    var q2, s2 := q / 64, q % 64;
    assert n == 262144 * q2 + (4096 * s2 + 64 * s + r);
  }

  /** Decoding the bytes of one character gives it back, whatever follows. */
  lemma DecodeFirstEncodeChar(c: char, rest: seq<byte>)
    ensures DecodeFirst(EncodeChar(c) + rest) == Some((c, |EncodeChar(c)|))
  {
    var n := c as int;
    if n < 0x80 {
    } else if n < 0x800 {
      EncodedTwo(c, rest);
    } else if n < 0x1_0000 {
      EncodedThree(c, rest);
    } else {
      EncodedFour(c, rest);
    }
  }

  lemma EncodedTwo(c: char, rest: seq<byte>)
    requires 0x80 <= c as int < 0x800
    ensures DecodeFirst(EncodeChar(c) + rest) == Some((c, 2))
  {
    var n := c as int;
    var e := EncodeChar(c);
    var b := e + rest;
    assert e == [0xC0 + n / 64, 0x80 + n % 64];
    var lead: int := b[0] as int - 0xC0;
    assert Payload(b, lead, 1) == n;
  }

  lemma EncodedThree(c: char, rest: seq<byte>)
    requires 0x800 <= c as int < 0x1_0000
    ensures DecodeFirst(EncodeChar(c) + rest) == Some((c, 3))
  {
    var n := c as int;
    var e := EncodeChar(c);
    var b := e + rest;
    DivTwice(n);
    assert e == [0xE0 + n / 4096, 0x80 + (n / 64) % 64, 0x80 + n % 64];
    var lead: int := b[0] as int - 0xE0;
    assert b[1] == e[1] && b[2] == e[2];
    assert Payload(b, lead, 1) == n / 64;
    assert Payload(b, lead, 2) == n;
  }

  lemma EncodedFour(c: char, rest: seq<byte>)
    requires 0x1_0000 <= c as int
    ensures DecodeFirst(EncodeChar(c) + rest) == Some((c, 4))
  {
    var n := c as int;
    var e := EncodeChar(c);
    var b := e + rest;
    DivTwice(n);
    assert e == [0xF0 + n / 262144, 0x80 + (n / 4096) % 64, 0x80 + (n / 64) % 64, 0x80 + n % 64];
    var lead: int := b[0] as int - 0xF0;
    assert b[1] == e[1] && b[2] == e[2] && b[3] == e[3];
    assert Payload(b, lead, 1) == n / 4096;
    assert Payload(b, lead, 2) == n / 64;
    assert Payload(b, lead, 3) == n;
  }

  /** A well-formed prefix is exactly the encoding of the character it decodes to. */
  lemma EncodeCharDecodeFirst(b: seq<byte>)
    requires |b| > 0 && DecodeFirst(b).Some?
    ensures EncodeChar(DecodeFirst(b).value.0) == b[..DecodeFirst(b).value.1]
  {
    var len := DecodeFirst(b).value.1;
    if len == 2 {
      DecodedTwo(b);
    } else if len == 3 {
      DecodedThree(b);
    } else if len == 4 {
      DecodedFour(b);
    }
  }

  lemma DecodedTwo(b: seq<byte>)
    requires |b| > 0 && DecodeFirst(b).Some? && DecodeFirst(b).value.1 == 2
    ensures EncodeChar(DecodeFirst(b).value.0) == b[..2]
  {
    var n := DecodeFirst(b).value.0 as int;
    var lead, b1 := b[0] as int - 0xC0, b[1] as int - 0x80;
    assert n == Payload(b, lead, 1) == lead * 64 + b1;
    DivModOf(lead, b1);
  }

  lemma DecodedThree(b: seq<byte>)
    requires |b| > 0 && DecodeFirst(b).Some? && DecodeFirst(b).value.1 == 3
    ensures EncodeChar(DecodeFirst(b).value.0) == b[..3]
  {
    var n := DecodeFirst(b).value.0 as int;
    var lead, b1, b2 := b[0] as int - 0xE0, b[1] as int - 0x80, b[2] as int - 0x80;
    assert Payload(b, lead, 0) == lead;
    var p1 := Payload(b, lead, 1);
    assert p1 == lead * 64 + b1;
    assert n == Payload(b, lead, 2) == p1 * 64 + b2;
    DivModOf(p1, b2);
    DivModOf(lead, b1);
    DivTwice(n);
  }

  lemma DecodedFour(b: seq<byte>)
    requires |b| > 0 && DecodeFirst(b).Some? && DecodeFirst(b).value.1 == 4
    ensures EncodeChar(DecodeFirst(b).value.0) == b[..4]
  {
    var n := DecodeFirst(b).value.0 as int;
    var lead, b1, b2, b3 := b[0] as int - 0xF0, b[1] as int - 0x80, b[2] as int - 0x80, b[3] as int - 0x80;
    assert Payload(b, lead, 0) == lead;
    var p1 := Payload(b, lead, 1);
    var p2 := Payload(b, lead, 2);
    assert p1 == lead * 64 + b1;
    assert p2 == p1 * 64 + b2;
    assert n == Payload(b, lead, 3) == p2 * 64 + b3;
    DivModOf(p2, b3);
    DivModOf(p1, b2);
    DivModOf(lead, b1);
    DivTwice(n);
  }

  lemma EncodeCons(c: char, s: string)
    ensures Encode([c] + s) == EncodeChar(c) + Encode(s)
  {
    assert ([c] + s)[1..] == s;
  }

  /** Round trip: the bytes of a string always decode to that string. */
  lemma {:induction false} DecodeEncode(s: string)
    ensures Decode(Encode(s)) == Some(s)
  {
    if s != [] {
      var e := EncodeChar(s[0]);
      DecodeFirstEncodeChar(s[0], Encode(s[1..]));
      assert Encode(s)[|e|..] == Encode(s[1..]);
      DecodeEncode(s[1..]);
      assert [s[0]] + s[1..] == s;
    }
  }

  /** Round trip: bytes that decode are the encoding of what they decode to. */
  lemma {:induction false} EncodeDecode(b: seq<byte>)
    requires Decode(b).Some?
    ensures Encode(Decode(b).value) == b
    decreases |b|
  {
    if b != [] {
      var (c, k) := DecodeFirst(b).value;
      var t := Decode(b[k..]).value;
      calc {
        Encode(Decode(b).value);
        Encode([c] + t);
        { EncodeCons(c, t); }
        EncodeChar(c) + Encode(t);
        { EncodeCharDecodeFirst(b); EncodeDecode(b[k..]); }
        b[..k] + b[k..];
        b;
      }
    }
  }
}
