/**
  UTF-8 as Rust's `std::str::from_utf8` understands it: exactly the well-formed
  byte sequences of the Unicode Standard (table 3-7 of chapter 3), so no
  overlong forms, no encoded surrogates and nothing above U+10FFFF.
  `Decode` is what the translation gateway uses to turn the host's bytes into
  text; `Encode` is its inverse, and both round trips are proved.
*/
module Utf8 {
  import opened Common

  predicate IsContinuation(b: byte) { 0x80 <= b <= 0xBF }

  /** The range the second byte of a multi-byte sequence must fall in, given its lead byte. */
  function SecondLow(b0: byte): byte
  {
    if b0 == 0xE0 then 0xA0 else if b0 == 0xF0 then 0x90 else 0x80
  }

  function SecondHigh(b0: byte): byte
  {
    if b0 == 0xED then 0x9F else if b0 == 0xF4 then 0x8F else 0xBF
  }

  predicate SecondOk(b0: byte, b1: byte) { SecondLow(b0) <= b1 <= SecondHigh(b0) }

  /** Decodes the first scalar value of `b`; the pair holds it and the number of bytes it took. */
  function DecodeFirst(b: seq<byte>): (r: Option<(char, nat)>)
    requires |b| > 0
    ensures r.Some? ==> 1 <= r.value.1 <= 4 && r.value.1 <= |b|
  {
    var b0 := b[0];
    if b0 < 0x80 then
      Some((b0 as int as char, 1))
    else if 0xC2 <= b0 <= 0xDF then
      if |b| >= 2 && IsContinuation(b[1]) then
        Some((((b0 as int - 0xC0) * 64 + (b[1] as int - 0x80)) as char, 2))
      else None
    else if 0xE0 <= b0 <= 0xEF then
      if |b| >= 3 && SecondOk(b0, b[1]) && IsContinuation(b[2]) then
        Some((((b0 as int - 0xE0) * 4096 + (b[1] as int - 0x80) * 64 + (b[2] as int - 0x80)) as char, 3))
      else None
    else if 0xF0 <= b0 <= 0xF4 then
      if |b| >= 4 && SecondOk(b0, b[1]) && IsContinuation(b[2]) && IsContinuation(b[3]) then
        Some((((b0 as int - 0xF0) * 0x40000 + (b[1] as int - 0x80) * 4096
               + (b[2] as int - 0x80) * 64 + (b[3] as int - 0x80)) as char, 4))
      else None
    else None
  }

  /** The text `b` encodes, or None when `b` is not well-formed UTF-8. */
  function Decode(b: seq<byte>): (r: Option<string>)
    ensures r.Some? ==> |r.value| <= |b|
    decreases |b|
  {
    if b == [] then Some([])
    else match DecodeFirst(b)
      case None => None
      case Some((c, n)) =>
        match Decode(b[n..])
        case None => None
        case Some(s) => Some([c] + s)
  }

  function EncodeChar(c: char): (r: seq<byte>)
    ensures 1 <= |r| <= 4
  {
    var n := c as int;
    if n < 0x80 then [n as byte]
    else if n < 0x800 then [(0xC0 + n / 64) as byte, (0x80 + n % 64) as byte]
    else if n < 0x10000 then
      [(0xE0 + n / 4096) as byte, (0x80 + (n / 64) % 64) as byte, (0x80 + n % 64) as byte]
    else
      [(0xF0 + n / 0x40000) as byte, (0x80 + (n / 4096) % 64) as byte,
       (0x80 + (n / 64) % 64) as byte, (0x80 + n % 64) as byte]
  }

  function Encode(s: string): (r: seq<byte>)
    ensures |s| <= |r| <= 4 * |s|
  {
    if s == [] then [] else EncodeChar(s[0]) + Encode(s[1..])
  }

  lemma {:induction false} EncodeAppend(s: string, t: string)
    ensures Encode(s + t) == Encode(s) + Encode(t)
  {
    if s != [] {
      assert (s + t)[1..] == s[1..] + t;
      EncodeAppend(s[1..], t);
    } else {
      assert s + t == t;
    }
  }

  lemma DecodeFirstOfEncoded2(n: int, b: seq<byte>)
    requires 0x80 <= n < 0x800 && |b| >= 2
    requires b[0] as int == 0xC0 + n / 64 && b[1] as int == 0x80 + n % 64
    ensures DecodeFirst(b) == Some((n as char, 2))
  {
    assert (n / 64) * 64 + n % 64 == n;
  }

  lemma DecodeFirstOfEncoded3(n: int, b: seq<byte>)
    requires 0x800 <= n < 0x10000 && (n < 0xD800 || 0xE000 <= n) && |b| >= 3
    requires b[0] as int == 0xE0 + n / 4096 && b[1] as int == 0x80 + (n / 64) % 64
    requires b[2] as int == 0x80 + n % 64
    ensures DecodeFirst(b) == Some((n as char, 3))
  {
    var q := n / 64;
    assert (q / 64) * 64 + q % 64 == q;
    assert q / 64 == n / 4096;
    assert q * 64 + n % 64 == n;
    assert SecondOk(b[0], b[1]);
  }

  lemma DecodeFirstOfEncoded4(n: int, b: seq<byte>)
    requires 0x10000 <= n < 0x110000 && |b| >= 4
    requires b[0] as int == 0xF0 + n / 0x40000 && b[1] as int == 0x80 + (n / 4096) % 64
    requires b[2] as int == 0x80 + (n / 64) % 64 && b[3] as int == 0x80 + n % 64
    ensures DecodeFirst(b) == Some((n as char, 4))
  {
    var q := n / 64;
    var p := q / 64;
    assert p == n / 4096;
    assert p / 64 == n / 0x40000;
    assert (p / 64) * 64 + p % 64 == p;
    assert (q / 64) * 64 + q % 64 == q;
    assert q * 64 + n % 64 == n;
    assert SecondOk(b[0], b[1]);
  }

  lemma DecodeFirstOfEncoded(c: char, rest: seq<byte>)
    ensures DecodeFirst(EncodeChar(c) + rest) == Some((c, |EncodeChar(c)|))
  {
    var n := c as int;
    var b := EncodeChar(c) + rest;
    if n < 0x80 {
    } else if n < 0x800 {
      DecodeFirstOfEncoded2(n, b);
    } else if n < 0x10000 {
      DecodeFirstOfEncoded3(n, b);
    } else {
      DecodeFirstOfEncoded4(n, b);
    }
  }

  /** Decoding an encoding gives back the text. */
  lemma {:induction false} DecodeEncode(s: string)
    ensures Decode(Encode(s)) == Some(s)
  {
    if s != [] {
      var e := EncodeChar(s[0]);
      DecodeFirstOfEncoded(s[0], Encode(s[1..]));
      assert (e + Encode(s[1..]))[|e|..] == Encode(s[1..]);
      DecodeEncode(s[1..]);
      assert [s[0]] + s[1..] == s;
    }
  }

  lemma EncodedAs2(c: char, b: seq<byte>)
    requires |b| >= 2 && 0xC2 <= b[0] <= 0xDF && IsContinuation(b[1])
    requires c as int == (b[0] as int - 0xC0) * 64 + (b[1] as int - 0x80)
    ensures EncodeChar(c) == b[..2]
  {
    var n, x1 := c as int, b[1] as int - 0x80;
    assert n / 64 == b[0] as int - 0xC0 && n % 64 == x1;
  }

  lemma EncodedAs3(c: char, b: seq<byte>)
    requires |b| >= 3 && 0xE0 <= b[0] <= 0xEF && SecondOk(b[0], b[1]) && IsContinuation(b[2])
    requires c as int == (b[0] as int - 0xE0) * 4096 + (b[1] as int - 0x80) * 64 + (b[2] as int - 0x80)
    ensures EncodeChar(c) == b[..3]
  {
    var n, b0, x1, x2 := c as int, b[0] as int, b[1] as int - 0x80, b[2] as int - 0x80;
    assert n / 64 == (b0 - 0xE0) * 64 + x1 && n % 64 == x2;
    assert n / 4096 == b0 - 0xE0 && (n / 64) % 64 == x1;
  }

  lemma EncodedAs4(c: char, b: seq<byte>)
    requires |b| >= 4 && 0xF0 <= b[0] <= 0xF4 && SecondOk(b[0], b[1])
    requires IsContinuation(b[2]) && IsContinuation(b[3])
    requires c as int == (b[0] as int - 0xF0) * 0x40000 + (b[1] as int - 0x80) * 4096
                         + (b[2] as int - 0x80) * 64 + (b[3] as int - 0x80)
    ensures EncodeChar(c) == b[..4]
  {
    var n, b0 := c as int, b[0] as int;
    var x1, x2, x3 := b[1] as int - 0x80, b[2] as int - 0x80, b[3] as int - 0x80;
    assert n / 64 == (b0 - 0xF0) * 4096 + x1 * 64 + x2 && n % 64 == x3;
    assert n / 4096 == (b0 - 0xF0) * 64 + x1 && (n / 64) % 64 == x2;
    assert n / 0x40000 == b0 - 0xF0 && (n / 4096) % 64 == x1;
  }

  lemma EncodeOfDecodedFirst(b: seq<byte>)
    requires |b| > 0 && DecodeFirst(b).Some?
    ensures EncodeChar(DecodeFirst(b).value.0) == b[..DecodeFirst(b).value.1]
  {
    var c := DecodeFirst(b).value.0;
    if b[0] < 0x80 {
    } else if b[0] <= 0xDF {
      EncodedAs2(c, b);
    } else if b[0] <= 0xEF {
      EncodedAs3(c, b);
    } else {
      EncodedAs4(c, b);
    }
  }

  /** Whatever decodes is the encoding of what it decodes to: Decode accepts no alternative spellings. */
  lemma {:induction false} EncodeDecode(b: seq<byte>)
    requires Decode(b).Some?
    ensures Encode(Decode(b).value) == b
    decreases |b|
  {
    if b != [] {
      var (c, k) := DecodeFirst(b).value;
      var rest := Decode(b[k..]).value;
      calc {
        Encode(Decode(b).value);
        == { assert Decode(b).value == [c] + rest; }
        Encode([c] + rest);
        == { EncodeCons(c, rest); }
        EncodeChar(c) + Encode(rest);
        == { EncodeOfDecodedFirst(b); EncodeDecode(b[k..]); }
        b[..k] + b[k..];
        == { assert b == b[..k] + b[k..]; }
        b;
      }
    }
  }

  lemma EncodeCons(c: char, rest: string)
    ensures Encode([c] + rest) == EncodeChar(c) + Encode(rest)
  {
    assert ([c] + rest)[1..] == rest;
  }

  /** A run of NUL characters encodes as the same number of zero bytes, and nothing else does. */
  lemma {:induction false} EncodeNuls(s: string)
    ensures (forall i | 0 <= i < |s| :: s[i] == '\0') <==> (forall i | 0 <= i < |Encode(s)| :: Encode(s)[i] == 0)
  {
    if s != [] {
      EncodeNuls(s[1..]);
      var e := EncodeChar(s[0]);
      assert Encode(s) == e + Encode(s[1..]);
      if s[0] == '\0' {
        assert e == [0];
        if forall i | 0 <= i < |Encode(s)| :: Encode(s)[i] == 0 {
          forall i | 0 <= i < |Encode(s[1..])| ensures Encode(s[1..])[i] == 0 {
            assert Encode(s[1..])[i] == Encode(s)[i + 1];
          }
          forall i | 0 <= i < |s| ensures s[i] == '\0' {
            if i > 0 { assert s[i] == s[1..][i - 1]; }
          }
        }
      } else {
        assert Encode(s)[0] == e[0];
        assert e[0] != 0;
      }
    }
  }
}
