/**
  * UTF-8 as defined by section 3 (encoding) and section 4 (well-formed byte sequences) of RFC 3629.
  * Python's `str.encode("utf-8")` and `bytes.decode("utf-8")` implement exactly this pair: the
  * decoder rejects overlong forms, surrogates and code points above U+10FFFF.
  * Dafny's `char` is a Unicode scalar value, so every `string` is encodable.
  */
module Utf8 {
  import opened Wrappers

  /** One byte of a Python `bytes` object. */
  type byte = x: int | 0 <= x < 256

  /** Is `b` a continuation byte in the range [lo, hi] (a row of the table in section 4 of RFC 3629)? */
  predicate InRange(b: byte, lo: int, hi: int) {
    lo <= b <= hi
  }

  /** The bytes of one scalar value, per the table in section 3 of RFC 3629. */
  function EncodeChar(c: char): (r: seq<byte>)
    ensures 1 <= |r| <= 4
    ensures r[0] < 0x80 <==> |r| == 1
    ensures forall i | 1 <= i < |r| :: 0x80 <= r[i] <= 0xBF
    ensures forall i | 0 <= i < |r| :: r[i] <= 0xF4
  {
    var n := c as int;
    if n < 0x80 then [n]
    else if n < 0x800 then [0xC0 + n / 64, 0x80 + n % 64]
    else if n < 0x10000 then [0xE0 + n / 4096, 0x80 + (n / 64) % 64, 0x80 + n % 64]
    else [0xF0 + n / 262144, 0x80 + (n / 4096) % 64, 0x80 + (n / 64) % 64, 0x80 + n % 64]
  }

  /** `s.encode("utf-8")` */
  function Encode(s: string): (r: seq<byte>)
    ensures |r| >= |s|
    ensures forall i | 0 <= i < |r| :: r[i] <= 0xF4
  {
    if s == [] then [] else EncodeChar(s[0]) + Encode(s[1..])
  }

  /**
    * Decodes the first scalar value of `b`, returning it with the number of bytes it used,
    * or None when `b` does not start with a well-formed sequence (section 4 of RFC 3629).
    */
  function DecodeFirst(b: seq<byte>): (r: Option<(char, nat)>)
    requires |b| > 0
    ensures r.Some? ==> 1 <= r.value.1 <= 4 && r.value.1 <= |b|
  {
    var b0 := b[0] as int;
    if b0 < 0x80 then
      Some((b0 as char, 1))
    else if 0xC2 <= b0 <= 0xDF then
      if |b| >= 2 && InRange(b[1], 0x80, 0xBF)
      then Some((((b0 - 0xC0) * 64 + Low(b[1])) as char, 2))
      else None
    else if 0xE0 <= b0 <= 0xEF then
      var lo := if b0 == 0xE0 then 0xA0 else 0x80;
      var hi := if b0 == 0xED then 0x9F else 0xBF;
      if |b| >= 3 && InRange(b[1], lo, hi) && InRange(b[2], 0x80, 0xBF)
      then Some((((b0 - 0xE0) * 4096 + Low(b[1]) * 64 + Low(b[2])) as char, 3))
      else None
    else if 0xF0 <= b0 <= 0xF4 then
      var lo := if b0 == 0xF0 then 0x90 else 0x80;
      var hi := if b0 == 0xF4 then 0x8F else 0xBF;
      if |b| >= 4 && InRange(b[1], lo, hi) && InRange(b[2], 0x80, 0xBF) && InRange(b[3], 0x80, 0xBF)
      then Some((((b0 - 0xF0) * 262144 + Low(b[1]) * 4096 + Low(b[2]) * 64 + Low(b[3])) as char, 4))
      else None
    else
      None
  }

  /** The six payload bits of a continuation byte. */
  function Low(x: byte): int {
    x as int - 0x80
  }

  /** `b.decode("utf-8")`: None stands for the UnicodeDecodeError it raises on ill-formed input. */
  function Decode(b: seq<byte>): (r: Option<string>)
    decreases |b|
  {
    if b == [] then Some([])
    else match DecodeFirst(b)
      case None => None
      case Some((c, k)) =>
        match Decode(b[k..])
        case None => None
        case Some(rest) => Some([c] + rest)
  }

  lemma DecodeFirstOfEncodeChar(c: char, tail: seq<byte>)
    ensures DecodeFirst(EncodeChar(c) + tail) == Some((c, |EncodeChar(c)|))
  {
    var n := c as int;
    if n < 0x80 {
    } else if n < 0x800 {
      DecodeFirstTwo(c, tail);
    } else if n < 0x10000 {
      DecodeFirstThree(c, tail);
    } else {
      DecodeFirstFour(c, tail);
    }
  }

  lemma DecodeFirstTwo(c: char, tail: seq<byte>)
    requires 0x80 <= c as int < 0x800
    ensures DecodeFirst(EncodeChar(c) + tail) == Some((c, 2))
  {
    var n := c as int;
    var q, r := n / 64, n % 64;
    assert q * 64 + r == n;
    var b := EncodeChar(c) + tail;
    assert b[0] as int == 0xC0 + q && Low(b[1]) == r;
  }

  lemma DecodeFirstThree(c: char, tail: seq<byte>)
    requires 0x800 <= c as int < 0x10000
    ensures DecodeFirst(EncodeChar(c) + tail) == Some((c, 3))
  {
    var n := c as int;
    var q, r1, r0 := n / 4096, (n / 64) % 64, n % 64;
    assert q * 4096 + r1 * 64 + r0 == n;
    var b := EncodeChar(c) + tail;
    assert b[0] as int == 0xE0 + q && Low(b[1]) == r1 && Low(b[2]) == r0;
  }

  lemma DecodeFirstFour(c: char, tail: seq<byte>)
    requires 0x10000 <= c as int
    ensures DecodeFirst(EncodeChar(c) + tail) == Some((c, 4))
  {
    var n := c as int;
    var q, r2, r1, r0 := n / 262144, (n / 4096) % 64, (n / 64) % 64, n % 64;
    assert n / 4096 == q * 64 + r2;
    assert n / 64 == (n / 4096) * 64 + r1;
    assert q * 262144 + r2 * 4096 + r1 * 64 + r0 == n;
    var b := EncodeChar(c) + tail;
    assert b[0] as int == 0xF0 + q && Low(b[1]) == r2 && Low(b[2]) == r1 && Low(b[3]) == r0;
  }

  /** Decoding undoes encoding: every string survives the trip through UTF-8 bytes. */
  lemma {:induction false} DecodeEncode(s: string)
    ensures Decode(Encode(s)) == Some(s)
  {
    if s != [] {
      var e := EncodeChar(s[0]);
      DecodeFirstOfEncodeChar(s[0], Encode(s[1..]));
      assert (e + Encode(s[1..]))[|e|..] == Encode(s[1..]);
      DecodeEncode(s[1..]);
      assert [s[0]] + s[1..] == s;
    }
  }

  lemma EncodeCharOfDecodeFirst(b: seq<byte>)
    requires |b| > 0 && DecodeFirst(b).Some?
    ensures EncodeChar(DecodeFirst(b).value.0) == b[..DecodeFirst(b).value.1]
  {
    var b0 := b[0] as int;
    if b0 < 0x80 {
      assert b[..1] == [b[0]];
    } else if b0 <= 0xDF {
      assert DecodeFirst(b).value == (((b0 - 0xC0) * 64 + Low(b[1])) as char, 2);
      EncodeTwo(b[0], b[1]);
      assert b[..2] == [b[0], b[1]];
    } else if b0 <= 0xEF {
      assert DecodeFirst(b).value == (((b0 - 0xE0) * 4096 + Low(b[1]) * 64 + Low(b[2])) as char, 3);
      EncodeThree(b[0], b[1], b[2]);
      assert b[..3] == [b[0], b[1], b[2]];
    } else {
      assert DecodeFirst(b).value ==
        (((b0 - 0xF0) * 262144 + Low(b[1]) * 4096 + Low(b[2]) * 64 + Low(b[3])) as char, 4);
      EncodeFour(b[0], b[1], b[2], b[3]);
      assert b[..4] == [b[0], b[1], b[2], b[3]];
    }
  }

  lemma Split64(n: int, q: int, r: int)
    requires 0 <= r < 64 && n == q * 64 + r
    ensures n / 64 == q && n % 64 == r
  {
  }

  lemma EncodeTwo(b0: byte, b1: byte)
    requires 0xC2 <= b0 <= 0xDF && 0x80 <= b1 <= 0xBF
    ensures var n := (b0 as int - 0xC0) * 64 + Low(b1);
      0x80 <= n < 0x800 && EncodeChar(n as char) == [b0, b1]
  {
    var n := (b0 as int - 0xC0) * 64 + Low(b1);
    Split64(n, b0 as int - 0xC0, Low(b1));
  }

  lemma EncodeThree(b0: byte, b1: byte, b2: byte)
    requires 0xE0 <= b0 <= 0xEF && 0x80 <= b1 <= 0xBF && 0x80 <= b2 <= 0xBF
    requires b0 == 0xE0 ==> b1 >= 0xA0
    requires b0 == 0xED ==> b1 <= 0x9F
    ensures var n := (b0 as int - 0xE0) * 4096 + Low(b1) * 64 + Low(b2);
      0x800 <= n < 0x10000 && !(0xD800 <= n < 0xE000) && EncodeChar(n as char) == [b0, b1, b2]
  {
    var q := b0 as int - 0xE0;
    var n := q * 4096 + Low(b1) * 64 + Low(b2);
    Split64(n, q * 64 + Low(b1), Low(b2));
    Split64(n / 64, q, Low(b1));
    assert n / 4096 == q;
  }

  lemma EncodeFour(b0: byte, b1: byte, b2: byte, b3: byte)
    requires 0xF0 <= b0 <= 0xF4 && 0x80 <= b1 <= 0xBF && 0x80 <= b2 <= 0xBF && 0x80 <= b3 <= 0xBF
    requires b0 == 0xF0 ==> b1 >= 0x90
    requires b0 == 0xF4 ==> b1 <= 0x8F
    ensures var n := (b0 as int - 0xF0) * 262144 + Low(b1) * 4096 + Low(b2) * 64 + Low(b3);
      0x10000 <= n < 0x110000 && EncodeChar(n as char) == [b0, b1, b2, b3]
  {
    var q := b0 as int - 0xF0;
    var n := q * 262144 + Low(b1) * 4096 + Low(b2) * 64 + Low(b3);
    Split64(n, q * 4096 + Low(b1) * 64 + Low(b2), Low(b3));
    Split64(n / 64, q * 64 + Low(b1), Low(b2));
    Split64(n / 64 / 64, q, Low(b1));
    assert n / 4096 == n / 64 / 64;
    assert n / 262144 == q;
  }

  /** Re-encoding a decoded first scalar value and a re-encoded rest gives the bytes back. */
  lemma EncodeConsSplit(b: seq<byte>, c: char, k: nat, rest: string)
    requires k <= |b| && EncodeChar(c) == b[..k] && Encode(rest) == b[k..]
    ensures Encode([c] + rest) == b
  {
    assert ([c] + rest)[0] == c && ([c] + rest)[1..] == rest;
    assert b == b[..k] + b[k..];
  }

  /** The other direction: a successful decode re-encodes to exactly the bytes it came from. */
  lemma {:induction false} EncodeDecode(b: seq<byte>)
    requires Decode(b).Some?
    ensures Encode(Decode(b).value) == b
    decreases |b|
  {
    if b != [] {
      var first := DecodeFirst(b).value;
      EncodeCharOfDecodeFirst(b);
      var rest := Decode(b[first.1..]).value;
      EncodeDecode(b[first.1..]);
      assert Decode(b).value == [first.0] + rest;
      EncodeConsSplit(b, first.0, first.1, rest);
    }
  }

  /** Bytes containing 0xFF (or any byte above 0xF4) are never valid UTF-8. */
  lemma HighByteIsInvalid(b: seq<byte>, i: nat)
    requires i < |b| && b[i] > 0xF4
    ensures Decode(b).None?
  {
    if Decode(b).Some? {
      EncodeDecode(b);
      assert false;
    }
  }

  /** A character below U+0080 is one byte holding its code point. */
  predicate IsAscii(s: string) {
    forall i | 0 <= i < |s| :: s[i] as int < 0x80
  }

  /** For ASCII text the encoding is the code points themselves. */
  lemma {:induction false} EncodeAscii(s: string)
    requires IsAscii(s)
    ensures |Encode(s)| == |s|
    ensures forall i | 0 <= i < |s| :: Encode(s)[i] == s[i] as int
  {
    if s != [] {
      EncodeAscii(s[1..]);
    }
  }

  /** An ASCII byte (such as the delimiter 0x04) occurs in the encoding of `s` if and only if `s` holds that character. */
  lemma {:induction false} EncodeHasControl(s: string, x: byte)
    requires x < 0x80
    ensures x in Encode(s) <==> x as char in s
  {
    if s != [] {
      EncodeHasControl(s[1..], x);
      var e := EncodeChar(s[0]);
      assert Encode(s) == e + Encode(s[1..]);
      if |e| == 1 {
        assert x in e <==> x as char == s[0];
      } else {
        assert x !in e;
        assert x as char != s[0];
      }
      assert s == [s[0]] + s[1..];
    }
  }
}
