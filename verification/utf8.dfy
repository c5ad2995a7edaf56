/**
 UTF-8 as defined by the syntax in section 4 of RFC 3629: the byte sequences
 a strict decoder (Rust's `str::from_utf8`) accepts, and the encoding of
 Unicode scalar values back into bytes.
 */
module Utf8 {

  /** One octet. */
  type byte = b: int | 0 <= b < 256

  /** A Unicode scalar value: any code point up to U+10FFFF except the
      surrogates U+D800..U+DFFF (the values a Rust `char` can hold). */
  type CodePoint = c: int | 0 <= c < 0xD800 || 0xE000 <= c < 0x11_0000

  datatype Option<+T> = None | Some(value: T)

  /** UTF8-tail = %x80-BF */
  predicate IsTail(b: byte) {
    0x80 <= b <= 0xBF
  }

  /** The shortest (and only legal) encoding of one scalar value. */
  function EncodeOne(c: CodePoint): (r: seq<byte>)
    ensures 1 <= |r| <= 4
    ensures r[0] < 0x80 || 0xC2 <= r[0] <= 0xF4
    ensures forall i :: 1 <= i < |r| ==> IsTail(r[i])
  {
    if c < 0x80 then [c]
    else if c < 0x800 then [0xC0 + c / 64, 0x80 + c % 64]
    else if c < 0x1_0000 then [0xE0 + c / 4096, 0x80 + (c / 64) % 64, 0x80 + c % 64]
    else [0xF0 + c / 262144, 0x80 + (c / 4096) % 64, 0x80 + (c / 64) % 64, 0x80 + c % 64]
  }

  /** Decodes the first character of `s` following the four UTF8-char
      alternatives of RFC 3629; returns the scalar value and the number of
      bytes it occupies, or None when `s` does not start with a UTF8-char. */
  function DecodeOne(s: seq<byte>): (r: Option<(CodePoint, nat)>)
    ensures r.Some? ==> 1 <= r.value.1 <= |s|
  {
    if |s| == 0 then None
    else
      var b0: int := s[0];
      if b0 < 0x80 then Some((b0, 1))
      else if 0xC2 <= b0 <= 0xDF then
        if |s| >= 2 && IsTail(s[1]) then
          Some(((b0 - 0xC0) * 64 + (s[1] as int - 0x80), 2))
        else None
      else if 0xE0 <= b0 <= 0xEF then
        var lo := if b0 == 0xE0 then 0xA0 else 0x80;
        var hi := if b0 == 0xED then 0x9F else 0xBF;
        if |s| >= 3 && lo <= s[1] <= hi && IsTail(s[2]) then
          Some(((b0 - 0xE0) * 4096 + (s[1] as int - 0x80) * 64 + (s[2] as int - 0x80), 3))
        else None
      else if 0xF0 <= b0 <= 0xF4 then
        var lo := if b0 == 0xF0 then 0x90 else 0x80;
        var hi := if b0 == 0xF4 then 0x8F else 0xBF;
        if |s| >= 4 && lo <= s[1] <= hi && IsTail(s[2]) && IsTail(s[3]) then
          Some(((b0 - 0xF0) * 262144 + (s[1] as int - 0x80) * 4096
                + (s[2] as int - 0x80) * 64 + (s[3] as int - 0x80), 4))
        else None
      else None
  }

  /** Strict decoding of a whole byte sequence: None unless every byte
      belongs to a well-formed UTF8-char. */
  function Decode(s: seq<byte>): Option<seq<CodePoint>>
    decreases |s|
  {
    if |s| == 0 then Some([])
    else
      match DecodeOne(s)
      case None => None
      case Some((c, n)) =>
        match Decode(s[n..])
        case None => None
        case Some(rest) => Some([c] + rest)
  }

  function Encode(cs: seq<CodePoint>): seq<byte> {
    if |cs| == 0 then [] else EncodeOne(cs[0]) + Encode(cs[1..])
  }

  /** A byte sequence is well-formed UTF-8 exactly when it decodes. */
  predicate IsWellFormed(s: seq<byte>) {
    Decode(s).Some?
  }

  lemma DecodeOneEncodeOne(c: CodePoint, rest: seq<byte>)
    ensures DecodeOne(EncodeOne(c) + rest) == Some((c, |EncodeOne(c)|))
  {
    if c < 0x80 {
    } else if c < 0x800 {
      DecodeOneEncodeTwo(c, rest);
    } else if c < 0x1_0000 {
      DecodeOneEncodeThree(c, rest);
    } else {
      DecodeOneEncodeFour(c, rest);
    }
  }

  lemma DecodeOneEncodeTwo(c: CodePoint, rest: seq<byte>)
    requires 0x80 <= c < 0x800
    ensures DecodeOne(EncodeOne(c) + rest) == Some((c, 2))
  {
    var s := EncodeOne(c) + rest;
    var b0: int := 0xC0 + c / 64;
    var t: int := c % 64;
    assert s[0] == b0 && s[1] == 0x80 + t;
    assert 0xC2 <= b0 <= 0xDF;
    assert c == (b0 - 0xC0) * 64 + t;
  }

  lemma DecodeOneEncodeThree(c: CodePoint, rest: seq<byte>)
    requires 0x800 <= c < 0x1_0000
    ensures DecodeOne(EncodeOne(c) + rest) == Some((c, 3))
  {
    var s := EncodeOne(c) + rest;
    var q := c / 64;
    var b0: int := 0xE0 + c / 4096;
    var t1: int := q % 64;
    var t2: int := c % 64;
    assert c == q * 64 + t2;
    assert q == (q / 64) * 64 + t1;
    assert q / 64 == c / 4096;
    assert s[0] == b0 && s[1] == 0x80 + t1 && s[2] == 0x80 + t2;
    assert c == (b0 - 0xE0) * 4096 + t1 * 64 + t2;
    assert b0 == 0xE0 ==> t1 >= 0x20;
    assert b0 == 0xED ==> t1 < 0x20;
  }

  lemma DecodeOneEncodeFour(c: CodePoint, rest: seq<byte>)
    requires 0x1_0000 <= c
    ensures DecodeOne(EncodeOne(c) + rest) == Some((c, 4))
  {
    var s := EncodeOne(c) + rest;
    var q := c / 64;
    var p := q / 64;
    var b0: int := 0xF0 + c / 262144;
    var t1: int := p % 64;
    var t2: int := q % 64;
    var t3: int := c % 64;
    assert c == q * 64 + t3;
    assert q == p * 64 + t2;
    assert p == (p / 64) * 64 + t1;
    assert p == c / 4096 && p / 64 == c / 262144;
    assert s[0] == b0 && s[1] == 0x80 + t1;
    assert s[2] == 0x80 + t2 && s[3] == 0x80 + t3;
    assert c == (b0 - 0xF0) * 262144 + t1 * 4096 + t2 * 64 + t3;
    assert b0 == 0xF0 ==> t1 >= 0x10;
    assert b0 == 0xF4 ==> t1 < 0x10;
  }

  lemma EncodeOneDecodeOne(s: seq<byte>)
    requires DecodeOne(s).Some?
    ensures EncodeOne(DecodeOne(s).value.0) == s[..DecodeOne(s).value.1]
  {
    var b0: int := s[0];
    if b0 < 0x80 {
    } else if b0 <= 0xDF {
      EncodeTwoDecodeOne(s);
    } else if b0 <= 0xEF {
      EncodeThreeDecodeOne(s);
    } else {
      EncodeFourDecodeOne(s);
    }
  }

  lemma EncodeTwoDecodeOne(s: seq<byte>)
    requires DecodeOne(s).Some? && 0x80 <= s[0] <= 0xDF
    ensures EncodeOne(DecodeOne(s).value.0) == s[..2]
  {
    var c := DecodeOne(s).value.0;
    var b0: int := s[0];
    var t: int := s[1] as int - 0x80;
    assert c == (b0 - 0xC0) * 64 + t;
    assert c / 64 == b0 - 0xC0 && c % 64 == t;
  }

  lemma EncodeThreeDecodeOne(s: seq<byte>)
    requires DecodeOne(s).Some? && 0xE0 <= s[0] <= 0xEF
    ensures EncodeOne(DecodeOne(s).value.0) == s[..3]
  {
    var c := DecodeOne(s).value.0;
    var b0: int := s[0];
    var t1: int := s[1] as int - 0x80;
    var t2: int := s[2] as int - 0x80;
    assert c == (b0 - 0xE0) * 4096 + t1 * 64 + t2;
    assert c / 64 == (b0 - 0xE0) * 64 + t1 && c % 64 == t2;
    assert (c / 64) % 64 == t1;
    assert c / 4096 == b0 - 0xE0;
  }

  lemma EncodeFourDecodeOne(s: seq<byte>)
    requires DecodeOne(s).Some? && 0xF0 <= s[0]
    ensures EncodeOne(DecodeOne(s).value.0) == s[..4]
  {
    var c := DecodeOne(s).value.0;
    var b0: int := s[0];
    var t1: int := s[1] as int - 0x80;
    var t2: int := s[2] as int - 0x80;
    var t3: int := s[3] as int - 0x80;
    assert c == (b0 - 0xF0) * 262144 + t1 * 4096 + t2 * 64 + t3;
    assert c / 64 == (b0 - 0xF0) * 4096 + t1 * 64 + t2 && c % 64 == t3;
    assert (c / 64) % 64 == t2;
    assert c / 4096 == (b0 - 0xF0) * 64 + t1;
    assert (c / 4096) % 64 == t1 && c / 262144 == b0 - 0xF0;
  }

  lemma EncodeAppend(a: seq<CodePoint>, b: seq<CodePoint>)
    ensures Encode(a + b) == Encode(a) + Encode(b)
  {
    if |a| > 0 {
      assert (a + b)[0] == a[0];
      assert (a + b)[1..] == a[1..] + b;
      EncodeAppend(a[1..], b);
    } else {
      assert a + b == b;
    }
  }

  /** Encoding then decoding gives back the scalar values. */
  lemma {:induction false} DecodeEncode(cs: seq<CodePoint>)
    ensures Decode(Encode(cs)) == Some(cs)
  {
    if |cs| > 0 {
      var e := EncodeOne(cs[0]);
      var tail := Encode(cs[1..]);
      DecodeOneEncodeOne(cs[0], tail);
      assert (e + tail)[|e|..] == tail;
      DecodeEncode(cs[1..]);
      assert [cs[0]] + cs[1..] == cs;
    }
  }

  /** Decoding then encoding gives back the bytes: the decoder accepts
      only the shortest form of every character. */
  lemma {:induction false} EncodeDecode(s: seq<byte>)
    requires Decode(s).Some?
    ensures Encode(Decode(s).value) == s
    decreases |s|
  {
    if |s| > 0 {
      var c := DecodeOne(s).value.0;
      var n := DecodeOne(s).value.1;
      EncodeOneDecodeOne(s);
      EncodeDecode(s[n..]);
      var cs := Decode(s).value;
      assert cs[0] == c && cs[1..] == Decode(s[n..]).value;
      assert s == s[..n] + s[n..];
    }
  }

  /** ASCII characters encode as themselves, one byte each. */
  lemma {:induction false} EncodeAscii(cs: seq<CodePoint>)
    requires forall i :: 0 <= i < |cs| ==> cs[i] < 0x80
    ensures |Encode(cs)| == |cs|
    ensures forall i :: 0 <= i < |cs| ==> Encode(cs)[i] == cs[i]
  {
    if |cs| > 0 {
      EncodeAscii(cs[1..]);
    }
  }

  /** Well-formed byte sequences are exactly the encodings of scalar values. */
  lemma WellFormedIffEncoding(s: seq<byte>)
    ensures IsWellFormed(s) <==> exists cs :: Encode(cs) == s
  {
    if IsWellFormed(s) {
      EncodeDecode(s);
    }
    if cs :| Encode(cs) == s {
      DecodeEncode(cs);
    }
  }
}
