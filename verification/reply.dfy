/**
 The reply a connection sends back for the bytes it has buffered: the text
 with trailing white space removed, reversed one scalar value at a time and
 terminated by CR LF, or a fixed sentinel when the bytes are not UTF-8.
 */
module Reply {
  import opened Utf8

  /** The line terminator appended to every well-formed reply. */
  const Crlf: seq<byte> := [0x0D, 0x0A]

  /** The ASCII bytes of "__bad_input__". */
  const BadInput: seq<byte> := [0x5F, 0x5F, 0x62, 0x61, 0x64, 0x5F, 0x69, 0x6E, 0x70, 0x75, 0x74, 0x5F, 0x5F]

  /** The Unicode White_Space property, the test `str::trim_end` applies. */
  predicate IsWhiteSpace(c: CodePoint) {
    || 0x09 <= c <= 0x0D
    || c == 0x20 || c == 0x85 || c == 0xA0 || c == 0x1680
    || 0x2000 <= c <= 0x200A
    || c == 0x2028 || c == 0x2029 || c == 0x202F || c == 0x205F || c == 0x3000
  }

  /** The longest prefix of `cs` that does not end in white space. */
  function TrimEnd(cs: seq<CodePoint>): (r: seq<CodePoint>)
    ensures r <= cs
    ensures |r| == 0 || !IsWhiteSpace(r[|r| - 1])
    ensures forall i :: |r| <= i < |cs| ==> IsWhiteSpace(cs[i])
  {
    if |cs| > 0 && IsWhiteSpace(cs[|cs| - 1]) then TrimEnd(cs[..|cs| - 1]) else cs
  }

  /** Scalar values in reverse order (`chars().rev()`). */
  function Reverse(cs: seq<CodePoint>): (r: seq<CodePoint>)
    ensures |r| == |cs|
    ensures forall i :: 0 <= i < |cs| ==> r[i] == cs[|cs| - 1 - i]
  {
    if |cs| == 0 then [] else Reverse(cs[1..]) + [cs[0]]
  }

  /** The bytes written back for the buffered bytes `data`: the sentinel
      exactly when they are not UTF-8, a line ending in CR LF otherwise. */
  function ReplyTo(data: seq<byte>): (r: seq<byte>)
    ensures r == BadInput <==> !IsWellFormed(data)
    ensures IsWellFormed(data) <==> (|r| >= 2 && r[|r| - 2..] == Crlf)
  {
    match Decode(data)
    case Some(cs) =>
      var line := Encode(Reverse(TrimEnd(cs))) + Crlf;
      assert line[|line| - 1] != BadInput[|BadInput| - 1];
      line
    case None => BadInput
  }

  /** Every reply, the sentinel included, is well-formed UTF-8, and it ends
      in CR LF exactly when the buffered bytes were well-formed. */
  lemma ReplyToWellFormed(data: seq<byte>)
    ensures var r := ReplyTo(data);
            && IsWellFormed(r)
            && (IsWellFormed(data) <==> (|r| >= 2 && r[|r| - 2..] == Crlf))
  {
    match Decode(data)
    case Some(cs) => CrlfWellFormed(Reverse(TrimEnd(cs)));
    case None => BadInputWellFormed();
  }

  lemma CrlfWellFormed(cs: seq<CodePoint>)
    ensures IsWellFormed(Encode(cs) + Crlf)
  {
    EncodeAppend(cs, [0x0D, 0x0A]);
    assert Encode([0x0D, 0x0A]) == Crlf;
    DecodeEncode(cs + [0x0D, 0x0A]);
  }

  lemma BadInputWellFormed()
    ensures IsWellFormed(BadInput)
  {
    var cs: seq<CodePoint> := BadInput;
    AsciiIsItsEncoding(cs);
    DecodeEncode(cs);
  }

  /** Trimming what is already trimmed changes nothing. */
  lemma TrimEndIdempotent(cs: seq<CodePoint>)
    ensures TrimEnd(TrimEnd(cs)) == TrimEnd(cs)
  {
  }

  /** `TrimEnd` is the only prefix that ends in a non-white-space character
      (or is empty) and drops only white space. */
  lemma TrimEndUnique(cs: seq<CodePoint>, p: seq<CodePoint>)
    requires p <= cs
    requires |p| == 0 || !IsWhiteSpace(p[|p| - 1])
    requires forall i :: |p| <= i < |cs| ==> IsWhiteSpace(cs[i])
    ensures p == TrimEnd(cs)
  {
  }

  /** Reversing twice restores the sequence. */
  lemma ReverseInvolutive(cs: seq<CodePoint>)
    ensures Reverse(Reverse(cs)) == cs
  {
  }

  /** On well-formed text the reply is the reversed trimmed text plus CR LF. */
  lemma ReplyToText(cs: seq<CodePoint>)
    ensures ReplyTo(Encode(cs)) == Encode(Reverse(TrimEnd(cs))) + Crlf
  {
    DecodeEncode(cs);
  }

  /** On malformed bytes the reply is the bare sentinel, with no terminator. */
  lemma ReplyToMalformed(data: seq<byte>)
    requires !IsWellFormed(data)
    ensures ReplyTo(data) == BadInput
    ensures |ReplyTo(data)| < 2 || ReplyTo(data)[|ReplyTo(data)| - 2..] != Crlf
  {
  }

  /** Decoding a well-formed reply without its terminator and reversing it
      once more gives back the trimmed input text. */
  lemma ReplyRestoresTrimmed(data: seq<byte>)
    requires IsWellFormed(data)
    ensures var r := ReplyTo(data);
            && IsWellFormed(r[..|r| - 2])
            && Reverse(Decode(r[..|r| - 2]).value) == TrimEnd(Decode(data).value)
  {
    var cs := Decode(data).value;
    var rev := Reverse(TrimEnd(cs));
    var r := ReplyTo(data);
    assert r[..|r| - 2] == Encode(rev);
    DecodeEncode(rev);
    ReverseInvolutive(TrimEnd(cs));
  }

  /** "abc\r\n" is answered with "cba\r\n". */
  lemma ReplyExampleAscii()
    ensures ReplyTo([0x61, 0x62, 0x63, 0x0D, 0x0A]) == [0x63, 0x62, 0x61, 0x0D, 0x0A]
  {
    var cs: seq<CodePoint> := [0x61, 0x62, 0x63, 0x0D, 0x0A];
    AsciiIsItsEncoding(cs);
    ReplyToText(cs);
    var rev := TrimReverseExample(cs);
    AsciiIsItsEncoding(rev);
  }

  lemma TrimReverseExample(cs: seq<CodePoint>) returns (rev: seq<CodePoint>)
    requires cs == [0x61, 0x62, 0x63, 0x0D, 0x0A]
    ensures rev == Reverse(TrimEnd(cs)) == [0x63, 0x62, 0x61]
  {
    TrimEndUnique(cs, cs[..3]);
    rev := Reverse(cs[..3]);
    assert rev == [0x63, 0x62, 0x61];
  }

  lemma AsciiIsItsEncoding(cs: seq<CodePoint>)
    requires forall i :: 0 <= i < |cs| ==> cs[i] < 0x80
    ensures Encode(cs) == cs
  {
    EncodeAscii(cs);
  }

  /** "\xC3\xA9!" ('é' then '!') is answered with "!\xC3\xA9\r\n": the two bytes
      of 'é' keep their order. */
  lemma ReplyExampleMultiByte()
    ensures ReplyTo([0xC3, 0xA9, 0x21]) == [0x21, 0xC3, 0xA9, 0x0D, 0x0A]
  {
    var cs: seq<CodePoint> := [0xE9, 0x21];
    assert EncodeOne(0xE9) == [0xC3, 0xA9];
    assert Encode(cs) == [0xC3, 0xA9, 0x21];
    ReplyToText(cs);
    TrimEndUnique(cs, cs);
    var rev := Reverse(cs);
    assert rev == [0x21, 0xE9];
    assert Encode(rev) == [0x21, 0xC3, 0xA9];
  }

  /** A lone continuation byte is answered with the sentinel. */
  lemma ReplyExampleMalformed()
    ensures ReplyTo([0x80]) == BadInput
  {
  }
}
