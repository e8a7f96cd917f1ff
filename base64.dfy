/** The base64 encoding of section 4 of RFC 4648, as `java.util.Base64.getEncoder()`
    produces it: the standard alphabet `A-Z a-z 0-9 + /`, `=` padding up to a
    multiple of four characters, no line breaks. A decoder for the same
    alphabet is given beside it so that the encoding can be shown lossless. */
module Base64 {
  import opened JavaLang

  /** The character of the alphabet (Table 1 of RFC 4648) that stands for the
      6-bit value `v`. */
  function Digit(v: int): (c: char)
    requires 0 <= v < 64
  {
    if v < 26 then ('A' as int + v) as char
    else if v < 52 then ('a' as int + (v - 26)) as char
    else if v < 62 then ('0' as int + (v - 52)) as char
    else if v == 62 then '+'
    else '/'
  }

  /** The characters of the alphabet; `=` is not one of them. */
  predicate IsDigit(c: char) {
    ('A' <= c <= 'Z') || ('a' <= c <= 'z') || ('0' <= c <= '9') || c == '+' || c == '/'
  }

  /** The 6-bit value a character of the alphabet stands for. */
  function DigitValue(c: char): (v: int)
    requires IsDigit(c)
    ensures 0 <= v < 64
    ensures Digit(v) == c
  {
    if 'A' <= c <= 'Z' then c as int - 'A' as int
    else if 'a' <= c <= 'z' then c as int - 'a' as int + 26
    else if '0' <= c <= '9' then c as int - '0' as int + 52
    else if c == '+' then 62
    else 63
  }

  /** Every character `Digit` yields is in the alphabet and reads back as the
      value it was made from. */
  lemma DigitRoundTrip(v: int)
    requires 0 <= v < 64
    ensures IsDigit(Digit(v)) && DigitValue(Digit(v)) == v
  {
  }

  /** The characters the encoder may emit: the alphabet and the pad. */
  predicate IsEncodingChar(c: char) {
    IsDigit(c) || c == '='
  }

  /** Three input bytes become four characters, 6 bits each, most significant first. */
  function EncodeBlock(a: byte, b: byte, c: byte): (t: seq<char>) {
    [Digit(a as int / 4),
     Digit((a as int % 4) * 16 + b as int / 16),
     Digit((b as int % 16) * 4 + c as int / 64),
     Digit(c as int % 64)]
  }

  /** A final group of one byte: two characters and two pads. */
  function EncodeOne(a: byte): (t: seq<char>) {
    [Digit(a as int / 4), Digit((a as int % 4) * 16), '=', '=']
  }

  /** A final group of two bytes: three characters and one pad. */
  function EncodeTwo(a: byte, b: byte): (t: seq<char>) {
    [Digit(a as int / 4), Digit((a as int % 4) * 16 + b as int / 16), Digit((b as int % 16) * 4), '=']
  }

  /** The encoding of `s`, one group of three bytes at a time from the front. */
  function Encode(s: seq<byte>): (t: seq<char>)
    ensures |t| == 4 * ((|s| + 2) / 3)
    ensures forall i :: 0 <= i < |t| ==> IsEncodingChar(t[i])
    decreases |s|
  {
    if |s| == 0 then []
    else if |s| == 1 then EncodeOne(s[0])
    else if |s| == 2 then EncodeTwo(s[0], s[1])
    else EncodeBlock(s[0], s[1], s[2]) + Encode(s[3..])
  }

  /** Four characters of the alphabet back into three bytes. */
  function DecodeBlock(c0: char, c1: char, c2: char, c3: char): (s: Option<seq<byte>>) {
    if IsDigit(c0) && IsDigit(c1) && IsDigit(c2) && IsDigit(c3) then
      var v0, v1, v2, v3 := DigitValue(c0), DigitValue(c1), DigitValue(c2), DigitValue(c3);
      Some([(v0 * 4 + v1 / 16) as byte, ((v1 % 16) * 16 + v2 / 4) as byte, ((v2 % 4) * 64 + v3) as byte])
    else None
  }

  /** The last group of four characters, which may end in one or two pads. */
  function DecodeFinal(c0: char, c1: char, c2: char, c3: char): (s: Option<seq<byte>>) {
    if IsDigit(c0) && IsDigit(c1) && c2 == '=' && c3 == '=' then
      var v0, v1 := DigitValue(c0), DigitValue(c1);
      Some([(v0 * 4 + v1 / 16) as byte])
    else if IsDigit(c0) && IsDigit(c1) && IsDigit(c2) && c3 == '=' then
      var v0, v1, v2 := DigitValue(c0), DigitValue(c1), DigitValue(c2);
      Some([(v0 * 4 + v1 / 16) as byte, ((v1 % 16) * 16 + v2 / 4) as byte])
    else DecodeBlock(c0, c1, c2, c3)
  }

  /** The bytes a base64 text stands for, or `None` when the text is not a
      sequence of four-character groups with pads only at the very end. */
  function Decode(t: seq<char>): (s: Option<seq<byte>>)
    decreases |t|
  {
    if |t| == 0 then Some([])
    else if |t| < 4 then None
    else if |t| == 4 then DecodeFinal(t[0], t[1], t[2], t[3])
    else
      match DecodeBlock(t[0], t[1], t[2], t[3])
      case None => None
      case Some(head) =>
        match Decode(t[4..])
        case None => None
        case Some(tail) => Some(head + tail)
  }

  lemma EncodeBlockRoundTrip(a: byte, b: byte, c: byte)
    ensures DecodeBlock(EncodeBlock(a, b, c)[0], EncodeBlock(a, b, c)[1],
                        EncodeBlock(a, b, c)[2], EncodeBlock(a, b, c)[3]) == Some([a, b, c])
  {
    var v0, v1, v2, v3 := a as int / 4, (a as int % 4) * 16 + b as int / 16,
                          (b as int % 16) * 4 + c as int / 64, c as int % 64;
    DigitRoundTrip(v0); DigitRoundTrip(v1); DigitRoundTrip(v2); DigitRoundTrip(v3);
    assert v1 / 16 == a as int % 4 && v1 % 16 == b as int / 16;
    assert v2 / 4 == b as int % 16 && v2 % 4 == c as int / 64;
  }

  lemma EncodeOneRoundTrip(a: byte)
    ensures DecodeFinal(EncodeOne(a)[0], EncodeOne(a)[1], EncodeOne(a)[2], EncodeOne(a)[3]) == Some([a])
  {
  }

  lemma EncodeTwoRoundTrip(a: byte, b: byte)
    ensures DecodeFinal(EncodeTwo(a, b)[0], EncodeTwo(a, b)[1], EncodeTwo(a, b)[2], EncodeTwo(a, b)[3]) == Some([a, b])
  {
    var v0, v1, v2 := a as int / 4, (a as int % 4) * 16 + b as int / 16, (b as int % 16) * 4;
    DigitRoundTrip(v0); DigitRoundTrip(v1); DigitRoundTrip(v2);
    assert v1 / 16 == a as int % 4 && v1 % 16 == b as int / 16;
    assert v2 / 4 == b as int % 16;
  }

  /** A group of four alphabet characters in front of a longer text decodes
      to the group's bytes followed by the text's. */
  lemma DecodeCons(t: seq<char>, head: seq<byte>, tail: seq<byte>)
    requires |t| > 4
    requires DecodeBlock(t[0], t[1], t[2], t[3]) == Some(head)
    requires Decode(t[4..]) == Some(tail)
    ensures Decode(t) == Some(head + tail)
  {
  }

  /** The encoding is lossless: decoding what `Encode` produced gives back the
      original bytes. */
  lemma {:induction false} DecodeEncode(s: seq<byte>)
    ensures Decode(Encode(s)) == Some(s)
    decreases |s|
  {
    if |s| == 0 {
    } else if |s| == 1 {
      DecodeEncodeOne(s);
    } else if |s| == 2 {
      DecodeEncodeTwo(s);
    } else if |s| == 3 {
      DecodeEncodeThree(s);
    } else {
      DecodeEncode(s[3..]);
      DecodeEncodeStep(s);
    }
  }

  lemma DecodeEncodeOne(s: seq<byte>)
    requires |s| == 1
    ensures Decode(Encode(s)) == Some(s)
  {
    EncodeOneRoundTrip(s[0]);
    assert s == [s[0]];
  }

  lemma DecodeEncodeTwo(s: seq<byte>)
    requires |s| == 2
    ensures Decode(Encode(s)) == Some(s)
  {
    EncodeTwoRoundTrip(s[0], s[1]);
    assert s == [s[0], s[1]];
  }

  lemma DecodeEncodeThree(s: seq<byte>)
    requires |s| == 3
    ensures Decode(Encode(s)) == Some(s)
  {
    var block := EncodeBlock(s[0], s[1], s[2]);
    assert Encode(s[3..]) == [];
    assert Encode(s) == block;
    EncodeBlockRoundTrip(s[0], s[1], s[2]);
    DigitRoundTrip(s[2] as int % 64);
    assert s == [s[0], s[1], s[2]];
  }

  lemma SplitThree<T>(s: seq<T>)
    requires |s| >= 3
    ensures s == [s[0], s[1], s[2]] + s[3..]
  {
  }

  lemma DecodeEncodeStep(s: seq<byte>)
    requires |s| > 3
    requires Decode(Encode(s[3..])) == Some(s[3..])
    ensures Decode(Encode(s)) == Some(s)
  {
    var block := EncodeBlock(s[0], s[1], s[2]);
    var rest := Encode(s[3..]);
    var t := Encode(s);
    assert t == block + rest;
    assert |rest| >= 4 by {
      assert |s[3..]| >= 1;
    }
    EncodeBlockRoundTrip(s[0], s[1], s[2]);
    assert t[..4] == block && t[4..] == rest;
    DecodeCons(t, [s[0], s[1], s[2]], s[3..]);
    SplitThree(s);
  }

  /** Encodings of different byte sequences differ. */
  lemma EncodeInjective(s: seq<byte>, u: seq<byte>)
    requires Encode(s) == Encode(u)
    ensures s == u
  {
    DecodeEncode(s);
    DecodeEncode(u);
  }
}
