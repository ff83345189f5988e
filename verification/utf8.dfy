/** UTF-8 encoding of a string, which is how a JavaScript string reaches bcrypt's C code
    as a key. A `char` is a Unicode scalar value. */
module Utf8 {
  import opened Bytes

  /** The number of bytes of a character whose encoding starts with `lead` */
  function SequenceLength(lead: byte): nat
  {
    if lead < 0x80 then 1 else if lead < 0xE0 then 2 else if lead < 0xF0 then 3 else 4
  }

  /** The one- to four-byte encoding of a single character: six payload bits per
      continuation byte, the remaining high bits in the lead byte */
  function EncodeChar(c: char): (bs: seq<byte>)
    ensures 1 <= |bs| <= 4
    ensures |bs| == SequenceLength(bs[0])
  {
    var n := c as int;
    var a := n / 64;
    var b := a / 64;
    if n < 0x80 then [n as byte]
    else if n < 0x800 then [(0xC0 + a) as byte, (0x80 + n % 64) as byte]
    else if n < 0x10000 then [(0xE0 + b) as byte, (0x80 + a % 64) as byte, (0x80 + n % 64) as byte]
    else [(0xF0 + b / 64) as byte, (0x80 + b % 64) as byte, (0x80 + a % 64) as byte, (0x80 + n % 64) as byte]
  }

  /** The code point an encoding carries: the inverse of EncodeChar */
  function DecodeChar(bs: seq<byte>): int
    requires 1 <= |bs| <= 4
  {
    var p := seq(|bs|, i requires 0 <= i < |bs| => bs[i] as int % 64);
    if |bs| == 1 then bs[0] as int
    else if |bs| == 2 then (bs[0] as int - 0xC0) * 64 + p[1]
    else if |bs| == 3 then ((bs[0] as int - 0xE0) * 64 + p[1]) * 64 + p[2]
    else (((bs[0] as int - 0xF0) * 64 + p[1]) * 64 + p[2]) * 64 + p[3]
  }

  lemma DecodeEncodeChar(c: char)
    ensures DecodeChar(EncodeChar(c)) == c as int
  {
    var n := c as int;
    var a := n / 64;
    var b := a / 64;
    if n < 0x80 {
    } else if n < 0x800 {
      assert n == a * 64 + n % 64;
    } else if n < 0x10000 {
      assert n == a * 64 + n % 64;
      assert a == b * 64 + a % 64;
    } else {
      assert n == a * 64 + n % 64;
      assert a == b * 64 + a % 64;
      assert b == (b / 64) * 64 + b % 64;
    }
  }

  /** Distinct characters have distinct encodings */
  lemma EncodeCharInjective(a: char, b: char)
    requires EncodeChar(a) == EncodeChar(b)
    ensures a == b
  {
    DecodeEncodeChar(a);
    DecodeEncodeChar(b);
  }

  /** The encoding of a string: the encodings of its characters, in order */
  function Encode(s: string): (bs: seq<byte>)
    ensures |s| <= |bs| <= 4 * |s|
  {
    if |s| == 0 then [] else EncodeChar(s[0]) + Encode(s[1..])
  }

  /** Encoding distributes over concatenation */
  lemma {:induction false} EncodeAppend(s: string, t: string)
    ensures Encode(s + t) == Encode(s) + Encode(t)
  {
    if |s| == 0 {
      assert s + t == t;
    } else {
      assert (s + t)[0] == s[0];
      assert (s + t)[1..] == s[1..] + t;
      EncodeAppend(s[1..], t);
    }
  }

  /** Distinct strings have distinct encodings */
  lemma {:induction false} EncodeInjective(s: string, t: string)
    requires Encode(s) == Encode(t)
    ensures s == t
  {
    if |s| > 0 && |t| > 0 {
      var e, f := EncodeChar(s[0]), EncodeChar(t[0]);
      var bs := Encode(s);
      assert bs[0] == e[0] && bs[0] == f[0];
      assert |e| == |f|;
      assert e == bs[..|e|] == f;
      EncodeCharInjective(s[0], t[0]);
      assert Encode(s[1..]) == bs[|e|..] == Encode(t[1..]);
      EncodeInjective(s[1..], t[1..]);
      assert s == [s[0]] + s[1..];
      assert t == [t[0]] + t[1..];
    }
  }
}
