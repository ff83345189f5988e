/** Lower-case hexadecimal encoding of a byte string, as Node's `Buffer.toString('hex')`
    produces it: two digits per byte, high nibble first. The reset token of the
    forgot-password handler is the hex encoding of 20 random bytes. */
module Hex {
  import opened Options
  import opened Bytes

  const Digits: string := "0123456789abcdef"

  predicate IsHexDigit(c: char) {
    ('0' <= c <= '9') || ('a' <= c <= 'f')
  }

  /** True when every character of `s` is a lower-case hex digit */
  predicate AllHexDigits(s: string) {
    forall i :: 0 <= i < |s| ==> IsHexDigit(s[i])
  }

  /** The digit character for a nibble value */
  function Digit(n: nat): (c: char)
    requires n < 16
    ensures IsHexDigit(c)
    ensures c == Digits[n]
  {
    if n < 10 then ('0' as int + n) as char else ('a' as int + (n - 10)) as char
  }

  /** The nibble value of a digit character; the inverse of Digit */
  function DigitValue(c: char): (n: nat)
    requires IsHexDigit(c)
    ensures n < 16
    ensures Digit(n) == c
  {
    if '0' <= c <= '9' then (c as int - '0' as int) else (c as int - 'a' as int + 10)
  }

  lemma DigitValueOfDigit(n: nat)
    requires n < 16
    ensures DigitValue(Digit(n)) == n
  {
  }

  function EncodeByte(b: byte): (s: string)
    ensures |s| == 2 && AllHexDigits(s)
  {
    [Digit(b as int / 16), Digit(b as int % 16)]
  }

  /** Hex encoding of a byte string */
  function Encode(bs: seq<byte>): (s: string)
    ensures |s| == 2 * |bs|
    ensures AllHexDigits(s)
  {
    if |bs| == 0 then [] else EncodeByte(bs[0]) + Encode(bs[1..])
  }

  /** Hex decoding: fails on an odd length or on a character that is not a lower-case digit */
  function Decode(s: string): (r: Option<seq<byte>>)
    ensures r.Some? <==> |s| % 2 == 0 && AllHexDigits(s)
    ensures r.Some? ==> 2 * |r.value| == |s|
  {
    if |s| == 0 then Some([])
    else if |s| == 1 || !IsHexDigit(s[0]) || !IsHexDigit(s[1]) then None
    else match Decode(s[2..])
      case None => None
      case Some(rest) => Some([(DigitValue(s[0]) * 16 + DigitValue(s[1])) as byte] + rest)
  }

  /** Decoding recovers the bytes that were encoded */
  lemma {:induction false} DecodeEncode(bs: seq<byte>)
    ensures Decode(Encode(bs)) == Some(bs)
  {
    if |bs| > 0 {
      var s := Encode(bs);
      var b := bs[0] as int;
      assert s == EncodeByte(bs[0]) + Encode(bs[1..]);
      assert s[..2] == EncodeByte(bs[0]);
      assert s[2..] == Encode(bs[1..]);
      DigitValueOfDigit(b / 16);
      DigitValueOfDigit(b % 16);
      DecodeEncode(bs[1..]);
      assert [bs[0]] + bs[1..] == bs;
    }
  }

  /** Encoding recovers every string that decodes */
  lemma {:induction false} EncodeDecode(s: string)
    requires Decode(s).Some?
    ensures Encode(Decode(s).value) == s
  {
    if |s| > 0 {
      var hi := DigitValue(s[0]);
      var lo := DigitValue(s[1]);
      var b := (hi * 16 + lo) as byte;
      assert b as int / 16 == hi && b as int % 16 == lo;
      EncodeDecode(s[2..]);
      var bs := Decode(s).value;
      assert bs[0] == b && bs[1..] == Decode(s[2..]).value;
      assert s == s[..2] + s[2..];
    }
  }

  /** Distinct byte strings give distinct tokens */
  lemma EncodeInjective(a: seq<byte>, b: seq<byte>)
    ensures Encode(a) == Encode(b) ==> a == b
  {
    DecodeEncode(a);
    DecodeEncode(b);
  }
}
