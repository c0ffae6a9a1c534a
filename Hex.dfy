/**
 * Node's `Buffer` hex codec: `buf.toString('hex')` writes two lower-case digits per byte;
 * `Buffer.from(s, 'hex')` reads digit pairs (either case) and stops at the first pair that
 * is not two hex digits, dropping an odd trailing digit.
 */
module Hex {

  newtype byte = x: int | 0 <= x < 256

  const DIGITS: string := "0123456789abcdef"

  predicate IsHexDigit(c: char)
  {
    ('0' <= c <= '9') || ('a' <= c <= 'f') || ('A' <= c <= 'F')
  }

  /** True when every character of `s` is a hex digit. */
  predicate AllHex(s: string)
  {
    forall i :: 0 <= i < |s| ==> IsHexDigit(s[i])
  }

  function DigitValue(c: char): (v: int)
    requires IsHexDigit(c)
    ensures 0 <= v < 16
  {
    if '0' <= c <= '9' then c as int - '0' as int
    else if 'a' <= c <= 'f' then c as int - 'a' as int + 10
    else c as int - 'A' as int + 10
  }

  function Digit(n: int): (c: char)
    requires 0 <= n < 16
    ensures IsHexDigit(c) && DigitValue(c) == n
  {
    DIGITS[n]
  }

  /** `Buffer.from(bytes).toString('hex')`. */
  function Encode(b: seq<byte>): (s: string)
    ensures |s| == 2 * |b|
    ensures AllHex(s)
  {
    if b == [] then ""
    else [Digit(b[0] as int / 16), Digit(b[0] as int % 16)] + Encode(b[1..])
  }

  /** `Buffer.from(s, 'hex')`: decodes the leading run of valid digit pairs. */
  function Decode(s: string): (b: seq<byte>)
    ensures |b| <= |s| / 2
  {
    if |s| < 2 || !IsHexDigit(s[0]) || !IsHexDigit(s[1]) then []
    else [(DigitValue(s[0]) * 16 + DigitValue(s[1])) as byte] + Decode(s[2..])
  }

  /** Hex output never contains the `:` that separates the stored IV from the ciphertext. */
  lemma EncodeHasNoColon(b: seq<byte>)
    ensures ':' !in Encode(b)
  {
  }

  /** Decoding inverts encoding. */
  lemma {:induction false} DecodeEncode(b: seq<byte>)
    ensures Decode(Encode(b)) == b
  {
    if b != [] {
      var s := Encode(b);
      var hi, lo := b[0] as int / 16, b[0] as int % 16;
      assert s == [Digit(hi), Digit(lo)] + Encode(b[1..]);
      assert s[2..] == Encode(b[1..]);
      DecodeEncode(b[1..]);
      assert (DigitValue(s[0]) * 16 + DigitValue(s[1])) as byte == b[0];
      assert [b[0]] + b[1..] == b;
    }
  }
}
