/**
 * Bytes, the ASCII characters that structure bencode, and decimal numerals.
 *
 * The codec reads characters through a reader set up for UTF-8; every
 * structural character is ASCII, so reading a character and reading a byte
 * agree on them, and the model works on bytes throughout.
 */
module Bytes {

  newtype byte = b: int | 0 <= b < 256

  const NUL: byte := 0
  const COLON: byte := 58   // ':'
  const MINUS: byte := 45   // '-'
  const ZERO: byte := 48    // '0'
  const LOWER_D: byte := 100  // 'd'
  const LOWER_E: byte := 101  // 'e'
  const LOWER_I: byte := 105  // 'i'
  const LOWER_L: byte := 108  // 'l'

  predicate IsDigit(b: byte) {
    48 <= b <= 57
  }

  /** White space as .NET's number parser knows it: tab to carriage return, and space. */
  predicate IsWhite(b: byte) {
    b == 32 || 9 <= b <= 13
  }

  predicate AllDigits(s: seq<byte>) {
    forall i :: 0 <= i < |s| ==> IsDigit(s[i])
  }

  function DigitValue(b: byte): (d: nat)
    requires IsDigit(b)
    ensures d < 10
  {
    (b - ZERO) as nat
  }

  function DigitByte(d: nat): (b: byte)
    requires d < 10
    ensures IsDigit(b) && DigitValue(b) == d
  {
    (d + 48) as byte
  }

  /** The value of a run of decimal digits, most significant first. */
  function DigitsValue(s: seq<byte>): nat
    requires AllDigits(s)
  {
    if s == [] then 0 else DigitsValue(s[..|s| - 1]) * 10 + DigitValue(s[|s| - 1])
  }

  /** The canonical decimal numeral of n: no sign, no leading zero. */
  function DecimalText(n: nat): (r: seq<byte>)
    ensures 1 <= |r| && AllDigits(r)
    ensures r[0] == ZERO ==> n == 0 && r == [ZERO]
  {
    if n < 10 then [DigitByte(n)] else DecimalText(n / 10) + [DigitByte(n % 10)]
  }

  /** A numeral is canonical when it is "0" or does not start with '0'. */
  predicate IsCanonicalNumeral(s: seq<byte>) {
    1 <= |s| && AllDigits(s) && (s[0] == ZERO ==> |s| == 1)
  }

  lemma {:induction false} DigitsValueOfDecimalText(n: nat)
    ensures DigitsValue(DecimalText(n)) == n
  {
    var r := DecimalText(n);
    if n >= 10 {
      DigitsValueOfDecimalText(n / 10);
      assert r[..|r| - 1] == DecimalText(n / 10);
    }
  }

  lemma {:induction false} NonZeroLeadPositive(s: seq<byte>)
    requires 1 <= |s| && AllDigits(s) && s[0] != ZERO
    ensures DigitsValue(s) >= 1
  {
    if |s| > 1 {
      NonZeroLeadPositive(s[..|s| - 1]);
    }
  }

  /** Every canonical numeral is the decimal text of its own value. */
  lemma {:induction false} DecimalTextOfDigitsValue(s: seq<byte>)
    requires IsCanonicalNumeral(s)
    ensures DecimalText(DigitsValue(s)) == s
  {
    var n := DigitsValue(s);
    if |s| > 1 {
      var init := s[..|s| - 1];
      NonZeroLeadPositive(init);
      assert n / 10 == DigitsValue(init) && n % 10 == DigitValue(s[|s| - 1]);
      DecimalTextOfDigitsValue(init);
      assert s == init + [s[|s| - 1]];
    }
  }

  /** Two numbers have the same decimal text only if they are equal. */
  lemma DecimalTextInjective(m: nat, n: nat)
    requires DecimalText(m) == DecimalText(n)
    ensures m == n
  {
    DigitsValueOfDecimalText(m);
    DigitsValueOfDecimalText(n);
  }

  /** A byte read as the character with the same code (exact for ASCII). */
  function CharOf(b: byte): char {
    b as int as char
  }

  /** The text of a byte string; UTF-8 decoding is modelled as byte-per-character. */
  function Text(bs: seq<byte>): (s: string)
    ensures |s| == |bs| && forall i :: 0 <= i < |bs| ==> s[i] as int == bs[i] as int
  {
    seq(|bs|, i requires 0 <= i < |bs| => CharOf(bs[i]))
  }

  lemma TextInjective(a: seq<byte>, b: seq<byte>)
    requires Text(a) == Text(b)
    ensures a == b
  {
    assert |a| == |b|;
    forall i | 0 <= i < |a| ensures a[i] == b[i] {
      assert Text(a)[i] == Text(b)[i];
    }
  }

  predicate IsAscii(s: string) {
    forall i :: 0 <= i < |s| ==> s[i] as int < 128
  }

  /** Texts of ASCII characters only, such as the dictionary keys the core looks up. */
  type AsciiText = s: string | IsAscii(s)

  /** The bytes of an ASCII text, as UTF-8 encodes them. */
  function AsciiBytes(s: AsciiText): (bs: seq<byte>)
    ensures |bs| == |s| && Text(bs) == s
  {
    seq(|s|, i requires 0 <= i < |s| => s[i] as int as byte)
  }
}
