/**
 * Hexadecimal digits and the two JavaScript conversions the signature helper
 * relies on, as it uses them: `parseInt(s, 16)` on a non-empty string of hex
 * digits, and `Number.prototype.toString(16)` on a non-negative integer
 * (lower-case digits, no padding, no leading zeros).  Both are exact here on
 * every natural number; the helper only uses them on two digits and on values
 * below 256, where JavaScript's double-precision numbers are exact too.
 */
module Hex {

  /** A digit `parseInt(_, 16)` accepts: either case. */
  predicate IsHexDigit(c: char) {
    '0' <= c <= '9' || 'a' <= c <= 'f' || 'A' <= c <= 'F'
  }

  /** A digit `toString(16)` can produce: lower case only. */
  predicate IsLowerHexDigit(c: char) {
    '0' <= c <= '9' || 'a' <= c <= 'f'
  }

  predicate IsHexString(s: seq<char>) {
    forall i :: 0 <= i < |s| ==> IsHexDigit(s[i])
  }

  predicate IsLowerHexString(s: seq<char>) {
    forall i :: 0 <= i < |s| ==> IsLowerHexDigit(s[i])
  }

  function Pow16(n: nat): (p: nat)
    ensures p >= 1
  {
    if n == 0 then 1 else 16 * Pow16(n - 1)
  }

  /** The value of one hex digit. */
  function DigitValue(c: char): (d: nat)
    requires IsHexDigit(c)
    ensures d < 16
    ensures IsLowerHexDigit(c) && c != '0' ==> d > 0
    ensures 'A' <= c <= 'F' ==> d >= 10
  {
    if '0' <= c <= '9' then c as int - '0' as int
    else if 'a' <= c <= 'f' then c as int - 'a' as int + 10
    else c as int - 'A' as int + 10
  }

  /** The lower-case digit for a value below 16. */
  function LowerDigit(d: nat): (c: char)
    requires d < 16
    ensures IsLowerHexDigit(c)
    ensures DigitValue(c) == d
    ensures c == '0' <==> d == 0
  {
    if d < 10 then ('0' as int + d) as char else ('a' as int + d - 10) as char
  }

  /** A lower-case digit is the one `LowerDigit` writes for its own value. */
  lemma LowerDigitOfValue(c: char)
    requires IsLowerHexDigit(c)
    ensures LowerDigit(DigitValue(c)) == c
  {
  }

  /** The lower-case twin of an upper-case hex digit. */
  function ToLowerDigit(c: char): (l: char)
    requires 'A' <= c <= 'F'
    ensures IsLowerHexDigit(l) && 'a' <= l
  {
    (c as int - 'A' as int + 'a' as int) as char
  }

  /** `parseInt` ignores case: an upper-case digit is worth what its lower-case twin is. */
  lemma UpperDigitValue(c: char)
    requires 'A' <= c <= 'F'
    ensures IsHexDigit(c)
    ensures DigitValue(c) == DigitValue(ToLowerDigit(c))
    ensures LowerDigit(DigitValue(c)) == ToLowerDigit(c)
  {
  }

  /**
   * `parseInt(s, 16)` for a non-empty string made only of hex digits, read
   * most significant digit first.
   */
  function ParseHex(s: seq<char>): (v: nat)
    requires |s| >= 1 && IsHexString(s)
    ensures v < Pow16(|s|)
  {
    if |s| == 1 then DigitValue(s[0])
    else ParseHex(s[..|s| - 1]) * 16 + DigitValue(s[|s| - 1])
  }

  /** A two-digit string is read as high digit times sixteen plus low digit. */
  lemma ParsePair(s: seq<char>)
    requires |s| == 2 && IsHexString(s)
    ensures ParseHex(s) == DigitValue(s[0]) * 16 + DigitValue(s[1])
  {
  }

  /** `n.toString(16)`: lower-case digits, and no leading zero unless `n` is zero. */
  function ToHex(n: nat): (s: seq<char>)
    ensures |s| >= 1
    ensures IsLowerHexString(s)
    ensures s[0] == '0' ==> n == 0
  {
    if n < 16 then [LowerDigit(n)] else ToHex(n / 16) + [LowerDigit(n % 16)]
  }

  /** Reading back what `ToHex` writes gives the number again. */
  lemma {:induction false} ParseToHex(n: nat)
    ensures IsHexString(ToHex(n))
    ensures ParseHex(ToHex(n)) == n
  {
    var s := ToHex(n);
    if n >= 16 {
      ParseToHex(n / 16);
      assert s[..|s| - 1] == ToHex(n / 16);
    }
  }

  /** A value that fits one byte and is at least 16 is written as exactly two digits. */
  lemma ToHexOfByte(n: nat)
    requires 16 <= n < 256
    ensures ToHex(n) == [LowerDigit(n / 16), LowerDigit(n % 16)]
  {
  }

  /**
   * A two-digit lower-case string whose first digit is not zero is the canonical
   * `toString(16)` spelling of its own value.
   */
  lemma ToHexOfParsedPair(s: seq<char>)
    requires |s| == 2 && IsLowerHexString(s) && s[0] != '0'
    ensures IsHexString(s)
    ensures ToHex(ParseHex(s)) == s
  {
    var hi, lo := DigitValue(s[0]), DigitValue(s[1]);
    ParsePair(s);
    ToHexOfByte(hi * 16 + lo);
    LowerDigitOfValue(s[0]);
    LowerDigitOfValue(s[1]);
  }
}
