/**
 * Character classification, case mapping and single hex digits
 * (the per-character helpers of devtools/utils/StringExtras.h).
 *
 * A C++ `char` is modelled by its unsigned byte value. Every range test in
 * these helpers lies within 0..127, so a signed `char` gives the same answers.
 */
module CharClass {
  import opened Wrappers

  /** One `char`, as its unsigned byte value. */
  type Byte = x: int | 0 <= x < 0x100

  /** A `std::string` / `std::string_view`, as its bytes. */
  type Text = seq<Byte>

  /** C++ `unsigned` (32 bits). */
  type uint32 = x: int | 0 <= x < 0x1_0000_0000

  /** The bytes of an ASCII literal. */
  function Bytes(s: string): (t: Text)
    requires forall i | 0 <= i < |s| :: s[i] as int < 0x100
    ensures |t| == |s| && forall i | 0 <= i < |s| :: t[i] == s[i] as int
  {
    seq(|s|, i requires 0 <= i < |s| => s[i] as int)
  }

  predicate InRange(c: Byte, lo: char, hi: char) {
    lo as int <= c <= hi as int
  }

  // ---------------------------------------------------------------------
  // Classification

  /** is_digit: one of the ten decimal digits. */
  predicate IsDigit(c: Byte) {
    InRange(c, '0', '9')
  }

  predicate IsLower(c: Byte) {
    InRange(c, 'a', 'z')
  }

  predicate IsUpper(c: Byte) {
    InRange(c, 'A', 'Z')
  }

  /** is_alpha: a letter of the "C" locale. */
  predicate IsAlpha(c: Byte) {
    IsLower(c) || IsUpper(c)
  }

  /** is_alnum: a letter or a decimal digit. */
  predicate IsAlnum(c: Byte) {
    IsAlpha(c) || IsDigit(c)
  }

  /** is_ascii(char): the high bit of the unsigned byte is clear. */
  predicate IsAscii(c: Byte) {
    c <= 127
  }

  /** is_print: the locale-independent printable range 0x20..0x7E. */
  predicate IsPrint(c: Byte) {
    0x20 <= c && c <= 0x7E
  }

  /**
   * is_ascii(string_view): scans the text and stops at the first byte
   * whose high bit is set.
   */
  method IsAsciiText(str: Text) returns (r: bool)
    ensures r <==> forall i | 0 <= i < |str| :: str[i] <= 127
  {
    for i := 0 to |str|
      invariant forall k | 0 <= k < i :: str[k] <= 127
    {
      if !IsAscii(str[i]) {
        return false;
      }
    }
    return true;
  }

  lemma ClassInclusions(c: Byte)
    ensures IsAlnum(c) <==> IsAlpha(c) || IsDigit(c)
    ensures IsAlnum(c) ==> IsPrint(c)
    ensures IsPrint(c) ==> IsAscii(c)
    ensures IsPrint(c) <==> IsAscii(c) && c != 0x7F && c >= ' ' as int
    ensures !(IsAlpha(c) && IsDigit(c))
  {
  }

  // ---------------------------------------------------------------------
  // Case mapping

  /** to_lower: maps 'A'..'Z' to 'a'..'z' and leaves every other byte alone. */
  function ToLower(c: Byte): (r: Byte)
    ensures r != c <==> IsUpper(c)
    ensures !IsUpper(r)
    ensures IsUpper(c) ==> IsLower(r) && r - 'a' as int == c - 'A' as int
    ensures IsAlpha(r) == IsAlpha(c)
  {
    if c >= 'A' as int && c <= 'Z' as int then c - 'A' as int + 'a' as int else c
  }

  /** to_upper: maps 'a'..'z' to 'A'..'Z' and leaves every other byte alone. */
  function ToUpper(c: Byte): (r: Byte)
    ensures r != c <==> IsLower(c)
    ensures !IsLower(r)
    ensures IsLower(c) ==> IsUpper(r) && r - 'A' as int == c - 'a' as int
    ensures IsAlpha(r) == IsAlpha(c)
  {
    if c >= 'a' as int && c <= 'z' as int then c - 'a' as int + 'A' as int else c
  }

  /** The two case mappings undo each other on letters and are idempotent. */
  lemma CaseMappingsInverse(c: Byte)
    ensures IsUpper(c) ==> ToUpper(ToLower(c)) == c
    ensures IsLower(c) ==> ToLower(ToUpper(c)) == c
    ensures ToLower(ToLower(c)) == ToLower(c) && ToUpper(ToUpper(c)) == ToUpper(c)
    ensures ToLower(ToUpper(c)) == ToLower(c) && ToUpper(ToLower(c)) == ToUpper(c)
  {
  }

  // ---------------------------------------------------------------------
  // Single hex digits

  /**
   * hexdigit: the character for `value`, '0'..'9' and then 'a'..'f' or
   * 'A'..'F'. The unsigned sum is truncated to a `char`, so a value of 16 or
   * more gives some other byte; callers pass a nibble.
   */
  function HexDigit(value: uint32, lowerCase: bool := false): (c: Byte)
    ensures value < 10 ==> IsDigit(c) && c - '0' as int == value
    ensures 10 <= value < 16 && lowerCase ==> InRange(c, 'a', 'f')
    ensures 10 <= value < 16 && !lowerCase ==> InRange(c, 'A', 'F')
  {
    var hexChar := if lowerCase then 'a' as int else 'A' as int;
    var code := if value < 10 then '0' as int + value else hexChar + value - 10;
    // the conversion to `char` keeps the low eight bits
    if code < 0x100 then code else code % 0x100
  }

  /**
   * hex_digit_value: the value of a hex digit of either case; None stands
   * for the `-1U` sentinel returned for every other byte.
   */
  function HexDigitValue(c: Byte): (r: Option<nat>)
    ensures r.Some? ==> r.value < 16
  {
    if c >= '0' as int && c <= '9' as int then Some(c - '0' as int)
    else if c >= 'a' as int && c <= 'f' as int then Some(c - 'a' as int + 10)
    else if c >= 'A' as int && c <= 'F' as int then Some(c - 'A' as int + 10)
    else None
  }

  /** is_hex_digit: hex_digit_value does not return the sentinel. */
  predicate IsHexDigit(c: Byte) {
    HexDigitValue(c).Some?
  }

  /** Exactly 0-9, a-f and A-F have a value; the decimal digits are the values below 10. */
  lemma HexDigitValueDomain(c: Byte)
    ensures IsHexDigit(c) <==> IsDigit(c) || InRange(c, 'a', 'f') || InRange(c, 'A', 'F')
    ensures IsHexDigit(c) && HexDigitValue(c).value < 10 <==> IsDigit(c)
  {
  }

  /** Every nibble survives hexdigit followed by hex_digit_value, in either case. */
  lemma HexDigitRoundTrip(v: nat, lowerCase: bool)
    requires v < 16
    ensures HexDigitValue(HexDigit(v, lowerCase)) == Some(v)
  {
  }

  /** A hex digit is the hexdigit of its own value, in the case it is written in. */
  lemma HexDigitValueInverse(c: Byte)
    requires IsHexDigit(c)
    ensures HexDigit(HexDigitValue(c).value, IsLower(c)) == c
    ensures HexDigit(HexDigitValue(c).value, false) == ToUpper(c)
    ensures HexDigit(HexDigitValue(c).value, true) == ToLower(c)
  {
  }

  /** Decoding a digit does not depend on its case. */
  lemma HexDigitValueCaseInsensitive(c: Byte)
    ensures HexDigitValue(ToLower(c)) == HexDigitValue(c)
    ensures HexDigitValue(ToUpper(c)) == HexDigitValue(c)
    ensures IsHexDigit(c) <==> IsDigit(c) || InRange(ToLower(c), 'a', 'f')
  {
  }

  /** Every decimal digit is a hex digit, and every hex digit is alphanumeric. */
  lemma HexDigitClasses(c: Byte)
    ensures IsDigit(c) ==> IsHexDigit(c)
    ensures IsHexDigit(c) ==> IsAlnum(c)
  {
  }
}
