/**
 * Hexadecimal codecs of devtools/utils/StringExtras.h: bytes to Base16 text
 * (to_hex), Base16 text back to bytes (from_hex, hex_from_nibbles), and a
 * 64-bit unsigned number to hex text without leading zeros (utohexstr).
 */
module HexCodec {
  import opened Wrappers
  import opened CharClass

  /** C++ `uint64_t`. */
  type uint64 = x: int | 0 <= x < 0x1_0000_0000_0000_0000

  /** The character '0'. */
  const Zero: Byte := '0' as int

  /** The lookup table of to_hex: the upper-case Base16 alphabet. */
  const Lut: Text := Bytes("0123456789ABCDEF")

  lemma LutIsUpperHexDigit(k: nat)
    requires k < 16
    ensures Lut[k] == HexDigit(k, false)
  {
  }

  predicate AllHexDigits(s: Text) {
    forall i {:trigger IsHexDigit(s[i])} | 0 <= i < |s| :: IsHexDigit(s[i])
  }

  // ---------------------------------------------------------------------
  // to_hex

  /** The two hex characters of one byte, high nibble first. */
  function HexPair(b: Byte): Text {
    [Lut[b / 16], Lut[b % 16]]
  }

  /** What to_hex produces: one hex pair per input byte, in order. */
  function HexEncoding(b: Text): (h: Text)
    ensures |h| == 2 * |b|
  {
    if b == [] then [] else HexPair(b[0]) + HexEncoding(b[1..])
  }

  lemma {:induction false} HexEncodingSnoc(b: Text, x: Byte)
    ensures HexEncoding(b + [x]) == HexEncoding(b) + HexPair(x)
  {
    if b != [] {
      assert (b + [x])[1..] == b[1..] + [x];
      HexEncodingSnoc(b[1..], x);
    }
  }

  /** Positions 2i and 2i+1 of to_hex(b) are the upper-case digits of the two nibbles of b[i]. */
  lemma {:induction false} HexEncodingAt(b: Text, i: nat)
    requires i < |b|
    ensures HexEncoding(b)[2 * i] == HexDigit(b[i] / 16, false)
    ensures HexEncoding(b)[2 * i + 1] == HexDigit(b[i] % 16, false)
  {
    if i == 0 {
      LutIsUpperHexDigit(b[0] / 16);
      LutIsUpperHexDigit(b[0] % 16);
    } else {
      HexEncodingAt(b[1..], i - 1);
    }
  }

  /** to_hex: appends the table entries of the high and the low nibble of each byte. */
  method ToHex(input: Text) returns (output: Text)
    ensures output == HexEncoding(input)
  {
    var length := |input|;
    output := [];
    var i := 0;
    while i < length
      invariant 0 <= i <= length
      invariant output == HexEncoding(input[..i])
    {
      var c := input[i];
      ghost var done := output;
      output := output + [Lut[c / 16]];
      output := output + [Lut[c % 16]];
      assert output == done + HexPair(c);
      HexEncodingSnoc(input[..i], c);
      assert input[..i + 1] == input[..i] + [c];
      i := i + 1;
    }
    assert input[..length] == input;
  }

  // ---------------------------------------------------------------------
  // from_hex

  /** hex_from_nibbles: the byte whose high nibble is `msb`'s value and low nibble `lsb`'s. */
  function HexFromNibbles(msb: Byte, lsb: Byte): (b: Byte)
    requires IsHexDigit(msb) && IsHexDigit(lsb)
    ensures b / 16 == HexDigitValue(msb).value
    ensures b % 16 == HexDigitValue(lsb).value
  {
    // (u1 << 4) | u2 with u2 < 16: the two nibbles do not overlap
    HexDigitValue(msb).value * 16 + HexDigitValue(lsb).value
  }

  /** The bytes of an even-length run of hex pairs, read front to back. */
  function DecodePairs(s: Text): (b: Text)
    requires |s| % 2 == 0 && AllHexDigits(s)
    ensures |b| == |s| / 2
  {
    if s == [] then [] else [HexFromNibbles(s[0], s[1])] + DecodePairs(s[2..])
  }

  /**
   * What from_hex produces: odd-length input decodes its first character as
   * the low nibble of the first byte, then the rest pair by pair.
   */
  function HexDecoding(s: Text): (b: Text)
    requires AllHexDigits(s)
  {
    if |s| % 2 == 1 then [HexFromNibbles(Zero, s[0])] + DecodePairs(s[1..]) else DecodePairs(s)
  }

  lemma DecodePairsStep(s: Text)
    requires |s| % 2 == 0 && AllHexDigits(s) && s != []
    ensures AllHexDigits(s[2..])
    ensures DecodePairs(s) == [HexFromNibbles(s[0], s[1])] + DecodePairs(s[2..])
  {
  }

  lemma HexDecodingOdd(s: Text)
    requires AllHexDigits(s) && |s| % 2 == 1
    ensures AllHexDigits(s[1..])
    ensures HexDecoding(s) == [HexFromNibbles(Zero, s[0])] + DecodePairs(s[1..])
  {
  }

  /** The loop of from_hex: appends the byte of each remaining pair, re-slicing the input. */
  method AppendPairs(prefix: Text, pairs: Text) returns (output: Text)
    requires |pairs| % 2 == 0 && AllHexDigits(pairs)
    ensures output == prefix + DecodePairs(pairs)
  {
    output := prefix;
    var input := pairs;
    while |input| != 0
      invariant |input| % 2 == 0 && AllHexDigits(input)
      invariant output + DecodePairs(input) == prefix + DecodePairs(pairs)
      decreases |input|
    {
      DecodePairsStep(input);
      var hex := HexFromNibbles(input[0], input[1]);
      ghost var rest := DecodePairs(input[2..]);
      assert (output + [hex]) + rest == output + ([hex] + rest);
      output := output + [hex];
      input := input[2..];
    }
    assert output + DecodePairs(input) == output;
  }

  /** from_hex: decodes an odd leading digit alone, then the remaining pairs. */
  method FromHex(s: Text) returns (output: Text)
    requires AllHexDigits(s)
    ensures output == HexDecoding(s)
  {
    var input := s;
    if |input| == 0 {
      return [];
    }
    output := [];
    if |input| % 2 == 1 {
      HexDecodingOdd(input);
      output := output + [HexFromNibbles(Zero, input[0])];
      input := input[1..];
    }
    output := AppendPairs(output, input);
  }

  /** from_hex returns ceil(|s| / 2) bytes. */
  lemma HexDecodingLength(s: Text)
    requires AllHexDigits(s)
    ensures |HexDecoding(s)| == (|s| + 1) / 2
  {
  }

  /** Odd-length input decodes as if a '0' were prepended. */
  lemma HexDecodingOddPadding(s: Text)
    requires AllHexDigits(s) && |s| % 2 == 1
    ensures AllHexDigits([Zero] + s)
    ensures HexDecoding(s) == HexDecoding([Zero] + s)
    ensures IsHexDigit(s[0]) && HexDecoding(s)[0] == HexDigitValue(s[0]).value
  {
    var t := [Zero] + s;
    assert t[2..] == s[1..];
  }

  lemma {:induction false} HexEncodingIsHex(b: Text)
    ensures AllHexDigits(HexEncoding(b))
  {
    if b != [] {
      LutIsUpperHexDigit(b[0] / 16);
      LutIsUpperHexDigit(b[0] % 16);
      HexDigitRoundTrip(b[0] / 16, false);
      HexDigitRoundTrip(b[0] % 16, false);
      assert AllHexDigits(HexPair(b[0]));
      HexEncodingIsHex(b[1..]);
    }
  }

  /** from_hex(to_hex(b)) == b. */
  lemma {:induction false} HexRoundTrip(b: Text)
    ensures AllHexDigits(HexEncoding(b))
    ensures HexDecoding(HexEncoding(b)) == b
  {
    HexEncodingIsHex(b);
    DecodePairsOfEncoding(b);
  }

  /** One byte survives to_hex's pair followed by hex_from_nibbles. */
  lemma HexPairRoundTrip(x: Byte)
    ensures IsHexDigit(HexPair(x)[0]) && IsHexDigit(HexPair(x)[1])
    ensures HexFromNibbles(HexPair(x)[0], HexPair(x)[1]) == x
  {
    LutIsUpperHexDigit(x / 16);
    LutIsUpperHexDigit(x % 16);
    HexDigitRoundTrip(x / 16, false);
    HexDigitRoundTrip(x % 16, false);
  }

  lemma {:induction false} DecodePairsOfEncoding(b: Text)
    requires AllHexDigits(HexEncoding(b))
    ensures DecodePairs(HexEncoding(b)) == b
  {
    if b != [] {
      var h := HexEncoding(b);
      assert h == HexPair(b[0]) + HexEncoding(b[1..]);
      assert h[2..] == HexEncoding(b[1..]);
      HexPairRoundTrip(b[0]);
      DecodePairsOfEncoding(b[1..]);
    }
  }

  /** The text with every letter mapped by to_lower / to_upper. */
  function Lowered(s: Text): (t: Text)
    ensures |t| == |s| && forall i | 0 <= i < |s| :: t[i] == ToLower(s[i])
  {
    seq(|s|, i requires 0 <= i < |s| => ToLower(s[i]))
  }

  function Uppered(s: Text): (t: Text)
    ensures |t| == |s| && forall i | 0 <= i < |s| :: t[i] == ToUpper(s[i])
  {
    seq(|s|, i requires 0 <= i < |s| => ToUpper(s[i]))
  }

  lemma {:induction false} DecodePairsCaseInsensitive(s: Text)
    requires |s| % 2 == 0 && AllHexDigits(s)
    ensures AllHexDigits(Lowered(s))
    ensures DecodePairs(Lowered(s)) == DecodePairs(s)
  {
    forall i | 0 <= i < |s| ensures IsHexDigit(Lowered(s)[i]) {
      HexDigitValueCaseInsensitive(s[i]);
    }
    if s != [] {
      HexDigitValueCaseInsensitive(s[0]);
      HexDigitValueCaseInsensitive(s[1]);
      assert Lowered(s)[2..] == Lowered(s[2..]);
      DecodePairsCaseInsensitive(s[2..]);
    }
  }

  lemma {:induction false} DecodePairsUpperCase(s: Text)
    requires |s| % 2 == 0 && AllHexDigits(s)
    ensures AllHexDigits(Uppered(s))
    ensures DecodePairs(Uppered(s)) == DecodePairs(s)
  {
    forall i | 0 <= i < |s| ensures IsHexDigit(Uppered(s)[i]) {
      HexDigitValueCaseInsensitive(s[i]);
    }
    if s != [] {
      HexDigitValueCaseInsensitive(s[0]);
      HexDigitValueCaseInsensitive(s[1]);
      assert Uppered(s)[2..] == Uppered(s[2..]);
      DecodePairsUpperCase(s[2..]);
    }
  }

  /** from_hex gives the same bytes whatever the case of the letter digits. */
  lemma {:induction false} HexDecodingCaseInsensitive(s: Text)
    requires AllHexDigits(s)
    ensures AllHexDigits(Lowered(s)) && AllHexDigits(Uppered(s))
    ensures HexDecoding(Lowered(s)) == HexDecoding(s)
    ensures HexDecoding(Uppered(s)) == HexDecoding(s)
  {
    HexDecodingLowerCase(s);
    HexDecodingUpperCase(s);
  }

  lemma HexDecodingLowerCase(s: Text)
    requires AllHexDigits(s)
    ensures AllHexDigits(Lowered(s))
    ensures HexDecoding(Lowered(s)) == HexDecoding(s)
  {
    if |s| % 2 == 1 {
      assert Lowered(s)[1..] == Lowered(s[1..]);
      HexDigitValueCaseInsensitive(s[0]);
      DecodePairsCaseInsensitive(s[1..]);
    } else {
      DecodePairsCaseInsensitive(s);
    }
  }

  lemma HexDecodingUpperCase(s: Text)
    requires AllHexDigits(s)
    ensures AllHexDigits(Uppered(s))
    ensures HexDecoding(Uppered(s)) == HexDecoding(s)
  {
    if |s| % 2 == 1 {
      assert Uppered(s)[1..] == Uppered(s[1..]);
      HexDigitValueCaseInsensitive(s[0]);
      DecodePairsUpperCase(s[1..]);
    } else {
      DecodePairsUpperCase(s);
    }
  }

  /** Re-encoding one decoded pair gives its two digits in upper case. */
  lemma HexPairOfNibbles(msb: Byte, lsb: Byte)
    requires IsHexDigit(msb) && IsHexDigit(lsb)
    ensures HexPair(HexFromNibbles(msb, lsb)) == [ToUpper(msb), ToUpper(lsb)]
  {
    var b := HexFromNibbles(msb, lsb);
    LutIsUpperHexDigit(b / 16);
    LutIsUpperHexDigit(b % 16);
    HexDigitValueInverse(msb);
    HexDigitValueInverse(lsb);
  }

  lemma {:induction false} EncodingOfDecodePairs(s: Text)
    requires |s| % 2 == 0 && AllHexDigits(s)
    ensures HexEncoding(DecodePairs(s)) == Uppered(s)
  {
    if s != [] {
      var d := DecodePairs(s);
      assert d[0] == HexFromNibbles(s[0], s[1]) && d[1..] == DecodePairs(s[2..]);
      HexPairOfNibbles(s[0], s[1]);
      EncodingOfDecodePairs(s[2..]);
      UpperedPair(s);
    }
  }

  lemma UpperedPair(s: Text)
    requires |s| >= 2
    ensures Uppered(s) == [ToUpper(s[0]), ToUpper(s[1])] + Uppered(s[2..])
  {
  }

  /** to_hex(from_hex(s)) is s in upper case, for even-length s. */
  lemma ReencodeEven(s: Text)
    requires AllHexDigits(s) && |s| % 2 == 0
    ensures HexEncoding(HexDecoding(s)) == Uppered(s)
  {
    EncodingOfDecodePairs(s);
  }

  lemma CodecExamples()
    ensures HexEncoding([]) == [] && HexDecoding([]) == []
    ensures HexEncoding([0x0F, 0xA0]) == Bytes("0FA0")
    ensures AllHexDigits(Bytes("F")) && HexDecoding(Bytes("F")) == [0x0F]
  {
    LutIsUpperHexDigit(0);
    LutIsUpperHexDigit(15);
    LutIsUpperHexDigit(10);
  }

  // ---------------------------------------------------------------------
  // utohexstr

  /** The hex numeral of v, most significant digit first, without leading zeros. */
  function HexNumeral(v: nat, lowerCase: bool): (s: Text)
    ensures |s| >= 1
  {
    if v < 16 then [HexDigit(v, lowerCase)]
    else HexNumeral(v / 16, lowerCase) + [HexDigit(v % 16, lowerCase)]
  }

  /** Reads a hex text big-endian with hex_digit_value; None if some byte is not a digit. */
  function HexValue(s: Text): Option<nat> {
    if s == [] then Some(0)
    else
      match (HexValue(s[..|s| - 1]), HexDigitValue(s[|s| - 1]))
      case (Some(h), Some(d)) => Some(h * 16 + d)
      case _ => None
  }

  function Pow16(n: nat): (p: nat)
    ensures p >= 1
  {
    if n == 0 then 1 else 16 * Pow16(n - 1)
  }

  /** 16^16 == 2^64: a uint64 has at most sixteen hex digits. */
  lemma Pow16Sixteen()
    ensures Pow16(16) == 0x1_0000_0000_0000_0000
  {
    assert Pow16(2) == 0x100;
    assert Pow16(4) == 0x1_0000;
    assert Pow16(8) == 0x1_0000_0000;
    assert Pow16(12) == 0x1_0000_0000_0000;
  }

  /** utohexstr(0) is "0"; every other value has no leading '0'. */
  lemma {:induction false} HexNumeralNoLeadingZero(v: nat, lowerCase: bool)
    ensures v == 0 <==> HexNumeral(v, lowerCase) == [Zero]
    ensures v != 0 ==> HexNumeral(v, lowerCase)[0] != Zero
  {
    if v >= 16 {
      HexNumeralNoLeadingZero(v / 16, lowerCase);
    }
  }

  /** A value below 16^k has at most k digits; a uint64 at most 16. */
  lemma {:induction false} HexNumeralLength(v: nat, lowerCase: bool, k: nat)
    requires 1 <= k && v < Pow16(k)
    ensures |HexNumeral(v, lowerCase)| <= k
  {
    assert Pow16(1) == 16;
    if v >= 16 {
      HexNumeralLength(v / 16, lowerCase, k - 1);
    }
  }

  /** Reading the numeral back digit by digit gives v. */
  lemma {:induction false} HexNumeralValue(v: nat, lowerCase: bool)
    ensures HexValue(HexNumeral(v, lowerCase)) == Some(v)
  {
    var s := HexNumeral(v, lowerCase);
    if v < 16 {
      HexDigitRoundTrip(v, lowerCase);
      assert s[..|s| - 1] == [];
    } else {
      HexNumeralValue(v / 16, lowerCase);
      HexDigitRoundTrip(v % 16, lowerCase);
      assert s[..|s| - 1] == HexNumeral(v / 16, lowerCase);
    }
  }

  /** Every digit is '0'..'9' or a letter of the requested case. */
  lemma {:induction false} HexNumeralCase(v: nat, lowerCase: bool)
    ensures forall i | 0 <= i < |HexNumeral(v, lowerCase)| ::
      var c := HexNumeral(v, lowerCase)[i];
      IsDigit(c) || (if lowerCase then InRange(c, 'a', 'f') else InRange(c, 'A', 'F'))
  {
    if v >= 16 {
      HexNumeralCase(v / 16, lowerCase);
    }
  }

  /** The digits utohexstr still has to emit while `c` is not yet zero. */
  function Pending(c: nat, lowerCase: bool): Text {
    if c == 0 then [] else HexNumeral(c, lowerCase)
  }

  /** Emitting the low nibble of `c` moves one digit from the pending part to the emitted part. */
  lemma PendingStep(c: nat, lowerCase: bool, emitted: Text)
    requires c != 0
    ensures Pending(c, lowerCase) + emitted
         == Pending(c / 16, lowerCase) + ([HexDigit(c % 16, lowerCase)] + emitted)
  {
    var d := [HexDigit(c % 16, lowerCase)];
    if c < 16 {
      assert c / 16 == 0 && c % 16 == c;
      assert Pending(c, lowerCase) == d;
    } else {
      assert Pending(c, lowerCase) == HexNumeral(c / 16, lowerCase) + d;
    }
    assert (Pending(c / 16, lowerCase) + d) + emitted == Pending(c / 16, lowerCase) + (d + emitted);
  }

  /** Writing `d` just before the filled tail of a buffer prepends it to the tail. */
  lemma PrependInPlace(buf: seq<Byte>, p: nat, d: Byte)
    requires p < |buf|
    ensures buf[p := d][p..] == [d] + buf[p + 1..]
  {
  }

  /**
   * utohexstr: fills a 17-byte buffer from its end, one nibble per step, and
   * returns the filled tail.
   */
  method UToHexStr(value: uint64, lowerCase: bool := false) returns (s: Text)
    ensures s == HexNumeral(value, lowerCase)
    ensures |s| <= 16
  {
    var c: nat := value;
    var buffer := new Byte[17];
    var bufPtr := 17;
    ghost var emitted: Text := [];
    if c == 0 {
      bufPtr := bufPtr - 1;
      buffer[bufPtr] := Zero;
      emitted := [Zero];
    }
    Pow16Sixteen();
    while c != 0
      invariant 1 <= bufPtr <= 17
      invariant c < Pow16(bufPtr - 1)
      invariant buffer[bufPtr..] == emitted
      invariant Pending(c, lowerCase) + emitted == HexNumeral(value, lowerCase)
      decreases c
    {
      var mod := c % 16;
      PendingStep(c, lowerCase, emitted);
      ghost var before := buffer[..];
      bufPtr := bufPtr - 1;
      buffer[bufPtr] := HexDigit(mod, lowerCase);
      assert buffer[..] == before[bufPtr := HexDigit(mod, lowerCase)];
      PrependInPlace(before, bufPtr, HexDigit(mod, lowerCase));
      emitted := [HexDigit(mod, lowerCase)] + emitted;
      c := c / 16;
    }
    s := buffer[bufPtr..];
    HexNumeralLength(value, lowerCase, 16);
  }

  lemma NumeralExamples()
    ensures HexNumeral(0, false) == Bytes("0")
    ensures HexNumeral(255, false) == Bytes("FF")
    ensures HexNumeral(255, true) == Bytes("ff")
  {
  }
}
