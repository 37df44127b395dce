# StringExtras: a verified model

A Dafny model of the pure string and byte utilities in
`devtools/utils/StringExtras.h` (polarphp). There are four parts:

- **Character classification and case mapping**: `is_digit`, `is_alpha`, `is_alnum`, `is_ascii`, `is_print`, `to_lower`, `to_upper`.
- **Single hex digits**: `hexdigit`, `hex_digit_value`, `is_hex_digit`.
- **Hex codecs**: `to_hex`, `hex_from_nibbles`, `from_hex`, `utohexstr`.
- **Small combinators**: `get_ordinal_suffix`, `join` over a range of strings, and `join_items` over a fixed list of arguments.

Modules, one file each:

| file | module | what it holds |
|---|---|---|
| `wrappers.dfy` | `Wrappers` | `Option`, which replaces the `-1U` sentinel of `hex_digit_value` |
| `char_class.dfy` | `CharClass` | bytes, classification, case mapping, single hex digits |
| `hex_codec.dfy` | `HexCodec` | `to_hex`, `from_hex`, `hex_from_nibbles`, `utohexstr` |
| `ordinal.dfy` | `Ordinal` | `get_ordinal_suffix` |
| `joiner.dfy` | `Joiner` | `join`, `join_impl`, `join_items`, `join_items_impl`, `join_items_size` |

Modelling choices:

- **Characters.** A C++ `char` is modelled by its unsigned byte value (`CharClass.Byte`, 0..255). A string or string view is a `seq<Byte>`.
- **Signedness.** Every range test in the source lies within 0..127. So a signed `char` gives the same answers as an unsigned one.
- **The digit sentinel.** `hex_digit_value` returns `None` where the source returns the `-1U` sentinel.
- **Shifts and masks.** `c >> 4` is `c / 16` and `c & 15` is `c % 16`. In `hex_from_nibbles`, `(u1 << 4) | u2` is `u1 * 16 + u2`, because `u2 < 16` and the two nibbles do not overlap.
- **Loops become methods.** The functions that loop in the source are methods here, each proved equal to a specification function:
  - `to_hex`, `from_hex` and `utohexstr`;
  - `is_ascii` on a string view;
  - the two `join_impl` variants, the corrected pre-size loop (see Findings) and `join_items_impl`.
- **Buffers.** `utohexstr` fills a 17-byte `array` from its end, like the source.
- **In-out strings.** `join_items_impl` appends to a `std::string&`. The model passes that string in and returns the extended string.
- **Iterator category.** `join` dispatches on the iterator category. That choice is the `multiPass` flag of `Joiner.Join`.
- **Where the source does not compile.** Four places name an identifier that is not declared. Each is modelled with its evident meaning:
  - `x` for `c` in `to_lower` (line 123), giving the symmetric test `'A' <= c <= 'Z'`;
  - `Buffer` for `buffer` in `utohexstr` (line 150);
  - `Hex` for `hex` in `from_hex` (line 195), so the decoded byte is pushed;
  - `Len` for `len` in the multi-pass `join_impl` (line 283).
- **Bad hex digits.** `from_hex` and `hex_from_nibbles` assert that every digit is a hex digit. That assert is their `requires` (`AllHexDigits`). The model has no error result for bad digits, because the code treats a bad digit as a caller error.

## Model

| member | source | states |
|---|---|---|
| `CharClass.IsDigit` | devtools/utils/StringExtras.h:69-72 | `is_digit(c)` iff `'0' <= c <= '9'` |
| `CharClass.IsHexDigit` | devtools/utils/StringExtras.h:75-78 | `is_hex_digit(c)` iff `hex_digit_value(c)` is not the sentinel |
| `CharClass.IsAlpha` | devtools/utils/StringExtras.h:81-84 | `is_alpha(c)` iff `c` is in `'a'..'z'` or in `'A'..'Z'` |
| `CharClass.IsAlnum` | devtools/utils/StringExtras.h:88-91 | `is_alnum(c)` iff `is_alpha(c)` or `is_digit(c)` |
| `CharClass.IsAscii` | devtools/utils/StringExtras.h:94-97 | `is_ascii(c)` iff the byte value of `c` is at most 127 |
| `CharClass.IsPrint` | devtools/utils/StringExtras.h:114-118 | `is_print(c)` iff `0x20 <= c <= 0x7E` on the byte value |
| `CharClass.IsAsciiText` | devtools/utils/StringExtras.h:99-108 | `is_ascii(str)` holds iff every byte of `str` is at most 127 |
| `CharClass.ClassInclusions` | devtools/utils/StringExtras.h:68-118 | `is_alnum` is `is_alpha` or `is_digit`; alphanumerics are printable; printable bytes are ASCII and are exactly the ASCII bytes from ' ' up to but excluding 0x7F; no byte is both a letter and a digit |
| `CharClass.ToLower` | devtools/utils/StringExtras.h:120-127 | `to_lower` changes a byte iff it is 'A'..'Z', maps it to the same letter in 'a'..'z', never returns an upper-case letter, and keeps letters letters |
| `CharClass.ToUpper` | devtools/utils/StringExtras.h:129-136 | `to_upper` changes a byte iff it is 'a'..'z', maps it to the same letter in 'A'..'Z', never returns a lower-case letter, and keeps letters letters |
| `CharClass.CaseMappingsInverse` | devtools/utils/StringExtras.h:120-136 | the two mappings undo each other on letters, are idempotent, and each absorbs the other |
| `CharClass.HexDigit` | devtools/utils/StringExtras.h:30-36 | `hexdigit(v)` is '0'..'9' (digit `v`) for `v < 10`, and 'a'..'f' or 'A'..'F' by the case flag (upper case by default) for `10 <= v < 16` |
| `CharClass.HexDigitValue` | devtools/utils/StringExtras.h:56-66 | a value, when there is one, is below 16 |
| `CharClass.HexDigitValueDomain` | devtools/utils/StringExtras.h:56-78 | `is_hex_digit(c)` (no sentinel) holds exactly for 0-9, a-f, A-F; the values below 10 are exactly the decimal digits |
| `CharClass.HexDigitRoundTrip` | devtools/utils/StringExtras.h:30-66 | `hex_digit_value(hexdigit(v, lower)) == v` for every `v < 16` and both cases |
| `CharClass.HexDigitValueInverse` | devtools/utils/StringExtras.h:30-66 | a hex digit is `hexdigit` of its own value in its own case; rendered upper-case it is `to_upper(c)`, lower-case `to_lower(c)` |
| `CharClass.HexDigitValueCaseInsensitive` | devtools/utils/StringExtras.h:56-78 | `hex_digit_value` gives the same answer after `to_lower` or `to_upper`; `is_hex_digit(c)` iff `c` is a decimal digit or `to_lower(c)` is in 'a'..'f' |
| `CharClass.HexDigitClasses` | devtools/utils/StringExtras.h:68-91 | every decimal digit is a hex digit and every hex digit is alphanumeric |
| `HexCodec.LutIsUpperHexDigit` | devtools/utils/StringExtras.h:157 | entry `k` of the `to_hex` table is `hexdigit(k)` in upper case |
| `HexCodec.HexEncodingAt` | devtools/utils/StringExtras.h:153-168 | positions `2i` and `2i+1` of `to_hex(b)` are the upper-case digits of `b[i] >> 4` and `b[i] & 15` (its length is `2*|b|` by the ensures of `HexEncoding`) |
| `HexCodec.ToHex` | devtools/utils/StringExtras.h:153-168 | the loop builds exactly the pair-per-byte encoding, high nibble first |
| `HexCodec.HexFromNibbles` | devtools/utils/StringExtras.h:170-177 | for two hex digits, the high nibble of the byte is the first digit's value and the low nibble the second's |
| `HexCodec.AppendPairs` | devtools/utils/StringExtras.h:193-197 | the pair loop of `from_hex` appends one decoded byte per pair, in order |
| `HexCodec.FromHex` | devtools/utils/StringExtras.h:179-199 | `from_hex` returns the odd leading digit decoded alone, then one byte per pair |
| `HexCodec.HexDecodingLength` | devtools/utils/StringExtras.h:179-199 | `from_hex(s)` has `(|s|+1)/2` bytes |
| `HexCodec.HexDecodingOddPadding` | devtools/utils/StringExtras.h:188-191 | odd-length input decodes exactly as with a '0' prepended; the first byte is the value of the first digit |
| `HexCodec.HexRoundTrip` | devtools/utils/StringExtras.h:153-199 | `to_hex(b)` consists of hex digits and `from_hex(to_hex(b)) == b` for every byte sequence |
| `HexCodec.HexDecodingCaseInsensitive` | devtools/utils/StringExtras.h:170-199 | `from_hex` of the lower-cased text and of the upper-cased text both equal `from_hex` of the text |
| `HexCodec.ReencodeEven` | devtools/utils/StringExtras.h:153-199 | for even-length hex text `s`, `to_hex(from_hex(s))` is `s` in upper case |
| `HexCodec.CodecExamples` | devtools/utils/StringExtras.h:153-199 | `to_hex("") == ""`, `from_hex("") == ""`, `to_hex([0x0F, 0xA0]) == "0FA0"`, `from_hex("F") == [0x0F]` |
| `HexCodec.HexNumeralNoLeadingZero` | devtools/utils/StringExtras.h:138-151 | the numeral is "0" exactly for zero; any other value has no leading '0' |
| `HexCodec.HexNumeralLength` | devtools/utils/StringExtras.h:138-151 | a value below 16^k has at most k digits |
| `HexCodec.HexNumeralValue` | devtools/utils/StringExtras.h:138-151 | reading the numeral big-endian with `hex_digit_value` gives back the value |
| `HexCodec.HexNumeralCase` | devtools/utils/StringExtras.h:138-151 | every digit is '0'..'9' or a letter of the requested case |
| `HexCodec.UToHexStr` | devtools/utils/StringExtras.h:138-151 | the buffer loop produces the numeral of the value (upper-case digits by default), at most 16 digits |
| `HexCodec.NumeralExamples` | devtools/utils/StringExtras.h:138-151 | `utohexstr(0) == "0"`, `utohexstr(255) == "FF"`, `utohexstr(255, true) == "ff"` |
| `Ordinal.OrdinalSuffix` | devtools/utils/StringExtras.h:221-239 | the suffix is one of st/nd/rd/th; it is "th" when the tens digit is 1; otherwise "st", "nd", "rd" for a last digit of 1, 2, 3 and "th" for any other |
| `Ordinal.OrdinalSuffixExamples` | devtools/utils/StringExtras.h:221-239 | the suffixes of 1, 2, 3, 4, 11, 12, 13, 21, 101 and 111 |
| `Joiner.JoinedLength` | devtools/utils/StringExtras.h:254-290 | joining nothing gives "", one element gives itself, `n` elements give their total length plus `(n-1)` separator lengths |
| `Joiner.JoinedConcat` | devtools/utils/StringExtras.h:254-268 | joining two non-empty runs is joining each and putting one separator between them |
| `Joiner.JoinSinglePass` | devtools/utils/StringExtras.h:254-268 | the single-pass `join_impl` gives the elements in order, separated |
| `Joiner.PresizeLength` | devtools/utils/StringExtras.h:279-282 | the pre-size loop, reading each element, yields exactly the joined length |
| `Joiner.PresizeLengthAsWritten` | devtools/utils/StringExtras.h:279-282 | the pre-size loop as written: the separators' length plus the first element's size once per element |
| `Joiner.PresizeLengthAsWrittenDiffers` | devtools/utils/StringExtras.h:279-282 | as written (reading the first element each time), the size equals the joined length iff the first element's length times the count equals the total length; `["a","bb"]` with "," gives 3 instead of 4 |
| `Joiner.JoinPresized` | devtools/utils/StringExtras.h:270-290 | the multi-pass `join_impl` gives the same string as the single-pass one |
| `Joiner.Join` | devtools/utils/StringExtras.h:346-361 | `join` gives the elements in order, separated, whichever iterator category |
| `Joiner.JoinOneItemSize` | devtools/utils/StringExtras.h:311-325 | the size of an item is the length of what appending it adds (1 for a character) |
| `Joiner.JoinItemsSize` | devtools/utils/StringExtras.h:327-342 | the sum of the item sizes is the total length of the items' texts |
| `Joiner.JoinItemsImpl` | devtools/utils/StringExtras.h:292-309 | appends the items in order with the separator between them to the caller's string |
| `Joiner.JoinItems` | devtools/utils/StringExtras.h:363-379 | `join_items` is `join` over the items' texts; the size it reserves, less one, is the exact length |
| `Joiner.JoinExamples` | devtools/utils/StringExtras.h:346-379 | `join(["a","b","c"], "-") == "a-b-c"`, `join([], "-") == ""`, `join(["x"], "-") == "x"`, `join_items(",", "a", "bb", 'c') == "a,bb,c"` |

## Left out

- `get_token`, `split_string` and `str_in_str_no_case` are declared without bodies in this header. Their definitions are not part of this model.
- `print_escaped_string`, `print_html_escaped` and `print_lower_case` write to a `std::ostream` and are only declared here.
- `to_stringview_array` walks a null-terminated array of C-string pointers. That pointer walk has no counterpart over sequences. `to_stringview(bool)` returns one of two constants.
- `join_one_item_size(const char*)` is not modelled. A non-null C string behaves as a `TextItem`. For a null pointer the size is 0, but appending it is undefined in C++.
- `reserve` calls are not modelled: they set capacity only. The sizes they are passed are modelled. In `join_items` that is the second ensures of `JoinItems`. In the multi-pass `join_impl` the source passes `PresizeLengthAsWritten`, which can fall short of the joined length (see Findings). `JoinPresized` computes the corrected `PresizeLength` instead; the content is the same either way.
- `size_t` and `unsigned` overflow of the length computations in `join_impl` and `join_items` is not modelled. The lengths are unbounded naturals.
- `HexDigit`: a value of 16 or more is truncated to a byte (`% 0x100`). The model assumes the usual modular `char` conversion, which C++ before C++20 left to the implementation.
- `POLAR_UNLIKELY` is a branch-prediction hint and has no effect on results.

## Findings

| source | as written | input that shows it | evidently intended | confidence | as-written member | corrected member |
|---|---|---|---|---|---|---|
| devtools/utils/StringExtras.h:281 | the pre-size loop adds `(*begin).size()`, the first element's size, once per element | `join({"a", "bb"}, ",")` reserves 3 bytes for a 4-byte result | add `(*iter).size()`, so the reserved size is the joined length | high; not executed; it affects only the capacity requested, not the result | `Joiner.PresizeLengthAsWritten` (discrepancy proved by `Joiner.PresizeLengthAsWrittenDiffers`) | `Joiner.PresizeLength` |
