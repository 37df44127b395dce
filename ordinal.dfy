/** get_ordinal_suffix of devtools/utils/StringExtras.h: the English suffix of an ordinal. */
module Ordinal {
  import opened CharClass

  // The four suffixes, as the byte strings the source returns
  const St: Text := Bytes("st")
  const Nd: Text := Bytes("nd")
  const Rd: Text := Bytes("rd")
  const Th: Text := Bytes("th")

  /**
   * "th" for 11, 12 and 13 modulo 100; otherwise "st", "nd", "rd" for a last
   * digit of 1, 2, 3 and "th" for every other last digit.
   */
  function OrdinalSuffix(value: uint32): (s: Text)
    ensures s in {St, Nd, Rd, Th}
    ensures s == if (value / 10) % 10 == 1 then Th
                 else if value % 10 == 1 then St
                 else if value % 10 == 2 then Nd
                 else if value % 10 == 3 then Rd
                 else Th
  {
    match value % 100
    case 11 | 12 | 13 => Th
    case _ =>
      match value % 10
      case 1 => St
      case 2 => Nd
      case 3 => Rd
      case _ => Th
  }

  lemma OrdinalSuffixExamples()
    ensures OrdinalSuffix(1) == St && OrdinalSuffix(2) == Nd && OrdinalSuffix(3) == Rd
    ensures OrdinalSuffix(4) == Th && OrdinalSuffix(11) == Th && OrdinalSuffix(12) == Th
    ensures OrdinalSuffix(13) == Th && OrdinalSuffix(21) == St && OrdinalSuffix(101) == St
    ensures OrdinalSuffix(111) == Th
    ensures Th == [0x74, 0x68]
  {
  }
}
