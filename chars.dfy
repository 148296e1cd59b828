/**
 * Character classification as the .NET runtime defines it (Char.GetUnicodeCategory and the
 * Char.Is* predicates). The Unicode character database is an oracle supplied by the caller;
 * its ASCII range is spelled out, and an oracle that agrees with it there conforms.
 */
module Chars {

  /** System.Globalization.UnicodeCategory, an enumeration numbered as in .NET. */
  newtype UnicodeCategory = k: int | 0 <= k < 30

  const UppercaseLetter: UnicodeCategory := 0
  const LowercaseLetter: UnicodeCategory := 1
  const TitlecaseLetter: UnicodeCategory := 2
  const ModifierLetter: UnicodeCategory := 3
  const OtherLetter: UnicodeCategory := 4
  const NonSpacingMark: UnicodeCategory := 5
  const SpacingCombiningMark: UnicodeCategory := 6
  const EnclosingMark: UnicodeCategory := 7
  const DecimalDigitNumber: UnicodeCategory := 8
  const LetterNumber: UnicodeCategory := 9
  const OtherNumber: UnicodeCategory := 10
  const SpaceSeparator: UnicodeCategory := 11
  const LineSeparator: UnicodeCategory := 12
  const ParagraphSeparator: UnicodeCategory := 13
  const Control: UnicodeCategory := 14
  const Format: UnicodeCategory := 15
  const Surrogate: UnicodeCategory := 16
  const PrivateUse: UnicodeCategory := 17
  const ConnectorPunctuation: UnicodeCategory := 18
  const DashPunctuation: UnicodeCategory := 19
  const OpenPunctuation: UnicodeCategory := 20
  const ClosePunctuation: UnicodeCategory := 21
  const InitialQuotePunctuation: UnicodeCategory := 22
  const FinalQuotePunctuation: UnicodeCategory := 23
  const OtherPunctuation: UnicodeCategory := 24
  const MathSymbol: UnicodeCategory := 25
  const CurrencySymbol: UnicodeCategory := 26
  const ModifierSymbol: UnicodeCategory := 27
  const OtherSymbol: UnicodeCategory := 28
  const OtherNotAssigned: UnicodeCategory := 29

  /** The category of every character, as the runtime's tables give it. */
  datatype CharOracle = CharOracle(category: char -> UnicodeCategory)

  function AsciiCategory(c: char): UnicodeCategory
    requires c < 128 as char
  {
    if c < ' ' || c == 127 as char then Control
    else if c == ' ' then SpaceSeparator
    else if '0' <= c <= '9' then DecimalDigitNumber
    else if 'A' <= c <= 'Z' then UppercaseLetter
    else if 'a' <= c <= 'z' then LowercaseLetter
    else if c == '(' || c == '[' || c == '{' then OpenPunctuation
    else if c == ')' || c == ']' || c == '}' then ClosePunctuation
    else if c == '+' || c == '<' || c == '=' || c == '>' || c == '|' || c == '~' then MathSymbol
    else if c == '$' then CurrencySymbol
    else if c == '^' || c == '`' then ModifierSymbol
    else if c == '-' then DashPunctuation
    else if c == '_' then ConnectorPunctuation
    else OtherPunctuation
  }

  /** Char.GetUnicodeCategory. */
  function Category(o: CharOracle, c: char): UnicodeCategory
  {
    o.category(c)
  }

  /** The oracle gives the ASCII characters their .NET categories. */
  predicate Conforms(o: CharOracle)
  {
    forall c: char :: c < 128 as char ==> o.category(c) == AsciiCategory(c)
  }

  /** The ASCII table alone, with every other character unassigned. */
  function AsciiOnly(): (o: CharOracle)
    ensures Conforms(o)
    ensures forall c: char :: c >= 128 as char ==> o.category(c) == OtherNotAssigned
  {
    CharOracle(c => if c < 128 as char then AsciiCategory(c) else OtherNotAssigned)
  }

  predicate IsLetterCategory(k: UnicodeCategory)
  {
    k == UppercaseLetter || k == LowercaseLetter || k == TitlecaseLetter || k == ModifierLetter || k == OtherLetter
  }

  predicate IsSeparatorCategory(k: UnicodeCategory)
  {
    k == SpaceSeparator || k == LineSeparator || k == ParagraphSeparator
  }

  predicate IsPunctuationCategory(k: UnicodeCategory)
  {
    k == ConnectorPunctuation || k == DashPunctuation || k == OpenPunctuation || k == ClosePunctuation
    || k == InitialQuotePunctuation || k == FinalQuotePunctuation || k == OtherPunctuation
  }

  predicate IsSymbolCategory(k: UnicodeCategory)
  {
    k == MathSymbol || k == CurrencySymbol || k == ModifierSymbol || k == OtherSymbol
  }

  predicate IsLetter(o: CharOracle, c: char) { IsLetterCategory(Category(o, c)) }
  predicate IsSeparator(o: CharOracle, c: char) { IsSeparatorCategory(Category(o, c)) }
  predicate IsPunctuation(o: CharOracle, c: char) { IsPunctuationCategory(Category(o, c)) }
  predicate IsSymbol(o: CharOracle, c: char) { IsSymbolCategory(Category(o, c)) }
  predicate IsControl(o: CharOracle, c: char) { Category(o, c) == Control }

  /** Char.IsWhiteSpace: the separators, U+0009 to U+000D and U+0085. */
  predicate IsWhiteSpace(o: CharOracle, c: char)
  {
    ('\t' <= c <= '\r') || c == 133 as char || IsSeparator(o, c)
  }
}
