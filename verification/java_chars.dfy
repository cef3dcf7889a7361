/** The `java.lang.Character` classification the plugins consult. The Unicode
    tables behind it are not modelled: each operation takes a `CharTable`,
    and `Ascii` is one that agrees with Java on the ASCII range. */
module JavaChars {
  import opened JStrings

  /** `Character.isUpperCase`, `Character.toUpperCase`,
      `Character.isJavaIdentifierStart` and `Character.isJavaIdentifierPart`
      on single code units. */
  datatype CharTable = CharTable(
    isUpperCase: Unit -> bool,
    toUpperCase: Unit -> Unit,
    isIdentifierStart: Unit -> bool,
    isIdentifierPart: Unit -> bool)

  const UNDERSCORE: Unit := 0x5F
  const DOLLAR: Unit := 0x24

  predicate AsciiUpper(c: Unit) { 0x41 <= c <= 0x5A }
  predicate AsciiLower(c: Unit) { 0x61 <= c <= 0x7A }
  predicate AsciiDigit(c: Unit) { 0x30 <= c <= 0x39 }

  /** Java's identifier-ignorable controls below 0x80. */
  predicate AsciiIgnorable(c: Unit) { 0 <= c <= 8 || 0x0E <= c <= 0x1B || c == 0x7F }

  function AsciiToUpper(c: Unit): Unit
  {
    if AsciiLower(c) then c - 0x20 else c
  }

  predicate AsciiIdentifierStart(c: Unit)
  {
    AsciiUpper(c) || AsciiLower(c) || c == DOLLAR || c == UNDERSCORE
  }

  predicate AsciiIdentifierPart(c: Unit)
  {
    AsciiIdentifierStart(c) || AsciiDigit(c) || AsciiIgnorable(c)
  }

  /** Java's answers for code units below 0x80; every unit above is treated
      as neither upper case, nor part of an identifier, and upper-cases to
      itself. */
  const Ascii: CharTable := CharTable(AsciiUpper, AsciiToUpper, AsciiIdentifierStart, AsciiIdentifierPart)
}
