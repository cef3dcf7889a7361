/** A reader for the files `PropertiesWriter` produces, following the
    line and escape rules of `java.util.Properties.load`: the partner the
    writer's round trip is stated against. The input bytes are read as
    ISO-8859-1, so each byte is the code unit of the same value. */
module PropertiesReader {
  import opened Wrappers
  import opened JStrings
  import opened Collections
  import opened PropertiesWriter

  /** White space between key and value, and at the start of a line. */
  predicate IsWhite(c: Unit)
  {
    c == SPACE || c == TAB || c == FF
  }

  /** The line with its leading white space skipped. */
  function SkipWhite(s: JString): (r: JString)
    ensures |r| <= |s|
    ensures r != [] ==> !IsWhite(r[0])
    decreases |s|
  {
    if s != [] && IsWhite(s[0]) then SkipWhite(s[1..]) else s
  }

  /** The natural lines of a text: `\n`, `\r` and `\r\n` all end a line (the
      last of these leaves an empty line, which the reader skips). */
  function NaturalLines(text: JString): seq<JString>
  {
    Fields(LF, Replace(text, CR, LF))
  }

  /** Where the key of a line ends: scanning from `i` with `escaped` telling
      whether an odd run of backslashes precedes `i`, the first unescaped
      `=`, `:` or white space ends the key. Returns the key length, the
      position after the terminator, and whether the terminator was `=`/`:`. */
  function KeyEnd(line: JString, i: nat, escaped: bool): (r: (nat, nat, bool))
    requires i <= |line|
    ensures i <= r.0 <= r.1 <= |line|
    decreases |line| - i
  {
    if i == |line| then (i, i, false)
    else
      var c := line[i];
      if (c == EQUALS || c == COLON) && !escaped then (i, i + 1, true)
      else if IsWhite(c) && !escaped then (i, i + 1, false)
      else KeyEnd(line, i + 1, if c == BACKSLASH then !escaped else false)
  }

  /** Where the value starts: white space is skipped, and so is one `=` or
      `:` when the key was ended by white space. */
  function ValueStart(line: JString, i: nat, hasSeparator: bool): (r: nat)
    requires i <= |line|
    ensures i <= r <= |line|
    decreases |line| - i
  {
    if i == |line| then i
    else
      var c := line[i];
      if IsWhite(c) then ValueStart(line, i + 1, hasSeparator)
      else if !hasSeparator && (c == EQUALS || c == COLON) then ValueStart(line, i + 1, true)
      else i
  }

  predicate IsHexDigit(c: Unit)
  {
    0x30 <= c <= 0x39 || 0x41 <= c <= 0x46 || 0x61 <= c <= 0x66
  }

  function HexValue(c: Unit): (r: nat)
    requires IsHexDigit(c)
    ensures r < 16
  {
    if c <= 0x39 then c - 0x30 else if c <= 0x46 then c - 0x41 + 10 else c - 0x61 + 10
  }

  /** The unit a `\x` escape other than `\u` stands for. */
  function Unescaped(x: Unit): Unit
  {
    if x == LETTER_T then TAB
    else if x == LETTER_R then CR
    else if x == LETTER_N then LF
    else if x == LETTER_F then FF
    else x
  }

  /** `loadConvert`: undoes the escapes. A malformed `\uxxxx` makes the load
      fail; a backslash ending the line is dropped. */
  function Unescape(s: JString): Option<JString>
    decreases |s|
  {
    if s == [] then Some([])
    else if s[0] != BACKSLASH then
      var rest :- Unescape(s[1..]);
      Some([s[0]] + rest)
    else if |s| == 1 then Some([])
    else if s[1] != LETTER_U then
      var rest :- Unescape(s[2..]);
      Some([Unescaped(s[1])] + rest)
    else if |s| < 6 || !(IsHexDigit(s[2]) && IsHexDigit(s[3]) && IsHexDigit(s[4]) && IsHexDigit(s[5])) then None
    else
      var rest :- Unescape(s[6..]);
      var v := ((HexValue(s[2]) * 16 + HexValue(s[3])) * 16 + HexValue(s[4])) * 16 + HexValue(s[5]);
      Some([v] + rest)
  }

  /** One natural line read into the table: blank lines and comments leave
      it unchanged, anything else is parsed as a key and a value. */
  function LoadLine(line: JString, acc: Props): Option<Props>
  {
    var t := SkipWhite(line);
    if t == [] || t[0] == HASH || t[0] == BANG then Some(acc)
    else
      var (keyLen, afterKey, hasSeparator) := KeyEnd(t, 0, false);
      var start := ValueStart(t, afterKey, hasSeparator);
      var key :- Unescape(t[..keyLen]);
      var value :- Unescape(t[start..]);
      Some(acc[key := value])
  }

  function LoadLines(lines: seq<JString>, acc: Props): Option<Props>
    decreases |lines|
  {
    if lines == [] then Some(acc)
    else
      var next :- LoadLine(lines[0], acc);
      LoadLines(lines[1..], next)
  }

  /** `Properties.load` on the bytes of a file. */
  function Load(bytes: seq<Byte>): Option<Props>
  {
    LoadLines(NaturalLines(bytes), map[])
  }
}
