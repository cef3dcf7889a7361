/** The properties-file writer of `Utils`: `convert`, `appendEscaped`,
    `appendEscapedHex`, `savePropertiesFile` and `printLines`. The file it
    writes has no date comment, its entries in ascending key order, and
    every line ended by exactly one `\n`. */
module PropertiesWriter {
  import opened Wrappers
  import opened JStrings
  import opened Collections

  /** A `java.util.Properties` holding only string values. */
  type Props = map<JString, JString>

  const TAB: Unit := 0x09
  const FF: Unit := 0x0C
  const BANG: Unit := 0x21
  const HASH: Unit := 0x23
  const EQUALS: Unit := 0x3D
  const QUESTION: Unit := 0x3F
  const LETTER_F: Unit := 0x66
  const LETTER_N: Unit := 0x6E
  const LETTER_R: Unit := 0x72
  const LETTER_T: Unit := 0x74
  const LETTER_U: Unit := 0x75

  /** The units `convert` may emit: printable ASCII. */
  predicate Printable(c: Unit)
  {
    0x20 <= c <= 0x7E
  }

  /** `HEX[n]`: an upper-case hexadecimal digit. */
  function HexDigit(n: int): (r: Unit)
    requires 0 <= n < 16
    ensures Printable(r) && r != BACKSLASH
    ensures (0x30 <= r <= 0x39 && r - 0x30 == n) || (0x41 <= r <= 0x46 && r - 0x41 + 10 == n)
  {
    if n < 10 then 0x30 + n else 0x41 + (n - 10)
  }

  /** `appendEscapedHex`: `\u` and the nibbles at shifts 12, 8, 4 and 0. */
  function HexEscape(c: Unit): JString
  {
    [BACKSLASH, LETTER_U,
     HexDigit(c / 0x1000 % 16), HexDigit(c / 0x100 % 16), HexDigit(c / 0x10 % 16), HexDigit(c % 16)]
  }

  /** The escape `convert` writes for one unit. */
  function EscapeUnit(c: Unit, escapeSpace: bool): (r: JString)
    ensures 1 <= |r| <= 6
  {
    if 61 < c < 127 then
      if c == BACKSLASH then [BACKSLASH, BACKSLASH] else [c]
    else if c == SPACE then
      if escapeSpace then [BACKSLASH, SPACE] else [SPACE]
    else if c == LF then [BACKSLASH, LETTER_N]
    else if c == CR then [BACKSLASH, LETTER_R]
    else if c == TAB then [BACKSLASH, LETTER_T]
    else if c == FF then [BACKSLASH, LETTER_F]
    else if c == HASH || c == EQUALS || c == BANG || c == COLON then [BACKSLASH, c]
    else if c < 0x20 || c > 0x7E then HexEscape(c)
    else [c]
  }

  /** `convert(keyVal, escapeSpace)`: every unit escaped in turn. Whatever the
      input, the output is printable ASCII. */
  function Convert(s: JString, escapeSpace: bool): (r: JString)
    ensures |s| <= |r| <= 6 * |s|
    decreases |s|
  {
    if s == [] then []
    else EscapeUnit(s[0], escapeSpace) + Convert(s[1..], escapeSpace)
  }

  predicate AllPrintable(s: JString)
  {
    forall i :: 0 <= i < |s| ==> Printable(s[i])
  }

  lemma AllPrintableAppend(a: JString, b: JString)
    requires AllPrintable(a) && AllPrintable(b)
    ensures AllPrintable(a + b)
  {
    forall i | 0 <= i < |a + b|
      ensures Printable((a + b)[i])
    {
      if i >= |a| {
        assert (a + b)[i] == b[i - |a|];
      }
    }
  }

  /** Every escape is printable ASCII. */
  lemma EscapeUnitPrintable(c: Unit, escapeSpace: bool)
    ensures AllPrintable(EscapeUnit(c, escapeSpace))
  {
  }

  /** Whatever the input, `convert` writes printable ASCII only. */
  lemma {:induction false} ConvertPrintable(s: JString, escapeSpace: bool)
    ensures AllPrintable(Convert(s, escapeSpace))
    decreases |s|
  {
    if s != [] {
      EscapeUnitPrintable(s[0], escapeSpace);
      ConvertPrintable(s[1..], escapeSpace);
      AllPrintableAppend(EscapeUnit(s[0], escapeSpace), Convert(s[1..], escapeSpace));
    }
  }

  /** `convert` on a concatenation. */
  lemma {:induction false} ConvertAppend(a: JString, b: JString, escapeSpace: bool)
    ensures Convert(a + b, escapeSpace) == Convert(a, escapeSpace) + Convert(b, escapeSpace)
    decreases |a|
  {
    if a != [] {
      assert (a + b)[1..] == a[1..] + b;
      ConvertAppend(a[1..], b, escapeSpace);
    } else {
      assert a + b == b;
    }
  }

  /** The line written for one entry: the key with spaces escaped, `=`,
      then the value with spaces left alone. */
  function EntryLine(key: JString, value: JString): JString
  {
    Convert(key, true) + [EQUALS] + Convert(value, false)
  }

  /** The line opened by the optional comment. */
  function CommentLine(comment: JString): JString
  {
    [HASH, SPACE] + comment
  }

  /** The optional comment line. */
  function Header(comment: Option<JString>): (r: seq<JString>)
    ensures |r| == (if comment.Some? then 1 else 0)
  {
    if comment.Some? then [CommentLine(comment.value)] else []
  }

  /** The entry lines for the keys `ks`, in that order. */
  function EntryLines(props: Props, ks: seq<JString>): (r: seq<JString>)
    requires forall i :: 0 <= i < |ks| ==> ks[i] in props
    ensures |r| == |ks|
  {
    seq(|ks|, i requires 0 <= i < |ks| => EntryLine(ks[i], props[ks[i]]))
  }

  /** The lines `savePropertiesFile` prints: the optional comment line, then
      one entry line per key in ascending key order. */
  function PropertyLines(props: Props, comment: Option<JString>): (r: seq<JString>)
    ensures |r| == |Header(comment)| + |props|
  {
    Header(comment) + EntryLines(props, SortedKeys(props.Keys))
  }

  /** Line `off + i` of the file is the entry line of the `i`-th smallest
      key, after the comment line when there is one. */
  lemma PropertyLinesAt(props: Props, comment: Option<JString>, i: nat)
    requires i < |props|
    ensures var keys := SortedKeys(props.Keys);
      var off := if comment.Some? then 1 else 0;
      keys[i] in props && PropertyLines(props, comment)[off + i] == EntryLine(keys[i], props[keys[i]])
  {
    var keys := SortedKeys(props.Keys);
    var r := PropertyLines(props, comment);
    var es := EntryLines(props, keys);
    assert r == Header(comment) + es;
    assert r[|Header(comment)| + i] == es[i];
  }

  /** The comment, when given, is the first line. */
  lemma PropertyLinesComment(props: Props, comment: Option<JString>)
    requires comment.Some?
    ensures PropertyLines(props, comment)[0] == CommentLine(comment.value)
  {
  }

  /** A converted key or value never opens with `#` or `!`, and a converted
      key never opens with white space. */
  lemma ConvertFirstUnit(s: JString, escapeSpace: bool)
    requires s != []
    ensures var r := Convert(s, escapeSpace);
      r[0] != HASH && r[0] != BANG && r[0] != TAB && r[0] != FF && (escapeSpace ==> r[0] != SPACE)
  {
  }

  /** Only the comment line is a comment: the file carries no date line. */
  lemma OnlyCommentLineIsComment(props: Props, comment: Option<JString>, i: nat)
    requires var off := if comment.Some? then 1 else 0; off <= i < off + |props|
    ensures var line := PropertyLines(props, comment)[i];
      line != [] && line[0] != HASH && line[0] != BANG
  {
    var keys := SortedKeys(props.Keys);
    var off := if comment.Some? then 1 else 0;
    PropertyLinesAt(props, comment, i - off);
    var k := keys[i - off];
    if k != [] {
      ConvertFirstUnit(k, true);
    }
  }

  predicate IsHighSurrogate(c: Unit) { 0xD800 <= c <= 0xDBFF }
  predicate IsLowSurrogate(c: Unit) { 0xDC00 <= c <= 0xDFFF }

  /** `String.getBytes(ISO_8859_1)`: units up to 0xFF as themselves, anything
      else as `?`, where a surrogate pair counts as one character. */
  function Latin1Encode(s: JString): (r: seq<Byte>)
    ensures |r| <= |s|
    decreases |s|
  {
    if s == [] then []
    else
      var n := if IsHighSurrogate(s[0]) && |s| > 1 && IsLowSurrogate(s[1]) then 2 else 1;
      var b: Byte := if s[0] <= 0xFF then s[0] else QUESTION;
      [b] + Latin1Encode(s[n..])
  }

  /** Encoding adds no byte of its own except `?`. */
  lemma {:induction false} Latin1EncodeFrom(s: JString)
    ensures var r := Latin1Encode(s); forall i :: 0 <= i < |r| ==> r[i] == QUESTION || r[i] in s
    decreases |s|
  {
    if s != [] {
      var n := if IsHighSurrogate(s[0]) && |s| > 1 && IsLowSurrogate(s[1]) then 2 else 1;
      Latin1EncodeFrom(s[n..]);
      var r := Latin1Encode(s);
      var rest := Latin1Encode(s[n..]);
      forall i | 0 <= i < |r|
        ensures r[i] == QUESTION || r[i] in s
      {
        if i > 0 {
          assert r[i] == rest[i - 1];
          assert rest[i - 1] == QUESTION || rest[i - 1] in s[n..];
          assert forall x :: x in s[n..] ==> x in s;
        }
      }
    }
  }

  /** A string of Latin-1 units encodes to itself. */
  lemma {:induction false} Latin1EncodeIdentity(s: JString)
    requires forall i :: 0 <= i < |s| ==> s[i] <= 0xFF
    ensures Latin1Encode(s) == s
    decreases |s|
  {
    if s != [] {
      Latin1EncodeIdentity(s[1..]);
    }
  }

  /** A non-Latin-1 unit turns into `?`, and a surrogate pair into one `?`. */
  lemma Latin1EncodeExamples()
    ensures Latin1Encode([0x41, 0x20AC]) == [0x41, QUESTION]
    ensures Latin1Encode([0xD83D, 0xDE00]) == [QUESTION]
  {
    assert [0x41, 0x20AC][1..] == [0x20AC];
    assert [0xD83D, 0xDE00][2..] == [];
  }

  /** The bytes `printLines` writes: each line encoded, then one `\n`. */
  function Printed(lines: seq<JString>, encode: JString -> seq<Byte>): seq<Byte>
  {
    if lines == [] then []
    else Printed(lines[..|lines| - 1], encode) + encode(lines[|lines| - 1]) + [LF]
  }

  /** `printLines`: writes the lines one at a time and returns their count. */
  method PrintLines(lines: seq<JString>, encode: JString -> seq<Byte>) returns (out: seq<Byte>, count: nat)
    ensures out == Printed(lines, encode)
    ensures count == |lines|
  {
    out := [];
    count := 0;
    while count < |lines|
      invariant count <= |lines|
      invariant out == Printed(lines[..count], encode)
    {
      var bytes := encode(lines[count]);
      assert lines[..count + 1][..count] == lines[..count];
      out := out + bytes;
      out := out + [LF];
      count := count + 1;
    }
    assert lines[..count] == lines;
  }

  /** Each line encoded on its own. */
  function EncodedLines(lines: seq<JString>, encode: JString -> seq<Byte>): (r: seq<seq<Byte>>)
    ensures |r| == |lines| && forall i :: 0 <= i < |lines| ==> r[i] == encode(lines[i])
  {
    seq(|lines|, i requires 0 <= i < |lines| => encode(lines[i]))
  }

  lemma EncodedLinesSnoc(lines: seq<JString>, encode: JString -> seq<Byte>)
    requires lines != []
    ensures EncodedLines(lines, encode)
         == EncodedLines(lines[..|lines| - 1], encode) + [encode(lines[|lines| - 1])]
  {
  }

  /** When no encoded line holds `\n`, splitting the output at `\n` gives the
      encoded lines back followed by one empty field: every line ends in
      exactly one `\n`. */
  lemma {:induction false} PrintedFields(lines: seq<JString>, encode: JString -> seq<Byte>)
    requires forall i :: 0 <= i < |lines| ==> LF !in encode(lines[i])
    ensures Fields(LF, Printed(lines, encode)) == EncodedLines(lines, encode) + [[]]
    decreases |lines|
  {
    var es := EncodedLines(lines, encode);
    if lines == [] {
      assert Printed(lines, encode) == [];
    } else {
      var init := lines[..|lines| - 1];
      var e := encode(lines[|lines| - 1]);
      var p := Printed(init, encode);
      PrintedFields(init, encode);
      var ei := EncodedLines(init, encode);
      FieldsAppend(LF, p, e);
      var g := ei + [[]];
      assert g[..|g| - 1] == ei && g[|g| - 1] + e == e;
      FieldsSnoc(LF, p + e, LF);
      assert Printed(lines, encode) == (p + e) + [LF];
      EncodedLinesSnoc(lines, encode);
    }
  }

  /** `savePropertiesFile` with the ISO-8859-1 encoding it uses. */
  function SavePropertiesFile(props: Props, comment: Option<JString>): seq<Byte>
  {
    Printed(PropertyLines(props, comment), Latin1Encode)
  }

  /** The comment the revision-info mojo passes. */
  const GENERATED_COMMENT: JString := Lit("Generated by com.mastfrog:") + Lit("revision-info-plugin")
}
