/** What reading back a file written by `savePropertiesFile` yields: every
    key, and every value with its leading spaces removed, because spaces in
    values are written unescaped and the reader skips the white space that
    follows the `=`. */
module PropertiesRoundTrip {
  import opened Wrappers
  import opened JStrings
  import opened Collections
  import opened PropertiesWriter
  import opened PropertiesReader

  /** The value with its leading spaces removed. */
  function StripLeadingSpaces(v: JString): (r: JString)
    ensures |r| <= |v|
    ensures r != [] ==> r[0] != SPACE
    ensures (v == [] || v[0] != SPACE) ==> r == v
    decreases |v|
  {
    if v != [] && v[0] == SPACE then StripLeadingSpaces(v[1..]) else v
  }

  /** Stripping removes a prefix: the spaces in front of what is kept. */
  lemma {:induction false} StripLeadingSpacesSuffix(v: JString)
    ensures var r := StripLeadingSpaces(v);
      v == v[..|v| - |r|] + r && forall i :: 0 <= i < |v| - |r| ==> v[i] == SPACE
    decreases |v|
  {
    if v != [] && v[0] == SPACE {
      StripLeadingSpacesSuffix(v[1..]);
      var r := StripLeadingSpaces(v);
      assert v == [v[0]] + v[1..];
      assert v[..|v| - |r|] == [v[0]] + v[1..][..|v| - 1 - |r|];
    }
  }

  /** `c` in front of a successful result. */
  function Cons(c: Unit, o: Option<JString>): Option<JString>
  {
    match o
    case None => None
    case Some(s) => Some([c] + s)
  }

  lemma HexValueOfDigit(n: int)
    requires 0 <= n < 16
    ensures IsHexDigit(HexDigit(n)) && HexValue(HexDigit(n)) == n
  {
  }

  /** The four digits of `appendEscapedHex` spell the unit in base 16. */
  lemma HexDigitsValue(c: Unit)
    ensures ((c / 0x1000 % 16 * 16 + c / 0x100 % 16) * 16 + c / 0x10 % 16) * 16 + c % 16 == c
  {
    var a := c / 0x10;
    var b := a / 0x10;
    var d := b / 0x10;
    assert c == a * 16 + c % 16;
    assert a == b * 16 + a % 16;
    assert b == d * 16 + b % 16;
    assert d < 16;
    assert c / 0x100 == b;
    assert c / 0x1000 == d;
  }

  /** The three shapes of an escape: the unit itself, a backslash pair
      naming it, or `\u` and four hex digits. */
  lemma EscapeUnitShape(c: Unit, escapeSpace: bool)
    ensures var e := EscapeUnit(c, escapeSpace);
      && (|e| == 1 ==> e[0] == c && c != BACKSLASH && c != EQUALS && c != COLON && c != TAB && c != FF
                       && (escapeSpace ==> c != SPACE))
      && (|e| == 2 ==> e[0] == BACKSLASH && e[1] != LETTER_U && Unescaped(e[1]) == c)
      && (|e| != 1 && |e| != 2 ==> e == HexEscape(c))
  {
  }

  lemma UnescapeSingle(x: Unit, rest: JString)
    requires x != BACKSLASH
    ensures Unescape([x] + rest) == Cons(x, Unescape(rest))
  {
    assert ([x] + rest)[1..] == rest;
  }

  lemma UnescapePair(x: Unit, rest: JString)
    requires x != LETTER_U
    ensures Unescape([BACKSLASH, x] + rest) == Cons(Unescaped(x), Unescape(rest))
  {
    assert ([BACKSLASH, x] + rest)[2..] == rest;
  }

  lemma UnescapeHex(c: Unit, rest: JString)
    ensures Unescape(HexEscape(c) + rest) == Cons(c, Unescape(rest))
  {
    var s := HexEscape(c) + rest;
    assert s[6..] == rest;
    HexValueOfDigit(c / 0x1000 % 16);
    HexValueOfDigit(c / 0x100 % 16);
    HexValueOfDigit(c / 0x10 % 16);
    HexValueOfDigit(c % 16);
    HexDigitsValue(c);
  }

  /** Reading one escape gives back the unit it escapes. */
  lemma UnescapeEscapeUnit(c: Unit, escapeSpace: bool, rest: JString)
    ensures Unescape(EscapeUnit(c, escapeSpace) + rest) == Cons(c, Unescape(rest))
  {
    var e := EscapeUnit(c, escapeSpace);
    EscapeUnitShape(c, escapeSpace);
    if |e| == 1 {
      assert e == [c];
      UnescapeSingle(c, rest);
    } else if |e| == 2 {
      assert e == [BACKSLASH, e[1]];
      UnescapePair(e[1], rest);
    } else {
      UnescapeHex(c, rest);
    }
  }

  /** `loadConvert` undoes `convert`, with or without escaped spaces. */
  lemma {:induction false} UnescapeConvert(s: JString, escapeSpace: bool)
    ensures Unescape(Convert(s, escapeSpace)) == Some(s)
    decreases |s|
  {
    if s != [] {
      UnescapeConvert(s[1..], escapeSpace);
      UnescapeEscapeUnit(s[0], escapeSpace, Convert(s[1..], escapeSpace));
      assert [s[0]] + s[1..] == s;
    }
  }

  /** `w` occurs in `t` at position `i`. */
  predicate At(t: JString, i: nat, w: JString)
  {
    i + |w| <= |t| && forall j :: 0 <= j < |w| ==> t[i + j] == w[j]
  }

  lemma AtAppend(t: JString, i: nat, a: JString, b: JString)
    requires At(t, i, a + b)
    ensures At(t, i, a) && At(t, i + |a|, b)
  {
    forall j | 0 <= j < |a|
      ensures t[i + j] == a[j]
    {
      assert (a + b)[j] == a[j];
    }
    forall j | 0 <= j < |b|
      ensures t[i + |a| + j] == b[j]
    {
      assert (a + b)[|a| + j] == b[j];
    }
  }

  /** The key scan steps over one escaped key unit without stopping. */
  lemma KeyEndEscapeUnit(t: JString, i: nat, c: Unit)
    requires At(t, i, EscapeUnit(c, true))
    ensures KeyEnd(t, i, false) == KeyEnd(t, i + |EscapeUnit(c, true)|, false)
  {
    var e := EscapeUnit(c, true);
    EscapeUnitShape(c, true);
    assert forall j :: 0 <= j < |e| ==> t[i + j] == e[j];
    if |e| == 1 {
      assert t[i] == e[0];
    } else if |e| == 2 {
      assert t[i] == BACKSLASH;
      assert KeyEnd(t, i, false) == KeyEnd(t, i + 1, true);
    } else {
      assert e == HexEscape(c);
      assert t[i] == e[0] == BACKSLASH && t[i + 1] == e[1] == LETTER_U;
      assert t[i + 2] == e[2] && t[i + 3] == e[3] && t[i + 4] == e[4] && t[i + 5] == e[5];
      assert KeyEnd(t, i, false) == KeyEnd(t, i + 1, true);
      assert KeyEnd(t, i + 1, true) == KeyEnd(t, i + 2, false);
      assert KeyEnd(t, i + 2, false) == KeyEnd(t, i + 3, false);
      assert KeyEnd(t, i + 3, false) == KeyEnd(t, i + 4, false);
      assert KeyEnd(t, i + 4, false) == KeyEnd(t, i + 5, false);
    }
  }

  /** The key scan steps over a whole converted key without stopping. */
  lemma {:induction false} KeyEndConvert(t: JString, i: nat, k: JString)
    requires At(t, i, Convert(k, true))
    ensures KeyEnd(t, i, false) == KeyEnd(t, i + |Convert(k, true)|, false)
    decreases |k|
  {
    if k != [] {
      var e := EscapeUnit(k[0], true);
      var rest := Convert(k[1..], true);
      assert Convert(k, true) == e + rest;
      AtAppend(t, i, e, rest);
      KeyEndEscapeUnit(t, i, k[0]);
      KeyEndConvert(t, i + |e|, k[1..]);
    }
  }

  /** The value starts after the spaces that open its converted text. */
  lemma {:induction false} ValueStartConvert(t: JString, j: nat, v: JString)
    requires j <= |t| && t[j..] == Convert(v, false)
    ensures ValueStart(t, j, true) == |t| - |Convert(StripLeadingSpaces(v), false)|
    decreases |v|
  {
    if v != [] {
      var e := EscapeUnit(v[0], false);
      assert Convert(v, false) == e + Convert(v[1..], false);
      if v[0] == SPACE {
        assert t[j] == SPACE;
        assert t[j + 1..] == Convert(v[1..], false);
        ValueStartConvert(t, j + 1, v[1..]);
      } else {
        assert t[j] == e[0];
      }
    }
  }

  /** How `LoadLine` treats a line that is not a comment, ended by `=`. */
  /** `t` is a line `LoadLine` reads as the entry `k`, `v`: no comment mark,
      the key ends at `keyLen` on an unescaped separator, and the value
      starts at `start`. */
  predicate EntryShape(t: JString, keyLen: int, start: int, k: JString, v: JString)
  {
    && t != [] && SkipWhite(t) == t && t[0] != HASH && t[0] != BANG
    && 0 <= keyLen && keyLen + 1 <= |t| && 0 <= start <= |t|
    && KeyEnd(t, 0, false) == (keyLen, keyLen + 1, true)
    && ValueStart(t, keyLen + 1, true) == start
    && Unescape(t[..keyLen]) == Some(k) && Unescape(t[start..]) == Some(v)
  }

  lemma LoadParsedLine(t: JString, acc: Props, keyLen: int, start: int, k: JString, v: JString)
    requires EntryShape(t, keyLen, start, k, v)
    ensures LoadLine(t, acc) == Some(acc[k := v])
  {
  }

  /** An entry line is neither blank nor a comment, and has no leading
      white space. */
  lemma EntryLineHead(k: JString, v: JString)
    ensures var t := EntryLine(k, v);
      t != [] && SkipWhite(t) == t && t[0] != HASH && t[0] != BANG
  {
    var ck := Convert(k, true);
    var t := EntryLine(k, v);
    if k != [] {
      ConvertFirstUnit(k, true);
      assert t[0] == ck[0];
    } else {
      assert t[0] == EQUALS;
    }
  }

  /** The key scan of an entry line stops at the `=` the writer put there. */
  lemma EntryLineKeyEnd(k: JString, v: JString)
    ensures var t := EntryLine(k, v); var n := |Convert(k, true)|;
      n < |t| && KeyEnd(t, 0, false) == (n, n + 1, true)
  {
    var ck := Convert(k, true);
    var t := EntryLine(k, v);
    assert At(t, 0, ck) by {
      assert forall j :: 0 <= j < |ck| ==> t[j] == ck[j];
    }
    KeyEndConvert(t, 0, k);
    assert t[|ck|] == EQUALS;
  }

  /** The key text of an entry line reads back as the key. */
  lemma EntryLineKeyText(k: JString, v: JString)
    ensures var t := EntryLine(k, v); var n := |Convert(k, true)|;
      n <= |t| && Unescape(t[..n]) == Some(k)
  {
    var ck := Convert(k, true);
    var t := EntryLine(k, v);
    assert t[..|ck|] == ck;
    UnescapeConvert(k, true);
  }

  /** The key of an entry line ends at the `=` the writer put there, and
      reads back as the key. */
  lemma EntryLineKey(k: JString, v: JString)
    ensures var t := EntryLine(k, v); var n := |Convert(k, true)|;
      n < |t| && KeyEnd(t, 0, false) == (n, n + 1, true) && Unescape(t[..n]) == Some(k)
  {
    EntryLineKeyEnd(k, v);
    EntryLineKeyText(k, v);
  }

  /** The converted value is the converted leading spaces followed by the
      converted rest. */
  lemma EntryLineTail(k: JString, v: JString)
    ensures var t := EntryLine(k, v); var csv := Convert(StripLeadingSpaces(v), false);
      |csv| <= |t| && t[|t| - |csv|..] == csv
  {
    var ck := Convert(k, true);
    var t := EntryLine(k, v);
    var sv := StripLeadingSpaces(v);
    var csv := Convert(sv, false);
    var skipped := v[..|v| - |sv|];
    StripLeadingSpacesSuffix(v);
    ConvertAppend(skipped, sv, false);
    assert t == (ck + [EQUALS] + Convert(skipped, false)) + csv;
  }

  /** The value of an entry line starts after the spaces that open it, and
      reads back as the value without them. */
  lemma EntryLineValue(k: JString, v: JString)
    ensures var t := EntryLine(k, v); var n := |Convert(k, true)|;
      var csv := Convert(StripLeadingSpaces(v), false);
      n + 1 <= |t| && |csv| <= |t|
      && ValueStart(t, n + 1, true) == |t| - |csv|
      && Unescape(t[|t| - |csv|..]) == Some(StripLeadingSpaces(v))
  {
    var ck := Convert(k, true);
    var t := EntryLine(k, v);
    assert t[|ck| + 1..] == Convert(v, false);
    ValueStartConvert(t, |ck| + 1, v);
    EntryLineTail(k, v);
    UnescapeConvert(StripLeadingSpaces(v), false);
  }

  /** Reading an entry line records the key with the value's leading spaces
      removed. */
  lemma LoadEntryLine(k: JString, v: JString, acc: Props)
    ensures LoadLine(EntryLine(k, v), acc) == Some(acc[k := StripLeadingSpaces(v)])
  {
    EntryLineParsed(k, v);
    LoadParsedLine(EntryLine(k, v), acc, |Convert(k, true)|,
      |EntryLine(k, v)| - |Convert(StripLeadingSpaces(v), false)|, k, StripLeadingSpaces(v));
  }

  /** An entry line has the shape `LoadParsedLine` reads: no comment mark,
      the key up to the first unescaped `=`, the value after it. */
  lemma EntryLineParsed(k: JString, v: JString)
    ensures EntryShape(EntryLine(k, v), |Convert(k, true)|,
      |EntryLine(k, v)| - |Convert(StripLeadingSpaces(v), false)|, k, StripLeadingSpaces(v))
  {
    EntryLineHead(k, v);
    EntryLineKey(k, v);
    EntryLineValue(k, v);
  }

  lemma {:induction false} LoadLinesAppend(a: seq<JString>, b: seq<JString>, acc: Props)
    ensures LoadLines(a + b, acc) == match LoadLines(a, acc) case None => None case Some(m) => LoadLines(b, m)
    decreases |a|
  {
    if a == [] {
      assert a + b == b;
    } else {
      assert (a + b)[0] == a[0];
      assert (a + b)[1..] == a[1..] + b;
      match LoadLine(a[0], acc)
      case None =>
      case Some(next) =>
        LoadLinesAppend(a[1..], b, next);
    }
  }

  lemma EntryLinesCons(props: Props, ks: seq<JString>)
    requires ks != [] && forall i :: 0 <= i < |ks| ==> ks[i] in props
    ensures var lines := EntryLines(props, ks);
      lines[0] == EntryLine(ks[0], props[ks[0]]) && lines[1..] == EntryLines(props, ks[1..])
  {
  }

  lemma LoadLinesCons(lines: seq<JString>, acc: Props, next: Props)
    requires lines != [] && LoadLine(lines[0], acc) == Some(next)
    ensures LoadLines(lines, acc) == LoadLines(lines[1..], next)
  {
  }

  /** The table the reader builds from the keys `ks` of `props`. */
  function StrippedOn(props: Props, ks: seq<JString>): Props
  {
    map k | k in ks && k in props :: StripLeadingSpaces(props[k])
  }

  lemma StrippedOnCons(props: Props, ks: seq<JString>, acc: Props)
    requires ks != [] && ks[0] in props
    ensures acc[ks[0] := StripLeadingSpaces(props[ks[0]])] + StrippedOn(props, ks[1..])
         == acc + StrippedOn(props, ks)
  {
    var k0 := ks[0];
    var got := acc[k0 := StripLeadingSpaces(props[k0])] + StrippedOn(props, ks[1..]);
    var want := acc + StrippedOn(props, ks);
    assert forall k :: k in ks <==> k == k0 || k in ks[1..];
    assert got.Keys == want.Keys;
    assert forall k :: k in got ==> got[k] == want[k];
  }

  /** Reading the entry lines of `ks` adds each of those keys with its
      stripped value. */
  lemma {:induction false} LoadEntries(props: Props, ks: seq<JString>, acc: Props)
    requires forall i :: 0 <= i < |ks| ==> ks[i] in props
    ensures LoadLines(EntryLines(props, ks), acc) == Some(acc + StrippedOn(props, ks))
    decreases |ks|
  {
    if ks == [] {
      assert StrippedOn(props, ks) == map[];
      assert acc + map[] == acc;
    } else {
      var k0 := ks[0];
      var next := acc[k0 := StripLeadingSpaces(props[k0])];
      EntryLinesCons(props, ks);
      LoadEntryLine(k0, props[k0], acc);
      LoadLinesCons(EntryLines(props, ks), acc, next);
      LoadEntries(props, ks[1..], next);
      StrippedOnCons(props, ks, acc);
    }
  }

  /** An entry line is printable ASCII. */
  lemma EntryLinePrintable(k: JString, v: JString)
    ensures AllPrintable(EntryLine(k, v))
  {
    ConvertPrintable(k, true);
    ConvertPrintable(v, false);
    AllPrintableAppend(Convert(k, true), [EQUALS]);
    AllPrintableAppend(Convert(k, true) + [EQUALS], Convert(v, false));
  }

  /** An entry line is printable, so holds neither `\n` nor `\r`. */
  lemma EntryLineUnbroken(k: JString, v: JString)
    ensures var t := EntryLine(k, v); LF !in t && CR !in t
  {
    EntryLinePrintable(k, v);
  }

  /** No line of the file breaks in two: each is free of `\n` and `\r`. */
  lemma PropertyLineUnbroken(props: Props, comment: Option<JString>, i: nat)
    requires comment.Some? ==> LF !in comment.value && CR !in comment.value
    requires i < |PropertyLines(props, comment)|
    ensures var line := PropertyLines(props, comment)[i]; LF !in line && CR !in line
  {
    var keys := SortedKeys(props.Keys);
    var off := if comment.Some? then 1 else 0;
    if i >= off {
      PropertyLinesAt(props, comment, i - off);
      var k := keys[i - off];
      EntryLineUnbroken(k, props[k]);
    } else {
      PropertyLinesComment(props, comment);
    }
  }

  /** Encoding keeps a line free of `\n` and `\r`. */
  lemma EncodedUnbroken(line: JString)
    requires LF !in line && CR !in line
    ensures var e := Latin1Encode(line); LF !in e && CR !in e
  {
    Latin1EncodeFrom(line);
  }

  /** Every encoded line of the file is free of `\n` and `\r`. */
  lemma EncodedLinesUnbroken(props: Props, comment: Option<JString>, i: nat)
    requires comment.Some? ==> LF !in comment.value && CR !in comment.value
    requires i < |PropertyLines(props, comment)|
    ensures var e := Latin1Encode(PropertyLines(props, comment)[i]); LF !in e && CR !in e
  {
    PropertyLineUnbroken(props, comment, i);
    EncodedUnbroken(PropertyLines(props, comment)[i]);
  }

  lemma {:induction false} PrintedWithoutCR(lines: seq<JString>, encode: JString -> seq<Byte>)
    requires forall i :: 0 <= i < |lines| ==> CR !in encode(lines[i])
    ensures CR !in Printed(lines, encode)
    decreases |lines|
  {
    if lines != [] {
      PrintedWithoutCR(lines[..|lines| - 1], encode);
    }
  }

  lemma ReplaceAbsent(s: JString, a: Unit, b: Unit)
    requires a !in s
    ensures Replace(s, a, b) == s
  {
  }

  /** The comment line is skipped on reading. */
  lemma LoadCommentLine(c: JString, acc: Props)
    ensures LoadLine(Latin1Encode(CommentLine(c)), acc) == Some(acc)
  {
    var e := Latin1Encode(CommentLine(c));
    assert e[0] == HASH;
  }

  /** The natural lines of the file are its encoded lines and one empty
      line after the last `\n`. */
  lemma SavedNaturalLines(props: Props, comment: Option<JString>)
    requires comment.Some? ==> LF !in comment.value && CR !in comment.value
    ensures NaturalLines(SavePropertiesFile(props, comment))
         == EncodedLines(PropertyLines(props, comment), Latin1Encode) + [[]]
  {
    var lines := PropertyLines(props, comment);
    var bytes := SavePropertiesFile(props, comment);
    forall i | 0 <= i < |lines|
      ensures LF !in Latin1Encode(lines[i]) && CR !in Latin1Encode(lines[i])
    {
      EncodedLinesUnbroken(props, comment, i);
    }
    PrintedFields(lines, Latin1Encode);
    PrintedWithoutCR(lines, Latin1Encode);
    ReplaceAbsent(bytes, CR, LF);
  }

  /** An entry line is ASCII, so encoding leaves it as it is. */
  lemma EncodedEntryLine(k: JString, v: JString)
    ensures Latin1Encode(EntryLine(k, v)) == EntryLine(k, v)
  {
    EntryLinePrintable(k, v);
    Latin1EncodeIdentity(EntryLine(k, v));
  }

  /** The file's lines are the optional comment line and the entry lines
      in key order. */
  lemma PropertyLinesParts(props: Props, comment: Option<JString>)
    ensures var keys := SortedKeys(props.Keys);
      (forall i :: 0 <= i < |keys| ==> keys[i] in props)
      && PropertyLines(props, comment) == Header(comment) + EntryLines(props, keys)
  {
  }

  lemma EncodedLinesAppend(a: seq<JString>, b: seq<JString>, encode: JString -> seq<Byte>)
    ensures EncodedLines(a + b, encode) == EncodedLines(a, encode) + EncodedLines(b, encode)
  {
    var l := EncodedLines(a + b, encode);
    var r := EncodedLines(a, encode) + EncodedLines(b, encode);
    forall i | 0 <= i < |l|
      ensures l[i] == r[i]
    {
      if i >= |a| {
        assert (a + b)[i] == b[i - |a|];
      }
    }
  }

  /** Entry lines are ASCII, so encoding leaves them as they are. */
  lemma EncodedEntries(props: Props, ks: seq<JString>)
    requires forall i :: 0 <= i < |ks| ==> ks[i] in props
    ensures EncodedLines(EntryLines(props, ks), Latin1Encode) == EntryLines(props, ks)
  {
    var entries := EntryLines(props, ks);
    var encs := EncodedLines(entries, Latin1Encode);
    forall i | 0 <= i < |entries|
      ensures encs[i] == entries[i]
    {
      EncodedEntryLine(ks[i], props[ks[i]]);
    }
  }

  /** The optional comment line is skipped on reading. */
  lemma LoadHeader(comment: Option<JString>, rest: seq<JString>, acc: Props)
    ensures LoadLines(EncodedLines(Header(comment), Latin1Encode) + rest, acc) == LoadLines(rest, acc)
  {
    var h := EncodedLines(Header(comment), Latin1Encode);
    if comment.Some? {
      assert h[0] == Latin1Encode(CommentLine(comment.value));
      LoadCommentLine(comment.value, acc);
      assert (h + rest)[1..] == rest;
    } else {
      assert h + rest == rest;
    }
  }

  /** The encoded file lines: the encoded comment line, then the entry
      lines unchanged. */
  lemma EncodedHeaderEntries(props: Props, comment: Option<JString>, ks: seq<JString>)
    requires forall i :: 0 <= i < |ks| ==> ks[i] in props
    ensures EncodedLines(Header(comment) + EntryLines(props, ks), Latin1Encode) + [[]]
         == EncodedLines(Header(comment), Latin1Encode) + (EntryLines(props, ks) + [[]])
  {
    EncodedEntries(props, ks);
    EncodedThenEmpty(Header(comment), EntryLines(props, ks), Latin1Encode);
  }

  /** Encoding `a + b`, where `b` encodes to itself, then adding the final
      empty line. */
  lemma EncodedThenEmpty(a: seq<JString>, b: seq<JString>, encode: JString -> seq<Byte>)
    requires EncodedLines(b, encode) == b
    ensures EncodedLines(a + b, encode) + [[]] == EncodedLines(a, encode) + (b + [[]])
  {
    EncodedLinesAppend(a, b, encode);
  }

  /** Reading the entry lines and the final empty line. */
  lemma LoadEntriesThenEmpty(props: Props, ks: seq<JString>)
    requires forall i :: 0 <= i < |ks| ==> ks[i] in props
    ensures LoadLines(EntryLines(props, ks) + [[]], map[]) == Some(StrippedOn(props, ks))
  {
    LoadEntries(props, ks, map[]);
    LoadLinesAppend(EntryLines(props, ks), [[]], map[]);
    assert map[] + StrippedOn(props, ks) == StrippedOn(props, ks);
  }

  /** Reading the encoded comment and entry lines and the final empty line
      adds the entries' keys with their stripped values. */
  lemma LoadHeaderEntries(props: Props, comment: Option<JString>, ks: seq<JString>)
    requires forall i :: 0 <= i < |ks| ==> ks[i] in props
    ensures LoadLines(EncodedLines(Header(comment) + EntryLines(props, ks), Latin1Encode) + [[]], map[])
         == Some(StrippedOn(props, ks))
  {
    var rest := EntryLines(props, ks) + [[]];
    EncodedHeaderEntries(props, comment, ks);
    LoadHeader(comment, rest, map[]);
    LoadEntriesThenEmpty(props, ks);
  }

  /** Reading the encoded lines and the final empty line. */
  lemma LoadEncodedLines(props: Props, comment: Option<JString>)
    ensures var encs := EncodedLines(PropertyLines(props, comment), Latin1Encode);
      LoadLines(encs + [[]], map[]) == Some(StrippedOn(props, SortedKeys(props.Keys)))
  {
    PropertyLinesParts(props, comment);
    LoadHeaderEntries(props, comment, SortedKeys(props.Keys));
  }

  /** The keys of the table are the keys sorted, so stripping on them
      strips every value. */
  lemma StrippedOnAllKeys(props: Props)
    ensures StrippedOn(props, SortedKeys(props.Keys)) == map k | k in props :: StripLeadingSpaces(props[k])
  {
    var keys := SortedKeys(props.Keys);
    assert forall k :: k in keys <==> k in props;
  }

  /** Reading back the written file yields every key, each with its value
      stripped of leading spaces; the optional comment must stay on its line. */
  lemma SaveThenLoad(props: Props, comment: Option<JString>)
    requires comment.Some? ==> LF !in comment.value && CR !in comment.value
    ensures Load(SavePropertiesFile(props, comment)) == Some(map k | k in props :: StripLeadingSpaces(props[k]))
  {
    SavedNaturalLines(props, comment);
    LoadEncodedLines(props, comment);
    StrippedOnAllKeys(props);
  }

  /** Stripping changes nothing when no value opens with a space. */
  lemma StrippedUnchanged(props: Props)
    requires forall k :: k in props && props[k] != [] ==> props[k][0] != SPACE
    ensures (map k | k in props :: StripLeadingSpaces(props[k])) == props
  {
  }

  /** Without values that open with a space, the file reads back as the
      properties that were saved. */
  lemma SaveThenLoadLossless(props: Props, comment: Option<JString>)
    requires comment.Some? ==> LF !in comment.value && CR !in comment.value
    requires forall k :: k in props && props[k] != [] ==> props[k][0] != SPACE
    ensures Load(SavePropertiesFile(props, comment)) == Some(props)
  {
    SaveThenLoad(props, comment);
    StrippedUnchanged(props);
  }

  /** The table one key with the value " x" reads back as. */
  lemma OneSpacedValueStripped()
    ensures var props: Props := map[[0x6B] := [SPACE, 0x78]];
      (map k | k in props :: StripLeadingSpaces(props[k])) == map[[0x6B] := [0x78]]
  {
    var props: Props := map[[0x6B] := [SPACE, 0x78]];
    var v: JString := [SPACE, 0x78];
    assert v[1..] == [0x78];
    assert StripLeadingSpaces(v) == [0x78];
    var loaded := map k | k in props :: StripLeadingSpaces(props[k]);
    assert loaded.Keys == {[0x6B]};
  }

  /** A value's leading space is lost: `k` = " x" reads back as "x". */
  lemma LeadingSpaceLost()
    ensures var props := map[[0x6B] := [SPACE, 0x78]];
      Load(SavePropertiesFile(props, None)) == Some(map[[0x6B] := [0x78]])
  {
    var props := map[[0x6B] := [SPACE, 0x78]];
    SaveThenLoad(props, None);
    OneSpacedValueStripped();
  }
}
