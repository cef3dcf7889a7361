/** `checkGenClass` and `checkNamePart` of `RevisionInfoMojo`: every
    `.`-separated segment of a configured class name must be a Java
    identifier or empty. */
module ClassNames {
  import opened Wrappers
  import opened JStrings
  import opened JavaChars
  import opened Collections

  /** Why `checkNamePart` rejects a segment: the first unit cannot start
      an identifier, or the unit at `index` cannot continue one. */
  datatype NameError = BadStart(c: Unit, part: JString) | BadPart(c: Unit, index: nat, part: JString)

  /** The unit at `i` may stand at that position of an identifier. */
  predicate LegalAt(ct: CharTable, s: JString, i: nat)
    requires i < |s|
  {
    if i == 0 then ct.isIdentifierStart(s[i]) else ct.isIdentifierPart(s[i])
  }

  /** A segment `checkNamePart` accepts; the empty segment is one. */
  predicate ValidNamePart(ct: CharTable, s: JString)
  {
    forall i :: 0 <= i < |s| ==> LegalAt(ct, s, i)
  }

  /** `e` is the error `checkNamePart` raises for `part`: it names the
      first unit of `part` that cannot stand where it stands. */
  predicate FirstBadUnit(ct: CharTable, part: JString, e: NameError)
  {
    match e
    case BadStart(c, p) => p == part && part != [] && c == part[0] && !ct.isIdentifierStart(part[0])
    case BadPart(c, i, p) =>
      p == part && 0 < i < |part| && c == part[i] && !ct.isIdentifierPart(part[i])
      && forall j :: 0 <= j < i ==> LegalAt(ct, part, j)
  }

  /** `checkNamePart(part)`: the first unit that cannot stand where it
      stands, if any. */
  method CheckNamePart(ct: CharTable, part: JString) returns (r: Option<NameError>)
    ensures r.None? <==> ValidNamePart(ct, part)
    ensures r.Some? ==> FirstBadUnit(ct, part, r.value)
  {
    var i := 0;
    while i < |part|
      invariant 0 <= i <= |part|
      invariant forall j :: 0 <= j < i ==> LegalAt(ct, part, j)
    {
      if !LegalAt(ct, part, i) {
        if i == 0 {
          return Some(BadStart(part[0], part));
        }
        return Some(BadPart(part[i], i, part));
      }
      i := i + 1;
    }
    return None;
  }

  /** `checkGenClass(name)`: every `.`-separated segment must pass, empty
      ones included; the first failure is reported. */
  method CheckGenClass(ct: CharTable, name: JString) returns (r: Option<NameError>)
    ensures r.None? <==> ValidClassName(ct, name)
    ensures var parts := Split(DOT, name);
      r.Some? ==> exists k :: (0 <= k < |parts| && !ValidNamePart(ct, parts[k])
                               && (forall j :: 0 <= j < k ==> ValidNamePart(ct, parts[j]))
                               && FirstBadUnit(ct, parts[k], r.value))
  {
    var parts := Split(DOT, name);
    var k := 0;
    while k < |parts|
      invariant 0 <= k <= |parts|
      invariant forall j :: 0 <= j < k ==> ValidNamePart(ct, parts[j])
    {
      var e := CheckNamePart(ct, parts[k]);
      if e.Some? {
        return e;
      }
      k := k + 1;
    }
    return None;
  }

  /** The names `checkGenClass` accepts. */
  predicate ValidClassName(ct: CharTable, name: JString)
  {
    var parts := Split(DOT, name);
    forall k :: 0 <= k < |parts| ==> ValidNamePart(ct, parts[k])
  }

  /** Empty segments pass: `a..B` is accepted. */
  lemma EmptySegmentAccepted()
    ensures ValidClassName(Ascii, Lit("a..B"))
  {
    assert Lit("a..B") == [0x61, DOT, DOT, 0x42];
    SplitWithEmptySegment(0x61, 0x42);
  }

  lemma SplitWithEmptySegment(a: Unit, b: Unit)
    requires a != DOT && b != DOT
    ensures Split(DOT, [a, DOT, DOT, b]) == [[a], [], [b]]
  {
    assert Join(DOT, [[], [b]]) == [DOT, b];
    assert Join(DOT, [[a], [], [b]]) == [a, DOT, DOT, b];
    FieldsJoin(DOT, [[a], [], [b]]);
  }

  /** A trailing `.` is dropped by the split: `a.` is accepted. */
  lemma TrailingDotAccepted()
    ensures ValidClassName(Ascii, Lit("a."))
  {
    var a: JString := [0x61];
    var s := Lit("a.");
    assert s[..1] == Join(DOT, [a]);
    FieldsJoin(DOT, [a]);
    assert Split(DOT, s) == [a];
  }

  /** A segment opening with a digit is refused: `1a` is rejected. */
  lemma LeadingDigitRejected()
    ensures !ValidClassName(Ascii, Lit("1a"))
  {
    var s := Lit("1a");
    FieldsJoin(DOT, [s]);
    assert Split(DOT, s) == [s];
    assert !LegalAt(Ascii, s, 0);
  }
}
