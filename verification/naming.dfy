/** Name transformations of `Utils`: property keys to constant names, and
    fully qualified class names to package, simple name and source path. */
module Naming {
  import opened Wrappers
  import opened JStrings
  import opened JavaChars
  import opened Collections

  /** `bicapitalizedToConstantName` puts `_` before position `i`: the unit
      there is upper case, the one before is not, and the one before does not
      upper-case to `_`. */
  predicate WordBoundary(ct: CharTable, s: JString, i: nat)
    requires i < |s|
  {
    i > 0 && ct.isUpperCase(s[i]) && !ct.isUpperCase(s[i - 1]) && ct.toUpperCase(s[i - 1]) != UNDERSCORE
  }

  /** The constant name of a camel-case property key, stated on the input
      alone: each unit upper-cased, with `_` at every word boundary. */
  function ConstantName(ct: CharTable, s: JString): JString
    decreases |s|
  {
    if s == [] then []
    else
      var i := |s| - 1;
      ConstantName(ct, s[..i]) + (if WordBoundary(ct, s, i) then [UNDERSCORE] else []) + [ct.toUpperCase(s[i])]
  }

  /** `bicapitalizedToConstantName` as the Java loop computes it: the
      boundary test reads the last unit already written and a flag. */
  method BicapitalizedToConstantName(ct: CharTable, prop: JString) returns (r: JString)
    ensures r == ConstantName(ct, prop)
  {
    var sb: JString := [];
    var lastCaps := false;
    var i := 0;
    while i < |prop|
      invariant 0 <= i <= |prop|
      invariant sb == ConstantName(ct, prop[..i])
      invariant i > 0 ==> lastCaps == ct.isUpperCase(prop[i - 1])
      invariant i > 0 ==> |sb| > 0 && sb[|sb| - 1] == ct.toUpperCase(prop[i - 1])
    {
      var c := prop[i];
      var caps := ct.isUpperCase(c);
      assert prop[..i + 1][..i] == prop[..i];
      if i != 0 && caps && !lastCaps && sb[|sb| - 1] != UNDERSCORE {
        sb := sb + [UNDERSCORE];
      }
      sb := sb + [ct.toUpperCase(c)];
      lastCaps := caps;
      i := i + 1;
    }
    assert prop[..i] == prop;
    r := sb;
  }

  /** `s` without its underscores. */
  function DropUnderscores(s: JString): JString
    decreases |s|
  {
    if s == [] then []
    else DropUnderscores(s[..|s| - 1]) + (if s[|s| - 1] == UNDERSCORE then [] else [s[|s| - 1]])
  }

  /** Every unit of `s` upper-cased. */
  function UpperCased(ct: CharTable, s: JString): (r: JString)
    ensures |r| == |s| && forall i :: 0 <= i < |s| ==> r[i] == ct.toUpperCase(s[i])
  {
    seq(|s|, i requires 0 <= i < |s| => ct.toUpperCase(s[i]))
  }

  lemma DropUnderscoresSnoc(s: JString, c: Unit)
    ensures DropUnderscores(s + [c]) == DropUnderscores(s) + (if c == UNDERSCORE then [] else [c])
  {
    assert (s + [c])[..|s|] == s;
  }

  /** The only units `ConstantName` adds are underscores: apart from them,
      the constant name is the upper-cased key. */
  lemma {:induction false} ConstantNameOnlyInsertsUnderscores(ct: CharTable, s: JString)
    ensures DropUnderscores(ConstantName(ct, s)) == DropUnderscores(UpperCased(ct, s))
    decreases |s|
  {
    if s != [] {
      var i := |s| - 1;
      var p := ConstantName(ct, s[..i]);
      var u := ct.toUpperCase(s[i]);
      ConstantNameOnlyInsertsUnderscores(ct, s[..i]);
      assert UpperCased(ct, s) == UpperCased(ct, s[..i]) + [u];
      DropUnderscoresStep(p, UpperCased(ct, s[..i]), WordBoundary(ct, s, i), u);
    }
  }

  /** Appending the same unit to two sequences that agree without their
      underscores, one of them after an optional `_`, keeps them agreeing. */
  lemma DropUnderscoresStep(p: JString, q: JString, boundary: bool, u: Unit)
    requires DropUnderscores(p) == DropUnderscores(q)
    ensures DropUnderscores(p + (if boundary then [UNDERSCORE] else []) + [u]) == DropUnderscores(q + [u])
  {
    DropUnderscoresSnoc(q, u);
    if boundary {
      DropUnderscoresSnoc(p, UNDERSCORE);
      DropUnderscoresSnoc(p + [UNDERSCORE], u);
    } else {
      DropUnderscoresSnoc(p, u);
      assert p + [] == p;
    }
  }

  /** "fooBarBaz", whose prefixes make the examples the project's tests check. */
  const FOO_BAR_BAZ: JString := [0x66, 0x6F, 0x6F, 0x42, 0x61, 0x72, 0x42, 0x61, 0x7A]

  lemma ConstantNameFoo()
    ensures ConstantName(Ascii, FOO_BAR_BAZ[..3]) == [0x46, 0x4F, 0x4F]
  {
    var s := FOO_BAR_BAZ;
    assert s[..0] == [];
    assert s[..1][..0] == s[..0];
    assert ConstantName(Ascii, s[..1]) == [0x46];
    assert s[..2][..1] == s[..1];
    assert ConstantName(Ascii, s[..2]) == [0x46, 0x4F];
    assert s[..3][..2] == s[..2];
  }

  lemma ConstantNameFooBar()
    ensures ConstantName(Ascii, FOO_BAR_BAZ[..6]) == [0x46, 0x4F, 0x4F, 0x5F, 0x42, 0x41, 0x52]
  {
    var s := FOO_BAR_BAZ;
    ConstantNameFoo();
    assert s[..4][..3] == s[..3];
    assert ConstantName(Ascii, s[..4]) == [0x46, 0x4F, 0x4F, 0x5F, 0x42];
    assert s[..5][..4] == s[..4];
    assert ConstantName(Ascii, s[..5]) == [0x46, 0x4F, 0x4F, 0x5F, 0x42, 0x41];
    assert s[..6][..5] == s[..5];
  }

  lemma ConstantNameFooBarBaz()
    ensures ConstantName(Ascii, FOO_BAR_BAZ) == [0x46, 0x4F, 0x4F, 0x5F, 0x42, 0x41, 0x52, 0x5F, 0x42, 0x41, 0x5A]
  {
    var s := FOO_BAR_BAZ;
    ConstantNameFooBar();
    assert s[..7][..6] == s[..6];
    assert ConstantName(Ascii, s[..7]) == [0x46, 0x4F, 0x4F, 0x5F, 0x42, 0x41, 0x52, 0x5F, 0x42];
    assert s[..8][..7] == s[..7];
    assert ConstantName(Ascii, s[..8]) == [0x46, 0x4F, 0x4F, 0x5F, 0x42, 0x41, 0x52, 0x5F, 0x42, 0x41];
    assert s[..9] == s;
    assert s[..9][..8] == s[..8];
  }

  /** The examples the project's tests check. */
  lemma ConstantNameExamples()
    ensures ConstantName(Ascii, Lit("foo")) == Lit("FOO")
    ensures ConstantName(Ascii, Lit("fooBar")) == Lit("FOO_BAR")
    ensures ConstantName(Ascii, Lit("fooBarBaz")) == Lit("FOO_BAR_BAZ")
  {
    ConstantNameFoo();
    ConstantNameFooBar();
    ConstantNameFooBarBaz();
    assert Lit("foo") == FOO_BAR_BAZ[..3];
    assert Lit("fooBar") == FOO_BAR_BAZ[..6];
    assert Lit("fooBarBaz") == FOO_BAR_BAZ;
    assert Lit("FOO_BAR_BAZ") == [0x46, 0x4F, 0x4F, 0x5F, 0x42, 0x41, 0x52, 0x5F, 0x42, 0x41, 0x5A];
    assert Lit("FOO_BAR") == [0x46, 0x4F, 0x4F, 0x5F, 0x42, 0x41, 0x52];
    assert Lit("FOO") == [0x46, 0x4F, 0x4F];
  }

    /** Applying the transformation twice can change the name again: a digit
      is not upper case, so the second pass splits "A1B". */
  lemma ConstantNameNotIdempotent()
    ensures ConstantName(Ascii, Lit("a1b")) == Lit("A1B")
    ensures ConstantName(Ascii, Lit("A1B")) == Lit("A1_B")
  {
    var s := Lit("a1b");
    assert s == [0x61, 0x31, 0x62];
    assert s[..0] == [];
    assert ConstantName(Ascii, s[..1]) == [0x41];
    assert ConstantName(Ascii, s[..2]) == [0x41, 0x31];
    assert s[..3] == s;
    var t := Lit("A1B");
    assert t == [0x41, 0x31, 0x42];
    assert t[..0] == [];
    assert ConstantName(Ascii, t[..1]) == [0x41];
    assert ConstantName(Ascii, t[..2]) == [0x41, 0x31];
    assert t[..3] == t;
    assert Lit("A1_B") == [0x41, 0x31, 0x5F, 0x42];
  }

  /** `packageFor`: the text before the last `.`, or "" without one. */
  function PackageFor(fqn: JString): (r: JString)
    ensures DOT !in fqn ==> r == []
    ensures DOT in fqn ==> |r| < |fqn| && r == fqn[..|r|] && fqn[|r|] == DOT && DOT !in fqn[|r| + 1..]
  {
    match LastIndexOf(fqn, DOT)
    case None => []
    case Some(ix) => fqn[..ix]
  }

  /** `classNameFor`: the text after the last `.`, or all of `fqn` without one. */
  function ClassNameFor(fqn: JString): (r: JString)
    ensures DOT !in r
    ensures DOT !in fqn ==> r == fqn
    ensures DOT in fqn ==> fqn == PackageFor(fqn) + [DOT] + r
  {
    match LastIndexOf(fqn, DOT)
    case None => fqn
    case Some(ix) =>
      assert fqn == fqn[..ix] + [DOT] + fqn[ix + 1..];
      fqn[ix + 1..]
  }

  /** ".java" */
  const JAVA_SUFFIX: JString := [DOT, 0x6A, 0x61, 0x76, 0x61]

  /** `fqnToSourcePath`: every `.` becomes the file separator, then ".java". */
  function FqnToSourcePath(fqn: JString, sep: Unit): (r: JString)
    ensures |r| == |fqn| + 5 && r[|fqn|..] == JAVA_SUFFIX
    ensures forall i :: 0 <= i < |fqn| ==> r[i] == (if fqn[i] == DOT then sep else fqn[i])
  {
    Replace(fqn, DOT, sep) + JAVA_SUFFIX
  }

  /** Replacing one delimiter by a fresh one keeps the same fields. */
  lemma {:induction false} FieldsReplace(s: JString, a: Unit, b: Unit)
    requires b !in s
    ensures Fields(b, Replace(s, a, b)) == Fields(a, s)
    decreases |s|
  {
    if s != [] {
      var t := s[..|s| - 1];
      var c := s[|s| - 1];
      FieldsReplace(t, a, b);
      assert s == t + [c];
      assert Replace(s, a, b) == Replace(t, a, b) + [if c == a then b else c];
      FieldsSnoc(a, t, c);
      FieldsSnoc(b, Replace(t, a, b), if c == a then b else c);
    }
  }

  /** The source path's directories are the package segments, and its file
      name is the class name plus ".java". */
  lemma SourcePathFields(fqn: JString, sep: Unit)
    requires sep !in fqn && sep !in JAVA_SUFFIX
    ensures var f := Fields(DOT, fqn);
      Fields(sep, FqnToSourcePath(fqn, sep)) == f[..|f| - 1] + [f[|f| - 1] + JAVA_SUFFIX]
  {
    FieldsReplace(fqn, DOT, sep);
    FieldsAppend(sep, Replace(fqn, DOT, sep), JAVA_SUFFIX);
  }
}
