/** `Utils.javaSourceFromProperties`: the Java class of string constants
    the revision-info plugin generates from the revision properties. The
    generated text is modelled exactly; whether it compiles is not claimed
    (values are spliced into string literals unescaped, and two keys can
    give the same constant name). */
module SourceGenerator {
  import opened Wrappers
  import opened JStrings
  import opened JavaChars
  import opened Naming
  import opened JavaTime
  import opened PropertiesWriter
  import opened GitOutput
  import opened LibInfo
  import opened Collections
  import opened MavenProject

  /** A static final field of the generated class: its Java type, its name
      and its initialiser, which is written in the declaration when `inline`
      and assigned in the `static` block otherwise. */
  datatype Field = Field(javaType: JString, name: JString, init: JString, inline: bool)

  const INDENT: JString := Lit("    ")
  const STRING: JString := Lit("String")
  const INSTANT: JString := Lit("Instant")
  const BOOLEAN: JString := Lit("boolean")
  const QUOTE: Unit := 0x22
  const SEMICOLON: Unit := 0x3B

  const COMMIT_TIMESTAMP: JString := Lit("COMMIT_TIMESTAMP")
  const GROUP_ID: JString := Lit("GROUP_ID")
  const ARTIFACT_ID: JString := Lit("ARTIFACT_ID")
  const VERSION: JString := Lit("VERSION")
  const REVISION: JString := Lit("REVISION")
  const CLEAN_REPO: JString := Lit("CLEAN_REPO")

  /** Everything before the field declarations, less the package name,
      the optional `public ` and the class name. */
  const IMPORTS: JString := Lit("\n\nimport java.time.Instant;\n\n/**\n * Generated by com.mastfrog:revision-info-plugin\n */\n")
  const PUBLIC: JString := Lit("public ")
  const FINAL_CLASS: JString := Lit("final class ")

  /** From the end of the declarations to the first assignment. */
  const STATIC_OPEN: JString := Lit("\n\n    static {\n        // avoids the compiler inlining values into methods that use these fields")

  /** A Java string literal of `v`, unescaped as the plugin writes it. */
  function Quoted(v: JString): (r: JString)
    ensures |r| == |v| + 2 && r[0] == QUOTE && r[|r| - 1] == QUOTE && r[1..|r| - 1] == v
  {
    [QUOTE] + v + [QUOTE]
  }

  /** `props.getProperty(key, fallback)`. */
  function GetProperty(props: Props, key: JString, fallback: JString): (r: JString)
    ensures key in props ==> r == props[key]
    ensures key !in props ==> r == fallback
  {
    if key in props then props[key] else fallback
  }

  /** `commitTimestamp(props)`, in milliseconds: `commitDateISO` read as an
      instant; failing that, `commitDate` read in git's format and then as
      an instant; failing all of that, the epoch. */
  function CommitTimestamp(props: Props, t: TimeFormats): (r: int)
    ensures r != 0 ==>
      (COMMIT_DATE_ISO in props && t.parseInstant(props[COMMIT_DATE_ISO]) == Some(r))
      || (COMMIT_DATE in props && (t.parseGitDate(props[COMMIT_DATE]) == Some(r) || t.parseInstant(props[COMMIT_DATE]) == Some(r)))
    ensures COMMIT_DATE_ISO in props && t.parseInstant(props[COMMIT_DATE_ISO]).Some? ==>
      r == t.parseInstant(props[COMMIT_DATE_ISO]).value
    ensures COMMIT_DATE_ISO !in props && COMMIT_DATE !in props ==> r == 0
    ensures (COMMIT_DATE_ISO !in props || t.parseInstant(props[COMMIT_DATE_ISO]).None?) && COMMIT_DATE in props ==>
      r == match t.parseGitDate(props[COMMIT_DATE])
           case Some(millis) => millis
           case None => if t.parseInstant(props[COMMIT_DATE]).Some? then t.parseInstant(props[COMMIT_DATE]).value else 0
    ensures (COMMIT_DATE_ISO !in props || t.parseInstant(props[COMMIT_DATE_ISO]).None?) && COMMIT_DATE !in props ==> r == 0
  {
    var iso := if COMMIT_DATE_ISO in props then t.parseInstant(props[COMMIT_DATE_ISO]) else None;
    if iso.Some? then iso.value
    else if COMMIT_DATE in props then
      match t.parseGitDate(props[COMMIT_DATE])
      case Some(millis) => millis
      case None =>
        match t.parseInstant(props[COMMIT_DATE])
        case Some(millis) => millis
        case None => 0
    else 0
  }

  /** The keys that become constants: all but `commitDateISO`, in the
      ascending order of the `TreeSet` the loop walks. */
  function OwnKeys(props: Props): (r: seq<JString>)
    ensures forall k :: k in r <==> k in props && k != COMMIT_DATE_ISO
  {
    SortedKeys(props.Keys - {COMMIT_DATE_ISO})
  }

  /** The constant for one property. */
  function PropertyField(ct: CharTable, props: Props, key: JString): Field
    requires key in props
  {
    Field(STRING, ConstantName(ct, key), Quoted(props[key]), false)
  }

  function PropertyFields(ct: CharTable, props: Props): (r: seq<Field>)
    ensures |r| == |OwnKeys(props)|
  {
    var ks := OwnKeys(props);
    seq(|ks|, i requires 0 <= i < |ks| => PropertyField(ct, props, ks[i]))
  }

  /** Some property already produced a constant named `VERSION`. */
  predicate WritesVersion(own: seq<Field>)
  {
    exists i :: 0 <= i < |own| && own[i].name == VERSION
  }

  /** The `REVISION` text: `group:artifact:version;hash-status`, with `?`
      for a missing hash and Java's `null` for a missing status. */
  function RevisionString(props: Props, project: Project): JString
  {
    project.groupId + [COLON] + project.artifactId + [COLON] + project.version + [SEMICOLON]
      + GetProperty(props, LONG_COMMIT_HASH, Lit("?")) + [DASH] + GetProperty(props, REPO_STATUS, Lit("null"))
  }

  /** The `COMMIT_TIMESTAMP` initialiser for a timestamp in seconds. */
  function TimestampInit(seconds: int): JString
  {
    Lit("Instant.ofEpochMilli(") + Decimal(seconds) + Lit("L * 1000L)")
  }

  /** The fields after the property constants, in declaration order. */
  function FixedFields(props: Props, project: Project, t: TimeFormats, writesVersion: bool): seq<Field>
  {
    var seconds := JavaDiv(CommitTimestamp(props, t), 1000);
    var clean := REPO_STATUS in props && props[REPO_STATUS] == STATUS_CLEAN;
    [Field(INSTANT, COMMIT_TIMESTAMP, TimestampInit(seconds), true),
     Field(STRING, GROUP_ID, Quoted(project.groupId), false),
     Field(STRING, ARTIFACT_ID, Quoted(project.artifactId), false)]
    + (if writesVersion then [] else [Field(STRING, VERSION, Quoted(project.version), false)])
    + [Field(STRING, REVISION, Quoted(RevisionString(props, project)), false),
       Field(BOOLEAN, CLEAN_REPO, if clean then Lit("true") else Lit("false"), false)]
  }

  /** Every field of the generated class, in declaration order. */
  function ClassFields(ct: CharTable, props: Props, project: Project, t: TimeFormats): seq<Field>
  {
    var own := PropertyFields(ct, props);
    own + FixedFields(props, project, t, WritesVersion(own))
  }

  /** `\n    public static final T NAME;`, or `... NAME = init;` inline. */
  function DeclLine(f: Field): JString
  {
    [LF] + INDENT + Lit("public static final ") + f.javaType + [SPACE] + f.name
      + (if f.inline then Lit(" = ") + f.init else []) + [SEMICOLON]
  }

  /** `\n        NAME = init;` in the static block. */
  function AssignLine(f: Field): JString
  {
    [LF] + INDENT + INDENT + f.name + Lit(" = ") + f.init + [SEMICOLON]
  }

  function DeclLines(fs: seq<Field>): (r: seq<JString>)
    ensures |r| == |fs| && forall i :: 0 <= i < |fs| ==> r[i] == DeclLine(fs[i])
  {
    seq(|fs|, i requires 0 <= i < |fs| => DeclLine(fs[i]))
  }

  /** The assignments of the fields not initialised inline, in order. */
  function AssignLines(fs: seq<Field>): (r: seq<JString>)
    ensures |r| <= |fs|
    decreases |fs|
  {
    if fs == [] then []
    else if fs[0].inline then AssignLines(fs[1..])
    else [AssignLine(fs[0])] + AssignLines(fs[1..])
  }

  /** `package P;`. */
  function PackageLine(fqn: JString): JString
  {
    Lit("package ") + PackageFor(fqn) + [SEMICOLON]
  }

  /** `public final class NAME {`, without `public ` when package private. */
  function ClassLine(packagePrivate: bool, className: JString): JString
  {
    (if packagePrivate then [] else PUBLIC) + FINAL_CLASS + className + Lit(" {\n")
  }

  /** The text up to the first declaration. */
  function Opening(packagePrivate: bool, fqn: JString): JString
  {
    PackageLine(fqn) + IMPORTS + ClassLine(packagePrivate, ClassNameFor(fqn))
  }

  /** The text after the last assignment: the block closes and a private
      constructor that throws follows. */
  function Closing(className: JString): JString
  {
    Lit("\n    }\n\n    private ") + className + Lit("() {\n        throw new AssertionError();\n    }\n}\n")
  }

  /** The class text around the fields: the declarations, then `middle`
      (which opens the static block), then the assignments, with whatever
      comes before and after. */
  function ClassText(opening: JString, fs: seq<Field>, middle: JString, closing: JString): JString
  {
    opening + (Concat(DeclLines(fs)) + (middle + (Concat(AssignLines(fs)) + closing)))
  }

  /** `javaSourceFromProperties(packagePrivate, fqn, props, project)`. */
  function JavaSource(ct: CharTable, t: TimeFormats, packagePrivate: bool, fqn: JString, props: Props, project: Project)
    : JString
  {
    ClassText(Opening(packagePrivate, fqn), ClassFields(ct, props, project, t), STATIC_OPEN, Closing(ClassNameFor(fqn)))
  }

  // ---- the text

  /** The element at `i` of a concatenation sits after the elements before it. */
  lemma OccursInConcat(xs: seq<JString>, b: JString, i: nat)
    requires i < |xs|
    ensures OccursAt(xs[i], Concat(xs) + b, |Concat(xs[..i])|)
  {
    ConcatSplit(xs, i);
    var s := Concat(xs) + b;
    var p := |Concat(xs[..i])|;
    assert s == Concat(xs[..i]) + xs[i] + (Concat(xs[i + 1..]) + b);
    assert s[p..p + |xs[i]|] == xs[i];
  }

  /** An occurrence moves right by whatever is put in front. */
  lemma OccursAfter(t: JString, pre: JString, s: JString, i: int)
    requires OccursAt(t, s, i)
    ensures OccursAt(t, pre + s, |pre| + i)
  {
    assert (pre + s)[|pre| + i..|pre| + i + |t|] == s[i..i + |t|];
  }

  /** Later elements of a concatenation start later, past non-empty ones. */
  lemma ConcatPrefixGrows(xs: seq<JString>, i: nat, j: nat)
    requires i < j <= |xs| && xs[i] != []
    ensures |Concat(xs[..i])| < |Concat(xs[..j])|
  {
    var ys := xs[..j];
    ConcatSplit(ys, i);
    assert ys[..i] == xs[..i];
    assert ys[i] == xs[i];
  }

  lemma OpeningOfClassText(a: JString, b: JString, c: JString, fs: seq<Field>, middle: JString, closing: JString)
    ensures var s := ClassText(a + b + c, fs, middle, closing);
      |a| <= |s| && s[..|a|] == a && OccursAt(c, s, |a| + |b|)
  {
    var rest := Concat(DeclLines(fs)) + (middle + (Concat(AssignLines(fs)) + closing));
    var o := a + b + c;
    assert o[|a| + |b|..|a| + |b| + |c|] == c;
    OccursAfter(c, [], o, |a| + |b|);
    assert OccursAt(c, o + rest, |a| + |b|);
    assert (o + rest)[..|a|] == a;
  }

  /** The generated source opens with the package statement; after the
      imports and a comment comes `public final class NAME {`, or
      `final class NAME {` when the class is package private. */
  lemma SourceOpening(ct: CharTable, t: TimeFormats, packagePrivate: bool, fqn: JString, props: Props, project: Project)
    ensures var src := JavaSource(ct, t, packagePrivate, fqn, props, project);
      var head := Lit("package ") + PackageFor(fqn) + [SEMICOLON];
      && |head| <= |src| && src[..|head|] == head
      && OccursAt((if packagePrivate then [] else PUBLIC) + FINAL_CLASS + ClassNameFor(fqn) + Lit(" {\n"), src, |head| + |IMPORTS|)
  {
    OpeningOfClassText(PackageLine(fqn), IMPORTS, ClassLine(packagePrivate, ClassNameFor(fqn)),
      ClassFields(ct, props, project, t), STATIC_OPEN, Closing(ClassNameFor(fqn)));
  }

  /** Where the declaration of field `i` starts. */
  function DeclOffset(opening: JString, fs: seq<Field>, i: nat): nat
    requires i <= |fs|
  {
    |opening| + |Concat(DeclLines(fs)[..i])|
  }

  /** Where the `j`-th assignment starts, after the declarations and `middle`. */
  function AssignOffset(opening: JString, fs: seq<Field>, middle: JString, j: nat): nat
    requires j <= |AssignLines(fs)|
  {
    |opening| + |Concat(DeclLines(fs))| + |middle| + |Concat(AssignLines(fs)[..j])|
  }

  /** Every field is declared, in order, between the class header and the
      static block. */
  lemma DeclarationAt(opening: JString, fs: seq<Field>, middle: JString, closing: JString, i: nat)
    requires i < |fs|
    ensures OccursAt(DeclLine(fs[i]), ClassText(opening, fs, middle, closing), DeclOffset(opening, fs, i))
  {
    var rest := middle + (Concat(AssignLines(fs)) + closing);
    OccursInConcat(DeclLines(fs), rest, i);
    OccursAfter(DeclLine(fs[i]), opening, Concat(DeclLines(fs)) + rest, |Concat(DeclLines(fs)[..i])|);
  }

  /** Every assignment sits in the static block, in order. */
  lemma AssignmentAt(opening: JString, fs: seq<Field>, middle: JString, closing: JString, j: nat)
    requires j < |AssignLines(fs)|
    ensures OccursAt(AssignLines(fs)[j], ClassText(opening, fs, middle, closing), AssignOffset(opening, fs, middle, j))
  {
    OccursInConcat(AssignLines(fs), closing, j);
    OccursAfterThree(AssignLines(fs)[j], opening, Concat(DeclLines(fs)), middle,
      Concat(AssignLines(fs)) + closing, |Concat(AssignLines(fs)[..j])|);
  }

  /** An occurrence survives three prefixes, shifted by their lengths. */
  lemma OccursAfterThree(t: JString, a: JString, b: JString, c: JString, s: JString, k: int)
    requires OccursAt(t, s, k)
    ensures OccursAt(t, a + (b + (c + s)), |a| + |b| + |c| + k)
  {
    OccursAfter(t, c, s, k);
    OccursAfter(t, b, c + s, |c| + k);
    OccursAfter(t, a, b + (c + s), |b| + (|c| + k));
  }

  /** Fields declared in a given order are declared at increasing offsets. */
  lemma DeclOffsetGrows(opening: JString, fs: seq<Field>, i: nat, j: nat)
    requires i < j <= |fs|
    ensures DeclOffset(opening, fs, i) < DeclOffset(opening, fs, j)
  {
    ConcatPrefixGrows(DeclLines(fs), i, j);
  }

  lemma AssignOffsetGrows(opening: JString, fs: seq<Field>, middle: JString, i: nat, j: nat)
    requires i < j <= |AssignLines(fs)|
    requires AssignLines(fs)[i] != []
    ensures AssignOffset(opening, fs, middle, i) < AssignOffset(opening, fs, middle, j)
  {
    ConcatPrefixGrows(AssignLines(fs), i, j);
  }

  // ---- the fields

  lemma {:induction false} AssignLinesAppend(a: seq<Field>, b: seq<Field>)
    ensures AssignLines(a + b) == AssignLines(a) + AssignLines(b)
    decreases |a|
  {
    if a == [] {
      assert a + b == b;
    } else {
      AssignLinesAppend(a[1..], b);
      assert (a + b)[1..] == a[1..] + b;
    }
  }

  /** Fields assigned in the block each contribute their own assignment. */
  lemma {:induction false} AssignLinesStatic(fs: seq<Field>)
    requires forall i :: 0 <= i < |fs| ==> !fs[i].inline
    ensures |AssignLines(fs)| == |fs|
    ensures forall i :: 0 <= i < |fs| ==> AssignLines(fs)[i] == AssignLine(fs[i])
    decreases |fs|
  {
    if fs != [] {
      AssignLinesStatic(fs[1..]);
    }
  }

  /** The first fields are the property constants, in ascending key order,
      and each is also the first assignment of the same rank. */
  lemma PropertyFieldAt(ct: CharTable, props: Props, project: Project, t: TimeFormats, i: nat)
    requires i < |OwnKeys(props)|
    ensures var fs := ClassFields(ct, props, project, t); var k := OwnKeys(props)[i];
      && k in props && k != COMMIT_DATE_ISO
      && i < |fs| && fs[i] == PropertyField(ct, props, k)
      && i < |AssignLines(fs)| && AssignLines(fs)[i] == AssignLine(PropertyField(ct, props, k))
  {
    var own := PropertyFields(ct, props);
    PropertyFieldBefore(ct, props, FixedFields(props, project, t, WritesVersion(own)), i);
  }

  /** The same, for any fields that follow the property constants. */
  lemma PropertyFieldBefore(ct: CharTable, props: Props, rest: seq<Field>, i: nat)
    requires i < |OwnKeys(props)|
    ensures var fs := PropertyFields(ct, props) + rest; var k := OwnKeys(props)[i];
      && k in props && k != COMMIT_DATE_ISO
      && i < |fs| && fs[i] == PropertyField(ct, props, k)
      && i < |AssignLines(fs)| && AssignLines(fs)[i] == AssignLine(PropertyField(ct, props, k))
  {
    var own := PropertyFields(ct, props);
    var k := OwnKeys(props)[i];
    assert k in OwnKeys(props);
    AssignLinesAppend(own, rest);
    AssignLinesStatic(own);
  }

  /** Property constants for two keys in ascending order: the first is
      declared first and assigned first, whatever text surrounds the fields. */
  lemma ConstantsInKeyOrderIn(ct: CharTable, props: Props, project: Project, t: TimeFormats,
                              o: JString, m: JString, c: JString, i: nat, j: nat)
    requires i < j < |OwnKeys(props)|
    ensures var ks := OwnKeys(props); var fs := ClassFields(ct, props, project, t);
      var src := ClassText(o, fs, m, c);
      && Below(ks[i], ks[j])
      && ks[i] in props && ks[j] in props && j < |fs| && j < |AssignLines(fs)|
      && OccursAt(DeclLine(PropertyField(ct, props, ks[i])), src, DeclOffset(o, fs, i))
      && OccursAt(DeclLine(PropertyField(ct, props, ks[j])), src, DeclOffset(o, fs, j))
      && DeclOffset(o, fs, i) < DeclOffset(o, fs, j)
      && OccursAt(AssignLine(PropertyField(ct, props, ks[i])), src, AssignOffset(o, fs, m, i))
      && OccursAt(AssignLine(PropertyField(ct, props, ks[j])), src, AssignOffset(o, fs, m, j))
      && AssignOffset(o, fs, m, i) < AssignOffset(o, fs, m, j)
  {
    var fs := ClassFields(ct, props, project, t);
    SortedKeysAscending(props.Keys - {COMMIT_DATE_ISO}, i, j);
    PropertyFieldAt(ct, props, project, t, i);
    PropertyFieldAt(ct, props, project, t, j);
    DeclarationAt(o, fs, m, c, i);
    DeclarationAt(o, fs, m, c, j);
    AssignmentAt(o, fs, m, c, i);
    AssignmentAt(o, fs, m, c, j);
    DeclOffsetGrows(o, fs, i, j);
    AssignOffsetGrows(o, fs, m, i, j);
  }

  /** The heart of the generator: in the generated source, for two keys in
      ascending order, the first one's constant is declared first and
      assigned first. */
  lemma ConstantsInKeyOrder(ct: CharTable, t: TimeFormats, packagePrivate: bool, fqn: JString, props: Props, project: Project, i: nat, j: nat)
    requires i < j < |OwnKeys(props)|
    ensures var ks := OwnKeys(props); var fs := ClassFields(ct, props, project, t);
      var src := JavaSource(ct, t, packagePrivate, fqn, props, project);
      var o := Opening(packagePrivate, fqn);
      && Below(ks[i], ks[j])
      && ks[i] in props && ks[j] in props && j < |fs| && j < |AssignLines(fs)|
      && OccursAt(DeclLine(PropertyField(ct, props, ks[i])), src, DeclOffset(o, fs, i))
      && OccursAt(DeclLine(PropertyField(ct, props, ks[j])), src, DeclOffset(o, fs, j))
      && DeclOffset(o, fs, i) < DeclOffset(o, fs, j)
      && OccursAt(AssignLine(PropertyField(ct, props, ks[i])), src, AssignOffset(o, fs, STATIC_OPEN, i))
      && OccursAt(AssignLine(PropertyField(ct, props, ks[j])), src, AssignOffset(o, fs, STATIC_OPEN, j))
      && AssignOffset(o, fs, STATIC_OPEN, i) < AssignOffset(o, fs, STATIC_OPEN, j)
  {
    ConstantsInKeyOrderIn(ct, props, project, t, Opening(packagePrivate, fqn), STATIC_OPEN, Closing(ClassNameFor(fqn)), i, j);
  }

  /** A key's constant, declared and assigned, whatever text surrounds the
      fields. */
  lemma KeyBecomesConstantIn(ct: CharTable, props: Props, project: Project, t: TimeFormats,
                             o: JString, m: JString, c: JString, k: JString)
    requires k in props && k != COMMIT_DATE_ISO
    ensures var src := ClassText(o, ClassFields(ct, props, project, t), m, c);
      var f := Field(STRING, ConstantName(ct, k), Quoted(props[k]), false);
      IsInfix(DeclLine(f), src) && IsInfix(AssignLine(f), src)
  {
    var ks := OwnKeys(props);
    assert k in ks;
    var i := FirstIndex(k, ks);
    var fs := ClassFields(ct, props, project, t);
    PropertyFieldAt(ct, props, project, t, i);
    DeclarationAt(o, fs, m, c, i);
    AssignmentAt(o, fs, m, c, i);
  }

  /** Every key but `commitDateISO` gets a constant, declared and assigned
      its quoted value. */
  lemma EveryKeyBecomesConstant(ct: CharTable, t: TimeFormats, packagePrivate: bool, fqn: JString, props: Props, project: Project, k: JString)
    requires k in props && k != COMMIT_DATE_ISO
    ensures var src := JavaSource(ct, t, packagePrivate, fqn, props, project);
      var f := Field(STRING, ConstantName(ct, k), Quoted(props[k]), false);
      IsInfix(DeclLine(f), src) && IsInfix(AssignLine(f), src)
  {
    KeyBecomesConstantIn(ct, props, project, t, Opening(packagePrivate, fqn), STATIC_OPEN, Closing(ClassNameFor(fqn)), k);
  }

  lemma FixedNamesDistinct()
    ensures VERSION != COMMIT_TIMESTAMP && VERSION != GROUP_ID && VERSION != ARTIFACT_ID
    ensures VERSION != REVISION && VERSION != CLEAN_REPO
  {
    assert |VERSION| == 7 && |COMMIT_TIMESTAMP| == 16 && |GROUP_ID| == 8;
    assert |ARTIFACT_ID| == 11 && |REVISION| == 8 && |CLEAN_REPO| == 10;
  }

  /** Among the fixed fields, only the optional fourth is named `VERSION`. */
  lemma FixedVersionField(props: Props, project: Project, t: TimeFormats, writesVersion: bool, m: nat)
    requires m < |FixedFields(props, project, t, writesVersion)|
    ensures FixedFields(props, project, t, writesVersion)[m].name == VERSION <==> !writesVersion && m == 3
  {
    FixedNamesDistinct();
    var seconds := JavaDiv(CommitTimestamp(props, t), 1000);
    var clean := REPO_STATUS in props && props[REPO_STATUS] == STATUS_CLEAN;
    OnlyOptionalIsVersion(
      Field(INSTANT, COMMIT_TIMESTAMP, TimestampInit(seconds), true),
      Field(STRING, GROUP_ID, Quoted(project.groupId), false),
      Field(STRING, ARTIFACT_ID, Quoted(project.artifactId), false),
      if writesVersion then [] else [Field(STRING, VERSION, Quoted(project.version), false)],
      Field(STRING, REVISION, Quoted(RevisionString(props, project)), false),
      Field(BOOLEAN, CLEAN_REPO, if clean then Lit("true") else Lit("false"), false),
      m);
  }

  /** In `[a, b, c] + opt + [d, e]`, where only the optional field is named
      `VERSION`, the name sits at index 3 exactly when the option is taken. */
  lemma OnlyOptionalIsVersion(a: Field, b: Field, c: Field, opt: seq<Field>, d: Field, e: Field, m: nat)
    requires a.name != VERSION && b.name != VERSION && c.name != VERSION
    requires d.name != VERSION && e.name != VERSION
    requires opt == [] || (|opt| == 1 && opt[0].name == VERSION)
    requires m < |[a, b, c] + opt + [d, e]|
    ensures ([a, b, c] + opt + [d, e])[m].name == VERSION <==> opt != [] && m == 3
  {
  }

  lemma ClassFieldsParts(ct: CharTable, props: Props, project: Project, t: TimeFormats)
    ensures var own := PropertyFields(ct, props); var fs := ClassFields(ct, props, project, t);
      |own| <= |fs| && fs[..|own|] == own && fs[|own|..] == FixedFields(props, project, t, WritesVersion(own))
  {
  }

  /** `VERSION` is added after the property constants exactly when no key
      turned into a constant named `VERSION`. */
  lemma VersionWrittenOnce(ct: CharTable, props: Props, project: Project, t: TimeFormats)
    ensures var fs := ClassFields(ct, props, project, t); var n := |OwnKeys(props)|;
      (exists i :: n <= i < |fs| && fs[i].name == VERSION)
        <==> forall k :: k in props && k != COMMIT_DATE_ISO ==> ConstantName(ct, k) != VERSION
  {
    var own := PropertyFields(ct, props);
    var ks := OwnKeys(props);
    var fs := ClassFields(ct, props, project, t);
    var n := |ks|;
    var wv := WritesVersion(own);
    var fixed := FixedFields(props, project, t, wv);
    ClassFieldsParts(ct, props, project, t);
    assert |fs| == n + |fixed|;
    if wv {
      var i :| 0 <= i < |own| && own[i].name == VERSION;
      assert ks[i] in ks;
      forall m | 0 <= m < |fixed|
        ensures fixed[m].name != VERSION
      {
        FixedVersionField(props, project, t, wv, m);
      }
      NoVersionInSuffix(fs, n, fixed);
    } else {
      forall k | k in props && k != COMMIT_DATE_ISO
        ensures ConstantName(ct, k) != VERSION
      {
        assert k in ks;
        var i := FirstIndex(k, ks);
        assert own[i].name == ConstantName(ct, k);
      }
      FixedVersionField(props, project, t, wv, 3);
      SuffixElement(fs, n, fixed, 3);
    }
  }

  lemma SuffixElement(fs: seq<Field>, n: nat, fixed: seq<Field>, m: nat)
    requires n <= |fs| && fs[n..] == fixed && m < |fixed|
    ensures n + m < |fs| && fs[n + m] == fixed[m]
  {
    assert fs[n..][m] == fs[n + m];
  }

  lemma NoVersionInSuffix(fs: seq<Field>, n: nat, fixed: seq<Field>)
    requires n <= |fs| && fs[n..] == fixed
    requires forall m :: 0 <= m < |fixed| ==> fixed[m].name != VERSION
    ensures !exists i :: n <= i < |fs| && fs[i].name == VERSION
  {
    forall i | n <= i < |fs|
      ensures fs[i].name != VERSION
    {
      SuffixElement(fs, n, fixed, i - n);
    }
  }

  /** `REVISION` holds `group:artifact:version;hash-status`. */
  lemma RevisionConstant(ct: CharTable, props: Props, project: Project, t: TimeFormats)
    ensures var fs := ClassFields(ct, props, project, t);
      var r := fs[|fs| - 2];
      r.name == REVISION && !r.inline
      && r.init == Quoted(project.groupId + [COLON] + project.artifactId + [COLON] + project.version + [SEMICOLON]
           + (if LONG_COMMIT_HASH in props then props[LONG_COMMIT_HASH] else Lit("?")) + [DASH]
           + (if REPO_STATUS in props then props[REPO_STATUS] else Lit("null")))
  {
  }

  /** `CLEAN_REPO` is the last field, `true` exactly for a clean repository. */
  lemma CleanRepoConstant(ct: CharTable, props: Props, project: Project, t: TimeFormats)
    ensures var fs := ClassFields(ct, props, project, t);
      var c := fs[|fs| - 1];
      c.name == CLEAN_REPO && c.javaType == BOOLEAN && !c.inline
      && (c.init == Lit("true") <==> REPO_STATUS in props && props[REPO_STATUS] == STATUS_CLEAN)
      && (c.init == Lit("true") || c.init == Lit("false"))
  {
    assert Lit("true") != Lit("false") by {
      assert |Lit("true")| == 4 && |Lit("false")| == 5;
    }
  }

  /** `COMMIT_TIMESTAMP` is declared inline right after the property
      constants, with the commit time in whole seconds, truncated toward zero;
      without either date key that is the epoch. */
  lemma TimestampConstant(ct: CharTable, props: Props, project: Project, t: TimeFormats)
    ensures var fs := ClassFields(ct, props, project, t); var n := |OwnKeys(props)|;
      n < |fs| && fs[n] == Field(INSTANT, COMMIT_TIMESTAMP, TimestampInit(JavaDiv(CommitTimestamp(props, t), 1000)), true)
    ensures COMMIT_DATE_ISO !in props && COMMIT_DATE !in props ==>
      var fs := ClassFields(ct, props, project, t); fs[|OwnKeys(props)|].init == TimestampInit(0)
  {
    var fs := ClassFields(ct, props, project, t);
    var own := PropertyFields(ct, props);
    assert fs[|own|] == FixedFields(props, project, t, WritesVersion(own))[0];
  }

  /** For the properties read from a git log line whose date parses, and an
      `Instant.parse` that reads back what the ISO formatter writes, the
      timestamp is the commit time. */
  lemma TimestampOfGitLog(output: JString, status: JString, t: TimeFormats, d: JString, millis: int)
    requires MatchDate(output) == Some(d) && t.parseGitDate(d) == Some(millis)
    requires t.parseInstant(t.formatIso(millis)) == Some(millis)
    ensures CommitTimestamp(RevisionProperties(output, status, t), t) == millis
  {
    GitOutputProperties(output, status, t);
  }
}
