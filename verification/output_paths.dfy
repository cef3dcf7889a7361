/** Where `RevisionInfoMojo` writes: the properties file under the build
    output directory and the generated source under the generated-sources
    directory, both resolved as `java.nio.file.Path.resolve` does. */
module OutputPaths {
  import opened JStrings
  import opened Collections
  import opened Naming
  import opened Paths

  const CLASSES: JString := Lit("classes")
  const META_INF: JString := Lit("META-INF")
  const PROPERTIES_SUFFIX: JString := Lit(".versions.properties")

  /** `<groupId>.<artifactId>.versions.properties` */
  function PropertiesFileName(groupId: JString, artifactId: JString): JString
  {
    groupId + [DOT] + artifactId + PROPERTIES_SUFFIX
  }

  /** `propertiesOutputFile()`: `classes/META-INF/<file name>` resolved
      against the output directory. */
  function PropertiesOutputFile(outputDirectory: Path, groupId: JString, artifactId: JString): Path
  {
    ResolveText(outputDirectory, Join(SLASH, [CLASSES, META_INF, PropertiesFileName(groupId, artifactId)]))
  }

  /** Resolving `a/b/c` for names free of `/` appends those names. */
  lemma ResolveJoined(p: Path, xs: seq<JString>)
    requires xs != [] && forall i :: 0 <= i < |xs| ==> xs[i] != [] && SLASH !in xs[i]
    ensures ResolveText(p, Join(SLASH, xs)) == Path(p.absolute, p.names + xs)
  {
    FieldsJoin(SLASH, xs);
    NonEmptyUnchanged(xs);
    var text := Join(SLASH, xs);
    assert text[0] == xs[0][0] && xs[0][0] in xs[0];
  }

  lemma ConstantsWithoutSlash()
    ensures SLASH !in CLASSES && SLASH !in META_INF && SLASH !in PROPERTIES_SUFFIX
  {
    LitAvoids("classes", SLASH);
    LitAvoids("META-INF", SLASH);
    LitAvoids(".versions.properties", SLASH);
  }

  /** For coordinates without `/`, the properties file is
      `classes/META-INF/<groupId>.<artifactId>.versions.properties` under the
      output directory. */
  lemma PropertiesOutputFileNames(outputDirectory: Path, groupId: JString, artifactId: JString)
    requires SLASH !in groupId && SLASH !in artifactId
    ensures PropertiesOutputFile(outputDirectory, groupId, artifactId)
         == Path(outputDirectory.absolute, outputDirectory.names + [CLASSES, META_INF, PropertiesFileName(groupId, artifactId)])
  {
    ConstantsWithoutSlash();
    var name := PropertiesFileName(groupId, artifactId);
    assert SLASH !in name;
    ResolveJoined(outputDirectory, [CLASSES, META_INF, name]);
  }

  /** `sourceOutputFile()` for the class `fqn`: its source path resolved
      against the generated-sources directory. */
  function SourceOutputFile(genSourcesDir: Path, fqn: JString): Path
  {
    ResolveText(genSourcesDir, FqnToSourcePath(fqn, SLASH))
  }

  lemma {:induction false} NonEmptyAppend(a: seq<JString>, b: seq<JString>)
    ensures NonEmpty(a + b) == NonEmpty(a) + NonEmpty(b)
    decreases |a|
  {
    if a != [] {
      NonEmptyAppend(a[1..], b);
      assert (a + b)[1..] == a[1..] + b;
    } else {
      assert a + b == b;
    }
  }

  lemma NonEmptySingle(x: JString)
    requires x != []
    ensures NonEmpty([x]) == [x] && NonEmpty([[], x]) == [x]
  {
    NonEmptyUnchanged([x]);
    assert [[], x][1..] == [x];
  }

  lemma SourcePathText(fqn: JString)
    requires SLASH !in fqn
    ensures var text := FqnToSourcePath(fqn, SLASH);
      && Fields(SLASH, text) == Fields(DOT, fqn)[..|Fields(DOT, fqn)| - 1] + [Fields(DOT, fqn)[|Fields(DOT, fqn)| - 1] + JAVA_SUFFIX]
      && text[0] == (if fqn == [] then DOT else if fqn[0] == DOT then SLASH else fqn[0])
  {
    assert SLASH !in JAVA_SUFFIX;
    SourcePathFields(fqn, SLASH);
  }

  /** For a name without `/` that does not open with `.`, the source file
      lies under the generated-sources directory: one directory per
      non-empty package segment, then the class name plus ".java". */
  lemma SourceOutputFileNames(genSourcesDir: Path, fqn: JString)
    requires SLASH !in fqn && (fqn != [] ==> fqn[0] != DOT)
    ensures var f := Fields(DOT, fqn);
      SourceOutputFile(genSourcesDir, fqn)
        == Path(genSourcesDir.absolute, genSourcesDir.names + (NonEmpty(f[..|f| - 1]) + [f[|f| - 1] + JAVA_SUFFIX]))
  {
    var f := Fields(DOT, fqn);
    var text := FqnToSourcePath(fqn, SLASH);
    var last := f[|f| - 1] + JAVA_SUFFIX;
    SourcePathText(fqn);
    NonEmptyAppend(f[..|f| - 1], [last]);
    NonEmptySingle(last);
    ResolveRelative(genSourcesDir, text, NonEmpty(f[..|f| - 1]) + [last]);
  }

  lemma ResolveRelative(p: Path, text: JString, names: seq<JString>)
    requires NonEmpty(Fields(SLASH, text)) == names && (text == [] || text[0] != SLASH)
    ensures ResolveText(p, text) == Path(p.absolute, p.names + names)
  {
  }

  /** A name in the default package (`.` then a simple name) gives an
      absolute source path: `/<name>.java`. */
  lemma SourceOutputFileOfDefaultPackage(genSourcesDir: Path, name: JString)
    requires name != [] && SLASH !in name && DOT !in name
    ensures SourceOutputFile(genSourcesDir, [DOT] + name) == Path(true, [name + JAVA_SUFFIX])
  {
    var fqn := [DOT] + name;
    FieldsJoin(DOT, [[], name]);
    assert Join(DOT, [[], name]) == fqn;
    SourcePathText(fqn);
    NonEmptySingle(name + JAVA_SUFFIX);
  }
}
