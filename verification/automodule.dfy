/** `AutomoduleInjectMojo`: the automatic module name derived from a
    project's coordinates, and the project property it is stored in unless
    the project has its own `module-info.java`. */
module AutoModule {
  import opened Wrappers
  import opened JStrings
  import opened JavaChars
  import opened Collections
  import opened Paths
  import opened ClassNames
  import opened MavenProject

  // ---- what.split("[\\._-]+")

  /** The units the class `[\._-]` matches. */
  predicate IsSeparator(u: Unit)
  {
    u == DOT || u == UNDERSCORE || u == DASH
  }

  predicate NoSeparator(s: JString)
  {
    forall i :: 0 <= i < |s| ==> !IsSeparator(s[i])
  }

  predicate AllSeparators(s: JString)
  {
    forall i :: 0 <= i < |s| ==> IsSeparator(s[i])
  }

  /** The pieces of `s` between maximal runs of separators, and those runs.
      A leading run leaves an empty first piece and a trailing run an empty
      last piece; every other piece is non-empty. */
  function RunSplit(s: JString): (r: (seq<JString>, seq<JString>))
    ensures |r.0| == |r.1| + 1
    ensures forall i :: 0 <= i < |r.0| ==> NoSeparator(r.0[i])
    ensures forall i :: 0 <= i < |r.1| ==> r.1[i] != [] && AllSeparators(r.1[i])
    ensures forall i :: 0 < i < |r.0| - 1 ==> r.0[i] != []
    ensures s != [] && IsSeparator(s[|s| - 1]) ==> r.0[|r.0| - 1] == [] && |r.1| > 0
    ensures s != [] && !IsSeparator(s[|s| - 1]) ==> r.0[|r.0| - 1] != []
    ensures NoSeparator(s) ==> r.1 == []
    decreases |s|
  {
    if s == [] then ([[]], [])
    else
      var t := s[..|s| - 1];
      var c := s[|s| - 1];
      var (ps, ds) := RunSplit(t);
      assert NoSeparator(s) ==> NoSeparator(t);
      if !IsSeparator(c) then (ps[..|ps| - 1] + [ps[|ps| - 1] + [c]], ds)
      else if t != [] && IsSeparator(t[|t| - 1]) then (ps, ds[..|ds| - 1] + [ds[|ds| - 1] + [c]])
      else (ps + [[]], ds + [[c]])
  }

  /** The pieces with the runs put back between them. */
  function Interleave(ps: seq<JString>, ds: seq<JString>): JString
    requires |ps| == |ds| + 1
    decreases |ds|
  {
    if ds == [] then ps[0]
    else Interleave(ps[..|ps| - 1], ds[..|ds| - 1]) + ds[|ds| - 1] + ps[|ps| - 1]
  }

  lemma InterleaveExtendLast(ps: seq<JString>, ds: seq<JString>, c: Unit)
    requires |ps| == |ds| + 1
    ensures Interleave(ps[..|ps| - 1] + [ps[|ps| - 1] + [c]], ds) == Interleave(ps, ds) + [c]
  {
    var qs := ps[..|ps| - 1] + [ps[|ps| - 1] + [c]];
    if ds != [] {
      assert qs[..|qs| - 1] == ps[..|ps| - 1];
    }
  }

  lemma InterleaveExtendRun(ps: seq<JString>, ds: seq<JString>, c: Unit)
    requires |ps| == |ds| + 1 && ds != [] && ps[|ps| - 1] == []
    ensures Interleave(ps, ds[..|ds| - 1] + [ds[|ds| - 1] + [c]]) == Interleave(ps, ds) + [c]
  {
    var es := ds[..|ds| - 1] + [ds[|ds| - 1] + [c]];
    assert es[..|es| - 1] == ds[..|ds| - 1];
  }

  lemma InterleaveNewRun(ps: seq<JString>, ds: seq<JString>, c: Unit)
    requires |ps| == |ds| + 1
    ensures Interleave(ps + [[]], ds + [[c]]) == Interleave(ps, ds) + [c]
  {
    assert (ps + [[]])[..|ps|] == ps;
    assert (ds + [[c]])[..|ds|] == ds;
  }

  /** Putting the runs back between the pieces gives back the text. */
  lemma {:induction false} RunSplitRestores(s: JString)
    ensures Interleave(RunSplit(s).0, RunSplit(s).1) == s
    decreases |s|
  {
    if s != [] {
      var t := s[..|s| - 1];
      var c := s[|s| - 1];
      var (ps, ds) := RunSplit(t);
      RunSplitRestores(t);
      assert s == t + [c];
      if !IsSeparator(c) {
        InterleaveExtendLast(ps, ds, c);
      } else if t != [] && IsSeparator(t[|t| - 1]) {
        InterleaveExtendRun(ps, ds, c);
      } else {
        InterleaveNewRun(ps, ds, c);
      }
    }
  }

  /** `xs` without its trailing empty strings. */
  function DropTrailingEmpty(xs: seq<JString>): (r: seq<JString>)
    ensures r <= xs
    ensures r != [] ==> r[|r| - 1] != []
    ensures forall i :: |r| <= i < |xs| ==> xs[i] == []
    decreases |xs|
  {
    if xs == [] || xs[|xs| - 1] != [] then xs else DropTrailingEmpty(xs[..|xs| - 1])
  }

  /** `what.split("[\\._-]+")`: `[what]` when nothing matches (the empty
      text included), otherwise the pieces with the trailing empty ones
      removed. */
  function RegexSplit(s: JString): (r: seq<JString>)
    ensures forall i :: 0 <= i < |r| ==> NoSeparator(r[i])
    ensures NoSeparator(s) ==> r == [s]
  {
    if s == [] then [[]]
    else
      var ps := RunSplit(s).0;
      assert NoSeparator(s) ==> ps == [s] by {
        if NoSeparator(s) {
          RunSplitRestores(s);
        }
      }
      DropTrailingEmpty(ps)
  }

  // ---- convert and splitAndConvert

  /** `convert(what)`: the units of `what` that pass the test for their
      index, in order. */
  function Convert(ct: CharTable, s: JString): (r: JString)
    ensures |r| <= |s|
    ensures forall i :: 0 <= i < |r| ==> r[i] in s
    decreases |s|
  {
    if s == [] then []
    else
      var t := s[..|s| - 1];
      var r := Convert(ct, t) + (if LegalAt(ct, s, |s| - 1) then [s[|s| - 1]] else []);
      assert forall i :: 0 <= i < |t| ==> t[i] in s;
      r
  }

  lemma LegalAtPrefix(ct: CharTable, s: JString, n: nat, i: nat)
    requires i < n <= |s|
    ensures LegalAt(ct, s[..n], i) == LegalAt(ct, s, i)
  {
  }

  /** `convert` returns its argument exactly when it is a valid name
      segment, and otherwise something shorter. */
  lemma {:induction false} ConvertUnchangedIff(ct: CharTable, s: JString)
    ensures Convert(ct, s) == s <==> ValidNamePart(ct, s)
    ensures !ValidNamePart(ct, s) ==> |Convert(ct, s)| < |s|
    decreases |s|
  {
    if s != [] {
      var t := s[..|s| - 1];
      ConvertUnchangedIff(ct, t);
      ValidNamePartSnoc(ct, s);
      assert s == t + [s[|s| - 1]];
    }
  }

  /** A segment is valid exactly when all but its last unit are, and the
      last unit may stand at its index. */
  lemma ValidNamePartSnoc(ct: CharTable, s: JString)
    requires s != []
    ensures ValidNamePart(ct, s) <==> ValidNamePart(ct, s[..|s| - 1]) && LegalAt(ct, s, |s| - 1)
  {
    var t := s[..|s| - 1];
    forall i | 0 <= i < |t|
      ensures LegalAt(ct, t, i) == LegalAt(ct, s, i)
    {
      LegalAtPrefix(ct, s, |s| - 1, i);
    }
  }

  /** An index-0 unit that cannot start an identifier is dropped, and a later
      one that can continue one is kept: "1a" gives "a" and "12" gives "2". */
  lemma ConvertExamples()
    ensures Convert(Ascii, Lit("1a")) == Lit("a")
    ensures Convert(Ascii, Lit("12")) == Lit("2")
  {
    assert Lit("1a") == [0x31, 0x61] && Lit("a") == [0x61];
    assert Lit("12") == [0x31, 0x32] && Lit("2") == [0x32];
    assert [0x31, 0x61][..1] == [0x31];
    assert [0x31, 0x32][..1] == [0x31];
  }

  /** So `convert` need not give a valid segment, and is not idempotent:
      "12" gives "2", which gives "". */
  lemma ConvertNotIdempotent()
    ensures !ValidNamePart(Ascii, Convert(Ascii, Lit("12")))
    ensures Convert(Ascii, Convert(Ascii, Lit("12"))) == []
  {
    ConvertExamples();
    assert !LegalAt(Ascii, Lit("2"), 0);
  }

  /** `convert` applied to every piece. */
  function ConvertAll(ct: CharTable, xs: seq<JString>): (r: seq<JString>)
    ensures |r| == |xs| && forall i :: 0 <= i < |xs| ==> r[i] == Convert(ct, xs[i])
  {
    seq(|xs|, i requires 0 <= i < |xs| => Convert(ct, xs[i]))
  }

  /** The segments `splitAndConvert` keeps: the non-empty converted pieces. */
  function Segments(ct: CharTable, s: JString): (r: seq<JString>)
    ensures forall k :: 0 <= k < |r| ==> r[k] != [] && NoSeparator(r[k])
  {
    var xs := ConvertAll(ct, RegexSplit(s));
    assert forall i :: 0 <= i < |xs| ==> NoSeparator(xs[i]) by {
      forall i, j | 0 <= i < |xs| && 0 <= j < |xs[i]|
        ensures !IsSeparator(xs[i][j])
      {
        var piece := RegexSplit(s)[i];
        assert xs[i][j] in piece;
      }
    }
    NonEmpty(xs)
  }

  /** `splitAndConvert(what)`: the kept segments joined by single dots. */
  function SplitAndConvert(ct: CharTable, s: JString): JString
  {
    Join(DOT, Segments(ct, s))
  }

  lemma {:induction false} JoinAvoids(d: Unit, xs: seq<JString>, u: Unit)
    requires u != d && forall i :: 0 <= i < |xs| ==> u !in xs[i]
    ensures u !in Join(d, xs)
    decreases |xs|
  {
    if |xs| > 1 {
      JoinAvoids(d, xs[1..], u);
    }
  }

  /** The result's dot-separated fields are the kept segments: none is
      empty, there is no leading or trailing dot, and no `_` or `-` is
      left. */
  lemma SplitAndConvertFields(ct: CharTable, s: JString)
    ensures var r := SplitAndConvert(ct, s);
      && (r == [] <==> Segments(ct, s) == [])
      && (r != [] ==> Split(DOT, r) == Segments(ct, s) && r[0] != DOT && r[|r| - 1] != DOT)
      && (forall k :: 0 <= k < |Split(DOT, r)| ==> Split(DOT, r)[k] != [])
      && UNDERSCORE !in r && DASH !in r
  {
    var xs := Segments(ct, s);
    var r := SplitAndConvert(ct, s);
    forall i | 0 <= i < |xs|
      ensures DOT !in xs[i] && UNDERSCORE !in xs[i] && DASH !in xs[i]
    {
      assert NoSeparator(xs[i]);
    }
    JoinAvoids(DOT, xs, UNDERSCORE);
    JoinAvoids(DOT, xs, DASH);
    if xs != [] {
      assert xs[0][0] in xs[0];
      assert r[0] == xs[0][0];
      var last := xs[|xs| - 1];
      assert last[|last| - 1] in last;
      JoinLastChar(DOT, xs);
      SplitJoin(DOT, xs);
    }
  }

  /** When every piece is already a valid segment, `splitAndConvert` only
      turns each separator run into one dot. */
  lemma SplitAndConvertValid(ct: CharTable, s: JString)
    requires forall i :: 0 <= i < |RegexSplit(s)| ==> ValidNamePart(ct, RegexSplit(s)[i])
    ensures SplitAndConvert(ct, s) == Join(DOT, NonEmpty(RegexSplit(s)))
  {
    var ps := RegexSplit(s);
    forall i | 0 <= i < |ps|
      ensures Convert(ct, ps[i]) == ps[i]
    {
      ConvertUnchangedIff(ct, ps[i]);
    }
    assert ConvertAll(ct, ps) == ps;
  }

  /** Replacing `-` by `.` changes only the separator runs, not the pieces,
      so it does not change the result of `splitAndConvert`. */
  lemma {:induction false} RunSplitReplaceDash(s: JString)
    ensures RunSplit(Replace(s, DASH, DOT)).0 == RunSplit(s).0
    decreases |s|
  {
    if s != [] {
      var t := s[..|s| - 1];
      var u := Replace(s, DASH, DOT);
      assert u[..|u| - 1] == Replace(t, DASH, DOT);
      RunSplitReplaceDash(t);
      assert IsSeparator(u[|u| - 1]) == IsSeparator(s[|s| - 1]);
      if t != [] {
        assert IsSeparator(u[|t| - 1]) == IsSeparator(t[|t| - 1]);
      }
    }
  }

  lemma SplitAndConvertReplaceDash(ct: CharTable, s: JString)
    ensures SplitAndConvert(ct, Replace(s, DASH, DOT)) == SplitAndConvert(ct, s)
  {
    RunSplitReplaceDash(s);
  }

  // ---- autoModuleName

  const COM_MASTFROG: JString := Lit("com.mastfrog")
  const UTIL_PREFIX: JString := Lit("util-")
  const UTIL_FUNCTION: JString := Lit("util-function")

  /** The artifact id the name is built from: Mastfrog's own `util-`
      libraries, except `util-function`, lose that prefix. */
  function ArtifactPart(groupId: JString, artifactId: JString): (r: JString)
    ensures groupId != COM_MASTFROG || !(UTIL_PREFIX <= artifactId) || artifactId == UTIL_FUNCTION ==> r == artifactId
    ensures groupId == COM_MASTFROG && UTIL_PREFIX <= artifactId && artifactId != UTIL_FUNCTION
      ==> artifactId == UTIL_PREFIX + r
  {
    if groupId == COM_MASTFROG && UTIL_PREFIX <= artifactId && artifactId != UTIL_FUNCTION then
      artifactId[|UTIL_PREFIX|..]
    else artifactId
  }

  /** `autoModuleName(gid, artifactId)`. */
  function AutoModuleName(ct: CharTable, groupId: JString, artifactId: JString,
                          prefix: Option<JString>, suffix: Option<JString>): JString
  {
    var artifact := Replace(ArtifactPart(groupId, artifactId), DASH, DOT);
    var name := SplitAndConvert(ct, groupId) + [DOT] + SplitAndConvert(ct, artifact);
    var prefixed := if prefix.Some? then prefix.value + name else name;
    if suffix.Some? then prefixed + suffix.value else prefixed
  }

  lemma {:induction false} JoinAppend(d: Unit, xs: seq<JString>, ys: seq<JString>)
    requires xs != [] && ys != []
    ensures Join(d, xs) + [d] + Join(d, ys) == Join(d, xs + ys)
    decreases |xs|
  {
    assert (xs + ys)[1..] == xs[1..] + ys;
    if |xs| > 1 {
      JoinAppend(d, xs[1..], ys);
    }
  }

  /** Without prefix or suffix, and when both coordinates keep a segment,
      the dot-separated fields of the name are the group's segments
      followed by the artifact's. */
  lemma AutoModuleNameFields(ct: CharTable, groupId: JString, artifactId: JString)
    requires Segments(ct, groupId) != [] && Segments(ct, ArtifactPart(groupId, artifactId)) != []
    ensures Split(DOT, AutoModuleName(ct, groupId, artifactId, None, None))
         == Segments(ct, groupId) + Segments(ct, ArtifactPart(groupId, artifactId))
  {
    var xs := Segments(ct, groupId);
    var artifact := ArtifactPart(groupId, artifactId);
    var ys := Segments(ct, artifact);
    SplitAndConvertReplaceDash(ct, artifact);
    JoinAppend(DOT, xs, ys);
    var zs := xs + ys;
    forall i | 0 <= i < |zs|
      ensures DOT !in zs[i]
    {
      assert NoSeparator(zs[i]);
    }
    SplitJoin(DOT, zs);
  }

  /** A prefix and a suffix are put around the name as given. */
  lemma AutoModuleNameAffixes(ct: CharTable, groupId: JString, artifactId: JString, prefix: JString, suffix: JString)
    ensures AutoModuleName(ct, groupId, artifactId, Some(prefix), Some(suffix))
         == prefix + AutoModuleName(ct, groupId, artifactId, None, None) + suffix
  {
  }

  /** A group id that keeps no segment gives a name opening with a dot, which
      is not a valid module name: for example the group id "-". */
  lemma EmptyGroupLeadingDot(ct: CharTable, artifactId: JString)
    ensures AutoModuleName(ct, Lit("-"), artifactId, None, None)[0] == DOT
  {
    var g := Lit("-");
    assert g == [DASH];
    assert RunSplit(g).0 == [[], []];
    assert RegexSplit(g) == [];
  }

  /** `util-strings` of `com.mastfrog` is built from `strings`; the
      `util-function` library keeps its full name. */
  lemma UtilLibraries(rest: JString)
    requires UTIL_PREFIX + rest != UTIL_FUNCTION
    ensures ArtifactPart(COM_MASTFROG, UTIL_PREFIX + rest) == rest
    ensures ArtifactPart(COM_MASTFROG, UTIL_FUNCTION) == UTIL_FUNCTION
  {
    assert (UTIL_PREFIX + rest)[|UTIL_PREFIX|..] == rest;
  }

  // ---- execute

  const SRC: JString := Lit("src")
  const MAIN: JString := Lit("main")
  const JAVA: JString := Lit("java")
  const MODULE_INFO: JString := Lit("module-info.java")

  /** The mojo's parameters. */
  datatype Config = Config(
    skip: bool,
    propertyName: JString,
    prefix: Option<JString>,
    suffix: Option<JString>,
    packaging: JString,
    basedir: Path,
    project: Project)

  /** `src/main/java/module-info.java` under the project directory. */
  function ModuleInfoFile(basedir: Path): (r: Path)
    ensures r == Path(basedir.absolute, basedir.names + [SRC, MAIN, JAVA, MODULE_INFO])
  {
    var r := Child(Child(Child(Child(basedir, SRC), MAIN), JAVA), MODULE_INFO);
    assert r.names == basedir.names + [SRC, MAIN, JAVA, MODULE_INFO];
    r
  }

  /** The project properties after `execute()`. */
  function Execute(c: Config, ct: CharTable, fs: FileSystem, properties: map<JString, JString>)
    : (r: map<JString, JString>)
    ensures var injects := !c.skip && c.packaging != POM && !Exists(fs, ModuleInfoFile(c.basedir));
      && (injects ==> (c.propertyName in r
                       && r[c.propertyName] == AutoModuleName(ct, c.project.groupId, c.project.artifactId, c.prefix, c.suffix)))
      && (!injects ==> r == properties)
      && r.Keys == properties.Keys + (if injects then {c.propertyName} else {})
      && (forall k :: k in properties && k != c.propertyName ==> r[k] == properties[k])
  {
    if !c.skip && c.packaging != POM && !Exists(fs, ModuleInfoFile(c.basedir)) then
      properties[c.propertyName := AutoModuleName(ct, c.project.groupId, c.project.artifactId, c.prefix, c.suffix)]
    else properties
  }
}
