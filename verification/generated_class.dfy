/** Which class `RevisionInfoMojo` generates: the configured name, the
    project's `revisionClass` property, or one found by scanning the
    source roots. */
module GeneratedClass {
  import opened Wrappers
  import opened JStrings
  import opened Naming
  import opened Paths
  import opened PackageScan
  import opened OutputPaths

  const NONE: JString := Lit("none")
  const REVISION_INFO: JString := Lit("RevisionInfo")

  /** `generatedClassFqn()`: the explicit class unless it is absent or
      "none", then the `revisionClass` project property under the same rule,
      then, with `auto`, `RevisionInfo` in the least package holding a
      source file. `Failure` is the scan's `IOException`. */
  function GeneratedClassFqn(genClass: Option<JString>, revisionClass: Option<JString>, auto: bool,
                             roots: Option<seq<Option<Node>>>): (r: Result<Option<JString>, ()>)
    ensures genClass.Some? && genClass.value != NONE ==> r == Success(genClass)
    ensures (genClass.None? || genClass == Some(NONE)) && revisionClass.Some? && revisionClass.value != NONE
      ==> r == Success(revisionClass)
    ensures (genClass.None? || genClass == Some(NONE)) && (revisionClass.None? || revisionClass == Some(NONE)) ==>
      && (!auto ==> r == Success(None))
      && (auto ==> (match ScanForLeastPackage(roots)
                     case Failure(_) => r.Failure?
                     case Success(None) => r == Success(None)
                     case Success(Some(p)) => r == Success(Some(p + [DOT] + REVISION_INFO))))
  {
    var g := if genClass.None? || genClass == Some(NONE) then revisionClass else genClass;
    var result := if g == Some(NONE) then None else g;
    if result.None? && auto then
      match ScanForLeastPackage(roots)
      case Failure(_) => Failure(())
      case Success(None) => Success(None)
      case Success(Some(p)) => Success(Some(p + [DOT] + REVISION_INFO))
    else Success(result)
  }

  /** With sources in the default package and no class configured, the
      class is `.RevisionInfo`, and its source path `/RevisionInfo.java` is
      absolute: it replaces the generated-sources directory instead of
      extending it. */
  lemma DefaultPackageClassAtRoot(genSourcesDir: Path, root: Node, i: nat)
    requires root.Dir? && root.readable && i < |root.children|
    requires root.children[i].File? && IsSourceName(root.children[i].name)
    ensures GeneratedClassFqn(None, None, true, Some([Some(root)])) == Success(Some([DOT] + REVISION_INFO))
    ensures SourceOutputFile(genSourcesDir, [DOT] + REVISION_INFO) == Path(true, [REVISION_INFO + JAVA_SUFFIX])
  {
    SourceAtRootGivesDefaultPackage(root, i);
    AutoClassInDefaultPackage(Some([Some(root)]));
    RevisionInfoSimple();
    SourceOutputFileOfDefaultPackage(genSourcesDir, REVISION_INFO);
  }

  /** A scan that finds the default package names `.RevisionInfo`. */
  lemma AutoClassInDefaultPackage(roots: Option<seq<Option<Node>>>)
    requires ScanForLeastPackage(roots) == Success(Some([]))
    ensures GeneratedClassFqn(None, None, true, roots) == Success(Some([DOT] + REVISION_INFO))
  {
    assert [] + [DOT] + REVISION_INFO == [DOT] + REVISION_INFO;
  }

  lemma RevisionInfoSimple()
    ensures REVISION_INFO != [] && SLASH !in REVISION_INFO && DOT !in REVISION_INFO
  {
    LitAvoids("RevisionInfo", SLASH);
    LitAvoids("RevisionInfo", DOT);
  }
}
