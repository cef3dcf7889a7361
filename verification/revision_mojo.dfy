/** `RevisionInfoMojo.execute()`: what one run of the goal leaves behind.
    Maven, logging and the real file system are replaced by values: a
    `Config` of the mojo's parameters and a `Host` of what it consults. */
module RevisionMojo {
  import opened Wrappers
  import opened JStrings
  import opened JavaChars
  import opened Paths
  import opened JavaTime
  import opened PropertiesWriter
  import opened PropertiesReader
  import opened PropertiesRoundTrip
  import opened LibInfo
  import opened SourceGenerator
  import opened PackageScan
  import opened OutputPaths
  import opened ClassNames
  import opened GeneratedClass
  import opened MavenProject
  import opened Naming

  const UTF8: JString := Lit("UTF-8")
  const ERROR_PREFIX: JString := Lit("Error creating file: ")

  // ---- execute

  /** The mojo's parameters. `compileSourceRoots` lists each root as the
      directory found there, or `None` when it is missing or not a
      directory. */
  datatype Config = Config(
    packaging: JString,
    genClass: Option<JString>,
    encoding: Option<JString>,
    auto: bool,
    packagePrivate: bool,
    revisionClass: Option<JString>,
    compileSourceRoots: Option<seq<Option<Node>>>,
    project: Project,
    outputDirectory: Path,
    genSourcesDir: Path,
    basedir: Path)

  /** File contents by path. */
  type Files = map<Path, seq<Byte>>

  /** What `execute()` consults: the file system and the git runs `getInfo`
      sees, the time formats, the character tables, which charset names
      `Charset.forName` knows, `String.getBytes(charset)`, the files as they
      are before the run, and which output files can be written (creating
      their parent directories, opening and writing all succeed). */
  datatype Host = Host(
    fs: FileSystem,
    pathVar: Option<JString>,
    git: Runner,
    time: TimeFormats,
    chars: CharTable,
    knownCharset: JString -> bool,
    encode: (JString, JString) -> seq<Byte>,
    files: Files,
    canWrite: Path -> bool)

  /** Why `execute()` threw. */
  datatype Cause =
    | InvalidClassName
    | UnknownEncoding(name: JString)
    | GitFailed
    | NoRevisionInfo
    | ScanFailed
    | WriteFailed(file: Path)
    | RelativizeFailed(file: Path)

  /** What one `execute()` does: nothing for a POM project; a warning and no
      file when git produced errors and no properties; otherwise the
      `MojoExecutionException` it throws or the files it writes. */
  datatype MojoResult =
    | Ignored
    | Warned(warning: JString)
    | Failed(message: JString, cause: Cause, files: Files)
    | Completed(files: Files, source: Option<Path>)

  /** `Files.newOutputStream(p, CREATE, WRITE)` then writing `data`: the file
      is created if missing and overwritten from the start, but not
      truncated, so a longer old content keeps its tail. */
  function WriteFile(files: Files, p: Path, data: seq<Byte>): (r: Files)
    ensures p in r && data <= r[p]
    ensures |r[p]| == if p in files && |files[p]| > |data| then |files[p]| else |data|
    ensures p in files && |files[p]| > |data| ==> r[p][|data|..] == files[p][|data|..]
    ensures forall q :: q != p ==> (q in r <==> q in files)
    ensures forall q :: q != p && q in files ==> r[q] == files[q]
  {
    files[p := data + (if p in files && |files[p]| > |data| then files[p][|data|..] else [])]
  }

  /** Writing an empty content creates a missing file and leaves an existing
      one as it is. */
  lemma TouchKeeps(files: Files, p: Path)
    ensures p in files ==> WriteFile(files, p, []) == files
    ensures p !in files ==> WriteFile(files, p, []) == files[p := []]
  {
    if p in files {
      assert files[p][0..] == files[p];
    }
  }

  /** The `getInfo` environment of the mojo: no preferred git directories. */
  function GitEnvironment(h: Host): Environment
  {
    Environment(h.fs, h.pathVar, Some([]), h.git, h.time)
  }

  /** The checks `execute()` makes before consulting git: an explicit class
      name that `checkGenClass` refuses, an encoding `Charset.forName` does
      not know. */
  function Precheck(c: Config, h: Host): (r: Option<Cause>)
    ensures r.None? <==> (c.genClass.Some? && c.genClass.value != NONE ==> ValidClassName(h.chars, c.genClass.value))
                         && (c.encoding.Some? ==> h.knownCharset(c.encoding.value))
    ensures c.genClass.Some? && c.genClass.value != NONE && !ValidClassName(h.chars, c.genClass.value)
      ==> r == Some(InvalidClassName)
    ensures r.Some? && r.value.UnknownEncoding? ==> c.encoding == Some(r.value.name) && !h.knownCharset(r.value.name)
  {
    if c.genClass.Some? && c.genClass.value != NONE && !ValidClassName(h.chars, c.genClass.value) then
      Some(InvalidClassName)
    else if c.encoding.Some? && !h.knownCharset(c.encoding.value) then
      Some(UnknownEncoding(c.encoding.value))
    else None
  }

  /** `execute()`. */
  function Execute(c: Config, h: Host): MojoResult
  {
    if c.packaging == POM then Ignored
    else if Precheck(c, h).Some? then Failed(ERROR_PREFIX, Precheck(c, h).value, h.files)
    else AfterGit(c, h, GetInfo(GitEnvironment(h), c.outputDirectory, []))
  }

  /** The rest of `execute()` once `getInfo` has answered `info`. */
  function AfterGit(c: Config, h: Host, info: LibInfo.Outcome<Option<Props>>): MojoResult
  {
    var propsFile := PropertiesOutputFile(c.outputDirectory, c.project.groupId, c.project.artifactId);
    match info
    case Threw(errors) => Failed(ERROR_PREFIX + errors, GitFailed, h.files)
    case Returned(None, errors) =>
      if errors != [] then Warned(errors)
      else if !h.canWrite(propsFile) then Failed(ERROR_PREFIX, WriteFailed(propsFile), h.files)
      else Failed(ERROR_PREFIX, NoRevisionInfo, WriteFile(h.files, propsFile, []))
    case Returned(Some(props), errors) =>
      WriteOutputs(c, h, props, errors, GeneratedClassFqn(c.genClass, c.revisionClass, c.auto, c.compileSourceRoots))
  }

  /** The writes of `execute()` once it holds `props` and the class choice
      `fqn` (whose `Failure` is the scan's `IOException`). In source order:
      the properties file is written, its path is logged relative to the
      base directory, the class is chosen, the source path is logged, and
      the source file is written; the first step that throws ends the run
      with what has been written so far. */
  function WriteOutputs(c: Config, h: Host, props: Props, errors: JString, fqn: Result<Option<JString>, ()>): MojoResult
  {
    var propsFile := PropertiesOutputFile(c.outputDirectory, c.project.groupId, c.project.artifactId);
    var written := WriteFile(h.files, propsFile, SavePropertiesFile(props, Some(GENERATED_COMMENT)));
    if !h.canWrite(propsFile) then Failed(ERROR_PREFIX + errors, WriteFailed(propsFile), h.files)
    else if !CanRelativize(c.basedir, propsFile) then Failed(ERROR_PREFIX + errors, RelativizeFailed(propsFile), written)
    else
      match fqn
      case Failure(_) => Failed(ERROR_PREFIX + errors, ScanFailed, written)
      case Success(None) => Completed(written, None)
      case Success(Some(name)) =>
        var path := SourceOutputFile(c.genSourcesDir, name);
        var source := JavaSource(h.chars, h.time, c.packagePrivate, name, props, c.project);
        if !CanRelativize(c.basedir, path) then Failed(ERROR_PREFIX + errors, RelativizeFailed(path), written)
        else if !h.canWrite(path) then Failed(ERROR_PREFIX + errors, WriteFailed(path), written)
        else Completed(WriteFile(written, path, h.encode(c.encoding.GetOr(UTF8), source)), Some(path))
  }

  /** A POM project is left alone. */
  lemma ExecuteIgnoresPom(c: Config, h: Host)
    requires c.packaging == POM
    ensures Execute(c, h) == Ignored
  {
  }

  /** An explicit class name that fails the check, or an unknown encoding,
      stops the run before git is consulted: nothing is written and the
      outcome is the same whatever git would have answered. */
  lemma ExecuteChecksFirst(c: Config, h: Host, git: Runner)
    requires c.packaging != POM
    requires (c.genClass.Some? && c.genClass.value != NONE && !ValidClassName(h.chars, c.genClass.value))
          || (c.encoding.Some? && !h.knownCharset(c.encoding.value))
    ensures Execute(c, h).Failed? && Execute(c, h).files == h.files && Execute(c, h).message == ERROR_PREFIX
    ensures Execute(c, h.(git := git)) == Execute(c, h)
  {
    assert Precheck(c, h.(git := git)) == Precheck(c, h);
  }

  /** Once the checks pass, the run is decided by what `getInfo` answers. */
  lemma ExecuteAfterChecks(c: Config, h: Host)
    requires c.packaging != POM
    requires c.genClass.Some? && c.genClass.value != NONE ==> ValidClassName(h.chars, c.genClass.value)
    requires c.encoding.Some? ==> h.knownCharset(c.encoding.value)
    ensures Execute(c, h) == AfterGit(c, h, GetInfo(GitEnvironment(h), c.outputDirectory, []))
  {
  }

  /** `getInfo` threw: the run fails with the errors gathered so far and
      writes nothing. */
  lemma GitThrowsFails(c: Config, h: Host, errors: JString)
    ensures AfterGit(c, h, Threw(errors)) == Failed(ERROR_PREFIX + errors, GitFailed, h.files)
  {
  }

  /** No revision information and some errors: a warning, and no file. */
  lemma NoInfoWithErrorsWarns(c: Config, h: Host, errors: JString)
    requires errors != []
    ensures AfterGit(c, h, Returned(None, errors)) == Warned(errors)
  {
  }

  /** No revision information and no error: the run fails. When the
      properties file can be opened it is created empty if missing and left
      as it was if it exists, because saving no properties throws before
      anything is written. */
  lemma NoInfoWithoutErrorsFails(c: Config, h: Host)
    ensures var p := PropertiesOutputFile(c.outputDirectory, c.project.groupId, c.project.artifactId); var o := AfterGit(c, h, Returned(None, []));
      && o.Failed? && o.message == ERROR_PREFIX
      && (!h.canWrite(p) ==> o == Failed(ERROR_PREFIX, WriteFailed(p), h.files))
      && (h.canWrite(p) ==> o.cause == NoRevisionInfo)
      && (h.canWrite(p) && p in h.files ==> o.files == h.files)
      && (h.canWrite(p) && p !in h.files ==> o.files == h.files[p := []])
  {
    TouchKeeps(h.files, PropertiesOutputFile(c.outputDirectory, c.project.groupId, c.project.artifactId));
  }

  /** Two writes in a row: the second file holds the second content at its
      start, the first keeps its first write when the paths differ, and no
      other file changes. */
  lemma WriteTwice(files: Files, p: Path, a: seq<Byte>, q: Path, b: seq<Byte>)
    ensures var r := WriteFile(WriteFile(files, p, a), q, b);
      && q in r && b <= r[q]
      && (q != p ==> r[p] == WriteFile(files, p, a)[p])
      && (forall x :: x != p && x != q ==> (x in r <==> x in files) && (x in files ==> r[x] == files[x]))
  {
  }

  /** With revision information, the properties file is written first and
      holds the saved properties at its start (whatever errors git
      reported); if it cannot be written, or its path cannot be logged
      relative to the base directory, the run fails there. A failed scan or
      no class leaves it the only file written. */
  lemma InfoWritesProperties(c: Config, h: Host, props: Props, errors: JString, fqn: Result<Option<JString>, ()>)
    ensures var p := PropertiesOutputFile(c.outputDirectory, c.project.groupId, c.project.artifactId);
      var saved := WriteFile(h.files, p, SavePropertiesFile(props, Some(GENERATED_COMMENT)));
      var o := WriteOutputs(c, h, props, errors, fqn);
      && SavePropertiesFile(props, Some(GENERATED_COMMENT)) <= saved[p]
      && (!h.canWrite(p) ==> o == Failed(ERROR_PREFIX + errors, WriteFailed(p), h.files))
      && (h.canWrite(p) && !CanRelativize(c.basedir, p) ==> o == Failed(ERROR_PREFIX + errors, RelativizeFailed(p), saved))
      && (h.canWrite(p) && CanRelativize(c.basedir, p) ==>
            && (fqn.Failure? ==> o == Failed(ERROR_PREFIX + errors, ScanFailed, saved))
            && (fqn == Success(None) ==> o == Completed(saved, None)))
  {
  }

  /** Once the properties file is written and a class is chosen, the
      source path is logged and the source file written; either can fail,
      leaving only the properties file written. On success the source file
      holds the encoded class text at its start, the properties file keeps
      its content when it lies elsewhere, and nothing else changes. */
  lemma InfoWritesSource(c: Config, h: Host, props: Props, errors: JString, fqn: JString)
    ensures var p := PropertiesOutputFile(c.outputDirectory, c.project.groupId, c.project.artifactId);
      var saved := WriteFile(h.files, p, SavePropertiesFile(props, Some(GENERATED_COMMENT)));
      var path := SourceOutputFile(c.genSourcesDir, fqn);
      var o := WriteOutputs(c, h, props, errors, Success(Some(fqn)));
      h.canWrite(p) && CanRelativize(c.basedir, p) ==>
      && (!CanRelativize(c.basedir, path) ==> o == Failed(ERROR_PREFIX + errors, RelativizeFailed(path), saved))
      && (CanRelativize(c.basedir, path) && !h.canWrite(path) ==> o == Failed(ERROR_PREFIX + errors, WriteFailed(path), saved))
    ensures var p := PropertiesOutputFile(c.outputDirectory, c.project.groupId, c.project.artifactId);
      var saved := WriteFile(h.files, p, SavePropertiesFile(props, Some(GENERATED_COMMENT)));
      var path := SourceOutputFile(c.genSourcesDir, fqn);
      var bytes := h.encode(c.encoding.GetOr(UTF8), JavaSource(h.chars, h.time, c.packagePrivate, fqn, props, c.project));
      var files := WriteFile(saved, path, bytes);
      h.canWrite(p) && CanRelativize(c.basedir, p) && CanRelativize(c.basedir, path) && h.canWrite(path) ==>
      && WriteOutputs(c, h, props, errors, Success(Some(fqn))) == Completed(files, Some(path))
      && bytes <= files[path]
      && (path != p ==> files[p] == saved[p])
      && (forall q :: q != p && q != path ==>
            (q in files <==> q in h.files) && (q in h.files ==> files[q] == h.files[q]))
  {
    var p := PropertiesOutputFile(c.outputDirectory, c.project.groupId, c.project.artifactId);
    var bytes := h.encode(c.encoding.GetOr(UTF8), JavaSource(h.chars, h.time, c.packagePrivate, fqn, props, c.project));
    WriteTwice(h.files, p, SavePropertiesFile(props, Some(GENERATED_COMMENT)), SourceOutputFile(c.genSourcesDir, fqn), bytes);
  }

  /** A source file directly under the only source root makes the class
      `.RevisionInfo`, written to `/RevisionInfo.java`; where that file
      cannot be written the run fails, the properties file already written. */
  lemma DefaultPackageSourceUnwritable(c: Config, h: Host, props: Props, errors: JString, root: Node, i: nat)
    requires root.Dir? && root.readable && i < |root.children|
    requires root.children[i].File? && IsSourceName(root.children[i].name)
    requires c.genClass == None && c.revisionClass == None && c.auto && c.compileSourceRoots == Some([Some(root)])
    requires c.basedir.absolute
    requires h.canWrite(PropertiesOutputFile(c.outputDirectory, c.project.groupId, c.project.artifactId))
    requires CanRelativize(c.basedir, PropertiesOutputFile(c.outputDirectory, c.project.groupId, c.project.artifactId))
    requires !h.canWrite(Path(true, [REVISION_INFO + JAVA_SUFFIX]))
    ensures var p := PropertiesOutputFile(c.outputDirectory, c.project.groupId, c.project.artifactId);
      AfterGit(c, h, Returned(Some(props), errors))
        == Failed(ERROR_PREFIX + errors, WriteFailed(Path(true, [REVISION_INFO + JAVA_SUFFIX])),
                  WriteFile(h.files, p, SavePropertiesFile(props, Some(GENERATED_COMMENT))))
  {
    DefaultPackageClassAtRoot(c.genSourcesDir, root, i);
  }

  /** A relative output directory under an absolute base directory: the
      properties file is written, then logging its path relative to the
      base directory throws and the run fails. */
  lemma RelativeOutputDirectoryFails(c: Config, h: Host, props: Props, errors: JString, fqn: Result<Option<JString>, ()>)
    requires SLASH !in c.project.groupId && SLASH !in c.project.artifactId
    requires c.basedir.absolute && !c.outputDirectory.absolute
    requires h.canWrite(PropertiesOutputFile(c.outputDirectory, c.project.groupId, c.project.artifactId))
    ensures var p := PropertiesOutputFile(c.outputDirectory, c.project.groupId, c.project.artifactId);
      var o := WriteOutputs(c, h, props, errors, fqn);
      && o == Failed(ERROR_PREFIX + errors, RelativizeFailed(p), o.files)
      && p in o.files && SavePropertiesFile(props, Some(GENERATED_COMMENT)) <= o.files[p]
  {
    PropertiesOutputFileNames(c.outputDirectory, c.project.groupId, c.project.artifactId);
  }

  /** After the checks, revision information leads to `WriteOutputs` with
      the class `generatedClassFqn()` chooses. */
  lemma InfoLeadsToWrites(c: Config, h: Host, props: Props, errors: JString)
    ensures AfterGit(c, h, Returned(Some(props), errors))
         == WriteOutputs(c, h, props, errors, GeneratedClassFqn(c.genClass, c.revisionClass, c.auto, c.compileSourceRoots))
  {
  }

  lemma GeneratedCommentOneLine()
    ensures LF !in GENERATED_COMMENT && CR !in GENERATED_COMMENT
  {
    LitAvoids("Generated by com.mastfrog:", LF);
    LitAvoids("Generated by com.mastfrog:", CR);
    LitAvoids("revision-info-plugin", LF);
    LitAvoids("revision-info-plugin", CR);
  }

  /** A fresh properties file, once it can be written, read back with
      `Properties.load` gives every property, values stripped of leading
      spaces, whatever fails after it; the source file does not overwrite
      it when it lies elsewhere. */
  lemma InfoWritesLoadable(c: Config, h: Host, props: Props, errors: JString, fqn: Result<Option<JString>, ()>)
    requires PropertiesOutputFile(c.outputDirectory, c.project.groupId, c.project.artifactId) !in h.files
    ensures var p := PropertiesOutputFile(c.outputDirectory, c.project.groupId, c.project.artifactId);
      var o := WriteOutputs(c, h, props, errors, fqn);
      && (o.Completed? || o.Failed?)
      && (p in o.files <==> h.canWrite(p))
      && (h.canWrite(p) && (o.Failed? || o.source.None? || o.source.value != p) ==>
            Load(o.files[p]) == Some(map k | k in props :: StripLeadingSpaces(props[k])))
  {
    var p := PropertiesOutputFile(c.outputDirectory, c.project.groupId, c.project.artifactId);
    var saved := SavePropertiesFile(props, Some(GENERATED_COMMENT));
    InfoWritesProperties(c, h, props, errors, fqn);
    if fqn.Success? && fqn.value.Some? {
      InfoWritesSource(c, h, props, errors, fqn.value.value);
    }
    assert WriteFile(h.files, p, saved)[p] == saved;
    GeneratedCommentOneLine();
    SaveThenLoad(props, Some(GENERATED_COMMENT));
  }
}
