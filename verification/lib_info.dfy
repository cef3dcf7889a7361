/** `LibInfo`: finding the repository and the `git` binary, running git
    twice, and turning what it printed into the revision properties. The
    processes, the environment and the file system are inputs. */
module LibInfo {
  import opened Wrappers
  import opened JStrings
  import opened Collections
  import opened Paths
  import opened JavaTime
  import opened PropertiesWriter
  import opened GitOutput

  const STATUS_CLEAN: JString := Lit("clean")
  const STATUS_DIRTY: JString := Lit("dirty")
  const STATUS_UNKNOWN: JString := Lit("unknown")

  const GIT_BINARY_NAME: JString := Lit("git")
  const GIT_EXE_NAME: JString := Lit("git.exe")
  const GIT_METADATA_NAME: JString := Lit(".git")

  /** The arguments of the two git runs. */
  const LOG_ARGS: seq<JString> := [Lit("--no-pager"), Lit("log"), Lit("-1"),
    Lit("--format=format:%h %H %cd"), Lit("--date=iso"), Lit("--no-color"), Lit("--encoding=utf8")]
  const STATUS_ARGS: seq<JString> := [Lit("status"), Lit("--porcelain")]

  /** `File.pathSeparatorChar` on Unix. */
  const PATH_SEPARATOR: Unit := COLON

  /** How one git process ended: its exit code and its two output streams,
      already decoded, or the 30 second wait running out. */
  datatype Exec = Exited(code: int, stdout: JString, stderr: JString) | TimedOut

  /** What git does when run with a command line in a directory. */
  type Runner = (seq<JString>, Path) -> Exec

  /** A step that appends to the shared `errors` buffer: it returns a value,
      or throws, and either way leaves the buffer as given. */
  datatype Outcome<T> = Returned(value: T, errors: JString) | Threw(errors: JString)

  // ---- searchPath, systemPath and searchGitBinary

  /** The existing directories among the parsed entries, in order. */
  function ExistingDirectories(fs: FileSystem, entries: seq<JString>): (r: seq<Path>)
    ensures forall q :: q in r ==> IsDirectory(fs, q)
    decreases |entries|
  {
    if entries == [] then []
    else
      var p := ParsePath(entries[0]);
      (if IsDirectory(fs, p) then [p] else []) + ExistingDirectories(fs, entries[1..])
  }

  /** The kept directories are exactly the entries that name an existing
      directory. */
  lemma {:induction false} ExistingDirectoriesMembers(fs: FileSystem, entries: seq<JString>, q: Path)
    ensures q in ExistingDirectories(fs, entries) <==>
      IsDirectory(fs, q) && exists e :: e in entries && q == ParsePath(e)
    decreases |entries|
  {
    if entries != [] {
      ExistingDirectoriesMembers(fs, entries[1..], q);
      assert forall e :: e in entries <==> e == entries[0] || e in entries[1..];
    }
  }

  /** `systemPath()`: the existing directories named by `PATH`, each once,
      in order of first mention; nothing when `PATH` is unset. */
  function SystemPath(fs: FileSystem, pathVar: Option<JString>): (r: seq<Path>)
    ensures pathVar.None? ==> r == []
  {
    match pathVar
    case None => []
    case Some(v) => Dedup(ExistingDirectories(fs, Split(PATH_SEPARATOR, v)))
  }

  /** The system path holds exactly the existing directories `PATH` names,
      without repetition. */
  lemma SystemPathMembers(fs: FileSystem, v: JString, p: Path)
    ensures p in SystemPath(fs, Some(v)) <==>
      IsDirectory(fs, p) && exists e :: e in Split(PATH_SEPARATOR, v) && p == ParsePath(e)
  {
    DirectoriesAmong(fs, Split(PATH_SEPARATOR, v), p);
  }

  lemma DirectoriesAmong(fs: FileSystem, entries: seq<JString>, p: Path)
    ensures p in Dedup(ExistingDirectories(fs, entries)) <==>
      IsDirectory(fs, p) && exists e :: e in entries && p == ParsePath(e)
  {
    ExistingDirectoriesMembers(fs, entries, p);
  }

  /** `searchPath()`: the preferred directories, then the system path, each
      directory once; the system path alone when there is no preferred list
      or the system path is empty. */
  function SearchPath(fs: FileSystem, preferred: Option<seq<Path>>, pathVar: Option<JString>): (r: seq<Path>)
  {
    var system := SystemPath(fs, pathVar);
    if preferred.Some? && system != [] then Concatenate(preferred.value, system) else system
  }

  /** Membership and order of the search path. */
  lemma SearchPathMembers(fs: FileSystem, preferred: Option<seq<Path>>, pathVar: Option<JString>, p: Path)
    ensures var system := SystemPath(fs, pathVar);
      p in SearchPath(fs, preferred, pathVar) <==> p in system || (preferred.Some? && system != [] && p in preferred.value)
    ensures var r := SearchPath(fs, preferred, pathVar); var system := SystemPath(fs, pathVar);
      preferred.Some? && system != [] ==>
        forall i, j :: 0 <= i < j < |r| ==> FirstIndex(r[i], preferred.value + system) < FirstIndex(r[j], preferred.value + system)
  {
    var system := SystemPath(fs, pathVar);
    var r := SearchPath(fs, preferred, pathVar);
    if preferred.Some? && system != [] && (p in system || p in preferred.value) {
      if p in system {
        var i :| 0 <= i < |system| && system[i] == p;
      } else {
        var i :| 0 <= i < |preferred.value| && preferred.value[i] == p;
      }
    }
  }

  /** The file `searchGitBinary` tries in `dir`: `git`, or `git.exe` when
      there is no `git`. */
  function Candidate(fs: FileSystem, dir: Path): Path
  {
    var git := Child(dir, GIT_BINARY_NAME);
    if Exists(fs, git) then git else Child(dir, GIT_EXE_NAME)
  }

  /** `dir` is where `searchGitBinary` stops. */
  predicate HoldsGit(fs: FileSystem, dir: Path)
  {
    IsDirectory(fs, dir) && Exists(fs, Candidate(fs, dir)) && CanExecute(fs, Candidate(fs, dir))
  }

  /** `searchGitBinary(paths)`: the candidate of the first directory that
      holds an executable git, or `None`. */
  function SearchGitBinary(fs: FileSystem, paths: seq<Path>): (r: Option<Path>)
    ensures r.None? <==> forall i :: 0 <= i < |paths| ==> !HoldsGit(fs, paths[i])
    ensures r.Some? ==> exists i :: (0 <= i < |paths| && HoldsGit(fs, paths[i]) && r.value == Candidate(fs, paths[i])
      && forall j :: 0 <= j < i ==> !HoldsGit(fs, paths[j]))
    decreases |paths|
  {
    if paths == [] then None
    else if HoldsGit(fs, paths[0]) then Some(Candidate(fs, paths[0]))
    else
      var r := SearchGitBinary(fs, paths[1..]);
      assert forall i :: 0 < i < |paths| ==> paths[i] == paths[1..][i - 1];
      if r.Some? then
        var i :| 0 <= i < |paths[1..]| && HoldsGit(fs, paths[1..][i]) && r.value == Candidate(fs, paths[1..][i])
          && forall j :: 0 <= j < i ==> !HoldsGit(fs, paths[1..][j]);
        assert paths[i + 1] == paths[1..][i];
        r
      else
        r
  }

  /** A `git` that exists but cannot be executed hides `git.exe`: the
      directory is passed over. */
  lemma NoFallbackFromUnexecutableGit(fs: FileSystem, dir: Path)
    requires Exists(fs, Child(dir, GIT_BINARY_NAME)) && !CanExecute(fs, Child(dir, GIT_BINARY_NAME))
    ensures !HoldsGit(fs, dir)
  {
  }

  /** `git.exe` is used exactly when there is no `git`. */
  lemma ExeOnlyWithoutGit(fs: FileSystem, dir: Path)
    ensures Candidate(fs, dir) == Child(dir, GIT_EXE_NAME) <==> !Exists(fs, Child(dir, GIT_BINARY_NAME))
  {
    var git := Child(dir, GIT_BINARY_NAME);
    var exe := Child(dir, GIT_EXE_NAME);
    assert git.names[|dir.names|] == GIT_BINARY_NAME && exe.names[|dir.names|] == GIT_EXE_NAME;
    assert |GIT_BINARY_NAME| == 3 && |GIT_EXE_NAME| == 7;
  }

  // ---- findGitRoot

  /** `dir` has a `.git` entry. */
  predicate HasGitMetadata(fs: FileSystem, dir: Path)
  {
    Exists(fs, Child(dir, GIT_METADATA_NAME))
  }

  /** The ancestor of `p` that keeps its first `n` names. */
  function Ancestor(p: Path, n: nat): Path
    requires n <= |p.names|
  {
    Path(p.absolute, p.names[..n])
  }

  /** How short an ancestor `getParent` reaches: the root of an absolute
      path, the first name of a relative one. */
  function Shortest(p: Path): nat
  {
    if p.absolute || p.names == [] then 0 else 1
  }

  /** The walk up from `dir` through `getParent`. */
  function FindGitRootFrom(fs: FileSystem, dir: Path): (r: Option<Path>)
    ensures r.None? <==> forall n :: Shortest(dir) <= n <= |dir.names| ==> !HasGitMetadata(fs, Ancestor(dir, n))
    ensures r.Some? ==> var n := |r.value.names|;
      && Shortest(dir) <= n <= |dir.names| && r.value == Ancestor(dir, n)
      && HasGitMetadata(fs, r.value)
      && forall m :: n < m <= |dir.names| ==> !HasGitMetadata(fs, Ancestor(dir, m))
    decreases |dir.names|
  {
    assert dir == Ancestor(dir, |dir.names|);
    if HasGitMetadata(fs, dir) then Some(dir)
    else
      match Parent(dir)
      case None => None
      case Some(up) =>
        assert Shortest(up) == Shortest(dir);
        forall n | 0 <= n <= |up.names|
          ensures Ancestor(up, n) == Ancestor(dir, n)
        {
          assert up.names[..n] == dir.names[..n];
        }
        FindGitRootFrom(fs, up)
  }

  /** `findGitRoot(path)`: the nearest ancestor-or-self directory holding
      `.git`. When `path` is not a directory the walk starts at its parent,
      and a path without one makes Java throw a `NullPointerException`. */
  function FindGitRoot(fs: FileSystem, path: Path): (r: Result<Option<Path>, ()>)
    ensures r.Failure? <==> !IsDirectory(fs, path) && Parent(path).None?
  {
    var start := if IsDirectory(fs, path) then Some(path) else Parent(path);
    match start
    case None => Failure(())
    case Some(dir) => Success(FindGitRootFrom(fs, dir))
  }

  // ---- the two git runs

  /** The error `LibInfo` records for a git run that exits non-zero. */
  function ExitError(command: seq<JString>, code: int, stderr: JString): JString
  {
    Lit("Process '") + Join(SPACE, command) + Lit("' exited with code ") + Decimal(code)
      + Lit(". Error output:\n") + stderr
  }

  /** `runGitForLogInfo`: standard output is returned whatever the exit
      code; a non-zero code also records an error. */
  function RunGitForLogInfo(command: seq<JString>, e: Exec, errors: JString): (r: Outcome<JString>)
    ensures e.TimedOut? <==> r.Threw?
    ensures r.Returned? ==> r.value == e.stdout
    ensures r.Returned? ==> r.errors == if e.code != 0 then errors + ExitError(command, e.code, e.stderr) else errors
    ensures r.Threw? ==> r.errors == errors
  {
    match e
    case TimedOut => Threw(errors)
    case Exited(code, stdout, stderr) =>
      Returned(stdout, if code != 0 then errors + ExitError(command, code, stderr) else errors)
  }

  /** The status a finished `git status --porcelain` run stands for. */
  function StatusOf(code: int, stdout: JString): JString
  {
    if code != 0 then STATUS_UNKNOWN else if stdout != [] then STATUS_DIRTY else STATUS_CLEAN
  }

  /** `runGitForRepoStatus`: "unknown" with an error for a non-zero exit,
      otherwise "dirty" when `git status --porcelain` printed anything and
      "clean" when it printed nothing. */
  function RunGitForRepoStatus(command: seq<JString>, e: Exec, errors: JString): (r: Outcome<JString>)
    ensures e.TimedOut? <==> r.Threw?
    ensures r.Returned? && e.code != 0 ==> r.value == STATUS_UNKNOWN && r.errors == errors + ExitError(command, e.code, e.stderr)
    ensures r.Returned? && e.code == 0 ==> r.errors == errors
    ensures r.Returned? && e.code == 0 ==> (r.value == STATUS_CLEAN <==> e.stdout == [])
    ensures r.Returned? && e.code == 0 ==> (r.value == STATUS_DIRTY <==> e.stdout != [])
    ensures r.Threw? ==> r.errors == errors
  {
    StatusesDistinct();
    match e
    case TimedOut => Threw(errors)
    case Exited(code, stdout, stderr) =>
      Returned(StatusOf(code, stdout), if code != 0 then errors + ExitError(command, code, stderr) else errors)
  }

  lemma StatusesDistinct()
    ensures STATUS_CLEAN != STATUS_DIRTY && STATUS_CLEAN != STATUS_UNKNOWN && STATUS_DIRTY != STATUS_UNKNOWN
  {
    assert |STATUS_UNKNOWN| == 7 && |STATUS_CLEAN| == 5 && |STATUS_DIRTY| == 5;
    assert STATUS_CLEAN[0] == 0x63 && STATUS_DIRTY[0] == 0x64;
  }

  // ---- getInfo

  /** The command lines of the two runs. */
  function LogCommand(binary: Path): seq<JString>
  {
    Prepend(PathText(binary), LOG_ARGS)
  }

  function StatusCommand(binary: Path): seq<JString>
  {
    Prepend(PathText(binary), STATUS_ARGS)
  }

  /** The error for a search path without git. */
  function NoBinaryError(searchPath: seq<Path>): JString
  {
    Lit("Could not find git binary in ") + Join(COMMA, seq(|searchPath|, i requires 0 <= i < |searchPath| => PathText(searchPath[i])))
  }

  /** The environment `getInfo` consults. */
  datatype Environment = Environment(
    fs: FileSystem,
    pathVar: Option<JString>,
    preferred: Option<seq<Path>>,
    git: Runner,
    time: TimeFormats)

  /** `getInfo(path, errors)`: the revision properties of the repository
      holding `path`, or `None` when there is none, git cannot be found or
      the log printed nothing. */
  function GetInfo(env: Environment, path: Path, errors: JString): Outcome<Option<Props>>
  {
    match FindGitRoot(env.fs, path)
    case Failure(_) => Threw(errors)
    case Success(None) => Returned(None, errors)
    case Success(Some(root)) =>
      var searchPath := SearchPath(env.fs, env.preferred, env.pathVar);
      match SearchGitBinary(env.fs, searchPath)
      case None => Returned(None, errors + NoBinaryError(searchPath))
      case Some(binary) => QueryGit(env, root, binary, errors)
  }

  /** The part of `getInfo` after the lookups: run the log and the status,
      then parse the log unless it is blank. */
  function QueryGit(env: Environment, root: Path, binary: Path, errors: JString): Outcome<Option<Props>>
  {
    match RunGitForLogInfo(LogCommand(binary), env.git(LogCommand(binary), root), errors)
    case Threw(e1) => Threw(e1)
    case Returned(output, e1) =>
      match RunGitForRepoStatus(StatusCommand(binary), env.git(StatusCommand(binary), root), e1)
      case Threw(e2) => Threw(e2)
      case Returned(status, e2) =>
        if Trim(output) != [] then
          var (props, e3) := GitOutputToProperties(output, status, env.time, e2);
          Returned(props, e3)
        else
          Returned(None, e2)
  }

  /** No repository above `path`: nothing, and no error. */
  lemma GetInfoOutsideRepository(env: Environment, path: Path, errors: JString)
    requires FindGitRoot(env.fs, path) == Success(None)
    ensures GetInfo(env, path, errors) == Returned(None, errors)
  {
  }

  /** No git on the search path: nothing, and an error naming the path. */
  lemma GetInfoWithoutGit(env: Environment, path: Path, errors: JString)
    requires FindGitRoot(env.fs, path).Success? && FindGitRoot(env.fs, path).value.Some?
    requires forall p :: p in SearchPath(env.fs, env.preferred, env.pathVar) ==> !HoldsGit(env.fs, p)
    ensures GetInfo(env, path, errors) == Returned(None, errors + NoBinaryError(SearchPath(env.fs, env.preferred, env.pathVar)))
  {
  }

  /** Once both runs exit, the log's standard output decides: blank output
      gives nothing, anything else is parsed, even when the log run failed. */
  lemma QueryGitAfterRuns(env: Environment, root: Path, binary: Path, errors: JString)
    requires env.git(LogCommand(binary), root).Exited? && env.git(StatusCommand(binary), root).Exited?
    ensures var log := env.git(LogCommand(binary), root);
      var status := env.git(StatusCommand(binary), root);
      var r := QueryGit(env, root, binary, errors);
      && r.Returned?
      && (r.value.Some? <==> Trim(log.stdout) != [])
      && (r.value.Some? ==> r.value.value == RevisionProperties(log.stdout, StatusOf(status.code, status.stdout), env.time))
  {
    var log := env.git(LogCommand(binary), root);
    var st := env.git(StatusCommand(binary), root);
    var r1 := RunGitForLogInfo(LogCommand(binary), log, errors);
    assert r1 == Returned(log.stdout, r1.errors);
    var r2 := RunGitForRepoStatus(StatusCommand(binary), st, r1.errors);
    assert r2 == Returned(StatusOf(st.code, st.stdout), r2.errors);
  }

  /** `getInfo` once the repository and git are found: see `QueryGit`. */
  lemma GetInfoAfterRuns(env: Environment, path: Path, errors: JString, root: Path, binary: Path)
    requires FindGitRoot(env.fs, path) == Success(Some(root))
    requires SearchGitBinary(env.fs, SearchPath(env.fs, env.preferred, env.pathVar)) == Some(binary)
    requires env.git(LogCommand(binary), root).Exited? && env.git(StatusCommand(binary), root).Exited?
    ensures var log := env.git(LogCommand(binary), root);
      var status := env.git(StatusCommand(binary), root);
      var r := GetInfo(env, path, errors);
      && r.Returned?
      && (r.value.Some? <==> Trim(log.stdout) != [])
      && (r.value.Some? ==> r.value.value == RevisionProperties(log.stdout, StatusOf(status.code, status.stdout), env.time))
  {
    QueryGitAfterRuns(env, root, binary, errors);
  }

  /** A failed log run leaves its error in the buffer, whatever follows. */
  lemma QueryGitKeepsLogError(env: Environment, root: Path, binary: Path, errors: JString)
    requires env.git(LogCommand(binary), root).Exited? && env.git(LogCommand(binary), root).code != 0
    ensures var log := env.git(LogCommand(binary), root);
      IsInfix(ExitError(LogCommand(binary), log.code, log.stderr), QueryGit(env, root, binary, errors).errors)
  {
    var log := env.git(LogCommand(binary), root);
    var msg := ExitError(LogCommand(binary), log.code, log.stderr);
    var st := env.git(StatusCommand(binary), root);
    var e1 := errors + msg;
    assert RunGitForLogInfo(LogCommand(binary), log, errors) == Returned(log.stdout, e1);
    if st.Exited? && st.code != 0 {
      InfixOfConcat(errors, msg, ExitError(StatusCommand(binary), st.code, st.stderr));
    } else {
      InfixOfConcat(errors, msg, []);
      assert errors + msg + [] == e1;
    }
  }

  /** A git run that times out makes `getInfo` throw. */
  lemma QueryGitTimeout(env: Environment, root: Path, binary: Path, errors: JString)
    requires env.git(LogCommand(binary), root).TimedOut? || env.git(StatusCommand(binary), root).TimedOut?
    ensures QueryGit(env, root, binary, errors).Threw?
  {
  }
}
