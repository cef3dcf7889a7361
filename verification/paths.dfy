/** `java.nio.file.Path` on a Unix file system, and the file-system facts
    the plugins query (`Files.exists`, `Files.isDirectory`,
    `File.canExecute`) as a plain value. */
module Paths {
  import opened Wrappers
  import opened JStrings
  import opened Collections

  /** A normalised Unix path: whether it starts at the root, and its names.
      The empty path `""` is relative and has no names. */
  datatype Path = Path(absolute: bool, names: seq<JString>)

  /** A name of a normalised path: non-empty and free of `/`. */
  predicate ValidName(n: JString)
  {
    n != [] && SLASH !in n
  }

  predicate ValidPath(p: Path)
  {
    forall i :: 0 <= i < |p.names| ==> ValidName(p.names[i])
  }

  /** The non-empty strings of `xs`, in order. */
  function NonEmpty(xs: seq<JString>): (r: seq<JString>)
    ensures forall i :: 0 <= i < |r| ==> r[i] != [] && r[i] in xs
    ensures forall i :: 0 <= i < |xs| && xs[i] != [] ==> xs[i] in r
    decreases |xs|
  {
    if xs == [] then []
    else if xs[0] == [] then NonEmpty(xs[1..])
    else [xs[0]] + NonEmpty(xs[1..])
  }

  lemma {:induction false} NonEmptyUnchanged(xs: seq<JString>)
    requires forall i :: 0 <= i < |xs| ==> xs[i] != []
    ensures NonEmpty(xs) == xs
    decreases |xs|
  {
    if xs != [] {
      NonEmptyUnchanged(xs[1..]);
    }
  }

  /** `Paths.get(text)`: repeated and trailing slashes are dropped. (A NUL
      unit, which Java rejects, is not modelled.) */
  function ParsePath(text: JString): (r: Path)
    ensures ValidPath(r)
    ensures r.absolute <==> text != [] && text[0] == SLASH
  {
    var r := Path(text != [] && text[0] == SLASH, NonEmpty(Fields(SLASH, text)));
    assert forall i :: 0 <= i < |r.names| ==> r.names[i] in Fields(SLASH, text);
    r
  }

  /** `Path.toString()`. */
  function PathText(p: Path): JString
  {
    (if p.absolute then [SLASH] else []) + Join(SLASH, p.names)
  }

  lemma {:induction false} JoinFirstUnit(d: Unit, xs: seq<JString>)
    requires xs != [] && xs[0] != []
    ensures Join(d, xs) != [] && Join(d, xs)[0] == xs[0][0]
  {
  }

  /** Printing a normalised path and parsing it back gives the same path. */
  lemma ParsePathText(p: Path)
    requires ValidPath(p)
    ensures ParsePath(PathText(p)) == p
  {
    if p.names == [] {
      ParseEmptyPathText(p.absolute);
    } else if p.absolute {
      ParseAbsoluteText(p.names);
    } else {
      ParseRelativeText(p.names);
    }
  }

  lemma ParseEmptyPathText(absolute: bool)
    ensures ParsePath(PathText(Path(absolute, []))) == Path(absolute, [])
  {
    var t := PathText(Path(absolute, []));
    if absolute {
      assert t == [SLASH];
      assert Fields(SLASH, t) == Fields(SLASH, []) + [[]];
    } else {
      assert t == [];
      assert Fields(SLASH, t) == [[]];
      assert NonEmpty([[]]) == [];
    }
  }

  lemma ParseAbsoluteText(names: seq<JString>)
    requires names != [] && forall i :: 0 <= i < |names| ==> ValidName(names[i])
    ensures ParsePath(PathText(Path(true, names))) == Path(true, names)
  {
    AbsoluteTextFields(names);
    NonEmptyUnchanged(names);
    var xs: seq<JString> := [[]] + names;
    assert xs[1..] == names;
  }

  /** The text of an absolute path splits into an empty field and the names. */
  lemma AbsoluteTextFields(names: seq<JString>)
    requires names != [] && forall i :: 0 <= i < |names| ==> ValidName(names[i])
    ensures Fields(SLASH, PathText(Path(true, names))) == [[]] + names
  {
    var xs: seq<JString> := [[]] + names;
    assert xs[1..] == names;
    assert Join(SLASH, xs) == PathText(Path(true, names));
    FieldsJoin(SLASH, xs);
  }

  lemma ParseRelativeText(names: seq<JString>)
    requires names != [] && forall i :: 0 <= i < |names| ==> ValidName(names[i])
    ensures ParsePath(PathText(Path(false, names))) == Path(false, names)
  {
    NonEmptyUnchanged(names);
    JoinFirstUnit(SLASH, names);
    assert PathText(Path(false, names)) == Join(SLASH, names);
    assert names[0][0] in names[0];
    FieldsJoin(SLASH, names);
  }

  /** Parsing is a normalisation: parsing the printed form changes nothing. */
  lemma ParsePathIdempotent(text: JString)
    ensures ParsePath(PathText(ParsePath(text))) == ParsePath(text)
  {
    ParsePathText(ParsePath(text));
  }

  /** `p.resolve(q)`: an absolute `q` replaces `p`, a relative one is
      appended to it. */
  function Resolve(p: Path, q: Path): (r: Path)
    ensures q.absolute ==> r == q
    ensures !q.absolute ==> r.absolute == p.absolute && r.names == p.names + q.names
  {
    if q.absolute then q else Path(p.absolute, p.names + q.names)
  }

  /** Resolving the empty path changes nothing, and resolution is
      associative: resolving `q` and then `r` equals resolving `q.resolve(r)`. */
  lemma ResolveLaws(p: Path, q: Path, r: Path)
    ensures Resolve(p, Path(false, [])) == p
    ensures Resolve(Resolve(p, q), r) == Resolve(p, Resolve(q, r))
  {
    assert p.names + [] == p.names;
    if !q.absolute && !r.absolute {
      assert (p.names + q.names) + r.names == p.names + (q.names + r.names);
    }
  }

  /** `p.resolve(text)`. */
  function ResolveText(p: Path, text: JString): Path
  {
    Resolve(p, ParsePath(text))
  }

  /** Whether `base.relativize(other)` returns: a Unix path relativizes only
      a path of its own kind, and throws `IllegalArgumentException` when one
      of the two is absolute and the other is not. */
  predicate CanRelativize(base: Path, other: Path)
  {
    base.absolute == other.absolute
  }

  /** `dir.resolve(name)` for a single file name. */
  function Child(dir: Path, name: JString): (r: Path)
    ensures r.absolute == dir.absolute && r.names == dir.names + [name]
  {
    Resolve(dir, Path(false, [name]))
  }

  /** A single valid name parses to the one-name relative path, so
      `dir.resolve(name)` is `Child(dir, name)`. */
  lemma ResolveName(dir: Path, name: JString)
    requires ValidName(name)
    ensures ResolveText(dir, name) == Child(dir, name)
  {
    var p := Path(false, [name]);
    assert PathText(p) == name;
    ParsePathText(p);
  }

  /** `p.getParent()`: `None` (Java's `null`) for the root, the empty path
      and a relative path of a single name. */
  function Parent(p: Path): (r: Option<Path>)
    ensures r.None? <==> p.names == [] || (|p.names| == 1 && !p.absolute)
    ensures r.Some? ==> r.value.absolute == p.absolute && r.value.names + [p.names[|p.names| - 1]] == p.names
  {
    if p.names == [] || (|p.names| == 1 && !p.absolute) then None
    else Some(Path(p.absolute, p.names[..|p.names| - 1]))
  }

  /** The parent of `p` resolved against one more name is `p`, unless `p`
      is the empty path (whose child has no parent). */
  lemma ParentOfResolve(p: Path, name: JString)
    requires p.absolute || p.names != []
    ensures Parent(Resolve(p, Path(false, [name]))) == Some(p)
  {
    var c := Resolve(p, Path(false, [name]));
    assert c.names[..|c.names| - 1] == p.names;
  }

  /** What the file system knows of one path. */
  datatype Entry = Entry(directory: bool, executable: bool)

  /** The file system as the plugins see it: every existing path with its
      kind. Paths are looked up as given, so a relative path stands for the
      same path under the working directory. */
  type FileSystem = map<Path, Entry>

  /** `Files.exists(p)`. */
  predicate Exists(fs: FileSystem, p: Path)
  {
    p in fs
  }

  /** `Files.isDirectory(p)`: false for a missing path. */
  predicate IsDirectory(fs: FileSystem, p: Path)
  {
    p in fs && fs[p].directory
  }

  /** `p.toFile().canExecute()`. */
  predicate CanExecute(fs: FileSystem, p: Path)
  {
    p in fs && fs[p].executable
  }
}
