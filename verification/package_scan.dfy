/** The revision-info mojo's search for the package to put a generated
    class in: the shallowest directory, under the compile source roots, that
    directly holds a Java or Groovy source file. The directory tree is a
    value; reading it is not modelled. */
module PackageScan {
  import opened Wrappers
  import opened JStrings
  import opened Collections

  /** An entry of a directory listing. A directory that cannot be listed
      (`Files.list` throws) is `readable == false`, and its children are
      ignored. */
  datatype Node = File(name: JString) | Dir(name: JString, readable: bool, children: seq<Node>)

  /** `fileExt`: the text after the last `.` of a file name, unless that dot
      opens or ends the name. */
  function FileExt(name: JString): (r: Option<JString>)
    ensures r.Some? ==> (r.value != [] && DOT !in r.value
      && |r.value| + 1 < |name| && name[|name| - |r.value|..] == r.value && name[|name| - |r.value| - 1] == DOT)
    ensures r.None? <==> DOT !in name || (name[0] == DOT && DOT !in name[1..]) || name[|name| - 1] == DOT
  {
    match LastIndexOf(name, DOT)
    case None => None
    case Some(ix) =>
      if ix > 0 && ix < |name| - 1 then
        assert name[ix + 1..][..|name| - ix - 1] == name[ix + 1..];
        Some(name[ix + 1..])
      else
        assert ix == 0 ==> name[1..] == name[ix + 1..];
        None
  }

  /** The last occurrence is the one with none after it. */
  lemma LastIndexOfAt(s: JString, c: Unit, i: nat)
    requires i < |s| && s[i] == c && c !in s[i + 1..]
    ensures LastIndexOf(s, c) == Some(i)
  {
    var j := LastIndexOf(s, c).value;
    assert forall k :: i < k < |s| ==> s[k] == s[i + 1..][k - i - 1];
    assert forall k :: j < k < |s| ==> s[k] == s[j + 1..][k - j - 1];
  }

  /** A base name and an extension, joined by a dot, give back the extension. */
  lemma FileExtOf(base: JString, ext: JString)
    requires base != [] && ext != [] && DOT !in ext
    ensures FileExt(base + [DOT] + ext) == Some(ext)
  {
    var name := base + [DOT] + ext;
    assert name[|base| + 1..] == ext;
    LastIndexOfAt(name, DOT, |base|);
  }

  const JAVA: JString := Lit("java")
  const GROOVY: JString := Lit("groovy")

  /** A file the scan counts: its extension is `java` or `groovy`. */
  predicate IsSourceName(name: JString)
  {
    FileExt(name) == Some(JAVA) || FileExt(name) == Some(GROOVY)
  }

  /** `scan(dir, dirs)` on a directory whose path relative to the source
      root is `rel`: the relative paths of the directories under it, itself
      included, that directly hold a source file. A directory that cannot be
      listed contributes nothing (the exception is logged and dropped). */
  function ScanDir(n: Node, rel: seq<JString>): set<seq<JString>>
    requires n.Dir?
    decreases n, 1
  {
    if n.readable then ScanChildren(n, 0, rel) else {}
  }

  /** The contributions of `n`'s children from the `i`-th on. */
  function ScanChildren(n: Node, i: nat, rel: seq<JString>): set<seq<JString>>
    requires n.Dir? && i <= |n.children|
    decreases n, 0, |n.children| - i
  {
    if i == |n.children| then {}
    else
      var c := n.children[i];
      var here := match c
        case File(name) => if IsSourceName(name) then {rel} else {}
        case Dir(name, _, _) => ScanDir(c, rel + [name]);
      here + ScanChildren(n, i + 1, rel)
  }

  /** The reference reading of the scan, walking down from the root: `rel`
      leads through listable directories to one that directly holds a
      source file. */
  ghost predicate HasSourceAt(n: Node, rel: seq<JString>)
    decreases n
  {
    n.Dir? && n.readable &&
    if rel == [] then
      exists i :: 0 <= i < |n.children| && n.children[i].File? && IsSourceName(n.children[i].name)
    else
      exists i :: 0 <= i < |n.children| && n.children[i].Dir? && n.children[i].name == rel[0]
        && HasSourceAt(n.children[i], rel[1..])
  }

  /** What one child adds to the scan of its parent at `rel`. */
  ghost predicate Contributes(c: Node, rel: seq<JString>, x: seq<JString>)
  {
    (c.File? && IsSourceName(c.name) && x == rel)
    || (c.Dir? && |rel| + 1 <= |x| && x[..|rel| + 1] == rel + [c.name] && HasSourceAt(c, x[|rel| + 1..]))
  }

  lemma {:induction false} ScanChildrenMembers(n: Node, i: nat, rel: seq<JString>, x: seq<JString>)
    requires n.Dir? && i <= |n.children|
    ensures x in ScanChildren(n, i, rel) <==> exists j :: i <= j < |n.children| && Contributes(n.children[j], rel, x)
    decreases n, 0, |n.children| - i
  {
    if i < |n.children| {
      var c := n.children[i];
      ScanChildrenMembers(n, i + 1, rel, x);
      if c.Dir? {
        ScanDirMembers(c, rel + [c.name], x);
        if x in ScanDir(c, rel + [c.name]) {
          assert x[..|rel| + 1] == rel + [c.name];
          assert Contributes(c, rel, x);
        }
        if Contributes(c, rel, x) {
          assert x[..|rel + [c.name]|] == rel + [c.name];
        }
      }
    }
  }

  /** The scan finds exactly the directories the reference reading names:
      `x` is found from a directory at `rel` iff it extends `rel` by a path
      that leads to a source file. */
  lemma {:induction false} ScanDirMembers(n: Node, rel: seq<JString>, x: seq<JString>)
    requires n.Dir?
    ensures x in ScanDir(n, rel) <==> |rel| <= |x| && x[..|rel|] == rel && HasSourceAt(n, x[|rel|..])
    decreases n, 1
  {
    if n.readable {
      ScanChildrenMembers(n, 0, rel, x);
      var here := |rel| <= |x| && x[..|rel|] == rel;
      if here && HasSourceAt(n, x[|rel|..]) {
        var y := x[|rel|..];
        if y == [] {
          assert x == rel;
          var j :| 0 <= j < |n.children| && n.children[j].File? && IsSourceName(n.children[j].name);
          assert Contributes(n.children[j], rel, x);
        } else {
          var j :| 0 <= j < |n.children| && n.children[j].Dir? && n.children[j].name == y[0]
            && HasSourceAt(n.children[j], y[1..]);
          assert x[..|rel| + 1] == rel + [y[0]];
          assert x[|rel| + 1..] == y[1..];
          assert Contributes(n.children[j], rel, x);
        }
      }
      if x in ScanDir(n, rel) {
        var j :| 0 <= j < |n.children| && Contributes(n.children[j], rel, x);
        var c := n.children[j];
        if c.File? {
          assert x[..|rel|] == rel && x[|rel|..] == [];
        } else {
          assert x[..|rel|] == x[..|rel| + 1][..|rel|];
          var y := x[|rel|..];
          assert y[0] == c.name && y[1..] == x[|rel| + 1..];
        }
      }
    }
  }

  /** `dotCount`, as the loop counts. */
  method DotCount(s: JString) returns (r: nat)
    ensures r == Dots(s)
  {
    r := 0;
    var i := 0;
    while i < |s|
      invariant 0 <= i <= |s|
      invariant r == Dots(s[..i])
    {
      assert s[..i + 1] == s[..i] + [s[i]];
      DotsAppend(s[..i], [s[i]]);
      r := r + (if s[i] == DOT then 1 else 0);
      i := i + 1;
    }
    assert s[..i] == s;
  }

  /** The number of `.` units in `s`. */
  function Dots(s: JString): (r: nat)
    ensures r <= |s|
    ensures r == 0 <==> DOT !in s
  {
    if s == [] then 0 else (if s[0] == DOT then 1 else 0) + Dots(s[1..])
  }

  lemma {:induction false} DotsAppend(a: JString, b: JString)
    ensures Dots(a + b) == Dots(a) + Dots(b)
  {
    if a != [] {
      DotsAppend(a[1..], b);
      assert (a + b)[1..] == a[1..] + b;
    } else {
      assert a + b == b;
    }
  }

  /** The comparator the packages are sorted with: fewer dots first, then
      the shorter. */
  predicate Shallower(a: JString, b: JString)
  {
    Dots(a) < Dots(b) || (Dots(a) == Dots(b) && |a| < |b|)
  }

  /** The first of `xs` that nothing in `xs` sorts before: the head of the
      list after a stable sort. */
  function FirstLeast(xs: seq<JString>): (r: JString)
    requires xs != []
    ensures r in xs
    ensures forall i :: 0 <= i < |xs| ==> !Shallower(xs[i], r)
    decreases |xs|
  {
    if |xs| == 1 then xs[0]
    else
      var m := FirstLeast(xs[..|xs| - 1]);
      var last := xs[|xs| - 1];
      assert forall i :: 0 <= i < |xs| - 1 ==> xs[i] == xs[..|xs| - 1][i];
      if Shallower(last, m) then last else m
  }

  /** The package `scanForLeastPackageWithSourceFile` picks from `pkgs`:
      a shallowest one. Which of several equally shallow packages comes
      first depends on `HashSet` order in the source; here it is the
      smallest. */
  function LeastPackage(pkgs: set<JString>): (r: Option<JString>)
    ensures r.None? <==> pkgs == {}
    ensures r.Some? ==> r.value in pkgs && forall q :: q in pkgs ==> !Shallower(q, r.value)
  {
    if pkgs == {} then None
    else
      var ks := SortedKeys(pkgs);
      var m := FirstLeast(ks);
      assert forall q :: q in pkgs ==> q in ks;
      Some(m)
  }

  /** The package name of a directory: its relative path with `.` for the
      separator. */
  function PackageName(rel: seq<JString>): JString
  {
    Join(DOT, rel)
  }

  /** The packages found under one listable source root. */
  function RootPackages(root: Node): set<JString>
    requires root.Dir?
  {
    set x | x in ScanDir(root, []) :: PackageName(x)
  }

  /** The packages found under every source root that is an existing
      directory (`None` marks one that is not). A root that cannot be listed
      aborts the scan with an `IOException`. */
  function AllPackages(roots: seq<Option<Node>>): (r: Result<set<JString>, ()>)
    ensures r.Failure? <==> exists i :: 0 <= i < |roots| && roots[i].Some? && roots[i].value.Dir? && !roots[i].value.readable
    decreases |roots|
  {
    if roots == [] then Success({})
    else
      var here: Result<set<JString>, ()> := match roots[0]
        case Some(Dir(name, readable, children)) =>
          if readable then Success(RootPackages(roots[0].value)) else Failure(())
        case _ => Success({});
      match AllPackages(roots[1..])
      case Failure(_) =>
        assert forall i :: 1 <= i < |roots| ==> roots[i] == roots[1..][i - 1];
        Failure(())
      case Success(rest) =>
        assert forall i :: 1 <= i < |roots| ==> roots[i] == roots[1..][i - 1];
        if here.Failure? then Failure(()) else Success(here.value + rest)
  }

  /** A package is found iff some listable root has a directory path to a
      source file that spells it. */
  lemma {:induction false} AllPackagesMembers(roots: seq<Option<Node>>, p: JString)
    requires AllPackages(roots).Success?
    ensures p in AllPackages(roots).value <==>
      exists i, x :: 0 <= i < |roots| && roots[i].Some? && roots[i].value.Dir? && HasSourceAt(roots[i].value, x) && p == PackageName(x)
    decreases |roots|
  {
    if roots != [] {
      AllPackagesMembers(roots[1..], p);
      var r0 := roots[0];
      if r0.Some? && r0.value.Dir? && r0.value.readable {
        forall x
          ensures x in ScanDir(r0.value, []) <==> HasSourceAt(r0.value, x)
        {
          ScanDirMembers(r0.value, [], x);
          assert x[0..] == x;
        }
      }
      if p in AllPackages(roots).value {
        if r0.Some? && r0.value.Dir? && p in RootPackages(r0.value) {
          var x :| x in ScanDir(r0.value, []) && p == PackageName(x);
          assert HasSourceAt(roots[0].value, x);
        } else {
          var i, x :| 0 <= i < |roots[1..]| && roots[1..][i].Some? && roots[1..][i].value.Dir? && HasSourceAt(roots[1..][i].value, x) && p == PackageName(x);
          assert roots[i + 1] == roots[1..][i];
        }
      }
      if exists i, x :: 0 <= i < |roots| && roots[i].Some? && roots[i].value.Dir? && HasSourceAt(roots[i].value, x) && p == PackageName(x) {
        var i, x :| 0 <= i < |roots| && roots[i].Some? && roots[i].value.Dir? && HasSourceAt(roots[i].value, x) && p == PackageName(x);
        if i == 0 {
          assert x in ScanDir(r0.value, []);
        } else {
          assert roots[1..][i - 1] == roots[i];
        }
      }
    }
  }

  /** `scanForLeastPackageWithSourceFile()`: `None` without source roots
      (Java's `null` list) or without any source file under them. */
  function ScanForLeastPackage(roots: Option<seq<Option<Node>>>): (r: Result<Option<JString>, ()>)
    ensures roots.None? ==> r == Success(None)
    ensures roots.Some? ==> (r.Failure? <==> AllPackages(roots.value).Failure?)
    ensures roots.Some? && r.Success? ==> r.value == LeastPackage(AllPackages(roots.value).value)
  {
    match roots
    case None => Success(None)
    case Some(rs) =>
      match AllPackages(rs)
      case Failure(_) => Failure(())
      case Success(pkgs) => Success(LeastPackage(pkgs))
  }

  /** The default package, when found, is the least: nothing is shallower
      than the empty name. */
  lemma DefaultPackageLeast(pkgs: set<JString>)
    requires [] in pkgs
    ensures LeastPackage(pkgs) == Some([])
  {
    var r := LeastPackage(pkgs).value;
    assert !Shallower([], r);
  }

  lemma FooJavaIsSource()
    ensures IsSourceName(Lit("Foo.java"))
  {
    FileExtOf(Lit("Foo"), JAVA);
    assert Lit("Foo.java") == Lit("Foo") + [DOT] + JAVA;
  }

  /** A listable root that directly holds a source file makes the default
      package, the empty name, the choice. */
  lemma SourceAtRootGivesDefaultPackage(root: Node, i: nat)
    requires root.Dir? && root.readable && i < |root.children|
    requires root.children[i].File? && IsSourceName(root.children[i].name)
    ensures ScanForLeastPackage(Some([Some(root)])) == Success(Some([]))
  {
    var roots := [Some(root)];
    assert HasSourceAt(roots[0].value, []);
    assert PackageName([]) == [];
    AllPackagesMembers(roots, []);
    DefaultPackageLeast(AllPackages(roots).value);
  }

  /** `Foo.java` beside a package `a` with `B.java`: the default package wins. */
  lemma DefaultPackageWins()
    ensures var root := Dir([], true, [File(Lit("Foo.java")), Dir(Lit("a"), true, [File(Lit("B.java"))])]);
      ScanForLeastPackage(Some([Some(root)])) == Success(Some([]))
  {
    var root := Dir([], true, [File(Lit("Foo.java")), Dir(Lit("a"), true, [File(Lit("B.java"))])]);
    FooJavaIsSource();
    SourceAtRootGivesDefaultPackage(root, 0);
  }
}
