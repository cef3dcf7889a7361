/** The collection and string helpers copied into `Utils`: `prepend`,
    `concatenate`, `split` and `join`. */
module Collections {
  import opened Wrappers
  import opened JStrings

  /** `prepend(first, more)`: a new array holding `first` and then `more`. */
  function Prepend<T>(first: T, more: seq<T>): (r: seq<T>)
    ensures |r| == |more| + 1 && r[0] == first && r[1..] == more
  {
    [first] + more
  }

  /** A command line built by `prepend` prints as the first word, a space
      and the rest: the text `Process '...'` errors show. */
  lemma JoinPrepend(d: Unit, first: JString, more: seq<JString>)
    ensures Join(d, Prepend(first, more)) == if more == [] then first else first + [d] + Join(d, more)
  {
    assert Prepend(first, more)[1..] == more;
  }

  /** Index of the first occurrence of `x` in `s`. */
  function FirstIndex<T(==)>(x: T, s: seq<T>): (r: nat)
    requires x in s
    ensures r < |s| && s[r] == x && x !in s[..r]
  {
    if s[0] == x then 0
    else
      var r := FirstIndex(x, s[1..]);
      assert s[..r + 1] == [s[0]] + s[1..][..r];
      r + 1
  }

  lemma FirstIndexOfPrefix<T>(x: T, s: seq<T>, n: nat)
    requires n <= |s| && x in s[..n]
    ensures FirstIndex(x, s) == FirstIndex(x, s[..n])
  {
    var i := FirstIndex(x, s[..n]);
    assert s[..n][..i] == s[..i];
  }

  /** The distinct elements of `s` in order of first occurrence: the
      iteration order of a `LinkedHashSet` filled from `s`. */
  function Dedup<T(==)>(s: seq<T>): (r: seq<T>)
    ensures forall i :: 0 <= i < |r| ==> r[i] in s
    ensures forall i :: 0 <= i < |s| ==> s[i] in r
    ensures forall i, j :: 0 <= i < j < |r| ==> r[i] != r[j]
    decreases |s|
  {
    if s == [] then []
    else
      var init := s[..|s| - 1];
      var x := s[|s| - 1];
      var r := Dedup(init);
      assert s == init + [x];
      if x in r then r else r + [x]
  }

  /** `Dedup` keeps the elements in the order of their first occurrence. */
  lemma {:induction false} DedupOrder<T>(s: seq<T>)
    ensures forall i, j :: 0 <= i < j < |Dedup(s)| ==> FirstIndex(Dedup(s)[i], s) < FirstIndex(Dedup(s)[j], s)
    decreases |s|
  {
    if s != [] {
      var init := s[..|s| - 1];
      var x := s[|s| - 1];
      DedupOrder(init);
      assert s == init + [x];
      assert x in init ==> x in Dedup(init);
      OrderAfterSnoc(init, x, Dedup(init), Dedup(s));
    }
  }

  /** The ordering step of `Dedup`: appending `x`, new or not, keeps the
      elements in order of first occurrence. */
  lemma OrderAfterSnoc<T>(init: seq<T>, x: T, r: seq<T>, q: seq<T>)
    requires forall i :: 0 <= i < |r| ==> r[i] in init
    requires x in init ==> x in r
    requires forall i, j :: 0 <= i < j < |r| ==> FirstIndex(r[i], init) < FirstIndex(r[j], init)
    requires q == if x in r then r else r + [x]
    ensures forall i, j :: 0 <= i < j < |q| ==> FirstIndex(q[i], init + [x]) < FirstIndex(q[j], init + [x])
  {
    var s := init + [x];
    assert s[..|s| - 1] == init;
    forall i, j | 0 <= i < j < |q|
      ensures FirstIndex(q[i], s) < FirstIndex(q[j], s)
    {
      assert q[i] == r[i];
      FirstIndexOfPrefix(r[i], s, |s| - 1);
      if j < |r| {
        assert q[j] == r[j];
        FirstIndexOfPrefix(r[j], s, |s| - 1);
      } else {
        assert q[j] == x && x !in init;
        assert FirstIndex(x, s) == |s| - 1;
      }
    }
  }

  /** `concatenate(a, b)`: every element of `a` and `b` once, in order of
      first occurrence in `a` followed by `b`. */
  function Concatenate<T(==)>(a: seq<T>, b: seq<T>): (r: seq<T>)
    ensures forall i :: 0 <= i < |r| ==> r[i] in a || r[i] in b
    ensures forall i :: 0 <= i < |a| ==> a[i] in r
    ensures forall i :: 0 <= i < |b| ==> b[i] in r
    ensures forall i, j :: 0 <= i < j < |r| ==> r[i] != r[j]
    ensures forall i, j :: 0 <= i < j < |r| ==> FirstIndex(r[i], a + b) < FirstIndex(r[j], a + b)
  {
    assert forall i :: 0 <= i < |a| ==> (a + b)[i] == a[i];
    assert forall i :: 0 <= i < |b| ==> (a + b)[|a| + i] == b[i];
    DedupOrder(a + b);
    Dedup(a + b)
  }

  /** A sequence without repeated elements is its own `Dedup`. */
  lemma {:induction false} DedupDistinct<T>(s: seq<T>)
    requires forall i, j :: 0 <= i < j < |s| ==> s[i] != s[j]
    ensures Dedup(s) == s
    decreases |s|
  {
    if s != [] {
      var init := s[..|s| - 1];
      var x := s[|s| - 1];
      DedupDistinct(init);
      forall i | 0 <= i < |init|
        ensures init[i] != x
      {
        assert init[i] == s[i];
      }
      assert x !in Dedup(init);
    }
  }

  /** `join(delim, items)`: the items with `delim` between neighbours. */
  function Join(d: Unit, xs: seq<JString>): JString
  {
    if xs == [] then []
    else if |xs| == 1 then xs[0]
    else xs[0] + [d] + Join(d, xs[1..])
  }

  /** Every `d`-separated field of `s`, the empty ones included; the
      reference that `Split` trims. Read left to right: a delimiter opens a
      new field, any other unit extends the current one. */
  function Fields(d: Unit, s: JString): (r: seq<JString>)
    ensures |r| >= 1
    ensures forall i :: 0 <= i < |r| ==> d !in r[i]
    decreases |s|
  {
    if s == [] then [[]]
    else
      var f := Fields(d, s[..|s| - 1]);
      var c := s[|s| - 1];
      if c == d then f + [[]]
      else f[..|f| - 1] + [f[|f| - 1] + [c]]
  }

  lemma FieldsSnoc(d: Unit, t: JString, c: Unit)
    ensures var f := Fields(d, t);
      Fields(d, t + [c]) == if c == d then f + [[]] else f[..|f| - 1] + [f[|f| - 1] + [c]]
  {
    assert (t + [c])[..|t|] == t;
  }

  /** Appending one more field to a joined list. */
  lemma {:induction false} JoinSnoc(d: Unit, xs: seq<JString>, x: JString)
    requires xs != []
    ensures Join(d, xs + [x]) == Join(d, xs) + [d] + x
    decreases |xs|
  {
    if |xs| == 1 {
      assert xs + [x] == [xs[0], x];
    } else {
      assert (xs + [x])[1..] == xs[1..] + [x];
      JoinSnoc(d, xs[1..], x);
    }
  }

  /** Extending the last field extends the joined text. */
  lemma JoinExtendLast(d: Unit, xs: seq<JString>, c: Unit)
    requires xs != []
    ensures Join(d, xs[..|xs| - 1] + [xs[|xs| - 1] + [c]]) == Join(d, xs) + [c]
  {
    var init := xs[..|xs| - 1];
    var last := xs[|xs| - 1];
    if init == [] {
      assert xs == [last];
    } else {
      assert xs == init + [last];
      JoinSnoc(d, init, last);
      JoinSnoc(d, init, last + [c]);
    }
  }

  /** Joining the fields with the delimiter gives back the string. */
  lemma {:induction false} JoinFields(d: Unit, s: JString)
    ensures Join(d, Fields(d, s)) == s
    decreases |s|
  {
    if s != [] {
      var t := s[..|s| - 1];
      var c := s[|s| - 1];
      var f := Fields(d, t);
      JoinFields(d, t);
      FieldsSnoc(d, t, c);
      assert s == t + [c];
      if c == d {
        JoinSnoc(d, f, []);
      } else {
        JoinExtendLast(d, f, c);
      }
    }
  }

  /** `split(delim, s)`: the `d`-separated fields of `s`, where the final field
      is dropped when it is empty (so `""` has no fields and `"a:"` one). */
  function Split(d: Unit, s: JString): (r: seq<JString>)
    ensures r == [] <==> s == []
    ensures forall i :: 0 <= i < |r| ==> d !in r[i]
    ensures s != [] ==> Join(d, r) == (if s[|s| - 1] == d then s[..|s| - 1] else s)
  {
    if s == [] then []
    else if s[|s| - 1] == d then JoinFields(d, s[..|s| - 1]); Fields(d, s[..|s| - 1])
    else JoinFields(d, s); Fields(d, s)
  }

  /** Appending delimiter-free text extends the last field only. */
  lemma {:induction false} FieldsAppend(d: Unit, t: JString, u: JString)
    requires d !in u
    ensures var f := Fields(d, t); Fields(d, t + u) == f[..|f| - 1] + [f[|f| - 1] + u]
    decreases |u|
  {
    var f := Fields(d, t);
    if u == [] {
      assert t + u == t;
      assert f[|f| - 1] + u == f[|f| - 1];
      assert f[..|f| - 1] + [f[|f| - 1]] == f;
    } else {
      var v := u[..|u| - 1];
      var c := u[|u| - 1];
      assert u == v + [c];
      assert c != d && d !in v;
      FieldsAppend(d, t, v);
      var g := Fields(d, t + v);
      assert t + u == (t + v) + [c];
      FieldsSnoc(d, t + v, c);
      ExtendLastTwice(f, g, v, [c]);
    }
  }

  /** Extending the last element by `a` and then by `b` extends it by `a + b`. */
  lemma ExtendLastTwice(f: seq<JString>, g: seq<JString>, a: JString, b: JString)
    requires f != [] && g == f[..|f| - 1] + [f[|f| - 1] + a]
    ensures g[..|g| - 1] + [g[|g| - 1] + b] == f[..|f| - 1] + [f[|f| - 1] + (a + b)]
  {
    assert g[..|g| - 1] == f[..|f| - 1];
    assert g[|g| - 1] + b == f[|f| - 1] + (a + b);
  }

  /** `Fields` undoes `Join` for fields free of the delimiter. */
  lemma {:induction false} FieldsJoin(d: Unit, xs: seq<JString>)
    requires xs != []
    requires forall i :: 0 <= i < |xs| ==> d !in xs[i]
    ensures Fields(d, Join(d, xs)) == xs
    decreases |xs|
  {
    var init := xs[..|xs| - 1];
    var x := xs[|xs| - 1];
    if init == [] {
      assert xs == [x];
      FieldsAppend(d, [], x);
      assert [] + x == x;
      assert Join(d, xs) == x;
    } else {
      assert xs == init + [x];
      JoinSnoc(d, init, x);
      var a := Join(d, init);
      FieldsJoin(d, init);
      FieldsSnoc(d, a, d);
      FieldsAppend(d, a + [d], x);
      var g := init + [[]];
      assert Fields(d, a + [d]) == g;
      assert g[..|g| - 1] == init && g[|g| - 1] + x == x;
      assert Join(d, xs) == (a + [d]) + x;
    }
  }

  lemma {:induction false} JoinLastChar(d: Unit, xs: seq<JString>)
    requires xs != [] && xs[|xs| - 1] != []
    ensures var j := Join(d, xs); j != [] && j[|j| - 1] == xs[|xs| - 1][|xs[|xs| - 1]| - 1]
  {
    if |xs| > 1 {
      JoinLastChar(d, xs[1..]);
    }
  }

  /** `split` inverts `join` when no piece holds the delimiter and the last
      piece is not empty. */
  lemma SplitJoin(d: Unit, xs: seq<JString>)
    requires xs != [] && xs[|xs| - 1] != []
    requires forall i :: 0 <= i < |xs| ==> d !in xs[i]
    ensures Split(d, Join(d, xs)) == xs
  {
    JoinLastChar(d, xs);
    var last := xs[|xs| - 1];
    assert last[|last| - 1] in last;
    FieldsJoin(d, xs);
  }

  /** `join` inverts `split` on a string that does not end with the delimiter. */
  lemma JoinSplit(d: Unit, s: JString)
    requires s == [] || s[|s| - 1] != d
    ensures Join(d, Split(d, s)) == s
  {
  }

  /** One step of the scan: the unit at `i` either closes the current
      field or extends it. */
  lemma SplitStep(d: Unit, s: JString, i: nat, start: nat, r: seq<JString>)
    requires start <= i < |s|
    requires r + [s[start..i]] == Fields(d, s[..i])
    ensures s[i] == d ==> (r + [s[start..i]]) + [s[i + 1..i + 1]] == Fields(d, s[..i + 1])
    ensures s[i] != d ==> r + [s[start..i + 1]] == Fields(d, s[..i + 1])
  {
    FieldsSnoc(d, s[..i], s[i]);
    assert s[..i + 1] == s[..i] + [s[i]];
    assert s[i + 1..i + 1] == [];
    assert s[start..i] + [s[i]] == s[start..i + 1];
  }

  /** `split` as the Java loop computes it, field by field. */
  method SplitScan(d: Unit, s: JString) returns (r: seq<JString>)
    ensures r == Split(d, s)
  {
    r := [];
    var max := |s|;
    var start := 0;
    var i := 0;
    assert s[..0] == [];
    while i < max
      invariant 0 <= start <= i <= max
      invariant i < max ==> r + [s[start..i]] == Fields(d, s[..i])
      invariant i == max && max > 0 ==> r == Split(d, s)
      invariant max == 0 ==> r == []
    {
      var c := s[i];
      var last := i == max - 1;
      SplitStep(d, s, i, start, r);
      if c == d || last {
        if last {
          assert s[..i] == s[..|s| - 1];
          assert s[..i + 1] == s;
          if c == d {
            r := r + [s[start..i]];
          } else {
            r := r + [s[start..i + 1]];
          }
        } else {
          r := r + [s[start..i]];
        }
        start := i + 1;
      }
      i := i + 1;
    }
  }
}
