/** Java strings as sequences of UTF-16 code units, and the few `String`
    operations the plugins rely on. */
module JStrings {
  import opened Wrappers

  /** A Java `char`: one UTF-16 code unit, surrogates included. */
  type Unit = c: int | 0 <= c < 0x1_0000

  /** A Java `String`. */
  type JString = seq<Unit>

  /** A byte of encoded output. */
  type Byte = b: int | 0 <= b < 0x100

  /** The code units of a Dafny string literal. Every literal of the model is
      ASCII, for which this is the identity on code points. */
  function Lit(s: string): (r: JString)
    ensures |r| == |s|
  {
    seq(|s|, i requires 0 <= i < |s| => if s[i] as int < 0x1_0000 then s[i] as int else 0xFFFD)
  }

  const SPACE: Unit := 0x20
  const BACKSLASH: Unit := 0x5C
  const DOT: Unit := 0x2E
  const DASH: Unit := 0x2D
  const SLASH: Unit := 0x2F
  const COLON: Unit := 0x3A
  const COMMA: Unit := 0x2C
  const LF: Unit := 0x0A
  const CR: Unit := 0x0D

  /** A literal avoids every unit it does not spell. */
  lemma LitAvoids(s: string, u: Unit)
    requires u < 0xFFFD && forall c :: c in s ==> c as int != u
    ensures u !in Lit(s)
  {
    forall i | 0 <= i < |s|
      ensures Lit(s)[i] != u
    {
      assert s[i] in s;
    }
  }

  /** `a.compareTo(b) < 0`: lexicographic order on code units, a proper
      prefix coming first. */
  predicate Below(a: JString, b: JString)
  {
    if a == [] then b != []
    else if b == [] then false
    else a[0] < b[0] || (a[0] == b[0] && Below(a[1..], b[1..]))
  }

  lemma {:induction false} BelowIrreflexive(a: JString)
    ensures !Below(a, a)
  {
    if a != [] {
      BelowIrreflexive(a[1..]);
    }
  }

  lemma {:induction false} BelowAsymmetric(a: JString, b: JString)
    ensures Below(a, b) ==> !Below(b, a)
  {
    if a != [] && b != [] && a[0] == b[0] {
      BelowAsymmetric(a[1..], b[1..]);
    }
  }

  lemma {:induction false} BelowTransitive(a: JString, b: JString, c: JString)
    ensures Below(a, b) && Below(b, c) ==> Below(a, c)
  {
    if a != [] && b != [] && c != [] {
      BelowTransitive(a[1..], b[1..], c[1..]);
    }
  }

  lemma {:induction false} BelowTotal(a: JString, b: JString)
    ensures a == b || Below(a, b) || Below(b, a)
  {
    if a != [] && b != [] && a[0] == b[0] {
      BelowTotal(a[1..], b[1..]);
      if a[1..] == b[1..] {
        assert a == [a[0]] + a[1..] && b == [b[0]] + b[1..];
      }
    }
  }

  predicate IsLeast(m: JString, s: set<JString>)
  {
    m in s && forall k :: k in s && k != m ==> Below(m, k)
  }

  lemma LeastExists(s: set<JString>)
    requires s != {}
    ensures exists m :: IsLeast(m, s)
    decreases |s|
  {
    var x :| x in s;
    if s - {x} == {} {
      assert s == {x};
      assert IsLeast(x, s);
    } else {
      LeastExists(s - {x});
      var m :| IsLeast(m, s - {x});
      BelowTotal(x, m);
      if Below(x, m) {
        forall k | k in s && k != x
          ensures Below(x, k)
        {
          if k != m {
            BelowTransitive(x, m, k);
          }
        }
        assert IsLeast(x, s);
      } else {
        assert IsLeast(m, s);
      }
    }
  }

  lemma LeastUnique(s: set<JString>)
    ensures forall m, n :: IsLeast(m, s) && IsLeast(n, s) ==> m == n
  {
    forall m, n | IsLeast(m, s) && IsLeast(n, s)
      ensures m == n
    {
      if m != n {
        BelowAsymmetric(m, n);
      }
    }
  }

  /** The smallest string of a non-empty set. */
  function Least(s: set<JString>): (m: JString)
    requires s != {}
    ensures m in s
  {
    LeastExists(s);
    LeastUnique(s);
    var m :| IsLeast(m, s);
    m
  }

  /** Every other member of the set comes after `Least(s)`. */
  lemma LeastBelow(s: set<JString>, k: JString)
    requires k in s && k != Least(s)
    ensures Below(Least(s), k)
  {
    LeastExists(s);
    assert IsLeast(Least(s), s);
  }

  /** The strings of `s`, smallest first, as `Collections.sort` leaves a list
      of distinct keys. */
  function SortedKeys(s: set<JString>): (r: seq<JString>)
    ensures |r| == |s|
    ensures forall k :: k in s <==> k in r
    decreases |s|
  {
    if s == {} then []
    else
      var m := Least(s);
      [m] + SortedKeys(s - {m})
  }

  /** `SortedKeys` lists the set in strictly ascending order. */
  lemma {:induction false} SortedKeysAscending(s: set<JString>, i: nat, j: nat)
    requires i < j < |SortedKeys(s)|
    ensures Below(SortedKeys(s)[i], SortedKeys(s)[j])
    decreases |s|
  {
    var m := Least(s);
    var rest := SortedKeys(s - {m});
    assert SortedKeys(s) == [m] + rest;
    if i == 0 {
      var k := rest[j - 1];
      assert k in rest;
      LeastBelow(s, k);
    } else {
      SortedKeysAscending(s - {m}, i - 1, j - 1);
    }
  }

  /** Decimal digits of a natural number, most significant first. */
  function Digits(n: nat): (r: JString)
    ensures |r| > 0
    ensures forall i :: 0 <= i < |r| ==> 0x30 <= r[i] <= 0x39
    decreases n
  {
    if n < 10 then [0x30 + n] else Digits(n / 10) + [0x30 + n % 10]
  }

  /** `Integer.toString` / `Long.toString`. */
  function Decimal(n: int): JString
  {
    if n < 0 then [0x2D] + Digits(-n) else Digits(n)
  }

  /** The first index from `i` on of a unit above the space, or `|s|`. */
  function TrimStart(s: JString, i: nat): (r: nat)
    requires i <= |s|
    ensures i <= r <= |s| && (r < |s| ==> s[r] > SPACE)
    ensures forall k :: i <= k < r ==> s[k] <= SPACE
    decreases |s| - i
  {
    if i < |s| && s[i] <= SPACE then TrimStart(s, i + 1) else i
  }

  /** Counting down from `j` to `lo`, the end of the last unit above the space. */
  function TrimEnd(s: JString, lo: nat, j: nat): (r: nat)
    requires lo <= j <= |s|
    ensures lo <= r <= j && (r > lo ==> s[r - 1] > SPACE)
    ensures forall k :: r <= k < j ==> s[k] <= SPACE
    decreases j
  {
    if j > lo && s[j - 1] <= SPACE then TrimEnd(s, lo, j - 1) else j
  }

  /** `s.trim()`: without the units up to the space at either end. */
  function Trim(s: JString): (r: JString)
    ensures r != [] ==> r[0] > SPACE && r[|r| - 1] > SPACE
    ensures r == [] <==> forall i :: 0 <= i < |s| ==> s[i] <= SPACE
  {
    var a := TrimStart(s, 0);
    s[a..TrimEnd(s, a, |s|)]
  }

  /** `s.lastIndexOf(c)`, or `None` for -1. */
  function LastIndexOf(s: JString, c: Unit): (r: Option<nat>)
    ensures r.None? <==> c !in s
    ensures r.Some? ==> r.value < |s| && s[r.value] == c && c !in s[r.value + 1..]
  {
    if s == [] then None
    else if s[|s| - 1] == c then Some(|s| - 1)
    else
      var r := LastIndexOf(s[..|s| - 1], c);
      assert s == s[..|s| - 1] + [s[|s| - 1]];
      r
  }

  /** `s.indexOf(c)`, or `None` for -1. */
  function IndexOf(s: JString, c: Unit): (r: Option<nat>)
    ensures r.None? <==> c !in s
    ensures r.Some? ==> r.value < |s| && s[r.value] == c && c !in s[..r.value]
  {
    if s == [] then None
    else if s[0] == c then Some(0)
    else
      match IndexOf(s[1..], c)
      case None => None
      case Some(i) => Some(i + 1)
  }

  /** `s.replace(a, b)` for single characters. */
  function Replace(s: JString, a: Unit, b: Unit): (r: JString)
    ensures |r| == |s|
    ensures forall i :: 0 <= i < |s| ==> r[i] == (if s[i] == a then b else s[i])
  {
    seq(|s|, i requires 0 <= i < |s| => if s[i] == a then b else s[i])
  }

  /** Replacing `a` by a unit `b` the text lacks can be undone, and leaves
      no `a` behind. */
  lemma ReplaceUndo(s: JString, a: Unit, b: Unit)
    requires b !in s
    ensures Replace(Replace(s, a, b), b, a) == s
    ensures a != b ==> a !in Replace(s, a, b)
  {
    var r := Replace(s, a, b);
    forall i | 0 <= i < |s|
      ensures Replace(r, b, a)[i] == s[i]
    {
      assert s[i] != b;
    }
    if a != b {
      forall i | 0 <= i < |r|
        ensures r[i] != a
      {
      }
    }
  }

  /** `t` occurs in `s` (`s.contains(t)`). */
  ghost predicate IsInfix(t: JString, s: JString)
  {
    exists i :: OccursAt(t, s, i)
  }

  /** `t` occurs in `s` starting at index `i`. */
  predicate OccursAt(t: JString, s: JString, i: int)
  {
    0 <= i <= |s| - |t| && s[i..i + |t|] == t
  }

  /** Concatenation of a sequence of strings. */
  function Concat(xs: seq<JString>): JString
  {
    if xs == [] then [] else xs[0] + Concat(xs[1..])
  }

  lemma {:induction false} ConcatSplit(xs: seq<JString>, i: nat)
    requires i < |xs|
    ensures Concat(xs) == Concat(xs[..i]) + xs[i] + Concat(xs[i + 1..])
  {
    if i == 0 {
      assert xs[..0] == [];
    } else {
      ConcatSplit(xs[1..], i - 1);
      assert xs[1..][..i - 1] == xs[1..i];
      assert xs[1..][i - 1 + 1..] == xs[i + 1..];
      assert xs[..i] == [xs[0]] + xs[1..i];
    }
  }

  lemma {:induction false} ConcatAppend(xs: seq<JString>, ys: seq<JString>)
    ensures Concat(xs + ys) == Concat(xs) + Concat(ys)
  {
    if xs != [] {
      ConcatAppend(xs[1..], ys);
      assert (xs + ys)[1..] == xs[1..] + ys;
    } else {
      assert xs + ys == ys;
    }
  }

  /** Every element of `t` occurs in `s`, which contains `t` as a slice. */
  lemma InfixOfConcat(a: JString, t: JString, b: JString)
    ensures IsInfix(t, a + t + b)
  {
    var s := a + t + b;
    assert s[|a|..|a| + |t|] == t;
    assert OccursAt(t, s, |a|);
  }
}
