/**
 * Paths as sequences of components, and the lexical order in which
 * `filepath.Walk` visits them: the names in each directory are sorted as
 * strings, and a directory comes before everything beneath it.
 */
module PathOrder {

  type Path = seq<string>

  /** Strict lexicographic order on strings (Go compares names byte by byte;
      for UTF-8 text that is the order of code points). */
  predicate StrLess(a: string, b: string) {
    if |a| == 0 then |b| > 0
    else if |b| == 0 then false
    else if a[0] != b[0] then a[0] < b[0]
    else StrLess(a[1..], b[1..])
  }

  /** Strict lexicographic order on paths, component by component. */
  predicate PathLess(a: Path, b: Path) {
    if |a| == 0 then |b| > 0
    else if |b| == 0 then false
    else if a[0] != b[0] then StrLess(a[0], b[0])
    else PathLess(a[1..], b[1..])
  }

  lemma StrLessIrreflexive(a: string)
    ensures !StrLess(a, a)
  {
  }

  lemma StrLessTransitive(a: string, b: string, c: string)
    requires StrLess(a, b) && StrLess(b, c)
    ensures StrLess(a, c)
  {
  }

  lemma {:induction false} StrLessTotal(a: string, b: string)
    requires a != b
    ensures StrLess(a, b) || StrLess(b, a)
  {
    if |a| > 0 && |b| > 0 && a[0] == b[0] {
      assert a == [a[0]] + a[1..] && b == [b[0]] + b[1..];
      StrLessTotal(a[1..], b[1..]);
    }
  }

  lemma {:induction false} PathLessIrreflexive(a: Path)
    ensures !PathLess(a, a)
  {
    if |a| > 0 {
      PathLessIrreflexive(a[1..]);
    }
  }

  lemma {:induction false} PathLessTransitive(a: Path, b: Path, c: Path)
    requires PathLess(a, b) && PathLess(b, c)
    ensures PathLess(a, c)
  {
    if |a| > 0 && |b| > 0 && |c| > 0 {
      if a[0] == b[0] && b[0] == c[0] {
        PathLessTransitive(a[1..], b[1..], c[1..]);
      } else if a[0] != b[0] && b[0] != c[0] {
        StrLessTransitive(a[0], b[0], c[0]);
        if a[0] == c[0] {
          StrLessIrreflexive(a[0]);
        }
      }
    }
  }

  lemma {:induction false} PathLessTotal(a: Path, b: Path)
    requires a != b
    ensures PathLess(a, b) || PathLess(b, a)
  {
    if |a| > 0 && |b| > 0 {
      if a[0] == b[0] {
        assert a == [a[0]] + a[1..] && b == [b[0]] + b[1..];
        PathLessTotal(a[1..], b[1..]);
      } else {
        StrLessTotal(a[0], b[0]);
      }
    }
  }

  /** A path comes before every path beneath it. */
  lemma {:induction false} PrefixFirst(a: Path, b: Path)
    requires a < b
    ensures PathLess(a, b)
  {
    if |a| > 0 {
      assert a[1..] < b[1..];
      PrefixFirst(a[1..], b[1..]);
    }
  }

  ghost predicate IsLeast(m: Path, s: set<Path>) {
    m in s && forall y :: y in s && y != m ==> PathLess(m, y)
  }

  lemma {:induction false} LeastExists(s: set<Path>)
    requires s != {}
    ensures exists m :: IsLeast(m, s)
    decreases |s|
  {
    var x :| x in s;
    if s != {x} {
      var rest := s - {x};
      LeastExists(rest);
      var m :| IsLeast(m, rest);
      PathLessTotal(x, m);
      if PathLess(x, m) {
        forall y | y in s && y != x
          ensures PathLess(x, y)
        {
          if y != m {
            PathLessTransitive(x, m, y);
          }
        }
        assert IsLeast(x, s);
      } else {
        assert IsLeast(m, s);
      }
    } else {
      assert IsLeast(x, s);
    }
  }

  lemma LeastUnique(a: Path, b: Path, s: set<Path>)
    requires IsLeast(a, s) && IsLeast(b, s)
    ensures a == b
  {
    if a != b {
      PathLessTransitive(a, b, a);
      PathLessIrreflexive(a);
    }
  }

  /** The least path of a non-empty set. */
  ghost function Least(s: set<Path>): (m: Path)
    requires s != {}
    ensures IsLeast(m, s)
  {
    LeastExists(s);
    var m :| IsLeast(m, s);
    m
  }

  /** The paths of `s` in increasing order. */
  ghost function Sorted(s: set<Path>): (r: seq<Path>)
    ensures |r| == |s|
    ensures forall p :: p in r <==> p in s
    ensures forall i, j :: 0 <= i < j < |r| ==> PathLess(r[i], r[j])
    decreases |s|
  {
    if s == {} then []
    else
      var m := Least(s);
      var tail := Sorted(s - {m});
      assert forall j :: 0 <= j < |tail| ==> PathLess(m, tail[j]) by {
        forall j | 0 <= j < |tail|
          ensures PathLess(m, tail[j])
        {
          assert tail[j] in s - {m};
        }
      }
      [m] + tail
  }

  lemma SortedFirst(s: set<Path>)
    requires s != {}
    ensures Sorted(s) == [Least(s)] + Sorted(s - {Least(s)})
  {
  }

  /** Picks the least path of `s` by scanning it once. */
  method LeastOf(s: set<Path>) returns (m: Path)
    requires s != {}
    ensures m == Least(s)
  {
    m :| m in s;
    var rest := s - {m};
    while rest != {}
      invariant rest <= s && m in s && m !in rest
      invariant forall y :: y in s - rest && y != m ==> PathLess(m, y)
      decreases |rest|
    {
      var x :| x in rest;
      if PathLess(x, m) {
        forall y | y in s - rest && y != x
          ensures PathLess(x, y)
        {
          if y != m {
            PathLessTransitive(x, m, y);
          }
        }
        m := x;
      } else if x != m {
        PathLessTotal(x, m);
      }
      rest := rest - {x};
    }
    assert s - rest == s;
    LeastUnique(m, Least(s), s);
  }
}
