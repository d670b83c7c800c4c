/** The orders Python's `sorted` uses in scope selection: strings compare
    lexicographically by code point, and pure paths compare by the list of
    their '/'-separated parts, where the empty path prints, and so
    compares, as ".". */
module Ordering {
  import opened PathModel

  // ---------------------------------------------------------------------
  // Strings

  /** `a < b` on Python strings. */
  predicate StrLt(a: string, b: string)
    decreases |a|
  {
    if a == [] then b != []
    else if b == [] then false
    else a[0] < b[0] || (a[0] == b[0] && StrLt(a[1..], b[1..]))
  }

  lemma {:induction false} StrLtIrreflexive(a: string)
    ensures !StrLt(a, a)
    decreases |a|
  {
    if a != [] { StrLtIrreflexive(a[1..]); }
  }

  lemma {:induction false} StrLtTransitive(a: string, b: string, c: string)
    requires StrLt(a, b) && StrLt(b, c)
    ensures StrLt(a, c)
    decreases |a|
  {
    if a != [] && b != [] && c != [] && a[0] == b[0] == c[0] {
      StrLtTransitive(a[1..], b[1..], c[1..]);
    }
  }

  lemma {:induction false} StrLtTotal(a: string, b: string)
    requires a != b
    ensures StrLt(a, b) || StrLt(b, a)
    decreases |a|
  {
    if a != [] && b != [] && a[0] == b[0] {
      assert a == [a[0]] + a[1..] && b == [b[0]] + b[1..];
      StrLtTotal(a[1..], b[1..]);
    }
  }

  lemma StrLtAsymmetric(a: string, b: string)
    requires StrLt(a, b)
    ensures !StrLt(b, a)
  {
    if StrLt(b, a) {
      StrLtTransitive(a, b, a);
      StrLtIrreflexive(a);
    }
  }

  predicate StrictlySorted(s: seq<string>) {
    forall i, j :: 0 <= i < j < |s| ==> StrLt(s[i], s[j])
  }

  /** Insert `x` into a strictly ascending list, dropping it when present. */
  function InsertUnique(x: string, s: seq<string>): (r: seq<string>)
    requires StrictlySorted(s)
    ensures StrictlySorted(r)
    ensures forall y :: y in r <==> y == x || y in s
    ensures |r| <= |s| + 1
  {
    if s == [] then [x]
    else if x == s[0] then s
    else if StrLt(x, s[0]) then
      assert forall j :: 0 <= j < |s| ==> StrLt(x, s[j]) by {
        forall j | 0 <= j < |s| ensures StrLt(x, s[j]) {
          if j > 0 { StrLtTransitive(x, s[0], s[j]); }
        }
      }
      [x] + s
    else
      StrLtTotal(x, s[0]);
      var t := InsertUnique(x, s[1..]);
      assert forall y :: y in t ==> StrLt(s[0], y);
      [s[0]] + t
  }

  /** `sorted(set(xs))`: the distinct strings of `xs` in ascending order. */
  function SortedUnique(xs: seq<string>): (r: seq<string>)
    ensures StrictlySorted(r)
    ensures forall y :: y in r <==> y in xs
    ensures |r| <= |xs|
  {
    if xs == [] then [] else InsertUnique(xs[|xs| - 1], SortedUnique(xs[..|xs| - 1]))
  }

  // ---------------------------------------------------------------------
  // Paths

  /** Lexicographic order of two part lists, parts compared as strings. */
  predicate PartsLt(a: seq<string>, b: seq<string>)
    decreases |a|
  {
    if a == [] then b != []
    else if b == [] then false
    else StrLt(a[0], b[0]) || (a[0] == b[0] && PartsLt(a[1..], b[1..]))
  }

  /** The parts a path is compared by: the empty path prints as ".". */
  function SortKey(p: Path): seq<string> {
    if p == [] then ["."] else p
  }

  /** `p < q` on pure paths. */
  predicate PathLt(p: Path, q: Path) {
    PartsLt(SortKey(p), SortKey(q))
  }

  /** `p <= q` on pure paths. */
  predicate PathLe(p: Path, q: Path) {
    !PathLt(q, p)
  }

  lemma {:induction false} PartsLtIrreflexive(a: seq<string>)
    ensures !PartsLt(a, a)
    decreases |a|
  {
    if a != [] {
      StrLtIrreflexive(a[0]);
      PartsLtIrreflexive(a[1..]);
    }
  }

  lemma {:induction false} PartsLtTransitive(a: seq<string>, b: seq<string>, c: seq<string>)
    requires PartsLt(a, b) && PartsLt(b, c)
    ensures PartsLt(a, c)
    decreases |a|
  {
    if a != [] && b != [] && c != [] {
      if StrLt(a[0], b[0]) && StrLt(b[0], c[0]) {
        StrLtTransitive(a[0], b[0], c[0]);
      } else if a[0] == b[0] == c[0] {
        PartsLtTransitive(a[1..], b[1..], c[1..]);
      }
    }
  }

  lemma {:induction false} PartsLtTotal(a: seq<string>, b: seq<string>)
    requires a != b
    ensures PartsLt(a, b) || PartsLt(b, a)
    decreases |a|
  {
    if a != [] && b != [] {
      if a[0] == b[0] {
        assert a == [a[0]] + a[1..] && b == [b[0]] + b[1..];
        PartsLtTotal(a[1..], b[1..]);
      } else {
        StrLtTotal(a[0], b[0]);
      }
    }
  }

  /** A proper ancestor sorts strictly before its descendants. */
  lemma {:induction false} ProperPrefixLt(a: seq<string>, b: seq<string>)
    requires IsPrefix(a, b) && a != b
    ensures PartsLt(a, b)
    decreases |a|
  {
    if a != [] {
      assert a[1..] == b[1..][..|a| - 1];
      ProperPrefixLt(a[1..], b[1..]);
    }
  }

  /** In the path order, a proper ancestor other than the root sorts
      strictly before its descendants. */
  lemma {:induction false} ProperAncestorPathLt(a: Path, b: Path)
    requires IsPrefix(a, b) && a != b && a != []
    ensures PathLt(a, b)
  {
    ProperPrefixLt(a, b);
  }

  /** The root is the exception: it is compared as ["."], so a top-level
      name such as "-a", whose first character precedes '.', sorts before
      it. */
  lemma RootAfterDash()
    ensures IsPrefix([], ["-a"])
    ensures PathLt(["-a"], []) && !PathLt([], ["-a"])
  {
    assert StrLt("-a", ".");
    assert SortKey([]) == ["."];
    assert !StrLt(".", "-a");
  }

  lemma PathLeTotal(p: Path, q: Path)
    ensures PathLe(p, q) || PathLe(q, p)
  {
    if PathLt(q, p) && PathLt(p, q) {
      PartsLtTransitive(SortKey(p), SortKey(q), SortKey(p));
      PartsLtIrreflexive(SortKey(p));
    }
  }

  lemma PathLeTransitive(p: Path, q: Path, r: Path)
    requires PathLe(p, q) && PathLe(q, r)
    ensures PathLe(p, r)
  {
    if PathLt(r, p) {
      if SortKey(q) == SortKey(p) {
      } else {
        PartsLtTotal(SortKey(p), SortKey(q));
        PartsLtTransitive(SortKey(r), SortKey(p), SortKey(q));
      }
    }
  }

  predicate PathsSorted(s: seq<Path>) {
    forall i, j :: 0 <= i < j < |s| ==> PathLe(s[i], s[j])
  }

  /** Insert `x` into an ascending list of paths before the first greater
      element. */
  function InsertPath(x: Path, s: seq<Path>): (r: seq<Path>)
    requires PathsSorted(s)
    ensures PathsSorted(r)
    ensures multiset(r) == multiset(s) + multiset{x}
  {
    if s == [] then [x]
    else if PathLe(x, s[0]) then
      InsertFront(x, s);
      [x] + s
    else
      var t := InsertPath(x, s[1..]);
      InsertBehind(x, s, t);
      [s[0]] + t
  }

  /** A head no greater than the first element keeps a list sorted. */
  lemma InsertFront(x: Path, s: seq<Path>)
    requires PathsSorted(s) && s != [] && PathLe(x, s[0])
    ensures PathsSorted([x] + s)
  {
    forall j | 0 <= j < |s| ensures PathLe(x, s[j]) {
      if j > 0 { PathLeTransitive(x, s[0], s[j]); }
    }
    ConsSorted(x, s);
  }

  /** The first element stays in front of a list where `x` was inserted
      into the rest, when `x` is greater than it. */
  lemma InsertBehind(x: Path, s: seq<Path>, t: seq<Path>)
    requires PathsSorted(s) && s != [] && !PathLe(x, s[0])
    requires PathsSorted(t) && multiset(t) == multiset(s[1..]) + multiset{x}
    ensures PathsSorted([s[0]] + t)
    ensures multiset([s[0]] + t) == multiset(s) + multiset{x}
  {
    PathLeTotal(x, s[0]);
    assert s == [s[0]] + s[1..];
    forall j | 0 <= j < |t| ensures PathLe(s[0], t[j]) {
      assert t[j] in multiset(t);
      if t[j] != x {
        assert t[j] in multiset(s[1..]);
        var k :| 0 <= k < |s[1..]| && s[1..][k] == t[j];
        assert s[k + 1] == t[j];
      }
    }
    ConsSorted(s[0], t);
  }

  lemma ConsSorted(h: Path, t: seq<Path>)
    requires PathsSorted(t)
    requires forall j :: 0 <= j < |t| ==> PathLe(h, t[j])
    ensures PathsSorted([h] + t)
  {
    var r := [h] + t;
    forall i, j | 0 <= i < j < |r| ensures PathLe(r[i], r[j]) {
      assert r[j] == t[j - 1];
      if i > 0 { assert r[i] == t[i - 1]; }
    }
  }

  /** `sorted(paths)`: the same paths, duplicates kept, in ascending order. */
  function SortPaths(xs: seq<Path>): (r: seq<Path>)
    ensures PathsSorted(r)
    ensures multiset(r) == multiset(xs)
  {
    if xs == [] then []
    else
      assert xs == xs[..|xs| - 1] + [xs[|xs| - 1]];
      InsertPath(xs[|xs| - 1], SortPaths(xs[..|xs| - 1]))
  }
}
