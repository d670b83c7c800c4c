/** Strings and repository-relative paths, as the pipeline sees them.

    A path is the sequence of its components: `Path("a/b/c")` is
    ["a", "b", "c"] and `Path(".")` is []. Parsing a line of the listing
    tool's output splits it on '/' and drops empty and "." components, which
    is how a relative PurePosixPath normalises its input; `relative_to`
    then becomes a component-wise prefix test and `len(p.parents)` the
    number of components. */
module PathModel {

  type Path = seq<string>

  // ---------------------------------------------------------------------
  // Characters and strings

  /** The characters Python's `str.isspace` (and so `str.strip`) treats as
      whitespace. */
  predicate IsSpace(c: char) {
    ('\t' <= c <= '\r') || ('\U{1C}' <= c <= '\U{1F}') || c == ' '
    || c == '\U{85}' || c == '\U{A0}' || c == '\U{1680}'
    || ('\U{2000}' <= c <= '\U{200A}') || c == '\U{2028}' || c == '\U{2029}'
    || c == '\U{202F}' || c == '\U{205F}' || c == '\U{3000}'
  }

  function StripLeft(s: string): (r: string)
    ensures |r| <= |s| && r == s[|s| - |r|..]
    ensures r == [] || !IsSpace(r[0])
    ensures forall i :: 0 <= i < |s| - |r| ==> IsSpace(s[i])
  {
    if s != [] && IsSpace(s[0]) then StripLeft(s[1..]) else s
  }

  function StripRight(s: string): (r: string)
    ensures |r| <= |s| && r == s[..|r|]
    ensures r == [] || !IsSpace(r[|r| - 1])
    ensures forall i :: |r| <= i < |s| ==> IsSpace(s[i])
  {
    if s != [] && IsSpace(s[|s| - 1]) then StripRight(s[..|s| - 1]) else s
  }

  /** `r` sits at position `i` of `s`, and every character of `s` outside
      it is whitespace. */
  predicate SpaceAround(s: string, i: int, r: string) {
    && 0 <= i <= |s| - |r| && r == s[i..i + |r|]
    && (forall k :: 0 <= k < i ==> IsSpace(s[k]))
    && (forall k :: i + |r| <= k < |s| ==> IsSpace(s[k]))
  }

  /** `s.strip()`: the infix left once the whitespace at both ends is cut
      off. The result neither starts nor ends with whitespace, and only
      whitespace lies outside it, so it is the longest such infix. */
  function Strip(s: string): (r: string)
    ensures r == [] || (!IsSpace(r[0]) && !IsSpace(r[|r| - 1]))
    ensures exists i :: SpaceAround(s, i, r)
  {
    StripBothEnds(s);
    StripRight(StripLeft(s))
  }

  /** Cutting the leading and then the trailing whitespace leaves only
      whitespace around the result. */
  lemma StripBothEnds(s: string)
    ensures SpaceAround(s, |s| - |StripLeft(s)|, StripRight(StripLeft(s)))
  {
    SpaceAroundOfSuffix(s, StripLeft(s), StripRight(StripLeft(s)));
  }

  /** Whitespace cut off a suffix `l` of `s`, after whitespace cut off the
      front of `s`, is whitespace around `r` in `s`. */
  lemma SpaceAroundOfSuffix(s: string, l: string, r: string)
    requires |l| <= |s| && l == s[|s| - |l|..]
    requires forall k :: 0 <= k < |s| - |l| ==> IsSpace(s[k])
    requires |r| <= |l| && r == l[..|r|]
    requires forall k :: |r| <= k < |l| ==> IsSpace(l[k])
    ensures SpaceAround(s, |s| - |l|, r)
  {
    var i := |s| - |l|;
    InfixOfSuffix(s, i, |r|);
    forall k | i + |r| <= k < |s|
      ensures IsSpace(s[k])
    {
      assert s[k] == l[k - i];
    }
  }

  lemma InfixOfSuffix(s: string, i: nat, n: nat)
    requires i + n <= |s|
    ensures s[i..][..n] == s[i..i + n]
  {
  }

  function LowerChar(c: char): (d: char)
    ensures !('A' <= d <= 'Z')
    ensures !('A' <= c <= 'Z') ==> d == c
  {
    if 'A' <= c <= 'Z' then (c as int + 32) as char else c
  }

  /** `s.lower()`, on the ASCII letters. */
  function Lower(s: string): (r: string)
    ensures |r| == |s|
    ensures forall i :: 0 <= i < |s| ==> r[i] == LowerChar(s[i])
  {
    seq(|s|, i requires 0 <= i < |s| => LowerChar(s[i]))
  }

  /** No upper-case letter in `s` from position `i` on. */
  predicate IsLowerFrom(s: string, i: nat)
    decreases |s| - i
  {
    i >= |s| || (!('A' <= s[i] <= 'Z') && IsLowerFrom(s, i + 1))
  }

  /** No upper-case letter in `s`. */
  predicate IsLower(s: string) {
    IsLowerFrom(s, 0)
  }

  lemma {:induction false} IsLowerFromIff(s: string, i: nat)
    ensures IsLowerFrom(s, i) <==> forall j :: i <= j < |s| ==> !('A' <= s[j] <= 'Z')
    decreases |s| - i
  {
    if i < |s| { IsLowerFromIff(s, i + 1); }
  }

  lemma IsLowerIff(s: string)
    ensures IsLower(s) <==> forall j :: 0 <= j < |s| ==> !('A' <= s[j] <= 'Z')
  {
    IsLowerFromIff(s, 0);
  }

  lemma LowerIsLower(s: string)
    ensures IsLower(Lower(s)) && Lower(Lower(s)) == Lower(s)
  {
    IsLowerIff(Lower(s));
  }

  /** A string with an upper-case letter is never the result of `lower`. */
  lemma LowerNeverUpper(s: string, t: string)
    requires !IsLower(t)
    ensures Lower(s) != t
  {
    LowerIsLower(s);
  }

  /** `lower` leaves a string without upper-case letters unchanged. */
  lemma LowerOfLower(s: string)
    requires forall j :: 0 <= j < |s| ==> !('A' <= s[j] <= 'Z')
    ensures Lower(s) == s
  {
    assert forall j :: 0 <= j < |s| ==> Lower(s)[j] == s[j];
  }

  lemma LowerCons(c: char, s: string)
    ensures Lower([c] + s) == [LowerChar(c)] + Lower(s)
  {
    assert ([c] + s)[1..] == s;
  }

  lemma LowerPrefix(s: string, n: nat)
    requires n <= |s|
    ensures Lower(s[..n]) == Lower(s)[..n]
  {
  }

  predicate IsPrefix<T(==)>(a: seq<T>, b: seq<T>) {
    |a| <= |b| && b[..|a|] == a
  }

  /** `sub in s` for strings. */
  predicate Contains(s: string, sub: string)
    decreases |s|
  {
    IsPrefix(sub, s) || (s != [] && Contains(s[1..], sub))
  }

  lemma {:induction false} ContainsAt(s: string, sub: string, i: nat)
    requires i <= |s| && IsPrefix(sub, s[i..])
    ensures Contains(s, sub)
    decreases i
  {
    if i > 0 {
      assert s[1..][i - 1..] == s[i..];
      ContainsAt(s[1..], sub, i - 1);
    }
  }

  /** The substring test finds `sub` wherever it occurs, and only there. */
  lemma {:induction false} ContainsIff(s: string, sub: string)
    ensures Contains(s, sub) <==> exists i :: 0 <= i <= |s| && IsPrefix(sub, s[i..])
    decreases |s|
  {
    if Contains(s, sub) {
      if !IsPrefix(sub, s) {
        ContainsIff(s[1..], sub);
        var i :| 0 <= i <= |s[1..]| && IsPrefix(sub, s[1..][i..]);
        assert s[1..][i..] == s[i + 1..];
      } else {
        assert s[0..] == s;
      }
    } else {
      forall i | 0 <= i <= |s| ensures !IsPrefix(sub, s[i..]) {
        if IsPrefix(sub, s[i..]) { ContainsAt(s, sub, i); }
      }
    }
  }

  /** A string lacking one of the characters of `sub` does not contain it. */
  lemma MissingCharNotContained(s: string, sub: string, c: char)
    requires c in sub && c !in s
    ensures !Contains(s, sub)
  {
    ContainsIff(s, sub);
    var k :| 0 <= k < |sub| && sub[k] == c;
    forall i | 0 <= i <= |s| ensures !IsPrefix(sub, s[i..]) {
      assert i + k < |s| ==> s[i + k] != c;
    }
  }

  // ---------------------------------------------------------------------
  // Splitting and joining on '/'

  /** `s.split("/")`. */
  function Split(s: string): (r: seq<string>)
    ensures |r| >= 1
    decreases |s|
  {
    if s == [] then [""]
    else if s[0] == '/' then [""] + Split(s[1..])
    else var t := Split(s[1..]); [[s[0]] + t[0]] + t[1..]
  }

  predicate IsComponent(c: string) {
    c != "" && c != "." && '/' !in c
  }

  /** The components a path keeps after normalisation. */
  function KeepComponents(cs: seq<string>): (r: Path)
    ensures (forall c :: c in cs ==> '/' !in c) ==> WellFormed(r)
    ensures forall c :: c in r ==> c in cs
  {
    if cs == [] then []
    else if cs[0] == "" || cs[0] == "." then KeepComponents(cs[1..])
    else [cs[0]] + KeepComponents(cs[1..])
  }

  lemma SplitParts(s: string)
    ensures forall c :: c in Split(s) ==> '/' !in c
    decreases |s|
  {
    if s != [] { SplitParts(s[1..]); }
  }

  /** `Path(s)` for a relative path string. */
  function ParsePath(s: string): (p: Path)
    ensures WellFormed(p)
  {
    SplitParts(s);
    KeepComponents(Split(s))
  }

  /** The path a line of the listing tool's output names:
      `Path(line.strip())`. */
  function EntryPath(line: string): (p: Path)
    ensures WellFormed(p)
  {
    ParsePath(Strip(line))
  }

  predicate WellFormed(p: Path) {
    forall i :: 0 <= i < |p| ==> IsComponent(p[i])
  }

  function Join(p: Path): string
    requires p != []
  {
    if |p| == 1 then p[0] else p[0] + "/" + Join(p[1..])
  }

  /** `str(p)`: the components joined by '/', or "." for the empty path. */
  function Str(p: Path): string {
    if p == [] then "." else Join(p)
  }

  lemma {:induction false} SplitNoSlash(a: string)
    requires '/' !in a
    ensures Split(a) == [a]
    decreases |a|
  {
    if a != [] {
      SplitNoSlash(a[1..]);
      assert [a[0]] + a[1..] == a;
    }
  }

  lemma {:induction false} SplitConcat(a: string, b: string)
    requires '/' !in a
    ensures Split(a + "/" + b) == [a] + Split(b)
    decreases |a|
  {
    if a == [] {
      assert a + "/" + b == "/" + b;
      assert ("/" + b)[1..] == b;
    } else {
      var s := a + "/" + b;
      assert s[1..] == a[1..] + "/" + b;
      SplitConcat(a[1..], b);
      assert [a[0]] + a[1..] == a;
    }
  }

  lemma {:induction false} SplitJoin(p: Path)
    requires p != [] && WellFormed(p)
    ensures Split(Join(p)) == p
    decreases |p|
  {
    if |p| == 1 {
      SplitNoSlash(p[0]);
    } else {
      SplitConcat(p[0], Join(p[1..]));
      SplitJoin(p[1..]);
      assert p == [p[0]] + p[1..];
    }
  }

  lemma {:induction false} KeepWellFormed(p: Path)
    requires WellFormed(p)
    ensures KeepComponents(p) == p
    decreases |p|
  {
    if p != [] {
      KeepWellFormed(p[1..]);
      assert p == [p[0]] + p[1..];
    }
  }

  /** Parsing the printed form of a normalised path gives the path back, so
      a path that is stored as `str(p)` and read again as `Path(...)` is the
      same path. */
  lemma ParseStr(p: Path)
    requires WellFormed(p)
    ensures ParsePath(Str(p)) == p
  {
    if p == [] {
      assert Split("") == [""];
      assert "."[1..] == "";
      assert ['.'] + Split("")[0] == ".";
      assert Split(".") == ["."];
      assert KeepComponents(["."]) == KeepComponents([]);
    } else {
      SplitJoin(p);
      KeepWellFormed(p);
    }
  }

  // ---------------------------------------------------------------------
  // Path queries

  /** `p.name`: the last component, "" for the empty path. */
  function Name(p: Path): string {
    if p == [] then "" else p[|p| - 1]
  }

  /** `p.parent`: the empty path is its own parent. */
  function Parent(p: Path): (q: Path)
    ensures p != [] ==> q + [Name(p)] == p
    ensures p == [] ==> q == []
  {
    if p == [] then [] else p[..|p| - 1]
  }

  /** `len(p.parents)` for a relative path. */
  function Depth(p: Path): nat {
    |p|
  }

  /** `self.relative_to(other)` succeeds: `other` is `self` or one of its
      ancestors, compared component by component. */
  predicate RelativeTo(self: Path, other: Path) {
    IsPrefix(other, self)
  }

  /** Index of the last '.' in `s`, or -1 (`s.rfind(".")`). */
  function RFindDot(s: string): (i: int)
    ensures -1 <= i < |s|
    ensures i >= 0 ==> s[i] == '.'
    ensures forall j :: i < j < |s| ==> s[j] != '.'
  {
    if s == [] then -1
    else if s[|s| - 1] == '.' then |s| - 1
    else RFindDot(s[..|s| - 1])
  }

  /** `PurePath.suffix` of a name: from the last dot on, provided the dot is
      neither the first nor the last character. */
  function Suffix(name: string): (r: string)
    ensures r == [] || (r[0] == '.' && |r| < |name| && r == name[|name| - |r|..])
    ensures r != [] ==> 1 < |r| && '.' !in r[1..]
    ensures r == [] <==> !exists i :: 0 < i < |name| - 1 && name[i] == '.' && '.' !in name[i + 1..]
  {
    var i := RFindDot(name);
    if 0 < i < |name| - 1 then
      var tail := name[i + 1..];
      assert '.' !in tail by {
        forall k | 0 <= k < |tail| ensures tail[k] != '.' {
          assert tail[k] == name[i + 1 + k];
        }
      }
      name[i..]
    else
      assert !exists j :: 0 < j < |name| - 1 && name[j] == '.' && '.' !in name[j + 1..] by {
        forall j | 0 < j < |name| - 1 && name[j] == '.'
          ensures '.' in name[j + 1..]
        {
          assert i >= j;
          assert i > j by {
            assert i != j;
          }
          assert name[j + 1..][i - j - 1] == '.';
        }
      }
      ""
  }

  /** A name without a dot has no suffix. */
  lemma NoDotSuffix(name: string)
    requires '.' !in name
    ensures Suffix(name) == ""
  {
  }

  /** `PurePath.stem` of a name: the name without its suffix. */
  function Stem(name: string): (r: string)
    ensures IsPrefix(r, name)
    ensures r + Suffix(name) == name
  {
    var i := RFindDot(name);
    if 0 < i < |name| - 1 then name[..i] else name
  }
}
