/** Phase one of `generate_tags_jsonl`: the context files, read in full,
    written in priority order. The candidate names are drained from the
    pool of context paths one at a time, each candidate's matches shallowest
    first, and whatever no candidate claimed follows, also shallowest
    first. */
module ContextEmitter {
  import opened Wrappers
  import opened PathModel
  import opened Reader
  import opened Records

  predicate Distinct<T(==)>(s: seq<T>) {
    forall i, j :: 0 <= i < j < |s| ==> s[i] != s[j]
  }

  // ---------------------------------------------------------------------
  // The priority list

  /** Position of the first occurrence of `x` in `xs`. */
  function IndexOf(xs: seq<string>, x: string): (i: nat)
    requires x in xs
    ensures i < |xs| && xs[i] == x
    ensures forall j :: 0 <= j < i ==> xs[j] != x
  {
    if xs[0] == x then 0 else 1 + IndexOf(xs[1..], x)
  }

  lemma IndexOfPrefix(xs: seq<string>, y: string, x: string)
    requires x in xs
    ensures IndexOf(xs + [y], x) == IndexOf(xs, x)
  {
    var i := IndexOf(xs, x);
    assert (xs + [y])[i] == x;
  }

  /** `list(dict.fromkeys(xs))`: the distinct names of `xs`, each at the
      place of its first occurrence. */
  function Dedup(xs: seq<string>): (r: seq<string>)
    ensures Distinct(r)
    ensures forall x :: x in r <==> x in xs
    ensures forall i, j :: 0 <= i < j < |r| ==> IndexOf(xs, r[i]) < IndexOf(xs, r[j])
  {
    if xs == [] then []
    else
      var init := xs[..|xs| - 1];
      var last := xs[|xs| - 1];
      var d := Dedup(init);
      DedupStep(xs);
      if last in d then d else d + [last]
  }

  /** The first occurrences in `xs` of the names before its last one are
      their first occurrences in the prefix; a last name not seen before
      first occurs at the end. */
  lemma DedupStep(xs: seq<string>)
    requires xs != []
    ensures forall x :: x in xs[..|xs| - 1] ==> IndexOf(xs, x) == IndexOf(xs[..|xs| - 1], x)
    ensures xs[|xs| - 1] !in xs[..|xs| - 1] ==> IndexOf(xs, xs[|xs| - 1]) == |xs| - 1
    ensures forall x :: x in xs <==> x in xs[..|xs| - 1] || x == xs[|xs| - 1]
  {
    var init, last := xs[..|xs| - 1], xs[|xs| - 1];
    assert xs == init + [last];
    forall x | x in init ensures IndexOf(xs, x) == IndexOf(init, x) {
      IndexOfPrefix(init, last, x);
    }
  }

  /** `ordered_candidates`: the universal names, then the manifests in the
      order `manifestOrder` enumerates them, each name once. */
  function OrderedCandidates(universal: seq<string>, manifestOrder: seq<string>): (r: seq<string>)
    ensures Distinct(r)
    ensures forall x :: x in r <==> x in universal || x in manifestOrder
    ensures forall i, j :: 0 <= i < j < |r| ==>
      IndexOf(universal + manifestOrder, r[i]) < IndexOf(universal + manifestOrder, r[j])
  {
    Dedup(universal + manifestOrder)
  }

  /** The universal names keep their order and come first. */
  lemma UniversalFirst(universal: seq<string>, manifestOrder: seq<string>, i: nat, j: nat)
    requires var r := OrderedCandidates(universal, manifestOrder);
      i < |r| && j < |r| && r[i] in universal && r[j] !in universal
    ensures i < j
  {
    var r := OrderedCandidates(universal, manifestOrder);
    var xs := universal + manifestOrder;
    var a := IndexOf(xs, r[i]);
    var b := IndexOf(xs, r[j]);
    var u := IndexOf(universal, r[i]);
    assert xs[u] == r[i];
    assert a < |universal|;
    assert forall k :: 0 <= k < |universal| ==> xs[k] == universal[k];
    assert b >= |universal|;
  }

  // ---------------------------------------------------------------------
  // Ranking a context path

  /** The index of the first candidate whose lower-cased form is the
      lower-cased `name`, or the number of candidates when there is none:
      the pass of the priority loop that takes a file of that name. */
  function MatchIndex(candidates: seq<string>, name: string): (r: nat)
    ensures r <= |candidates|
    ensures r < |candidates| ==> Lower(candidates[r]) == Lower(name)
    ensures forall j :: 0 <= j < r ==> Lower(candidates[j]) != Lower(name)
  {
    if candidates == [] then 0
    else if Lower(candidates[0]) == Lower(name) then 0
    else 1 + MatchIndex(candidates[1..], name)
  }

  function Rank(candidates: seq<string>, p: Path): nat {
    MatchIndex(candidates, Name(p))
  }

  /** The emission order: priority pass first, then depth. */
  predicate KeyLe(candidates: seq<string>, p: Path, q: Path) {
    Rank(candidates, p) < Rank(candidates, q)
    || (Rank(candidates, p) == Rank(candidates, q) && Depth(p) <= Depth(q))
  }

  predicate KeySorted(candidates: seq<string>, s: seq<Path>) {
    forall i, j :: 0 <= i < j < |s| ==> KeyLe(candidates, s[i], s[j])
  }

  predicate DepthSorted(s: seq<Path>) {
    forall i, j :: 0 <= i < j < |s| ==> Depth(s[i]) <= Depth(s[j])
  }

  lemma KeySortedSnoc(candidates: seq<string>, s: seq<Path>, m: Path)
    requires KeySorted(candidates, s)
    requires s != [] ==> KeyLe(candidates, s[|s| - 1], m)
    ensures KeySorted(candidates, s + [m])
  {
    var le := (p, q) => KeyLe(candidates, p, q);
    forall p, q, r | le(p, q) && le(q, r) ensures le(p, r) {
      KeyLeTrans(candidates, p, q, r);
    }
    SortedSnoc(s, m, le);
  }

  /** Appending an element no smaller than the last keeps a sequence
      sorted by a transitive order. */
  lemma SortedSnoc<T>(s: seq<T>, m: T, le: (T, T) -> bool)
    requires forall i, j :: 0 <= i < j < |s| ==> le(s[i], s[j])
    requires forall x, y, z :: le(x, y) && le(y, z) ==> le(x, z)
    requires s != [] ==> le(s[|s| - 1], m)
    ensures forall i, j :: 0 <= i < j < |s + [m]| ==> le((s + [m])[i], (s + [m])[j])
  {
    var t := s + [m];
    forall i, j | 0 <= i < j < |t| ensures le(t[i], t[j]) {
      if j < |s| {
        assert t[i] == s[i] && t[j] == s[j];
      } else if i < |s| - 1 {
        assert le(s[i], s[|s| - 1]);
      }
    }
  }

  lemma KeyLeTrans(candidates: seq<string>, p: Path, q: Path, r: Path)
    requires KeyLe(candidates, p, q) && KeyLe(candidates, q, r)
    ensures KeyLe(candidates, p, r)
  {
  }

  // ---------------------------------------------------------------------
  // The pool and the records

  /** The set of paths the context list names: `Path(line.strip())` for
      every line that is not blank. */
  function Pool(lines: seq<string>): (r: set<Path>)
    ensures forall p :: p in r ==> WellFormed(p)
  {
    set l | l in lines && Strip(l) != "" :: EntryPath(l)
  }

  /** Blank lines and repeated lines add nothing to the pool. */
  lemma PoolIgnoresBlankAndRepeated(lines: seq<string>, extra: string)
    requires Strip(extra) == "" || extra in lines
    ensures Pool(lines + [extra]) == Pool(lines)
  {
    assert forall l :: l in lines + [extra] <==> l in lines || l == extra;
  }

  /** What the file system holds at a repository path. */
  function Lookup(fs: map<Path, FileEntry>, p: Path): FileEntry {
    if p in fs then fs[p] else NotAFile
  }

  /** `read_file_content(base_path / p, True)`. */
  function Content(fs: map<Path, FileEntry>, p: Path): string {
    ReadFileContent(Lookup(fs, p), true)
  }

  /** The paths of `order` whose content is not empty, in order: the files
      a record is written for. */
  function Emitted(fs: map<Path, FileEntry>, order: seq<Path>): (r: seq<Path>)
    ensures |r| <= |order|
  {
    if order == [] then []
    else
      var init := Emitted(fs, order[..|order| - 1]);
      var last := order[|order| - 1];
      if Content(fs, last) != "" then init + [last] else init
  }

  /** A path is written exactly when it is taken and has content. */
  lemma {:induction false} EmittedMembers(fs: map<Path, FileEntry>, order: seq<Path>, p: Path)
    ensures p in Emitted(fs, order) <==> p in order && Content(fs, p) != ""
  {
    if order != [] {
      var init := order[..|order| - 1];
      EmittedMembers(fs, init, p);
      SplitSnoc([], order);
    }
  }

  /** The record written for a path: its printed form and its content. */
  function RecordOf(fs: map<Path, FileEntry>, p: Path): Record {
    ContextRecord(Str(p), Content(fs, p))
  }

  /** One record per path. */
  function ToRecords(fs: map<Path, FileEntry>, ps: seq<Path>): (r: seq<Record>)
    ensures |r| == |ps|
  {
    if ps == [] then [] else ToRecords(fs, ps[..|ps| - 1]) + [RecordOf(fs, ps[|ps| - 1])]
  }

  lemma {:induction false} ToRecordsAt(fs: map<Path, FileEntry>, ps: seq<Path>, i: nat)
    requires i < |ps|
    ensures ToRecords(fs, ps)[i] == RecordOf(fs, ps[i])
  {
    if i < |ps| - 1 {
      ToRecordsAt(fs, ps[..|ps| - 1], i);
    }
  }

  lemma EmittedSnoc(fs: map<Path, FileEntry>, order: seq<Path>, m: Path)
    ensures Emitted(fs, order + [m])
         == if Content(fs, m) != "" then Emitted(fs, order) + [m] else Emitted(fs, order)
  {
    SnocInit(order, m);
  }

  // ---------------------------------------------------------------------
  // The loops

  predicate IsShallowest(m: Path, s: set<Path>) {
    m in s && forall q :: q in s ==> Depth(m) <= Depth(q)
  }

  lemma {:induction false} MinDepthExists(s: set<Path>)
    requires s != {}
    ensures exists m :: IsShallowest(m, s)
    decreases |s|
  {
    var x :| x in s;
    if s == {x} {
      assert IsShallowest(x, s);
    } else {
      MinDepthExists(s - {x});
      var m :| IsShallowest(m, s - {x});
      var w := if Depth(x) < Depth(m) then x else m;
      forall q | q in s ensures Depth(w) <= Depth(q) {
        if q != x { assert q in s - {x}; }
      }
      assert IsShallowest(w, s);
    }
  }

  /** `sorted(paths, key=lambda p: len(p.parents))` of a set's elements:
      the order within a depth is the set's iteration order, which is not
      specified, so any enumeration that is shallowest first may result. */
  method DepthOrder(s: set<Path>) returns (r: seq<Path>)
    ensures forall p :: p in r <==> p in s
    ensures Distinct(r)
    ensures DepthSorted(r)
  {
    var rest := s;
    r := [];
    while rest != {}
      invariant rest <= s
      invariant forall p :: p in r <==> p in s && p !in rest
      invariant Distinct(r) && DepthSorted(r)
      invariant forall i, q :: 0 <= i < |r| && q in rest ==> Depth(r[i]) <= Depth(q)
      decreases |rest|
    {
      MinDepthExists(rest);
      var m :| IsShallowest(m, rest);
      r := r + [m];
      rest := rest - {m};
    }
  }

  lemma {:induction false} EmittedAppend(fs: map<Path, FileEntry>, a: seq<Path>, b: seq<Path>)
    ensures Emitted(fs, a + b) == Emitted(fs, a) + Emitted(fs, b)
    decreases |b|
  {
    if b == [] {
      assert a + b == a;
    } else {
      var init := b[..|b| - 1];
      var last := b[|b| - 1];
      SplitSnoc(a, b);
      EmittedAppend(fs, a, init);
      EmittedSnoc(fs, a + init, last);
      EmittedSnoc(fs, init, last);
    }
  }

  lemma SplitSnoc<T>(a: seq<T>, b: seq<T>)
    requires b != []
    ensures b == b[..|b| - 1] + [b[|b| - 1]]
    ensures a + b == (a + b[..|b| - 1]) + [b[|b| - 1]]
    ensures (a + b)[..|a + b| - 1] == a + b[..|b| - 1]
  {
    assert b == b[..|b| - 1] + [b[|b| - 1]];
  }

  lemma SnocInit<T>(s: seq<T>, x: T)
    ensures (s + [x])[..|s + [x]| - 1] == s && (s + [x])[|s + [x]| - 1] == x
  {
  }

  lemma {:induction false} ToRecordsAppend(fs: map<Path, FileEntry>, a: seq<Path>, b: seq<Path>)
    ensures ToRecords(fs, a + b) == ToRecords(fs, a) + ToRecords(fs, b)
    decreases |b|
  {
    if b == [] {
      assert a + b == a;
    } else {
      var init := b[..|b| - 1];
      SplitSnoc(a, b);
      ToRecordsAppend(fs, a, init);
    }
  }

  lemma KeySortedAppend(candidates: seq<string>, a: seq<Path>, b: seq<Path>)
    requires KeySorted(candidates, a) && KeySorted(candidates, b)
    requires forall x, y :: x in a && y in b ==> KeyLe(candidates, x, y)
    ensures KeySorted(candidates, a + b)
  {
    var t := a + b;
    forall i, j | 0 <= i < j < |t| ensures KeyLe(candidates, t[i], t[j]) {
      if i < |a| && j >= |a| {
        assert t[i] in a && t[j] == b[j - |a|] && t[j] in b;
      } else if i >= |a| {
        assert t[i] == b[i - |a|] && t[j] == b[j - |a|];
      }
    }
  }

  lemma DistinctAppend<T>(a: seq<T>, b: seq<T>)
    requires Distinct(a) && Distinct(b)
    requires forall x :: x in a ==> x !in b
    ensures Distinct(a + b)
  {
    var t := a + b;
    forall i, j | 0 <= i < j < |t| ensures t[i] != t[j] {
      if i < |a| && j >= |a| {
        assert t[i] in a && t[j] == b[j - |a|] && t[j] in b;
      } else if i >= |a| {
        assert t[i] == b[i - |a|] && t[j] == b[j - |a|];
      }
    }
  }

  /** A pool path whose name is that of candidate `c`, and that no earlier
      candidate claimed, belongs to pass `c`. */
  lemma RankOfMatch(candidates: seq<string>, c: nat, p: Path)
    requires c < |candidates| && Rank(candidates, p) >= c
    ensures Lower(Name(p)) == Lower(candidates[c]) <==> Rank(candidates, p) == c
  {
  }

  /** Taking one more path from `ps` adds its record when it has content. */
  lemma PrefixMembers<T>(ps: seq<T>, k: nat)
    requires k < |ps|
    ensures forall p :: p in ps[..k + 1] <==> p in ps[..k] || p == ps[k]
  {
    assert ps[..k + 1] == ps[..k] + [ps[k]];
  }

  lemma RecordsStep(fs: map<Path, FileEntry>, ps: seq<Path>, k: nat)
    requires k < |ps|
    ensures Content(fs, ps[k]) != "" ==>
      ToRecords(fs, Emitted(fs, ps[..k + 1]))
      == ToRecords(fs, Emitted(fs, ps[..k])) + [ContextRecord(Str(ps[k]), Content(fs, ps[k]))]
    ensures Content(fs, ps[k]) == "" ==>
      ToRecords(fs, Emitted(fs, ps[..k + 1])) == ToRecords(fs, Emitted(fs, ps[..k]))
  {
    assert ps[..k + 1] == ps[..k] + [ps[k]];
    EmittedSnoc(fs, ps[..k], ps[k]);
    if Content(fs, ps[k]) != "" {
      var e := Emitted(fs, ps[..k]) + [ps[k]];
      assert e[..|e| - 1] == Emitted(fs, ps[..k]);
    }
  }

  /** One pass of the priority loop: write a record for each match with
      content, and take every match out of the pool. */
  method EmitMatches(fs: map<Path, FileEntry>, matches: seq<Path>, pool: set<Path>)
    returns (written: seq<Record>, rest: set<Path>)
    ensures written == ToRecords(fs, Emitted(fs, matches))
    ensures forall p :: p in rest <==> p in pool && p !in matches
  {
    written, rest := [], pool;
    var k := 0;
    while k < |matches|
      invariant 0 <= k <= |matches|
      invariant written == ToRecords(fs, Emitted(fs, matches[..k]))
      invariant forall p :: p in rest <==> p in pool && p !in matches[..k]
    {
      var m := matches[k];
      var content := Content(fs, m);
      RecordsStep(fs, matches, k);
      if content != "" {
        written := written + [ContextRecord(Str(m), content)];
      }
      // the match leaves the pool whether or not it was written
      rest := rest - {m};
      PrefixMembers(matches, k);
      k := k + 1;
    }
    assert matches[..k] == matches;
  }

  /** The leftover pass: a record for each remaining path with content. */
  method EmitLeftovers(fs: map<Path, FileEntry>, leftovers: seq<Path>) returns (written: seq<Record>)
    ensures written == ToRecords(fs, Emitted(fs, leftovers))
  {
    written := [];
    var k := 0;
    while k < |leftovers|
      invariant 0 <= k <= |leftovers|
      invariant written == ToRecords(fs, Emitted(fs, leftovers[..k]))
    {
      var leftover := leftovers[k];
      var content := Content(fs, leftover);
      if content != "" {
        written := written + [ContextRecord(Str(leftover), content)];
      }
      RecordsStep(fs, leftovers, k);
      k := k + 1;
    }
    assert leftovers[..k] == leftovers;
  }

  /** The context phase: the records written, and the ghost order in which
      the paths of `pool0` are taken from the pool, records or not.
      `fs` is the file system below the repository root. */
  method EmitContext(fs: map<Path, FileEntry>, candidates: seq<string>, pool0: set<Path>)
    returns (out: seq<Record>, ghost order: seq<Path>)
    ensures out == ToRecords(fs, Emitted(fs, order))
    ensures Distinct(order)
    ensures forall p :: p in order <==> p in pool0
    ensures KeySorted(candidates, order)
  {
    var pool := pool0;
    out, order := [], [];
    var c := 0;
    while c < |candidates|
      invariant 0 <= c <= |candidates|
      invariant forall p :: p in pool <==> p in pool0 && Rank(candidates, p) >= c
      invariant forall p :: p in order <==> p in pool0 && Rank(candidates, p) < c
      invariant Distinct(order) && KeySorted(candidates, order)
      invariant out == ToRecords(fs, Emitted(fs, order))
    {
      var candidate := candidates[c];
      var matches := DepthOrder(set p | p in pool && Lower(Name(p)) == Lower(candidate));
      forall p | p in pool ensures Lower(Name(p)) == Lower(candidate) <==> Rank(candidates, p) == c {
        RankOfMatch(candidates, c, p);
      }
      assert forall p :: p in matches <==> p in pool0 && Rank(candidates, p) == c;
      assert KeySorted(candidates, matches);
      var written;
      written, pool := EmitMatches(fs, matches, pool);
      EmittedAppend(fs, order, matches);
      ToRecordsAppend(fs, Emitted(fs, order), Emitted(fs, matches));
      KeySortedAppend(candidates, order, matches);
      DistinctAppend(order, matches);
      out := out + written;
      order := order + matches;
      c := c + 1;
    }
    // whatever no candidate claimed, shallowest first
    var leftovers := DepthOrder(pool);
    assert forall p :: p in leftovers ==> Rank(candidates, p) == |candidates|;
    assert KeySorted(candidates, leftovers);
    var written := EmitLeftovers(fs, leftovers);
    EmittedAppend(fs, order, leftovers);
    ToRecordsAppend(fs, Emitted(fs, order), Emitted(fs, leftovers));
    KeySortedAppend(candidates, order, leftovers);
    DistinctAppend(order, leftovers);
    out := out + written;
    order := order + leftovers;
  }

  // ---------------------------------------------------------------------
  // What the records promise

  lemma {:induction false} EmittedSorted(fs: map<Path, FileEntry>, candidates: seq<string>, order: seq<Path>)
    requires KeySorted(candidates, order)
    ensures KeySorted(candidates, Emitted(fs, order))
  {
    if order != [] {
      var init := order[..|order| - 1];
      var last := order[|order| - 1];
      EmittedSorted(fs, candidates, init);
      if Content(fs, last) != "" {
        forall x | x in Emitted(fs, init) ensures KeyLe(candidates, x, last) {
          EmittedMembers(fs, init, x);
          var i :| 0 <= i < |init| && init[i] == x;
          assert order[i] == x;
        }
        KeySortedAppend(candidates, Emitted(fs, init), [last]);
      }
    }
  }

  lemma {:induction false} EmittedDistinct(fs: map<Path, FileEntry>, order: seq<Path>)
    requires Distinct(order)
    ensures Distinct(Emitted(fs, order))
  {
    if order != [] {
      var init := order[..|order| - 1];
      var last := order[|order| - 1];
      assert Distinct(init);
      EmittedDistinct(fs, init);
      if Content(fs, last) != "" {
        forall x | x in Emitted(fs, init) ensures x != last {
          EmittedMembers(fs, init, x);
          var i :| 0 <= i < |init| && init[i] == x;
          assert order[i] == x;
        }
        DistinctAppend(Emitted(fs, init), [last]);
      }
    }
  }

  /** Printing is injective on normalised paths. */
  lemma StrInjective(p: Path, q: Path)
    requires WellFormed(p) && WellFormed(q) && Str(p) == Str(q)
    ensures p == q
  {
    ParseStr(p);
    ParseStr(q);
  }

  /** The context records written for an emission order. */
  function ContextRecords(fs: map<Path, FileEntry>, order: seq<Path>): seq<Record> {
    ToRecords(fs, Emitted(fs, order))
  }

  /** The guarantees of the context phase, for records written in any order
      the loops may take:
      - each context file with content gets exactly one record, carrying
        that content, and no other file gets one;
      - no record is empty;
      - a record of an earlier priority pass comes before every record of a
        later pass and before every leftover, and within one pass, and
        among the leftovers, shallower files come first. */
  lemma ContextGuarantees(fs: map<Path, FileEntry>, candidates: seq<string>, pool0: set<Path>, order: seq<Path>)
    requires forall p :: p in pool0 ==> WellFormed(p)
    requires Distinct(order) && KeySorted(candidates, order)
    requires forall p :: p in order <==> p in pool0
    ensures forall i :: 0 <= i < |ContextRecords(fs, order)| ==>
      ContextRecords(fs, order)[i].ContextRecord? && ContextRecords(fs, order)[i].content != ""
    ensures forall i :: 0 <= i < |ContextRecords(fs, order)| ==>
      && ParsePath(ContextRecords(fs, order)[i].path) in pool0
      && ContextRecords(fs, order)[i] == RecordOf(fs, ParsePath(ContextRecords(fs, order)[i].path))
    ensures forall i, j :: 0 <= i < j < |ContextRecords(fs, order)| ==>
      ContextRecords(fs, order)[i].path != ContextRecords(fs, order)[j].path
    ensures forall p :: p in pool0 && Content(fs, p) != "" ==>
      ContextRecord(Str(p), Content(fs, p)) in ContextRecords(fs, order)
    ensures forall i, j :: 0 <= i < j < |ContextRecords(fs, order)| ==>
      KeyLe(candidates, ParsePath(ContextRecords(fs, order)[i].path), ParsePath(ContextRecords(fs, order)[j].path))
  {
    RecordsFromPool(fs, pool0, order);
    RecordsDistinctPaths(fs, pool0, order);
    RecordsComplete(fs, pool0, order);
    RecordsSorted(fs, candidates, pool0, order);
  }

  /** The record at position `i` is that of the `i`-th emitted path, which
      is in the pool and has content. */
  lemma RecordAt(fs: map<Path, FileEntry>, pool0: set<Path>, order: seq<Path>, i: nat)
    requires forall p :: p in pool0 ==> WellFormed(p)
    requires forall p :: p in order <==> p in pool0
    requires i < |Emitted(fs, order)|
    ensures ContextRecords(fs, order)[i] == RecordOf(fs, Emitted(fs, order)[i])
    ensures Emitted(fs, order)[i] in pool0 && Content(fs, Emitted(fs, order)[i]) != ""
    ensures ParsePath(ContextRecords(fs, order)[i].path) == Emitted(fs, order)[i]
  {
    var e := Emitted(fs, order);
    ToRecordsAt(fs, e, i);
    EmittedMembers(fs, order, e[i]);
    ParseStr(e[i]);
  }

  lemma RecordsFromPool(fs: map<Path, FileEntry>, pool0: set<Path>, order: seq<Path>)
    requires forall p :: p in pool0 ==> WellFormed(p)
    requires forall p :: p in order <==> p in pool0
    ensures forall i :: 0 <= i < |ContextRecords(fs, order)| ==>
      ContextRecords(fs, order)[i].ContextRecord? && ContextRecords(fs, order)[i].content != ""
    ensures forall i :: 0 <= i < |ContextRecords(fs, order)| ==>
      && ParsePath(ContextRecords(fs, order)[i].path) in pool0
      && ContextRecords(fs, order)[i] == RecordOf(fs, ParsePath(ContextRecords(fs, order)[i].path))
  {
    var e := Emitted(fs, order);
    var out := ContextRecords(fs, order);
    forall i | 0 <= i < |out|
      ensures out[i].ContextRecord? && out[i].content != ""
      ensures ParsePath(out[i].path) in pool0 && out[i] == RecordOf(fs, ParsePath(out[i].path))
    {
      RecordAt(fs, pool0, order, i);
    }
  }

  lemma RecordsDistinctPaths(fs: map<Path, FileEntry>, pool0: set<Path>, order: seq<Path>)
    requires forall p :: p in pool0 ==> WellFormed(p)
    requires forall p :: p in order <==> p in pool0
    requires Distinct(order)
    ensures forall i, j :: 0 <= i < j < |ContextRecords(fs, order)| ==>
      ContextRecords(fs, order)[i].path != ContextRecords(fs, order)[j].path
  {
    var e := Emitted(fs, order);
    var out := ContextRecords(fs, order);
    EmittedDistinct(fs, order);
    forall i, j | 0 <= i < j < |out| ensures out[i].path != out[j].path {
      RecordAt(fs, pool0, order, i);
      RecordAt(fs, pool0, order, j);
    }
  }

  lemma RecordsComplete(fs: map<Path, FileEntry>, pool0: set<Path>, order: seq<Path>)
    requires forall p :: p in order <==> p in pool0
    ensures forall p :: p in pool0 && Content(fs, p) != "" ==>
      ContextRecord(Str(p), Content(fs, p)) in ContextRecords(fs, order)
  {
    var e := Emitted(fs, order);
    var out := ContextRecords(fs, order);
    forall p | p in pool0 && Content(fs, p) != "" ensures ContextRecord(Str(p), Content(fs, p)) in out {
      EmittedMembers(fs, order, p);
      var i :| 0 <= i < |e| && e[i] == p;
      ToRecordsAt(fs, e, i);
    }
  }

  lemma RecordsSorted(fs: map<Path, FileEntry>, candidates: seq<string>, pool0: set<Path>, order: seq<Path>)
    requires forall p :: p in pool0 ==> WellFormed(p)
    requires forall p :: p in order <==> p in pool0
    requires KeySorted(candidates, order)
    ensures forall i, j :: 0 <= i < j < |ContextRecords(fs, order)| ==>
      KeyLe(candidates, ParsePath(ContextRecords(fs, order)[i].path), ParsePath(ContextRecords(fs, order)[j].path))
  {
    var e := Emitted(fs, order);
    var out := ContextRecords(fs, order);
    EmittedSorted(fs, candidates, order);
    forall i, j | 0 <= i < j < |out| ensures KeyLe(candidates, ParsePath(out[i].path), ParsePath(out[j].path)) {
      RecordAt(fs, pool0, order, i);
      RecordAt(fs, pool0, order, j);
    }
  }

  /** A strictly smaller key is written strictly earlier. */
  lemma SmallerKeyFirst(candidates: seq<string>, order: seq<Path>, i: nat, j: nat)
    requires KeySorted(candidates, order) && i < |order| && j < |order|
    requires !KeyLe(candidates, order[j], order[i])
    ensures i < j
  {
  }

  /** With a manifest at the root and another one in backend/, the root one
      is taken first, whatever the candidates. */
  lemma RootManifestFirst(candidates: seq<string>, order: seq<Path>, i: nat, j: nat)
    requires KeySorted(candidates, order) && i < |order| && j < |order|
    requires order[i] == ["package.json"] && order[j] == ["backend", "package.json"]
    ensures i < j
  {
    assert Name(order[i]) == Name(order[j]);
    SmallerKeyFirst(candidates, order, i, j);
  }
}
