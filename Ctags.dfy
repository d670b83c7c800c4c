/** `run_ctags`: the symbol lines ctags prints are filtered, and the
    surviving tags of consecutive lines with the same path are gathered into
    one record, flushed when the path changes and once more at the end. */
module Ctags {
  import opened Wrappers
  import opened Records

  /** One line of ctags' JSON output, as far as the aggregation looks at
      it: a line that is not JSON, JSON that is not an object (the `.get`
      on it raises, which ends the run), or an object with the three fields
      it reads (None when a field is absent). */
  datatype CtagsLine =
    | Unparsable
    | NonObject
    | Object(path: Option<string>, kind: Option<string>, name: Option<string>)

  /** A surviving tag: the file it belongs to, and its "kind name" text. */
  datatype Tag = Tag(path: string, text: string)

  /** The filter: a path and a name that are present and not empty, and a
      kind among `kinds`. */
  predicate Survives(line: CtagsLine, kinds: set<string>) {
    && line.Object?
    && line.path.Some? && line.path.value != ""
    && line.name.Some? && line.name.value != ""
    && line.kind.Some? && line.kind.value in kinds
  }

  function TagOf(line: CtagsLine): Tag
    requires line.Object? && line.path.Some? && line.kind.Some? && line.name.Some?
  {
    Tag(line.path.value, line.kind.value + " " + line.name.value)
  }

  /** The tags of the surviving lines, in order. */
  function Surviving(lines: seq<CtagsLine>, kinds: set<string>): (r: seq<Tag>)
    ensures |r| <= |lines|
    ensures forall t :: t in r ==> t.path != ""
  {
    if lines == [] then []
    else
      var init := Surviving(lines[..|lines| - 1], kinds);
      var last := lines[|lines| - 1];
      if Survives(last, kinds) then init + [TagOf(last)] else init
  }

  lemma SurvivingSnoc(lines: seq<CtagsLine>, line: CtagsLine, kinds: set<string>)
    ensures Surviving(lines + [line], kinds)
         == if Survives(line, kinds) then Surviving(lines, kinds) + [TagOf(line)] else Surviving(lines, kinds)
  {
    assert (lines + [line])[..|lines + [line]| - 1] == lines;
  }

  // ---------------------------------------------------------------------
  // Grouping

  /** The one-slot accumulator: the records already written, the path being
      gathered (None before the first tag) and its tags so far. */
  datatype Accumulator = Accumulator(written: seq<Record>, current: Option<string>, tags: seq<string>)

  function Step(acc: Accumulator, t: Tag): Accumulator {
    if acc.current != Some(t.path) then
      var flushed := if acc.current.Some? && acc.current.value != "" then
        acc.written + [SymbolRecord(acc.current.value, acc.tags)] else acc.written;
      Accumulator(flushed, Some(t.path), [t.text])
    else
      Accumulator(acc.written, acc.current, acc.tags + [t.text])
  }

  /** The accumulator after a sequence of tags. */
  function Fold(ts: seq<Tag>): Accumulator {
    if ts == [] then Accumulator([], None, [])
    else Step(Fold(ts[..|ts| - 1]), ts[|ts| - 1])
  }

  /** The final flush. */
  function Finish(acc: Accumulator): seq<Record> {
    if acc.current.Some? && acc.current.value != "" then
      acc.written + [SymbolRecord(acc.current.value, acc.tags)]
    else acc.written
  }

  /** What every accumulator holds, whatever the tags: only symbol records
      with a path and tags are written, the run being gathered has a tag,
      and there is no more than one record or run per tag. */
  predicate AccShape(acc: Accumulator, n: nat) {
    && (forall i :: 0 <= i < |acc.written| ==>
          acc.written[i].SymbolRecord? && acc.written[i].path != "" && acc.written[i].tags != [])
    && (acc.current.Some? ==> acc.tags != [])
    && |acc.written| + (if acc.current.Some? then 1 else 0) <= n
  }

  lemma {:induction false} FoldShape(ts: seq<Tag>)
    ensures AccShape(Fold(ts), |ts|)
  {
    if ts != [] {
      FoldShape(ts[..|ts| - 1]);
    }
  }

  /** The records written for a sequence of surviving tags: the `if
      current_file_path` guards write only records with a path, each
      record holds at least one tag, and there are no more records than
      tags. */
  function GroupRuns(ts: seq<Tag>): (r: seq<Record>)
    ensures forall i :: 0 <= i < |r| ==> r[i].SymbolRecord? && r[i].path != "" && r[i].tags != []
    ensures |r| <= |ts|
  {
    FoldShape(ts);
    Finish(Fold(ts))
  }

  // ---------------------------------------------------------------------
  // The loop

  /** Index of the first line that is JSON but no object, or |lines|. */
  function FirstNonObject(lines: seq<CtagsLine>): (r: nat)
    ensures r <= |lines|
    ensures r < |lines| ==> lines[r].NonObject?
    ensures forall i :: 0 <= i < r ==> !lines[i].NonObject?
  {
    if lines == [] then 0
    else if lines[0].NonObject? then 0
    else 1 + FirstNonObject(lines[1..])
  }

  /** The aggregation loop of `run_ctags`. `failed` reports the error a
      non-object line raises; then only the records flushed before it have
      been written. */
  method RunCtags(lines: seq<CtagsLine>, kinds: set<string>)
    returns (written: seq<Record>, tagCount: nat, failed: bool)
    ensures failed <==> FirstNonObject(lines) < |lines|
    ensures !failed ==> written == GroupRuns(Surviving(lines, kinds))
    ensures !failed ==> tagCount == |Surviving(lines, kinds)|
    ensures failed ==> written == Fold(Surviving(lines[..FirstNonObject(lines)], kinds)).written
  {
    var currentFilePath: Option<string> := None;
    var currentTags: seq<string> := [];
    written, tagCount, failed := [], 0, false;
    var i := 0;
    while i < |lines|
      invariant 0 <= i <= |lines|
      invariant forall j :: 0 <= j < i ==> !lines[j].NonObject?
      invariant Fold(Surviving(lines[..i], kinds)) == Accumulator(written, currentFilePath, currentTags)
      invariant tagCount == |Surviving(lines[..i], kinds)|
    {
      var line := lines[i];
      ghost var acc := Accumulator(written, currentFilePath, currentTags);
      RunStep(lines, i, kinds);
      match line {
        case Unparsable =>
        case NonObject =>
          FirstNonObjectAt(lines, i);
          assert written == Fold(Surviving(lines[..FirstNonObject(lines)], kinds)).written;
          failed := true;
          return;
        case Object(path, kind, name) =>
          if path.Some? && path.value != "" && name.Some? && name.value != ""
             && kind.Some? && kind.value in kinds {
            if Some(path.value) != currentFilePath {
              if currentFilePath.Some? && currentFilePath.value != "" {
                written := written + [SymbolRecord(currentFilePath.value, currentTags)];
              }
              currentFilePath := Some(path.value);
              currentTags := [];
            }
            currentTags := currentTags + [kind.value + " " + name.value];
            tagCount := tagCount + 1;
            assert Step(acc, TagOf(line)) == Accumulator(written, currentFilePath, currentTags);
          }
      }
      i := i + 1;
    }
    assert lines[..i] == lines;
    FirstNonObjectNone(lines);
    // the last file's tags
    if currentFilePath.Some? && currentFilePath.value != "" {
      written := written + [SymbolRecord(currentFilePath.value, currentTags)];
    }
  }

  lemma FoldSnoc(ts: seq<Tag>, t: Tag)
    ensures Fold(ts + [t]) == Step(Fold(ts), t)
  {
    assert (ts + [t])[..|ts + [t]| - 1] == ts;
  }

  /** One more line: the accumulator takes one step when the line survives
      and stays as it is otherwise. */
  lemma RunStep(lines: seq<CtagsLine>, i: nat, kinds: set<string>)
    requires i < |lines|
    ensures var before, after := Surviving(lines[..i], kinds), Surviving(lines[..i + 1], kinds);
      && (Survives(lines[i], kinds) ==>
            after == before + [TagOf(lines[i])] && Fold(after) == Step(Fold(before), TagOf(lines[i])))
      && (!Survives(lines[i], kinds) ==> after == before)
  {
    assert lines[..i + 1] == lines[..i] + [lines[i]];
    SurvivingSnoc(lines[..i], lines[i], kinds);
    if Survives(lines[i], kinds) {
      FoldSnoc(Surviving(lines[..i], kinds), TagOf(lines[i]));
    }
  }

  lemma {:induction false} FirstNonObjectAt(lines: seq<CtagsLine>, i: nat)
    requires i < |lines| && lines[i].NonObject?
    requires forall j :: 0 <= j < i ==> !lines[j].NonObject?
    ensures FirstNonObject(lines) == i
  {
    if i > 0 {
      FirstNonObjectAt(lines[1..], i - 1);
    }
  }

  lemma {:induction false} FirstNonObjectNone(lines: seq<CtagsLine>)
    requires forall j :: 0 <= j < |lines| ==> !lines[j].NonObject?
    ensures FirstNonObject(lines) == |lines|
  {
    if lines != [] {
      FirstNonObjectNone(lines[1..]);
    }
  }

  // ---------------------------------------------------------------------
  // What the grouping promises

  /** The tags a record stands for. */
  function Label(path: string, tags: seq<string>): (r: seq<Tag>)
    ensures |r| == |tags|
    ensures forall i :: 0 <= i < |tags| ==> r[i] == Tag(path, tags[i])
  {
    seq(|tags|, i requires 0 <= i < |tags| => Tag(path, tags[i]))
  }

  function Labels(r: Record): seq<Tag> {
    match r
    case SymbolRecord(path, tags) => Label(path, tags)
    case ContextRecord(_, _) => []
  }

  /** The tags a sequence of records stands for, in order. */
  function Expand(rs: seq<Record>): seq<Tag> {
    if rs == [] then [] else Expand(rs[..|rs| - 1]) + Labels(rs[|rs| - 1])
  }

  /** Records of this shape: symbol records with a path and at least one
      tag, no two neighbours for the same path. */
  predicate WellGrouped(rs: seq<Record>) {
    && (forall i :: 0 <= i < |rs| ==> rs[i].SymbolRecord? && rs[i].path != "" && rs[i].tags != [])
    && (forall j, i :: 0 < j < |rs| && i == j - 1 ==> rs[i].path != rs[j].path)
  }

  lemma ExpandSnoc(rs: seq<Record>, r: Record)
    ensures Expand(rs + [r]) == Expand(rs) + Labels(r)
  {
    assert (rs + [r])[..|rs + [r]| - 1] == rs;
  }

  /** What the accumulator holds after the tags `ts`. */
  predicate AccInv(acc: Accumulator, ts: seq<Tag>) {
    && (acc.current.None? <==> ts == [])
    && (acc.current.Some? ==> acc.current.value != "" && acc.tags != [])
    && WellGrouped(acc.written)
    && (acc.current.Some? && acc.written != [] ==> acc.written[|acc.written| - 1].path != acc.current.value)
    && (acc.current.None? ==> acc.written == [])
    && ts == Expand(acc.written) + (if acc.current.Some? then Label(acc.current.value, acc.tags) else [])
  }

  /** Appending a record keeps the shape when it has a path and tags and
      its path differs from the last one's. */
  lemma WellGroupedSnoc(rs: seq<Record>, path: string, tags: seq<string>)
    requires WellGrouped(rs) && path != "" && tags != []
    requires rs != [] ==> rs[|rs| - 1].path != path
    ensures WellGrouped(rs + [SymbolRecord(path, tags)])
  {
    var w := rs + [SymbolRecord(path, tags)];
    forall i, j | 0 <= i < j < |w| && j == i + 1 ensures w[i].path != w[j].path {
      if j < |w| - 1 { assert w[i] == rs[i] && w[j] == rs[j]; }
    }
  }

  /** A tag for a new path flushes the one gathered so far. */
  lemma StepNewPath(acc: Accumulator, ts: seq<Tag>, t: Tag)
    requires AccInv(acc, ts) && t.path != "" && acc.current != Some(t.path)
    ensures AccInv(Step(acc, t), ts + [t])
  {
    assert Label(t.path, [t.text]) == [t];
    if acc.current.Some? {
      var r := SymbolRecord(acc.current.value, acc.tags);
      ExpandSnoc(acc.written, r);
      WellGroupedSnoc(acc.written, acc.current.value, acc.tags);
    }
  }

  /** A tag for the same path joins the run. */
  lemma StepSamePath(acc: Accumulator, ts: seq<Tag>, t: Tag)
    requires AccInv(acc, ts) && t.path != "" && acc.current == Some(t.path)
    ensures AccInv(Step(acc, t), ts + [t])
  {
    assert Label(t.path, acc.tags + [t.text]) == Label(t.path, acc.tags) + [t];
  }

  lemma {:induction false} FoldInv(ts: seq<Tag>)
    requires forall i :: 0 <= i < |ts| ==> ts[i].path != ""
    ensures AccInv(Fold(ts), ts)
  {
    if ts != [] {
      var init := ts[..|ts| - 1];
      var t := ts[|ts| - 1];
      assert ts == init + [t];
      FoldInv(init);
      if Fold(init).current != Some(t.path) {
        StepNewPath(Fold(init), init, t);
      } else {
        StepSamePath(Fold(init), init, t);
      }
    }
  }

  /** The grouping keeps every surviving tag, in order and under its own
      path, writes no record without tags, and never writes two neighbouring
      records for the same path: one record per maximal run. */
  lemma GroupRunsShape(ts: seq<Tag>)
    requires forall i :: 0 <= i < |ts| ==> ts[i].path != ""
    ensures WellGrouped(GroupRuns(ts))
    ensures Expand(GroupRuns(ts)) == ts
  {
    FoldInv(ts);
    var acc := Fold(ts);
    if acc.current.Some? {
      ExpandSnoc(acc.written, SymbolRecord(acc.current.value, acc.tags));
      WellGroupedSnoc(acc.written, acc.current.value, acc.tags);
    } else {
      assert Expand(acc.written) + [] == Expand(acc.written);
    }
  }

  lemma {:induction false} ExpandLength(rs: seq<Record>)
    ensures |Expand(rs)| >= |rs| || !WellGrouped(rs)
  {
    if rs != [] {
      ExpandLength(rs[..|rs| - 1]);
    }
  }

  /** The record shape decides the records: two well-grouped sequences of
      records that stand for the same tags are equal. With
      `GroupRunsShape`, the records written are exactly the maximal runs. */
  lemma {:induction false} GroupingUnique(rs1: seq<Record>, rs2: seq<Record>)
    requires WellGrouped(rs1) && WellGrouped(rs2)
    requires Expand(rs1) == Expand(rs2)
    ensures rs1 == rs2
    decreases |rs1|
  {
    if rs1 != [] && rs2 != [] {
      var init1, init2 := rs1[..|rs1| - 1], rs2[..|rs2| - 1];
      SplitLast(rs1);
      SplitLast(rs2);
      LastRecordEqual(rs1, rs2);
      GroupingUnique(init1, init2);
      SameInitAndLast(rs1, rs2);
    } else {
      NonEmptyExpand(rs1);
      NonEmptyExpand(rs2);
    }
  }

  /** Two non-empty well-grouped sequences for the same tags end in the
      same record, over rests for the same tags. */
  lemma LastRecordEqual(rs1: seq<Record>, rs2: seq<Record>)
    requires WellGrouped(rs1) && WellGrouped(rs2) && rs1 != [] && rs2 != []
    requires Expand(rs1) == Expand(rs2)
    ensures rs1[|rs1| - 1] == rs2[|rs2| - 1]
    ensures Expand(rs1[..|rs1| - 1]) == Expand(rs2[..|rs2| - 1])
  {
    var r1, r2 := rs1[|rs1| - 1], rs2[|rs2| - 1];
    LastRun(rs1);
    LastRun(rs2);
    SameLastRun(Expand(rs1[..|rs1| - 1]), r1.path, r1.tags, Expand(rs2[..|rs2| - 1]), r2.path, r2.tags);
    SameSymbolRecord(r1, r2);
  }

  /** The tags of a non-empty well-grouped sequence: those of its last
      record, after tags ending in another path. */
  lemma LastRun(rs: seq<Record>)
    requires WellGrouped(rs) && rs != []
    ensures rs[|rs| - 1].SymbolRecord? && rs[|rs| - 1].tags != []
    ensures Expand(rs) == Expand(rs[..|rs| - 1]) + Label(rs[|rs| - 1].path, rs[|rs| - 1].tags)
    ensures var e := Expand(rs[..|rs| - 1]); e != [] ==> e[|e| - 1].path != rs[|rs| - 1].path
  {
    SplitLast(rs);
    LastPathDiffers(rs[..|rs| - 1], rs[|rs| - 1].path);
  }

  lemma SameSymbolRecord(r1: Record, r2: Record)
    requires r1.SymbolRecord? && r2.SymbolRecord?
    requires r1.path == r2.path && r1.tags == r2.tags
    ensures r1 == r2
  {
  }

  lemma SameInitAndLast<T>(a: seq<T>, b: seq<T>)
    requires a != [] && b != []
    requires a[..|a| - 1] == b[..|b| - 1] && a[|a| - 1] == b[|b| - 1]
    ensures a == b
  {
    assert a == a[..|a| - 1] + [a[|a| - 1]];
    assert b == b[..|b| - 1] + [b[|b| - 1]];
  }

  /** A well-grouped sequence of records stands for some tag unless it is
      empty. */
  lemma NonEmptyExpand(rs: seq<Record>)
    requires WellGrouped(rs)
    ensures rs != [] <==> Expand(rs) != []
  {
    if rs != [] {
      SplitLast(rs);
    }
  }

  /** A non-empty well-grouped sequence is a well-grouped sequence and one
      last symbol record, whose path differs from the record before it. */
  lemma SplitLast(rs: seq<Record>)
    requires WellGrouped(rs) && rs != []
    ensures rs[|rs| - 1].SymbolRecord? && rs[|rs| - 1].path != "" && rs[|rs| - 1].tags != []
    ensures WellGrouped(rs[..|rs| - 1])
    ensures rs[..|rs| - 1] != [] ==> rs[..|rs| - 1][|rs| - 2].path != rs[|rs| - 1].path
    ensures Expand(rs) == Expand(rs[..|rs| - 1]) + Label(rs[|rs| - 1].path, rs[|rs| - 1].tags)
  {
    WellGroupedInit(rs);
  }

  lemma WellGroupedInit(rs: seq<Record>)
    requires WellGrouped(rs) && rs != []
    ensures WellGrouped(rs[..|rs| - 1])
  {
    var init := rs[..|rs| - 1];
    assert forall i :: 0 <= i < |init| ==> init[i] == rs[i];
  }

  /** The last tag a well-grouped sequence stands for has the path of its
      last record. */
  lemma LastTagPath(rs: seq<Record>)
    requires WellGrouped(rs) && rs != []
    ensures Expand(rs) != [] && Expand(rs)[|Expand(rs)| - 1].path == rs[|rs| - 1].path
  {
    SplitLast(rs);
  }

  /** The tag before a record's run belongs to another path. */
  lemma LastPathDiffers(init: seq<Record>, p: string)
    requires WellGrouped(init)
    requires init != [] ==> init[|init| - 1].path != p
    ensures Expand(init) != [] ==> Expand(init)[|Expand(init)| - 1].path != p
  {
    if init != [] {
      LastTagPath(init);
    }
  }

  /** The same tags, each split into a last run of one path and a rest that
      ends in another path, split the same way. */
  lemma SameLastRun(e1: seq<Tag>, p1: string, t1: seq<string>, e2: seq<Tag>, p2: string, t2: seq<string>)
    requires t1 != [] && t2 != []
    requires e1 != [] ==> e1[|e1| - 1].path != p1
    requires e2 != [] ==> e2[|e2| - 1].path != p2
    requires e1 + Label(p1, t1) == e2 + Label(p2, t2)
    ensures p1 == p2 && t1 == t2 && e1 == e2
  {
    var ts := e1 + Label(p1, t1);
    assert ts[|ts| - 1] == Tag(p1, t1[|t1| - 1]) == Tag(p2, t2[|t2| - 1]);
    LongerRun(e1, p1, t1, e2, t2, ts);
    LongerRun(e2, p1, t2, e1, t1, ts);
    SplitAtLength(e1, Label(p1, t1), e2, Label(p2, t2));
    LabelInjective(p1, t1, t2);
  }

  /** A last run cannot be shorter than another last run of the same path
      for the same tags: the tag before it belongs to another path. */
  lemma LongerRun(e1: seq<Tag>, p: string, t1: seq<string>, e2: seq<Tag>, t2: seq<string>, ts: seq<Tag>)
    requires e1 != [] ==> e1[|e1| - 1].path != p
    requires ts == e1 + Label(p, t1) && ts == e2 + Label(p, t2)
    ensures |t1| >= |t2|
  {
    PathBeforeRun(e1, p, t1, ts);
    RunPaths(e2, p, t2, ts);
  }

  lemma PathBeforeRun(e: seq<Tag>, p: string, t: seq<string>, ts: seq<Tag>)
    requires e != [] ==> e[|e| - 1].path != p
    requires ts == e + Label(p, t)
    ensures |ts| > |t| ==> ts[|ts| - |t| - 1].path != p
  {
    if |ts| > |t| {
      assert ts[|ts| - |t| - 1] == e[|e| - 1];
    }
  }

  lemma RunPaths(e: seq<Tag>, p: string, t: seq<string>, ts: seq<Tag>)
    requires ts == e + Label(p, t)
    ensures forall j :: |e| <= j < |ts| ==> ts[j].path == p
  {
    forall j | |e| <= j < |ts| ensures ts[j].path == p {
      assert ts[j] == Label(p, t)[j - |e|];
    }
  }

  lemma SplitAtLength<T>(a: seq<T>, b: seq<T>, c: seq<T>, d: seq<T>)
    requires a + b == c + d && |b| == |d|
    ensures a == c && b == d
  {
    assert a == (a + b)[..|a|] && c == (c + d)[..|c|];
    assert b == (a + b)[|a|..] && d == (c + d)[|c|..];
  }

  lemma LabelInjective(p: string, t1: seq<string>, t2: seq<string>)
    requires Label(p, t1) == Label(p, t2)
    ensures t1 == t2
  {
    forall i | 0 <= i < |t1| ensures t1[i] == t2[i] {
      assert Label(p, t1)[i] == Label(p, t2)[i];
    }
  }

  /** The records written are the one well-grouped sequence that stands
      for the surviving tags. */
  lemma GroupRunsCharacterized(ts: seq<Tag>, rs: seq<Record>)
    requires forall i :: 0 <= i < |ts| ==> ts[i].path != ""
    requires WellGrouped(rs) && Expand(rs) == ts
    ensures GroupRuns(ts) == rs
  {
    GroupRunsShape(ts);
    GroupingUnique(GroupRuns(ts), rs);
  }

  /** ctags runs with `--sort=no`, so a file whose tags are not adjacent
      gets one record per run: tags for a, b, a give three records. */
  lemma InterleavedPathsSplit()
    ensures GroupRuns([Tag("a.py", "function f"), Tag("b.py", "class C"), Tag("a.py", "function g")])
         == [SymbolRecord("a.py", ["function f"]), SymbolRecord("b.py", ["class C"]),
             SymbolRecord("a.py", ["function g"])]
  {
    assert "a.py" != "b.py" by { assert "a.py"[0] != "b.py"[0]; }
    ThreeRuns("a.py", "b.py", "function f", "class C", "function g");
  }

  /** Three single-tag runs, the first and last for the same file. */
  lemma ThreeRuns(a: string, b: string, x: string, y: string, z: string)
    requires a != "" && b != "" && a != b
    ensures GroupRuns([Tag(a, x), Tag(b, y), Tag(a, z)])
         == [SymbolRecord(a, [x]), SymbolRecord(b, [y]), SymbolRecord(a, [z])]
  {
    var r0, r1, r2 := SymbolRecord(a, [x]), SymbolRecord(b, [y]), SymbolRecord(a, [z]);
    ExpandThree(r0, r1, r2);
    SingleLabel(a, x);
    SingleLabel(b, y);
    SingleLabel(a, z);
    assert [Tag(a, x)] + [Tag(b, y)] + [Tag(a, z)] == [Tag(a, x), Tag(b, y), Tag(a, z)];
    GroupRunsCharacterized([Tag(a, x), Tag(b, y), Tag(a, z)], [r0, r1, r2]);
  }

  lemma SingleLabel(path: string, tag: string)
    ensures Labels(SymbolRecord(path, [tag])) == [Tag(path, tag)]
  {
  }

  lemma ExpandThree(r0: Record, r1: Record, r2: Record)
    ensures Expand([r0, r1, r2]) == Labels(r0) + Labels(r1) + Labels(r2)
  {
    var s1 := [r0];
    var s2 := s1 + [r1];
    ExpandSingle(r0);
    ExpandSnoc(s1, r1);
    ExpandSnoc(s2, r2);
    assert s2 + [r2] == [r0, r1, r2];
  }

  lemma ExpandSingle(r: Record)
    ensures Expand([r]) == Labels(r)
  {
    assert [r][..0] == [];
  }
}
