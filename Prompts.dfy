/** `select_scope` of cli/ui/prompts.py: the candidate module roots are
    sorted as paths, repeats kept; a selection of several roots is cut down
    to the roots no earlier kept root already contains. */
module Prompts {
  import opened Wrappers
  import opened PathModel
  import opened Ordering
  import opened Inventory

  datatype PromptOutcome =
    | NotFound                   // typer.Exit after "Couldn't find any ... modules"
    | Exited                     // the prompt was cancelled: typer.Exit
    | Selected(paths: seq<string>)

  /** `sorted(list(get_focused_inventory(...)))`: paths, in path order. */
  function PathCandidates(stream: seq<string>, manifests: set<string>): (r: seq<Path>)
    ensures PathsSorted(r)
    ensures multiset(r) == multiset(FocusedInventory(stream, manifests))
  {
    SortPaths(FocusedInventory(stream, manifests))
  }

  // ---------------------------------------------------------------------
  // The ancestor filter

  /** Some kept root is `p` itself or one of its ancestors. */
  predicate Covered(kept: seq<Path>, p: Path) {
    exists i :: 0 <= i < |kept| && RelativeTo(p, kept[i])
  }

  /** The roots the filter keeps: each selected root in turn, unless a
      root kept before it contains it. */
  function Collapse(sel: seq<Path>): (r: seq<Path>)
    ensures |r| <= |sel|
  {
    if sel == [] then []
    else
      var kept := Collapse(sel[..|sel| - 1]);
      var p := sel[|sel| - 1];
      if Covered(kept, p) then kept else kept + [p]
  }

  lemma CollapseSnoc(sel: seq<Path>, p: Path)
    ensures Collapse(sel + [p]) == if Covered(Collapse(sel), p) then Collapse(sel) else Collapse(sel) + [p]
  {
    assert (sel + [p])[..|sel + [p]| - 1] == sel;
  }

  /** Every kept root was selected. */
  lemma {:induction false} CollapseMembers(sel: seq<Path>)
    ensures forall x :: x in Collapse(sel) ==> x in sel
  {
    if sel != [] {
      CollapseMembers(sel[..|sel| - 1]);
      assert forall x :: x in sel[..|sel| - 1] ==> x in sel;
    }
  }

  /** `idx` picks out `r` from `s`: strictly increasing positions of `s`
      holding the elements of `r` in turn. */
  ghost predicate Embedding(r: seq<Path>, s: seq<Path>, idx: seq<int>) {
    && |idx| == |r|
    && (forall k :: 0 <= k < |idx| ==> 0 <= idx[k] < |s| && s[idx[k]] == r[k])
    && (forall k, m :: 0 <= k < m < |idx| ==> idx[k] < idx[m])
  }

  /** The kept roots are a subsequence of the selection: the filter only
      drops roots and never reorders them. */
  lemma {:induction false} CollapseSubsequence(sel: seq<Path>)
    ensures exists idx :: Embedding(Collapse(sel), sel, idx)
  {
    if sel != [] {
      var init := sel[..|sel| - 1];
      CollapseSubsequence(init);
      var idx :| Embedding(Collapse(init), init, idx);
      assert forall k :: 0 <= k < |idx| ==> sel[idx[k]] == init[idx[k]];
      if Covered(Collapse(init), sel[|sel| - 1]) {
        assert Embedding(Collapse(sel), sel, idx);
      } else {
        var idx' := idx + [|sel| - 1];
        assert Embedding(Collapse(sel), sel, idx');
      }
    } else {
      assert Embedding(Collapse(sel), sel, []);
    }
  }

  /** The filter loop of `select_scope`: for each selected root, look for
      a kept root it lies within, and keep its string form when there is
      none. */
  method FilterNested(selection: seq<Path>) returns (filtered: seq<string>)
    requires forall i :: 0 <= i < |selection| ==> WellFormed(selection[i])
    ensures filtered == Strs(Collapse(selection))
  {
    filtered := [];
    ghost var kept: seq<Path> := [];
    var i := 0;
    while i < |selection|
      invariant 0 <= i <= |selection|
      invariant kept == Collapse(selection[..i])
      invariant filtered == Strs(kept)
      invariant forall k :: 0 <= k < |kept| ==> WellFormed(kept[k])
    {
      var scopePath := selection[i];
      var isParentInFilteredSelection := AnyParent(scopePath, filtered, kept);
      FilterAdvance(selection, i, kept, isParentInFilteredSelection);
      if !isParentInFilteredSelection {
        filtered := filtered + [Str(scopePath)];
        kept := kept + [scopePath];
      }
      i := i + 1;
    }
    assert selection[..i] == selection;
  }

  /** The inner loop of the filter: whether `scopePath` lies within one of
      the roots kept so far, read back from their string forms. */
  method AnyParent(scopePath: Path, filtered: seq<string>, ghost kept: seq<Path>)
    returns (isParentInFilteredSelection: bool)
    requires forall k :: 0 <= k < |kept| ==> WellFormed(kept[k])
    requires filtered == Strs(kept)
    ensures isParentInFilteredSelection <==> Covered(kept, scopePath)
  {
    isParentInFilteredSelection := false;
    var j := 0;
    while j < |filtered|
      invariant 0 <= j <= |filtered|
      invariant isParentInFilteredSelection <==> Covered(kept[..j], scopePath)
    {
      ReadBack(kept, filtered, j);
      CoveredSnoc(kept, j, scopePath);
      if RelativeTo(scopePath, ParsePath(filtered[j])) {
        isParentInFilteredSelection := true;
      }
      j := j + 1;
    }
    assert kept[..j] == kept;
  }

  lemma CoveredSnoc(kept: seq<Path>, j: nat, p: Path)
    requires j < |kept|
    ensures Covered(kept[..j + 1], p) <==> Covered(kept[..j], p) || RelativeTo(p, kept[j])
  {
    var a, b := kept[..j], kept[..j + 1];
    assert forall k :: 0 <= k < j ==> a[k] == b[k];
    assert b[j] == kept[j];
    if Covered(b, p) {
      var k :| 0 <= k < |b| && RelativeTo(p, b[k]);
      if k < j { assert RelativeTo(p, a[k]); }
    }
    if Covered(a, p) {
      var k :| 0 <= k < |a| && RelativeTo(p, a[k]);
      assert RelativeTo(p, b[k]);
    }
  }

  /** A kept root's string form parses back to it. */
  lemma ReadBack(kept: seq<Path>, filtered: seq<string>, j: nat)
    requires forall k :: 0 <= k < |kept| ==> WellFormed(kept[k])
    requires filtered == Strs(kept) && j < |kept|
    ensures ParsePath(filtered[j]) == kept[j]
  {
    ParseStr(kept[j]);
  }

  /** One turn of the outer filter loop extends the kept list as `Collapse`
      does. */
  lemma FilterStep(selection: seq<Path>, i: nat, kept: seq<Path>, covered: bool)
    requires i < |selection| && kept == Collapse(selection[..i])
    requires covered <==> Covered(kept, selection[i])
    ensures Collapse(selection[..i + 1]) == if covered then kept else kept + [selection[i]]
  {
    assert selection[..i + 1] == selection[..i] + [selection[i]];
    CollapseSnoc(selection[..i], selection[i]);
  }

  /** One turn of the filter loop keeps its invariant. */
  lemma FilterAdvance(selection: seq<Path>, i: nat, kept: seq<Path>, covered: bool)
    requires i < |selection| && kept == Collapse(selection[..i])
    requires forall k :: 0 <= k < |selection| ==> WellFormed(selection[k])
    requires forall k :: 0 <= k < |kept| ==> WellFormed(kept[k])
    requires covered <==> Covered(kept, selection[i])
    ensures covered ==> Collapse(selection[..i + 1]) == kept
    ensures !covered ==> Collapse(selection[..i + 1]) == kept + [selection[i]]
    ensures Strs(kept + [selection[i]]) == Strs(kept) + [Str(selection[i])]
    ensures forall k :: 0 <= k < |kept + [selection[i]]| ==> WellFormed((kept + [selection[i]])[k])
  {
    FilterStep(selection, i, kept, covered);
    StrsSnoc(kept, selection[i]);
  }

  lemma StrsSnoc(ps: seq<Path>, p: Path)
    ensures Strs(ps + [p]) == Strs(ps) + [Str(p)]
  {
  }

  /** `select_scope` of cli/ui/prompts.py; `answer` is what the checkbox
      prompt returns when shown (None when it is cancelled): selected
      candidate paths, in the order of the choices. */
  method SelectScope(stream: seq<string>, manifests: set<string>, answer: Option<seq<Path>>)
    returns (r: PromptOutcome)
    requires answer.Some? ==> forall i :: 0 <= i < |answer.value| ==> WellFormed(answer.value[i])
    ensures var c := PathCandidates(stream, manifests);
      && (c == [] <==> r == NotFound)
      && (|c| == 1 ==> r == Selected([Str(c[0])]))
      && (|c| >= 2 && answer.None? ==> r == Exited)
      && (|c| >= 2 && answer.Some? && [] in answer.value ==> r == Selected(["."]))
      && (|c| >= 2 && answer.Some? && [] !in answer.value ==> r == Selected(Strs(Collapse(answer.value))))
  {
    var candidates := PathCandidates(stream, manifests);
    if |candidates| == 0 {
      return NotFound;
    }
    if |candidates| == 1 {
      return Selected([Str(candidates[0])]);
    }
    if answer.None? {
      return Exited;
    }
    var selection := answer.value;
    if [] in selection {
      return Selected(["."]);
    }
    var filtered := FilterNested(selection);
    return Selected(filtered);
  }

  // ---------------------------------------------------------------------
  // What the filter promises

  /** Nothing selected is lost: every selected root lies within a kept
      root. */
  lemma {:induction false} CollapseCovers(sel: seq<Path>)
    ensures forall i :: 0 <= i < |sel| ==> Covered(Collapse(sel), sel[i])
  {
    if sel != [] {
      var init, p := sel[..|sel| - 1], sel[|sel| - 1];
      CollapseCovers(init);
      var kept := Collapse(init);
      forall i | 0 <= i < |sel| ensures Covered(Collapse(sel), sel[i]) {
        if i < |sel| - 1 {
          assert sel[i] == init[i];
          var k :| 0 <= k < |kept| && RelativeTo(sel[i], kept[k]);
          assert Collapse(sel)[k] == kept[k];
        } else if !Covered(kept, p) {
          assert Collapse(sel)[|kept|] == p;
          assert IsPrefix(p, p);
        }
      }
    }
  }

  /** No kept root lies within a root kept before it; in particular no
      root is kept twice. */
  lemma {:induction false} CollapseNoEarlierAncestor(sel: seq<Path>)
    ensures forall i, j :: 0 <= i < j < |Collapse(sel)| ==> !RelativeTo(Collapse(sel)[j], Collapse(sel)[i])
  {
    if sel != [] {
      var init, p := sel[..|sel| - 1], sel[|sel| - 1];
      CollapseNoEarlierAncestor(init);
      var kept := Collapse(init);
      if !Covered(kept, p) {
        var r := kept + [p];
        forall i, j | 0 <= i < j < |r| ensures !RelativeTo(r[j], r[i]) {
          if j == |kept| {
            assert r[j] == p && r[i] == kept[i];
            assert !RelativeTo(p, kept[i]);
            assert !RelativeTo(r[j], r[i]);
          } else {
            assert r[j] == kept[j] && r[i] == kept[i];
          }
        }
      }
    }
  }

  /** A kept list of a sorted selection is sorted. */
  lemma {:induction false} CollapseSorted(sel: seq<Path>)
    requires PathsSorted(sel)
    ensures PathsSorted(Collapse(sel))
  {
    if sel != [] {
      var init, p := sel[..|sel| - 1], sel[|sel| - 1];
      assert PathsSorted(init);
      CollapseSorted(init);
      CollapseMembers(init);
      var kept := Collapse(init);
      forall x | x in kept ensures PathLe(x, p) {
        var k :| 0 <= k < |init| && init[k] == x;
        assert sel[k] == x;
      }
    }
  }

  /** When the selection follows the sorted candidate order and "." is not
      in it, no kept root contains another: ancestors sort before their
      descendants, so they are met first. */
  lemma CollapseIndependent(sel: seq<Path>)
    requires PathsSorted(sel) && [] !in sel
    ensures forall i, j :: 0 <= i < |Collapse(sel)| && 0 <= j < |Collapse(sel)| && i != j ==>
      !RelativeTo(Collapse(sel)[i], Collapse(sel)[j])
  {
    var r := Collapse(sel);
    CollapseSorted(sel);
    CollapseNoEarlierAncestor(sel);
    CollapseMembers(sel);
    forall i, j | 0 <= i < |r| && 0 <= j < |r| && i != j ensures !RelativeTo(r[i], r[j]) {
      if i < j && RelativeTo(r[i], r[j]) {
        assert r[i] in sel && r[j] in sel;
        assert !RelativeTo(r[j], r[i]);
        assert r[j] != r[i] && r[j] != [] && r[i] != [];
        ProperPrefixLt(r[j], r[i]);
      }
    }
  }

  /** Containment is by whole components: "ab" does not lie within "a",
      while "a/b" does, so ["a", "a/b", "ab"] keeps "a" and "ab". */
  lemma ComponentContainment()
    ensures Collapse([["a"], ["a", "b"], ["ab"]]) == [["a"], ["ab"]]
  {
    var a, ab, aSlashB: Path := ["a"], ["ab"], ["a", "b"];
    CollapseSnoc([], a);
    assert [] + [a] == [a];
    assert Collapse([a]) == [a];
    CollapseSnoc([a], aSlashB);
    assert RelativeTo(aSlashB, [a][0]);
    assert Collapse([a, aSlashB]) == [a];
    CollapseSnoc([a, aSlashB], ab);
    assert !IsPrefix(a, ab) by {
      assert ab[..1] == ab;
      assert |"ab"| == 2;
    }
    assert !Covered([a], ab);
    assert [a, aSlashB] + [ab] == [a, aSlashB, ab];
  }
}
