/** `generate_tags_jsonl`: the payload file holds the context records and
    then the symbol records; the two scratch lists are removed whatever
    happens, and the payload file survives only a run that succeeded. */
module Payload {
  import opened Wrappers
  import opened Constants
  import opened PathModel
  import opened Reader
  import opened Records
  import opened ContextEmitter
  import opened Ctags

  /** The lines a scratch list reads back as. The sieve writes each line
      of the listing, which still ends in its newline, followed by one more
      newline, so a blank line follows every entry. */
  function ScratchLines(entries: seq<string>): (r: seq<string>)
    requires NewlineTerminated(entries)
    ensures |r| == 2 * |entries|
  {
    if entries == [] then [] else ScratchLines(entries[..|entries| - 1]) + [entries[|entries| - 1], "\n"]
  }

  /** The blank lines the doubled newline leaves are dropped on reading: the
      pool is the same as if every entry had been written once. */
  lemma {:induction false} ScratchPool(entries: seq<string>)
    requires NewlineTerminated(entries)
    ensures Pool(ScratchLines(entries)) == Pool(entries)
  {
    if entries != [] {
      var init, e := entries[..|entries| - 1], entries[|entries| - 1];
      ScratchPool(init);
      assert Strip("\n") == "";
      var s := ScratchLines(init);
      assert s + [e, "\n"] == (s + [e]) + ["\n"];
      PoolIgnoresBlankAndRepeated(s + [e], "\n");
      assert Pool(s + [e]) == Pool(s) + Pool([e]);
      assert Pool(init + [e]) == Pool(init) + Pool([e]);
      assert init + [e] == entries;
    }
  }

  /** Every entry ends in its newline, as each line of the listing does. */
  predicate NewlineTerminated(entries: seq<string>) {
    forall i :: 0 <= i < |entries| ==> entries[i] != [] && entries[i][|entries[i]| - 1] == '\n'
  }

  /** An order the context phase may take the pool in: each path once,
      priority passes first, shallower first within a pass. */
  ghost predicate EmissionOrder(candidates: seq<string>, pool: set<Path>, order: seq<Path>) {
    && Distinct(order)
    && (forall p :: p in order <==> p in pool)
    && KeySorted(candidates, order)
  }

  /** The scratch lists and the payload file in the temporary directory:
      the lines each list holds, None once it is removed. */
  class Workspace {
    var inventoryFile: Option<seq<string>>
    var contextFile: Option<seq<string>>
    var payload: Option<seq<Record>>

    /** The two lists the sieve wrote, and no payload yet. */
    constructor (langList: seq<string>, ctxList: seq<string>)
      requires NewlineTerminated(langList) && NewlineTerminated(ctxList)
      ensures inventoryFile == Some(ScratchLines(langList))
      ensures contextFile == Some(ScratchLines(ctxList))
      ensures payload == None
    {
      inventoryFile := Some(ScratchLines(langList));
      contextFile := Some(ScratchLines(ctxList));
      payload := None;
    }

    /** `generate_tags_jsonl`. `fs` is the repository below its root;
        `universal` is UNIVERSAL_CONTEXT_FILES and `manifestOrder` the order
        `tuple(...)` enumerates the language's manifest set in; the ordered
        candidate list is built from the two (`OrderedCandidates`);
        `ctagsOutput` is what ctags prints for the language list (None when
        it cannot be started). A missing context list, a failure to start
        ctags and an output line that is JSON but no object all end in
        `typer.Exit`. */
    method GenerateTagsJsonl(fs: map<Path, FileEntry>, lang: Language,
                             universal: seq<string>, manifestOrder: seq<string>,
                             ctagsOutput: Option<seq<CtagsLine>>, kinds: set<string>)
      returns (success: bool, ghost order: seq<Path>)
      requires forall m :: m in manifestOrder <==> m in Manifests(lang)
      modifies this
      ensures inventoryFile == None && contextFile == None
      ensures success <==> payload.Some?
      ensures success <==> old(contextFile).Some? && ctagsOutput.Some?
                           && FirstNonObject(ctagsOutput.value) == |ctagsOutput.value|
      ensures success ==> EmissionOrder(OrderedCandidates(universal, manifestOrder),
                                        Pool(old(contextFile).value), order)
      ensures success ==> payload.value == ContextRecords(fs, order)
                                          + GroupRuns(Surviving(ctagsOutput.value, kinds))
    {
      var candidates := OrderedCandidates(universal, manifestOrder);
      success := false;
      order := [];
      payload := Some([]);
      if contextFile.Some? {
        var pool := Pool(contextFile.value);
        var out;
        out, order := EmitContext(fs, candidates, pool);
        payload := Some(out);
        if ctagsOutput.Some? {
          var written, tagCount, failed := RunCtags(ctagsOutput.value, kinds);
          payload := Some(payload.value + written);
          success := !failed;
        }
      }
      // the scratch lists always go; the payload only when the run failed
      inventoryFile := None;
      contextFile := None;
      if !success {
        payload := None;
      }
    }
  }

  /** The payload of a successful run: context records, each with
      content, then symbol records, each for a source file with at least
      one tag and no two neighbours for the same file, standing for every
      surviving tag in order. */
  lemma PayloadShape(fs: map<Path, FileEntry>, candidates: seq<string>, pool: set<Path>,
                     order: seq<Path>, lines: seq<CtagsLine>, kinds: set<string>)
    requires forall p :: p in pool ==> WellFormed(p)
    requires EmissionOrder(candidates, pool, order)
    ensures forall i :: 0 <= i < |ContextRecords(fs, order)| ==>
      ContextRecords(fs, order)[i].ContextRecord? && ContextRecords(fs, order)[i].content != ""
    ensures WellGrouped(GroupRuns(Surviving(lines, kinds)))
    ensures Expand(GroupRuns(Surviving(lines, kinds))) == Surviving(lines, kinds)
  {
    RecordsFromPool(fs, pool, order);
    SymbolShape(lines, kinds);
  }

  lemma SymbolShape(lines: seq<CtagsLine>, kinds: set<string>)
    ensures WellGrouped(GroupRuns(Surviving(lines, kinds)))
    ensures Expand(GroupRuns(Surviving(lines, kinds))) == Surviving(lines, kinds)
  {
    var ts := Surviving(lines, kinds);
    forall i | 0 <= i < |ts| ensures ts[i].path != "" {
      assert ts[i] in ts;
    }
    GroupRunsShape(ts);
  }
}
