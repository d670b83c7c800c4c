/** Module discovery, scope selection and the two-bucket sieve of
    cli/main.py: `get_focused_inventory`, `select_scope` and the
    classification loop of `get_final_inventory_file`. The listing tool's
    output is the sequence of its lines. */
module Inventory {
  import opened Wrappers
  import opened PathModel
  import opened Ordering
  import opened Constants

  // ---------------------------------------------------------------------
  // Module discovery

  predicate IsManifestEntry(line: string, manifests: set<string>) {
    Lower(Name(EntryPath(line))) in manifests
  }

  /** The directory discovery contributes for one line. */
  function EntryFound(line: string, manifests: set<string>): (r: seq<Path>)
    ensures |r| <= 1
  {
    if IsManifestEntry(line, manifests) then [Parent(EntryPath(line))] else []
  }

  function Discovery(manifests: set<string>): string -> seq<Path> {
    line => EntryFound(line, manifests)
  }

  /** What a generator yields over the stream, `found(line)` for each line
      in turn. */
  function Collect<T>(stream: seq<string>, found: string -> seq<T>): (r: seq<T>) {
    if stream == [] then [] else found(stream[0]) + Collect(stream[1..], found)
  }

  lemma {:induction false} CollectMembers<T>(stream: seq<string>, found: string -> seq<T>, x: T)
    ensures x in Collect(stream, found) <==> exists i :: 0 <= i < |stream| && x in found(stream[i])
  {
    if stream != [] {
      CollectMembers(stream[1..], found, x);
      assert forall i :: 1 <= i < |stream| ==> stream[i] == stream[1..][i - 1];
      if exists i :: 0 <= i < |stream| && x in found(stream[i]) {
        var i :| 0 <= i < |stream| && x in found(stream[i]);
        if i > 0 { assert stream[1..][i - 1] == stream[i]; }
      }
    }
  }

  lemma {:induction false} CollectAppend<T>(a: seq<string>, b: seq<string>, found: string -> seq<T>)
    ensures Collect(a + b, found) == Collect(a, found) + Collect(b, found)
  {
    if a != [] {
      assert (a + b)[0] == a[0] && (a + b)[1..] == a[1..] + b;
      CollectAppend(a[1..], b, found);
    } else {
      assert a + b == b;
    }
  }

  /** `get_focused_inventory`: the parent directory of every listed file
      whose lower-cased name is one of the language's manifests, in stream
      order, repeats included. */
  function FocusedInventory(stream: seq<string>, manifests: set<string>): (r: seq<Path>)
    ensures |r| <= |stream|
    ensures forall k :: 0 <= k < |r| ==> ManifestDirectory(stream, manifests, r[k])
  {
    DiscoverySound(stream, manifests);
    Collect(stream, Discovery(manifests))
  }

  /** `d` is the directory of some listed manifest. */
  predicate ManifestDirectory(stream: seq<string>, manifests: set<string>, d: Path) {
    exists i :: 0 <= i < |stream| && IsManifestEntry(stream[i], manifests) && Parent(EntryPath(stream[i])) == d
  }

  /** Each line yields at most one directory, the directory of a manifest. */
  lemma DiscoverySound(stream: seq<string>, manifests: set<string>)
    ensures |Collect(stream, Discovery(manifests))| <= |stream|
    ensures var r := Collect(stream, Discovery(manifests));
      forall k :: 0 <= k < |r| ==> ManifestDirectory(stream, manifests, r[k])
  {
    DiscoveryLength(stream, manifests);
    var r := Collect(stream, Discovery(manifests));
    forall k | 0 <= k < |r|
      ensures ManifestDirectory(stream, manifests, r[k])
    {
      DiscoveredIsManifestDirectory(stream, manifests, r[k]);
    }
  }

  lemma DiscoveredIsManifestDirectory(stream: seq<string>, manifests: set<string>, d: Path)
    requires d in Collect(stream, Discovery(manifests))
    ensures ManifestDirectory(stream, manifests, d)
  {
    CollectMembers(stream, Discovery(manifests), d);
    var i :| 0 <= i < |stream| && d in Discovery(manifests)(stream[i]);
    assert d in EntryFound(stream[i], manifests);
  }

  lemma {:induction false} DiscoveryLength(stream: seq<string>, manifests: set<string>)
    ensures |Collect(stream, Discovery(manifests))| <= |stream|
  {
    if stream != [] {
      assert |Discovery(manifests)(stream[0])| <= 1;
      DiscoveryLength(stream[1..], manifests);
    }
  }

  /** A directory is discovered exactly when some listed manifest lies
      directly in it. */
  lemma FocusedInventoryMembers(stream: seq<string>, manifests: set<string>, d: Path)
    ensures d in FocusedInventory(stream, manifests) <==>
      exists i :: 0 <= i < |stream| && IsManifestEntry(stream[i], manifests) && Parent(EntryPath(stream[i])) == d
  {
    CollectMembers(stream, Discovery(manifests), d);
  }

  /** Discovery keeps stream order: the directories of the manifests in the
      first part of the stream come first. */
  lemma FocusedInventoryAppend(a: seq<string>, b: seq<string>, manifests: set<string>)
    ensures FocusedInventory(a + b, manifests) == FocusedInventory(a, manifests) + FocusedInventory(b, manifests)
  {
    CollectAppend(a, b, Discovery(manifests));
  }

  function Strs(ps: seq<Path>): (r: seq<string>)
    ensures |r| == |ps|
    ensures forall i :: 0 <= i < |ps| ==> r[i] == Str(ps[i])
  {
    if ps == [] then [] else [Str(ps[0])] + Strs(ps[1..])
  }

  // ---------------------------------------------------------------------
  // Scope selection (the cli/main.py revision)

  /** `sorted(set(str(p) for p in get_focused_inventory(...)))`. */
  function Candidates(stream: seq<string>, manifests: set<string>): (r: seq<string>)
    ensures StrictlySorted(r)
    ensures forall s :: s in r <==> exists d :: d in FocusedInventory(stream, manifests) && Str(d) == s
  {
    var found := FocusedInventory(stream, manifests);
    StrsMembers(found);
    SortedUnique(Strs(found))
  }

  /** The string forms of a list of paths are the string forms of its
      members. */
  lemma StrsMembers(found: seq<Path>)
    ensures forall s :: s in Strs(found) <==> exists d :: d in found && Str(d) == s
  {
    forall s ensures s in Strs(found) <==> exists d :: d in found && Str(d) == s {
      if s in Strs(found) {
        var i :| 0 <= i < |found| && Strs(found)[i] == s;
        assert found[i] in found;
      }
      if exists d :: d in found && Str(d) == s {
        var d :| d in found && Str(d) == s;
        var i :| 0 <= i < |found| && found[i] == d;
        assert Strs(found)[i] == s;
      }
    }
  }

  datatype ScopeOutcome =
    | NoModules                  // typer.Exit after "Couldn't find any ... modules"
    | PromptFailed               // the cancelled prompt's None answer is indexed: TypeError
    | Scopes(paths: seq<string>)

  /** `select_scope`; `answer` is what the checkbox prompt returns when it
      is shown (None when it is cancelled). */
  function SelectScope(stream: seq<string>, manifests: set<string>, answer: Option<seq<string>>): (r: ScopeOutcome)
    ensures var c := Candidates(stream, manifests);
      && (|c| == 0 <==> r == NoModules)
      && (|c| == 1 ==> r == Scopes(c))
      && (|c| >= 2 && answer.None? ==> r == PromptFailed)
      && (|c| >= 2 && answer.Some? && "ALL" in answer.value ==> r == Scopes(c))
      && (|c| >= 2 && answer.Some? && "ALL" !in answer.value ==> r == Scopes(answer.value))
  {
    var candidates := Candidates(stream, manifests);
    if |candidates| == 0 then NoModules
    else if |candidates| == 1 then
      assert candidates == [candidates[0]];
      Scopes([candidates[0]])
    else
      match answer
      case None => PromptFailed
      case Some(selection) =>
        if "ALL" in selection then Scopes(candidates) else Scopes(selection)
  }

  /** With at most one candidate the prompt is not shown: the answer has no
      effect. */
  lemma SelectScopeNeedsNoPrompt(stream: seq<string>, manifests: set<string>,
                                 a1: Option<seq<string>>, a2: Option<seq<string>>)
    requires |Candidates(stream, manifests)| <= 1
    ensures SelectScope(stream, manifests, a1) == SelectScope(stream, manifests, a2)
  {
  }

  /** A directory holding several manifests is one candidate. */
  lemma {:induction false} SameDirectoryOneCandidate(stream: seq<string>, manifests: set<string>, d: Path)
    requires forall i :: 0 <= i < |stream| ==>
      IsManifestEntry(stream[i], manifests) && Parent(EntryPath(stream[i])) == d
    requires stream != []
    ensures Candidates(stream, manifests) == [Str(d)]
  {
    OnlyDirectoryFound(stream, manifests, d);
    SortedSingleton(Candidates(stream, manifests), Str(d));
  }

  /** A strictly sorted list holding `x` and nothing else is `[x]`. */
  lemma SortedSingleton(c: seq<string>, x: string)
    requires StrictlySorted(c) && x in c
    requires forall s :: s in c ==> s == x
    ensures c == [x]
  {
    if |c| > 1 {
      assert c[0] in c && c[1] in c;
      assert StrLt(c[0], c[1]);
      StrLtIrreflexive(x);
    }
  }

  /** When every listed file is a manifest directly in `d`, discovery finds
      `d` and nothing else. */
  lemma OnlyDirectoryFound(stream: seq<string>, manifests: set<string>, d: Path)
    requires forall i :: 0 <= i < |stream| ==>
      IsManifestEntry(stream[i], manifests) && Parent(EntryPath(stream[i])) == d
    requires stream != []
    ensures Str(d) in Candidates(stream, manifests)
    ensures forall s :: s in Candidates(stream, manifests) ==> s == Str(d)
  {
    var found := FocusedInventory(stream, manifests);
    FocusedInventoryMembers(stream, manifests, d);
    assert IsManifestEntry(stream[0], manifests) && Parent(EntryPath(stream[0])) == d;
    assert d in found;
    forall e | e in found ensures e == d {
      var k :| 0 <= k < |found| && found[k] == e;
      assert ManifestDirectory(stream, manifests, found[k]);
    }
    forall s | s in Candidates(stream, manifests) ensures s == Str(d) {
      var e :| e in found && Str(e) == s;
    }
  }

  // ---------------------------------------------------------------------
  // The two-bucket sieve

  datatype Bucket = LanguageFile | ContextFile | Dropped

  /** `tier_1_set`: the universal context names and the language's
      manifests, as stored. */
  function Tier1Set(universal: seq<string>, manifests: set<string>): (r: set<string>)
    ensures forall n :: n in r <==> n in universal || n in manifests
  {
    (set u | u in universal) + manifests
  }

  /** The classification of one path against the tier-1 set and the allowed
      extensions; the extension check comes first. */
  function ClassifyPath(p: Path, tier1: set<string>, extensions: set<string>): (b: Bucket)
    ensures b == LanguageFile <==> Lower(Suffix(Name(p))) in extensions
    ensures b == Dropped ==> Lower(Name(p)) !in tier1 && Lower(Suffix(Name(p))) != ".md"
  {
    var fileName := Lower(Name(p));
    var suffix := Lower(Suffix(Name(p)));
    if suffix in extensions then LanguageFile
    else if fileName in tier1
         || Contains(fileName, "readme")
         || Lower(Stem(Name(p))) == "readme"
         || suffix == ".md"
    then ContextFile
    else Dropped
  }

  function Classify(line: string, tier1: set<string>, extensions: set<string>): Bucket {
    ClassifyPath(EntryPath(line), tier1, extensions)
  }

  /** The classification of stream lines, as a function value. */
  function Classifier(tier1: set<string>, extensions: set<string>): string -> Bucket {
    line => Classify(line, tier1, extensions)
  }

  /** The lines that `classify` puts in bucket `b`, in stream order. */
  function Bucketed(stream: seq<string>, b: Bucket, classify: string -> Bucket): (r: seq<string>)
    ensures |r| <= |stream|
  {
    if stream == [] then []
    else
      var init := Bucketed(stream[..|stream| - 1], b, classify);
      var last := stream[|stream| - 1];
      if classify(last) == b then init + [last] else init
  }

  lemma BucketedSnoc(s: seq<string>, line: string, b: Bucket, classify: string -> Bucket)
    ensures Bucketed(s + [line], b, classify)
         == if classify(line) == b then Bucketed(s, b, classify) + [line] else Bucketed(s, b, classify)
  {
    assert (s + [line])[..|s + [line]| - 1] == s;
  }

  /** One more line of the stream extends the list of its own bucket. */
  lemma SieveStep(stream: seq<string>, i: nat, b: Bucket, classify: string -> Bucket)
    requires i < |stream|
    ensures Bucketed(stream[..i + 1], b, classify)
         == if classify(stream[i]) == b then Bucketed(stream[..i], b, classify) + [stream[i]]
            else Bucketed(stream[..i], b, classify)
  {
    assert stream[..i + 1] == stream[..i] + [stream[i]];
    BucketedSnoc(stream[..i], stream[i], b, classify);
  }

  /** The sieve loop of `get_final_inventory_file`: the lines of the
      language list and of the context list, and the two counters. Each
      line goes to the bucket `classify` gives it and is written as the
      listing tool produced it; `SiftInventory` passes `Classifier`, which
      applies `ClassifyPath` (the extension check first, then the context
      checks). */
  method Sieve(stream: seq<string>, classify: string -> Bucket)
    returns (langList: seq<string>, ctxList: seq<string>, langFileCount: nat, ctxFileCount: nat)
    ensures langList == Bucketed(stream, LanguageFile, classify)
    ensures ctxList == Bucketed(stream, ContextFile, classify)
    ensures langFileCount == |langList| && ctxFileCount == |ctxList|
  {
    langList, ctxList := [], [];
    langFileCount, ctxFileCount := 0, 0;
    var i := 0;
    while i < |stream|
      invariant 0 <= i <= |stream|
      invariant langList == Bucketed(stream[..i], LanguageFile, classify)
      invariant ctxList == Bucketed(stream[..i], ContextFile, classify)
      invariant langFileCount == |langList| && ctxFileCount == |ctxList|
    {
      var filePath := stream[i];
      SieveStep(stream, i, LanguageFile, classify);
      SieveStep(stream, i, ContextFile, classify);
      var bucket := classify(filePath);
      if bucket == LanguageFile {
        langFileCount := langFileCount + 1;
        langList := langList + [filePath];
      } else if bucket == ContextFile {
        ctxFileCount := ctxFileCount + 1;
        ctxList := ctxList + [filePath];
      }
      i := i + 1;
    }
    assert stream[..i] == stream;
  }

  /** `get_final_inventory_file` for one language: the tier-1 names and the
      allowed extensions come from the heuristics table. */
  method SiftInventory(stream: seq<string>, universal: seq<string>, language: Language)
    returns (langList: seq<string>, ctxList: seq<string>, langFileCount: nat, ctxFileCount: nat)
    ensures langList == Bucketed(stream, LanguageFile,
                            Classifier(Tier1Set(universal, Manifests(language)), Extensions(language)))
    ensures ctxList == Bucketed(stream, ContextFile,
                            Classifier(Tier1Set(universal, Manifests(language)), Extensions(language)))
    ensures langFileCount == |langList| && ctxFileCount == |ctxList|
  {
    var allowedExtensions := Extensions(language);
    var tier1 := Tier1Set(universal, Manifests(language));
    langList, ctxList, langFileCount, ctxFileCount := Sieve(stream, Classifier(tier1, allowedExtensions));
  }

  /** A line is in a bucket's list exactly when it is in the stream and
      classified into that bucket. */
  lemma {:induction false} BucketedMembers(stream: seq<string>, b: Bucket, classify: string -> Bucket, line: string)
    ensures line in Bucketed(stream, b, classify) <==> line in stream && classify(line) == b
  {
    if stream != [] {
      var init, last := stream[..|stream| - 1], stream[|stream| - 1];
      BucketedMembers(init, b, classify, line);
      BucketedSnoc(init, last, b, classify);
      assert stream == init + [last];
      var bs, bi := Bucketed(stream, b, classify), Bucketed(init, b, classify);
      if classify(last) == b {
        assert bs == bi + [last];
        assert line in bs <==> line in bi || line == last;
      } else {
        assert bs == bi;
      }
      assert line in stream <==> line in init || line == last;
    }
  }

  /** The three outcomes partition the stream: every line is counted in
      exactly one of them. */
  lemma {:induction false} BucketsPartition(stream: seq<string>, classify: string -> Bucket)
    ensures |Bucketed(stream, LanguageFile, classify)|
          + |Bucketed(stream, ContextFile, classify)|
          + |Bucketed(stream, Dropped, classify)| == |stream|
  {
    if stream != [] {
      BucketsPartition(stream[..|stream| - 1], classify);
    }
  }

  /** Rule one first: a path whose lower-cased suffix is an allowed
      extension goes to the language list, even when its name is in the
      tier-1 set or contains "readme", and so never to the context list. */
  lemma ExtensionWins(line: string, tier1: set<string>, extensions: set<string>, stream: seq<string>)
    requires Lower(Suffix(Name(EntryPath(line)))) in extensions
    ensures Classify(line, tier1, extensions) == LanguageFile
    ensures line !in Bucketed(stream, ContextFile, Classifier(tier1, extensions))
  {
    BucketedMembers(stream, ContextFile, Classifier(tier1, extensions), line);
  }

  /** The stem test adds nothing: a name whose stem is "readme" contains
      "readme". */
  lemma StemReadmeContainsReadme(name: string)
    requires Lower(Stem(name)) == "readme"
    ensures Contains(Lower(name), "readme")
  {
    var stem := Stem(name);
    assert name[..|stem|] == stem;
    LowerPrefix(name, |stem|);
    ContainsAt(Lower(name), "readme", 0);
    assert Lower(name)[0..] == Lower(name);
  }

  /** The closed classification: a path that is not a language file goes to
      the context list exactly when its lower-cased name is in the tier-1
      set, contains "readme", or its suffix is ".md"; otherwise it is
      dropped. */
  lemma ContextIff(p: Path, tier1: set<string>, extensions: set<string>)
    ensures ClassifyPath(p, tier1, extensions) == ContextFile <==>
      && Lower(Suffix(Name(p))) !in extensions
      && (|| Lower(Name(p)) in tier1
          || Contains(Lower(Name(p)), "readme")
          || Lower(Suffix(Name(p))) == ".md")
    ensures ClassifyPath(p, tier1, extensions) == Dropped <==>
      && Lower(Suffix(Name(p))) !in extensions
      && Lower(Name(p)) !in tier1
      && !Contains(Lower(Name(p)), "readme")
      && Lower(Suffix(Name(p))) != ".md"
  {
    if Lower(Stem(Name(p))) == "readme" {
      StemReadmeContainsReadme(Name(p));
    }
  }

  lemma PipfileLower()
    ensures Lower("Pipfile") == "pipfile"
  {
    assert "Pipfile" == ['P'] + "ipfile";
    LowerCons('P', "ipfile");
    LowerOfLower("ipfile");
  }

  lemma PipfileName()
    ensures Lower("Pipfile") == "pipfile" && Suffix("Pipfile") == ""
    ensures !Contains("pipfile", "readme")
  {
    PipfileLower();
    NoDotSuffix("Pipfile");
    MissingCharNotContained("pipfile", "readme", 'd');
  }

  lemma PipfileNotListed(universal: seq<string>)
    requires "pipfile" !in universal
    ensures "pipfile" !in Tier1Set(universal, Manifests(PY)) && "" !in Extensions(PY)
  {
    UnmatchableNeverFound(PY, "pipfile");
    assert |"pipfile"| == 7;
  }

  /** An upper-case manifest entry never makes a file a context file by
      name: a file named "Pipfile" is dropped for Python. */
  lemma PipfileIsDropped(dir: Path, universal: seq<string>)
    requires "pipfile" !in universal
    ensures ClassifyPath(dir + ["Pipfile"], Tier1Set(universal, Manifests(PY)), Extensions(PY)) == Dropped
  {
    var p := dir + ["Pipfile"];
    assert Name(p) == "Pipfile";
    PipfileName();
    PipfileNotListed(universal);
    ContextIff(p, Tier1Set(universal, Manifests(PY)), Extensions(PY));
  }

  lemma AppCsprojLower()
    ensures Lower("App.csproj") == "app.csproj"
  {
    assert "App.csproj" == ['A'] + "pp.csproj";
    LowerCons('A', "pp.csproj");
    LowerOfLower("pp.csproj");
  }

  lemma AppCsprojName()
    ensures Lower("App.csproj") == "app.csproj" && !Contains("app.csproj", "readme")
  {
    AppCsprojLower();
    MissingCharNotContained("app.csproj", "readme", 'd');
  }

  lemma AppCsprojNotListed(universal: seq<string>)
    requires "app.csproj" !in universal
    ensures "app.csproj" !in Tier1Set(universal, Manifests(CS))
    ensures ".csproj" !in Extensions(CS) && ".csproj" != ".md"
  {
    assert |"app.csproj"| == 10;
    assert |".csproj"| == 7;
  }

  lemma AppCsprojSuffix()
    ensures Lower(Suffix("App.csproj")) == ".csproj"
  {
    assert "App.csproj" == "App" + ".csproj";
    NoDotFromIff(".csproj", 1);
    IsLowerIff(".csproj");
    assert ExtensionShape(".csproj");
    ShapedExtensionIsMatchable("App", ".csproj");
  }

  /** The C# project-file entries are compared as whole names: a project
      file such as "App.csproj" has the suffix ".csproj", which is not a
      C# extension, and is no manifest by name, so it is dropped. */
  lemma ProjectFileIsDropped(dir: Path, universal: seq<string>)
    requires "app.csproj" !in universal
    ensures Lower(Suffix("App.csproj")) == ".csproj"
    ensures ClassifyPath(dir + ["App.csproj"], Tier1Set(universal, Manifests(CS)), Extensions(CS)) == Dropped
  {
    var p := dir + ["App.csproj"];
    assert Name(p) == "App.csproj";
    AppCsprojSuffix();
    AppCsprojName();
    AppCsprojNotListed(universal);
    ContextIff(p, Tier1Set(universal, Manifests(CS)), Extensions(CS));
  }
}
