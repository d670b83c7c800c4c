/** The language table: each supported language's manifest file names and
    source-file extensions, as constant data. */
module Constants {
  import opened Wrappers
  import opened PathModel

  /** `SupportedLanguages`. */
  datatype Language = PY | JS | JAVA | CS | GO | CPP

  const AllLanguages: seq<Language> := [PY, JS, JAVA, CS, GO, CPP]

  /** The enum member's string value. */
  function Value(l: Language): string {
    match l
    case PY => "Python"
    case JS => "JavaScript/TypeScript"
    case JAVA => "Java"
    case CS => "C#"
    case GO => "GO"
    case CPP => "C/C++"
  }

  /** `SupportedLanguages(s)`: the member whose value is exactly `s`. */
  function FromValue(s: string): (r: Option<Language>)
    ensures r.Some? ==> Value(r.value) == s
    ensures r.None? ==> forall l :: Value(l) != s
  {
    if s == "Python" then Some(PY)
    else if s == "JavaScript/TypeScript" then Some(JS)
    else if s == "Java" then Some(JAVA)
    else if s == "C#" then Some(CS)
    else if s == "GO" then Some(GO)
    else if s == "C/C++" then Some(CPP)
    else None
  }

  /** The values are pairwise distinct, so looking a member up by its value
      gives that member back. */
  lemma {:induction false} ValueLookup(l: Language)
    ensures FromValue(Value(l)) == Some(l)
  {
    match l
    case PY =>
    case JS => assert "JavaScript/TypeScript" != "Python";
    case JAVA => assert "Java" != "Python";
    case CS =>
      assert "C#" != "Python" && "C#" != "Java";
    case GO =>
      assert "GO" != "Python" && "GO" != "Java" && "GO" != "C#";
    case CPP =>
      assert "C/C++" != "Python" && "C/C++" != "Java" && "C/C++" != "C#" && "C/C++" != "GO";
  }

  datatype Heuristics = Heuristics(manifests: set<string>, extensions: set<string>)

  /** `LANGUAGES_HEURISTICS`: the entry of each language. The table has an
      entry for every member, so it is a total function of the member. */
  function LanguageHeuristics(l: Language): (h: Heuristics)
    ensures h.manifests != {} && h.extensions != {}
  {
    match l
    case PY => Heuristics(
      {"requirements.txt", "pyproject.toml", "setup.py", "Pipfile", "tox.ini"},
      {".py", ".pyi"})
    case JS => Heuristics(
      {"package.json", "deno.json", "yarn.lock", "pnpm-lock.yaml", "next.config.js",
       "vite.config.js", "tsconfig.json"},
      {".js", ".jsx", ".ts", ".tsx", ".mjs", ".cjs", ".vue", ".svelte"})
    case JAVA => Heuristics(
      {"pom.xml", "build.gradle", "build.gradle.kts", "settings.gradle", "mvnw", "gradlew"},
      {".java", ".kt", ".scala", ".groovy"})
    case CS => Heuristics(
      {".csproj", ".sln", ".fsproj", ".vbproj", "global.json", "NuGet.config"},
      {".cs", ".fs", ".vb", ".cshtml", ".razor"})
    case GO => Heuristics(
      {"go.mod", "go.sum", "go.work", "main.go"},
      {".go"})
    case CPP => Heuristics(
      {"CMakeLists.txt", "Makefile", "makefile", "configure.ac", "meson.build",
       "conanfile.txt", "vcpkg.json", ".gitmodules"},
      {".c", ".cpp", ".h", ".hpp", ".cc", ".hh", ".cxx", ".hxx", ".m", ".mm"})
  }

  function Manifests(l: Language): set<string> {
    LanguageHeuristics(l).manifests
  }

  function Extensions(l: Language): set<string> {
    LanguageHeuristics(l).extensions
  }

  /** No '.' in `s` from position `i` on. */
  predicate NoDotFrom(s: string, i: nat)
    decreases |s| - i
  {
    i >= |s| || (s[i] != '.' && NoDotFrom(s, i + 1))
  }

  lemma {:induction false} NoDotFromIff(s: string, i: nat)
    ensures NoDotFrom(s, i) <==> forall j :: i <= j < |s| ==> s[j] != '.'
    decreases |s| - i
  {
    if i < |s| { NoDotFromIff(s, i + 1); }
  }

  /** The shape every extension has: a dot, then at least one character,
      no further dot and no upper-case letter. */
  predicate ExtensionShape(e: string) {
    |e| >= 2 && e[0] == '.' && NoDotFrom(e, 1) && IsLower(e)
  }

  lemma ExtensionsHaveShape(l: Language, e: string)
    requires e in Extensions(l)
    ensures ExtensionShape(e)
  {
    match l
    case PY => PyShaped();
    case JS => JsShaped();
    case JAVA => JavaShaped();
    case CS => CsShaped();
    case GO => GoShaped();
    case CPP => CppShaped();
  }

  predicate AllShaped(extensions: set<string>) {
    forall x :: x in extensions ==> ExtensionShape(x)
  }

  lemma PyShaped()
    ensures AllShaped(Extensions(PY))
  {
  }

  lemma JsShaped()
    ensures AllShaped(Extensions(JS))
  {
  }

  lemma JavaShaped()
    ensures AllShaped(Extensions(JAVA))
  {
  }

  lemma CsShaped()
    ensures AllShaped(Extensions(CS))
  {
  }

  lemma GoShaped()
    ensures AllShaped(Extensions(GO))
  {
  }

  lemma CppShaped()
    ensures AllShaped(Extensions(CPP))
  {
  }

  /** An extension of that shape is the lower-cased suffix of the file names
      that end in it, so every extension in the table can be matched. */
  lemma ShapedExtensionIsMatchable(stem: string, e: string)
    requires stem != [] && ExtensionShape(e)
    ensures Lower(Suffix(stem + e)) == e
  {
    var name := stem + e;
    NoDotFromIff(e, 1);
    assert forall j :: |stem| < j < |name| ==> name[j] == e[j - |stem|];
    var i := RFindDot(name);
    assert name[|stem|] == '.';
    assert i == |stem|;
    assert name[i..] == e;
    IsLowerIff(e);
    assert Lower(e) == e;
  }

  lemma ExtensionIsMatchable(l: Language, e: string)
    requires e in Extensions(l)
    ensures Lower(Suffix("x" + e)) == e
  {
    ExtensionsHaveShape(l, e);
    ShapedExtensionIsMatchable("x", e);
  }

  /** The entries that contain upper-case letters and so are never found by
      a lookup of a lower-cased name. */
  function UnmatchableManifests(l: Language): set<string> {
    match l
    case PY => {"Pipfile"}
    case CS => {"NuGet.config"}
    case CPP => {"CMakeLists.txt", "Makefile"}
    case _ => {}
  }

  /** These entries are in the table, yet no file name, whatever its case,
      is found under them; "makefile" is the lower-case entry of the same
      table that a file named "Makefile" is found under. */
  lemma UnmatchableNeverFound(l: Language, name: string)
    ensures UnmatchableManifests(l) <= Manifests(l)
    ensures Lower(name) !in UnmatchableManifests(l)
    ensures l == CPP && Lower(name) == "makefile" ==> Lower(name) in Manifests(l)
  {
    LowerIsLower(name);
    assert "Pipfile"[0] == 'P' && "NuGet.config"[0] == 'N';
    assert "CMakeLists.txt"[0] == 'C' && "Makefile"[0] == 'M';
  }
}
