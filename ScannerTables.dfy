/**
 * The scanner's configuration tables: the pruned directory names, the binary and
 * data extension sets, the language and category maps and the dependency-manifest
 * names. The category map is built the way the scanner builds it, as a merge of
 * dictionaries in which a later key overrides an earlier one (Dafny's map `+`
 * keeps the right operand's value on a shared key, as `{**a, **b}` does).
 */
module ScannerTables {

  /** Directory base names that the walker never descends into. */
  const SkipDirs: set<string> := {
    ".git", "node_modules", ".venv", "venv", "__pycache__", "dist",
    "build", "out", "tmp", ".pytest_cache", ".mypy_cache", ".vscode"
  }

  /** Extensions whose files are reported as binary. */
  const BinaryExtensions: set<string> := {
    ".jpg", ".jpeg", ".png", ".gif", ".bmp", ".tiff", ".ico", ".webp", ".svg",
    ".zip", ".tar", ".gz", ".bz2", ".rar", ".7z", ".pdf", ".exe", ".dll",
    ".so", ".dylib", ".ttf", ".otf", ".woff", ".woff2", ".mp4", ".mov", ".avi"
  }

  /** Extensions of structured-data files. */
  const DataExtensions: set<string> := {
    ".csv", ".jsonl", ".xml", ".tsv", ".parquet", ".sqlite", ".db", ".ndjson"
  }

  /** Programming language by extension. */
  const LanguageByExt: map<string, string> := map[
    ".c" := "c", ".cpp" := "cpp", ".cs" := "csharp", ".css" := "css",
    ".go" := "go", ".h" := "c-header", ".hpp" := "cpp-header", ".html" := "html",
    ".java" := "java", ".js" := "javascript", ".jsx" := "javascript",
    ".kt" := "kotlin", ".m" := "objective-c", ".md" := "markdown",
    ".mm" := "objective-c++", ".php" := "php", ".py" := "python", ".rb" := "ruby",
    ".rs" := "rust", ".sass" := "sass", ".scala" := "scala", ".scss" := "scss",
    ".sql" := "sql", ".swift" := "swift", ".ts" := "typescript",
    ".tsx" := "typescript", ".vb" := "vb"
  ]

  /** The keys of LanguageByExt, listed (LanguageKeysListed proves every key is here). */
  const LanguageExtensions: set<string> := {
    ".c", ".cpp", ".cs", ".css", ".go", ".h", ".hpp", ".html", ".java", ".js", ".jsx",
    ".kt", ".m", ".md", ".mm", ".php", ".py", ".rb", ".rs", ".sass", ".scala", ".scss",
    ".sql", ".swift", ".ts", ".tsx", ".vb"
  }

  /** The entries written out between the two splatted tables of the category merge. */
  const ExplicitCategories: map<string, string> := map[
    ".yml" := "config", ".yaml" := "config", ".json" := "config",
    ".toml" := "config", ".ini" := "config", ".cfg" := "config", ".conf" := "config",
    ".md" := "documentation", ".rst" := "documentation", ".txt" := "documentation",
    ".adoc" := "documentation",
    ".sh" := "script", ".ps1" := "script", ".bat" := "script", ".cmd" := "script",
    ".tf" := "infrastructure", ".dockerfile" := "infrastructure"
  ]

  /** The keys of ExplicitCategories, listed (ExplicitKeysListed proves every key is here). */
  const ExplicitExtensions: set<string> := {
    ".yml", ".yaml", ".json", ".toml", ".ini", ".cfg", ".conf", ".md", ".rst", ".txt",
    ".adoc", ".sh", ".ps1", ".bat", ".cmd", ".tf", ".dockerfile"
  }

  /** `dict.fromkeys(keys, value)`. */
  function FromKeys(keys: set<string>, value: string): map<string, string>
  {
    map e | e in keys :: value
  }

  /**
   * A dict display `{**p0, **p1, ...}`: the parts applied in order, so that on a
   * shared key the later part's value wins.
   */
  function Merge(parts: seq<map<string, string>>): map<string, string>
  {
    if parts == [] then map[] else Merge(parts[..|parts| - 1]) + parts[|parts| - 1]
  }

  /**
   * Category by extension: the language extensions as "code", then the explicit
   * entries, then the data extensions as "data", then ".svg" as "asset".
   */
  const CategoryByExt: map<string, string> := Merge([
    FromKeys(LanguageByExt.Keys, "code"),
    ExplicitCategories,
    FromKeys(DataExtensions, "data"),
    map[".svg" := "asset"]
  ])

  /** Dependency-manifest kind by exact file name. */
  const DependencyKindByName: map<string, string> := map[
    "requirements.txt" := "python-requirements", "pyproject.toml" := "python-pyproject",
    "Pipfile" := "python-pipenv", "Pipfile.lock" := "python-pipenv-lock",
    "poetry.lock" := "python-poetry-lock", "package.json" := "node-package",
    "package-lock.json" := "node-lock", "pnpm-lock.yaml" := "node-pnpm-lock",
    "yarn.lock" := "node-yarn-lock", "go.mod" := "go-mod", "go.sum" := "go-sum",
    "pom.xml" := "maven-pom", "Gemfile" := "ruby-gemfile", "Gemfile.lock" := "ruby-gem-lock",
    "Cargo.toml" := "rust-cargo", "Cargo.lock" := "rust-cargo-lock"
  ]

  /** The categories the merged table can produce. */
  const Categories: set<string> :=
    {"code", "config", "documentation", "script", "infrastructure", "data", "asset"}

  /** `dict.get(key, default)`. */
  function Get(m: map<string, string>, key: string, default: string): string
  {
    if key in m then m[key] else default
  }

  /** `is_binary_ext`: membership of the binary set. */
  predicate IsBinaryExt(ext: string): (r: bool)
    ensures r ==> |ext| >= 2 && ext[0] == '.'
  {
    ext in BinaryExtensions
  }

  /** `is_data_ext`: membership of the data set. */
  predicate IsDataExt(ext: string): (r: bool)
    ensures r ==> |ext| >= 2 && ext[0] == '.'
  {
    ext in DataExtensions
  }

  /**
   * The category merge resolved in two explicit stages, as an independent reference:
   * the overriding parts are consulted last-first, and the "code" default only when
   * none of them has the extension.
   */
  function ResolveCategory(ext: string): string
  {
    if ext == ".svg" then "asset"
    else if IsDataExt(ext) then "data"
    else if ext in ExplicitCategories then ExplicitCategories[ext]
    else if ext in LanguageByExt then "code"
    else "unknown"
  }

  /** Merging one more part: its keys take its values, all other lookups are unchanged. */
  lemma MergeLast(parts: seq<map<string, string>>, m: map<string, string>, key: string)
    ensures Get(Merge(parts + [m]), key, "unknown") == if key in m then m[key] else Get(Merge(parts), key, "unknown")
  {
    assert (parts + [m])[..|parts|] == parts;
  }

  /** Looking an extension up in the merged table is the two-stage resolution. */
  lemma {:induction false} CategoryTableIsTwoStage(ext: string)
    ensures Get(CategoryByExt, ext, "unknown") == ResolveCategory(ext)
  {
    var code, data, asset := FromKeys(LanguageByExt.Keys, "code"), FromKeys(DataExtensions, "data"), map[".svg" := "asset"];
    assert [code, ExplicitCategories, data, asset] == [code, ExplicitCategories, data] + [asset];
    assert [code, ExplicitCategories, data] == [code, ExplicitCategories] + [data];
    assert [code, ExplicitCategories] == [code] + [ExplicitCategories];
    assert [code] == [] + [code];
    MergeLast([code, ExplicitCategories, data], asset, ext);
    MergeLast([code, ExplicitCategories], data, ext);
    MergeLast([code], ExplicitCategories, ext);
    MergeLast([], code, ext);
  }

  /** The listed language extensions are exactly the keys of the language table. */
  lemma LanguageKeysListed()
    ensures forall e :: e in LanguageByExt ==> e in LanguageExtensions
    ensures forall e :: e in LanguageExtensions ==> e in LanguageByExt
  {
  }

  /** The listed explicit extensions are exactly the keys of the explicit entries. */
  lemma ExplicitKeysListed()
    ensures forall e :: e in ExplicitCategories ==> e in ExplicitExtensions
    ensures forall e :: e in ExplicitExtensions ==> e in ExplicitCategories
  {
  }

  /** Of the explicit entries, only ".md" is also a language extension. */
  lemma LanguageKeysNotExplicit()
    ensures forall e :: e in LanguageExtensions && e != ".md" ==> e !in ExplicitExtensions
  {
  }

  /** No language extension is a data extension or ".svg". */
  lemma LanguageKeysNotDataOrAsset()
    ensures forall e :: e in LanguageExtensions ==> !IsDataExt(e) && e != ".svg"
  {
  }

  /** The merge's outcome for language extensions: "code", except ".md", overridden to "documentation". */
  lemma LanguageExtensionsAreCode()
    ensures forall e :: e in LanguageByExt && e != ".md" ==> Get(CategoryByExt, e, "unknown") == "code"
    ensures Get(CategoryByExt, ".md", "unknown") == "documentation"
  {
    LanguageKeysListed();
    ExplicitKeysListed();
    LanguageKeysNotExplicit();
    LanguageKeysNotDataOrAsset();
    forall e | e in LanguageByExt && e != ".md"
      ensures Get(CategoryByExt, e, "unknown") == "code"
    {
      CategoryTableIsTwoStage(e);
    }
    CategoryTableIsTwoStage(".md");
  }

  /** Every data extension is categorised "data", and ".svg" is an "asset". */
  lemma DataAndAssetCategories()
    ensures forall e :: IsDataExt(e) ==> Get(CategoryByExt, e, "unknown") == "data"
    ensures Get(CategoryByExt, ".svg", "unknown") == "asset"
  {
    forall e | IsDataExt(e)
      ensures Get(CategoryByExt, e, "unknown") == "data"
    {
      CategoryTableIsTwoStage(e);
    }
    CategoryTableIsTwoStage(".svg");
  }

  /**
   * A lookup gives one of the seven categories, or "unknown" exactly when no part
   * of the merge holds the extension.
   */
  lemma CategoryLookupRange(ext: string)
    ensures Get(CategoryByExt, ext, "unknown") in Categories + {"unknown"}
    ensures Get(CategoryByExt, ext, "unknown") == "unknown" <==>
      ext !in LanguageByExt && ext !in ExplicitCategories && !IsDataExt(ext) && ext != ".svg"
  {
    CategoryTableIsTwoStage(ext);
  }

  /** A language lookup gives "unknown" exactly when the extension is not in the language table. */
  lemma LanguageLookupRange(ext: string)
    ensures Get(LanguageByExt, ext, "unknown") == "unknown" <==> ext !in LanguageByExt
  {
  }

  /** No binary extension is a language extension (".svg" is settled on its own). */
  lemma BinaryKeysNotLanguage()
    ensures forall e :: e in BinaryExtensions && e != ".svg" ==> e !in LanguageExtensions
  {
  }

  /** No binary extension is one of the explicit entries. */
  lemma BinaryKeysNotExplicit()
    ensures forall e :: e in BinaryExtensions ==> e !in ExplicitExtensions
  {
  }

  /** No binary extension is a data extension. */
  lemma BinaryKeysNotData()
    ensures forall e :: e in BinaryExtensions ==> !IsDataExt(e)
  {
  }

  /**
   * Binary-ness does not follow the category: every binary extension except ".svg"
   * (an "asset") is in no part of the merge, so its category is "unknown".
   */
  lemma BinaryExtensionsUncategorised()
    ensures forall e :: IsBinaryExt(e) && e != ".svg" ==> Get(CategoryByExt, e, "unknown") == "unknown"
    ensures IsBinaryExt(".svg") && Get(CategoryByExt, ".svg", "unknown") == "asset"
  {
    LanguageKeysListed();
    ExplicitKeysListed();
    BinaryKeysNotLanguage();
    BinaryKeysNotExplicit();
    BinaryKeysNotData();
    forall e | IsBinaryExt(e) && e != ".svg"
      ensures Get(CategoryByExt, e, "unknown") == "unknown"
    {
      CategoryTableIsTwoStage(e);
    }
    CategoryTableIsTwoStage(".svg");
  }

  /**
   * What the scanner reads off for one language extension: its category is "code"
   * ("documentation" for ".md"), and it is not binary.
   */
  lemma LanguageKeyFacts(e: string)
    requires e in LanguageByExt
    ensures e != ".md" ==> ResolveCategory(e) == "code"
    ensures e == ".md" ==> ResolveCategory(e) == "documentation"
    ensures !IsBinaryExt(e)
  {
    LanguageKeysListed();
    ExplicitKeysListed();
    LanguageKeysNotExplicit();
    LanguageKeysNotDataOrAsset();
    BinaryKeysNotLanguage();
  }

  /** No explicit entry is a data extension or ".svg". */
  lemma ExplicitKeysNotDataOrAsset()
    ensures forall e :: e in ExplicitExtensions ==> !IsDataExt(e) && e != ".svg"
  {
  }

  /**
   * What the scanner reads off for one explicitly categorised extension: the explicit
   * entry is its category, it has no language unless it is ".md", and it is not binary.
   */
  lemma ExplicitKeyFacts(e: string)
    requires e in ExplicitCategories
    ensures ResolveCategory(e) == ExplicitCategories[e]
    ensures e != ".md" ==> e !in LanguageByExt
    ensures !IsBinaryExt(e)
  {
    LanguageKeysListed();
    ExplicitKeysListed();
    LanguageKeysNotExplicit();
    ExplicitKeysNotDataOrAsset();
    BinaryKeysNotExplicit();
  }

  /**
   * What the scanner reads off for one binary extension other than ".svg": no
   * language and the category "unknown".
   */
  lemma BinaryKeyFacts(e: string)
    requires IsBinaryExt(e) && e != ".svg"
    ensures e !in LanguageByExt
    ensures ResolveCategory(e) == "unknown"
  {
    LanguageKeysListed();
    ExplicitKeysListed();
    BinaryKeysNotLanguage();
    BinaryKeysNotExplicit();
    BinaryKeysNotData();
  }

  /** Every table key is at least two characters long. */
  lemma KeysAreLong()
    ensures forall e :: e in LanguageExtensions ==> |e| >= 2
    ensures forall e :: e in ExplicitExtensions ==> |e| >= 2
    ensures forall e :: IsDataExt(e) ==> |e| >= 2
    ensures forall e :: IsBinaryExt(e) ==> |e| >= 2
  {
  }

  /**
   * A file without a suffix has the empty extension, which no table holds: its
   * language and category are both "unknown", and it is not binary.
   */
  lemma EmptyExtensionUnknown()
    ensures "" !in LanguageByExt
    ensures ResolveCategory("") == "unknown"
    ensures !IsBinaryExt("")
  {
    LanguageKeysListed();
    ExplicitKeysListed();
    KeysAreLong();
  }
}
