/**
 * Concrete file names through the scanner's record construction, one per rule that
 * decides a field: the final-suffix rule, lower-casing, the override in the category
 * merge, the binary flag's independence from the category, and the dependency
 * table that the scan does not consult. The directory part and the size are left
 * symbolic, since neither affects these fields. A dotted name is written as its
 * stem and its final dotted part ("app" + ".py" is "app.py"): each example fixes
 * the extension from that split, then reads the tables for it.
 */
module ScannerExamples {
  import opened Wrappers
  import opened PathNames
  import opened ScannerTables
  import opened Scanner

  lemma PyExtension()
    ensures Extension("app" + ".py") == ".py"
  {
    ExtensionOfLowerStem("app", ".py");
  }

  lemma TxtExtension()
    ensures Extension("requirements" + ".txt") == ".txt"
  {
    ExtensionOfLowerStem("requirements", ".txt");
  }

  lemma GzExtension()
    ensures Extension("a.tar" + ".gz") == ".gz"
  {
    ExtensionOfLowerStem("a.tar", ".gz");
  }

  lemma SvgExtension()
    ensures Extension("logo" + ".svg") == ".svg"
  {
    ExtensionOfLowerStem("logo", ".svg");
  }

  lemma PngExtension()
    ensures Extension("icon" + ".png") == ".png"
  {
    ExtensionOfLowerStem("icon", ".png");
  }

  lemma LowerMd()
    ensures Lower(".MD") == ".md"
  {
    var low := Lower(".MD");
    assert low[0] == '.' && low[1] == 'm' && low[2] == 'd';
  }

  lemma MdExtension()
    ensures Extension("README" + ".MD") == ".md"
  {
    ExtensionOfStem("README", ".MD");
    LowerMd();
  }

  /** The table entries the examples below read. */
  lemma TableLookups()
    ensures ".py" in LanguageByExt && LanguageByExt[".py"] == "python"
    ensures ".md" in LanguageByExt && LanguageByExt[".md"] == "markdown"
    ensures ".txt" in ExplicitCategories && ExplicitCategories[".txt"] == "documentation"
    ensures ".gz" in BinaryExtensions && ".png" in BinaryExtensions && ".svg" in BinaryExtensions
    ensures "requirements.txt" in DependencyKindByName
  {
  }

  /** A Python source file: language "python", category "code", not binary. */
  lemma PythonSource(dir: Path, size: nat)
    ensures var r := Classify(dir + ["app" + ".py"], size);
      r.name == "app" + ".py" && r.extension == ".py" &&
      r.language == Some("python") && r.category == "code" && !r.isBinary
  {
    PyExtension();
    TableLookups();
    LanguageKeyFacts(".py");
  }

  /**
   * A dependency manifest is classified by its suffix alone: "requirements.txt" is
   * in the dependency table, yet its record is plain documentation with no
   * language and no dependency kind.
   */
  lemma RequirementsIsDocumentation(dir: Path, size: nat)
    ensures "requirements.txt" in DependencyKindByName
    ensures var r := Classify(dir + ["requirements" + ".txt"], size);
      r.extension == ".txt" && r.language == Some("unknown") &&
      r.category == "documentation" && !r.isBinary && r.dependencyKind == None
  {
    TxtExtension();
    TableLookups();
    ExplicitKeyFacts(".txt");
  }

  /** Names without an inner dot, including dot-files, have no extension. */
  lemma NoSuffixNames(dir: Path, size: nat)
    ensures var r := Classify(dir + ["Dockerfile"], size); r.extension == "" && r.category == "unknown"
    ensures var r := Classify(dir + ["Makefile"], size); r.extension == "" && r.category == "unknown"
    ensures var r := Classify(dir + [".gitignore"], size);
      r.extension == "" && r.language == Some("unknown") && r.category == "unknown" && !r.isBinary
  {
    NoInnerDotIsUnknown(dir + ["Dockerfile"], size);
    NoInnerDotIsUnknown(dir + ["Makefile"], size);
    NoInnerDotIsUnknown(dir + [".gitignore"], size);
  }

  /** A trailing dot leaves no suffix. */
  lemma TrailingDot(dir: Path, size: nat)
    ensures Classify(dir + ["notes."], size).extension == ""
  {
  }

  /** Only the final suffix counts: a gzipped tarball is ".gz", binary and uncategorised. */
  lemma FinalSuffixOnly(dir: Path, size: nat)
    ensures var r := Classify(dir + ["a.tar" + ".gz"], size);
      r.extension == ".gz" && r.isBinary && r.category == "unknown" && r.language == Some("unknown")
  {
    GzExtension();
    TableLookups();
    BinaryKeyFacts(".gz");
  }

  /** The suffix is lower-cased before the lookups. */
  lemma UpperCaseSuffix(dir: Path, size: nat)
    ensures var r := Classify(dir + ["README" + ".MD"], size);
      r.extension == ".md" && r.language == Some("markdown") && r.category == "documentation"
  {
    MdExtension();
    TableLookups();
    LanguageKeyFacts(".md");
  }

  /** An SVG file is both binary and an "asset". */
  lemma SvgIsBinaryAsset(dir: Path, size: nat)
    ensures var r := Classify(dir + ["logo" + ".svg"], size);
      r.extension == ".svg" && r.isBinary && r.category == "asset" && r.language == Some("unknown")
  {
    SvgExtension();
    TableLookups();
    LanguageKeysListed();
    LanguageKeysNotDataOrAsset();
  }

  /** A PNG image is binary, yet in no part of the category merge. */
  lemma PngIsBinaryUnknown(dir: Path, size: nat)
    ensures var r := Classify(dir + ["icon" + ".png"], size);
      r.extension == ".png" && r.isBinary && r.category == "unknown"
  {
    PngExtension();
    TableLookups();
    BinaryKeyFacts(".png");
  }
}
