/**
 * `scan_repo`: one `FileRecord` per walked path, in walk order. The extension is
 * the lower-cased pathlib suffix of the file name, the language and category are
 * table lookups on it with "unknown" for a missing key, the binary flag is
 * membership of the binary set, and the size comes from a lookup that may fail;
 * a failure ends the scan with no records at all.
 */
module Scanner {
  import opened Wrappers
  import opened PathNames
  import opened ScannerTables
  import opened AppModels
  import opened Walker
  import opened ScanLoop

  /** `path.suffix.lower()` for a file name. */
  function Extension(name: string): (r: string)
    ensures r == "" <==> name == "" || name[|name| - 1] == '.' || '.' !in name[1..]
    ensures r != "" ==> 2 <= |r| < |name| && r[0] == '.'
    ensures forall i :: 0 <= i < |r| ==> !('A' <= r[i] <= 'Z')
  {
    Lower(Suffix(name))
  }

  /**
   * The record the loop body builds for one walked path of size `size`: the
   * relative path '/'-joined with the file name at its end, the table lookups on
   * the extension, and nothing set for dependency kind or technologies.
   */
  function Classify(path: Path, size: nat): (r: FileRecord)
    requires |path| >= 1
    ensures r.name == path[|path| - 1] && r.extension == Extension(r.name)
    ensures r.language.Some?
    ensures r.extension in LanguageByExt ==> r.language.value == LanguageByExt[r.extension]
    ensures r.extension !in LanguageByExt ==> r.language.value == "unknown"
    ensures r.category == ResolveCategory(r.extension)
    ensures r.isBinary <==> r.extension in BinaryExtensions
    ensures r.sizeBytes == size
    ensures r.dependencyKind == None && r.technologies == []
  {
    var name := path[|path| - 1];
    var extension := Extension(name);
    CategoryTableIsTwoStage(extension);
    FileRecord(
      relativeDir := Join(path),
      name := name,
      extension := extension,
      category := Get(CategoryByExt, extension, "unknown"),
      language := Some(Get(LanguageByExt, extension, "unknown")),
      isBinary := IsBinaryExt(extension),
      sizeBytes := size)
  }

  /**
   * A name made of a non-empty stem and a final dotted part gets that part,
   * lower-cased, as its extension.
   */
  lemma ExtensionOfStem(stem: string, ext: string)
    requires stem != "" && |ext| >= 2 && ext[0] == '.'
    requires forall j :: 1 <= j < |ext| ==> ext[j] != '.'
    ensures Extension(stem + ext) == Lower(ext)
  {
    SuffixOfStem(stem, ext);
  }

  /** ... and when that part has no upper-case letter, it is the extension unchanged. */
  lemma ExtensionOfLowerStem(stem: string, ext: string)
    requires stem != "" && |ext| >= 2 && ext[0] == '.'
    requires forall j :: 1 <= j < |ext| ==> ext[j] != '.' && !('A' <= ext[j] <= 'Z')
    ensures Extension(stem + ext) == ext
  {
    SuffixOfStem(stem, ext);
    LowerUnchanged(ext);
  }

  /**
   * A file whose name has no dot after its first character (a dot-file, or a name
   * with no dot at all) has the empty extension, which every lookup misses.
   */
  lemma NoInnerDotIsUnknown(path: Path, size: nat)
    requires |path| >= 1
    requires NoInnerDot(path[|path| - 1])
    ensures var r := Classify(path, size);
      r.extension == "" && r.language == Some("unknown") && r.category == "unknown" && !r.isBinary
  {
    NoSuffixWithoutInnerDot(path[|path| - 1]);
    EmptyExtensionUnknown();
  }

  /**
   * The relative path of a record gives back the walked path when split at '/',
   * and ends with the file name.
   */
  lemma ClassifyRelativeDir(path: Path, size: nat)
    requires |path| >= 1 && NoSeparator(path)
    ensures var r := Classify(path, size);
      Split(r.relativeDir) == path &&
      (|path| == 1 ==> r.relativeDir == r.name) &&
      (|path| > 1 ==> r.relativeDir == Join(path[..|path| - 1]) + "/" + r.name)
  {
    SplitJoin(path);
    JoinEndsWithName(path);
  }

  /**
   * `scan_repo`: walk the tree from its root, then scan the walked paths in walk
   * order with the record construction `Classify`.
   */
  method ScanRepo(root: Dir, sizes: map<Path, nat>) returns (result: Result<seq<FileRecord>, ScanError>)
    ensures result.Ok? <==> AllSized(Walk(root, []), sizes)
    ensures result.Ok? ==> result.value == RecordsOf(Walk(root, []), sizes, Classify)
    ensures result.Err? ==>
      var walked := Walk(root, []);
      exists k :: 0 <= k < |walked| && result.error == StatFailed(walked[k]) &&
        walked[k] !in sizes && AllSized(walked[..k], sizes)
  {
    var paths := WalkTheRepo(root);
    result := ScanPaths(paths, sizes, Classify);
  }

  /**
   * In a well-formed tree the records of a complete scan have pairwise distinct
   * relative paths.
   */
  lemma DistinctRelativePaths(root: Dir, sizes: map<Path, nat>)
    requires WellFormed(root)
    requires AllSized(Walk(root, []), sizes)
    ensures var walked := Walk(root, []);
      forall i, j :: 0 <= i < j < |walked| ==>
        Classify(walked[i], sizes[walked[i]]).relativeDir != Classify(walked[j], sizes[walked[j]]).relativeDir
  {
    var walked := Walk(root, []);
    WalkDistinct(root, []);
    forall i, j | 0 <= i < j < |walked|
      ensures Classify(walked[i], sizes[walked[i]]).relativeDir != Classify(walked[j], sizes[walked[j]]).relativeDir
    {
      WalkTheRepoExactly(root, walked[i]);
      WalkTheRepoExactly(root, walked[j]);
      ListedNoSeparator(root, walked[i]);
      ListedNoSeparator(root, walked[j]);
      if Join(walked[i]) == Join(walked[j]) {
        JoinInjective(walked[i], walked[j]);
      }
    }
  }
}
