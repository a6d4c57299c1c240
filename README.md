# gcrs scanner core, modelled in Dafny

This project models the file-classification core of the Green Cloud Repository
Scanner (gcrs) and proves properties of that model. The core has five parts:

- **The configuration tables of `app/core/scanner.py`.** These are the skipped
  directory names, the binary and data extension sets, the language table, the
  dependency-manifest table, and the category table. The category table is built
  as a dictionary merge in which a later key overrides an earlier one.
- **`walk_the_repo`.** A top-down walk that removes skipped subdirectories from
  the listing before descending, then yields each directory's own files before
  those of its subdirectories.
- **The loop of `scan_repo`.** It builds one `FileRecord` per walked file:
  - the '/'-joined relative path;
  - the file name;
  - the lower-cased pathlib suffix;
  - the language and category looked up on that suffix;
  - the binary flag;
  - the size. A failed size read ends the scan.
- **The record and summary shapes of `app/models.py` and `gcrs/models.py`.**
  Required fields, optional fields and defaults.
- **`generate_default_output_file` of `gcrs/api/main.py`.** The repository name
  filtered to safe characters, the `"repo"` fallback, and the
  `name_YYYYmmdd_HHMMSS.ext` format.

The files, one module each:

- `Wrappers.dfy`: `Option` and `Result`.
- `PathNames.dfy`:
  - pathlib's final-suffix rule;
  - ASCII lower-casing;
  - the '/'-joined form of a relative path and its inverse.
- `ScannerTables.dfy`:
  - the tables, with the same entries as app/core/scanner.py;
  - the category merge, written as a fold of map unions;
  - an independent two-stage reference for the merge;
  - the properties of the merged table.
- `Walker.dfy`: the walk over an in-memory directory tree.
  - `Walk` is the specification function.
  - `WalkDir`, `PruneSubdirs` and `YieldFiles` are the imperative walk, proved equal to it.
  - `Listed` is an independent description of what the walk reaches.
- `ScanLoop.dfy`: the scan loop, as a method over the walked paths, with the record construction as a parameter.
- `Scanner.dfy`:
  - the record construction (`Classify`);
  - `ScanRepo`, which joins the walk to the loop;
  - the uniqueness of relative paths.
- `ScannerExamples.dfy`: concrete file names through the record construction.
- `AppModels.dfy`, `GcrsModels.dfy`: the record and summary datatypes.
  - Pydantic defaults become `nameonly` constructor formals with the same defaults.
  - `str | None` becomes `Option<string>`.
- `OutputName.dfy`: the default output file name.

Where the comments or documentation of the repository and its code disagree, the
model follows the code:

- **`relative_dir`** is the file's own path relative to the root, including the
  file name (app/core/scanner.py:291). It is not the containing directory that
  the comment at app/models.py:9 suggests, and root-level files get their bare
  name, not a `"."` prefix.
- **`extension`** is the empty string for a file without a suffix. The field is a
  plain `str` in app/models.py:11, and `Path.suffix` is `""`, so the value is
  never absent.

Pathlib's rule for a name ending in a dot has changed between Python versions.
This model takes the rule under which a trailing-dot name such as `notes.` has
no suffix.

## Model

| member | source | states |
|---|---|---|
| ScannerTables.CategoryTableIsTwoStage | app/core/scanner.py:93-121 | The merged category table, looked up with default "unknown", agrees with an independent two-stage resolution on every extension: ".svg" is "asset", else a data extension is "data", else an explicit entry wins, else a language extension is "code", else "unknown" — later parts of the merge override earlier ones |
| ScannerTables.LanguageExtensionsAreCode | app/core/scanner.py:93-121 | Every language-table key maps to "code", except ".md", which the later explicit entry overrides to "documentation" |
| ScannerTables.DataAndAssetCategories | app/core/scanner.py:117-120 | Every data extension maps to "data", and ".svg" maps to "asset" |
| ScannerTables.CategoryLookupRange | app/core/scanner.py:93-121 | A category lookup gives one of the seven categories or "unknown", and "unknown" exactly when the extension is in no part of the merge |
| ScannerTables.LanguageLookupRange | app/core/scanner.py:294 | A language lookup gives "unknown" exactly when the extension is not a key of the language table |
| ScannerTables.BinaryExtensionsUncategorised | app/core/scanner.py:29-57 | Binary-ness is independent of the category: every binary extension except ".svg" has category "unknown", while ".svg" is binary and "asset" |
| ScannerTables.LanguageKeyFacts | app/core/scanner.py:62-121 | A language extension has category "code" (".md": "documentation") and is not binary |
| ScannerTables.ExplicitKeyFacts | app/core/scanner.py:96-115 | An explicitly categorised extension gets its explicit category, has no language unless it is ".md", and is not binary |
| ScannerTables.BinaryKeyFacts | app/core/scanner.py:148-157 | A binary extension other than ".svg" has no language and category "unknown" |
| ScannerTables.EmptyExtensionUnknown | app/core/scanner.py:293-296 | The empty extension is in no table: language and category "unknown", not binary |
| ScannerTables.IsBinaryExt | app/core/scanner.py:148-157 | `is_binary_ext` is membership of the binary set; a binary extension is a dot followed by at least one character (BinaryExtensionsUncategorised and BinaryKeyFacts relate it to the categories) |
| ScannerTables.IsDataExt | app/core/scanner.py:160-169 | `is_data_ext` is membership of the data set; a data extension is a dot followed by at least one character (DataAndAssetCategories relates it to the category "data") |
| ScannerTables.LanguageKeysListed | app/core/scanner.py:62-95 | The display `LanguageExtensions`, which the merge lemmas use in place of the language table's key set, lists exactly the keys of the language table |
| ScannerTables.BinaryKeysNotData | app/core/scanner.py:160-169 | The binary and data extension sets are disjoint, so `is_data_ext` holds for no binary extension |
| PathNames.Suffix | app/core/scanner.py:293 | The suffix is non-empty exactly when the name has a dot after its first character and does not end in a dot; it is then a proper final part of the name that starts with '.' and holds no other dot |
| PathNames.SuffixOfStem | app/core/scanner.py:293 | A non-empty stem followed by "." and a dot-free tail has exactly that tail's extension as suffix, whatever dots the stem holds |
| PathNames.NoSuffixWithoutInnerDot | app/core/scanner.py:293 | A name with no dot after its first character (a dot-file, "Makefile") has no suffix |
| Scanner.ExtensionOfStem | app/core/scanner.py:293 | A non-empty stem followed by a final dotted part gets that part, lower-cased, as extension |
| Scanner.ExtensionOfLowerStem | app/core/scanner.py:293 | A non-empty stem followed by a final dotted part with no upper-case letter gets that part, unchanged, as extension |
| PathNames.Lower | app/core/scanner.py:293 | Lower-casing keeps the length, leaves no upper-case letter, keeps every other character and maps each upper-case letter to its lower-case form |
| PathNames.LowerIdempotent | app/core/scanner.py:293 | Lower-casing twice is lower-casing once |
| PathNames.SplitJoin | app/core/scanner.py:291 | Splitting the '/'-joined relative path at '/' gives back its components, when no component holds '/' |
| PathNames.Join | app/core/scanner.py:291 | The '/'-joined relative path starts with the first component, followed by '/' when more components follow (Split inverts it, see SplitJoin) |
| PathNames.JoinInjective | app/core/scanner.py:291 | Distinct paths have distinct '/'-joined forms, when no component holds '/' |
| PathNames.JoinEndsWithName | app/core/scanner.py:291-292 | The joined form is the file name alone at the root, and otherwise the joined directory part, '/', and the file name |
| Walker.Kept | app/core/scanner.py:246-248 | A subdirectory survives the pruning exactly when it was listed and its base name is not a skipped name |
| Walker.Walk | app/core/scanner.py:245-250 | Every path the walk of a directory yields lies strictly below the directory's own path |
| Walker.PruneSubdirs | app/core/scanner.py:246-248 | The loop that rebuilds the listing returns exactly the kept subdirectories, in listing order |
| Walker.YieldFiles | app/core/scanner.py:249-250 | The directory's files are yielded in listing order, each joined to the directory's path |
| Walker.WalkDir | app/core/scanner.py:245-250 | The recursive walk yields exactly the specified sequence: own files first, then the walk of each kept subdirectory in listing order |
| Walker.WalkTheRepo | app/core/scanner.py:235-252 | From the root, the walk yields the specified sequence, and a path is yielded exactly when it is listed: a file of the root, or a file reached through non-skipped subdirectory names |
| Walker.WalkTheRepoExactly | app/core/scanner.py:245-250 | A path is in the walk from the root if and only if it is listed, with no filtering on file names |
| Walker.RootNameIrrelevant | app/core/scanner.py:245-248 | The root's own name is never tested against the skipped names: renaming the root changes neither the walk nor the listed paths, so a root named ".git" is walked |
| Walker.ListedAvoidsSkipDirs | app/core/scanner.py:245-248 | No yielded path passes through a directory whose base name is skipped; the root's own name is never tested |
| Walker.WalkDistinct | app/core/scanner.py:245-250 | In a tree with distinct names per directory, no path is yielded twice |
| Walker.FilesFirst | app/core/scanner.py:249-250 | A directory's own files come first, in listing order, before any path from a subdirectory |
| ScanLoop.RecordsOf | app/core/scanner.py:285-307 | One record per walked path |
| ScanLoop.RecordsOfAt | app/core/scanner.py:285-307 | The i-th record is the classification of the i-th walked path with its size, so records keep walk order |
| ScanLoop.ScanPaths | app/core/scanner.py:285-307 | The loop succeeds exactly when every path has a size, and then returns one record per path in order; otherwise it fails at the first path without a size, after every earlier path had one, and returns no records |
| Scanner.Extension | app/core/scanner.py:293 | The extension is empty exactly when the name has no suffix; otherwise it starts with '.', is shorter than the name, and has no upper-case letter |
| Scanner.Classify | app/core/scanner.py:290-306 | The record's name is the path's last component and its extension is that name's lower-cased suffix. Its language is the table value or "unknown", and its category is the merged table's value, which is the two-stage resolution. It is binary exactly when the extension is a binary extension. Its size is the size read, and it has no dependency kind and no technologies |
| Scanner.NoInnerDotIsUnknown | app/core/scanner.py:293-296 | A file whose name has no dot after its first character gets the empty extension, language and category "unknown", and is not binary |
| Scanner.ClassifyRelativeDir | app/core/scanner.py:291-292 | The relative path splits back into the walked path and ends with the file name, including the name rather than naming the parent directory |
| Scanner.ScanRepo | app/core/scanner.py:272-310 | The scan succeeds exactly when every walked file has a size, and then returns one record per walked file in walk order. Otherwise it fails at the first walked file without a size and returns no records |
| Scanner.DistinctRelativePaths | app/core/scanner.py:285-307 | In a tree with distinct names per directory and no '/' in names, the records of a complete scan have pairwise distinct relative paths |
| ScannerExamples.PythonSource | app/core/scanner.py:293-296 | "app.py" has extension ".py", language "python", category "code", and is not binary |
| ScannerExamples.RequirementsIsDocumentation | app/core/scanner.py:298-306 | "requirements.txt" is in the dependency table, yet its record has category "documentation", language "unknown" and no dependency kind |
| ScannerExamples.NoSuffixNames | app/core/scanner.py:293-295 | "Dockerfile", "Makefile" and ".gitignore" have no extension and category "unknown" |
| ScannerExamples.TrailingDot | app/core/scanner.py:293 | "notes." has no extension |
| ScannerExamples.FinalSuffixOnly | app/core/scanner.py:293-296 | "a.tar.gz" has extension ".gz", is binary, and has category and language "unknown" |
| ScannerExamples.UpperCaseSuffix | app/core/scanner.py:293-295 | "README.MD" has extension ".md", language "markdown" and category "documentation" |
| ScannerExamples.SvgIsBinaryAsset | app/core/scanner.py:296 | "logo.svg" is binary and "asset", with language "unknown" |
| ScannerExamples.PngIsBinaryUnknown | app/core/scanner.py:296 | "icon.png" is binary, with category "unknown" |
| AppModels.NewFileRecord | app/models.py:6-17 | A record made from the six required fields stores them as given, and its language and dependency kind are None and its technologies empty |
| GcrsModels.NewFileRecord | gcrs/models.py:6-18 | A record made from the four required fields stores them, and its extension, category, language, data type and dependency kind are None and its technologies empty |
| GcrsModels.NewSummaryResponse | gcrs/models.py:28-58 | A response made from status and repository root alone has no summary, no file counts and no error |
| GcrsModels.NewRepositorySummary | gcrs/models.py:60-73 | A summary made from its six required histograms stores them, and all five counters are zero |
| OutputName.Filter | gcrs/api/main.py:64 | The filtered name is no longer than the name, holds only allowed characters, and holds only characters of the name |
| OutputName.FilterAppend | gcrs/api/main.py:64 | Filtering works character by character in order: filtering a concatenation concatenates the filtered parts |
| OutputName.FilterFixedPoint | gcrs/api/main.py:64 | The filter leaves a name unchanged exactly when all its characters are allowed |
| OutputName.FilterIdempotent | gcrs/api/main.py:64 | Filtering twice is filtering once |
| OutputName.FilterCounts | gcrs/api/main.py:64 | Every allowed character occurs in the filtered name as often as in the name, and no disallowed one occurs |
| OutputName.NoAllowedFiltersToEmpty | gcrs/api/main.py:64 | A name with no allowed character filters to the empty string |
| OutputName.RepoName | gcrs/api/main.py:62 | The repository name is never empty: the path's name when it has one, otherwise "repo" |
| OutputName.SanitizeName | gcrs/api/main.py:64 | The sanitised name is non-empty and holds only allowed characters; it is the filtered name whenever that is non-empty, and "repo" exactly when the filter leaves nothing |
| OutputName.SanitizeDropsDisallowed | gcrs/api/main.py:64 | A name mixing safe parts with a disallowed character keeps the safe parts, joined, rather than falling back to "repo" |
| OutputName.SanitizeMixedName | gcrs/api/main.py:64 | "my repo" is sanitised to "myrepo" |
| OutputName.SanitizeKeepsSafeName | gcrs/api/main.py:64 | A non-empty name made of allowed characters is kept as it is |
| OutputName.SanitizeIdempotent | gcrs/api/main.py:64 | Sanitising a sanitised name changes nothing |
| OutputName.SanitizeFallback | gcrs/api/main.py:62-64 | When the path's name is empty or has no allowed character, the sanitised name is "repo" |
| OutputName.Digits | gcrs/api/main.py:65 | A zero-padded field has exactly the given width and only decimal digits |
| OutputName.DigitsRoundTrip | gcrs/api/main.py:65 | A zero-padded field reads back as the number |
| OutputName.FormatTimestamp | gcrs/api/main.py:65 | The timestamp is 15 characters: eight digits, '_', six digits |
| OutputName.TimestampRoundTrip | gcrs/api/main.py:65 | The formatted timestamp reads back as the same date and time, so it determines every field |
| OutputName.DefaultOutputFile | gcrs/api/main.py:50-66 | The file name is exactly the sanitised repository name, '_', the timestamp, '.', and the extension: reading from the end gives back the extension as given, a dot, a timestamp that parses to the given time, an underscore, and the sanitised name |
| OutputName.OutputFileIsSafe | gcrs/api/main.py:64-66 | With an extension of allowed characters, the whole file name holds only allowed characters |
| OutputName.OutputFileSuffix | gcrs/api/main.py:66 | The file name ends with '.' and the extension exactly as given, with no validation |
| OutputName.DefaultExtensionIsSarif | gcrs/api/main.py:50 | Without an extension argument the file name ends in ".sarif" |
| OutputName.SummaryExtension | gcrs/api/main.py:124 | The summary endpoint's extension "summary.txt" gives a name ending in ".summary.txt" |

## Left out

- **Filesystem I/O.**
  - `os.walk` runs over an in-memory tree whose listing order is given.
  - `Path.stat` is a map from path to size; a path missing from the map is a failed read.
  - `Path.resolve` is replaced by the resolved directory's name, passed in.
  - `mkdir` and `touch` are not modelled.
- **What `os.walk` does by default.** It does not follow symlinked directories and silently skips unreadable ones. Neither is modelled.
- **Laziness.** `walk_the_repo` is a generator, so the walk and the scan loop interleave; the model walks first and then loops. Only the order and the contents of the records are stated, and that order is the same.
- **Walker.WalkDistinct:** proved only for trees with distinct names per directory, as a real directory has. The model's tree type allows duplicates that a file system cannot hold.
- **Unicode.** `str.lower` and `str.isalnum` are restricted to ASCII letters and digits. Unicode case mapping and Unicode letters and digits are not modelled.
- **The clock.** `datetime.now()` at gcrs/api/main.py:65 becomes a `Timestamp` parameter.
  - Years before 1000 are left out: `%Y` zero-pads them only on some platforms.
  - A valid day is 1..31 in every month; month lengths and leap years are not modelled.
- **OutputName.DefaultOutputFile:** requires a valid `Timestamp`; the clock always gives one.
- **Logging.** The `logger.debug` calls and the logging modules hold no decision logic.
- **Endpoints.** The FastAPI endpoints, `validate_path` and the request parameter models are I/O and response assembly. app/api/main.py imports a function the scanner does not define, so it cannot be loaded, and is not part of this model.
- **Summaries.** `summarize_repo_contents` only scans and returns a constant string, so nothing of it is modelled beyond the scan itself. The gcrs scanner that builds summaries is not part of this model, so no histogram invariant is stated.
- **Unused code.**
  - `CI_FILENAMES` and `CI_DIR_HINTS` are never used.
  - The commented-out shebang detection and the old scan are not live code.
  - `DEPENDENCY_KIND_BY_NAME` and `is_data_ext` are modelled as tables, but the scan never consults them.
- **Pydantic validation and JSON serialisation.** The datatypes fix the fields and defaults; runtime type coercion is not modelled.
- **ScanLoop.ScanPaths:** stated for any total record construction. `Scanner.ScanRepo` instantiates it with `Classify`.
- **ScanLoop.ScanPaths:** requires non-empty paths. Every path the walk yields is non-empty, since it holds at least the file name.
