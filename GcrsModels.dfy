/**
 * The newer record and response shapes (gcrs/models.py), with the same encoding
 * of pydantic defaults as `AppModels`.
 */
module GcrsModels {
  import opened Wrappers

  /** One scanned file: only the path, name, size and binary flag are required. */
  datatype FileRecord = FileRecord(
    nameonly relativeDir: string,
    nameonly name: string,
    nameonly extension: Option<string> := None,
    nameonly category: Option<string> := None,
    nameonly language: Option<string> := None,
    nameonly technologies: seq<string> := [],
    nameonly dataType: Option<string> := None,
    nameonly dependencyKind: Option<string> := None,
    nameonly sizeBytes: int,
    nameonly isBinary: bool
  )

  /** The scan response: every field is required. */
  datatype ScanResponse = ScanResponse(
    nameonly repoRoot: string,
    nameonly scannedCount: int,
    nameonly skippedCount: int
  )

  /** The summary response: only the status and the root are required. */
  datatype SummaryResponse = SummaryResponse(
    nameonly status: string,
    nameonly summary: Option<string> := None,
    nameonly repoRoot: string,
    nameonly filesScanned: Option<int> := None,
    nameonly filesSkipped: Option<int> := None,
    nameonly error: Option<string> := None
  )

  /** Histograms (required, no default) and counters (defaulting to zero). */
  datatype RepositorySummary = RepositorySummary(
    nameonly filesByLanguage: map<string, int>,
    nameonly filesByCategory: map<string, int>,
    nameonly filesByTechnology: map<string, int>,
    nameonly filesByDependency: map<string, int>,
    nameonly filesByExtension: map<string, int>,
    nameonly filesWithoutExtension: int := 0,
    nameonly filesWithExtension: int := 0,
    nameonly dataFilesByExtension: map<string, int>,
    nameonly totalFiles: int := 0,
    nameonly scannedFiles: int := 0,
    nameonly skippedFiles: int := 0
  )

  /** All five counters of a summary are zero. */
  predicate ZeroCounters(s: RepositorySummary)
  {
    s.filesWithoutExtension == 0 && s.filesWithExtension == 0 &&
    s.totalFiles == 0 && s.scannedFiles == 0 && s.skippedFiles == 0
  }

  /**
   * A record built from its four required fields alone: they are stored as given,
   * every optional field is absent and the technology list is empty.
   */
  function NewFileRecord(relativeDir: string, name: string, sizeBytes: int, isBinary: bool): (r: FileRecord)
    ensures r.relativeDir == relativeDir && r.name == name
    ensures r.sizeBytes == sizeBytes && r.isBinary == isBinary
    ensures r.extension == None && r.category == None && r.language == None
    ensures r.dataType == None && r.dependencyKind == None && r.technologies == []
  {
    FileRecord(relativeDir := relativeDir, name := name, sizeBytes := sizeBytes, isBinary := isBinary)
  }

  /**
   * A response built from the status and root alone: the summary, both file counts
   * and the error are absent.
   */
  function NewSummaryResponse(status: string, repoRoot: string): (r: SummaryResponse)
    ensures r.status == status && r.repoRoot == repoRoot
    ensures r.summary == None && r.filesScanned == None && r.filesSkipped == None && r.error == None
  {
    SummaryResponse(status := status, repoRoot := repoRoot)
  }

  /** A fresh summary: the six histograms as given and all counters zero. */
  function NewRepositorySummary(byLanguage: map<string, int>, byCategory: map<string, int>,
                                byTechnology: map<string, int>, byDependency: map<string, int>,
                                byExtension: map<string, int>, dataByExtension: map<string, int>): (r: RepositorySummary)
    ensures r.filesByLanguage == byLanguage && r.filesByCategory == byCategory
    ensures r.filesByTechnology == byTechnology && r.filesByDependency == byDependency
    ensures r.filesByExtension == byExtension && r.dataFilesByExtension == dataByExtension
    ensures ZeroCounters(r)
  {
    RepositorySummary(filesByLanguage := byLanguage, filesByCategory := byCategory,
                      filesByTechnology := byTechnology, filesByDependency := byDependency,
                      filesByExtension := byExtension, dataFilesByExtension := dataByExtension)
  }
}
