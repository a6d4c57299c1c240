/**
 * The scanner's record shapes (app/models.py). A pydantic field with a default
 * becomes a `nameonly` constructor formal with the same default; a field without
 * one must be passed by name. `str | None` is `Option<string>`.
 */
module AppModels {
  import opened Wrappers

  /**
   * One scanned file. `extension` and `category` are plain strings (the empty
   * string, not None, when there is no suffix). There is no data-type field.
   */
  datatype FileRecord = FileRecord(
    nameonly relativeDir: string,
    nameonly name: string,
    nameonly extension: string,
    nameonly category: string,
    nameonly language: Option<string> := None,
    nameonly technologies: seq<string> := [],
    nameonly dependencyKind: Option<string> := None,
    nameonly sizeBytes: int,
    nameonly isBinary: bool
  )

  /** The scan response: every field is required. */
  datatype ScanResponse = ScanResponse(
    nameonly records: seq<FileRecord>,
    nameonly root: string,
    nameonly scannedCount: int,
    nameonly skippedCount: int
  )

  /**
   * A record built from its required fields alone: they are stored as given, the
   * language and dependency kind are absent and the technology list is empty.
   */
  function NewFileRecord(relativeDir: string, name: string, extension: string, category: string,
                         sizeBytes: int, isBinary: bool): (r: FileRecord)
    ensures r.relativeDir == relativeDir && r.name == name
    ensures r.extension == extension && r.category == category
    ensures r.sizeBytes == sizeBytes && r.isBinary == isBinary
    ensures r.language == None && r.dependencyKind == None && r.technologies == []
  {
    FileRecord(relativeDir := relativeDir, name := name, extension := extension,
               category := category, sizeBytes := sizeBytes, isBinary := isBinary)
  }
}
