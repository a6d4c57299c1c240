/**
 * The loop of `scan_repo` (app/core/scanner.py), apart from the record each
 * iteration builds: it walks the paths in order, reads each one's size, and
 * appends one record per path. Reading a size can fail; nothing in the loop
 * catches that failure, so it ends the whole scan and the records built so far
 * are lost. The record construction is a parameter here; `Scanner.ScanRepo`
 * passes the scanner's own.
 */
module ScanLoop {
  import opened Wrappers
  import opened PathNames
  import opened AppModels

  /** Why a scan ends early: the size of a walked path could not be read. */
  datatype ScanError = StatFailed(path: Path)

  /** Every path is non-empty and has a size. */
  predicate AllSized(paths: seq<Path>, sizes: map<Path, nat>)
  {
    forall p :: p in paths ==> |p| >= 1 && p in sizes
  }

  /** A per-file classifier that accepts every non-empty path. */
  ghost predicate Total(classify: (Path, nat) --> FileRecord)
  {
    forall p: Path, n: nat :: |p| >= 1 ==> classify.requires(p, n)
  }

  /** The records `classify` gives the sized paths, one per path, in the same order. */
  function RecordsOf(paths: seq<Path>, sizes: map<Path, nat>, classify: (Path, nat) --> FileRecord): (r: seq<FileRecord>)
    requires AllSized(paths, sizes) && Total(classify)
    ensures |r| == |paths|
  {
    if paths == [] then []
    else
      var last := paths[|paths| - 1];
      RecordsOf(paths[..|paths| - 1], sizes, classify) + [classify(last, sizes[last])]
  }

  /** Scanning one more path appends its record. */
  lemma RecordsOfSnoc(paths: seq<Path>, sizes: map<Path, nat>, classify: (Path, nat) --> FileRecord, i: nat)
    requires i < |paths| && AllSized(paths[..i + 1], sizes) && Total(classify)
    ensures AllSized(paths[..i], sizes)
    ensures RecordsOf(paths[..i + 1], sizes, classify) ==
      RecordsOf(paths[..i], sizes, classify) + [classify(paths[i], sizes[paths[i]])]
  {
    assert paths[..i + 1][..i] == paths[..i];
  }

  /** The `i`-th record is the classification of the `i`-th path. */
  lemma {:induction false} RecordsOfAt(paths: seq<Path>, sizes: map<Path, nat>, classify: (Path, nat) --> FileRecord, i: nat)
    requires AllSized(paths, sizes) && Total(classify) && i < |paths|
    ensures RecordsOf(paths, sizes, classify)[i] == classify(paths[i], sizes[paths[i]])
  {
    if i < |paths| - 1 {
      var init := paths[..|paths| - 1];
      RecordsOfAt(init, sizes, classify, i);
      assert init[i] == paths[i];
    }
  }

  /**
   * The scan loop over the walked paths, for the record construction `classify`.
   * `sizes` stands for `Path.stat`: a path missing from it is one whose size could
   * not be read. The loop finishes exactly when every path has a size, and then
   * holds one record per path in the same order; otherwise it stops at the first
   * path without one, and no record survives.
   */
  method ScanPaths(paths: seq<Path>, sizes: map<Path, nat>, classify: (Path, nat) --> FileRecord)
    returns (result: Result<seq<FileRecord>, ScanError>)
    requires forall i :: 0 <= i < |paths| ==> |paths[i]| >= 1
    requires Total(classify)
    ensures result.Ok? <==> AllSized(paths, sizes)
    ensures result.Ok? ==> result.value == RecordsOf(paths, sizes, classify)
    ensures result.Err? ==>
      exists k :: 0 <= k < |paths| && result.error == StatFailed(paths[k]) &&
        paths[k] !in sizes && AllSized(paths[..k], sizes)
  {
    var records: seq<FileRecord> := [];
    var i := 0;
    while i < |paths|
      invariant 0 <= i <= |paths|
      invariant AllSized(paths[..i], sizes)
      invariant records == RecordsOf(paths[..i], sizes, classify)
    {
      var path := paths[i];
      if path !in sizes {
        assert path in paths && !AllSized(paths, sizes);
        result := Err(StatFailed(path));
        assert 0 <= i < |paths| && result.error == StatFailed(paths[i]);
        return;
      }
      assert paths[..i + 1] == paths[..i] + [path];
      RecordsOfSnoc(paths, sizes, classify, i);
      records := records + [classify(path, sizes[path])];
      i := i + 1;
    }
    assert paths[..i] == paths;
    result := Ok(records);
  }

}
