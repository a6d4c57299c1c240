/**
 * The default output file name of the gcrs API (gcrs/api/main.py,
 * `generate_default_output_file`): the repository's directory name filtered to a
 * safe character set with "repo" as the fallback, an underscore, a
 * `%Y%m%d_%H%M%S` timestamp, a dot and the file extension as given.
 */
module OutputName {
  import opened Wrappers

  /** `str.isalnum`, restricted to ASCII letters and digits. */
  predicate IsAlnum(c: char)
  {
    'a' <= c <= 'z' || 'A' <= c <= 'Z' || '0' <= c <= '9'
  }

  /** The characters the sanitiser keeps. */
  predicate Allowed(c: char)
  {
    IsAlnum(c) || c == '-' || c == '_' || c == '.'
  }

  /** Every character of `s` is kept by the sanitiser. */
  predicate AllAllowed(s: string)
  {
    forall i :: 0 <= i < |s| ==> Allowed(s[i])
  }

  /** The generator-expression filter: the allowed characters of `s`, in order. */
  function Filter(s: string): (r: string)
    ensures |r| <= |s|
    ensures AllAllowed(r)
    ensures forall c :: c in r ==> c in s
  {
    if s == [] then []
    else if Allowed(s[0]) then [s[0]] + Filter(s[1..])
    else Filter(s[1..])
  }

  /** Filtering a concatenation filters each part, keeping their order. */
  lemma {:induction false} FilterAppend(a: string, b: string)
    ensures Filter(a + b) == Filter(a) + Filter(b)
  {
    if a == [] {
      assert a + b == b;
    } else {
      assert (a + b)[1..] == a[1..] + b;
      FilterAppend(a[1..], b);
    }
  }

  /** The filter leaves a string unchanged exactly when all its characters are allowed. */
  lemma {:induction false} FilterFixedPoint(s: string)
    ensures Filter(s) == s <==> AllAllowed(s)
  {
    if s != [] {
      FilterFixedPoint(s[1..]);
      if !Allowed(s[0]) {
        assert |Filter(s)| <= |s[1..]| < |s|;
      }
    }
  }

  /** Filtering twice is filtering once. */
  lemma FilterIdempotent(s: string)
    ensures Filter(Filter(s)) == Filter(s)
  {
    FilterFixedPoint(Filter(s));
  }

  /** Each allowed character occurs in the result as often as in `s`; the others not at all. */
  lemma {:induction false} FilterCounts(s: string, c: char)
    ensures multiset(Filter(s))[c] == if Allowed(c) then multiset(s)[c] else 0
  {
    if s != [] {
      FilterCounts(s[1..], c);
      assert s == [s[0]] + s[1..];
    }
  }

  /** The `Path(...).resolve().name or "repo"` of `generate_default_output_file`: the resolved path's name, or "repo" when that name is empty. */
  function RepoName(pathName: string): (r: string)
    ensures r != ""
    ensures pathName != "" ==> r == pathName
    ensures pathName == "" ==> r == "repo"
  {
    if pathName != "" then pathName else "repo"
  }

  /** The `"".join(...) or "repo"` of `generate_default_output_file`: the filtered name, or "repo" when nothing survives the filter. */
  function SanitizeName(name: string): (r: string)
    ensures r != "" && AllAllowed(r)
    ensures Filter(name) != "" ==> r == Filter(name)
    ensures Filter(name) == "" ==> r == "repo"
  {
    var kept := Filter(name);
    if kept != "" then kept else "repo"
  }

  /** A non-empty name made only of allowed characters is left as it is. */
  lemma SanitizeKeepsSafeName(name: string)
    requires name != "" && AllAllowed(name)
    ensures SanitizeName(name) == name
  {
    FilterFixedPoint(name);
  }

  /** A disallowed character between two safe parts is dropped and the parts are joined. */
  lemma SanitizeDropsDisallowed(a: string, c: char, b: string)
    requires AllAllowed(a) && AllAllowed(b) && a + b != ""
    requires !Allowed(c)
    ensures SanitizeName(a + [c] + b) == a + b
  {
    var x := a + [c];
    FilterAppend(x, b);
    FilterAppend(a, [c]);
    FilterFixedPoint(a);
    FilterFixedPoint(b);
    assert [c][1..] == [];
    assert Filter([c]) == [];
    assert Filter(x) == a;
    assert Filter(x + b) == a + b;
  }

  /** "my repo" becomes "myrepo": the space is dropped, not the whole name. */
  lemma SanitizeMixedName()
    ensures SanitizeName("my" + " " + "repo") == "myrepo"
  {
    SanitizeDropsDisallowed("my", ' ', "repo");
  }

  /** Sanitising a sanitised name changes nothing. */
  lemma SanitizeIdempotent(name: string)
    ensures SanitizeName(SanitizeName(name)) == SanitizeName(name)
  {
    SanitizeKeepsSafeName(SanitizeName(name));
  }

  /** The sanitised name is "repo" when the path's name is empty or entirely filtered out. */
  lemma SanitizeFallback(pathName: string)
    requires pathName == "" || forall i :: 0 <= i < |pathName| ==> !Allowed(pathName[i])
    ensures SanitizeName(RepoName(pathName)) == "repo"
  {
    if pathName != "" {
      NoAllowedFiltersToEmpty(pathName);
    } else {
      FilterFixedPoint("repo");
    }
  }

  /** A string with no allowed character filters to the empty string. */
  lemma {:induction false} NoAllowedFiltersToEmpty(s: string)
    requires forall i :: 0 <= i < |s| ==> !Allowed(s[i])
    ensures Filter(s) == ""
  {
    if s != [] {
      NoAllowedFiltersToEmpty(s[1..]);
    }
  }

  /** A local date and time, as `datetime.now()` gives it (years before 1000 left out). */
  datatype Timestamp = Timestamp(year: int, month: int, day: int, hour: int, minute: int, second: int)
  {
    predicate Valid()
    {
      1000 <= year <= 9999 && 1 <= month <= 12 && 1 <= day <= 31 &&
      0 <= hour <= 23 && 0 <= minute <= 59 && 0 <= second <= 59
    }
  }

  function Pow10(w: nat): (r: nat)
    ensures r >= 1
  {
    if w == 0 then 1 else 10 * Pow10(w - 1)
  }

  predicate IsDigit(c: char)
  {
    '0' <= c <= '9'
  }

  predicate AllDigits(s: string)
  {
    forall i :: 0 <= i < |s| ==> IsDigit(s[i])
  }

  /** `n` in decimal, zero-padded on the left to exactly `w` digits. */
  function Digits(n: nat, w: nat): (r: string)
    requires n < Pow10(w)
    ensures |r| == w && AllDigits(r)
  {
    if w == 0 then "" else Digits(n / 10, w - 1) + [('0' as int + n % 10) as char]
  }

  /** The number a string of decimal digits denotes. */
  function DigitsValue(s: string): nat
    requires AllDigits(s)
  {
    if s == "" then 0 else 10 * DigitsValue(s[..|s| - 1]) + (s[|s| - 1] as int - '0' as int)
  }

  /** Reading the zero-padded digits back gives the number. */
  lemma {:induction false} DigitsRoundTrip(n: nat, w: nat)
    requires n < Pow10(w)
    ensures DigitsValue(Digits(n, w)) == n
  {
    if w > 0 {
      DigitsRoundTrip(n / 10, w - 1);
      var r := Digits(n, w);
      assert r[..|r| - 1] == Digits(n / 10, w - 1);
    }
  }

  /** `strftime("%Y%m%d_%H%M%S")`. */
  function FormatTimestamp(t: Timestamp): (r: string)
    requires t.Valid()
    ensures |r| == 15 && r[8] == '_'
    ensures AllDigits(r[..8]) && AllDigits(r[9..])
  {
    var r := Digits(t.year, 4) + Digits(t.month, 2) + Digits(t.day, 2) + "_" +
             Digits(t.hour, 2) + Digits(t.minute, 2) + Digits(t.second, 2);
    assert r[..8] == Digits(t.year, 4) + Digits(t.month, 2) + Digits(t.day, 2);
    assert r[9..] == Digits(t.hour, 2) + Digits(t.minute, 2) + Digits(t.second, 2);
    r
  }

  /** Reads a 15-character `%Y%m%d_%H%M%S` string back, when it has that shape. */
  function ParseTimestamp(s: string): (r: Option<Timestamp>)
    ensures r.Some? ==> r.value.Valid()
  {
    if |s| == 15 && s[8] == '_' && AllDigits(s[..8]) && AllDigits(s[9..]) then
      assert AllDigits(s[0..4]) && AllDigits(s[4..6]) && AllDigits(s[6..8]);
      assert AllDigits(s[9..11]) && AllDigits(s[11..13]) && AllDigits(s[13..15]);
      var t := Timestamp(DigitsValue(s[0..4]), DigitsValue(s[4..6]), DigitsValue(s[6..8]),
                         DigitsValue(s[9..11]), DigitsValue(s[11..13]), DigitsValue(s[13..15]));
      if t.Valid() then Some(t) else None
    else None
  }

  /** The formatted timestamp reads back as the same date and time. */
  lemma TimestampRoundTrip(t: Timestamp)
    requires t.Valid()
    ensures ParseTimestamp(FormatTimestamp(t)) == Some(t)
  {
    var s := FormatTimestamp(t);
    var date := Digits(t.year, 4) + Digits(t.month, 2) + Digits(t.day, 2);
    var time := Digits(t.hour, 2) + Digits(t.minute, 2) + Digits(t.second, 2);
    assert s == date + "_" + time;
    assert s[..8] == date && s[9..] == time;
    assert s[0..4] == Digits(t.year, 4);
    assert s[4..6] == Digits(t.month, 2);
    assert s[6..8] == Digits(t.day, 2);
    assert s[9..11] == Digits(t.hour, 2);
    assert s[11..13] == Digits(t.minute, 2);
    assert s[13..15] == Digits(t.second, 2);
    DigitsRoundTrip(t.year, 4);
    DigitsRoundTrip(t.month, 2);
    DigitsRoundTrip(t.day, 2);
    DigitsRoundTrip(t.hour, 2);
    DigitsRoundTrip(t.minute, 2);
    DigitsRoundTrip(t.second, 2);
  }

  /**
   * `generate_default_output_file`: the resolved root directory's name and the
   * current time are passed in; the extension is appended as given. The name
   * splits back, from its end, into the extension, a dot, the timestamp, an
   * underscore and the sanitised repository name.
   */
  function DefaultOutputFile(pathName: string, now: Timestamp, fileExtension: string := "sarif"): (r: string)
    requires now.Valid()
    ensures var e := |fileExtension|;
      |r| >= e + 18 &&
      r[|r| - e..] == fileExtension && r[|r| - e - 1] == '.' &&
      ParseTimestamp(r[|r| - e - 16..|r| - e - 1]) == Some(now) &&
      r[|r| - e - 17] == '_' &&
      r[..|r| - e - 17] == SanitizeName(RepoName(pathName))
  {
    var name, ts := SanitizeName(RepoName(pathName)), FormatTimestamp(now);
    var r := name + "_" + ts + "." + fileExtension;
    var e, n := |fileExtension|, |name|;
    assert |r| == n + e + 17;
    assert r[n + 17..] == fileExtension;
    assert r[n + 1..n + 16] == ts;
    assert r[..n] == name;
    TimestampRoundTrip(now);
    r
  }

  /** With allowed extension characters, the whole file name is made of allowed characters. */
  lemma OutputFileIsSafe(pathName: string, now: Timestamp, fileExtension: string)
    requires now.Valid() && AllAllowed(fileExtension)
    ensures AllAllowed(DefaultOutputFile(pathName, now, fileExtension))
  {
    var name, ts := SanitizeName(RepoName(pathName)), FormatTimestamp(now);
    assert ts == ts[..8] + "_" + ts[9..];
    var r := DefaultOutputFile(pathName, now, fileExtension);
    assert r == name + "_" + ts + "." + fileExtension;
    forall i | 0 <= i < |r| ensures Allowed(r[i]) {
      if i < |name| {
        assert r[i] == name[i];
      } else if |name| + 1 <= i < |name| + 16 {
        assert r[i] == ts[i - |name| - 1];
      } else if |name| + 17 <= i {
        assert r[i] == fileExtension[i - |name| - 17];
      }
    }
  }

  /** The file name ends with a dot and the extension exactly as given. */
  lemma OutputFileSuffix(pathName: string, now: Timestamp, fileExtension: string)
    requires now.Valid()
    ensures var r := DefaultOutputFile(pathName, now, fileExtension);
      |r| > |fileExtension| && r[|r| - |fileExtension| - 1..] == "." + fileExtension
  {
    var r, e := DefaultOutputFile(pathName, now, fileExtension), |fileExtension|;
    assert r[|r| - e - 1..] == [r[|r| - e - 1]] + r[|r| - e..];
  }

  /** Without an extension argument the file is a ".sarif" file. */
  lemma DefaultExtensionIsSarif(pathName: string, now: Timestamp)
    requires now.Valid()
    ensures var r := DefaultOutputFile(pathName, now); |r| >= 6 && r[|r| - 6..] == ".sarif"
  {
    OutputFileSuffix(pathName, now, "sarif");
  }

  /** The summary endpoint's extension "summary.txt" gives a ".summary.txt" file. */
  lemma SummaryExtension(pathName: string, now: Timestamp)
    requires now.Valid()
    ensures var r := DefaultOutputFile(pathName, now, "summary.txt"); |r| >= 12 && r[|r| - 12..] == ".summary.txt"
  {
    OutputFileSuffix(pathName, now, "summary.txt");
  }
}
