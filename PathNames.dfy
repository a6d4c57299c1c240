/**
 * The string operations the scanner applies to file paths: pathlib's final-suffix
 * rule, ASCII lower-casing, and the '/'-separated form of a relative path together
 * with its inverse.
 */
module PathNames {
  import opened Wrappers

  /** A path below the scan root, as its components; the file name is the last one. */
  type Path = seq<string>

  /** The position of the last '.' in `name`, as `str.rfind('.')` finds it (None for -1). */
  function LastDot(name: string): (r: Option<nat>)
    ensures r.Some? ==> r.value < |name| && name[r.value] == '.'
    ensures r.Some? ==> forall j :: r.value < j < |name| ==> name[j] != '.'
    ensures r.None? ==> forall j :: 0 <= j < |name| ==> name[j] != '.'
  {
    if |name| == 0 then None
    else if name[|name| - 1] == '.' then Some(|name| - 1)
    else LastDot(name[..|name| - 1])
  }

  /**
   * `PurePath.suffix` of a final component: from the last '.' to the end, provided
   * that dot is neither the first nor the last character; otherwise empty. So a
   * dot-file such as ".gitignore" and a trailing-dot name such as "foo." have none.
   */
  function Suffix(name: string): (r: string)
    ensures r != "" <==> name != "" && name[|name| - 1] != '.' && '.' in name[1..]
    ensures r != "" ==> 2 <= |r| < |name| && r[0] == '.' && r == name[|name| - |r|..]
    ensures forall j :: 1 <= j < |r| ==> r[j] != '.'
  {
    match LastDot(name)
    case None => ""
    case Some(i) =>
      if 0 < i < |name| - 1 then name[i..]
      else
        assert i == 0 ==> forall j :: 1 <= j < |name| ==> name[j] != '.';
        ""
  }

  /** ASCII lower-casing of one character. */
  function LowerChar(c: char): char
  {
    if 'A' <= c <= 'Z' then (c as int + 32) as char else c
  }

  /** `str.lower`, restricted to ASCII letters. */
  function Lower(s: string): (r: string)
    ensures |r| == |s|
    ensures forall i :: 0 <= i < |s| ==> !('A' <= r[i] <= 'Z')
    ensures forall i :: 0 <= i < |s| && !('A' <= s[i] <= 'Z') ==> r[i] == s[i]
    ensures forall i :: 0 <= i < |s| && 'A' <= s[i] <= 'Z' ==> r[i] as int == s[i] as int + 32
  {
    seq(|s|, i requires 0 <= i < |s| => LowerChar(s[i]))
  }

  /** Lower-casing twice is lower-casing once. */
  lemma LowerIdempotent(s: string)
    ensures Lower(Lower(s)) == Lower(s)
  {
  }

  /**
   * A name made of a non-empty stem and an extension — a dot followed by at least
   * one character and no further dot — has that extension as its suffix, whatever
   * dots the stem holds.
   */
  lemma SuffixOfStem(stem: string, ext: string)
    requires stem != "" && |ext| >= 2 && ext[0] == '.'
    requires forall j :: 1 <= j < |ext| ==> ext[j] != '.'
    ensures Suffix(stem + ext) == ext
  {
    var name := stem + ext;
    assert name[1..][|stem| - 1] == '.';
    var r := Suffix(name);
    assert r == name[|name| - |r|..];
  }

  /** The name's only dot, if any, is its first character. */
  predicate NoInnerDot(name: string)
  {
    forall j :: 1 <= j < |name| ==> name[j] != '.'
  }

  /** A name without an inner dot has no suffix. */
  lemma NoSuffixWithoutInnerDot(name: string)
    requires NoInnerDot(name)
    ensures Suffix(name) == ""
  {
    if name != "" {
      assert '.' !in name[1..] by {
        forall j | 0 <= j < |name| - 1 ensures name[1..][j] != '.' {
          assert name[1..][j] == name[j + 1];
        }
      }
    }
  }

  /** Lower-casing leaves a string without upper-case letters unchanged. */
  lemma LowerUnchanged(s: string)
    requires forall i :: 0 <= i < |s| ==> !('A' <= s[i] <= 'Z')
    ensures Lower(s) == s
  {
  }

  /** The POSIX form of a relative path: its components joined by '/'. */
  function Join(p: Path): (r: string)
    requires |p| >= 1
    ensures |r| >= |p[0]| && r[..|p[0]|] == p[0]
    ensures |p| > 1 ==> |r| > |p[0]| && r[|p[0]|] == '/'
  {
    if |p| == 1 then p[0] else p[0] + "/" + Join(p[1..])
  }

  /** `str.split('/')`: the inverse of Join on components that hold no '/'. */
  function Split(s: string): (r: Path)
    ensures |r| >= 1
  {
    if s == [] then [""]
    else
      var rest := Split(s[1..]);
      if s[0] == '/' then [""] + rest else [[s[0]] + rest[0]] + rest[1..]
  }

  /** No component of the path contains the separator. */
  predicate NoSeparator(p: Path)
  {
    forall k :: 0 <= k < |p| ==> '/' !in p[k]
  }

  /** Splitting a component that holds no '/', followed by '/' and more text. */
  lemma {:induction false} SplitComponent(a: string, rest: string)
    requires '/' !in a
    ensures Split(a + "/" + rest) == [a] + Split(rest)
  {
    if a == [] {
      assert a + "/" + rest == "/" + rest;
      assert ("/" + rest)[1..] == rest;
    } else {
      assert (a + "/" + rest)[1..] == a[1..] + "/" + rest;
      SplitComponent(a[1..], rest);
      assert [a[0]] + a[1..] == a;
    }
  }

  /** Splitting a component that holds no '/'. */
  lemma {:induction false} SplitSingle(a: string)
    requires '/' !in a
    ensures Split(a) == [a]
  {
    if a != [] {
      SplitSingle(a[1..]);
      assert [a[0]] + a[1..] == a;
    }
  }

  /** Join and Split are inverse: the '/'-joined path determines its components. */
  lemma {:induction false} SplitJoin(p: Path)
    requires |p| >= 1 && NoSeparator(p)
    ensures Split(Join(p)) == p
  {
    if |p| == 1 {
      SplitSingle(p[0]);
    } else {
      assert '/' !in p[0];
      SplitComponent(p[0], Join(p[1..]));
      SplitJoin(p[1..]);
    }
  }

  /** Distinct paths without separators in their components have distinct joined forms. */
  lemma JoinInjective(p: Path, q: Path)
    requires |p| >= 1 && |q| >= 1 && NoSeparator(p) && NoSeparator(q)
    requires Join(p) == Join(q)
    ensures p == q
  {
    SplitJoin(p);
    SplitJoin(q);
  }

  /** The joined form ends with the file name, after a '/' when there is a directory part. */
  lemma {:induction false} JoinEndsWithName(p: Path)
    requires |p| >= 1
    ensures |p| == 1 ==> Join(p) == p[0]
    ensures |p| > 1 ==> Join(p) == Join(p[..|p| - 1]) + "/" + p[|p| - 1]
  {
    if |p| > 2 {
      JoinEndsWithName(p[1..]);
      assert p[1..][..|p| - 2] == p[..|p| - 1][1..];
    } else if |p| == 2 {
      assert p[..1] == [p[0]];
    }
  }
}
