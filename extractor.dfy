/**
 * The two pure helpers of the extract stage: cleaning the unit suffix off a column header
 * and deriving the city name from a file path.
 */
module Extractor {

  // ---------------------------------------------------------------------------
  // Column names

  /** The characters `str.strip()` removes, restricted to ASCII: tab to carriage return, 0x1C-0x1F and space. */
  predicate IsSpace(c: char) {
    (9 <= c as int <= 13) || (28 <= c as int <= 31) || c == ' '
  }

  /** Neither the first nor the last character is whitespace. */
  predicate NoEdgeSpace(s: string) {
    |s| > 0 ==> !IsSpace(s[0]) && !IsSpace(s[|s| - 1])
  }

  /** The text before the first `(`, the whole string when there is none (`s.split("(")[0]`). */
  function BeforeParen(s: string): (r: string)
    ensures '(' !in r
    ensures r <= s
    ensures |r| < |s| ==> s[|r|] == '('
  {
    if s == [] || s[0] == '(' then [] else [s[0]] + BeforeParen(s[1..])
  }

  function StripLeft(s: string): (r: string)
    ensures |r| <= |s| && r == s[|s| - |r|..]
    ensures |r| > 0 ==> !IsSpace(r[0])
    ensures forall i :: 0 <= i < |s| - |r| ==> IsSpace(s[i])
  {
    if |s| > 0 && IsSpace(s[0]) then StripLeft(s[1..]) else s
  }

  function StripRight(s: string): (r: string)
    ensures r <= s
    ensures |r| > 0 ==> !IsSpace(r[|r| - 1])
    ensures forall i :: |r| <= i < |s| ==> IsSpace(s[i])
  {
    if |s| > 0 && IsSpace(s[|s| - 1]) then StripRight(s[..|s| - 1]) else s
  }

  /** `r` is the part of `s` starting at `a`, and everything of `s` around it is whitespace. */
  predicate TrimmedAt(r: string, s: string, a: int) {
    && 0 <= a <= |s| - |r| && r == s[a..a + |r|]
    && (forall i :: 0 <= i < a ==> IsSpace(s[i]))
    && (forall i :: a + |r| <= i < |s| ==> IsSpace(s[i]))
  }

  /** `str.strip()`: leading and trailing whitespace removed. */
  function Strip(s: string): (r: string)
    ensures NoEdgeSpace(r)
    ensures exists a :: TrimmedAt(r, s, a)
  {
    StripTrims(s);
    StripRight(StripLeft(s))
  }

  lemma StripTrims(s: string)
    ensures TrimmedAt(StripRight(StripLeft(s)), s, |s| - |StripLeft(s)|)
  {
    var l := StripLeft(s);
    var r := StripRight(l);
    var a := |s| - |l|;
    assert l == s[a..];
    assert r == l[..|r|];
    assert r == s[a..a + |r|] by {
      forall i | 0 <= i < |r|
        ensures r[i] == s[a + i]
      {
        assert r[i] == l[i];
      }
    }
    forall i | a + |r| <= i < |s|
      ensures IsSpace(s[i])
    {
      assert s[i] == l[i - a];
    }
    assert forall i :: 0 <= i < a ==> IsSpace(s[i]);
    assert TrimmedAt(r, s, a);
  }

  /** `str.replace(" ", "_")`. */
  function ReplaceSpaces(s: string): (r: string)
    ensures |r| == |s|
    ensures forall i :: 0 <= i < |s| ==> r[i] == (if s[i] == ' ' then '_' else s[i])
  {
    if s == [] then [] else ReplaceSpaces(s[..|s| - 1]) + [if s[|s| - 1] == ' ' then '_' else s[|s| - 1]]
  }

  /** The new name of one column: cut at the first `(`, strip, then spaces become underscores. */
  function CleanName(column: string): string {
    ReplaceSpaces(Strip(BeforeParen(column)))
  }

  /** A frame as read from a file: its header and its rows of cells. */
  datatype Sheet<T> = Sheet(columns: seq<string>, rows: seq<seq<T>>)

  /** `DataFrame.rename(columns=mapping)`: mapped headers are replaced, the others kept. */
  function Rename(columns: seq<string>, mapping: map<string, string>): seq<string> {
    seq(|columns|, i requires 0 <= i < |columns| => if columns[i] in mapping then mapping[columns[i]] else columns[i])
  }

  /**
   * Builds the old-to-new name map column by column and renames with it: every header is
   * replaced by its cleaned form, in place, and the rows are untouched.
   */
  method CleanColumnNames<T>(df: Sheet<T>) returns (r: Sheet<T>)
    ensures |r.columns| == |df.columns|
    ensures forall i :: 0 <= i < |df.columns| ==> r.columns[i] == CleanName(df.columns[i])
    ensures r.rows == df.rows
  {
    var cleaned: map<string, string> := map[];
    for k := 0 to |df.columns|
      invariant forall c :: c in cleaned <==> c in df.columns[..k]
      invariant forall c :: c in cleaned ==> cleaned[c] == CleanName(c)
    {
      assert df.columns[..k + 1] == df.columns[..k] + [df.columns[k]];
      cleaned := cleaned[df.columns[k] := CleanName(df.columns[k])];
    }
    assert df.columns[..|df.columns|] == df.columns;
    r := Sheet(Rename(df.columns, cleaned), df.rows);
  }

  // ---------------------------------------------------------------------------
  // Properties of the column-name cleaning

  lemma StripKeepsOut(s: string, c: char)
    requires c !in s
    ensures c !in Strip(s)
  {
    var l := StripLeft(s);
    assert forall i :: 0 <= i < |l| ==> l[i] == s[|s| - |l| + i];
    var r := StripRight(l);
    assert forall i :: 0 <= i < |r| ==> r[i] == l[i];
  }

  /** A cleaned name holds no `(` and no space. */
  lemma CleanNameHasNoParenOrSpace(column: string)
    ensures '(' !in CleanName(column)
    ensures ' ' !in CleanName(column)
  {
    var b := BeforeParen(column);
    StripKeepsOut(b, '(');
    var s := Strip(b);
    var r := ReplaceSpaces(s);
    assert forall i :: 0 <= i < |r| ==> r[i] != '(' && r[i] != ' ';
  }

  /** Whitespace is stripped before spaces turn into underscores, so a cleaned name never starts or ends in `_` that was a space, nor in whitespace. */
  lemma CleanNameHasNoEdgeSpace(column: string)
    ensures NoEdgeSpace(CleanName(column))
  {
    var s := Strip(BeforeParen(column));
    var r := ReplaceSpaces(s);
    if |r| > 0 {
      assert r[0] == s[0] && r[|r| - 1] == s[|s| - 1];
    }
  }

  lemma StripNoEdgeSpace(s: string)
    requires NoEdgeSpace(s)
    ensures Strip(s) == s
  {
  }

  lemma ReplaceSpacesNoSpace(s: string)
    requires ' ' !in s
    ensures ReplaceSpaces(s) == s
  {
    var r := ReplaceSpaces(s);
    forall i | 0 <= i < |s|
      ensures r[i] == s[i]
    {
      assert s[i] != ' ';
    }
  }

  lemma {:induction false} BeforeParenNoParen(s: string)
    requires '(' !in s
    ensures BeforeParen(s) == s
  {
    if s != [] {
      assert s[0] != '(';
      assert '(' !in s[1..] by {
        forall i | 0 <= i < |s[1..]| ensures s[1..][i] != '(' {
          assert s[1..][i] == s[i + 1];
        }
      }
      BeforeParenNoParen(s[1..]);
      assert s == [s[0]] + s[1..];
    }
  }

  /** A name with no `(`, no space and no edge whitespace is left as it is. */
  lemma CleanNameFixedPoint(column: string)
    requires '(' !in column && ' ' !in column && NoEdgeSpace(column)
    ensures CleanName(column) == column
  {
    BeforeParenNoParen(column);
    StripNoEdgeSpace(column);
    ReplaceSpacesNoSpace(column);
  }

  /** Cleaning a cleaned name changes nothing. */
  lemma CleanNameIdempotent(column: string)
    ensures CleanName(CleanName(column)) == CleanName(column)
  {
    CleanNameHasNoParenOrSpace(column);
    CleanNameHasNoEdgeSpace(column);
    CleanNameFixedPoint(CleanName(column));
  }

  lemma {:induction false} BeforeParenAppend(name: string, rest: string)
    requires '(' !in name
    ensures BeforeParen(name + "(" + rest) == name
  {
    if name != [] {
      assert (name + "(" + rest)[0] == name[0];
      assert (name + "(" + rest)[1..] == name[1..] + "(" + rest;
      assert '(' !in name[1..] by {
        forall i | 0 <= i < |name[1..]| ensures name[1..][i] != '(' {
          assert name[1..][i] == name[i + 1];
        }
      }
      BeforeParenAppend(name[1..], rest);
      assert name == [name[0]] + name[1..];
    } else {
      assert name + "(" + rest == "(" + rest;
    }
  }

  lemma {:induction false} StripRightSpaces(s: string, n: nat)
    requires NoEdgeSpace(s)
    ensures StripRight(s + seq(n, _ => ' ')) == s
    decreases n
  {
    if n == 0 {
      assert s + seq(n, _ => ' ') == s;
    } else {
      var t := s + seq(n, _ => ' ');
      assert t[..|t| - 1] == s + seq(n - 1, _ => ' ');
      StripRightSpaces(s, n - 1);
    }
  }

  lemma StripLeftNoEdgeSpace(s: string, n: nat)
    requires NoEdgeSpace(s) && |s| > 0
    ensures StripLeft(s + seq(n, _ => ' ')) == s + seq(n, _ => ' ')
  {
    assert (s + seq(n, _ => ' '))[0] == s[0];
  }

  /**
   * A unit suffix is dropped with the spaces in front of it: a header `name (unit)` with any
   * number of spaces before the `(` is cleaned to `name`, with no trailing underscore.
   */
  lemma UnitSuffixIgnored(name: string, spaces: nat, unit: string)
    requires |name| > 0 && '(' !in name && ' ' !in name && NoEdgeSpace(name)
    ensures CleanName(name + seq(spaces, _ => ' ') + "(" + unit) == name
  {
    var padded := name + seq(spaces, _ => ' ');
    assert '(' !in padded by {
      forall i | 0 <= i < |padded| ensures padded[i] != '(' {
        if i < |name| { assert padded[i] == name[i]; }
      }
    }
    BeforeParenAppend(padded, unit);
    StripLeftNoEdgeSpace(name, spaces);
    StripRightSpaces(name, spaces);
    ReplaceSpacesNoSpace(name);
  }

  /** The maximum-temperature header of an Open-Meteo export loses its unit. */
  lemma TemperatureHeader()
    ensures CleanName("temperature_2m_max (°C)") == "temperature_2m_max"
  {
    var t := "temperature_2m_max";
    assert t + seq(1, _ => ' ') + "(" + "°C)" == "temperature_2m_max (°C)";
    UnitSuffixIgnored(t, 1, "°C)");
  }

  /** The rain header loses its unit with no trailing underscore. */
  lemma RainHeader()
    ensures CleanName("rain_sum (mm)") == "rain_sum"
  {
    var r := "rain_sum";
    assert r + seq(1, _ => ' ') + "(" + "mm)" == "rain_sum (mm)";
    UnitSuffixIgnored(r, 1, "mm)");
  }

  // ---------------------------------------------------------------------------
  // City from file name

  /** The text after the last `/`, the whole path when there is none. */
  function AfterLastSlash(p: string): (r: string)
    ensures '/' !in r
    ensures |r| <= |p| && r == p[|p| - |r|..]
    ensures |r| < |p| ==> p[|p| - |r| - 1] == '/'
  {
    if p == [] || p[|p| - 1] == '/' then [] else AfterLastSlash(p[..|p| - 1]) + [p[|p| - 1]]
  }

  /**
   * `PurePosixPath(p).name`: the last path component, where trailing slashes and `.` components
   * do not count; the empty string for `""`, `"/"` or `"."`.
   */
  function FileName(p: string): (r: string)
    ensures '/' !in r
    decreases |p|
  {
    if p == [] then []
    else if p[|p| - 1] == '/' then FileName(p[..|p| - 1])
    else
      var segment := AfterLastSlash(p);
      if segment == "." then FileName(p[..|p| - 1]) else segment
  }

  /** The index of the last `.` in `s`, -1 when there is none (`str.rfind(".")`). */
  function LastDot(s: string): (i: int)
    ensures -1 <= i < |s|
    ensures 0 <= i ==> s[i] == '.'
    ensures forall j :: i < j < |s| ==> s[j] != '.'
  {
    if s == [] then -1 else if s[|s| - 1] == '.' then |s| - 1 else LastDot(s[..|s| - 1])
  }

  /** `PurePath.stem`: the name without its last suffix; a leading or trailing dot is no suffix. */
  function Stem(name: string): (r: string)
    ensures r <= name
  {
    var i := LastDot(name);
    if 0 < i < |name| - 1 then name[..i] else name
  }

  /** ASCII `str.lower()`. */
  function Lower(s: string): string {
    seq(|s|, i requires 0 <= i < |s| => if 'A' <= s[i] <= 'Z' then (s[i] - 'A' + 'a') as char else s[i])
  }

  /** `Path(filepath).stem.lower()`. */
  function CityFromFilename(filepath: string): string {
    Lower(Stem(FileName(filepath)))
  }

  // ---------------------------------------------------------------------------
  // Properties of the city name

  /** The city holds no `/` and no upper-case ASCII letter. */
  lemma CityIsLowerSegment(filepath: string)
    ensures '/' !in CityFromFilename(filepath)
    ensures forall i :: 0 <= i < |CityFromFilename(filepath)| ==> !('A' <= CityFromFilename(filepath)[i] <= 'Z')
  {
    var n := FileName(filepath);
    var s := Stem(n);
    var c := Lower(s);
    assert forall i :: 0 <= i < |c| ==> c[i] != '/' by {
      assert forall i :: 0 <= i < |s| ==> s[i] == n[i];
    }
  }

  /** Lower-casing twice is lower-casing once. */
  lemma LowerIdempotent(s: string)
    ensures Lower(Lower(s)) == Lower(s)
  {
  }

  lemma AfterLastSlashOfJoin(dir: string, file: string)
    requires dir == [] || dir[|dir| - 1] == '/'
    requires '/' !in file
    ensures AfterLastSlash(dir + file) == file
  {
    var p := dir + file;
    var r := AfterLastSlash(p);
    assert p[|dir|..] == file;
  }

  lemma FileNameOfJoin(dir: string, file: string)
    requires dir == [] || dir[|dir| - 1] == '/'
    requires |file| > 0 && '/' !in file && file != "."
    ensures FileName(dir + file) == file
  {
    AfterLastSlashOfJoin(dir, file);
    assert (dir + file)[|dir + file| - 1] == file[|file| - 1];
  }

  lemma StemOfBaseExt(base: string, ext: string)
    requires |base| > 0 && |ext| > 0 && '.' !in ext
    ensures Stem(base + "." + ext) == base
  {
    var file := base + "." + ext;
    var i := LastDot(file);
    assert file[|base|] == '.';
    assert i == |base|;
    assert file[..|base|] == base;
  }

  /**
   * A file `base.ext` in any directory: the city is the lower-cased base name, whatever the
   * directory and the extension.
   */
  lemma CityOfDataFile(dir: string, base: string, ext: string)
    requires dir == [] || dir[|dir| - 1] == '/'
    requires |base| > 0 && '/' !in base
    requires |ext| > 0 && '/' !in ext && '.' !in ext
    ensures CityFromFilename(dir + base + "." + ext) == Lower(base)
  {
    var file := base + "." + ext;
    assert forall i :: 0 <= i < |base| ==> file[i] == base[i];
    assert forall i :: |base| < i < |file| ==> file[i] == ext[i - |base| - 1];
    assert file[|file| - 1] == ext[|ext| - 1];
    assert dir + base + "." + ext == dir + file;
    FileNameOfJoin(dir, file);
    StemOfBaseExt(base, ext);
  }

  /** The sample file of the extract tests: `…/test_city.csv` yields `test_city`. */
  lemma TestCityFile()
    ensures CityFromFilename("/tmp/pytest-0/test_city.csv") == "test_city"
  {
    var dir, base, ext := "/tmp/pytest-0/", "test_city", "csv";
    assert '/' !in base;
    assert '.' !in ext && '/' !in ext;
    LowerNoCapitals(base);
    assert dir[|dir| - 1] == '/';
    assert "/tmp/pytest-0/test_city.csv" == dir + base + "." + ext;
    CityOfDataFile(dir, base, ext);
  }

  /** Only the last suffix goes, and case is folded. */
  lemma OnlyLastSuffixDropped()
    ensures CityFromFilename("data/Berlin.tar.gz") == "berlin.tar"
  {
    var dir, base, ext := "data/", "Berlin.tar", "gz";
    assert '/' !in base;
    assert '.' !in ext && '/' !in ext;
    assert Lower(base) == "berlin.tar";
    assert dir[|dir| - 1] == '/';
    assert "data/Berlin.tar.gz" == dir + base + "." + ext;
    CityOfDataFile(dir, base, ext);
  }

  lemma StemOfDotFile(name: string)
    requires |name| > 0 && name[0] == '.'
    requires forall j :: 0 < j < |name| ==> name[j] != '.'
    ensures Stem(name) == name
  {
    assert LastDot(name) == 0;
  }

  lemma LowerNoCapitals(s: string)
    requires forall i :: 0 <= i < |s| ==> !('A' <= s[i] <= 'Z')
    ensures Lower(s) == s
  {
  }

  /** A leading dot is not a suffix: a dot file keeps its whole name. */
  lemma DotFileKeepsName(name: string)
    requires |name| > 1 && name[0] == '.' && '/' !in name
    requires forall j :: 0 < j < |name| ==> name[j] != '.' && !('A' <= name[j] <= 'Z')
    ensures CityFromFilename(name) == name
  {
    assert [] + name == name;
    FileNameOfJoin([], name);
    assert FileName(name) == name;
    StemOfDotFile(name);
    LowerNoCapitals(name);
  }

  lemma HiddenFileKeepsName()
    ensures CityFromFilename(".hidden") == ".hidden"
  {
    var name := ".hidden";
    assert '/' !in name;
    assert forall j :: 0 < j < |name| ==> name[j] != '.' && !('A' <= name[j] <= 'Z');
    DotFileKeepsName(name);
  }

  /** Trailing slashes do not count: `raw/paris.csv/` names the same city as `raw/paris.csv`. */
  lemma TrailingSlashIgnored(p: string)
    ensures CityFromFilename(p + "/") == CityFromFilename(p)
  {
    assert (p + "/")[..|p + "/"| - 1] == p;
  }
}
