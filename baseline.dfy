// baseline: for one header column, the share of CSV files in a directory in
// which each value occurs at least once, listed from the most to the least
// common.
module Baseline {
  import opened Tabular
  import opened Folds
  import opened Sorting

  // ---------------------------------------------------------------------------
  // The .csv filter of compareFiles

  /** The file name ends in ".csv" (case-sensitive). */
  predicate IsCsvName(name: string)
  {
    |name| >= 4 && name[|name| - 4..] == ".csv"
  }

  /** The suffix test accepts exactly the names made of some stem and ".csv". */
  lemma IsCsvNameStem(name: string)
    ensures IsCsvName(name) <==> exists stem :: name == stem + ".csv"
  {
    if IsCsvName(name) {
      assert name == name[..|name| - 4] + ".csv";
    }
    if exists stem :: name == stem + ".csv" {
      var stem :| name == stem + ".csv";
      assert name[|name| - 4..] == ".csv";
    }
  }

  // ---------------------------------------------------------------------------
  // getHeaderFromCSV

  /** Why getHeaderFromCSV gives no value set. */
  datatype HeaderError = EmptyFile | HeaderNotFound

  /** The values in column `idx` of the rows long enough to have one. */
  function ColumnValues(rows: seq<Row>, idx: nat): set<string>
  {
    set r | r in rows && idx < |r| :: r[idx]
  }

  /** The outcome getHeaderFromCSV specifies. */
  function HeaderResult(records: seq<Row>, header: string): Result<set<string>, HeaderError>
  {
    if |records| == 0 then Err(EmptyFile)
    else if header !in records[0] then Err(HeaderNotFound)
    else Ok(ColumnValues(records[1..], IndexOf(records[0], header)))
  }

  /** getHeaderFromCSV: an error for a file without records or without the
      header, otherwise the set of values in the header's column, rows too
      short for it skipped. */
  method GetHeaderFromCSV(records: seq<Row>, header: string) returns (r: Result<set<string>, HeaderError>)
    ensures |records| == 0 ==> r == Err(EmptyFile)
    ensures |records| > 0 && header !in records[0] ==> r == Err(HeaderNotFound)
    ensures |records| > 0 && header in records[0] ==>
      r.Ok? && forall v :: v in r.value <==>
        exists i :: 1 <= i < |records| && IndexOf(records[0], header) < |records[i]|
          && records[i][IndexOf(records[0], header)] == v
    ensures r == HeaderResult(records, header)
  {
    if |records| < 1 {
      return Err(EmptyFile);
    }
    var headerIndex := FindHeaderIndex(records[0], header);
    if headerIndex == -1 {
      return Err(HeaderNotFound);
    }
    var rows := records[1..];
    var thePaths: set<string> := {};
    var i := 0;
    while i < |rows|
      invariant 0 <= i <= |rows|
      invariant thePaths == ColumnValues(rows[..i], headerIndex)
    {
      ColumnValuesStep(rows, headerIndex, i);
      if |rows[i]| > headerIndex {
        thePaths := thePaths + {rows[i][headerIndex]};
      }
      i := i + 1;
    }
    assert rows[..i] == rows;
    r := Ok(thePaths);
    ColumnValuesIndex(records, headerIndex);
  }

  lemma ColumnValuesStep(rows: seq<Row>, idx: nat, i: nat)
    requires i < |rows|
    ensures ColumnValues(rows[..i + 1], idx)
            == ColumnValues(rows[..i], idx) + (if idx < |rows[i]| then {rows[i][idx]} else {})
  {
    assert rows[..i + 1] == rows[..i] + [rows[i]];
  }

  lemma ColumnValuesIndex(records: seq<Row>, idx: nat)
    requires |records| > 0
    ensures forall v :: v in ColumnValues(records[1..], idx) <==>
      exists i :: 1 <= i < |records| && idx < |records[i]| && records[i][idx] == v
  {
    forall v ensures v in ColumnValues(records[1..], idx) <==>
      exists i :: 1 <= i < |records| && idx < |records[i]| && records[i][idx] == v
    {
      if v in ColumnValues(records[1..], idx) {
        var r :| r in records[1..] && idx < |r| && r[idx] == v;
        var k :| 0 <= k < |records[1..]| && records[1..][k] == r;
        assert records[k + 1] == r;
      }
      if exists i :: 1 <= i < |records| && idx < |records[i]| && records[i][idx] == v {
        var i :| 1 <= i < |records| && idx < |records[i]| && records[i][idx] == v;
        assert records[1..][i - 1] == records[i];
      }
    }
  }

  // ---------------------------------------------------------------------------
  // compareFiles: counting

  /** One directory entry: its name and what reading it as CSV yields. */
  datatype DirEntry = DirEntry(name: string, content: FileInput)

  /** The entry is counted: a .csv name, readable and parsable, and with
      records containing the header. */
  predicate Accepted(e: DirEntry, header: string)
  {
    IsCsvName(e.name) && e.content.Parsed? && HeaderResult(e.content.records, header).Ok?
  }

  /** The value sets of the counted entries, in directory order. */
  function ValueSets(entries: seq<DirEntry>, header: string): seq<set<string>>
    decreases |entries|
  {
    if entries == [] then []
    else
      var e := entries[|entries| - 1];
      ValueSets(entries[..|entries| - 1], header)
        + (if Accepted(e, header) then [HeaderResult(e.content.records, header).value] else [])
  }

  /** One more counted file: every value in its set counts once more. */
  function AddSet(m: map<string, nat>, s: set<string>): map<string, nat>
  {
    map k | k in m.Keys + s :: CountOf(m, k) + (if k in s then 1 else 0)
  }

  /** The counts after all counted files. */
  function Occurrences(sets: seq<set<string>>): map<string, nat>
    decreases |sets|
  {
    if sets == [] then map[]
    else AddSet(Occurrences(sets[..|sets| - 1]), sets[|sets| - 1])
  }

  /** The number of sets that contain `p`. */
  function FilesWith(sets: seq<set<string>>, p: string): nat
    decreases |sets|
  {
    if sets == [] then 0
    else (if p in sets[0] then 1 else 0) + FilesWith(sets[1..], p)
  }

  lemma {:induction false} FilesWithLast(sets: seq<set<string>>, p: string)
    requires sets != []
    ensures FilesWith(sets, p) == FilesWith(sets[..|sets| - 1], p) + (if p in sets[|sets| - 1] then 1 else 0)
    decreases |sets|
  {
    if |sets| > 1 {
      FilesWithLast(sets[1..], p);
      assert sets[1..][..|sets| - 2] == sets[..|sets| - 1][1..];
    }
  }

  /** No more files contain `p` than there are files. */
  lemma {:induction false} FilesWithBound(sets: seq<set<string>>, p: string)
    ensures FilesWith(sets, p) <= |sets|
    decreases |sets|
  {
    if sets != [] {
      FilesWithBound(sets[1..], p);
    }
  }

  /** Each value is counted once per file whose set holds it, and has an entry
      exactly when some file holds it. */
  lemma {:induction false} OccurrencesCount(sets: seq<set<string>>, p: string)
    ensures CountOf(Occurrences(sets), p) == FilesWith(sets, p)
    ensures p in Occurrences(sets) <==> exists i :: 0 <= i < |sets| && p in sets[i]
    decreases |sets|
  {
    if sets != [] {
      var init := sets[..|sets| - 1];
      OccurrencesCount(init, p);
      FilesWithLast(sets, p);
      if p in Occurrences(sets) && p !in sets[|sets| - 1] {
        var i :| 0 <= i < |init| && p in init[i];
        assert sets[i] == init[i];
      }
      if exists i :: 0 <= i < |sets| && p in sets[i] {
        var i :| 0 <= i < |sets| && p in sets[i];
        if i < |sets| - 1 {
          assert init[i] == sets[i];
        }
      }
    }
  }

  /** Every counted value occurs in at least one and at most all files. */
  lemma OccurrencesBounds(sets: seq<set<string>>)
    ensures forall p :: p in Occurrences(sets) ==> 0 < Occurrences(sets)[p] <= |sets|
  {
    forall p | p in Occurrences(sets) ensures 0 < Occurrences(sets)[p] <= |sets| {
      OccurrencesCount(sets, p);
      FilesWithBound(sets, p);
      var i :| 0 <= i < |sets| && p in sets[i];
      FilesWithPositive(sets, p, i);
    }
  }

  lemma {:induction false} FilesWithPositive(sets: seq<set<string>>, p: string, i: nat)
    requires i < |sets| && p in sets[i]
    ensures FilesWith(sets, p) > 0
    decreases |sets|
  {
    if i > 0 {
      FilesWithPositive(sets[1..], p, i - 1);
    }
  }

  /** The inner loop of compareFiles: one more for every value of a file. */
  method AddPaths(counts: map<string, nat>, thePaths: set<string>) returns (r: map<string, nat>)
    ensures r == AddSet(counts, thePaths)
  {
    r := counts;
    var rest := thePaths;
    AddSetNothing(counts, thePaths);
    while rest != {}
      invariant rest <= thePaths
      invariant r == AddSet(counts, thePaths - rest)
      decreases |rest|
    {
      var path :| path in rest;
      AddSetStep(counts, thePaths, rest, path);
      r := r[path := CountOf(r, path) + 1];
      rest := rest - {path};
    }
    AddSetEverything(counts, thePaths, rest);
  }

  lemma AddSetNothing(counts: map<string, nat>, s: set<string>)
    ensures AddSet(counts, s - s) == counts
  {
    assert s - s == {};
  }

  lemma AddSetEverything(counts: map<string, nat>, s: set<string>, rest: set<string>)
    requires rest == {}
    ensures AddSet(counts, s - rest) == AddSet(counts, s)
  {
    assert s - rest == s;
  }

  lemma AddSetStep(counts: map<string, nat>, s: set<string>, rest: set<string>, p: string)
    requires p in rest && rest <= s
    ensures var x := AddSet(counts, s - rest);
            AddSet(counts, s - (rest - {p})) == x[p := CountOf(x, p) + 1]
  {
    var x := AddSet(counts, s - rest);
    var a, b := AddSet(counts, s - (rest - {p})), x[p := CountOf(x, p) + 1];
    forall k | k in a ensures k in b && a[k] == b[k] {
    }
    assert a.Keys == b.Keys;
  }

  /** One more entry adds its value set when it is counted. */
  lemma NextEntry(entries: seq<DirEntry>, header: string, i: nat)
    requires i < |entries|
    ensures var e := entries[i];
      Accepted(e, header) ==>
        ValueSets(entries[..i + 1], header)
          == ValueSets(entries[..i], header) + [HeaderResult(e.content.records, header).value]
    ensures !Accepted(entries[i], header) ==>
      ValueSets(entries[..i + 1], header) == ValueSets(entries[..i], header)
  {
    assert entries[..i + 1][..i] == entries[..i];
    var vs := ValueSets(entries[..i], header);
    assert vs + [] == vs;
  }

  lemma OccurrencesAppend(sets: seq<set<string>>, s: set<string>)
    ensures Occurrences(sets + [s]) == AddSet(Occurrences(sets), s)
  {
    assert (sets + [s])[..|sets|] == sets;
  }

  /** The file loop of compareFiles: skip names without the suffix, files
      that cannot be read and files without the header; count every other
      file and each value in it. */
  method CountFiles(entries: seq<DirEntry>, header: string)
    returns (headerCounts: map<string, nat>, totalFiles: nat)
    ensures totalFiles == |ValueSets(entries, header)|
    ensures headerCounts == Occurrences(ValueSets(entries, header))
  {
    headerCounts, totalFiles := map[], 0;
    var i := 0;
    while i < |entries|
      invariant 0 <= i <= |entries|
      invariant totalFiles == |ValueSets(entries[..i], header)|
      invariant headerCounts == Occurrences(ValueSets(entries[..i], header))
    {
      NextEntry(entries, header, i);
      var file := entries[i];
      i := i + 1;
      if !IsCsvName(file.name) {
        continue;
      }
      if !file.content.Parsed? {
        continue;
      }
      var thePaths := GetHeaderFromCSV(file.content.records, header);
      if thePaths.Err? {
        continue;
      }
      totalFiles := totalFiles + 1;
      headerCounts := AddPaths(headerCounts, thePaths.value);
      OccurrencesAppend(ValueSets(entries[..i - 1], header), thePaths.value);
    }
    assert entries[..i] == entries;
  }

  // ---------------------------------------------------------------------------
  // compareFiles: averages and order

  /** One result line: a value and the share of counted files holding it. The
      Go code formats the share with %.2f. */
  datatype PathAvg = PathAvg(path: string, avg: real)

  /** `x` is the line for one counted value. */
  ghost predicate IsAverage(counts: map<string, nat>, totalFiles: nat, x: PathAvg)
  {
    x.path in counts && totalFiles > 0 && x.avg == counts[x.path] as real / totalFiles as real
  }

  /** The averaging loop of compareFiles. A value is counted only in a counted
      file, so there is no division by zero. */
  method Averages(headerCounts: map<string, nat>, totalFiles: nat) returns (headerAvgs: seq<PathAvg>)
    requires headerCounts != map[] ==> totalFiles > 0
    ensures forall x :: x in headerAvgs <==> IsAverage(headerCounts, totalFiles, x)
    ensures NoDuplicates(headerAvgs)
  {
    headerAvgs := [];
    var keys := headerCounts.Keys;
    while keys != {}
      invariant keys <= headerCounts.Keys
      invariant forall x :: x in headerAvgs <==> x.path !in keys && IsAverage(headerCounts, totalFiles, x)
      invariant NoDuplicates(headerAvgs)
      decreases |keys|
    {
      var h :| h in keys;
      var average := headerCounts[h] as real / totalFiles as real;
      var x := PathAvg(h, average);
      assert x !in headerAvgs;
      headerAvgs := headerAvgs + [x];
      keys := keys - {h};
    }
  }

  /** Lines with the same value are the same line. */
  lemma DistinctPaths(counts: map<string, nat>, totalFiles: nat, s: seq<PathAvg>)
    requires forall x :: x in s ==> IsAverage(counts, totalFiles, x)
    requires NoDuplicates(s)
    ensures forall i, j :: 0 <= i < j < |s| ==> s[i].path != s[j].path
  {
    forall i, j | 0 <= i < j < |s| ensures s[i].path != s[j].path {
      if s[i].path == s[j].path {
        assert IsAverage(counts, totalFiles, s[i]) && IsAverage(counts, totalFiles, s[j]);
        TwiceIsDuplicate(s, i, j);
      }
    }
  }

  function AvgGe(x: PathAvg, y: PathAvg): bool
  {
    x.avg >= y.avg
  }

  /** Every share lies in (0, 1]. */
  lemma ShareBounds(c: nat, t: nat)
    requires 0 < c <= t
    ensures 0.0 < c as real / t as real <= 1.0
  {
    var q := c as real / t as real;
    assert q * t as real == c as real;
  }

  /** With the number of files fixed, ordering by share is ordering by count. */
  lemma ShareOrder(c1: nat, c2: nat, t: nat)
    requires t > 0
    ensures c1 as real / t as real >= c2 as real / t as real <==> c1 >= c2
  {
    var q1, q2 := c1 as real / t as real, c2 as real / t as real;
    assert q1 * t as real == c1 as real && q2 * t as real == c2 as real;
    if q1 >= q2 {
      assert q1 * t as real >= q2 * t as real;
    }
  }

  /** compareFiles: one line per value found in a counted file, giving the
      share of counted files that hold it, no value twice, shares descending. */
  method CompareFiles(entries: seq<DirEntry>, header: string) returns (results: seq<PathAvg>)
    ensures forall x :: x in results <==>
      IsAverage(Occurrences(ValueSets(entries, header)), |ValueSets(entries, header)|, x)
    ensures forall i, j :: 0 <= i < j < |results| ==> results[i].path != results[j].path
    ensures forall i, j :: 0 <= i < j < |results| ==> results[i].avg >= results[j].avg
    ensures forall x :: x in results ==> 0.0 < x.avg <= 1.0
  {
    var headerCounts, totalFiles := CountFiles(entries, header);
    ghost var sets := ValueSets(entries, header);
    OccurrencesBounds(sets);
    var headerAvgs := Averages(headerCounts, totalFiles);
    var a := new PathAvg[|headerAvgs|](i requires 0 <= i < |headerAvgs| => headerAvgs[i]);
    assert a[..] == headerAvgs;
    SortBy(a, AvgGe);
    results := a[..];
    assert forall x :: x in results <==> x in multiset(headerAvgs);
    DistinctPaths(headerCounts, totalFiles, results);
    forall x | x in results ensures 0.0 < x.avg <= 1.0 {
      ShareBounds(headerCounts[x.path], totalFiles);
    }
  }
}
