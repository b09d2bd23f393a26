// meeb: for one header column, count how often each value occurs across all
// files, then report the values whose share of all entries is rare, one line
// per value: its count, its score and the value itself.
module Meeb {
  import opened Tabular
  import opened Folds
  import opened Sorting

  /** Occurrences of each value of the header column. */
  type Counts = map<string, nat>

  // ---------------------------------------------------------------------------
  // processFile

  /** The counts after seeing `vals` one after another, each one adding 1 to
      its own entry. */
  function Tally(vals: seq<string>): Counts
    decreases |vals|
  {
    if vals == [] then map[]
    else
      var m := Tally(vals[..|vals| - 1]);
      var v := vals[|vals| - 1];
      m[v := CountOf(m, v) + 1]
  }

  /** The column at `idx` of every row; the Go code indexes each data row
      without a length check, so every row must be long enough. */
  function Column(rows: seq<Row>, idx: nat): (c: seq<string>)
    requires forall r :: r in rows ==> idx < |r|
    ensures |c| == |rows|
    ensures forall i :: 0 <= i < |rows| ==> c[i] == rows[i][idx]
  {
    seq(|rows|, i requires 0 <= i < |rows| => rows[i][idx])
  }

  /** The header is present in a parsed file. */
  predicate HasHeader(input: FileInput, header: string)
  {
    input.Parsed? && |input.records| > 0 && IndexOf(input.records[0], header) >= 0
  }

  /** What processFile needs to run without a run-time panic: a parsed file
      has a header row and, when the header is found, every data row reaches
      its column. */
  ghost predicate Processable(input: FileInput, header: string)
  {
    input.Parsed? ==>
      |input.records| > 0 &&
      (HasHeader(input, header) ==>
        forall r :: r in input.records[1..] ==> IndexOf(input.records[0], header) < |r|)
  }

  /** The values one file contributes: the header column of its data rows, or
      nothing when the file cannot be opened or read or lacks the header. */
  function FileValues(input: FileInput, header: string): seq<string>
    requires Processable(input, header)
  {
    if HasHeader(input, header) then
      Column(input.records[1..], IndexOf(input.records[0], header))
    else []
  }

  /** processFile: the value counts and the number of data rows of one file;
      an empty map and 0 on every failure. */
  method ProcessFile(input: FileInput, header: string) returns (data: Counts, count: nat)
    requires Processable(input, header)
    ensures !HasHeader(input, header) ==> data == map[] && count == 0
    ensures data == Tally(FileValues(input, header))
    ensures count == |FileValues(input, header)|
  {
    if !input.Parsed? {
      return map[], 0;
    }
    var records := input.records;
    var headerIndex := FindHeaderIndex(records[0], header);
    if headerIndex == -1 {
      return map[], 0;
    }
    data, count := CountColumn(records[1..], headerIndex);
  }

  /** The counting loop of processFile: one more for the value of each data
      row, and one more row. */
  method CountColumn(rows: seq<Row>, headerIndex: nat) returns (data: Counts, count: nat)
    requires forall r :: r in rows ==> headerIndex < |r|
    ensures data == Tally(Column(rows, headerIndex))
    ensures count == |rows|
  {
    ghost var vals := Column(rows, headerIndex);
    data, count := map[], 0;
    var i := 0;
    while i < |rows|
      invariant 0 <= i <= |rows|
      invariant data == Tally(vals[..i])
      invariant count == i
    {
      assert vals[..i + 1][..i] == vals[..i];
      var value := rows[i][headerIndex];
      data := data[value := CountOf(data, value) + 1];
      count := count + 1;
      i := i + 1;
    }
    assert vals[..i] == vals;
  }

  // ---------------------------------------------------------------------------
  // Properties of the counts

  /** Each value is counted exactly as often as it occurs, and only values that
      occur have an entry. */
  lemma {:induction false} TallyCount(vals: seq<string>, v: string)
    ensures CountOf(Tally(vals), v) == multiset(vals)[v]
    ensures v in Tally(vals) <==> v in vals
    decreases |vals|
  {
    if vals != [] {
      var init := vals[..|vals| - 1];
      TallyCount(init, v);
      assert vals == init + [vals[|vals| - 1]];
    }
  }

  /** The counts add up to the number of values. */
  lemma {:induction false} TallySum(vals: seq<string>)
    ensures Sum(Tally(vals)) == |vals|
    decreases |vals|
  {
    if vals == [] {
      assert Tally(vals) == map[];
    } else {
      var m := Tally(vals[..|vals| - 1]);
      var v := vals[|vals| - 1];
      TallySum(vals[..|vals| - 1]);
      SumUpdate(m, v, CountOf(m, v) + 1);
    }
  }

  /** The counts depend only on which values occur how often, not on their
      order: the order in which workers deliver their files is irrelevant. */
  lemma TallyPermutation(a: seq<string>, b: seq<string>)
    requires multiset(a) == multiset(b)
    ensures Tally(a) == Tally(b)
  {
    forall v ensures CountOf(Tally(a), v) == CountOf(Tally(b), v) && (v in Tally(a) <==> v in Tally(b)) {
      TallyCount(a, v);
      TallyCount(b, v);
      assert v in a <==> multiset(a)[v] > 0;
      assert v in b <==> multiset(b)[v] > 0;
    }
    assert Tally(a).Keys == Tally(b).Keys;
  }

  /** Adding the counts of two runs gives the counts of both together. */
  lemma TallyAppend(a: seq<string>, b: seq<string>)
    ensures AddCounts(Tally(a), Tally(b)) == Tally(a + b)
  {
    var l, r := AddCounts(Tally(a), Tally(b)), Tally(a + b);
    forall v ensures (v in l <==> v in r) && CountOf(l, v) == CountOf(r, v) {
      TallyCount(a, v);
      TallyCount(b, v);
      TallyCount(a + b, v);
      assert multiset(a + b) == multiset(a) + multiset(b);
    }
    assert l.Keys == r.Keys;
    forall v | v in l ensures l[v] == r[v] {
      assert CountOf(l, v) == CountOf(r, v);
    }
  }

  /** Every counted value occurs at least once and at most as often as there
      are values. */
  lemma TallyBounds(vals: seq<string>, v: string)
    requires v in Tally(vals)
    ensures 0 < Tally(vals)[v] <= |vals|
  {
    TallyCount(vals, v);
    assert multiset(vals)[v] <= |multiset(vals)|;
  }

  /** The counts add up to the number of values, and each lies between 1 and it. */
  lemma TallyTotals(vals: seq<string>)
    ensures Sum(Tally(vals)) == |vals|
    ensures forall v :: v in Tally(vals) ==> 0 < Tally(vals)[v] <= |vals|
  {
    TallySum(vals);
    forall v | v in Tally(vals) ensures 0 < Tally(vals)[v] <= |vals| {
      TallyBounds(vals, v);
    }
  }

  // ---------------------------------------------------------------------------
  // aggregateData

  /** All values of all files, in the order the files are delivered. */
  /** Every file of the list can be processed. */
  ghost predicate AllProcessable(inputs: seq<FileInput>, header: string)
  {
    forall i :: 0 <= i < |inputs| ==> Processable(inputs[i], header)
  }

  function AllValues(inputs: seq<FileInput>, header: string): seq<string>
    requires AllProcessable(inputs, header)
    decreases |inputs|
  {
    if inputs == [] then []
    else
      assert Processable(inputs[|inputs| - 1], header);
      AllValues(inputs[..|inputs| - 1], header) + FileValues(inputs[|inputs| - 1], header)
  }

  /** The per-file maps, in the order the files are delivered. */
  function FileTallies(inputs: seq<FileInput>, header: string): (ps: seq<Counts>)
    requires forall i :: 0 <= i < |inputs| ==> Processable(inputs[i], header)
    ensures |ps| == |inputs|
    decreases |inputs|
  {
    if inputs == [] then []
    else
      assert Processable(inputs[|inputs| - 1], header);
      FileTallies(inputs[..|inputs| - 1], header) + [Tally(FileValues(inputs[|inputs| - 1], header))]
  }

  /** The values of two lists of files, one after the other, are the values of
      the first list followed by those of the second. */
  lemma {:induction false} AllValuesAppend(a: seq<FileInput>, b: seq<FileInput>, header: string)
    requires AllProcessable(a, header) && AllProcessable(b, header)
    ensures AllProcessable(a + b, header)
    ensures AllValues(a + b, header) == AllValues(a, header) + AllValues(b, header)
    decreases |b|
  {
    if b == [] {
      assert a + b == a;
    } else {
      AllValuesAppend(a, b[..|b| - 1], header);
      AllValuesAppendStep(a, b, header);
    }
  }

  /** The inductive step of AllValuesAppend: appending one more file. */
  lemma AllValuesAppendStep(a: seq<FileInput>, b: seq<FileInput>, header: string)
    requires b != []
    requires AllProcessable(a, header) && AllProcessable(b, header)
    requires AllProcessable(b[..|b| - 1], header) && AllProcessable(a + b[..|b| - 1], header)
    requires AllValues(a + b[..|b| - 1], header) == AllValues(a, header) + AllValues(b[..|b| - 1], header)
    ensures AllProcessable(a + b, header)
    ensures AllValues(a + b, header) == AllValues(a, header) + AllValues(b, header)
  {
    var init, last := b[..|b| - 1], b[|b| - 1];
    assert (a + b)[..|a + b| - 1] == a + init;
    assert (a + b)[|a + b| - 1] == last;
    AllValuesLast(a + b, header);
    AllValuesLast(b, header);
    ConcatAssoc(AllValues(a, header), AllValues(init, header), FileValues(last, header));
  }

  /** One step of the definition: the last file's values come last. */
  lemma AllValuesLast(s: seq<FileInput>, header: string)
    requires s != [] && AllProcessable(s, header)
    ensures AllProcessable(s[..|s| - 1], header) && Processable(s[|s| - 1], header)
    ensures AllValues(s, header) == AllValues(s[..|s| - 1], header) + FileValues(s[|s| - 1], header)
  {
  }

  /** Concatenation of sequences is associative. */
  lemma ConcatAssoc<T>(x: seq<T>, y: seq<T>, z: seq<T>)
    ensures (x + y) + z == x + (y + z)
  {
  }

  /** Taking the file at `j` out of the list takes its values out of the bag
      of all values. */
  lemma AllValuesRemove(qs: seq<FileInput>, j: nat, header: string)
    requires AllProcessable(qs, header)
    requires j < |qs|
    ensures AllProcessable(qs[..j] + qs[j + 1..], header)
    ensures multiset(AllValues(qs, header))
         == multiset(AllValues(qs[..j] + qs[j + 1..], header)) + multiset(FileValues(qs[j], header))
  {
    var a, b := qs[..j], qs[j + 1..];
    assert qs == a + ([qs[j]] + b);
    AllValuesAppend(a, [qs[j]] + b, header);
    AllValuesAppend([qs[j]], b, header);
    AllValuesAppend(a, b, header);
    assert [qs[j]][..0] == [];
  }

  /** Files delivered in another order give the same bag of values. */
  lemma {:induction false} AllValuesPermutation(ps: seq<FileInput>, qs: seq<FileInput>, header: string)
    requires multiset(ps) == multiset(qs)
    requires AllProcessable(ps, header) && AllProcessable(qs, header)
    ensures multiset(AllValues(ps, header)) == multiset(AllValues(qs, header))
    decreases |ps|
  {
    if ps == [] {
      assert |qs| == |multiset(qs)| == 0;
    } else {
      assert ps[0] in multiset(qs);
      var j :| 0 <= j < |qs| && qs[j] == ps[0];
      BagRemove(ps, qs, j);
      AllValuesRemove(qs, j, header);
      AllValuesRemove(ps, 0, header);
      assert ps[..0] + ps[1..] == ps[1..];
      AllValuesPermutation(ps[1..], qs[..j] + qs[j + 1..], header);
    }
  }

  /** A reordering of processable files holds only processable files. */
  lemma ReorderedProcessable(inputs: seq<FileInput>, delivered: seq<FileInput>, header: string)
    requires multiset(delivered) == multiset(inputs)
    requires AllProcessable(inputs, header)
    ensures AllProcessable(delivered, header)
  {
    forall i | 0 <= i < |delivered| ensures Processable(delivered[i], header) {
      assert delivered[i] in multiset(inputs);
    }
  }

  /** The workers may deliver the files' maps in any order: every order gives
      aggregateData the same counts and the same total as the input order that
      AggregateData follows. */
  lemma DeliveryOrder(inputs: seq<FileInput>, delivered: seq<FileInput>, header: string)
    requires multiset(delivered) == multiset(inputs)
    requires forall i :: 0 <= i < |inputs| ==> Processable(inputs[i], header)
    ensures forall i :: 0 <= i < |delivered| ==> Processable(delivered[i], header)
    ensures Tally(AllValues(delivered, header)) == Tally(AllValues(inputs, header))
    ensures |AllValues(delivered, header)| == |AllValues(inputs, header)|
  {
    ReorderedProcessable(inputs, delivered, header);
    var vd, vi := AllValues(delivered, header), AllValues(inputs, header);
    AllValuesPermutation(inputs, delivered, header);
    TallyPermutation(vd, vi);
    assert |vd| == |multiset(vd)| == |multiset(vi)| == |vi|;
  }

  /** The aggregate after adding up the per-file maps in the order they arrive. */
  function MergeAll(ps: seq<Counts>): Counts
    decreases |ps|
  {
    if ps == [] then map[]
    else AddCounts(MergeAll(ps[..|ps| - 1]), ps[|ps| - 1])
  }

  /** The merge loop of aggregateData for one per-file map: each count is
      added to the aggregate's count for the same value. */
  method MergeInto(aggregated: Counts, data: Counts) returns (r: Counts)
    ensures r == AddCounts(aggregated, data)
  {
    r := aggregated;
    var keys := data.Keys;
    AddNothing(aggregated, data);
    while keys != {}
      invariant keys <= data.Keys
      invariant r == AddCounts(aggregated, data - keys)
      decreases |keys|
    {
      var key :| key in keys;
      AddCountsStep(aggregated, data, keys, key);
      r := r[key := CountOf(r, key) + data[key]];
      keys := keys - {key};
    }
    AddEverything(aggregated, data, keys);
  }

  lemma AddNothing(aggregated: Counts, data: Counts)
    ensures AddCounts(aggregated, data - data.Keys) == aggregated
  {
    var r := AddCounts(aggregated, data - data.Keys);
    forall k | k in r ensures k in aggregated && r[k] == aggregated[k] {
      assert CountOf(data - data.Keys, k) == 0;
    }
    assert r.Keys == aggregated.Keys;
  }

  lemma AddEverything(aggregated: Counts, data: Counts, keys: set<string>)
    requires keys == {}
    ensures AddCounts(aggregated, data - keys) == AddCounts(aggregated, data)
  {
    assert data - keys == data;
  }

  /** The per-file maps add up to the counts of all values of all files. */
  lemma {:induction false} MergeAllValues(inputs: seq<FileInput>, header: string)
    requires forall i :: 0 <= i < |inputs| ==> Processable(inputs[i], header)
    ensures MergeAll(FileTallies(inputs, header)) == Tally(AllValues(inputs, header))
    decreases |inputs|
  {
    if inputs != [] {
      var n := |inputs| - 1;
      MergeAllValues(inputs[..n], header);
      assert FileTallies(inputs, header)[..n] == FileTallies(inputs[..n], header);
      TallyAppend(AllValues(inputs[..n], header), FileValues(inputs[n], header));
    }
  }

  /** aggregateData: every file is processed (a failed one contributes an
      empty map and 0), the row counts are summed under a lock and the
      per-file maps are added up after all workers finish. */
  method AggregateData(inputs: seq<FileInput>, header: string)
    returns (aggregated: Counts, totalEntries: nat)
    requires forall i :: 0 <= i < |inputs| ==> Processable(inputs[i], header)
    ensures aggregated == Tally(AllValues(inputs, header))
    ensures totalEntries == |AllValues(inputs, header)|
    ensures totalEntries == Sum(aggregated)
    ensures forall v :: v in aggregated ==> 0 < aggregated[v] <= totalEntries
  {
    var results;
    results, totalEntries := ProcessAll(inputs, header);
    aggregated := MergeResults(results);
    MergeAllValues(inputs, header);
    TallyTotals(AllValues(inputs, header));
  }

  /** The workers of aggregateData: each file's map is sent on, its row
      count added to the total. */
  method ProcessAll(inputs: seq<FileInput>, header: string)
    returns (results: seq<Counts>, totalEntries: nat)
    requires forall i :: 0 <= i < |inputs| ==> Processable(inputs[i], header)
    ensures results == FileTallies(inputs, header)
    ensures totalEntries == |AllValues(inputs, header)|
  {
    results, totalEntries := [], 0;
    var i := 0;
    while i < |inputs|
      invariant 0 <= i <= |inputs|
      invariant results == FileTallies(inputs[..i], header)
      invariant totalEntries == |AllValues(inputs[..i], header)|
    {
      NextFile(inputs, header, i);
      var data, count := ProcessFile(inputs[i], header);
      results := results + [data];
      totalEntries := totalEntries + count;
      i := i + 1;
    }
    assert inputs[..i] == inputs;
  }

  /** One more file adds its map and its values. */
  lemma NextFile(inputs: seq<FileInput>, header: string, i: nat)
    requires forall i :: 0 <= i < |inputs| ==> Processable(inputs[i], header)
    requires i < |inputs|
    ensures FileTallies(inputs[..i + 1], header)
            == FileTallies(inputs[..i], header) + [Tally(FileValues(inputs[i], header))]
    ensures AllValues(inputs[..i + 1], header) == AllValues(inputs[..i], header) + FileValues(inputs[i], header)
  {
    assert inputs[..i + 1][..i] == inputs[..i];
  }

  /** The final loop of aggregateData: the per-file maps added up one by one. */
  method MergeResults(results: seq<Counts>) returns (aggregated: Counts)
    ensures aggregated == MergeAll(results)
  {
    aggregated := map[];
    var j := 0;
    while j < |results|
      invariant 0 <= j <= |results|
      invariant aggregated == MergeAll(results[..j])
    {
      assert results[..j + 1][..j] == results[..j];
      aggregated := MergeInto(aggregated, results[j]);
      j := j + 1;
    }
    assert results[..j] == results;
  }

  // ---------------------------------------------------------------------------
  // identifyAnomalies

  /** One output line: the value's count, its score and the value. The Go
      code formats the count with %d and the score with %f. */
  datatype RareValue = RareValue(count: nat, score: real, value: string)

  /** `x` is the line identifyAnomalies produces for a value whose score is
      below the threshold. */
  ghost predicate IsRare(data: Counts, total: nat, threshold: real, score: ScoreFn, x: RareValue)
  {
    x.value in data && x.count == data[x.value]
    && x.score == score(x.count, total) && x.score < threshold
  }

  /** No two lines are about the same value. */
  ghost predicate DistinctValues(s: seq<RareValue>)
  {
    forall i, j :: 0 <= i < j < |s| ==> s[i].value != s[j].value
  }

  /** Lines with the same value are the same line, so without duplicate lines
      no value is reported twice. */
  lemma NoDuplicatesDistinct(data: Counts, total: nat, threshold: real, score: ScoreFn, s: seq<RareValue>)
    requires forall x :: x in s ==> IsRare(data, total, threshold, score, x)
    requires NoDuplicates(s)
    ensures DistinctValues(s)
  {
    forall i, j | 0 <= i < j < |s| ensures s[i].value != s[j].value {
      if s[i].value == s[j].value {
        assert IsRare(data, total, threshold, score, s[i]) && IsRare(data, total, threshold, score, s[j]);
        assert s[i] == s[j];
        TwiceIsDuplicate(s, i, j);
      }
    }
  }

  /** The loop of identifyAnomalies, before sorting: one line per value whose
      score is below the threshold. */
  method CollectRare(data: Counts, total: nat, threshold: real, score: ScoreFn)
    returns (anomalies: seq<RareValue>)
    ensures forall x :: x in anomalies <==> IsRare(data, total, threshold, score, x)
    ensures NoDuplicates(anomalies)
  {
    anomalies := [];
    var keys := data.Keys;
    while keys != {}
      invariant keys <= data.Keys
      invariant forall x :: x in anomalies <==> x.value !in keys && IsRare(data, total, threshold, score, x)
      invariant NoDuplicates(anomalies)
      decreases |keys|
    {
      var value :| value in keys;
      var count := data[value];
      var logProportion := score(count, total);
      if logProportion < threshold {
        var x := RareValue(count, logProportion, value);
        assert x !in anomalies;
        anomalies := anomalies + [x];
      }
      keys := keys - {value};
    }
  }

  function ScoreLe(x: RareValue, y: RareValue): bool
  {
    x.score <= y.score
  }

  /** identifyAnomalies with the evidently intended numeric sort: one line per
      rare value, no value twice, scores ascending. */
  method IdentifyAnomalies(data: Counts, total: nat, threshold: real, score: ScoreFn)
    returns (anomalies: seq<RareValue>)
    ensures forall x :: x in anomalies <==> IsRare(data, total, threshold, score, x)
    ensures DistinctValues(anomalies)
    ensures forall i, j :: 0 <= i < j < |anomalies| ==> anomalies[i].score <= anomalies[j].score
  {
    var collected := CollectRare(data, total, threshold, score);
    var a := new RareValue[|collected|](i requires 0 <= i < |collected| => collected[i]);
    assert a[..] == collected;
    SortBy(a, ScoreLe);
    anomalies := a[..];
    assert forall x :: x in anomalies <==> x in multiset(collected);
    NoDuplicatesDistinct(data, total, threshold, score, anomalies);
  }

  /** A stricter (lower) threshold reports only lines that a looser one also
      reports. */
  lemma RareThreshold(data: Counts, total: nat, t1: real, t2: real, score: ScoreFn, x: RareValue)
    requires t1 <= t2
    ensures IsRare(data, total, t1, score, x) ==> IsRare(data, total, t2, score, x)
  {
  }

  /** With an increasing score and every count within the total, ordering the
      lines by score orders them by count: the rarest value comes first. */
  lemma ScoreOrderIsCountOrder(data: Counts, total: nat, threshold: real, score: ScoreFn, x: RareValue, y: RareValue)
    requires Increasing(score)
    requires IsRare(data, total, threshold, score, x) && IsRare(data, total, threshold, score, y)
    requires forall v :: v in data ==> 0 < data[v] <= total
    ensures x.score <= y.score <==> x.count <= y.count
  {
    assert 0 < x.count <= total && 0 < y.count <= total;
    if x.count < y.count {
      assert score(x.count, total) < score(y.count, total);
    } else if y.count < x.count {
      assert score(y.count, total) < score(x.count, total);
    }
  }

  // ---------------------------------------------------------------------------
  // identifyAnomalies as written: the sort compares the formatted scores

  /** Go's `<=` on strings: lexicographic, character by character. */
  predicate TextLe(a: string, b: string)
    decreases |a|
  {
    if |a| == 0 then true
    else if |b| == 0 then false
    else if a[0] != b[0] then a[0] < b[0]
    else TextLe(a[1..], b[1..])
  }

  lemma {:induction false} TextLeTotal(a: string, b: string)
    ensures TextLe(a, b) || TextLe(b, a)
    decreases |a|
  {
    if |a| > 0 && |b| > 0 && a[0] == b[0] {
      TextLeTotal(a[1..], b[1..]);
    }
  }

  lemma {:induction false} TextLeTransitive(a: string, b: string, c: string)
    requires TextLe(a, b) && TextLe(b, c)
    ensures TextLe(a, c)
    decreases |a|
  {
    if |a| > 0 && |b| > 0 && |c| > 0 && a[0] == b[0] && b[0] == c[0] {
      TextLeTransitive(a[1..], b[1..], c[1..]);
    }
  }

  /** The comparison the Go code hands to sort.Slice: the scores as formatted
      by %f, compared as text. */
  function TextOrder(render: real -> string): (RareValue, RareValue) -> bool
  {
    (x: RareValue, y: RareValue) => TextLe(render(x.score), render(y.score))
  }

  lemma TextOrderSortable(render: real -> string)
    ensures Total(TextOrder(render)) && Transitive(TextOrder(render))
  {
    var le := TextOrder(render);
    forall x: RareValue, y: RareValue ensures le(x, y) || le(y, x) {
      TextLeTotal(render(x.score), render(y.score));
    }
    forall x: RareValue, y: RareValue, z: RareValue | le(x, y) && le(y, z) ensures le(x, z) {
      TextLeTransitive(render(x.score), render(y.score), render(z.score));
    }
  }

  /** What identifyAnomalies returns as written: the rare lines, no value
      twice, in the order of their formatted scores. */
  ghost predicate AsWrittenResult(data: Counts, total: nat, threshold: real, score: ScoreFn,
                                  render: real -> string, s: seq<RareValue>)
  {
    && (forall x :: x in s <==> IsRare(data, total, threshold, score, x))
    && DistinctValues(s)
    && Sorted(s, TextOrder(render))
  }

  /** identifyAnomalies as written, with `render` standing for %f. */
  method IdentifyAnomaliesAsWritten(data: Counts, total: nat, threshold: real, score: ScoreFn,
                                    render: real -> string)
    returns (anomalies: seq<RareValue>)
    ensures AsWrittenResult(data, total, threshold, score, render, anomalies)
  {
    var collected := CollectRare(data, total, threshold, score);
    var a := new RareValue[|collected|](i requires 0 <= i < |collected| => collected[i]);
    assert a[..] == collected;
    TextOrderSortable(render);
    SortBy(a, TextOrder(render));
    anomalies := a[..];
    assert forall x :: x in anomalies <==> x in multiset(collected);
    NoDuplicatesDistinct(data, total, threshold, score, anomalies);
  }

  /** The text sort misorders negative scores. Among 100 entries, a value
      seen once and one seen ten times score log10(0.01) = -2 and
      log10(0.1) = -1, formatted "-2.000000" and "-1.000000". A third value
      fills the other 89 entries and is not rare. As text "-1.000000" comes first,
      so every result the as-written sort can return lists the score -1
      before the lower score -2: the scores are not in ascending order. */
  lemma TextSortMisordersScores(score: ScoreFn, render: real -> string, s: seq<RareValue>)
    requires score(1, 100) == -2.0 && score(10, 100) == -1.0 && score(89, 100) >= -0.5
    requires render(-2.0) == "-2.000000" && render(-1.0) == "-1.000000"
    requires AsWrittenResult(map["a" := 1, "b" := 10, "c" := 89], 100, -0.5, score, render, s)
    ensures exists i, j :: 0 <= i < j < |s| && s[i] == RareValue(10, -1.0, "b") && s[j] == RareValue(1, -2.0, "a")
    ensures !(forall i, j :: 0 <= i < j < |s| ==> s[i].score <= s[j].score)
  {
    var data: Counts := map["a" := 1, "b" := 10, "c" := 89];
    var x, y := RareValue(1, -2.0, "a"), RareValue(10, -1.0, "b");
    assert IsRare(data, 100, -0.5, score, x) && IsRare(data, 100, -0.5, score, y);
    assert x in s && y in s;
    var i :| 0 <= i < |s| && s[i] == x;
    var j :| 0 <= j < |s| && s[j] == y;
    assert !TextLe(render(x.score), render(y.score)) by {
      assert render(x.score)[1] == '2' && render(y.score)[1] == '1';
    }
    assert j < i;
    assert s[j].score > s[i].score;
  }
}
