// mel: group whole rows by the value of any of several header columns, merge
// the per-file groups, and report every row of a rare group with the group's
// count and score, most anomalous first.
module Mel {
  import opened Tabular
  import opened Folds
  import opened Sorting

  /** Rows grouped by the value they hold in a selector column. */
  type Buckets = map<string, seq<Row>>

  function RowsOf(b: Buckets, k: string): seq<Row>
  {
    if k in b then b[k] else []
  }

  /** Each bucket's rows as a bag: what it holds, whatever their order. */
  function Bags(b: Buckets): (r: map<string, multiset<Row>>)
    ensures r.Keys == b.Keys
    ensures forall k :: k in b ==> r[k] == multiset(b[k])
  {
    map k | k in b :: multiset(b[k])
  }

  /** The number of rows in each bucket. */
  function Lengths(b: Buckets): (r: map<string, nat>)
    ensures r.Keys == b.Keys
    ensures forall k :: k in b ==> r[k] == |b[k]|
  {
    map k | k in b :: |b[k]|
  }

  /** The number of rows held in all buckets together. */
  ghost function Size(b: Buckets): nat
  {
    Sum(Lengths(b))
  }

  ghost predicate NonEmpty(b: Buckets)
  {
    forall k :: k in b ==> |b[k]| > 0
  }

  // ---------------------------------------------------------------------------
  // processFile

  /** One pass of the inner loop of processFile: `row` goes to the end of the
      bucket of its value at `idx`, unless it is too short to have one. */
  function Attribute(b: Buckets, row: Row, idx: nat): Buckets
  {
    if |row| <= idx then b
    else b[row[idx] := RowsOf(b, row[idx]) + [row]]
  }

  /** The inner loop over all of `rows` for the column at `idx`. */
  function AttributeAll(b: Buckets, rows: seq<Row>, idx: nat): Buckets
    decreases |rows|
  {
    if rows == [] then b
    else Attribute(AttributeAll(b, rows[..|rows| - 1], idx), rows[|rows| - 1], idx)
  }

  /** processFile's map: for each header in turn, the data rows under that
      header's column; a header missing from the header row adds nothing. */
  function Tally(records: seq<Row>, headers: seq<string>): Buckets
    requires |headers| > 0 ==> |records| > 0
    decreases |headers|
  {
    if headers == [] then map[]
    else
      var b := Tally(records, headers[..|headers| - 1]);
      var idx := IndexOf(records[0], headers[|headers| - 1]);
      if idx < 0 then b else AttributeAll(b, records[1..], idx)
  }

  /** The rows of `rows` whose field at `idx` is `k`, in order. */
  function Matching(rows: seq<Row>, idx: nat, k: string): seq<Row>
    decreases |rows|
  {
    if rows == [] then []
    else
      var last := rows[|rows| - 1];
      Matching(rows[..|rows| - 1], idx, k) + (if idx < |last| && last[idx] == k then [last] else [])
  }

  /** The rows a bucket `k` should hold, stated header by header. */
  function Grouped(records: seq<Row>, headers: seq<string>, k: string): seq<Row>
    requires |headers| > 0 ==> |records| > 0
    decreases |headers|
  {
    if headers == [] then []
    else
      var idx := IndexOf(records[0], headers[|headers| - 1]);
      Grouped(records, headers[..|headers| - 1], k)
        + (if idx < 0 then [] else Matching(records[1..], idx, k))
  }

  /** How many of `rows` are long enough to have a field at `idx`. */
  function CountLong(rows: seq<Row>, idx: nat): nat
    decreases |rows|
  {
    if rows == [] then 0
    else CountLong(rows[..|rows| - 1], idx) + (if idx < |rows[|rows| - 1]| then 1 else 0)
  }

  /** processFile's count: per found header, the data rows long enough for it. */
  function Attributed(records: seq<Row>, headers: seq<string>): nat
    requires |headers| > 0 ==> |records| > 0
    decreases |headers|
  {
    if headers == [] then 0
    else
      var idx := IndexOf(records[0], headers[|headers| - 1]);
      Attributed(records, headers[..|headers| - 1])
        + (if idx < 0 then 0 else CountLong(records[1..], idx))
  }

  /** The inner loop of processFile (mel/mel.go:230-240) for a header found at `idx`:
      every data row long enough is appended to the bucket of its value. */
  method AttributeColumn(data: Buckets, count: nat, rows: seq<Row>, idx: nat)
    returns (data': Buckets, count': nat)
    ensures data' == AttributeAll(data, rows, idx)
    ensures count' == count + CountLong(rows, idx)
  {
    data', count' := data, count;
    var i := 0;
    while i < |rows|
      invariant 0 <= i <= |rows|
      invariant data' == AttributeAll(data, rows[..i], idx)
      invariant count' == count + CountLong(rows[..i], idx)
    {
      assert rows[..i + 1][..i] == rows[..i];
      var record := rows[i];
      if |record| > idx {
        var value := record[idx];
        data' := data'[value := RowsOf(data', value) + [record]];
        count' := count' + 1;
      }
      i := i + 1;
    }
    assert rows[..i] == rows;
  }

  /** The loops of processFile once the file is parsed. The Go code indexes
      records[0] without a check, so an empty file is excluded here. */
  method TallyRecords(records: seq<Row>, headers: seq<string>) returns (data: Buckets, count: nat)
    requires |headers| > 0 ==> |records| > 0
    ensures data == Tally(records, headers)
    ensures count == Attributed(records, headers)
  {
    data, count := map[], 0;
    var h := 0;
    while h < |headers|
      invariant 0 <= h <= |headers|
      invariant data == Tally(records, headers[..h])
      invariant count == Attributed(records, headers[..h])
    {
      assert headers[..h + 1][..h] == headers[..h];
      var idx := FindHeaderIndex(records[0], headers[h]);
      if idx != -1 {
        data, count := AttributeColumn(data, count, records[1..], idx);
      }
      h := h + 1;
    }
    assert headers[..h] == headers;
  }

  datatype FileError = OpenFailed | ReadFailed

  /** What one worker hands to the coordinator for a file it processed. */
  datatype Partial = Partial(buckets: Buckets, count: nat)

  /** A file processFile can handle without indexing out of range. */
  ghost predicate Processable(input: FileInput, headers: seq<string>)
  {
    input.Parsed? && |headers| > 0 ==> |input.records| > 0
  }

  /** The partial result of a parsed file. */
  function PartialOf(records: seq<Row>, headers: seq<string>): Partial
    requires |headers| > 0 ==> |records| > 0
  {
    Partial(Tally(records, headers), Attributed(records, headers))
  }

  /** processFile: open and parse errors are returned; otherwise the tally. */
  method ProcessFile(input: FileInput, headers: seq<string>) returns (r: Result<Partial, FileError>)
    requires Processable(input, headers)
    ensures input.Unreadable? ==> r == Err(OpenFailed)
    ensures input.Unparsable? ==> r == Err(ReadFailed)
    ensures input.Parsed? ==> r == Ok(PartialOf(input.records, headers))
  {
    match input
    case Unreadable =>
      r := Err(OpenFailed);
    case Unparsable =>
      r := Err(ReadFailed);
    case Parsed(records) =>
      var data, count := TallyRecords(records, headers);
      r := Ok(Partial(data, count));
  }

  // ---------------------------------------------------------------------------
  // Properties of processFile

  lemma {:induction false} MatchingMember(rows: seq<Row>, idx: nat, k: string, r: Row)
    ensures r in Matching(rows, idx, k) <==> r in rows && idx < |r| && r[idx] == k
    decreases |rows|
  {
    if rows != [] {
      var init := rows[..|rows| - 1];
      MatchingMember(init, idx, k, r);
      assert rows == init + [rows[|rows| - 1]];
    }
  }

  /** Bucket `k` after the inner loop is the old bucket followed by the rows
      holding `k` at `idx`; no other bucket changes. */
  lemma {:induction false} AttributeAllRows(b: Buckets, rows: seq<Row>, idx: nat, k: string)
    ensures RowsOf(AttributeAll(b, rows, idx), k) == RowsOf(b, k) + Matching(rows, idx, k)
    ensures k in AttributeAll(b, rows, idx) <==> k in b || Matching(rows, idx, k) != []
    decreases |rows|
  {
    if rows != [] {
      AttributeAllRows(b, rows[..|rows| - 1], idx, k);
    }
  }

  /** Bucket `k` of processFile's map holds exactly the data rows that have
      `k` under one of the found headers, once per such header. */
  lemma {:induction false} TallyRows(records: seq<Row>, headers: seq<string>, k: string)
    requires |headers| > 0 ==> |records| > 0
    ensures RowsOf(Tally(records, headers), k) == Grouped(records, headers, k)
    ensures k in Tally(records, headers) <==> Grouped(records, headers, k) != []
    decreases |headers|
  {
    if headers != [] {
      var init := headers[..|headers| - 1];
      TallyRows(records, init, k);
      var idx := IndexOf(records[0], headers[|headers| - 1]);
      if idx >= 0 {
        AttributeAllRows(Tally(records, init), records[1..], idx, k);
      }
    }
  }

  /** A row is in bucket `k` exactly when it is a data row holding `k` at the
      column of some header found in the header row. A row too short for one
      header is still grouped under the others. */
  lemma {:induction false} GroupedMember(records: seq<Row>, headers: seq<string>, k: string, r: Row)
    requires |records| > 0
    ensures r in Grouped(records, headers, k) <==>
      r in records[1..] &&
      exists h :: h in headers && 0 <= IndexOf(records[0], h) < |r| && r[IndexOf(records[0], h)] == k
    decreases |headers|
  {
    if headers != [] {
      var init, last := headers[..|headers| - 1], headers[|headers| - 1];
      assert headers == init + [last];
      var idx := IndexOf(records[0], last);
      if idx >= 0 {
        MatchingMember(records[1..], idx, k, r);
      }
      GroupedMember(records, init, k, r);
      if r in Grouped(records, headers, k) && r !in Grouped(records, init, k) {
        assert 0 <= IndexOf(records[0], last) < |r| && r[IndexOf(records[0], last)] == k;
      }
    }
  }

  lemma SizeAttribute(b: Buckets, row: Row, idx: nat)
    ensures Size(Attribute(b, row, idx)) == Size(b) + (if idx < |row| then 1 else 0)
  {
    if idx < |row| {
      var k := row[idx];
      assert Lengths(Attribute(b, row, idx)) == Lengths(b)[k := |RowsOf(b, k)| + 1];
      SumUpdate(Lengths(b), k, |RowsOf(b, k)| + 1);
    }
  }

  lemma {:induction false} SizeAttributeAll(b: Buckets, rows: seq<Row>, idx: nat)
    ensures Size(AttributeAll(b, rows, idx)) == Size(b) + CountLong(rows, idx)
    decreases |rows|
  {
    if rows != [] {
      SizeAttributeAll(b, rows[..|rows| - 1], idx);
      SizeAttribute(AttributeAll(b, rows[..|rows| - 1], idx), rows[|rows| - 1], idx);
    }
  }

  /** processFile's count is the number of rows it put into buckets, with a
      row counted once for each header it was grouped under. */
  lemma {:induction false} TallyConservation(records: seq<Row>, headers: seq<string>)
    requires |headers| > 0 ==> |records| > 0
    ensures Size(Tally(records, headers)) == Attributed(records, headers)
    decreases |headers|
  {
    if headers == [] {
      assert Lengths(map[]) == map[];
    } else {
      var init := headers[..|headers| - 1];
      TallyConservation(records, init);
      var idx := IndexOf(records[0], headers[|headers| - 1]);
      if idx >= 0 {
        SizeAttributeAll(Tally(records, init), records[1..], idx);
      }
    }
  }

  lemma {:induction false} AttributeAllNonEmpty(b: Buckets, rows: seq<Row>, idx: nat)
    requires NonEmpty(b)
    ensures NonEmpty(AttributeAll(b, rows, idx))
    decreases |rows|
  {
    if rows != [] {
      AttributeAllNonEmpty(b, rows[..|rows| - 1], idx);
    }
  }

  /** Every key of processFile's map was seen in a data row: no bucket is empty. */
  lemma {:induction false} TallyNonEmpty(records: seq<Row>, headers: seq<string>)
    requires |headers| > 0 ==> |records| > 0
    ensures NonEmpty(Tally(records, headers))
    decreases |headers|
  {
    if headers != [] {
      var init := headers[..|headers| - 1];
      TallyNonEmpty(records, init);
      var idx := IndexOf(records[0], headers[|headers| - 1]);
      if idx >= 0 {
        AttributeAllNonEmpty(Tally(records, init), records[1..], idx);
      }
    }
  }

  // ---------------------------------------------------------------------------
  // aggregateData

  /** The merge of one partial map into the aggregate: each of its buckets is
      appended to the aggregate's bucket under the same key. */
  function MergeBuckets(m: Buckets, p: Buckets): Buckets
  {
    map k | k in m.Keys + p.Keys :: RowsOf(m, k) + RowsOf(p, k)
  }

  /** The aggregate after merging the partial results in the order they arrive. */
  function MergeAll(ps: seq<Partial>): Buckets
    decreases |ps|
  {
    if ps == [] then map[]
    else MergeBuckets(MergeAll(ps[..|ps| - 1]), ps[|ps| - 1].buckets)
  }

  /** The sum of the counts the workers add to totalEntries. */
  function TotalCount(ps: seq<Partial>): nat
    decreases |ps|
  {
    if ps == [] then 0
    else TotalCount(ps[..|ps| - 1]) + ps[|ps| - 1].count
  }

  /** The partial results of the files processed without error, in the order
      the workers finish them (any order: the model takes `inputs` in it). */
  function Successes(inputs: seq<FileInput>, headers: seq<string>): seq<Partial>
    requires forall i :: 0 <= i < |inputs| ==> Processable(inputs[i], headers)
    decreases |inputs|
  {
    if inputs == [] then []
    else
      var last := inputs[|inputs| - 1];
      assert Processable(last, headers);
      Successes(inputs[..|inputs| - 1], headers)
        + (if last.Parsed? then [PartialOf(last.records, headers)] else [])
  }

  /** The merge loop of aggregateData for one partial map: every bucket of
      `data`, in whatever order the keys come, is appended to the aggregate's
      bucket under the same key. */
  method MergeInto(aggregated: Buckets, data: Buckets) returns (r: Buckets)
    ensures r == MergeBuckets(aggregated, data)
  {
    r := aggregated;
    var keys := data.Keys;
    MergeNothing(aggregated, data);
    while keys != {}
      invariant keys <= data.Keys
      invariant r == MergeBuckets(aggregated, data - keys)
      decreases |keys|
    {
      var key :| key in keys;
      MergeStep(aggregated, data, keys, key);
      r := r[key := RowsOf(r, key) + data[key]];
      keys := keys - {key};
    }
    MergeEverything(aggregated, data, keys);
  }

  lemma MergeEverything(aggregated: Buckets, data: Buckets, keys: set<string>)
    requires keys == {}
    ensures MergeBuckets(aggregated, data - keys) == MergeBuckets(aggregated, data)
  {
    assert data - keys == data;
  }

  lemma MergeNothing(aggregated: Buckets, data: Buckets)
    ensures MergeBuckets(aggregated, data - data.Keys) == aggregated
  {
    var r := MergeBuckets(aggregated, data - data.Keys);
    assert data - data.Keys == map[];
    forall k | k in r ensures k in aggregated && r[k] == aggregated[k] {
      assert RowsOf(data - data.Keys, k) == [];
    }
    assert r == aggregated;
  }

  lemma MergeStep(aggregated: Buckets, data: Buckets, keys: set<string>, key: string)
    requires key in keys && keys <= data.Keys
    ensures var r := MergeBuckets(aggregated, data - keys);
      MergeBuckets(aggregated, data - (keys - {key})) == r[key := RowsOf(r, key) + data[key]]
  {
    var r := MergeBuckets(aggregated, data - keys);
    var a := MergeBuckets(aggregated, data - (keys - {key}));
    var b := r[key := RowsOf(r, key) + data[key]];
    forall k | k in a ensures k in b && a[k] == b[k] {
      if k != key {
        assert RowsOf(data - keys, k) == RowsOf(data - (keys - {key}), k);
      }
    }
    assert a == b;
  }

  /** aggregateData: workers process every file, failed files are logged and
      skipped, counts are summed under a lock and, after all workers finish,
      the partial maps are merged one after another. */
  method AggregateData(inputs: seq<FileInput>, headers: seq<string>)
    returns (aggregated: Buckets, totalEntries: nat)
    requires forall i :: 0 <= i < |inputs| ==> Processable(inputs[i], headers)
    ensures aggregated == MergeAll(Successes(inputs, headers))
    ensures totalEntries == TotalCount(Successes(inputs, headers))
    ensures totalEntries == Size(aggregated)
    ensures forall k :: k in aggregated ==> 0 < |aggregated[k]| <= totalEntries
  {
    var results;
    results, totalEntries := ProcessAll(inputs, headers);
    aggregated := MergeResults(results);
    SuccessesConsistent(inputs, headers);
    MergeAllConservation(results);
    BucketBounds(aggregated);
  }

  /** The workers of aggregateData: a failed file is skipped, a processed one
      passes on its buckets and adds its count to the total. */
  method ProcessAll(inputs: seq<FileInput>, headers: seq<string>)
    returns (results: seq<Partial>, totalEntries: nat)
    requires forall i :: 0 <= i < |inputs| ==> Processable(inputs[i], headers)
    ensures results == Successes(inputs, headers)
    ensures totalEntries == TotalCount(results)
  {
    results, totalEntries := [], 0;
    var i := 0;
    while i < |inputs|
      invariant 0 <= i <= |inputs|
      invariant results == Successes(inputs[..i], headers)
      invariant totalEntries == TotalCount(results)
    {
      NextFile(inputs, headers, i);
      var r := ProcessFile(inputs[i], headers);
      if r.Ok? {
        results := results + [r.value];
        totalEntries := totalEntries + r.value.count;
      }
      i := i + 1;
    }
    assert inputs[..i] == inputs;
  }

  /** One more file adds its partial result when it is processed. */
  lemma NextFile(inputs: seq<FileInput>, headers: seq<string>, i: nat)
    requires forall i :: 0 <= i < |inputs| ==> Processable(inputs[i], headers)
    requires i < |inputs|
    ensures inputs[i].Parsed? ==>
      Successes(inputs[..i + 1], headers)
        == Successes(inputs[..i], headers) + [PartialOf(inputs[i].records, headers)]
    ensures !inputs[i].Parsed? ==> Successes(inputs[..i + 1], headers) == Successes(inputs[..i], headers)
  {
    assert inputs[..i + 1][..i] == inputs[..i];
    var s := Successes(inputs[..i], headers);
    assert s + [] == s;
  }

  /** The final loop of aggregateData: the partial maps merged one by one. */
  method MergeResults(results: seq<Partial>) returns (aggregated: Buckets)
    ensures aggregated == MergeAll(results)
  {
    aggregated := map[];
    var j := 0;
    while j < |results|
      invariant 0 <= j <= |results|
      invariant aggregated == MergeAll(results[..j])
    {
      assert results[..j + 1][..j] == results[..j];
      aggregated := MergeInto(aggregated, results[j].buckets);
      j := j + 1;
    }
    assert results[..j] == results;
  }

  /** In non-empty buckets, each bucket holds between one row and all rows. */
  lemma BucketBounds(b: Buckets)
    requires NonEmpty(b)
    ensures forall k :: k in b ==> 0 < |b[k]| <= Size(b)
  {
    forall k | k in b ensures 0 < |b[k]| <= Size(b) {
      SizeBound(b, k);
    }
  }

  // ---------------------------------------------------------------------------
  // Properties of the merge

  /** A partial result as processFile produces it. */
  ghost predicate Consistent(p: Partial)
  {
    p.count == Size(p.buckets) && NonEmpty(p.buckets)
  }

  lemma {:induction false} SuccessesConsistent(inputs: seq<FileInput>, headers: seq<string>)
    requires forall i :: 0 <= i < |inputs| ==> Processable(inputs[i], headers)
    ensures forall p :: p in Successes(inputs, headers) ==> Consistent(p)
    decreases |inputs|
  {
    if inputs != [] {
      var last := inputs[|inputs| - 1];
      SuccessesConsistent(inputs[..|inputs| - 1], headers);
      if last.Parsed? {
        TallyConservation(last.records, headers);
        TallyNonEmpty(last.records, headers);
      }
    }
  }

  lemma SizeMerge(m: Buckets, p: Buckets)
    ensures Size(MergeBuckets(m, p)) == Size(m) + Size(p)
  {
    var l := Lengths(MergeBuckets(m, p));
    var a := AddCounts(Lengths(m), Lengths(p));
    forall k | k in l ensures k in a && l[k] == a[k] {
      assert CountOf(Lengths(m), k) == |RowsOf(m, k)|;
      assert CountOf(Lengths(p), k) == |RowsOf(p, k)|;
    }
    assert l == a;
    SumAddCounts(Lengths(m), Lengths(p));
  }

  /** Merging loses and duplicates no row: the merged buckets hold as many rows
      as the workers counted, and none of them is empty. */
  lemma {:induction false} MergeAllConservation(ps: seq<Partial>)
    requires forall p :: p in ps ==> Consistent(p)
    ensures Size(MergeAll(ps)) == TotalCount(ps)
    ensures NonEmpty(MergeAll(ps))
    decreases |ps|
  {
    if ps == [] {
      assert Lengths(map[]) == map[];
    } else {
      var init := ps[..|ps| - 1];
      assert forall p :: p in init ==> p in ps;
      var last := ps[|ps| - 1];
      assert Consistent(last) by { assert last in ps; }
      MergeAllConservation(init);
      SizeMerge(MergeAll(init), last.buckets);
      var m := MergeAll(ps);
      forall k | k in m ensures |m[k]| > 0 {
        assert m[k] == RowsOf(MergeAll(init), k) + RowsOf(last.buckets, k);
      }
    }
  }

  /** No bucket is larger than the whole. */
  lemma SizeBound(b: Buckets, k: string)
    requires k in b
    ensures |b[k]| <= Size(b)
  {
    SumRemove(Lengths(b), k);
  }

  /** Bucket `k` of every partial result, first to last. */
  function Concat(ps: seq<Partial>, k: string): seq<Row>
    decreases |ps|
  {
    if ps == [] then [] else RowsOf(ps[0].buckets, k) + Concat(ps[1..], k)
  }

  lemma {:induction false} ConcatLast(ps: seq<Partial>, k: string)
    requires ps != []
    ensures Concat(ps, k) == Concat(ps[..|ps| - 1], k) + RowsOf(ps[|ps| - 1].buckets, k)
    decreases |ps|
  {
    if |ps| > 1 {
      ConcatLast(ps[1..], k);
      assert ps[1..][..|ps| - 2] == ps[..|ps| - 1][1..];
    }
  }

  /** The merged keys are the union of the partial keys, and each merged
      bucket holds the partial buckets one after another in arrival order. */
  lemma {:induction false} MergeAllRows(ps: seq<Partial>, k: string)
    ensures k in MergeAll(ps) <==> exists i :: 0 <= i < |ps| && k in ps[i].buckets
    ensures RowsOf(MergeAll(ps), k) == Concat(ps, k)
    decreases |ps|
  {
    if ps != [] {
      var init := ps[..|ps| - 1];
      MergeAllRows(init, k);
      ConcatLast(ps, k);
      if k in MergeAll(ps) && k !in ps[|ps| - 1].buckets {
        var i :| 0 <= i < |init| && k in init[i].buckets;
        assert ps[i] == init[i];
      }
      if exists i :: 0 <= i < |ps| && k in ps[i].buckets {
        var i :| 0 <= i < |ps| && k in ps[i].buckets;
        if i < |ps| - 1 {
          assert init[i] == ps[i];
        }
      }
    }
  }

  lemma {:induction false} ConcatAppend(ps: seq<Partial>, qs: seq<Partial>, k: string)
    ensures Concat(ps + qs, k) == Concat(ps, k) + Concat(qs, k)
    decreases |ps|
  {
    if ps == [] {
      assert ps + qs == qs;
    } else {
      assert (ps + qs)[0] == ps[0];
      assert (ps + qs)[1..] == ps[1..] + qs;
      ConcatAppend(ps[1..], qs, k);
      var r := RowsOf(ps[0].buckets, k);
      assert r + (Concat(ps[1..], k) + Concat(qs, k)) == (r + Concat(ps[1..], k)) + Concat(qs, k);
    }
  }

  /** Taking the partial result at `j` out of the list takes its rows out of
      bucket `k`. */
  lemma ConcatRemove(qs: seq<Partial>, j: nat, k: string)
    requires j < |qs|
    ensures multiset(Concat(qs, k))
         == multiset(Concat(qs[..j] + qs[j + 1..], k)) + multiset(RowsOf(qs[j].buckets, k))
  {
    var a, b := qs[..j], qs[j + 1..];
    assert qs == a + ([qs[j]] + b);
    ConcatAppend(a, [qs[j]] + b, k);
    ConcatAppend(a, b, k);
    assert ([qs[j]] + b)[1..] == b;
  }

  /** Bucket `k` collects the same rows, as a bag, in every arrival order. */
  lemma {:induction false} ConcatPermutation(ps: seq<Partial>, qs: seq<Partial>, k: string)
    requires multiset(ps) == multiset(qs)
    ensures multiset(Concat(ps, k)) == multiset(Concat(qs, k))
    decreases |ps|
  {
    if ps == [] {
      assert |qs| == |multiset(qs)| == 0;
    } else {
      assert ps[0] in multiset(qs);
      var j :| 0 <= j < |qs| && qs[j] == ps[0];
      BagRemove(ps, qs, j);
      ConcatPermutation(ps[1..], qs[..j] + qs[j + 1..], k);
      ConcatRemove(qs, j, k);
    }
  }

  /** Some partial result has bucket `k` in one order exactly when some has
      it in the other. */
  lemma HasBucketPermutation(ps: seq<Partial>, qs: seq<Partial>, k: string)
    requires multiset(ps) == multiset(qs)
    ensures (exists i :: 0 <= i < |ps| && k in ps[i].buckets)
        <==> (exists i :: 0 <= i < |qs| && k in qs[i].buckets)
  {
    if exists i :: 0 <= i < |ps| && k in ps[i].buckets {
      var i :| 0 <= i < |ps| && k in ps[i].buckets;
      assert ps[i] in multiset(qs);
    }
    if exists i :: 0 <= i < |qs| && k in qs[i].buckets {
      var i :| 0 <= i < |qs| && k in qs[i].buckets;
      assert qs[i] in multiset(ps);
    }
  }

  /** Merging the same partial results in another order gives the same keys,
      each holding the same bag of rows: only the order of the rows inside a
      bucket depends on the order in which the workers finish. */
  lemma MergeAllPermutation(ps: seq<Partial>, qs: seq<Partial>)
    requires multiset(ps) == multiset(qs)
    ensures Bags(MergeAll(ps)) == Bags(MergeAll(qs))
  {
    var m1, m2 := MergeAll(ps), MergeAll(qs);
    forall k ensures (k in m1 <==> k in m2) && multiset(RowsOf(m1, k)) == multiset(RowsOf(m2, k)) {
      MergeAllRows(ps, k);
      MergeAllRows(qs, k);
      HasBucketPermutation(ps, qs, k);
      ConcatPermutation(ps, qs, k);
    }
    BagsAgree(m1, m2);
  }

  lemma BagsAgree(m1: Buckets, m2: Buckets)
    requires forall k :: (k in m1 <==> k in m2) && multiset(RowsOf(m1, k)) == multiset(RowsOf(m2, k))
    ensures Bags(m1) == Bags(m2)
  {
    assert forall k :: k in m1 ==> RowsOf(m1, k) == m1[k] && RowsOf(m2, k) == m2[k];
  }

  /** Buckets holding the same bags hold as many rows. */
  lemma SizeBags(b1: Buckets, b2: Buckets)
    requires Bags(b1) == Bags(b2)
    ensures Size(b1) == Size(b2)
  {
    forall k | k in b1 ensures |b1[k]| == |b2[k]| {
      assert multiset(b1[k]) == Bags(b1)[k] == Bags(b2)[k] == multiset(b2[k]);
    }
    assert Lengths(b1) == Lengths(b2);
  }

  /** The order in which the workers deliver the partial results does not
      change the merged bags, the total or the anomaly report. */
  lemma ArrivalOrder(ps: seq<Partial>, qs: seq<Partial>, threshold: real, score: ScoreFn)
    requires multiset(ps) == multiset(qs)
    requires forall p :: p in ps ==> Consistent(p)
    ensures Bags(MergeAll(ps)) == Bags(MergeAll(qs))
    ensures TotalCount(ps) == TotalCount(qs)
    ensures RareRows(MergeAll(ps), TotalCount(ps), threshold, score)
         == RareRows(MergeAll(qs), TotalCount(qs), threshold, score)
  {
    assert forall q :: q in qs ==> q in multiset(ps);
    MergeAllPermutation(ps, qs);
    SizeBags(MergeAll(ps), MergeAll(qs));
    MergeAllConservation(ps);
    MergeAllConservation(qs);
    RareRowsBags(MergeAll(ps), MergeAll(qs), TotalCount(ps), threshold, score);
  }

  /** The workers may deliver the successful files' results in any order:
      every such order gives aggregateData the same bags of rows under the
      same keys, the same total, and identifyAnomalies the same report, as
      the input order that AggregateData follows. */
  lemma DeliveryOrder(inputs: seq<FileInput>, headers: seq<string>, delivered: seq<Partial>,
                      threshold: real, score: ScoreFn)
    requires forall i :: 0 <= i < |inputs| ==> Processable(inputs[i], headers)
    requires multiset(delivered) == multiset(Successes(inputs, headers))
    ensures Bags(MergeAll(delivered)) == Bags(MergeAll(Successes(inputs, headers)))
    ensures TotalCount(delivered) == TotalCount(Successes(inputs, headers))
    ensures RareRows(MergeAll(delivered), TotalCount(delivered), threshold, score)
         == RareRows(MergeAll(Successes(inputs, headers)), TotalCount(Successes(inputs, headers)), threshold, score)
  {
    var ps := Successes(inputs, headers);
    SuccessesConsistent(inputs, headers);
    ArrivalOrder(ps, delivered, threshold, score);
  }

  // ---------------------------------------------------------------------------
  // identifyAnomalies

  /** One output row: the group's count and score, then the original fields.
      The Go code formats both numbers as text (%d, %f); the model keeps them
      as numbers. */
  datatype Anomaly = Anomaly(count: nat, score: real, row: Row)

  /** The entries of one rare group: each of its rows, in order, prefixed with
      the group's count and score. */
  function Annotate(rows: seq<Row>, count: nat, s: real): (r: seq<Anomaly>)
    ensures |r| == |rows|
    ensures forall i :: 0 <= i < |rows| ==> r[i] == Anomaly(count, s, rows[i])
  {
    seq(|rows|, i requires 0 <= i < |rows| => Anomaly(count, s, rows[i]))
  }

  /** What each group contributes to the result: all its rows when its score
      is below the threshold, nothing otherwise. */
  ghost function GroupEntries(data: Buckets, total: nat, threshold: real, score: ScoreFn)
    : (g: map<string, multiset<Anomaly>>)
    ensures g.Keys == data.Keys
    ensures forall k :: k in data ==> g[k] == GroupEntry(data[k], total, threshold, score)
  {
    map k | k in data :: GroupEntry(data[k], total, threshold, score)
  }

  /** The anomaly rows identifyAnomalies returns, as a bag. */
  ghost function RareRows(data: Buckets, total: nat, threshold: real, score: ScoreFn): multiset<Anomaly>
  {
    Union(GroupEntries(data, total, threshold, score))
  }

  /** The entries one group contributes, by the threshold test. */
  function GroupEntry(rows: seq<Row>, total: nat, threshold: real, score: ScoreFn): multiset<Anomaly>
  {
    var c := |rows|;
    if score(c, total) < threshold then multiset(Annotate(rows, c, score(c, total)))
    else multiset{}
  }

  /** The inner loop of identifyAnomalies: one entry per row of the group. */
  method AppendGroup(anomalies: seq<Anomaly>, rows: seq<Row>, count: nat, s: real)
    returns (r: seq<Anomaly>)
    ensures r == anomalies + Annotate(rows, count, s)
  {
    r := anomalies;
    var j := 0;
    while j < |rows|
      invariant 0 <= j <= |rows|
      invariant r == anomalies + Annotate(rows[..j], count, s)
    {
      r := r + [Anomaly(count, s, rows[j])];
      j := j + 1;
    }
    assert rows[..j] == rows;
  }

  /** The body of the outer loop for one group: score it and, when it is
      rare, append its entries. */
  method CollectGroup(anomalies: seq<Anomaly>, rows: seq<Row>, total: nat, threshold: real, score: ScoreFn)
    returns (r: seq<Anomaly>)
    ensures var c := |rows|;
      r == anomalies + (if score(c, total) < threshold then Annotate(rows, c, score(c, total)) else [])
  {
    var count := |rows|;
    var logProportion := score(count, total);
    r := anomalies;
    if logProportion < threshold {
      r := AppendGroup(anomalies, rows, count, logProportion);
    }
  }

  /** Handling one more key adds that key's entries to the bag. */
  lemma CollectStep(data: Buckets, total: nat, threshold: real, score: ScoreFn,
                    keys: set<string>, key: string, before: seq<Anomaly>, after: seq<Anomaly>)
    requires key in keys && keys <= data.Keys
    requires multiset(before) == Union(GroupEntries(data, total, threshold, score) - keys)
    requires var c := |data[key]|;
      after == before + (if score(c, total) < threshold then Annotate(data[key], c, score(c, total)) else [])
    ensures multiset(after) == Union(GroupEntries(data, total, threshold, score) - (keys - {key}))
  {
    var g := GroupEntries(data, total, threshold, score);
    assert multiset(after) == multiset(before) + g[key];
    UnionStep(g, keys, key);
  }

  /** The outer loop of identifyAnomalies, before sorting. */
  method CollectAnomalies(data: Buckets, total: nat, threshold: real, score: ScoreFn)
    returns (anomalies: seq<Anomaly>)
    ensures multiset(anomalies) == RareRows(data, total, threshold, score)
  {
    anomalies := [];
    var keys := data.Keys;
    assert GroupEntries(data, total, threshold, score) - data.Keys == map[];
    while keys != {}
      invariant keys <= data.Keys
      invariant multiset(anomalies) == Union(GroupEntries(data, total, threshold, score) - keys)
      decreases |keys|
    {
      var key :| key in keys;
      ghost var before := anomalies;
      anomalies := CollectGroup(anomalies, data[key], total, threshold, score);
      CollectStep(data, total, threshold, score, keys, key, before, anomalies);
      keys := keys - {key};
    }
    CollectEnd(data, total, threshold, score, keys);
  }

  lemma CollectEnd(data: Buckets, total: nat, threshold: real, score: ScoreFn, keys: set<string>)
    requires keys == {}
    ensures Union(GroupEntries(data, total, threshold, score) - keys) == RareRows(data, total, threshold, score)
  {
    assert GroupEntries(data, total, threshold, score) - keys == GroupEntries(data, total, threshold, score);
  }

  function ScoreLe(x: Anomaly, y: Anomaly): bool
  {
    x.score <= y.score
  }

  /** identifyAnomalies: every row of every rare group, with its group's count
      and score, sorted so that scores never decrease. */
  method IdentifyAnomalies(data: Buckets, total: nat, threshold: real, score: ScoreFn)
    returns (anomalies: seq<Anomaly>)
    ensures multiset(anomalies) == RareRows(data, total, threshold, score)
    ensures forall i, j :: 0 <= i < j < |anomalies| ==> anomalies[i].score <= anomalies[j].score
  {
    var collected := CollectAnomalies(data, total, threshold, score);
    var a := new Anomaly[|collected|](i requires 0 <= i < |collected| => collected[i]);
    assert a[..] == collected;
    SortBy(a, ScoreLe);
    anomalies := a[..];
  }

  // ---------------------------------------------------------------------------
  // Properties of identifyAnomalies

  /** A group's entries are its rows, each with its count and score, when
      the score is below the threshold. */
  lemma GroupEntryMember(rows: seq<Row>, total: nat, threshold: real, score: ScoreFn, e: Anomaly)
    ensures e in GroupEntry(rows, total, threshold, score) <==>
      (e.row in rows && e.count == |rows| && e.score == score(|rows|, total) && e.score < threshold)
  {
    var c := |rows|;
    if score(c, total) < threshold {
      var an := Annotate(rows, c, score(c, total));
      if e in an {
        var i :| 0 <= i < |an| && an[i] == e;
      }
      if e.row in rows && e.count == c && e.score == score(c, total) {
        var i :| 0 <= i < |rows| && rows[i] == e.row;
        assert an[i] == e;
      }
    }
  }

  /** An entry is reported exactly when it carries a row of a group whose
      score is below the threshold, with that group's count and score. */
  lemma RareRowsMember(data: Buckets, total: nat, threshold: real, score: ScoreFn, e: Anomaly)
    ensures e in RareRows(data, total, threshold, score) <==>
      exists k :: k in data && e.row in data[k] && e.count == |data[k]|
        && e.score == score(|data[k]|, total) && e.score < threshold
  {
    var g := GroupEntries(data, total, threshold, score);
    UnionMember(g, e);
    forall k | k in data
      ensures e in g[k] <==>
        (e.row in data[k] && e.count == |data[k]| && e.score == score(|data[k]|, total) && e.score < threshold)
    {
      GroupEntryMember(data[k], total, threshold, score, e);
    }
  }

  /** The sizes of the rare groups. */
  function RareCounts(data: Buckets, total: nat, threshold: real, score: ScoreFn): (r: map<string, nat>)
    ensures r.Keys == data.Keys
  {
    map k | k in data :: if score(|data[k]|, total) < threshold then |data[k]| else 0
  }

  /** One output row per original row of each rare group. */
  lemma RareRowsSize(data: Buckets, total: nat, threshold: real, score: ScoreFn)
    ensures |RareRows(data, total, threshold, score)| == Sum(RareCounts(data, total, threshold, score))
  {
    UnionSize(GroupEntries(data, total, threshold, score));
    RareSizes(data, total, threshold, score);
  }

  lemma RareSizes(data: Buckets, total: nat, threshold: real, score: ScoreFn)
    ensures Sizes(GroupEntries(data, total, threshold, score)) == RareCounts(data, total, threshold, score)
  {
    var g := GroupEntries(data, total, threshold, score);
    var r := RareCounts(data, total, threshold, score);
    forall k | k in data ensures |g[k]| == r[k] {
      var c := |data[k]|;
      if score(c, total) < threshold {
        assert |multiset(Annotate(data[k], c, score(c, total)))| == |data[k]|;
      }
    }
    assert Sizes(g) == r;
  }

  lemma {:induction false} AnnotateCount(rows: seq<Row>, c: nat, s: real, e: Anomaly)
    ensures multiset(Annotate(rows, c, s))[e]
         == if e.count == c && e.score == s then multiset(rows)[e.row] else 0
    decreases |rows|
  {
    if rows != [] {
      var init, last := rows[..|rows| - 1], rows[|rows| - 1];
      AnnotateCount(init, c, s, e);
      assert Annotate(rows, c, s) == Annotate(init, c, s) + [Anomaly(c, s, last)];
      assert rows == init + [last];
    }
  }

  /** A group's entries depend on its rows only as a bag. */
  lemma GroupEntryBag(r1: seq<Row>, r2: seq<Row>, total: nat, threshold: real, score: ScoreFn)
    requires multiset(r1) == multiset(r2)
    ensures GroupEntry(r1, total, threshold, score) == GroupEntry(r2, total, threshold, score)
  {
    var c := |r1|;
    assert c == |multiset(r1)| == |r2|;
    forall e ensures multiset(Annotate(r1, c, score(c, total)))[e]
                  == multiset(Annotate(r2, c, score(c, total)))[e] {
      AnnotateCount(r1, c, score(c, total), e);
      AnnotateCount(r2, c, score(c, total), e);
    }
  }

  lemma BagsKey(d1: Buckets, d2: Buckets, k: string)
    requires Bags(d1) == Bags(d2) && k in d1
    ensures k in d2 && multiset(d1[k]) == multiset(d2[k])
  {
    assert Bags(d1)[k] == Bags(d2)[k];
  }

  /** The report depends on each bucket only as a bag of rows. */
  lemma RareRowsBags(d1: Buckets, d2: Buckets, total: nat, threshold: real, score: ScoreFn)
    requires Bags(d1) == Bags(d2)
    ensures RareRows(d1, total, threshold, score) == RareRows(d2, total, threshold, score)
  {
    var g1 := GroupEntries(d1, total, threshold, score);
    var g2 := GroupEntries(d2, total, threshold, score);
    assert g1.Keys == d1.Keys == Bags(d1).Keys == Bags(d2).Keys == d2.Keys == g2.Keys;
    forall k | k in g1 ensures g1[k] == g2[k] {
      GroupEntriesKey(d1, d2, k, total, threshold, score);
    }
    UnionMono(g1, g2);
    UnionMono(g2, g1);
  }

  lemma GroupEntriesKey(d1: Buckets, d2: Buckets, k: string, total: nat, threshold: real, score: ScoreFn)
    requires Bags(d1) == Bags(d2) && k in d1
    ensures k in d2
    ensures GroupEntry(d1[k], total, threshold, score) == GroupEntry(d2[k], total, threshold, score)
  {
    BagsKey(d1, d2, k);
    GroupEntryBag(d1[k], d2[k], total, threshold, score);
  }

  /** A stricter (lower) threshold reports a sub-bag of the rows. */
  lemma RareRowsThreshold(data: Buckets, total: nat, t1: real, t2: real, score: ScoreFn)
    requires t1 <= t2
    ensures RareRows(data, total, t1, score) <= RareRows(data, total, t2, score)
  {
    UnionMono(GroupEntries(data, total, t1, score), GroupEntries(data, total, t2, score));
  }
}
