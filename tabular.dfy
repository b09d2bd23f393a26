// What the three tools share: parsed CSV records, the outcome of reading one
// file, the header lookup each of them repeats, and the worker-pool size.
module Tabular {

  /** One parsed CSV record: its fields in order. */
  type Row = seq<string>

  /** What opening and parsing one file yields. csv.Reader itself is not part
      of the model; its result is taken as given. */
  datatype FileInput =
    | Unreadable                   // os.Open failed
    | Unparsable                   // ReadAll returned an error
    | Parsed(records: seq<Row>)    // records[0] is the header row

  /** A value or the error the Go code returns instead. */
  datatype Result<T, E> = Ok(value: T) | Err(error: E)

  /** The position of the first field equal to `name`, or -1 when there is none. */
  function IndexOf(row: Row, name: string): (i: int)
    ensures -1 <= i < |row|
    ensures i == -1 <==> name !in row
    ensures 0 <= i ==> row[i] == name && name !in row[..i]
  {
    if |row| == 0 then -1
    else if row[0] == name then 0
    else
      var j := IndexOf(row[1..], name);
      if j == -1 then -1 else j + 1
  }

  /** The header loop of processFile / getHeaderFromCSV: scan the header row
      and stop at the first exact match. */
  method FindHeaderIndex(headerRow: Row, name: string) returns (index: int)
    ensures index == IndexOf(headerRow, name)
  {
    index := -1;
    var i := 0;
    while i < |headerRow|
      invariant 0 <= i <= |headerRow|
      invariant name !in headerRow[..i]
    {
      if headerRow[i] == name {
        index := i;
        break;
      }
      i := i + 1;
    }
    if index == -1 {
      assert headerRow[..i] == headerRow;
    }
  }

  /** A rarity score as a function of (count, total). The Go code computes
      math.Log10(float64(count) / float64(total)); floating point is not part
      of the model, so the score is a parameter of the scorers. */
  type ScoreFn = (nat, nat) -> real

  /** What log10(count / total) guarantees and the orderings below rely on:
      with the total fixed, more occurrences score strictly higher. */
  ghost predicate Increasing(score: ScoreFn)
  {
    forall c1, c2, t :: 0 < c1 < c2 <= t ==> score(c1, t) < score(c2, t)
  }

  /** Worker-pool size: half the number of files, clamped into [1, 10]. */
  function DetermineNumGoroutines(files: seq<string>): (n: nat)
    ensures 1 <= n <= 10
    ensures 1 <= |files| / 2 <= 10 ==> n == |files| / 2
    ensures |files| < 2 ==> n == 1
    ensures |files| >= 22 ==> n == 10
  {
    var half := |files| / 2;
    if half > 10 then 10
    else if half < 1 then 1
    else half
  }
}
