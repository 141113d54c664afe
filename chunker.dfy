/** The row chunker (`split_csv`): a table is cut into consecutive slices of
    at most `k` rows, each keeping the table's column header. */
module Chunker {

  /** A parsed table: its column names and its data rows, in order. The
      cells of a row are left abstract (type parameter `R`). */
  datatype Table<R> = Table(header: seq<string>, rows: seq<R>)

  /** Python's floor division `a // b` for a positive divisor: the largest
      `q` with `b * q <= a`, also for negative `a`. */
  function FloorDiv(a: int, b: int): (q: int)
    requires b > 0
    ensures b * q <= a < b * (q + 1)
  {
    a / b
  }

  /** The chunk count of `split_csv`, `(n - 1) // k + 1`, which is
      `ceil(n / k)`: the least count whose chunks of `k` rows cover `n`
      rows. In particular zero rows give zero chunks. */
  function NumChunks(n: nat, k: int): (c: nat)
    requires k > 0
    ensures (c - 1) * k < n <= c * k
    ensures c == 0 <==> n == 0
  {
    FloorDiv(n - 1, k) + 1
  }

  /** Python's slice `s[lo:hi]` for non-negative bounds: both bounds are
      clamped to the length, and an empty result when `lo >= hi`. */
  function Slice<T>(s: seq<T>, lo: nat, hi: nat): (r: seq<T>)
    ensures |r| == if lo < hi && lo < |s| then (if hi < |s| then hi else |s|) - lo else 0
    ensures forall j :: 0 <= j < |r| ==> r[j] == s[lo + j]
  {
    var h := if hi < |s| then hi else |s|;
    if lo < h then s[lo..h] else []
  }

  /** `split_csv(df, k)`: chunk `i` is the row slice `[i*k : (i+1)*k]` of the
      table, for `i` in `range(num_chunks)`; every chunk keeps the header. */
  function SplitCsv<R>(t: Table<R>, k: int): (chunks: seq<Table<R>>)
    requires k > 0
    ensures |chunks| == NumChunks(|t.rows|, k)
    ensures forall i :: 0 <= i < |chunks| ==> chunks[i].header == t.header
  {
    var c := NumChunks(|t.rows|, k);
    seq(c, i requires 0 <= i < c => Table(t.header, Slice(t.rows, i * k, (i + 1) * k)))
  }

  /** The rows of a sequence of chunks, concatenated in order. */
  function ConcatRows<R>(ts: seq<Table<R>>): seq<R> {
    if |ts| == 0 then [] else ConcatRows(ts[..|ts| - 1]) + ts[|ts| - 1].rows
  }

  function Min(a: int, b: int): int {
    if a < b then a else b
  }

  /** Multiplying by a non-negative factor keeps the order. */
  lemma {:induction false} MulMonotone(a: nat, b: nat, k: nat)
    requires a <= b
    ensures a * k <= b * k
    decreases b - a
  {
    if a < b {
      MulMonotone(a, b - 1, k);
      assert b * k == (b - 1) * k + k;
    }
  }

  /** Every chunk starts inside the table: `i * k < n` for `i < NumChunks(n, k)`. */
  lemma ChunkStartInRange(n: nat, k: int, i: nat)
    requires k > 0 && i < NumChunks(n, k)
    ensures i * k < n
  {
    var c := NumChunks(n, k);
    MulMonotone(i, c - 1, k);
  }

  /** Chunk `i` holds exactly the rows `[i*k, min((i+1)*k, n))` of the table:
      the slice end is clamped to the table, the start never is. */
  lemma ChunkRows<R>(t: Table<R>, k: int, i: nat)
    requires k > 0 && i < |SplitCsv(t, k)|
    ensures i * k < Min((i + 1) * k, |t.rows|)
    ensures SplitCsv(t, k)[i] == Table(t.header, t.rows[i * k..Min((i + 1) * k, |t.rows|)])
  {
    ChunkStartInRange(|t.rows|, k, i);
  }

  /** Every chunk but the last has exactly `k` rows; the last has between 1
      and `k` rows, namely `n - k * (N - 1)`; so no chunk is empty. */
  lemma ChunkSizes<R>(t: Table<R>, k: int)
    requires k > 0
    ensures forall i :: 0 <= i < |SplitCsv(t, k)| - 1 ==> |SplitCsv(t, k)[i].rows| == k
    ensures |SplitCsv(t, k)| > 0 ==>
      var last := |SplitCsv(t, k)| - 1;
      |SplitCsv(t, k)[last].rows| == |t.rows| - k * last &&
      1 <= |SplitCsv(t, k)[last].rows| <= k
  {
    var chunks, n := SplitCsv(t, k), |t.rows|;
    var c := |chunks|;
    forall i | 0 <= i < c - 1 ensures |chunks[i].rows| == k {
      ChunkStartInRange(n, k, i + 1);
      assert (i + 1) * k == i * k + k;
      ChunkStartInRange(n, k, i);
    }
    if c > 0 {
      ChunkStartInRange(n, k, c - 1);
      assert c * k == (c - 1) * k + k;
    }
  }

  /** Taking one more chunk appends that chunk's rows. */
  lemma ConcatRowsStep<R>(ts: seq<Table<R>>, i: nat)
    requires i < |ts|
    ensures ConcatRows(ts[..i + 1]) == ConcatRows(ts[..i]) + ts[i].rows
  {
    assert ts[..i + 1][..i] == ts[..i];
  }

  /** The first `j` chunks, concatenated, are the first `min(j*k, n)` rows. */
  lemma {:induction false} ConcatPrefix<R>(t: Table<R>, k: int, j: nat)
    requires k > 0 && j <= |SplitCsv(t, k)|
    ensures ConcatRows(SplitCsv(t, k)[..j]) == t.rows[..Min(j * k, |t.rows|)]
  {
    var chunks, n := SplitCsv(t, k), |t.rows|;
    if j > 0 {
      var i := j - 1;
      ConcatPrefix(t, k, i);
      ChunkRows(t, k, i);
      var lo, hi := i * k, Min((i + 1) * k, n);
      assert i + 1 == j;
      assert Min(lo, n) == lo;
      assert chunks[i].rows == t.rows[lo..hi];
      ConcatRowsStep(chunks, i);
      assert t.rows[..lo] + t.rows[lo..hi] == t.rows[..hi];
    }
  }

  /** Concatenating the chunks in order gives back the table's rows: no row
      is dropped, duplicated or moved. */
  lemma ConcatChunks<R>(t: Table<R>, k: int)
    requires k > 0
    ensures ConcatRows(SplitCsv(t, k)) == t.rows
  {
    var chunks, n := SplitCsv(t, k), |t.rows|;
    ConcatPrefix(t, k, |chunks|);
    assert chunks[..|chunks|] == chunks;
    assert Min(|chunks| * k, n) == n;
  }
}
