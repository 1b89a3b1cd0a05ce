/** Dense matrices and the numpy/scipy assembly operations the Jacobian is built with:
    `np.full`, `np.zeros`, `np.concatenate` along either axis and `scipy.linalg.block_diag`. */
module Matrices {
  import opened Seqs

  /** A rows x cols matrix given by its entries; only (i, j) with i < rows and j < cols are
      meaningful. The shape is kept separately so that a matrix with no rows still has a column
      count, as numpy's (0, k) arrays do. */
  datatype Mat = Mat(rows: nat, cols: nat, entry: (nat, nat) -> real)

  /** `np.full((rows, cols), v)`. */
  function Fill(rows: nat, cols: nat, v: real): (m: Mat)
    ensures m.rows == rows && m.cols == cols
    ensures forall i: nat, j: nat :: i < rows && j < cols ==> m.entry(i, j) == v
  {
    Mat(rows, cols, (i: nat, j: nat) => v)
  }

  /** `np.zeros((rows, cols))`. */
  function Zeros(rows: nat, cols: nat): (m: Mat)
    ensures m.rows == rows && m.cols == cols
    ensures forall i: nat, j: nat :: i < rows && j < cols ==> m.entry(i, j) == 0.0
  {
    Fill(rows, cols, 0.0)
  }

  function RowsOf(ms: seq<Mat>): (rs: seq<nat>)
    ensures |rs| == |ms| && forall k :: 0 <= k < |ms| ==> rs[k] == ms[k].rows
  {
    seq(|ms|, k requires 0 <= k < |ms| => ms[k].rows)
  }

  function ColsOf(ms: seq<Mat>): (cs: seq<nat>)
    ensures |cs| == |ms| && forall k :: 0 <= k < |ms| ==> cs[k] == ms[k].cols
  {
    seq(|ms|, k requires 0 <= k < |ms| => ms[k].cols)
  }

  lemma RowsColsTail(ms: seq<Mat>)
    requires |ms| > 0
    ensures RowsOf(ms)[1..] == RowsOf(ms[1..]) && ColsOf(ms)[1..] == ColsOf(ms[1..])
  {
  }

  /** `np.concatenate((a, b), axis=1)`: the rows side by side (numpy demands equal row counts). */
  function HConcat(a: Mat, b: Mat): (m: Mat)
    requires a.rows == b.rows
    ensures m.rows == a.rows && m.cols == a.cols + b.cols
    ensures forall i: nat, j: nat :: i < m.rows && j < a.cols ==> m.entry(i, j) == a.entry(i, j)
    ensures forall i: nat, j: nat :: i < m.rows && a.cols <= j < m.cols ==>
      m.entry(i, j) == b.entry(i, j - a.cols)
  {
    Mat(a.rows, a.cols + b.cols, (i: nat, j: nat) => if j < a.cols then a.entry(i, j) else b.entry(i, j - a.cols))
  }

  /** Column col of a matrix left of b. */
  lemma HConcatLeft(a: Mat, b: Mat, row: nat, col: nat)
    requires a.rows == b.rows && row < a.rows && col < a.cols
    ensures HConcat(a, b).entry(row, col) == a.entry(row, col)
  {
  }

  /** Column col = a.cols + j of a matrix right of a is column j of b. */
  lemma HConcatRight(a: Mat, b: Mat, row: nat, j: nat, col: nat)
    requires a.rows == b.rows && row < a.rows && j < b.cols && col == a.cols + j
    ensures HConcat(a, b).entry(row, col) == b.entry(row, j)
  {
  }

  /** Entry (i, j) of the blocks stacked on top of each other. */
  function StackedEntry(ms: seq<Mat>, i: nat, j: nat): real
    decreases |ms|
  {
    if |ms| == 0 then 0.0
    else if i < ms[0].rows then ms[0].entry(i, j)
    else StackedEntry(ms[1..], i - ms[0].rows, j)
  }

  /** `np.concatenate(ms)` along the first axis, for blocks with `cols` columns; numpy refuses an
      empty list. */
  function VConcat(ms: seq<Mat>, cols: nat): (m: Mat)
    requires |ms| > 0 && forall k :: 0 <= k < |ms| ==> ms[k].cols == cols
    ensures m.rows == Offset(RowsOf(ms), |ms|) && m.cols == cols
  {
    Mat(Offset(RowsOf(ms), |ms|), cols, (i: nat, j: nat) => StackedEntry(ms, i, j))
  }

  /** Row i of block k sits after the rows of the blocks before it: row Offset(RowsOf(ms), k) + i. */
  lemma VConcatAt(ms: seq<Mat>, cols: nat, k: nat, i: nat, j: nat, row: nat)
    requires |ms| > 0 && forall k :: 0 <= k < |ms| ==> ms[k].cols == cols
    requires k < |ms| && i < ms[k].rows && row == Offset(RowsOf(ms), k) + i
    ensures row < VConcat(ms, cols).rows
    ensures VConcat(ms, cols).entry(row, j) == ms[k].entry(i, j)
  {
    OffsetStep(RowsOf(ms), k);
    OffsetMono(RowsOf(ms), k + 1, |ms|);
    StackedAt(ms, k, i, j);
  }

  lemma {:induction false} StackedAt(ms: seq<Mat>, k: nat, i: nat, j: nat)
    requires k < |ms| && i < ms[k].rows
    ensures StackedEntry(ms, Offset(RowsOf(ms), k) + i, j) == ms[k].entry(i, j)
    decreases k
  {
    if k > 0 {
      RowsColsTail(ms);
      OffsetTail(RowsOf(ms), k);
      StackedAt(ms[1..], k - 1, i, j);
    }
  }

  /** Entry (i, j) of the blocks laid along a diagonal: the first block in the top-left corner,
      the remaining blocks diagonally below and right of it, zeros elsewhere. */
  function DiagEntry(ms: seq<Mat>, i: nat, j: nat): real
    decreases |ms|
  {
    if |ms| == 0 then 0.0
    else if i < ms[0].rows && j < ms[0].cols then ms[0].entry(i, j)
    else if ms[0].rows <= i && ms[0].cols <= j then DiagEntry(ms[1..], i - ms[0].rows, j - ms[0].cols)
    else 0.0
  }

  /** `scipy.linalg.block_diag(*ms)`: the blocks along the diagonal, zeros elsewhere. Called with
      no blocks it returns an empty 1 x 0 array. */
  function BlockDiag(ms: seq<Mat>): (m: Mat)
    ensures |ms| == 0 ==> m.rows == 1 && m.cols == 0
    ensures |ms| > 0 ==> m.rows == Offset(RowsOf(ms), |ms|) && m.cols == Offset(ColsOf(ms), |ms|)
  {
    if |ms| == 0 then Mat(1, 0, (i: nat, j: nat) => 0.0)
    else Mat(Offset(RowsOf(ms), |ms|), Offset(ColsOf(ms), |ms|), (i: nat, j: nat) => DiagEntry(ms, i, j))
  }

  /** Inside the diagonal: entry (i, j) of block k sits at row Offset(RowsOf(ms), k) + i and
      column Offset(ColsOf(ms), k) + j. */
  lemma BlockDiagIn(ms: seq<Mat>, k: nat, i: nat, j: nat, row: nat, col: nat)
    requires k < |ms| && i < ms[k].rows && j < ms[k].cols
    requires row == Offset(RowsOf(ms), k) + i && col == Offset(ColsOf(ms), k) + j
    ensures row < BlockDiag(ms).rows && col < BlockDiag(ms).cols
    ensures BlockDiag(ms).entry(row, col) == ms[k].entry(i, j)
  {
    OffsetStep(RowsOf(ms), k);
    OffsetMono(RowsOf(ms), k + 1, |ms|);
    OffsetStep(ColsOf(ms), k);
    OffsetMono(ColsOf(ms), k + 1, |ms|);
    DiagEntryIn(ms, k, i, j);
  }

  lemma {:induction false} DiagEntryIn(ms: seq<Mat>, k: nat, i: nat, j: nat)
    requires k < |ms| && i < ms[k].rows && j < ms[k].cols
    ensures DiagEntry(ms, Offset(RowsOf(ms), k) + i, Offset(ColsOf(ms), k) + j) == ms[k].entry(i, j)
    decreases k
  {
    if k > 0 {
      RowsColsTail(ms);
      OffsetTail(RowsOf(ms), k);
      OffsetTail(ColsOf(ms), k);
      DiagEntryIn(ms[1..], k - 1, i, j);
    }
  }

  /** Outside the diagonal: in the rows of block k, every column outside block k's columns is zero. */
  lemma BlockDiagOut(ms: seq<Mat>, k: nat, i: nat, row: nat, col: nat)
    requires k < |ms| && i < ms[k].rows && row == Offset(RowsOf(ms), k) + i
    requires col < Offset(ColsOf(ms), k) || Offset(ColsOf(ms), k + 1) <= col
    ensures row < BlockDiag(ms).rows
    ensures BlockDiag(ms).entry(row, col) == 0.0
  {
    OffsetStep(RowsOf(ms), k);
    OffsetMono(RowsOf(ms), k + 1, |ms|);
    DiagEntryOut(ms, k, i, col);
  }

  lemma {:induction false} DiagEntryOut(ms: seq<Mat>, k: nat, i: nat, c: nat)
    requires k < |ms| && i < ms[k].rows
    requires c < Offset(ColsOf(ms), k) || Offset(ColsOf(ms), k + 1) <= c
    ensures DiagEntry(ms, Offset(RowsOf(ms), k) + i, c) == 0.0
    decreases k
  {
    if k == 0 {
      OffsetStep(ColsOf(ms), 0);
    } else {
      RowsColsTail(ms);
      OffsetTail(RowsOf(ms), k);
      if ms[0].cols <= c {
        OffsetTail(ColsOf(ms), k);
        OffsetTail(ColsOf(ms), k + 1);
        DiagEntryOut(ms[1..], k - 1, i, c - ms[0].cols);
      }
    }
  }

  /** A block diagonal of zero blocks is zero everywhere. */
  lemma BlockDiagZero(ms: seq<Mat>, row: nat, col: nat)
    requires forall q :: 0 <= q < |ms| ==> ms[q] == Zeros(ms[q].rows, ms[q].cols)
    ensures BlockDiag(ms).entry(row, col) == 0.0
  {
    if |ms| > 0 {
      DiagEntryZero(ms, row, col);
    }
  }

  lemma {:induction false} DiagEntryZero(ms: seq<Mat>, i: nat, j: nat)
    requires forall q :: 0 <= q < |ms| ==> ms[q] == Zeros(ms[q].rows, ms[q].cols)
    ensures DiagEntry(ms, i, j) == 0.0
    decreases |ms|
  {
    if |ms| > 0 && ms[0].rows <= i && ms[0].cols <= j {
      DiagEntryZero(ms[1..], i - ms[0].rows, j - ms[0].cols);
    }
  }

  lemma OffsetTail(sizes: seq<nat>, k: nat)
    requires 0 < k <= |sizes|
    ensures Offset(sizes, k) == sizes[0] + Offset(sizes[1..], k - 1)
  {
  }
}
