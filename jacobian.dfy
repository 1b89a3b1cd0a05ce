/** The block layout of `Jac_E_str`, the Jacobian of the text-line residuals: one row per base
    point, columns in the order of the parameter vector (theta, every page's a_m, every page's
    align pair, every line's l_k). The entries of the theta and a_m blocks come from the camera
    and surface formulas, which are parameters here. */
module Jacobian {
  import opened Seqs
  import opened Matrices
  import opened Layout

  /** A page's lines as the number of base points on each; the whole input as one such list per page. */
  type Pages = seq<seq<nat>>

  function Ones(n: nat): (s: seq<nat>)
    ensures |s| == n && forall k :: 0 <= k < n ==> s[k] == 1
  {
    seq(n, k => 1)
  }

  /** The -1 column of each line: `np.full((l.shape[-1], 1), -1)`. */
  function LineColumns(lines: seq<nat>): (ms: seq<Mat>)
    ensures RowsOf(ms) == lines && ColsOf(ms) == Ones(|lines|)
  {
    seq(|lines|, k requires 0 <= k < |lines| => Fill(lines[k], 1, -1.0))
  }

  /** `dE_str_dl_k(base_points)`: the residuals of a line move by -1 when its l_k moves by 1. */
  function DlK(lines: seq<nat>): (m: Mat)
    ensures |lines| > 0 ==> m.rows == Offset(lines, |lines|) && m.cols == |lines|
  {
    OffsetConst(Ones(|lines|), 1, |lines|);
    BlockDiag(LineColumns(lines))
  }

  /** A point of line k (row r + i, with r the rows of the lines before it) gets -1 in column k
      and 0 in every other line's column. */
  lemma DlKEntry(lines: seq<nat>, k: nat, i: nat, r: nat, c: nat)
    requires k < |lines| && i < lines[k] && r == Offset(lines, k) && c < |lines|
    ensures r + i < DlK(lines).rows
    ensures DlK(lines).entry(r + i, c) == if c == k then -1.0 else 0.0
  {
    if c == k {
      DlKOwnColumn(lines, k, i, r);
    } else {
      DlKOtherColumn(lines, k, i, r, c);
    }
  }

  lemma DlKOwnColumn(lines: seq<nat>, k: nat, i: nat, r: nat)
    requires k < |lines| && i < lines[k] && r == Offset(lines, k)
    ensures r + i < DlK(lines).rows
    ensures DlK(lines).entry(r + i, k) == -1.0
  {
    OffsetConst(Ones(|lines|), 1, k);
    DiagFillIn(LineColumns(lines), k, i, r, k, -1.0);
  }

  lemma DlKOtherColumn(lines: seq<nat>, k: nat, i: nat, r: nat, c: nat)
    requires k < |lines| && i < lines[k] && r == Offset(lines, k) && c != k
    ensures r + i < DlK(lines).rows
    ensures DlK(lines).entry(r + i, c) == 0.0
  {
    DiagColumnOut(LineColumns(lines), k, i, r, c);
  }

  /** Inside block k of a block diagonal whose block k is constant v. */
  lemma DiagFillIn(ms: seq<Mat>, k: nat, i: nat, r: nat, c: nat, v: real)
    requires k < |ms| && i < ms[k].rows && 0 < ms[k].cols && ms[k] == Fill(ms[k].rows, ms[k].cols, v)
    requires r == Offset(RowsOf(ms), k) && c == Offset(ColsOf(ms), k)
    ensures r + i < BlockDiag(ms).rows && BlockDiag(ms).entry(r + i, c) == v
  {
    BlockDiagIn(ms, k, i, 0, r + i, c);
  }

  /** When every block has one column, the rows of block k are zero outside column k. */
  lemma DiagColumnOut(ms: seq<Mat>, k: nat, i: nat, r: nat, col: nat)
    requires k < |ms| && i < ms[k].rows && forall q :: 0 <= q < |ms| ==> ms[q].cols == 1
    requires r == Offset(RowsOf(ms), k) && col != k
    ensures r + i < BlockDiag(ms).rows && BlockDiag(ms).entry(r + i, col) == 0.0
  {
    OffsetConst(ColsOf(ms), 1, k);
    OffsetConst(ColsOf(ms), 1, k + 1);
    BlockDiagOut(ms, k, i, r + i, col);
  }

  /** The number of base points of each page: the rows each page contributes. */
  function PageRows(pages: Pages): (rs: seq<nat>)
    ensures |rs| == |pages| && forall p :: 0 <= p < |pages| ==> rs[p] == Offset(pages[p], |pages[p]|)
  {
    seq(|pages|, p requires 0 <= p < |pages| => Offset(pages[p], |pages[p]|))
  }

  /** Page p's block of a per-page derivative, rows x cols, with entries d(p, row, col). */
  function PageBlock(rows: nat, cols: nat, d: (nat, nat, nat) -> real, p: nat): (m: Mat)
    ensures m.rows == rows && m.cols == cols
  {
    Mat(rows, cols, (i: nat, j: nat) => d(p, i, j))
  }

  /** `theta_blocks`: each page's 3-column `dE_str_dtheta`. */
  function ThetaBlocks(pages: Pages, dTheta: (nat, nat, nat) -> real): (ms: seq<Mat>)
    ensures RowsOf(ms) == PageRows(pages) && ColsOf(ms) == seq(|pages|, p => 3)
  {
    seq(|pages|, p requires 0 <= p < |pages| => PageBlock(PageRows(pages)[p], 3, dTheta, p))
  }

  /** `a_m_blocks`: each page's DEGREE-column `dE_str_dam`. */
  function AmBlocks(pages: Pages, dAm: (nat, nat, nat) -> real): (ms: seq<Mat>)
    ensures RowsOf(ms) == PageRows(pages) && ColsOf(ms) == seq(|pages|, p => DEGREE)
  {
    seq(|pages|, p requires 0 <= p < |pages| => PageBlock(PageRows(pages)[p], DEGREE, dAm, p))
  }

  /** `align_blocks`: the residuals do not depend on the align pairs. */
  function AlignBlocks(pages: Pages): (ms: seq<Mat>)
    ensures RowsOf(ms) == PageRows(pages) && ColsOf(ms) == seq(|pages|, p => 2)
  {
    seq(|pages|, p requires 0 <= p < |pages| => Zeros(PageRows(pages)[p], 2))
  }

  /** `l_k_blocks`: each page's `dE_str_dl_k`. */
  function LineBlocks(pages: Pages): (ms: seq<Mat>)
    requires forall p :: 0 <= p < |pages| ==> |pages[p]| > 0
    ensures RowsOf(ms) == PageRows(pages) && ColsOf(ms) == Lengths(pages)
  {
    seq(|pages|, p requires 0 <= p < |pages| => DlK(pages[p]))
  }

  /** numpy refuses to concatenate no pages, and a page without lines gives a 1 x 0
      `dE_str_dl_k` whose row count matches nothing: `Jac_E_str` needs a page and a line on each. */
  predicate HasLines(pages: Pages)
  {
    |pages| > 0 && forall p :: 0 <= p < |pages| ==> |pages[p]| > 0
  }

  /** `Jac_E_str(args, base_points)`: dTheta(p, row, j) and dAm(p, row, m) are the entries of page p's
      `dE_str_dtheta` and `dE_str_dam`. */
  function JacEStr(pages: Pages, dTheta: (nat, nat, nat) -> real, dAm: (nat, nat, nat) -> real): (J: Mat)
    requires HasLines(pages)
    ensures J.rows == Offset(PageRows(pages), |pages|)
    ensures J.cols == 3 + DEGREE * |pages| + 2 * |pages| + Offset(Lengths(pages), |pages|)
  {
    var P := |pages|;
    OffsetConst(seq(P, p => DEGREE), DEGREE, P);
    OffsetConst(seq(P, p => 2), 2, P);
    var theta := VConcat(ThetaBlocks(pages, dTheta), 3);
    var am := BlockDiag(AmBlocks(pages, dAm));
    var align := BlockDiag(AlignBlocks(pages));
    var lk := BlockDiag(LineBlocks(pages));
    HConcat(HConcat(HConcat(theta, am), align), lk)
  }

  /** Row ri of page p (row Offset(PageRows(pages), p) + ri of the Jacobian) carries page p's
      theta derivatives in the first 3 columns. */
  lemma JacThetaEntry(pages: Pages, dTheta: (nat, nat, nat) -> real, dAm: (nat, nat, nat) -> real,
                      p: nat, ri: nat, row: nat, j: nat)
    requires HasLines(pages) && p < |pages| && ri < PageRows(pages)[p]
    requires row == Offset(PageRows(pages), p) + ri && j < 3
    ensures row < JacEStr(pages, dTheta, dAm).rows
    ensures JacEStr(pages, dTheta, dAm).entry(row, j) == dTheta(p, ri, j)
  {
    VConcatAt(ThetaBlocks(pages, dTheta), 3, p, ri, j, row);
  }

  /** Column 3 + DEGREE * q + m is coefficient m of page q: page p's rows hold their own
      derivative there when q == p and zero for every other page. */
  lemma JacAmEntry(pages: Pages, dTheta: (nat, nat, nat) -> real, dAm: (nat, nat, nat) -> real,
                   p: nat, ri: nat, row: nat, q: nat, m: nat, col: nat)
    requires HasLines(pages) && p < |pages| && ri < PageRows(pages)[p]
    requires row == Offset(PageRows(pages), p) + ri
    requires q < |pages| && m < DEGREE && col == 3 + DEGREE * q + m
    ensures row < JacEStr(pages, dTheta, dAm).rows
    ensures JacEStr(pages, dTheta, dAm).entry(row, col) == if q == p then dAm(p, ri, m) else 0.0
  {
    AmEntry(pages, dAm, p, ri, row, q, m, DEGREE * q + m);
    JacAmAt(pages, dTheta, dAm, row, DEGREE * q + m, col);
  }

  lemma AmEntry(pages: Pages, dAm: (nat, nat, nat) -> real, p: nat, ri: nat, row: nat, q: nat, m: nat,
                c: nat)
    requires p < |pages| && ri < PageRows(pages)[p] && row == Offset(PageRows(pages), p) + ri
    requires q < |pages| && m < DEGREE && c == DEGREE * q + m
    ensures row < Offset(PageRows(pages), |pages|) && c < DEGREE * |pages|
    ensures BlockDiag(AmBlocks(pages, dAm)).entry(row, c) == if q == p then dAm(p, ri, m) else 0.0
  {
    var ms := AmBlocks(pages, dAm);
    OffsetConst(ColsOf(ms), DEGREE, q);
    OffsetConst(ColsOf(ms), DEGREE, p);
    OffsetConst(ColsOf(ms), DEGREE, p + 1);
    OffsetConst(ColsOf(ms), DEGREE, |pages|);
    if q == p {
      BlockDiagIn(ms, p, ri, m, row, c);
    } else {
      BlockDiagOut(ms, p, ri, row, c);
    }
  }

  /** The align columns are zero in every row. */
  lemma JacAlignZero(pages: Pages, dTheta: (nat, nat, nat) -> real, dAm: (nat, nat, nat) -> real,
                     row: nat, c: nat, col: nat)
    requires HasLines(pages) && row < JacEStr(pages, dTheta, dAm).rows
    requires c < 2 * |pages| && col == 3 + DEGREE * |pages| + c
    ensures JacEStr(pages, dTheta, dAm).entry(row, col) == 0.0
  {
    BlockDiagZero(AlignBlocks(pages), row, c);
    JacAlignAt(pages, dTheta, dAm, row, c, col);
  }

  /** Point i of line k of page p has -1 in the l column of that line,
      3 + (DEGREE + 2) * |pages| + Offset(Lengths(pages), p) + k, and 0 in every other l column. */
  lemma JacLineEntry(pages: Pages, dTheta: (nat, nat, nat) -> real, dAm: (nat, nat, nat) -> real,
                     p: nat, k: nat, i: nat, row: nat, c: nat, col: nat)
    requires HasLines(pages) && p < |pages| && k < |pages[p]| && i < pages[p][k]
    requires row == Offset(PageRows(pages), p) + Offset(pages[p], k) + i
    requires c < Offset(Lengths(pages), |pages|) && col == 3 + DEGREE * |pages| + 2 * |pages| + c
    ensures row < JacEStr(pages, dTheta, dAm).rows
    ensures JacEStr(pages, dTheta, dAm).entry(row, col) ==
      if c == Offset(Lengths(pages), p) + k then -1.0 else 0.0
  {
    LineEntry(pages, p, k, i, Offset(pages[p], k) + i, row, c);
    JacLineAt(pages, dTheta, dAm, row, c, col);
  }

  lemma LineEntry(pages: Pages, p: nat, k: nat, i: nat, ri: nat, row: nat, c: nat)
    requires HasLines(pages) && p < |pages| && k < |pages[p]| && i < pages[p][k]
    requires ri == Offset(pages[p], k) + i && row == Offset(PageRows(pages), p) + ri
    ensures row < Offset(PageRows(pages), |pages|)
    ensures BlockDiag(LineBlocks(pages)).entry(row, c) ==
      if c == Offset(Lengths(pages), p) + k then -1.0 else 0.0
  {
    var cp := Offset(Lengths(pages), p);
    PointRow(pages[p], k, i);
    if cp <= c < cp + |pages[p]| {
      LineBlockIn(pages, p, k, i, ri, row, cp, c - cp, c);
    } else {
      LineBlockOut(pages, p, ri, row, cp, c);
    }
  }

  /** Point i of line k lies among the page's rows. */
  lemma PointRow(lines: seq<nat>, k: nat, i: nat)
    requires k < |lines| && i < lines[k]
    ensures Offset(lines, k) + i < Offset(lines, |lines|)
  {
    OffsetStep(lines, k);
    OffsetMono(lines, k + 1, |lines|);
  }

  /** Columns of the l group outside page p's lines are zero in page p's rows. */
  lemma LineBlockOut(pages: Pages, p: nat, ri: nat, row: nat, cp: nat, c: nat)
    requires HasLines(pages) && p < |pages| && ri < PageRows(pages)[p]
    requires row == Offset(PageRows(pages), p) + ri
    requires cp == Offset(Lengths(pages), p) && (c < cp || cp + |pages[p]| <= c)
    ensures row < Offset(PageRows(pages), |pages|)
    ensures BlockDiag(LineBlocks(pages)).entry(row, c) == 0.0
  {
    OffsetStep(Lengths(pages), p);
    BlockDiagOut(LineBlocks(pages), p, ri, row, c);
  }

  /** Column cp + j of the l group, inside page p's lines (cp = Offset(Lengths(pages), p)). */
  lemma LineBlockIn(pages: Pages, p: nat, k: nat, i: nat, ri: nat, row: nat, cp: nat, j: nat, c: nat)
    requires HasLines(pages) && p < |pages| && k < |pages[p]| && i < pages[p][k]
    requires ri == Offset(pages[p], k) + i && ri < PageRows(pages)[p]
    requires row == Offset(PageRows(pages), p) + ri
    requires cp == Offset(Lengths(pages), p) && j < |pages[p]| && c == cp + j
    ensures row < Offset(PageRows(pages), |pages|)
    ensures BlockDiag(LineBlocks(pages)).entry(row, c) == if j == k then -1.0 else 0.0
  {
    BlockDiagIn(LineBlocks(pages), p, ri, j, row, c);
    DlKEntry(pages[p], k, i, Offset(pages[p], k), j);
  }

  /** The four column groups of the Jacobian, as `Jac_E_str` concatenates them. */
  lemma JacParts(pages: Pages, dTheta: (nat, nat, nat) -> real, dAm: (nat, nat, nat) -> real,
                 th: Mat, am: Mat, al: Mat, lk: Mat)
    requires HasLines(pages)
    requires th == VConcat(ThetaBlocks(pages, dTheta), 3) && am == BlockDiag(AmBlocks(pages, dAm))
    requires al == BlockDiag(AlignBlocks(pages)) && lk == BlockDiag(LineBlocks(pages))
    ensures th.rows == am.rows == al.rows == lk.rows == Offset(PageRows(pages), |pages|)
    ensures JacEStr(pages, dTheta, dAm) == HConcat(HConcat(HConcat(th, am), al), lk)
  {
  }

  /** The a_m group has DEGREE columns per page, the align group 2. */
  lemma AmWidth(pages: Pages, dAm: (nat, nat, nat) -> real)
    requires |pages| > 0
    ensures BlockDiag(AmBlocks(pages, dAm)).cols == DEGREE * |pages|
  {
    OffsetConst(ColsOf(AmBlocks(pages, dAm)), DEGREE, |pages|);
  }

  lemma AlignWidth(pages: Pages)
    requires |pages| > 0
    ensures BlockDiag(AlignBlocks(pages)).cols == 2 * |pages|
  {
    OffsetConst(ColsOf(AlignBlocks(pages)), 2, |pages|);
  }

  /** The Jacobian's a_m columns are the a_m block's. */
  lemma JacAmAt(pages: Pages, dTheta: (nat, nat, nat) -> real, dAm: (nat, nat, nat) -> real,
                row: nat, c: nat, col: nat)
    requires HasLines(pages) && row < Offset(PageRows(pages), |pages|)
    requires c < DEGREE * |pages| && col == 3 + c
    ensures JacEStr(pages, dTheta, dAm).entry(row, col) == BlockDiag(AmBlocks(pages, dAm)).entry(row, c)
  {
    var th := VConcat(ThetaBlocks(pages, dTheta), 3);
    var am := BlockDiag(AmBlocks(pages, dAm));
    var al := BlockDiag(AlignBlocks(pages));
    var lk := BlockDiag(LineBlocks(pages));
    JacParts(pages, dTheta, dAm, th, am, al, lk);
    AmWidth(pages, dAm);
    SecondBlock(th, am, al, lk, row, c, col);
  }

  /** Column th.cols + c of four blocks side by side is column c of the second. */
  lemma SecondBlock(th: Mat, am: Mat, al: Mat, lk: Mat, row: nat, c: nat, col: nat)
    requires th.rows == am.rows == al.rows == lk.rows && row < th.rows
    requires c < am.cols && col == th.cols + c
    ensures HConcat(HConcat(HConcat(th, am), al), lk).entry(row, col) == am.entry(row, c)
  {
    HConcatLeft(HConcat(HConcat(th, am), al), lk, row, col);
    HConcatLeft(HConcat(th, am), al, row, col);
    HConcatRight(th, am, row, c, col);
  }

  /** The Jacobian's align columns are the align block's. */
  lemma JacAlignAt(pages: Pages, dTheta: (nat, nat, nat) -> real, dAm: (nat, nat, nat) -> real,
                   row: nat, c: nat, col: nat)
    requires HasLines(pages) && row < Offset(PageRows(pages), |pages|)
    requires c < 2 * |pages| && col == 3 + DEGREE * |pages| + c
    ensures JacEStr(pages, dTheta, dAm).entry(row, col) == BlockDiag(AlignBlocks(pages)).entry(row, c)
  {
    var th := VConcat(ThetaBlocks(pages, dTheta), 3);
    var am := BlockDiag(AmBlocks(pages, dAm));
    var al := BlockDiag(AlignBlocks(pages));
    var lk := BlockDiag(LineBlocks(pages));
    JacParts(pages, dTheta, dAm, th, am, al, lk);
    AmWidth(pages, dAm);
    AlignWidth(pages);
    ThirdBlock(th, am, al, lk, row, c, col);
  }

  /** Column th.cols + am.cols + c of four blocks side by side is column c of the third. */
  lemma ThirdBlock(th: Mat, am: Mat, al: Mat, lk: Mat, row: nat, c: nat, col: nat)
    requires th.rows == am.rows == al.rows == lk.rows && row < th.rows
    requires c < al.cols && col == th.cols + am.cols + c
    ensures HConcat(HConcat(HConcat(th, am), al), lk).entry(row, col) == al.entry(row, c)
  {
    HConcatLeft(HConcat(HConcat(th, am), al), lk, row, col);
    HConcatRight(HConcat(th, am), al, row, c, col);
  }

  /** The Jacobian's l columns are the l block's. */
  lemma JacLineAt(pages: Pages, dTheta: (nat, nat, nat) -> real, dAm: (nat, nat, nat) -> real,
                  row: nat, c: nat, col: nat)
    requires HasLines(pages) && row < Offset(PageRows(pages), |pages|)
    requires c < Offset(Lengths(pages), |pages|) && col == 3 + DEGREE * |pages| + 2 * |pages| + c
    ensures JacEStr(pages, dTheta, dAm).entry(row, col) == BlockDiag(LineBlocks(pages)).entry(row, c)
  {
    var th := VConcat(ThetaBlocks(pages, dTheta), 3);
    var am := BlockDiag(AmBlocks(pages, dAm));
    var al := BlockDiag(AlignBlocks(pages));
    var lk := BlockDiag(LineBlocks(pages));
    JacParts(pages, dTheta, dAm, th, am, al, lk);
    AmWidth(pages, dAm);
    AlignWidth(pages);
    HConcatRight(HConcat(HConcat(th, am), al), lk, row, c, col);
  }
}
