/** The text-line residuals `E_str` and `E_str_packed`: for every line, the projected heights Ys of
    its base points minus the line's fitted position l_k, concatenated line by line and page by
    page. The heights come from the camera and surface model (`newton.t_i_k`); here they are the
    input `ys`, one list of heights per line per page. */
module Residuals {
  import opened Wrappers
  import opened Seqs
  import opened Matrices
  import opened NormPolys
  import opened Layout
  import opened Jacobian

  /** What `E_str_packed` can raise. */
  datatype ResidualError =
    | UnpackFailed(e: UnpackError)   // raised by `unpack_args`
    | LineCountMismatch              // `assert len(base_points) == l_m.shape[0]`
    | NoLines                        // `np.concatenate([])` on a page without lines

  /** The heights of a page's lines: per line, one height per base point. */
  type PageYs = seq<seq<real>>

  /** The number of base points of every line of every page, the shape the Jacobian is laid out by. */
  function PointCounts(ys: seq<PageYs>): (pages: Pages)
    ensures |pages| == |ys| && forall p :: 0 <= p < |ys| ==> pages[p] == Lengths(ys[p])
  {
    seq(|ys|, p requires 0 <= p < |ys| => Lengths(ys[p]))
  }

  /** `Ys - l_k`: numpy broadcasts the scalar over the line's heights. */
  function LineResiduals(ys: seq<real>, l: real): (r: seq<real>)
    ensures |r| == |ys|
  {
    seq(|ys|, i requires 0 <= i < |ys| => ys[i] - l)
  }

  /** `E_str(theta, g, l_m, base_points, page_idx)` once the page's n lines have been projected to
      the heights ys: the line count is checked against l_m, then `zip` pairs heights and l values. */
  function PageResiduals(n: nat, ys: PageYs, lM: seq<real>): (r: Result<seq<real>, ResidualError>)
    ensures r.Success? <==> n == |lM| && Min(|ys|, |lM|) > 0
    ensures r.Failure? ==> r.error == (if n != |lM| then LineCountMismatch else NoLines)
  {
    if n != |lM| then Failure(LineCountMismatch)
    else
      var m := Min(|ys|, |lM|);
      if m == 0 then Failure(NoLines)
      else Success(Flatten(seq(m, k requires 0 <= k < m => LineResiduals(ys[k], lM[k]))))
  }

  /** Point i of line k of a page is residual Offset(Lengths(ys), k) + i: its height minus l_k. */
  lemma PageResidualAt(ys: PageYs, lM: seq<real>, k: nat, i: nat, ri: nat)
    requires |ys| == |lM| > 0 && k < |ys| && i < |ys[k]|
    requires ri == Offset(Lengths(ys), k) + i
    ensures ri < |PageResiduals(|ys|, ys, lM).value|
    ensures PageResiduals(|ys|, ys, lM).value[ri] == ys[k][i] - lM[k]
  {
    var m := Min(|ys|, |lM|);
    var lines := seq(m, k requires 0 <= k < m => LineResiduals(ys[k], lM[k]));
    assert Lengths(lines) == Lengths(ys);
    OffsetIsCut(Lengths(ys), k);
    FlattenAt(lines, k, i);
  }

  /** A page's residual vector has one entry per base point. */
  lemma PageResidualsLength(ys: PageYs, lM: seq<real>)
    requires |ys| == |lM| > 0
    ensures |PageResiduals(|ys|, ys, lM).value| == Offset(Lengths(ys), |ys|)
  {
    var m := Min(|ys|, |lM|);
    var lines := seq(m, k requires 0 <= k < m => LineResiduals(ys[k], lM[k]));
    assert Lengths(lines) == Lengths(ys);
    FlattenLength(lines);
    OffsetIsCut(Lengths(ys), |ys|);
    CutAll(Lengths(ys));
  }

  /** The loop of `E_str_packed` over the pages: every page's residuals in order, or the error of
      the first page that fails. */
  function PageVectors(counts: seq<nat>, ys: seq<PageYs>, lMs: seq<seq<real>>): (r: Result<seq<seq<real>>, ResidualError>)
    requires |counts| == |ys| == |lMs|
    ensures r.Success? <==> forall p :: 0 <= p < |ys| ==> PageResiduals(counts[p], ys[p], lMs[p]).Success?
    ensures r.Success? ==>
      && |r.value| == |ys|
      && (forall p :: 0 <= p < |ys| ==> r.value[p] == PageResiduals(counts[p], ys[p], lMs[p]).value)
    decreases |ys|
  {
    if |ys| == 0 then Success([])
    else
      var n := |ys| - 1;
      match PageVectors(counts[..n], ys[..n], lMs[..n])
      case Failure(e) => Failure(e)
      case Success(vs) =>
        match PageResiduals(counts[n], ys[n], lMs[n])
        case Failure(e) => Failure(e)
        case Success(v) => Success(vs + [v])
  }

  /** The projection of a page: given theta, the page's polynomial g and the page index, the
      heights Ys of the base points of each of its lines (`E_str_project`, then the surface's Ys). */
  type Heights = (seq<real>, NormPoly, nat) -> PageYs

  /** Every page projected with the unpacked theta and its own polynomial. */
  function ProjectPages(u: Unpacked, heights: Heights): (ys: seq<PageYs>)
    ensures |ys| == |u.gs|
  {
    seq(|u.gs|, p requires 0 <= p < |u.gs| => heights(u.theta, u.gs[p], p))
  }

  /** The error `E_str_packed` raises is that of the first page whose `E_str` fails. */
  lemma {:induction false} FirstFailure(counts: seq<nat>, ys: seq<PageYs>, lMs: seq<seq<real>>)
    requires |counts| == |ys| == |lMs| && PageVectors(counts, ys, lMs).Failure?
    ensures exists p ::
      && 0 <= p < |ys|
      && PageResiduals(counts[p], ys[p], lMs[p]) == Failure(PageVectors(counts, ys, lMs).error)
      && (forall q :: 0 <= q < p ==> PageResiduals(counts[q], ys[q], lMs[q]).Success?)
    decreases |ys|
  {
    var n := |ys| - 1;
    var front := PageVectors(counts[..n], ys[..n], lMs[..n]);
    var e := PageVectors(counts, ys, lMs).error;
    var p: nat := n;
    if front.Failure? {
      FirstFailure(counts[..n], ys[..n], lMs[..n]);
      p :| && 0 <= p < n
           && PageResiduals(counts[..n][p], ys[..n][p], lMs[..n][p]) == Failure(front.error)
           && (forall q :: 0 <= q < p ==> PageResiduals(counts[..n][q], ys[..n][q], lMs[..n][q]).Success?);
      assert e == front.error;
    } else {
      assert forall q :: 0 <= q < n ==> PageResiduals(counts[..n][q], ys[..n][q], lMs[..n][q]).Success?;
    }
    assert PageResiduals(counts[p], ys[p], lMs[p]) == Failure(e);
    assert forall q :: 0 <= q < p ==> PageResiduals(counts[q], ys[q], lMs[q]).Success?;
  }

  /** One more page that succeeds extends the vectors of the pages before it. */
  lemma VectorsGrow(counts: seq<nat>, ys: seq<PageYs>, lMs: seq<seq<real>>, i: nat, vs: seq<seq<real>>, v: seq<real>)
    requires |counts| == |ys| == |lMs| && i < |ys|
    requires PageVectors(counts[..i], ys[..i], lMs[..i]) == Success(vs)
    requires PageResiduals(counts[i], ys[i], lMs[i]) == Success(v)
    ensures PageVectors(counts[..i + 1], ys[..i + 1], lMs[..i + 1]) == Success(vs + [v])
  {
    assert counts[..i + 1][..i] == counts[..i] && ys[..i + 1][..i] == ys[..i] && lMs[..i + 1][..i] == lMs[..i];
  }

  /** The first page that fails decides the error of the whole loop. */
  lemma VectorsStop(counts: seq<nat>, ys: seq<PageYs>, lMs: seq<seq<real>>, i: nat)
    requires |counts| == |ys| == |lMs| && i < |ys|
    requires PageVectors(counts[..i], ys[..i], lMs[..i]).Success?
    requires PageResiduals(counts[i], ys[i], lMs[i]).Failure?
    ensures PageVectors(counts, ys, lMs) == Failure(PageResiduals(counts[i], ys[i], lMs[i]).error)
  {
    assert counts[..i + 1][..i] == counts[..i] && ys[..i + 1][..i] == ys[..i] && lMs[..i + 1][..i] == lMs[..i];
    PrefixFailure(counts, ys, lMs, i + 1);
  }

  /** Once the pages before m have produced an error, the later pages do not matter. */
  lemma {:induction false} PrefixFailure(counts: seq<nat>, ys: seq<PageYs>, lMs: seq<seq<real>>, m: nat)
    requires |counts| == |ys| == |lMs| && m <= |ys|
    requires PageVectors(counts[..m], ys[..m], lMs[..m]).Failure?
    ensures PageVectors(counts, ys, lMs) == PageVectors(counts[..m], ys[..m], lMs[..m])
    decreases |ys| - m
  {
    if m == |ys| {
      assert counts[..m] == counts && ys[..m] == ys && lMs[..m] == lMs;
    } else {
      var n := |ys| - 1;
      assert counts[..n][..m] == counts[..m] && ys[..n][..m] == ys[..m] && lMs[..n][..m] == lMs[..m];
      PrefixFailure(counts[..n], ys[..n], lMs[..n], m);
      FailureStep(counts, ys, lMs);
    }
  }

  /** A failure among the pages before the last is the failure of all pages. */
  lemma FailureStep(counts: seq<nat>, ys: seq<PageYs>, lMs: seq<seq<real>>)
    requires |counts| == |ys| == |lMs| > 0
    requires PageVectors(counts[..|ys| - 1], ys[..|ys| - 1], lMs[..|ys| - 1]).Failure?
    ensures PageVectors(counts, ys, lMs) == PageVectors(counts[..|ys| - 1], ys[..|ys| - 1], lMs[..|ys| - 1])
  {
  }

  /** `E_str_packed(args, base_points)`: counts[p] is the number of lines of page p. */
  function PackedResiduals(args: seq<real>, counts: seq<nat>, heights: Heights): (r: Result<seq<real>, ResidualError>)
  {
    match UnpackArgs(args, |counts|)
    case Failure(e) => Failure(UnpackFailed(e))
    case Success(u) => SplitResiduals(u.lMAll, counts, ProjectPages(u, heights))
  }

  /** Page p's polynomial read straight from the vector: zero constant term, then the page's
      DEGREE coefficients. */
  function PagePoly(args: seq<real>, p: nat): (g: NormPoly)
    requires 3 + DEGREE * p + DEGREE <= |args|
    ensures g.coef == [0.0] + args[3 + DEGREE * p..3 + DEGREE * p + DEGREE] && g.omega == OMEGA
  {
    ZeroConstant(args[3 + DEGREE * p..3 + DEGREE * p + DEGREE], OMEGA)
  }

  /** The heights of every page under the theta and polynomials stored in the vector. */
  function PageHeights(args: seq<real>, heights: Heights, nPages: nat): (ys: seq<PageYs>)
    requires 3 + DEGREE * nPages <= |args|
    ensures |ys| == nPages
  {
    seq(nPages, p requires 0 <= p < nPages => heights(args[..3], PagePoly(args, p), p))
  }

  /** The part of `E_str_packed` after unpacking: `l_m_all` split at the line counts of all pages
      but the last, each page's `E_str`, concatenated. */
  function SplitResiduals(lMAll: seq<real>, counts: seq<nat>, ys: seq<PageYs>): (r: Result<seq<real>, ResidualError>)
    requires |counts| == |ys| > 0
  {
    match PageVectors(counts, ys, SplitLengths(lMAll, counts[..|counts| - 1]))
    case Failure(e) => Failure(e)
    case Success(vs) => Success(Flatten(vs))
  }

  /** Where page p's l_k sits in the parameter vector: after theta, the DEGREE coefficients and two
      align values of every page, and the lines of the pages before. */
  function LineColumn(counts: seq<nat>, p: nat, k: nat): (col: nat)
    requires p < |counts| && k < counts[p]
    ensures 3 + (DEGREE + 2) * |counts| <= col < 3 + (DEGREE + 2) * |counts| + Offset(counts, |counts|)
  {
    OffsetStep(counts, p);
    OffsetMono(counts, p + 1, |counts|);
    3 + DEGREE * |counts| + 2 * |counts| + Offset(counts, p) + k
  }

  /** The vector has one l_k per line after the per-page blocks, and every page has a line. */
  predicate Fits(args: seq<real>, ys: seq<PageYs>)
  {
    && HasLines(PointCounts(ys))
    && |args| == 3 + (DEGREE + 2) * |ys| + Offset(Lengths(ys), |ys|)
  }

  /** Splitting the l values at the line counts of all pages but the last gives page p exactly its
      own lines' values. */
  lemma PieceOf(lMAll: seq<real>, all: seq<nat>, ls: seq<nat>, p: nat)
    requires p < |all| && ls == all[..|all| - 1] && |lMAll| == Offset(all, |all|)
    ensures Offset(all, p) + all[p] <= |lMAll|
    ensures SplitLengths(lMAll, ls)[p] == lMAll[Offset(all, p)..Offset(all, p) + all[p]]
  {
    PieceBound(all, p);
    if p < |all| - 1 {
      InnerPiece(lMAll, all, ls, p);
    } else {
      LastPiece(lMAll, all, ls, p);
    }
  }

  lemma PieceBound(all: seq<nat>, p: nat)
    requires p < |all|
    ensures Offset(all, p) + all[p] == Offset(all, p + 1) <= Offset(all, |all|)
  {
    OffsetStep(all, p);
    OffsetMono(all, p + 1, |all|);
  }

  /** A page before the last: the piece between two cut points. */
  lemma InnerPiece(lMAll: seq<real>, all: seq<nat>, ls: seq<nat>, p: nat)
    requires p + 1 < |all| && ls == all[..|all| - 1]
    requires Offset(all, p) + all[p] == Offset(all, p + 1) <= |lMAll|
    ensures SplitLengths(lMAll, ls)[p] == lMAll[Offset(all, p)..Offset(all, p) + all[p]]
  {
    CutOfPrefix(all, ls, p);
    CutOfPrefix(all, ls, p + 1);
    SplitLengthsPiece(lMAll, ls, p);
  }

  /** Cut points of the leading lengths are the offsets of the full list. */
  lemma CutOfPrefix(all: seq<nat>, ls: seq<nat>, j: nat)
    requires |ls| <= |all| && ls == all[..|ls|] && j <= |ls|
    ensures Cut(ls, j) == Offset(all, j)
  {
    assert ls[..j] == all[..j];
    OffsetIsCut(all, j);
  }

  /** The last page: the remainder after every other page's lines. */
  lemma LastPiece(lMAll: seq<real>, all: seq<nat>, ls: seq<nat>, p: nat)
    requires p + 1 == |all| && ls == all[..p]
    requires Offset(all, p) + all[p] == Offset(all, p + 1) == |lMAll|
    ensures SplitLengths(lMAll, ls)[p] == lMAll[Offset(all, p)..Offset(all, p) + all[p]]
  {
    CutOfPrefix(all, ls, p);
    CutAll(ls);
    SplitLengthsRemainder(lMAll, ls);
  }

  /** On a fitting vector, unpacking hands the pages' projections under the stored theta and
      polynomials, and the l values after the per-page blocks, to the per-page loop. */
  lemma PackedParts(args: seq<real>, heights: Heights, ys: seq<PageYs>, lMAll: seq<real>)
    requires |ys| > 0 && |args| >= 3 + (DEGREE + 2) * |ys|
    requires ys == PageHeights(args, heights, |ys|) && lMAll == args[3 + (DEGREE + 2) * |ys|..]
    ensures PackedResiduals(args, Lengths(ys), heights) == SplitResiduals(lMAll, Lengths(ys), ys)
  {
    UnpackedHeights(args, |ys|, heights, ys);
    PackedFromParts(args, Lengths(ys), heights, lMAll, ys);
  }

  lemma PackedFromParts(args: seq<real>, counts: seq<nat>, heights: Heights, lMAll: seq<real>, ys: seq<PageYs>)
    requires |counts| == |ys| && UnpackArgs(args, |counts|).Success?
    requires UnpackArgs(args, |counts|).value.lMAll == lMAll
    requires ProjectPages(UnpackArgs(args, |counts|).value, heights) == ys
    ensures PackedResiduals(args, counts, heights) == SplitResiduals(lMAll, counts, ys)
  {
  }

  lemma UnpackedHeights(args: seq<real>, nPages: nat, heights: Heights, ys: seq<PageYs>)
    requires nPages > 0 && |args| >= 3 + (DEGREE + 2) * nPages
    requires ys == PageHeights(args, heights, nPages)
    ensures UnpackArgs(args, nPages).Success?
    ensures UnpackArgs(args, nPages).value.lMAll == args[3 + (DEGREE + 2) * nPages..]
    ensures ProjectPages(UnpackArgs(args, nPages).value, heights) == ys
  {
    UnpackArgsLayout(args, nPages);
    UnpackedPolys(args, nPages);
    var u := UnpackArgs(args, nPages).value;
    forall p | 0 <= p < nPages
      ensures u.gs[p] == PagePoly(args, p)
    {
    }
  }

  /** The projections depend on nothing after the coefficient blocks. */
  lemma HeightsPrefix(args: seq<real>, moved: seq<real>, heights: Heights, nPages: nat)
    requires 3 + DEGREE * nPages <= |args| == |moved|
    requires args[..3 + DEGREE * nPages] == moved[..3 + DEGREE * nPages]
    ensures PageHeights(moved, heights, nPages) == PageHeights(args, heights, nPages)
  {
    assert args[..3] == args[..3 + DEGREE * nPages][..3];
    assert moved[..3] == moved[..3 + DEGREE * nPages][..3];
    forall p | 0 <= p < nPages
      ensures PagePoly(moved, p) == PagePoly(args, p)
    {
      assert args[3 + DEGREE * p..3 + DEGREE * p + DEGREE] ==
        args[..3 + DEGREE * nPages][3 + DEGREE * p..3 + DEGREE * p + DEGREE];
      assert moved[3 + DEGREE * p..3 + DEGREE * p + DEGREE] ==
        moved[..3 + DEGREE * nPages][3 + DEGREE * p..3 + DEGREE * p + DEGREE];
    }
  }

  /** With one l value per line, every page's `E_str` succeeds. */
  lemma PagesSucceed(ys: seq<PageYs>, lMAll: seq<real>, lMs: seq<seq<real>>)
    requires HasLines(PointCounts(ys)) && |lMAll| == Offset(Lengths(ys), |ys|)
    requires lMs == SplitLengths(lMAll, Lengths(ys)[..|ys| - 1])
    ensures PageVectors(Lengths(ys), ys, lMs).Success?
    ensures SplitResiduals(lMAll, Lengths(ys), ys) == Success(Flatten(PageVectors(Lengths(ys), ys, lMs).value))
  {
    forall p | 0 <= p < |ys|
      ensures PageResiduals(|ys[p]|, ys[p], lMs[p]).Success?
    {
      PieceOf(lMAll, Lengths(ys), Lengths(ys)[..|ys| - 1], p);
      assert |ys[p]| == |PointCounts(ys)[p]| > 0;
    }
  }

  /** Every page's residual vector has one entry per base point of the page. */
  lemma PageSizes(ys: seq<PageYs>, lMAll: seq<real>, lMs: seq<seq<real>>, vs: seq<seq<real>>)
    requires HasLines(PointCounts(ys)) && |lMAll| == Offset(Lengths(ys), |ys|)
    requires lMs == SplitLengths(lMAll, Lengths(ys)[..|ys| - 1])
    requires PageVectors(Lengths(ys), ys, lMs).Success? && vs == PageVectors(Lengths(ys), ys, lMs).value
    ensures Lengths(vs) == PageRows(PointCounts(ys))
  {
    forall p | 0 <= p < |ys|
      ensures |vs[p]| == PageRows(PointCounts(ys))[p]
    {
      PieceOf(lMAll, Lengths(ys), Lengths(ys)[..|ys| - 1], p);
      assert |ys[p]| == |PointCounts(ys)[p]| > 0;
      PageResidualsLength(ys[p], lMs[p]);
    }
  }

  /** After unpacking: one residual per base point of every page. */
  lemma SplitResidualsLength(ys: seq<PageYs>, lMAll: seq<real>)
    requires HasLines(PointCounts(ys)) && |lMAll| == Offset(Lengths(ys), |ys|)
    ensures SplitResiduals(lMAll, Lengths(ys), ys).Success?
    ensures |SplitResiduals(lMAll, Lengths(ys), ys).value| == Offset(PageRows(PointCounts(ys)), |ys|)
  {
    var lMs := SplitLengths(lMAll, Lengths(ys)[..|ys| - 1]);
    PagesSucceed(ys, lMAll, lMs);
    var vs := PageVectors(Lengths(ys), ys, lMs).value;
    PageSizes(ys, lMAll, lMs, vs);
    FlattenLength(vs);
    OffsetIsCut(Lengths(vs), |vs|);
    CutAll(Lengths(vs));
  }

  /** After unpacking: point i of line k of page p is its height minus the page's k-th l value. */
  lemma SplitResidualAt(ys: seq<PageYs>, lMAll: seq<real>, p: nat, k: nat, i: nat, row: nat)
    requires HasLines(PointCounts(ys)) && |lMAll| == Offset(Lengths(ys), |ys|)
    requires p < |ys| && k < |ys[p]| && i < |ys[p][k]|
    requires row == Offset(PageRows(PointCounts(ys)), p) + Offset(Lengths(ys[p]), k) + i
    ensures Offset(Lengths(ys), p) + k < |lMAll|
    ensures SplitResiduals(lMAll, Lengths(ys), ys).Success? && row < |SplitResiduals(lMAll, Lengths(ys), ys).value|
    ensures SplitResiduals(lMAll, Lengths(ys), ys).value[row] == ys[p][k][i] - lMAll[Offset(Lengths(ys), p) + k]
  {
    var lMs := SplitLengths(lMAll, Lengths(ys)[..|ys| - 1]);
    LineValue(lMAll, ys, lMs, p, k);
    var ri := Offset(Lengths(ys[p]), k) + i;
    PageResidualAt(ys[p], lMs[p], k, i, ri);
    PagesSucceed(ys, lMAll, lMs);
    var vs := PageVectors(Lengths(ys), ys, lMs).value;
    PageSizes(ys, lMAll, lMs, vs);
    RowOfPage(vs, PageRows(PointCounts(ys)), p, ri, row);
  }

  /** Page p's k-th l value is entry Offset(Lengths(ys), p) + k of `l_m_all`. */
  lemma LineValue(lMAll: seq<real>, ys: seq<PageYs>, lMs: seq<seq<real>>, p: nat, k: nat)
    requires p < |ys| && k < |ys[p]| && |lMAll| == Offset(Lengths(ys), |ys|)
    requires lMs == SplitLengths(lMAll, Lengths(ys)[..|ys| - 1])
    ensures Offset(Lengths(ys), p) + k < |lMAll| && |lMs[p]| == |ys[p]|
    ensures lMs[p][k] == lMAll[Offset(Lengths(ys), p) + k]
  {
    PieceOf(lMAll, Lengths(ys), Lengths(ys)[..|ys| - 1], p);
  }

  /** Entry ri of block p sits at the block's offset plus ri in the concatenation. */
  lemma RowOfPage(vs: seq<seq<real>>, sizes: seq<nat>, p: nat, ri: nat, row: nat)
    requires Lengths(vs) == sizes && p < |vs| && ri < |vs[p]|
    requires row == Offset(sizes, p) + ri
    ensures row < |Flatten(vs)| && Flatten(vs)[row] == vs[p][ri]
  {
    OffsetIsCut(sizes, p);
    FlattenAt(vs, p, ri);
  }

  /** `E_str_packed` succeeds on a fitting vector, with one residual per base point. */
  lemma PackedResidualsLength(args: seq<real>, heights: Heights, ys: seq<PageYs>)
    requires 3 + DEGREE * |ys| <= |args| && ys == PageHeights(args, heights, |ys|) && Fits(args, ys)
    ensures PackedResiduals(args, Lengths(ys), heights).Success?
    ensures |PackedResiduals(args, Lengths(ys), heights).value| == Offset(PageRows(PointCounts(ys)), |ys|)
  {
    var lMAll := args[3 + (DEGREE + 2) * |ys|..];
    PackedParts(args, heights, ys, lMAll);
    SplitResidualsLength(ys, lMAll);
  }

  /** Residual row of point i of line k of page p (the row the Jacobian gives that point) is that
      point's height, projected with the stored theta and page polynomial, minus the l_k stored at
      LineColumn. */
  lemma PackedResidualAt(args: seq<real>, heights: Heights, ys: seq<PageYs>, p: nat, k: nat, i: nat, row: nat)
    requires 3 + DEGREE * |ys| <= |args| && ys == PageHeights(args, heights, |ys|) && Fits(args, ys)
    requires p < |ys| && k < |ys[p]| && i < |ys[p][k]|
    requires row == Offset(PageRows(PointCounts(ys)), p) + Offset(Lengths(ys[p]), k) + i
    ensures PackedResiduals(args, Lengths(ys), heights).Success?
    ensures row < |PackedResiduals(args, Lengths(ys), heights).value|
    ensures PackedResiduals(args, Lengths(ys), heights).value[row] ==
      heights(args[..3], PagePoly(args, p), p)[k][i] - args[LineColumn(Lengths(ys), p, k)]
  {
    var lMAll := args[3 + (DEGREE + 2) * |ys|..];
    PackedParts(args, heights, ys, lMAll);
    SplitResidualAt(ys, lMAll, p, k, i, row);
    ColumnValue(args, ys, lMAll, p, k);
  }

  /** The l value at LineColumn is entry Offset(Lengths(ys), p) + k of `l_m_all`. */
  lemma ColumnValue(args: seq<real>, ys: seq<PageYs>, lMAll: seq<real>, p: nat, k: nat)
    requires Fits(args, ys) && p < |ys| && k < |ys[p]| && lMAll == args[3 + (DEGREE + 2) * |ys|..]
    ensures Offset(Lengths(ys), p) + k < |lMAll|
    ensures args[LineColumn(Lengths(ys), p, k)] == lMAll[Offset(Lengths(ys), p) + k]
  {
    var col := LineColumn(Lengths(ys), p, k);
  }

  /** The residuals are affine in every l value with the slope `Jac_E_str` gives: moving column
      col of the l group by d leaves every projection alone and moves residual row by d times the
      Jacobian's entry there (-1 in the point's own line column, 0 elsewhere). */
  lemma ResidualSlope(args: seq<real>, heights: Heights, ys: seq<PageYs>, dTheta: (nat, nat, nat) -> real,
                      dAm: (nat, nat, nat) -> real, p: nat, k: nat, i: nat, row: nat, c: nat, col: nat,
                      d: real)
    requires 3 + DEGREE * |ys| <= |args| && ys == PageHeights(args, heights, |ys|) && Fits(args, ys)
    requires p < |ys| && k < |ys[p]| && i < |ys[p][k]|
    requires row == Offset(PageRows(PointCounts(ys)), p) + Offset(Lengths(ys[p]), k) + i
    requires c < Offset(Lengths(ys), |ys|) && col == 3 + DEGREE * |ys| + 2 * |ys| + c
    ensures col < |args| && PageHeights(args[col := args[col] + d], heights, |ys|) == ys
    ensures PackedResiduals(args, Lengths(ys), heights).Success?
    ensures row < |PackedResiduals(args, Lengths(ys), heights).value|
    ensures PackedResiduals(args[col := args[col] + d], Lengths(ys), heights).Success?
    ensures row < |PackedResiduals(args[col := args[col] + d], Lengths(ys), heights).value|
    ensures PackedResiduals(args[col := args[col] + d], Lengths(ys), heights).value[row] ==
      PackedResiduals(args, Lengths(ys), heights).value[row] +
        d * JacEStr(PointCounts(ys), dTheta, dAm).entry(row, col)
  {
    var moved := args[col := args[col] + d];
    assert moved[..3 + DEGREE * |ys|] == args[..3 + DEGREE * |ys|];
    HeightsPrefix(args, moved, heights, |ys|);
    var pages := PointCounts(ys);
    assert Lengths(pages) == Lengths(ys);
    PackedResidualAt(args, heights, ys, p, k, i, row);
    PackedResidualAt(moved, heights, ys, p, k, i, row);
    JacLineEntry(pages, dTheta, dAm, p, k, i, row, c, col);
  }

  /** The align pairs play no part in the residuals, matching the all-zero align block of the
      Jacobian: overwriting one leaves `E_str_packed` unchanged. */
  lemma AlignIgnored(args: seq<real>, heights: Heights, ys: seq<PageYs>, col: nat, v: real)
    requires 3 + DEGREE * |ys| <= |args| && ys == PageHeights(args, heights, |ys|) && Fits(args, ys)
    requires 3 + DEGREE * |ys| <= col < 3 + (DEGREE + 2) * |ys|
    ensures PackedResiduals(args[col := v], Lengths(ys), heights) == PackedResiduals(args, Lengths(ys), heights)
  {
    var moved := args[col := v];
    var lMAll := args[3 + (DEGREE + 2) * |ys|..];
    assert moved[3 + (DEGREE + 2) * |ys|..] == lMAll;
    assert moved[..3 + DEGREE * |ys|] == args[..3 + DEGREE * |ys|];
    HeightsPrefix(args, moved, heights, |ys|);
    PackedParts(args, heights, ys, lMAll);
    PackedParts(moved, heights, ys, lMAll);
  }
}
