# rebook dewarp core, modelled in Dafny

This project models the parameter bookkeeping and control logic of the page dewarper in
`rebook/dewarp.py` (Kim et al. 2014), together with the contour-tree walk `text_contours` of
`algorithm.py`. The dewarper fits a curved page surface to lines of text. It packs the rotation
theta, one polynomial per page, an alignment pair per page and one height l_k per text line into
one parameter vector. It minimises the residuals of the text base points with a hand-written
Levenberg–Marquardt loop, and finally lays a mesh over the surface.

What is modelled, module by module:

- `Layout` (layout.dfy): `split_lengths`, `unpack_args` with numpy's exceptions, and the packing
  of `initial_args`.
- `NormPolys` (normpoly.dfy): the normalised polynomial `NormPoly` and its `deriv`.
- `Matrices` (matrices.dfy): `np.full`, `np.zeros`, concatenation along both axes and
  `scipy.linalg.block_diag`.
- `Jacobian` (jacobian.dfy): the block layout of `Jac_E_str` and `dE_str_dl_k`.
- `Residuals` (residuals.dfy): `E_str` and `E_str_packed` as functions of the projected heights.
- `Projection` (projection.dfy): the module-level guess cache `E_str_t0s`. It is a class whose
  methods (`E_str_project`, `E_str`, `E_str_packed`) grow and fill the cache in place and write
  the solved guesses back into it.
- `Lines` (lines.dfy): `compress`, `remove_outliers` and `merge_lines`.
- `Selectors` (selectors.dfy): `C0_C1`, `MuMode` and `side_slice`.
- `LM` (lm.dfy): the `lm` controller loop.
- `Mesh` (mesh.dfy): `make_mesh_XYZ` and the orientation step of `make_mesh_2d`.
- `Contours` (contours.dfy): the hole search and good/bad partition of `text_contours`. It works
  on a copy of the image array, into which it draws the border in place.
- `Seqs` (seqs.dfy) and `Wrappers` (wrappers.dfy): sums, concatenation, reversal and prefix
  offsets, plus `Option` and `Result`.

Some computations are passed in as parameters rather than modelled:

- the Newton solve of `newton.t_i_k`;
- the RANSAC fits;
- the integrated baseline gap of the merge test;
- the damped Gauss–Newton step;
- the OpenCV contour tracing and measuring calls.

The properties are stated about whatever those parameters return. Python exceptions become the
`Failure` case of a `Result`. numpy's floating-point `inf`/`nan` comparisons are written out where
the code relies on them.

## Model

| member | source | states |
|---|---|---|
| Layout.Slice | rebook/dewarp.py:679-680 | Python slicing with non-negative bounds: within range it is the plain subsequence, and its length is what clamping both ends gives |
| Layout.SplitLengths | rebook/dewarp.py:679-680 | `np.split(a, np.cumsum(lengths))` always has one more piece than there are lengths |
| Layout.SplitLengthsPiece | rebook/dewarp.py:679-680 | while the running total fits in the array, piece i is exactly the next lengths[i] elements after the earlier pieces |
| Layout.SplitLengthsRemainder | rebook/dewarp.py:679-680 | the last piece is the remainder after the summed lengths, or empty when the lengths overrun the array |
| Layout.SplitLengthsPrefix | rebook/dewarp.py:679-680 | the first k pieces concatenate to the prefix up to the k-th clamped split point |
| Layout.SplitLengthsConcat | rebook/dewarp.py:679-680 | concatenating the pieces gives back the input, whatever the lengths |
| Layout.SplitFlattenRoundTrip | rebook/dewarp.py:733-734 | splitting a concatenation of blocks at the lengths of all blocks but the last recovers the blocks, as `E_str_packed` splits `l_m_all` |
| Layout.SplitEqual | rebook/dewarp.py:689-690 | `np.split(a, n)` succeeds exactly when n > 0 and n divides the length; it then gives n equal pieces that concatenate to a, and fails with the zero-sections error for n == 0 |
| Layout.UnpackArgs | rebook/dewarp.py:684-695 | zero pages fails with numpy's zero-sections error; on success there are n coefficient blocks of DEGREE values each, n align pairs and n polynomials |
| Layout.UnpackArgsSucceeds | rebook/dewarp.py:684-695 | `unpack_args` succeeds exactly when there is a page, the vector holds theta and every page's DEGREE coefficients, and what follows them (up to 2·n values) splits evenly over the pages |
| Layout.UnpackArgsLayout | rebook/dewarp.py:684-695 | on a vector of length at least 3 + 7·n, theta is args[..3], page p's coefficients and align pair are the slices the layout puts them at, and l_m_all is everything after 3 + 7·n |
| Layout.UnpackArgsBlocks | rebook/dewarp.py:684-695 | on a long enough vector, the coefficient and align lists are the DEGREE- and 2-value blocks of their parts of the vector |
| Layout.PageBlocks | rebook/dewarp.py:684-695 | page p's coefficients are args[3 + 5p .. 3 + 5p + 5] and its align pair follows all coefficient blocks at 3 + 5n + 2p |
| Layout.UnpackedPolys | rebook/dewarp.py:692-693 | every unpacked polynomial has constant term 0 followed by its page's coefficients, omega OMEGA, degree DEGREE (so the assert holds) and value 0 at 0 |
| Layout.AllDegree | rebook/dewarp.py:693 | the `all(g.degree() == DEGREE ...)` test is true exactly when every polynomial has that degree |
| Layout.PackArgs | rebook/dewarp.py:1191 | the packed vector is theta, then all coefficients, then the align pairs, then the l values of every page, in that order |
| Layout.PackUnpack | rebook/dewarp.py:1191 | packing as `initial_args` does and then unpacking returns the same theta, coefficient blocks, align pairs and l values, and `E_str_packed`'s split of l_m_all returns each page's own l values |
| Layout.UnpackPack | rebook/dewarp.py:684-695 | unpacking and packing again returns the vector: nothing is dropped or reordered |
| NormPolys.Deriv | rebook/dewarp.py:669-670 | numpy's formal derivative has one coefficient fewer, except that a constant keeps one |
| NormPolys.Eval | rebook/dewarp.py:666-667 | `__call__` is the power sum of the coefficients at ω·x, divided by ω |
| NormPolys.Degree | rebook/dewarp.py:672-673 | `degree()` is numpy's untrimmed len(coef) − 1, so −1 for no coefficients; otherwise it is the power of the top coefficient, zero or not: the power sum is the terms below it plus coef[d]·u^d |
| NormPolys.HornerIsPowerSum | rebook/dewarp.py:666-667 | Horner evaluation equals the textbook sum of c[i]·x^i |
| NormPolys.SecantFactor | rebook/dewarp.py:666-667 | p(x) − p(y) = (x − y) times the divided difference of p |
| NormPolys.SecantAtPoint | rebook/dewarp.py:669-670 | the divided difference at a double point is the formal derivative's value, so `deriv` is the derivative |
| NormPolys.Derivative | rebook/dewarp.py:669-673 | `deriv()` keeps omega, stays a valid polynomial and has degree one less (a constant keeps degree 0) |
| NormPolys.DerivativeEval | rebook/dewarp.py:666-670 | the derivative evaluates to h'(ω·x): the factor ω it carries cancels the division by ω in `__call__` |
| NormPolys.DerivativeIsSlope | rebook/dewarp.py:666-670 | g(x) − g(y) = (x − y)·slope(x, y), and the slope at a double point is the value of `deriv()`: `deriv` is the true derivative of the normalised polynomial |
| NormPolys.ZeroConstant | rebook/dewarp.py:692 | `NormPoly(concatenate([[0], a_m]), ω)` has constant term 0 then a_m, degree len(a_m), and passes through the origin |
| Matrices.Fill | rebook/dewarp.py:810 | `np.full` has the given shape and the given value everywhere |
| Matrices.Zeros | rebook/dewarp.py:849-850 | `np.zeros` has the given shape and is zero everywhere |
| Matrices.HConcat | rebook/dewarp.py:854-859 | concatenation along axis 1 has the summed column count; the left columns are a's and the right ones b's |
| Matrices.VConcatAt | rebook/dewarp.py:855 | row i of block k of a vertical concatenation sits after the rows of the earlier blocks |
| Matrices.BlockDiag | rebook/dewarp.py:856-858 | `block_diag` of no blocks is 1 x 0; otherwise its rows and columns are the sums of the blocks' |
| Matrices.BlockDiagIn | rebook/dewarp.py:856-858 | entry (i, j) of block k sits at the row and column offsets of the blocks before it |
| Matrices.BlockDiagOut | rebook/dewarp.py:856-858 | in the rows of block k, every column outside block k's columns is zero |
| Matrices.BlockDiagZero | rebook/dewarp.py:857 | a block diagonal of zero blocks is zero everywhere |
| Jacobian.LineColumns | rebook/dewarp.py:810 | one −1 column per line, with as many rows as the line has points |
| Jacobian.DlK | rebook/dewarp.py:809-811 | `dE_str_dl_k` has one row per base point and one column per line |
| Jacobian.DlKEntry | rebook/dewarp.py:809-811 | point i of line k has −1 in column k and 0 in every other line's column |
| Jacobian.JacEStr | rebook/dewarp.py:823-859 | `Jac_E_str` has one row per base point of every page and 3 + 5n + 2n + (number of lines) columns |
| Jacobian.JacThetaEntry | rebook/dewarp.py:823-859 | a row of page p carries page p's theta derivatives in the first 3 columns |
| Jacobian.JacAmEntry | rebook/dewarp.py:823-859 | column 3 + 5q + m holds page p's own a_m derivative in p's rows when q == p, and 0 in every other page's rows |
| Jacobian.JacAlignZero | rebook/dewarp.py:849-859 | the align columns are zero in every row |
| Jacobian.JacLineEntry | rebook/dewarp.py:823-859 | point i of line k of page p has −1 in that line's l column and 0 in every other l column |
| Jacobian.JacAmAt | rebook/dewarp.py:854-859 | the Jacobian's a_m columns are exactly the a_m block diagonal |
| Jacobian.JacAlignAt | rebook/dewarp.py:854-859 | the Jacobian's align columns are exactly the align block diagonal |
| Jacobian.JacLineAt | rebook/dewarp.py:854-859 | the Jacobian's l columns are exactly the `dE_str_dl_k` block diagonal |
| Residuals.PointCounts | rebook/dewarp.py:823-859 | one entry per page, listing the point count of each of its lines: the shape the Jacobian's rows follow |
| Residuals.LineResiduals | rebook/dewarp.py:726-727 | `Ys - l_k` has one residual per point of the line |
| Residuals.PageResiduals | rebook/dewarp.py:714-730 | `E_str` succeeds exactly when the line count matches l_m and there is a line; otherwise it fails with the assert or with numpy's refusal to concatenate nothing |
| Residuals.PageResidualAt | rebook/dewarp.py:714-730 | point i of line k is residual Offset(k) + i, equal to its height minus l_k |
| Residuals.PageResidualsLength | rebook/dewarp.py:714-730 | a page has one residual per base point |
| Residuals.PageVectors | rebook/dewarp.py:736-740 | the page loop succeeds exactly when every page's `E_str` succeeds, and then yields each page's residuals in order |
| Residuals.FirstFailure | rebook/dewarp.py:736-740 | when the loop fails, its error is that of the first page whose `E_str` fails, and every earlier page succeeded |
| Residuals.VectorsStop | rebook/dewarp.py:736-740 | once every page before i succeeds and page i fails, the loop's error is page i's whatever follows |
| Residuals.PrefixFailure | rebook/dewarp.py:736-740 | once the pages before m have failed, the later pages do not change the result |
| Residuals.PagePoly | rebook/dewarp.py:692 | page p's polynomial is a zero constant followed by the vector's p-th DEGREE block, with omega OMEGA |
| Residuals.LineColumn | rebook/dewarp.py:684-686 | page p's l_k column lies in the l group, after theta, all coefficient blocks and all align pairs |
| Residuals.PieceOf | rebook/dewarp.py:734 | splitting l_m_all at the line counts of all pages but the last gives page p exactly its own lines' values |
| Residuals.PackedParts | rebook/dewarp.py:732-741 | on a fitting vector, `E_str_packed` is the per-page loop over the projections under the stored theta and polynomials and the l values after the per-page blocks |
| Residuals.PagesSucceed | rebook/dewarp.py:732-741 | with one l value per line and a line on every page, every page's `E_str` succeeds and the result is their concatenation |
| Residuals.PackedResidualsLength | rebook/dewarp.py:732-741 | `E_str_packed` succeeds on a fitting vector with one residual per base point: the Jacobian's row count |
| Residuals.PackedResidualAt | rebook/dewarp.py:732-741 | the residual in the Jacobian's row for a point is its projected height minus the l value stored at that line's column |
| Residuals.ResidualSlope | rebook/dewarp.py:809-811 | moving an l value by d leaves every projection alone and moves each residual by d times the Jacobian's entry there (−1 in its own line's column, 0 elsewhere) |
| Residuals.AlignIgnored | rebook/dewarp.py:849-850 | overwriting an align value leaves `E_str_packed` unchanged, matching the Jacobian's zero align columns |
| Residuals.HeightsPrefix | rebook/dewarp.py:733 | the projections depend only on theta and the coefficient blocks, nothing after them |
| Projection.Fresh | rebook/dewarp.py:702-703 | a fresh slot has one all-inf guess array per line, each sized to that line's point count |
| Projection.Grown | rebook/dewarp.py:700-701 | extending a short list reaches length idx + 1, keeps the old slots and adds only None gaps |
| Projection.Ensured | rebook/dewarp.py:699-703 | afterwards len > idx and slot idx is filled; other slots are unchanged and the gaps are None; a filled slot is kept, and an empty or new one gets fresh guesses |
| Projection.EnsuredIdempotent | rebook/dewarp.py:702 | a second projection of the same page, whatever its lines, leaves the list as the first one left it |
| Projection.Projected | rebook/dewarp.py:708-709 | `zip` pairs lines and guesses, so there are as many results as the shorter of the two |
| Projection.ProjectedPerLine | rebook/dewarp.py:708-709 | with a fresh slot, or one filled for as many lines, there is one result per line, in order, each solved from that line's guesses |
| Projection.Solved | rebook/dewarp.py:708-709 | `t_i_k` writes its solutions into the guess arrays: one array per old one, the solved array for each zipped line and the old array for the rest |
| Projection.AfterProject | rebook/dewarp.py:699-709 | after a projection the list is the ensured list except at slot idx, which holds the guesses updated by the solves |
| Projection.ReusesSolutions | rebook/dewarp.py:702-709 | the next projection of the same page, whatever its lines, starts from the previous projection's solutions |
| Projection.SolvedUpTo | rebook/dewarp.py:708-709 | solving only the zipped lines gives the same guesses and heights as the whole line list |
| Projection.SolvedPrefix | rebook/dewarp.py:736-738 | projecting pages in turn never shortens the list |
| Projection.PrefixAhead | rebook/dewarp.py:736-738 | projecting the pages before p touches slot p only by adding it as an empty gap |
| Projection.StartsAfterPrefix | rebook/dewarp.py:736-738 | page p starts from the guesses it would have had with the list as it was before the loop |
| Projection.StartedPages | rebook/dewarp.py:736-738 | one projection per page, none longer than the page's line list |
| Projection.StartedProjection | rebook/dewarp.py:733-738 | projecting the unpacked pages through the packed heights is projecting each page from its starting guesses |
| Projection.StrCache.constructor | rebook/dewarp.py:697 | the cache starts empty |
| Projection.StrCache.Reset | rebook/dewarp.py:1223-1224 | resetting before an optimisation empties the cache |
| Projection.StrCache.Project | rebook/dewarp.py:698-710 | the list becomes the ensured list with slot idx holding the solved guesses, and the result solves each line from the slot's old guesses or fresh ones |
| Projection.StrCache.EStr | rebook/dewarp.py:714-730 | a line-count mismatch fails before touching the cache; otherwise the slot is ensured and updated with the solved guesses, and the result is `E_str`'s residuals of the projected heights |
| Projection.StrCache.PagesLoop | rebook/dewarp.py:736-740 | the loop's result is the page-loop function over each page's projection from its starting guesses; on success every page's slot holds its solved guesses, and on failure a prefix of the pages has been projected |
| Projection.StrCache.EStrPacked | rebook/dewarp.py:732-741 | the result is `E_str_packed`'s function of the vector and the heights the cache yields; a vector that does not unpack leaves the cache alone, and otherwise a prefix of the pages (all of them on success) has been projected and solved into it |
| Lines.Compress | rebook/dewarp.py:32-33 | `itertools.compress` is no longer than either input and keeps only elements of l |
| Lines.CompressLength | rebook/dewarp.py:32-33 | exactly one element per set flag among the flags that have an element |
| Lines.CompressIn | rebook/dewarp.py:32-33 | an element is kept exactly when some position holding it has its flag set |
| Lines.CompressAll | rebook/dewarp.py:32-33 | with all flags set everything is kept, in order |
| Lines.Positions | rebook/dewarp.py:32-33 | the positions of the set flags below n, strictly increasing, and all of them |
| Lines.Picks | rebook/dewarp.py:32-33 | picking positions gives one element per position, in the order of the positions |
| Lines.CompressPicks | rebook/dewarp.py:32-33 | `compress` keeps exactly the elements at the set flags, in their order |
| Lines.Refit | rebook/dewarp.py:104-113 | the refit fails exactly when the fit finds no model; otherwise the line takes the fitted model and keeps only old letters |
| Lines.RefitLetters | rebook/dewarp.py:110-111 | the refitted letters are exactly the old letters at the inlier positions, in order |
| Lines.LongLines | rebook/dewarp.py:101-102 | the kept lines come from the input and all have at least five letters |
| Lines.LongLinesCompress | rebook/dewarp.py:101-102 | skipping short lines is `compress` with the flags len(l) >= 5 |
| Lines.LongLinesIn | rebook/dewarp.py:101-102 | a line is kept exactly when it is in the input and has at least five letters |
| Lines.Kept | rebook/dewarp.py:100-114 | no more lines than the input; a failure is a missing fit at some input line |
| Lines.KeptSucceeds | rebook/dewarp.py:100-114 | the loop succeeds exactly when every long line has an AH / 10 fit |
| Lines.KeptRefits | rebook/dewarp.py:100-114 | on success there is one line per long line, in order, and each is that long line refitted with threshold AH / 10 |
| Lines.KeptFailsAt | rebook/dewarp.py:104-109 | the first long line whose AH / 10 fit finds no model makes the loop raise at that line |
| Lines.Close | rebook/dewarp.py:77-79 | a close line always has a non-zero width. A zero width divides the baseline gap by zero, giving +inf for a non-zero gap and nan for a zero one; neither compares below AH / 8, so such a line is never close |
| Lines.Merged | rebook/dewarp.py:80-85 | the merge fails exactly when the AH / 15 fit of both lines' letters finds no model; otherwise the merged line takes that model and only their letters |
| Lines.MergedLetters | rebook/dewarp.py:80-85 | the merged letters are exactly the letters of the last line then the new one at the inlier positions of that fit, in order |
| Lines.Absorb | rebook/dewarp.py:79-87 | one merge step can fail only with a missing fit at that input line; otherwise it adds at most one output line and leaves the earlier ones alone |
| Lines.AbsorbCases | rebook/dewarp.py:79-87 | the step fails exactly when the line is close and the merged fit finds no model; otherwise a close line replaces the last output line by the merge, and any other line is appended |
| Lines.MergeFold | rebook/dewarp.py:73-94 | on success there is at least one output line and no more than there were input lines |
| Lines.MergeFailsAt | rebook/dewarp.py:74-78 | `merge_lines` raises at the first later line without letters |
| Lines.MergeNoFitAt | rebook/dewarp.py:79-85 | `merge_lines` raises at the first close line whose merged letters have no fit |
| Lines.FoldLast | rebook/dewarp.py:73-94 | a successful merge of two or more lines is the merge of all but the last, with the last merged into the last output line when close and appended otherwise |
| Lines.MergeSucceeds | rebook/dewarp.py:73-94 | with a first line, letters in every later line and a fitter that always finds a model, `merge_lines` returns |
| Lines.Heads | rebook/dewarp.py:73-94 | each output line has one input line it started from |
| Lines.MergeOrder | rebook/dewarp.py:73-94 | the first output line starts at lines[0] and the output lines start at increasing input positions, so input order is kept |
| Lines.MergeKeepsSingles | rebook/dewarp.py:86-87 | an output line that nothing was merged into is its input line unchanged |
| Lines.MergeLetters | rebook/dewarp.py:79-85 | every letter of an output line comes from one of the input lines merged into it |
| Lines.MergeStep | rebook/dewarp.py:76-87 | a later input line fails if it has no letters; otherwise the result is one merge step on the output so far |
| Lines.MergeInto | rebook/dewarp.py:79-85 | a close line with a fitting merge replaces the last output line by the AH / 15 refit of both lines' letters |
| Lines.MergeApart | rebook/dewarp.py:86-87 | a line that is not close is appended unchanged |
| Lines.MergeOrAppend | rebook/dewarp.py:77-87 | the loop body concatenates, fits and compresses as the source does, and its result is the merge step |
| Lines.MergeFailsAfter | rebook/dewarp.py:76-78 | once a prefix of the input has failed, the whole input fails with the same error |
| Lines.LongLinesAppend | rebook/dewarp.py:101-102 | keeping the long lines distributes over concatenation |
| Lines.MergeLines | rebook/dewarp.py:73-94 | the loop returns the merge fold of the input, its error included |
| Lines.RemoveOutliers | rebook/dewarp.py:97-121 | it raises with the refit loop's error when a long line has no fit; otherwise the result is the merge of the long lines refitted with AH / 10, in order |
| Selectors.C0C1 | rebook/dewarp.py:173-177 | it fails exactly on an empty list; otherwise it returns the first and last lines, with C0 the bottom line `lines[-1]` and C1 the top line `lines[0]` when the vanishing point is above the image (vy < 0), and the other way round otherwise |
| Selectors.C0C1Reverse | rebook/dewarp.py:173-177 | reversing the lines swaps C0 and C1, and a vanishing point above the image picks what a reversed list below it would |
| Selectors.Index | rebook/dewarp.py:300-301 | the index is 0 or −1 |
| Selectors.PointOf | rebook/dewarp.py:303-307 | TOP gives the top point and BOTTOM the base point |
| Selectors.IndexEnds | rebook/dewarp.py:293-310 | TOP and BOTTOM are the only modes; TOP's index reaches the first line and BOTTOM's the last |
| Selectors.Apply | rebook/dewarp.py:889-897 | a slice is never longer than what it slices, and the full slice `[:]` is the whole list |
| Selectors.SideSlice | rebook/dewarp.py:889-897 | it fails exactly when neither side is asked for |
| Selectors.SideSliceSelects | rebook/dewarp.py:889-897 | on a left/right pair the slice keeps exactly the requested sides, left before right |
| LM.Cost | rebook/dewarp.py:1082 | dot(r, r) / 2 is never negative |
| LM.Ones | rebook/dewarp.py:1074-1075 | the default scale is all ones |
| LM.Defaults | rebook/dewarp.py:1070-1075 | `lm` without `ftol` and `x_scale` uses ftol 1e-6 and a scale of ones, so the scale is non-zero as `Minimize` requires |
| LM.Start | rebook/dewarp.py:1077-1082 | the loop starts at x0 with lam 100 |
| LM.StartConsistent | rebook/dewarp.py:1077-1082 | the starting state is consistent: x = xs · scale, and r and C are those of x |
| LM.RejectOnlyLam | rebook/dewarp.py:1100-1103 | a candidate with no lower cost changes only lam, multiplying it by 1.2 |
| LM.AdoptOnlyBetter | rebook/dewarp.py:1100-1113 | the point moves only to a candidate of lower cost whose relative improvement exceeds ftol; otherwise point, residuals and cost stay |
| LM.TrialCases | rebook/dewarp.py:1096-1120 | one pass, case by case: no lower cost multiplies lam by 1.2 and stops once lam reaches 1000; a relative improvement of at most ftol stops with the state unchanged; otherwise the candidate is taken, stopping when its cost is below 1e-6 and otherwise going on with lam divided by 4 |
| LM.Trial | rebook/dewarp.py:1091-1120 | one pass never raises the cost, and when the cost changes the point is the damped step's candidate |
| LM.Run | rebook/dewarp.py:1090-1120 | any number of passes never raises the cost |
| LM.TrialKeeps | rebook/dewarp.py:1096-1120 | one pass keeps the state consistent, never raises the cost, and keeps lam in (0, 1000) when the loop goes on |
| LM.RunNeverWorse | rebook/dewarp.py:1096-1120 | any number of passes keeps the state consistent and the cost no higher than at the start |
| LM.NeverWorse | rebook/dewarp.py:1070-1122 | the cost of the returned x is at most the cost of x0 |
| LM.Minimize | rebook/dewarp.py:1070-1122 | max_nfev defaults to 10000; the loop returns the x that the loop function reaches from the start state, after at most max_nfev candidate evaluations; its invariant keeps lam in (0, 1000), and C > 0 is proved where the relative error divides by it |
| Mesh.Tile | rebook/dewarp.py:993-996 | `np.tile(v, [n, 1])` has n rows, each of length len(v) |
| Mesh.Transpose | rebook/dewarp.py:994 | the transpose swaps the indices |
| Mesh.Map | rebook/dewarp.py:996 | g applied entry by entry |
| Mesh.MakeMeshXYZ | rebook/dewarp.py:992-997 | the mesh has one row per y and one column per x; the point in row i and column j is (xs[j], ys[i]) and lies on the surface z = g(x) |
| Mesh.FlipCols | rebook/dewarp.py:1051-1052 | `[:, :, ::-1]` keeps the shape and reverses every row |
| Mesh.FlipRows | rebook/dewarp.py:1054-1055 | `[:, ::-1, :]` keeps the shape and reverses the rows |
| Mesh.FlipColsKeepsRows | rebook/dewarp.py:1051-1055 | reversing the columns leaves every row's mean y |
| Mesh.FlipRowsKeepsCols | rebook/dewarp.py:1051-1055 | reversing the rows leaves every column's mean x, so the first test stays settled |
| Mesh.FlipColsSwapsEnds | rebook/dewarp.py:1051-1052 | reversing the columns swaps the first and last columns |
| Mesh.FlipRowsSwapsEnds | rebook/dewarp.py:1054-1055 | reversing the rows swaps the first and last rows |
| Mesh.Orient | rebook/dewarp.py:1050-1055 | it fails exactly on an empty mesh; otherwise the result has the same shape, the mean x of the first column is at most that of the last, the mean y of the first row is at most that of the last, and it is the input with its columns reversed exactly when the first column's mean x exceeds the last's and its rows reversed exactly when the first row's mean y exceeds the last's |
| Mesh.Points | rebook/dewarp.py:1057 | `transpose(1, 2, 0)` gives one (x, y) pair per grid point |
| Contours.Chain | algorithm.py:31-39 | the sibling chain stays within the contours |
| Contours.ChainWalk | algorithm.py:31-39 | the chain is the walk itself: it starts at j, each entry is followed by its next sibling, and it stops at the first negative link |
| Contours.ChainDistinct | algorithm.py:31-39 | ranks fall strictly along a chain, so no contour is visited twice |
| Contours.ChainBelow | algorithm.py:31-39 | every contour on the chain at j ranks below any bound above j's rank |
| Contours.Judge | algorithm.py:53-70 | bad exactly when the shape test fails; good exactly when it passes and the filled ratio exceeds 0.1 |
| Contours.BigFromChain | algorithm.py:32-38 | the holes under a contour are its big children, in chain order |
| Contours.BigFromIn | algorithm.py:32-38 | a contour is a hole under j exactly when it is on the chain at j and its box covers more than a quarter of the image |
| Contours.HolesIn | algorithm.py:27-39 | the holes are exactly the big children of the contours on the top-level chain |
| Contours.VerdictFromChain | algorithm.py:46-71 | the children with a given verdict are the hole's chain filtered by that verdict, in chain order |
| Contours.VerdictFromIn | algorithm.py:46-71 | a child has a given verdict in the list exactly when it is on the hole's chain and judged so |
| Contours.VerdictOverIn | algorithm.py:42-71 | a contour lands in a verdict list exactly when it is a direct child of one of the holes and is judged so |
| Contours.GoodBadDisjoint | algorithm.py:53-70 | no contour is both good and bad |
| Contours.WalkExactly | algorithm.py:27-71 | a contour lands in a verdict list of the walk exactly when it is a direct child of a hole (a big child of a top-level contour) and is judged so |
| Contours.FloorThreshold | algorithm.py:20 | comparing an integer side with Python 2's floored im_h / 300 gives the same answer as with the true quotient |
| Contours.MinFeature | algorithm.py:20 | `im_h / 300` is Python 2's floored quotient |
| Contours.Big | algorithm.py:36 | a contour is big exactly when its box covers more than a quarter of the image |
| Contours.LetterShaped | algorithm.py:53-56 | a contour is letter-shaped exactly when it has more than 10 points, is less than twice as tall as wide, and both sides exceed the true quotient im_h / 300 |
| Contours.FindHoles | algorithm.py:27-39 | the outer while loop collects exactly the holes, in walk order |
| Contours.AppendBig | algorithm.py:32-38 | the inner while loop appends the big children on the chain at j, in order |
| Contours.Classify | algorithm.py:41-71 | the for loop over the holes yields exactly the good and the bad contours under the holes, in walk order |
| Contours.SortChildren | algorithm.py:46-71 | the inner while loop appends the good and the bad children on the chain at i, in order |
| Contours.TextContoursOf | algorithm.py:18-79 | `text_contours` fails exactly when nothing was traced |
| Contours.Walk | algorithm.py:27-79 | the walk returns the good and bad contours of the scene, or the error |
| Contours.Copy | algorithm.py:22 | `im.copy()` is a fresh array with the same pixels |
| Contours.Framed | algorithm.py:23 | the bordered image is white in the first two rows and columns and in the last row and column (the 3-pixel line centred on the rectangle from (0, 0) to (im_w, im_h)), and the input elsewhere |
| Contours.FramedTwice | algorithm.py:23 | drawing the border twice is drawing it once |
| Contours.DrawFrame | algorithm.py:23 | `cv2.rectangle` paints the border into the array in place: its pixels become the bordered image of its old pixels |
| Contours.TextContours | algorithm.py:18-79 | the caller's image is unchanged, and the result is the walk over the contours traced in the bordered copy |

## Left out

- `newton.t_i_k` is not part of this model. The Newton solve is the `Solver` parameter of
  `Projection`: it returns the heights and the solved guess array, which `t_i_k` writes back into
  the cached array in place. `R_theta` and the surface projection are folded into the `Heights`
  parameter of `Residuals`.
- `Jac_E_str` also calls `E_str_project` for every page (rebook/dewarp.py:835), which solves into
  the same cache. The `Jacobian` module lays out the matrix from given entries and does not model
  that call or its cache writes.
- skimage `ransac` and `PolyModel5` are the `Fitter` parameter. It returns `None` where ransac
  finds no model: it returns `(None, None)` when no sample is consistent, and it raises when the
  line has fewer than `min_samples` (10) letters. Either way `remove_outliers` and `merge_lines`
  fail at that line with `NoFit`. The integrated baseline gap `abs(integ(x_max) - integ(x_min))`
  of the merge test is the `Area` parameter.
- geometry.py is not part of this model:
  - `Line` and `Letter` are values. A line is its letter list and model, `merge` concatenates
    letters, and `compress` is `itertools.compress` on them.
  - The in-place update of the `Line` objects (and any aliasing between the input and output
    lists of `remove_outliers`/`merge_lines`) is not captured.
- `Jac_E_str` is laid out with its theta and a_m derivative entries as parameters. The formulas
  `dE_str_dtheta`, `dE_str_dam`, `dti_dtheta` and `dti_dam` are floating-point geometry and are
  left out.
- Jacobian.JacEStr: requires at least one page and a line on every page (`HasLines`). On other
  input `Jac_E_str` itself raises, because `np.concatenate` gets an empty list: a page's base
  points (rebook/dewarp.py:837) or, with no pages, the blocks. That error is not modelled. `least_squares`
  evaluates `E_str_packed` first, and that raises on the same input (`Residuals.PageResiduals`).
- `lm`: the damped step `xs - solve(JsTJs + lam * I, dC)` with the Jacobian at the current point
  is the `step` parameter. The `r.shape[0] == Js.shape[0]` assert and `jac` itself are left out.
- LM.Minimize: requires every x_scale entry to be non-zero; numpy would divide by zero to inf/nan
  instead.
- LM.Start: requires every x_scale entry to be non-zero, for the same reason.
- OpenCV is not modelled. `cv2.findContours`, `cv2.boundingRect` and the filled-ratio
  computation (`drawContours`, `bitwise_not`, `count_nonzero`) are the `Vision` parameter of
  `Contours`.
  - `cv2.rectangle` is `DrawFrame`, which paints the 3-pixel border as whole rows and columns.
    OpenCV's own rasterisation of thick lines (line caps and anti-aliasing options) is not
    modelled.
  - A contour whose filled mask is empty would divide by zero there; this is not captured.
  - The final mask drawing and `debug_imwrite` are debug output.
- Contours.TextContours: requires the hierarchy to be a forest, given as a rank that falls along
  next-sibling links. OpenCV's trees satisfy this; on a cyclic hierarchy the source would loop
  forever.
- Contours.FindHoles: has the same forest requirement.
- Contours.Classify: has the same forest requirement.
- The E_align path (`E_align_project`, `E_align`, `E_align_packed`, `Jac_E_align`, `E_2`) is left
  out. It is reached only from commented-out code: `E_align` passes no cache index and
  `Jac_E_align` calls `deriv` on a list.
- Printing, `debug_imwrite`, `debug_print_points` and `lib.timeit` are left out.
- Floating point is modelled as exact reals. Rounding is not modelled; `inf` and `nan` appear
  only where the code depends on them:
  - the all-inf initial guesses;
  - the zero-width merge test.
- `mesh_2d` itself comes from `gcs_to_image`, arc-length sampling and percentile estimates, which
  are floating-point geometry. The mesh is taken as given, and only its orientation step is
  modelled.
