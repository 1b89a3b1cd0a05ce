/** The layout of the optimizer's unknown vector in rebook/dewarp.py: theta (3 values), then
    DEGREE curvature coefficients per page, then 2 alignment values per page, then one
    baseline offset l_k per text line. `split_lengths` and `unpack_args` cut the vector up,
    `initial_args` glues it together. */
module Layout {
  import opened Wrappers
  import opened Seqs
  import opened NormPolys

  /** Free curvature coefficients per page (the constant term is pinned to zero). */
  const DEGREE: nat := 5
  /** The omega of every page's NormPoly. */
  const OMEGA: real := 1000.0

  function Min(a: int, b: int): int
  {
    if a <= b then a else b
  }

  /** Python's slice a[s:e] for non-negative bounds: both ends clamp to the length, and the
      slice is empty once s reaches e. */
  function Slice<T>(a: seq<T>, s: nat, e: nat): (r: seq<T>)
    ensures s <= e <= |a| ==> r == a[s..e]
    ensures |r| == if Min(s, |a|) <= Min(e, |a|) then Min(e, |a|) - Min(s, |a|) else 0
  {
    var lo := Min(s, |a|);
    var hi := Min(e, |a|);
    if lo <= hi then a[lo..hi] else []
  }

  /** `split_lengths(array, lengths)` = `np.split(array, np.cumsum(lengths))`: piece i runs from
      the sum of the lengths before it to the sum including it, the last piece to the end. */
  function SplitLengths<T>(a: seq<T>, lengths: seq<nat>): (pieces: seq<seq<T>>)
    ensures |pieces| == |lengths| + 1
  {
    seq(|lengths| + 1, i requires 0 <= i <= |lengths| =>
      Slice(a, Cut(lengths, i), if i < |lengths| then Cut(lengths, i + 1) else |a|))
  }

  /** While the running total fits, piece i is exactly the next lengths[i] elements. */
  lemma SplitLengthsPiece<T>(a: seq<T>, lengths: seq<nat>, i: nat)
    requires i < |lengths| && Cut(lengths, i + 1) <= |a|
    ensures Cut(lengths, i) + lengths[i] == Cut(lengths, i + 1)
    ensures SplitLengths(a, lengths)[i] == a[Cut(lengths, i)..Cut(lengths, i + 1)]
    ensures |SplitLengths(a, lengths)[i]| == lengths[i]
  {
    CutStep(lengths, i);
  }

  /** The last piece is the remainder after all the lengths (empty when they overrun). */
  lemma SplitLengthsRemainder<T>(a: seq<T>, lengths: seq<nat>)
    ensures SumNat(lengths) <= |a| ==> SplitLengths(a, lengths)[|lengths|] == a[SumNat(lengths)..]
    ensures SumNat(lengths) >= |a| ==> SplitLengths(a, lengths)[|lengths|] == []
  {
    CutAll(lengths);
  }

  /** The first k pieces concatenate to the prefix up to the k-th (clamped) split point. */
  lemma {:induction false} SplitLengthsPrefix<T>(a: seq<T>, lengths: seq<nat>, k: nat)
    requires k <= |lengths|
    ensures Flatten(SplitLengths(a, lengths)[..k]) == a[..Min(Cut(lengths, k), |a|)]
    decreases k
  {
    var pieces := SplitLengths(a, lengths);
    if k == 0 {
      assert pieces[..0] == [];
    } else {
      SplitLengthsPrefix(a, lengths, k - 1);
      assert pieces[..k][..k - 1] == pieces[..k - 1];
      CutStep(lengths, k - 1);
      var lo := Min(Cut(lengths, k - 1), |a|);
      var hi := Min(Cut(lengths, k), |a|);
      assert pieces[k - 1] == a[lo..hi];
      assert Flatten(pieces[..k]) == Flatten(pieces[..k - 1]) + pieces[k - 1];
      assert a[..lo] + a[lo..hi] == a[..hi];
    }
  }

  /** Concatenating the pieces gives back the input, whatever the lengths. */
  lemma SplitLengthsConcat<T>(a: seq<T>, lengths: seq<nat>)
    ensures Flatten(SplitLengths(a, lengths)) == a
  {
    var pieces := SplitLengths(a, lengths);
    var n := |lengths|;
    SplitLengthsPrefix(a, lengths, n);
    assert pieces[..n] == pieces[..|pieces| - 1];
    var lo := Min(Cut(lengths, n), |a|);
    assert pieces[n] == a[lo..];
    assert a[..lo] + a[lo..] == a;
  }

  /** Block k of a concatenation sits after the earlier blocks. */
  lemma FlattenBlock<T>(ss: seq<seq<T>>, k: nat)
    requires k < |ss|
    ensures Cut(Lengths(ss), k) + |ss[k]| == Cut(Lengths(ss), k + 1) <= |Flatten(ss)|
    ensures Flatten(ss)[Cut(Lengths(ss), k)..Cut(Lengths(ss), k + 1)] == ss[k]
  {
    var ls := Lengths(ss);
    CutStep(ls, k);
    SumNatPrefixMono(ls, k + 1, |ss|);
    CutAll(ls);
    FlattenLength(ss);
    var s := Cut(ls, k);
    forall j | 0 <= j < |ss[k]|
      ensures Flatten(ss)[s + j] == ss[k][j]
    {
      FlattenAt(ss, k, j);
    }
    SliceIs(Flatten(ss), s, Cut(ls, k + 1), ss[k]);
  }

  lemma SliceIs<T>(f: seq<T>, s: nat, e: nat, b: seq<T>)
    requires e == s + |b| <= |f| && forall j :: 0 <= j < |b| ==> f[s + j] == b[j]
    ensures f[s..e] == b
  {
  }

  /** Piece i < |ss| - 1 of the split is block i. */
  lemma SplitFlattenPiece<T>(ss: seq<seq<T>>, i: nat)
    requires i + 1 < |ss|
    ensures SplitLengths(Flatten(ss), Lengths(ss[..|ss| - 1]))[i] == ss[i]
  {
    var ls := Lengths(ss[..|ss| - 1]);
    assert ls[..i] == Lengths(ss)[..i];
    assert ls[..i + 1] == Lengths(ss)[..i + 1];
    assert Cut(ls, i) == Cut(Lengths(ss), i);
    assert Cut(ls, i + 1) == Cut(Lengths(ss), i + 1);
    FlattenBlock(ss, i);
    SplitLengthsPiece(Flatten(ss), ls, i);
  }

  /** The last piece of the split is the last block. */
  lemma SplitFlattenLast<T>(ss: seq<seq<T>>)
    requires |ss| > 0
    ensures SplitLengths(Flatten(ss), Lengths(ss[..|ss| - 1]))[|ss| - 1] == ss[|ss| - 1]
  {
    var init := ss[..|ss| - 1];
    var ls := Lengths(init);
    FlattenLength(init);
    CutAll(ls);
    assert Flatten(ss) == Flatten(init) + ss[|ss| - 1];
    SplitLengthsRemainder(Flatten(ss), ls);
  }

  /** Splitting a concatenation at the lengths of all blocks but the last recovers the blocks, as
      `E_str_packed` does with the per-page line counts. */
  lemma SplitFlattenRoundTrip<T>(ss: seq<seq<T>>)
    requires |ss| > 0
    ensures SplitLengths(Flatten(ss), Lengths(ss[..|ss| - 1])) == ss
  {
    var pieces := SplitLengths(Flatten(ss), Lengths(ss[..|ss| - 1]));
    assert |pieces| == |ss|;
    forall i | 0 <= i < |ss|
      ensures pieces[i] == ss[i]
    {
      if i < |ss| - 1 {
        SplitFlattenPiece(ss, i);
      } else {
        SplitFlattenLast(ss);
      }
    }
  }

  /** What `unpack_args` can raise. */
  datatype UnpackError =
    | NoSections        // np.split(a, 0): `N % sections` divides by zero
    | UnequalDivision   // np.split(a, n) when n does not divide len(a)
    | DegreeMismatch    // the `assert all(g.degree() == DEGREE ...)` fails

  /** n * k by repeated addition, so that block positions stay linear for the solver. */
  function Mul(n: nat, k: nat): nat
  {
    if n == 0 then 0 else Mul(n - 1, k) + k
  }

  lemma {:induction false} MulIsProduct(n: nat, k: nat)
    ensures Mul(n, k) == n * k
  {
    if n > 0 {
      MulIsProduct(n - 1, k);
      MulPred(n, k);
    }
  }

  lemma MulPred(n: nat, k: nat)
    requires n > 0
    ensures (n - 1) * k + k == n * k
  {
  }

  lemma {:induction false} MulMonotone(i: nat, n: nat, k: nat)
    requires i <= n
    ensures Mul(i, k) <= Mul(n, k)
    decreases n
  {
    if i < n {
      MulMonotone(i, n - 1, k);
    }
  }

  /** The n consecutive blocks of length k at the front of a (clamped like Python slices). */
  function Blocks<T>(a: seq<T>, k: nat, n: nat): (bs: seq<seq<T>>)
    ensures |bs| == n
  {
    if n == 0 then [] else Blocks(a, k, n - 1) + [Slice(a, Mul(n - 1, k), Mul(n, k))]
  }

  lemma {:induction false} BlocksAt<T>(a: seq<T>, k: nat, n: nat, i: nat)
    requires Mul(n, k) <= |a| && i < n
    ensures Mul(i, k) + k <= Mul(n, k)
    ensures Blocks(a, k, n)[i] == a[Mul(i, k)..Mul(i, k) + k]
    decreases n
  {
    MulMonotone(n - 1, n, k);
    if i < n - 1 {
      BlocksAt(a, k, n - 1, i);
    }
  }

  lemma {:induction false} FlattenBlocks<T>(a: seq<T>, k: nat, n: nat)
    requires Mul(n, k) <= |a|
    ensures Flatten(Blocks(a, k, n)) == a[..Mul(n, k)]
    decreases n
  {
    if n > 0 {
      var bs := Blocks(a, k, n);
      assert bs[..n - 1] == Blocks(a, k, n - 1);
      FlattenBlocks(a, k, n - 1);
      assert a[..Mul(n - 1, k)] + a[Mul(n - 1, k)..Mul(n, k)] == a[..Mul(n, k)];
    }
  }

  /** Cutting a concatenation of equal-sized blocks into blocks of that size recovers them. */
  lemma {:induction false} BlocksOfFlatten<T>(ss: seq<seq<T>>, k: nat)
    requires forall i :: 0 <= i < |ss| ==> |ss[i]| == k
    ensures |Flatten(ss)| == Mul(|ss|, k)
    ensures Blocks(Flatten(ss), k, |ss|) == ss
    decreases |ss|
  {
    var n := |ss|;
    if n > 0 {
      var init := ss[..n - 1];
      BlocksOfFlatten(init, k);
      var a := Flatten(ss);
      assert a == Flatten(init) + ss[n - 1];
      BlocksPrefix(Flatten(init), ss[n - 1], k, n - 1);
      assert a[Mul(n - 1, k)..Mul(n, k)] == ss[n - 1];
      assert ss == init + [ss[n - 1]];
    }
  }

  lemma {:induction false} BlocksPrefix<T>(a: seq<T>, b: seq<T>, k: nat, n: nat)
    requires Mul(n, k) <= |a|
    ensures Blocks(a + b, k, n) == Blocks(a, k, n)
    decreases n
  {
    if n > 0 {
      BlocksPrefix(a, b, k, n - 1);
      assert (a + b)[Mul(n - 1, k)..Mul(n, k)] == a[Mul(n - 1, k)..Mul(n, k)];
    }
  }

  /** Euclidean division facts for a multiple of a positive divisor. */
  lemma DivOfMultiple(k: nat, n: nat)
    requires n > 0
    ensures (k * n) % n == 0 && (k * n) / n == k
  {
    var q := (k * n) / n;
    var r := (k * n) % n;
    assert k * n == n * q + r && 0 <= r < n;
    assert n * (k - q) == r;
    ProductBelowFactor(n, k - q);
  }

  lemma ProductBelowFactor(n: nat, d: int)
    requires n > 0 && 0 <= n * d < n
    ensures d == 0
  {
    if d > 0 {
      MulMono(n, d);
    }
  }

  lemma MulMono(n: nat, d: nat)
    requires d > 0
    ensures n * d >= n
  {
    assert n * d == n * (d - 1) + n;
  }

  lemma DivExactNat(m: nat, n: nat)
    requires n > 0 && m % n == 0
    ensures n * (m / n) == m
  {
  }

  /** `np.split(a, n)` with a section count: n pieces of equal length, or the exception numpy raises. */
  function SplitEqual<T>(a: seq<T>, n: nat): (r: Result<seq<seq<T>>, UnpackError>)
    ensures r.Success? <==> n > 0 && |a| % n == 0
    ensures n == 0 ==> r == Failure(NoSections)
    ensures r.Success? ==> |r.value| == n && Flatten(r.value) == a
    ensures r.Success? ==> forall i :: 0 <= i < n ==> |r.value[i]| == |a| / n
  {
    if n == 0 then Failure(NoSections)
    else if |a| % n != 0 then Failure(UnequalDivision)
    else
      var q := |a| / n;
      DivExactNat(|a|, n);
      MulIsProduct(n, q);
      FlattenBlocks(a, q, n);
      assert a[..Mul(n, q)] == a;
      BlocksLengths(a, q, n);
      Success(Blocks(a, q, n))
  }

  lemma BlocksLengths<T>(a: seq<T>, k: nat, n: nat)
    requires Mul(n, k) <= |a|
    ensures forall i :: 0 <= i < n ==> |Blocks(a, k, n)[i]| == k
  {
    forall i | 0 <= i < n
      ensures |Blocks(a, k, n)[i]| == k
    {
      BlocksAt(a, k, n, i);
    }
  }

  /** The result of `unpack_args`: theta, the per-page coefficient blocks a_m and align pairs,
      everything else as l_m_all, and one curvature polynomial per page. */
  datatype Unpacked = Unpacked(theta: seq<real>, aMs: seq<seq<real>>, aligns: seq<seq<real>>,
                               lMAll: seq<real>, gs: seq<NormPoly>)

  /** `unpack_args(args, n_pages)`. */
  function UnpackArgs(args: seq<real>, nPages: nat): (r: Result<Unpacked, UnpackError>)
    ensures nPages == 0 ==> r == Failure(NoSections)
    ensures r.Success? ==>
      var u := r.value;
      && |u.aMs| == |u.aligns| == |u.gs| == nPages
      && (forall p :: 0 <= p < nPages ==> |u.aMs[p]| == DEGREE)
  {
    var parts := SplitLengths(args, [3, DEGREE * nPages, 2 * nPages]);
    match SplitEqual(parts[1], nPages)
    case Failure(e) => Failure(e)
    case Success(aMs) =>
      match SplitEqual(parts[2], nPages)
      case Failure(e) => Failure(e)
      case Success(aligns) =>
        var gs := seq(|aMs|, i requires 0 <= i < |aMs| => ZeroConstant(aMs[i], OMEGA));
        if AllDegree(gs, DEGREE) then
          Success(Unpacked(parts[0], aMs, aligns, parts[3], gs))
        else
          Failure(DegreeMismatch)
  }

  /** Each page's polynomial has a zero constant term and the page's coefficients after it, so
      it passes through the origin and has degree DEGREE. */
  lemma UnpackedPolys(args: seq<real>, nPages: nat)
    requires UnpackArgs(args, nPages).Success?
    ensures var u := UnpackArgs(args, nPages).value;
      forall p :: 0 <= p < nPages ==>
        && u.gs[p].coef == [0.0] + u.aMs[p] && u.gs[p].omega == OMEGA && Valid(u.gs[p])
        && Degree(u.gs[p]) == DEGREE && Eval(u.gs[p], 0.0) == 0.0
  {
  }

  /** `all(g.degree() == d for g in gs)`. */
  function AllDegree(gs: seq<NormPoly>, d: nat): (b: bool)
    requires forall i :: 0 <= i < |gs| ==> Valid(gs[i])
    ensures b <==> forall i :: 0 <= i < |gs| ==> Degree(gs[i]) == d
  {
    |gs| == 0 || (Degree(gs[0]) == d && AllDegree(gs[1..], d))
  }

  /** The three split points of `unpack_args` and what lies between them. */
  lemma UnpackParts(args: seq<real>, nPages: nat)
    ensures var parts := SplitLengths(args, [3, DEGREE * nPages, 2 * nPages]);
      && parts[0] == Slice(args, 0, 3)
      && parts[1] == Slice(args, 3, 3 + DEGREE * nPages)
      && parts[2] == Slice(args, 3 + DEGREE * nPages, 3 + (DEGREE + 2) * nPages)
      && parts[3] == Slice(args, 3 + (DEGREE + 2) * nPages, |args|)
  {
    var ls: seq<nat> := [3, DEGREE * nPages, 2 * nPages];
    assert ls[..0] == [];
    assert ls[..1] == [3] && SumNat([3]) == 3;
    assert ls[..2] == [3, DEGREE * nPages];
    assert [3, DEGREE * nPages][..1] == [3];
    assert ls[..3] == ls;
  }

  /** `unpack_args` succeeds exactly when there is at least one page, the vector holds theta and
      every page's DEGREE coefficients, and what follows them, up to 2 * n_pages values, splits
      evenly over the pages; theta then has its 3 values. */
  lemma UnpackArgsSucceeds(args: seq<real>, nPages: nat)
    ensures UnpackArgs(args, nPages).Success? <==>
      && nPages > 0
      && |args| >= 3 + DEGREE * nPages
      && Min(|args| - (3 + DEGREE * nPages), 2 * nPages) % nPages == 0
    ensures UnpackArgs(args, nPages).Success? ==> |UnpackArgs(args, nPages).value.theta| == 3
  {
    UnpackParts(args, nPages);
    if nPages > 0 {
      var parts := SplitLengths(args, [3, DEGREE * nPages, 2 * nPages]);
      if |args| >= 3 + DEGREE * nPages {
        assert |parts[1]| == DEGREE * nPages;
        DivOfMultiple(DEGREE, nPages);
        assert |parts[2]| == Min(|args| - (3 + DEGREE * nPages), 2 * nPages);
      } else if |parts[1]| % nPages == 0 {
        DivExactNat(|parts[1]|, nPages);
        assert |parts[1]| / nPages != DEGREE;
      }
    }
  }

  /** `np.split` of a vector of n blocks of k values each. */
  lemma SplitEqualBlocks<T>(a: seq<T>, n: nat, k: nat)
    requires n > 0 && |a| == k * n
    ensures SplitEqual(a, n) == Success(Blocks(a, k, n))
  {
    DivOfMultiple(k, n);
  }

  /** Block p of the blocks of b, a slice of a starting at off, as a slice of a. */
  lemma BlockOfSlice<T>(a: seq<T>, b: seq<T>, off: nat, k: nat, n: nat, p: nat)
    requires off + Mul(n, k) <= |a| && p < n && b == a[off..off + Mul(n, k)]
    ensures off + Mul(p, k) + k <= |a|
    ensures Blocks(b, k, n)[p] == a[off + Mul(p, k)..off + Mul(p, k) + k]
  {
    BlocksAt(b, k, n, p);
  }

  /** On a vector long enough for every page, `unpack_args` returns the blocks of the coefficient
      part p1 and of the align part p2. */
  lemma UnpackArgsBlocks(args: seq<real>, nPages: nat, p1: seq<real>, p2: seq<real>)
    requires nPages > 0 && |args| >= 3 + (DEGREE + 2) * nPages
    requires p1 == args[3..3 + DEGREE * nPages]
    requires p2 == args[3 + DEGREE * nPages..3 + DEGREE * nPages + 2 * nPages]
    ensures UnpackArgs(args, nPages).Success?
    ensures UnpackArgs(args, nPages).value.theta == args[..3]
    ensures UnpackArgs(args, nPages).value.aMs == Blocks(p1, DEGREE, nPages)
    ensures UnpackArgs(args, nPages).value.aligns == Blocks(p2, 2, nPages)
    ensures UnpackArgs(args, nPages).value.lMAll == args[3 + (DEGREE + 2) * nPages..]
  {
    UnpackParts(args, nPages);
    SplitEqualBlocks(p1, nPages, DEGREE);
    SplitEqualBlocks(p2, nPages, 2);
    MulIsProduct(nPages, DEGREE);
    BlocksLengths(p1, DEGREE, nPages);
  }

  /** On a vector long enough for every page, the pieces sit where the layout puts them. */
  lemma UnpackArgsLayout(args: seq<real>, nPages: nat)
    requires nPages > 0 && |args| >= 3 + (DEGREE + 2) * nPages
    ensures UnpackArgs(args, nPages).Success?
    ensures var u := UnpackArgs(args, nPages).value;
      && u.theta == args[..3]
      && (forall p :: 0 <= p < nPages ==>
            u.aMs[p] == args[3 + DEGREE * p..3 + DEGREE * p + DEGREE])
      && (forall p :: 0 <= p < nPages ==>
            u.aligns[p] == args[3 + DEGREE * nPages + 2 * p..3 + DEGREE * nPages + 2 * p + 2])
      && u.lMAll == args[3 + (DEGREE + 2) * nPages..]
  {
    var p1 := args[3..3 + DEGREE * nPages];
    var p2 := args[3 + DEGREE * nPages..3 + DEGREE * nPages + 2 * nPages];
    UnpackArgsBlocks(args, nPages, p1, p2);
    PageBlocks(args, nPages, p1, p2);
  }

  /** Page p's coefficients and align pair as slices of the vector. */
  lemma PageBlocks(args: seq<real>, nPages: nat, p1: seq<real>, p2: seq<real>)
    requires nPages > 0 && |args| >= 3 + (DEGREE + 2) * nPages
    requires p1 == args[3..3 + DEGREE * nPages]
    requires p2 == args[3 + DEGREE * nPages..3 + DEGREE * nPages + 2 * nPages]
    ensures forall p :: 0 <= p < nPages ==>
      Blocks(p1, DEGREE, nPages)[p] == args[3 + DEGREE * p..3 + DEGREE * p + DEGREE]
    ensures forall p :: 0 <= p < nPages ==>
      Blocks(p2, 2, nPages)[p] == args[3 + DEGREE * nPages + 2 * p..3 + DEGREE * nPages + 2 * p + 2]
  {
    forall p | 0 <= p < nPages
      ensures Blocks(p1, DEGREE, nPages)[p] == args[3 + DEGREE * p..3 + DEGREE * p + DEGREE]
      ensures Blocks(p2, 2, nPages)[p] == args[3 + DEGREE * nPages + 2 * p..3 + DEGREE * nPages + 2 * p + 2]
    {
      BlockOfPart(args, p1, 3, DEGREE, nPages, p, 3 + DEGREE * p, Blocks(p1, DEGREE, nPages));
      BlockOfPart(args, p2, 3 + DEGREE * nPages, 2, nPages, p, 3 + DEGREE * nPages + 2 * p,
                  Blocks(p2, 2, nPages));
    }
  }

  /** Block p of a part of args cut into n blocks of k values, as a slice of args. */
  lemma BlockOfPart<T>(args: seq<T>, part: seq<T>, off: nat, k: nat, n: nat, p: nat, start: nat,
                       blocks: seq<seq<T>>)
    requires off + k * n <= |args| && p < n && part == args[off..off + k * n]
    requires blocks == Blocks(part, k, n) && start == off + k * p
    ensures start + k <= |args| && blocks[p] == args[start..start + k]
  {
    MulIsProduct(n, k);
    MulIsProduct(p, k);
    BlockOfSlice(args, part, off, k, n, p);
  }

  /** `initial_args`' packing, `np.concatenate([theta_0, a_m_0] + align_0s + l_m_0s)`, with
      a_m_0 the flat coefficient list of all pages. */
  function PackArgs(theta: seq<real>, aMAll: seq<real>, aligns: seq<seq<real>>,
                    lMs: seq<seq<real>>): (args: seq<real>)
    ensures args == theta + aMAll + Flatten(aligns) + Flatten(lMs)
  {
    PackConcat(theta, aMAll, aligns, lMs);
    Flatten([theta, aMAll] + aligns + lMs)
  }

  lemma PackConcat<T>(a: seq<T>, b: seq<T>, cs: seq<seq<T>>, ds: seq<seq<T>>)
    ensures Flatten([a, b] + cs + ds) == a + b + Flatten(cs) + Flatten(ds)
  {
    FlattenAppend([a, b] + cs, ds);
    FlattenAppend([a, b], cs);
    assert [a, b][..1] == [a];
    assert [a][..0] == [];
    assert Flatten([a]) == a;
    assert Flatten([a, b]) == a + b;
  }

  /** Packing as `initial_args` does and unpacking as the optimizer's callbacks do returns the
      same pieces: theta, DEGREE coefficients per page, each page's align pair, and the l_m
      values, which split per page at the line counts of all pages but the last. */
  lemma PackUnpack(theta: seq<real>, aMAll: seq<real>, aligns: seq<seq<real>>, lMs: seq<seq<real>>)
    requires |theta| == 3 && |aligns| == |lMs| > 0 && |aMAll| == DEGREE * |aligns|
    requires forall p :: 0 <= p < |aligns| ==> |aligns[p]| == 2
    ensures UnpackArgs(PackArgs(theta, aMAll, aligns, lMs), |aligns|).Success?
    ensures UnpackArgs(PackArgs(theta, aMAll, aligns, lMs), |aligns|).value.theta == theta
    ensures UnpackArgs(PackArgs(theta, aMAll, aligns, lMs), |aligns|).value.aMs
         == Blocks(aMAll, DEGREE, |aligns|)
    ensures Flatten(UnpackArgs(PackArgs(theta, aMAll, aligns, lMs), |aligns|).value.aMs) == aMAll
    ensures UnpackArgs(PackArgs(theta, aMAll, aligns, lMs), |aligns|).value.aligns == aligns
    ensures UnpackArgs(PackArgs(theta, aMAll, aligns, lMs), |aligns|).value.lMAll == Flatten(lMs)
    ensures SplitLengths(Flatten(lMs), Lengths(lMs[..|lMs| - 1])) == lMs
  {
    var n := |aligns|;
    var args := PackArgs(theta, aMAll, aligns, lMs);
    BlocksOfFlatten(aligns, 2);
    MulIsProduct(n, 2);
    MulIsProduct(n, DEGREE);
    PackedSlices(theta, aMAll, Flatten(aligns), Flatten(lMs), n);
    UnpackArgsBlocks(args, n, args[3..3 + DEGREE * n], args[3 + DEGREE * n..3 + DEGREE * n + 2 * n]);
    FlattenBlocks(aMAll, DEGREE, n);
    assert aMAll[..Mul(n, DEGREE)] == aMAll;
    SplitFlattenRoundTrip(lMs);
  }

  /** Page p's coefficient block is its DEGREE values of the flat list. */
  lemma CoefficientBlock(aMAll: seq<real>, n: nat, p: nat)
    requires |aMAll| == DEGREE * n && p < n
    ensures Blocks(aMAll, DEGREE, n)[p] == aMAll[DEGREE * p..DEGREE * p + DEGREE]
  {
    MulIsProduct(n, DEGREE);
    MulIsProduct(p, DEGREE);
    BlocksAt(aMAll, DEGREE, n, p);
  }

  lemma PackedSlices(theta: seq<real>, aMAll: seq<real>, fa: seq<real>, fl: seq<real>, n: nat)
    requires |theta| == 3 && |aMAll| == DEGREE * n && |fa| == 2 * n
    ensures var args := theta + aMAll + fa + fl;
      && |args| >= 3 + (DEGREE + 2) * n
      && args[..3] == theta
      && args[3..3 + DEGREE * n] == aMAll
      && args[3 + DEGREE * n..3 + DEGREE * n + 2 * n] == fa
      && args[3 + (DEGREE + 2) * n..] == fl
  {
  }

  /** Unpacking and packing again returns the vector: nothing is dropped or reordered. */
  lemma UnpackPack(args: seq<real>, nPages: nat)
    requires UnpackArgs(args, nPages).Success?
    ensures var u := UnpackArgs(args, nPages).value;
      PackArgs(u.theta, Flatten(u.aMs), u.aligns, [u.lMAll]) == args
  {
    var ls: seq<nat> := [3, DEGREE * nPages, 2 * nPages];
    var parts := SplitLengths(args, ls);
    SplitLengthsConcat(args, ls);
    assert parts == [parts[0], parts[1], parts[2]] + [parts[3]];
    assert [parts[0], parts[1], parts[2]] == [parts[0], parts[1]] + [parts[2]];
    PackConcat(parts[0], parts[1], [parts[2]], [parts[3]]);
    assert Flatten([parts[2]]) == parts[2] by {
      assert [parts[2]][..0] == [];
    }
    assert Flatten([parts[3]]) == parts[3] by {
      assert [parts[3]][..0] == [];
    }
    var u := UnpackArgs(args, nPages).value;
    assert Flatten(u.aMs) == parts[1];
    assert Flatten(u.aligns) == parts[2];
  }
}
