/** `E_str_project`, `E_str` and `E_str_packed` as they run: the Newton initial guesses of every
    page are kept in the module-level list `E_str_t0s`, grown and filled in place the first time a
    page is projected, overwritten by the solver with the solutions it finds, and reset before each
    optimisation. The solver `newton.t_i_k` (with the surface it returns) is a parameter. */
module Projection {
  import opened Wrappers
  import opened Seqs
  import opened NormPolys
  import opened Layout
  import opened Residuals

  /** A base point of a text line on the focal plane. */
  type Point = (real, real)

  /** The base points of one line. */
  type LinePoints = seq<Point>

  /** An initial guess for the Newton solve of one point: `np.inf` until a guess exists. */
  datatype Guess = Inf | At(t: real)

  /** One array of guesses per line of a page. */
  type Guesses = seq<seq<Guess>>

  /** `newton.t_i_k(R, g, points, t0s)`: the heights Ys of the surface points it returns, and the
      guess array as the solve leaves it, holding the solutions the next solve starts from. */
  type Solver = (seq<real>, NormPoly, LinePoints, seq<Guess>) -> (seq<real>, seq<Guess>)

  /** `[np.full((points.shape[1],), np.inf) for points in base_points]`. */
  function Fresh(lines: seq<LinePoints>): (t0s: Guesses)
    ensures |t0s| == |lines|
    ensures forall k :: 0 <= k < |lines| ==> |t0s[k]| == |lines[k]|
    ensures forall k, j :: 0 <= k < |lines| && 0 <= j < |lines[k]| ==> t0s[k][j] == Inf
  {
    seq(|lines|, k requires 0 <= k < |lines| => seq(|lines[k]|, j => Inf))
  }

  /** The list after `E_str_t0s.extend([None] * (t0s_idx - len(E_str_t0s) + 1))` when it was too short. */
  function Grown(slots: seq<Option<Guesses>>, idx: nat): (r: seq<Option<Guesses>>)
    ensures |r| == if idx < |slots| then |slots| else idx + 1
    ensures r[..|slots|] == slots
    ensures forall j :: |slots| <= j < |r| ==> r[j] == None
  {
    if |slots| <= idx then slots + seq(idx - |slots| + 1, j => None) else slots
  }

  /** The list once `E_str_project(..., idx)` has made sure slot idx holds guesses for these lines. */
  function Ensured(slots: seq<Option<Guesses>>, idx: nat, lines: seq<LinePoints>): (r: seq<Option<Guesses>>)
    ensures |r| == if idx < |slots| then |slots| else idx + 1
    ensures idx < |r| && r[idx].Some?
    ensures forall j :: 0 <= j < |slots| && j != idx ==> r[j] == slots[j]
    ensures forall j :: |slots| <= j < |r| && j != idx ==> r[j] == None
    ensures idx < |slots| && slots[idx].Some? ==> r[idx] == slots[idx]
    ensures idx >= |slots| || slots[idx].None? ==> r[idx] == Some(Fresh(lines))
  {
    var s := Grown(slots, idx);
    assert forall j :: 0 <= j < |slots| ==> s[j] == s[..|slots|][j];
    if s[idx].None? then s[idx := Some(Fresh(lines))] else s
  }

  /** A filled slot is never initialised again: a second projection of the same page, whatever
      its lines, leaves the list as the first one left it. */
  lemma EnsuredIdempotent(slots: seq<Option<Guesses>>, idx: nat, lines: seq<LinePoints>, again: seq<LinePoints>)
    ensures Ensured(Ensured(slots, idx, lines), idx, again) == Ensured(slots, idx, lines)
  {
  }

  /** The guesses page idx's lines are solved from: the slot's old guesses, or fresh ones. */
  function Starts(slots: seq<Option<Guesses>>, idx: nat, lines: seq<LinePoints>): (t0s: Guesses)
  {
    Ensured(slots, idx, lines)[idx].value
  }

  /** `zip(base_points, E_str_t0s[t0s_idx])` solved line by line. */
  function Projected(solve: Solver, theta: seq<real>, g: NormPoly, lines: seq<LinePoints>, t0s: Guesses): (ys: PageYs)
    ensures |ys| == Min(|lines|, |t0s|)
  {
    var n := Min(|lines|, |t0s|);
    seq(n, k requires 0 <= k < n => solve(theta, g, lines[k], t0s[k]).0)
  }

  /** The guess arrays of a page once `zip(base_points, t0s)` has solved its lines: each solved
      array is what the solver left in it, and arrays without a line stay as they were. */
  function Solved(solve: Solver, theta: seq<real>, g: NormPoly, lines: seq<LinePoints>, t0s: Guesses): (t: Guesses)
    ensures |t| == |t0s|
    ensures forall k :: 0 <= k < |t0s| && k < |lines| ==> t[k] == solve(theta, g, lines[k], t0s[k]).1
    ensures forall k :: |lines| <= k < |t0s| ==> t[k] == t0s[k]
  {
    seq(|t0s|, k requires 0 <= k < |t0s| => if k < |lines| then solve(theta, g, lines[k], t0s[k]).1 else t0s[k])
  }

  /** The list after `E_str_project(R, g, lines, idx)`: slot idx made sure of, then solved in place;
      every other slot is as `Ensured` leaves it. */
  function AfterProject(solve: Solver, theta: seq<real>, g: NormPoly, slots: seq<Option<Guesses>>,
                        idx: nat, lines: seq<LinePoints>): (r: seq<Option<Guesses>>)
    ensures |r| == |Ensured(slots, idx, lines)| && idx < |r|
    ensures forall j :: 0 <= j < |r| && j != idx ==> r[j] == Ensured(slots, idx, lines)[j]
    ensures r[idx] == Some(Solved(solve, theta, g, lines, Starts(slots, idx, lines)))
  {
    Ensured(slots, idx, lines)[idx := Some(Solved(solve, theta, g, lines, Starts(slots, idx, lines)))]
  }

  /** The next projection of a page starts from the solutions the previous one found, not from
      fresh guesses: this is what keeping the list between calls is for. */
  lemma ReusesSolutions(solve: Solver, theta: seq<real>, g: NormPoly, slots: seq<Option<Guesses>>,
                        idx: nat, lines: seq<LinePoints>, again: seq<LinePoints>)
    ensures Starts(AfterProject(solve, theta, g, slots, idx, lines), idx, again) ==
      Solved(solve, theta, g, lines, Starts(slots, idx, lines))
  {
  }

  /** With a fresh slot, or one filled for as many lines, the projection returns one result per
      line, in order. */
  lemma ProjectedPerLine(solve: Solver, theta: seq<real>, g: NormPoly, slots: seq<Option<Guesses>>,
                         idx: nat, lines: seq<LinePoints>)
    requires idx >= |slots| || slots[idx].None? || |slots[idx].value| == |lines|
    ensures var ys := Projected(solve, theta, g, lines, Starts(slots, idx, lines));
      |ys| == |lines| &&
      forall k :: 0 <= k < |lines| ==> ys[k] == solve(theta, g, lines[k], Starts(slots, idx, lines)[k]).0
  {
  }

  /** The list after pages 0 .. m-1 have been projected in turn, page i with polynomial gs[i], as
      `E_str_packed` does. */
  function SolvedPrefix(solve: Solver, theta: seq<real>, gs: seq<NormPoly>, slots: seq<Option<Guesses>>,
                        pages: seq<seq<LinePoints>>, m: nat): (r: seq<Option<Guesses>>)
    requires m <= |pages| == |gs|
    ensures |r| >= |slots|
  {
    if m == 0 then slots
    else AfterProject(solve, theta, gs[m - 1], SolvedPrefix(solve, theta, gs, slots, pages, m - 1), m - 1, pages[m - 1])
  }

  /** Projecting pages before p touches slot p only by adding it as an empty gap. */
  lemma {:induction false} PrefixAhead(solve: Solver, theta: seq<real>, gs: seq<NormPoly>, slots: seq<Option<Guesses>>,
                                       pages: seq<seq<LinePoints>>, m: nat, p: nat)
    requires m <= |pages| == |gs| && m <= p
    ensures var s := SolvedPrefix(solve, theta, gs, slots, pages, m);
      p < |s| ==> s[p] == if p < |slots| then slots[p] else None
    decreases m
  {
    if m > 0 {
      PrefixAhead(solve, theta, gs, slots, pages, m - 1, p);
    }
  }

  /** So page p starts from the guesses it would have had with the list as it was before the loop. */
  lemma StartsAfterPrefix(solve: Solver, theta: seq<real>, gs: seq<NormPoly>, slots: seq<Option<Guesses>>,
                          pages: seq<seq<LinePoints>>, p: nat)
    requires p < |pages| == |gs|
    ensures Starts(SolvedPrefix(solve, theta, gs, slots, pages, p), p, pages[p]) == Starts(slots, p, pages[p])
  {
    PrefixAhead(solve, theta, gs, slots, pages, p, p);
  }

  /** The heights every page gets in `E_str_packed`, given the list before the loop. */
  function PackedHeights(solve: Solver, pages: seq<seq<LinePoints>>, slots: seq<Option<Guesses>>): (heights: Heights)
  {
    (theta: seq<real>, g: NormPoly, p: nat) =>
      if p < |pages| then Projected(solve, theta, g, pages[p], Starts(slots, p, pages[p])) else []
  }

  /** Each page projected with the shared theta, its own polynomial and the guesses it starts from. */
  function StartedPages(solve: Solver, theta: seq<real>, gs: seq<NormPoly>, pages: seq<seq<LinePoints>>,
                        slots: seq<Option<Guesses>>): (ys: seq<PageYs>)
    requires |gs| == |pages|
    ensures |ys| == |pages|
    ensures forall p :: 0 <= p < |pages| ==> |ys[p]| <= |pages[p]|
  {
    seq(|pages|, p requires 0 <= p < |pages| => Projected(solve, theta, gs[p], pages[p], Starts(slots, p, pages[p])))
  }

  /** Projecting the unpacked pages through the packed heights is projecting each page from its
      starting guesses. */
  lemma StartedProjection(solve: Solver, u: Unpacked, pages: seq<seq<LinePoints>>, slots: seq<Option<Guesses>>)
    requires |u.gs| == |pages|
    ensures ProjectPages(u, PackedHeights(solve, pages, slots)) == StartedPages(solve, u.theta, u.gs, pages, slots)
  {
  }

  /** Solving only the lines up to the shorter of lines and guesses leaves the same arrays. */
  lemma SolvedUpTo(solve: Solver, theta: seq<real>, g: NormPoly, lines: seq<LinePoints>, t0s: Guesses)
    ensures Solved(solve, theta, g, lines[..Min(|lines|, |t0s|)], t0s) == Solved(solve, theta, g, lines, t0s)
    ensures Projected(solve, theta, g, lines[..Min(|lines|, |t0s|)], t0s) == Projected(solve, theta, g, lines, t0s)
  {
  }

  /** `E_str_t0s`. */
  class StrCache {
    var slots: seq<Option<Guesses>>

    /** The module starts with `E_str_t0s = []`. */
    constructor()
      ensures slots == []
    {
      slots := [];
    }

    /** `E_str_t0s, E_align_t0s = [], []` before each optimisation. */
    method Reset()
      modifies this
      ensures slots == []
    {
      slots := [];
    }

    /** `E_str_project(R, g, base_points, t0s_idx)`. */
    method Project(solve: Solver, theta: seq<real>, g: NormPoly, lines: seq<LinePoints>, idx: nat)
      returns (ys: PageYs)
      modifies this
      ensures slots == AfterProject(solve, theta, g, old(slots), idx, lines)
      ensures ys == Projected(solve, theta, g, lines, Starts(old(slots), idx, lines))
    {
      if |slots| <= idx {
        slots := slots + seq(idx - |slots| + 1, j => None);
      }
      if slots[idx].None? {
        slots := slots[idx := Some(Fresh(lines))];
      }
      assert slots == Ensured(old(slots), idx, lines);
      var t0s := slots[idx].value;
      ghost var start := t0s;
      var n := Min(|lines|, |t0s|);
      ys := [];
      for k := 0 to n
        invariant ys == Projected(solve, theta, g, lines[..k], start)
        invariant t0s == Solved(solve, theta, g, lines[..k], start)
      {
        var solution := solve(theta, g, lines[k], t0s[k]);
        ys := ys + [solution.0];
        t0s := t0s[k := solution.1];
      }
      assert lines[..n] == lines[..Min(|lines|, |start|)];
      SolvedUpTo(solve, theta, g, lines, start);
      slots := slots[idx := Some(t0s)];
    }

    /** `E_str(theta, g, l_m, base_points, page_idx)`: the line-count assertion comes before any
        projection, so a failing page leaves the list alone. */
    method EStr(solve: Solver, theta: seq<real>, g: NormPoly, lM: seq<real>, lines: seq<LinePoints>, pageIdx: nat)
      returns (r: Result<seq<real>, ResidualError>)
      modifies this
      ensures |lines| != |lM| ==> r == Failure(LineCountMismatch) && slots == old(slots)
      ensures |lines| == |lM| ==> slots == AfterProject(solve, theta, g, old(slots), pageIdx, lines)
      ensures r == PageResiduals(|lines|, Projected(solve, theta, g, lines, Starts(old(slots), pageIdx, lines)), lM)
    {
      if |lines| != |lM| {
        return Failure(LineCountMismatch);
      }
      var ys := Project(solve, theta, g, lines, pageIdx);
      var n := Min(|ys|, |lM|);
      var residuals: seq<seq<real>> := [];
      var k := 0;
      while k < n
        invariant 0 <= k <= n && |residuals| == k
        invariant forall j :: 0 <= j < k ==> residuals[j] == LineResiduals(ys[j], lM[j])
      {
        residuals := residuals + [LineResiduals(ys[k], lM[k])];
        k := k + 1;
      }
      if n == 0 {
        r := Failure(NoLines);
      } else {
        assert residuals == seq(n, j requires 0 <= j < n => LineResiduals(ys[j], lM[j]));
        r := Success(Flatten(residuals));
      }
    }

    /** The loop of `E_str_packed`: `E_str` on each page in turn with its polynomial and its
        share of `l_m_all`, stopping at the first error. */
    method PagesLoop(solve: Solver, theta: seq<real>, gs: seq<NormPoly>, lMs: seq<seq<real>>,
                     pages: seq<seq<LinePoints>>)
      returns (r: Result<seq<seq<real>>, ResidualError>)
      requires |gs| == |lMs| == |pages|
      modifies this
      ensures r == PageVectors(Lengths(pages), StartedPages(solve, theta, gs, pages, old(slots)), lMs)
      ensures r.Success? ==> slots == SolvedPrefix(solve, theta, gs, old(slots), pages, |pages|)
      ensures exists m: nat :: m <= |pages| && slots == SolvedPrefix(solve, theta, gs, old(slots), pages, m)
    {
      var counts := Lengths(pages);
      ghost var start := slots;
      ghost var ys := StartedPages(solve, theta, gs, pages, slots);
      var blocks: seq<seq<real>> := [];
      var i := 0;
      while i < |pages|
        invariant 0 <= i <= |pages| && slots == SolvedPrefix(solve, theta, gs, start, pages, i)
        invariant PageVectors(counts[..i], ys[..i], lMs[..i]) == Success(blocks)
      {
        StartsAfterPrefix(solve, theta, gs, start, pages, i);
        var v := EStr(solve, theta, gs[i], lMs[i], pages[i], i);
        assert v == PageResiduals(counts[i], ys[i], lMs[i]);
        if v.Failure? {
          VectorsStop(counts, ys, lMs, i);
          if |pages[i]| == |lMs[i]| {
            assert slots == SolvedPrefix(solve, theta, gs, start, pages, i + 1);
          } else {
            assert slots == SolvedPrefix(solve, theta, gs, start, pages, i);
          }
          return Failure(v.error);
        }
        VectorsGrow(counts, ys, lMs, i, blocks, v.value);
        blocks := blocks + [v.value];
        i := i + 1;
      }
      assert counts[..i] == counts && ys[..i] == ys && lMs[..i] == lMs;
      r := Success(blocks);
    }

    /** `E_str_packed(args, base_points)`: unpack, split `l_m_all` by the line counts of all pages
        but the last, run the loop and concatenate. */
    method EStrPacked(solve: Solver, args: seq<real>, pages: seq<seq<LinePoints>>)
      returns (r: Result<seq<real>, ResidualError>)
      modifies this
      ensures r == PackedResiduals(args, Lengths(pages), PackedHeights(solve, pages, old(slots)))
      ensures UnpackArgs(args, |pages|).Failure? ==> slots == old(slots)
      ensures UnpackArgs(args, |pages|).Success? ==>
        var u := UnpackArgs(args, |pages|).value;
        && (r.Success? ==> slots == SolvedPrefix(solve, u.theta, u.gs, old(slots), pages, |pages|))
        && exists m: nat :: m <= |pages| && slots == SolvedPrefix(solve, u.theta, u.gs, old(slots), pages, m)
    {
      var unpacked := UnpackArgs(args, |pages|);
      if unpacked.Failure? {
        return Failure(UnpackFailed(unpacked.error));
      }
      var u := unpacked.value;
      var lMs := SplitLengths(u.lMAll, Lengths(pages)[..|pages| - 1]);
      StartedProjection(solve, u, pages, slots);
      PackedFromParts(args, Lengths(pages), PackedHeights(solve, pages, slots), u.lMAll,
                      StartedPages(solve, u.theta, u.gs, pages, slots));
      var vs := PagesLoop(solve, u.theta, u.gs, lMs, pages);
      if vs.Failure? {
        return Failure(vs.error);
      }
      r := Success(Flatten(vs.value));
    }
  }
}
