/** Text-line clean-up in rebook/dewarp.py: `compress`, `remove_outliers` (drop short lines,
    refit each kept line and keep its inliers) and `merge_lines` (a left fold that merges a line
    into the last output line when their baselines are close). The RANSAC fit and the area
    between two baselines are parameters; a fit that finds no model makes both raise. */
module Lines {
  import opened Wrappers

  /** `itertools.compress(l, flags)`: the elements whose flag is set, stopping at the shorter input. */
  function Compress<T>(l: seq<T>, flags: seq<bool>): (r: seq<T>)
    ensures |r| <= |l| && |r| <= |flags|
    ensures forall x :: x in r ==> x in l
  {
    if |l| == 0 || |flags| == 0 then []
    else (if flags[0] then [l[0]] else []) + Compress(l[1..], flags[1..])
  }

  /** The number of set flags. */
  function CountTrue(flags: seq<bool>): nat
  {
    if |flags| == 0 then 0 else (if flags[0] then 1 else 0) + CountTrue(flags[1..])
  }

  /** Exactly one element per set flag among the flags that have an element. */
  lemma {:induction false} CompressLength<T>(l: seq<T>, flags: seq<bool>)
    ensures |l| <= |flags| ==> |Compress(l, flags)| == CountTrue(flags[..|l|])
    ensures |flags| <= |l| ==> |Compress(l, flags)| == CountTrue(flags)
  {
    if |l| != 0 && |flags| != 0 {
      CompressLength(l[1..], flags[1..]);
      if |l| <= |flags| {
        assert flags[..|l|][1..] == flags[1..][..|l| - 1];
      }
    } else if |l| == 0 {
      assert flags[..0] == [];
    }
  }

  /** An element is kept exactly when some position holding it has its flag set. */
  lemma {:induction false} CompressIn<T>(l: seq<T>, flags: seq<bool>, x: T)
    ensures x in Compress(l, flags) <==> exists i :: 0 <= i < |l| && i < |flags| && flags[i] && l[i] == x
  {
    if |l| != 0 && |flags| != 0 {
      CompressIn(l[1..], flags[1..], x);
      if x in Compress(l, flags) && !(flags[0] && l[0] == x) {
        assert x in Compress(l[1..], flags[1..]);
        var i :| 0 <= i < |l[1..]| && i < |flags[1..]| && flags[1..][i] && l[1..][i] == x;
        assert flags[i + 1] && l[i + 1] == x;
      }
      if i :| 0 <= i < |l| && i < |flags| && flags[i] && l[i] == x {
        if i > 0 {
          assert flags[1..][i - 1] && l[1..][i - 1] == x;
        }
      }
    }
  }

  /** The shorter of two lengths: how far `compress` walks. */
  function Shorter(a: nat, b: nat): nat
  {
    if a <= b then a else b
  }

  /** The positions below n whose flag is set, in increasing order. */
  function Positions(flags: seq<bool>, n: nat): (ps: seq<nat>)
    requires n <= |flags|
    ensures forall k :: 0 <= k < |ps| ==> ps[k] < n && flags[ps[k]]
    ensures forall k, m :: 0 <= k < m < |ps| ==> ps[k] < ps[m]
    ensures forall t :: 0 <= t < n && flags[t] ==> t in ps
  {
    if n == 0 then [] else Positions(flags, n - 1) + (if flags[n - 1] then [n - 1] else [])
  }

  /** The elements of l at the positions ps, in that order. */
  function Picks<T>(l: seq<T>, ps: seq<nat>): (r: seq<T>)
    requires forall k :: 0 <= k < |ps| ==> ps[k] < |l|
    ensures |r| == |ps| && forall k :: 0 <= k < |ps| ==> r[k] == l[ps[k]]
  {
    seq(|ps|, k requires 0 <= k < |ps| => l[ps[k]])
  }

  /** Compressing two runs one after the other, each with its own flags. */
  lemma {:induction false} CompressAppend<T>(a: seq<T>, b: seq<T>, fa: seq<bool>, fb: seq<bool>)
    requires |a| == |fa|
    ensures Compress(a + b, fa + fb) == Compress(a, fa) + Compress(b, fb)
  {
    if |a| == 0 {
      assert a + b == b && fa + fb == fb;
    } else {
      assert (a + b)[1..] == a[1..] + b && (fa + fb)[1..] == fa[1..] + fb;
      CompressAppend(a[1..], b, fa[1..], fb);
    }
  }

  /** `compress` looks no further than the shorter input. */
  lemma {:induction false} CompressTrunc<T>(l: seq<T>, flags: seq<bool>)
    ensures var n := Shorter(|l|, |flags|); Compress(l, flags) == Compress(l[..n], flags[..n])
  {
    var n := Shorter(|l|, |flags|);
    if n > 0 {
      CompressTrunc(l[1..], flags[1..]);
      assert l[..n][1..] == l[1..][..n - 1] && flags[..n][1..] == flags[1..][..n - 1];
    }
  }

  lemma {:induction false} CompressPrefix<T>(l: seq<T>, flags: seq<bool>, n: nat)
    requires n <= |l| && n <= |flags|
    ensures Compress(l[..n], flags[..n]) == Picks(l, Positions(flags, n))
  {
    if n > 0 {
      var ps := Positions(flags, n - 1);
      CompressPrefix(l, flags, n - 1);
      assert l[..n] == l[..n - 1] + [l[n - 1]] && flags[..n] == flags[..n - 1] + [flags[n - 1]];
      CompressAppend(l[..n - 1], [l[n - 1]], flags[..n - 1], [flags[n - 1]]);
      if flags[n - 1] {
        assert Compress([l[n - 1]], [flags[n - 1]]) == [l[n - 1]];
        PicksSnoc(l, ps, n - 1);
      } else {
        assert Compress([l[n - 1]], [flags[n - 1]]) == [];
        assert Positions(flags, n) == ps;
      }
    }
  }

  lemma PicksSnoc<T>(l: seq<T>, ps: seq<nat>, t: nat)
    requires t < |l| && forall k :: 0 <= k < |ps| ==> ps[k] < |l|
    ensures Picks(l, ps + [t]) == Picks(l, ps) + [l[t]]
  {
  }

  /** `compress` keeps exactly the elements at the flagged positions, in their order. */
  lemma CompressPicks<T>(l: seq<T>, flags: seq<bool>)
    ensures Compress(l, flags) == Picks(l, Positions(flags, Shorter(|l|, |flags|)))
  {
    CompressTrunc(l, flags);
    CompressPrefix(l, flags, Shorter(|l|, |flags|));
  }

  /** All flags set keeps everything, in order. */
  lemma {:induction false} CompressAll<T>(l: seq<T>, flags: seq<bool>)
    requires |l| <= |flags| && forall i :: 0 <= i < |flags| ==> flags[i]
    ensures Compress(l, flags) == l
  {
    if |l| != 0 {
      CompressAll(l[1..], flags[1..]);
    }
  }

  /** A letter: its bounding box (x, y, w, h). */
  datatype Letter = Letter(x: real, y: real, w: real, h: real)

  function Left(c: Letter): real
  {
    c.x
  }

  function Right(c: Letter): real
  {
    c.x + c.w
  }

  /** A baseline model (the polynomial's coefficients). */
  type Model = seq<real>

  /** A text line: its letters in order and its baseline model. */
  datatype Line = Line(letters: seq<Letter>, model: Model)

  /** `ransac(points, PolyModel5, 10, threshold)` on the letters' base points: the fitted model
      and one inlier flag per point, or None when it yields no model (the `.params` of the result
      then raises). */
  type Fitter = (seq<Letter>, real) -> Option<(Model, seq<bool>)>

  /** `abs(integ(x_max) - integ(x_min))` for `integ = (a - b).integ()`: the area between two
      baselines over [x_min, x_max]. */
  type Area = (Model, Model, real, real) -> real

  /** `l.model = model; l.compress(inliers)` after fitting the line's letters: no line when the
      fit finds no model, and otherwise the fitted model with letters taken from the line. */
  function Refit(fit: Fitter, threshold: real, l: Line): (r: Option<Line>)
    ensures r.None? <==> fit(l.letters, threshold).None?
    ensures r.Some? ==> r.value.model == fit(l.letters, threshold).value.0
    ensures r.Some? ==> forall c :: c in r.value.letters ==> c in l.letters
  {
    match fit(l.letters, threshold)
    case None => None
    case Some(fitted) => Some(Line(Compress(l.letters, fitted.1), fitted.0))
  }

  /** The refitted line keeps exactly the letters flagged as inliers, in their order: a letter
      stays exactly when a position holding it is an inlier. */
  lemma RefitLetters(fit: Fitter, threshold: real, l: Line, c: Letter)
    requires fit(l.letters, threshold).Some?
    ensures var inliers := fit(l.letters, threshold).value.1;
      Refit(fit, threshold, l).value.letters == Picks(l.letters, Positions(inliers, Shorter(|l.letters|, |inliers|)))
    ensures var inliers := fit(l.letters, threshold).value.1;
      c in Refit(fit, threshold, l).value.letters <==>
      exists t :: 0 <= t < |l.letters| && t < |inliers| && inliers[t] && l.letters[t] == c
  {
    CompressPicks(l.letters, fit(l.letters, threshold).value.1);
    CompressIn(l.letters, fit(l.letters, threshold).value.1, c);
  }

  /** Lines with at least five letters survive `remove_outliers`. */
  predicate Long(l: Line)
  {
    |l.letters| >= 5
  }

  /** The lines `remove_outliers` keeps, in their order. */
  function LongLines(lines: seq<Line>): (r: seq<Line>)
    ensures |r| <= |lines|
    ensures forall l :: l in r ==> l in lines && Long(l)
  {
    if |lines| == 0 then [] else (if Long(lines[0]) then [lines[0]] else []) + LongLines(lines[1..])
  }

  /** Keeping the long lines is `compress` with the flags `len(l) >= 5`. */
  lemma {:induction false} LongLinesCompress(lines: seq<Line>)
    ensures LongLines(lines) == Compress(lines, seq(|lines|, i requires 0 <= i < |lines| => Long(lines[i])))
  {
    if |lines| != 0 {
      LongLinesCompress(lines[1..]);
      var flags := seq(|lines|, i requires 0 <= i < |lines| => Long(lines[i]));
      assert flags[1..] == seq(|lines[1..]|, i requires 0 <= i < |lines[1..]| => Long(lines[1..][i]));
    }
  }

  /** A line is kept exactly when it appears in the input and is long. */
  lemma LongLinesIn(lines: seq<Line>, l: Line)
    ensures l in LongLines(lines) <==> l in lines && Long(l)
  {
    var flags := seq(|lines|, i requires 0 <= i < |lines| => Long(lines[i]));
    LongLinesCompress(lines);
    CompressIn(lines, flags, l);
  }

  /** Why `remove_outliers` or `merge_lines` raises: no first line, a later line with no letters
      to take its extent from, or a fit of line `index` that found no model. */
  datatype MergeError = NoLines | EmptyLine(index: nat) | NoFit(index: nat)

  /** The loop of `remove_outliers` before the merge: every long line refitted with threshold
      AH / 10, raising at the first fit that finds no model. */
  function Kept(fit: Fitter, ah: real, lines: seq<Line>): (r: Result<seq<Line>, MergeError>)
    ensures r.Success? ==> |r.value| <= |lines|
    ensures r.Failure? ==> r.error.NoFit? && r.error.index < |lines|
  {
    if |lines| == 0 then Success([])
    else
      var n := |lines| - 1;
      match Kept(fit, ah, lines[..n])
      case Failure(e) => Failure(e)
      case Success(prev) =>
        if !Long(lines[n]) then Success(prev)
        else match Refit(fit, ah / 10.0, lines[n])
          case None => Failure(NoFit(n))
          case Some(l) => Success(prev + [l])
  }

  /** The long lines of a non-empty run: those before its last line, then the last if long. */
  lemma {:induction false} LongLinesSnoc(lines: seq<Line>)
    requires |lines| > 0
    ensures var n := |lines| - 1;
      LongLines(lines) == LongLines(lines[..n]) + (if Long(lines[n]) then [lines[n]] else [])
  {
    var n := |lines| - 1;
    assert lines == lines[..n] + [lines[n]];
    LongLinesAppend(lines[..n], [lines[n]]);
    LongLinesOne(lines[n]);
  }

  /** A single line is kept exactly when it is long. */
  lemma LongLinesOne(l: Line)
    ensures LongLines([l]) == if Long(l) then [l] else []
  {
    assert [l][1..] == [];
  }

  /** Every line of ls has a fit with this threshold. */
  ghost predicate AllFit(fit: Fitter, threshold: real, ls: seq<Line>)
  {
    forall k :: 0 <= k < |ls| ==> fit(ls[k].letters, threshold).Some?
  }

  lemma AllFitAppend(fit: Fitter, threshold: real, a: seq<Line>, b: seq<Line>)
    ensures AllFit(fit, threshold, a + b) <==> AllFit(fit, threshold, a) && AllFit(fit, threshold, b)
  {
    if AllFit(fit, threshold, a) && AllFit(fit, threshold, b) {
      forall k | 0 <= k < |a + b|
        ensures fit((a + b)[k].letters, threshold).Some?
      {
        if k >= |a| {
          assert (a + b)[k] == b[k - |a|];
        }
      }
    }
    if AllFit(fit, threshold, a + b) {
      forall k | 0 <= k < |a|
        ensures fit(a[k].letters, threshold).Some?
      {
        assert (a + b)[k] == a[k];
      }
      forall k | 0 <= k < |b|
        ensures fit(b[k].letters, threshold).Some?
      {
        assert (a + b)[|a| + k] == b[k];
      }
    }
  }

  /** One more line: the loop gets past it exactly when it got past the lines before and the
      line is short or has a fit. */
  lemma KeptStep(fit: Fitter, ah: real, lines: seq<Line>)
    requires |lines| > 0
    ensures var n := |lines| - 1;
      Kept(fit, ah, lines).Success? <==>
      Kept(fit, ah, lines[..n]).Success? && (Long(lines[n]) ==> fit(lines[n].letters, ah / 10.0).Some?)
  {
  }

  /** `remove_outliers` gets past its loop exactly when every long line has a fit. */
  lemma {:induction false} KeptSucceeds(fit: Fitter, ah: real, lines: seq<Line>)
    ensures Kept(fit, ah, lines).Success? <==> AllFit(fit, ah / 10.0, LongLines(lines))
  {
    if |lines| > 0 {
      var n := |lines| - 1;
      KeptSucceeds(fit, ah, lines[..n]);
      KeptStep(fit, ah, lines);
      LongLinesSnoc(lines);
      var tail := if Long(lines[n]) then [lines[n]] else [];
      AllFitAppend(fit, ah / 10.0, LongLines(lines[..n]), tail);
      assert AllFit(fit, ah / 10.0, tail) <==> (Long(lines[n]) ==> fit(lines[n].letters, ah / 10.0).Some?);
    }
  }

  /** Past its loop, `remove_outliers` holds one AH / 10 refit per long line, in order. */
  lemma {:induction false} KeptRefits(fit: Fitter, ah: real, lines: seq<Line>)
    requires Kept(fit, ah, lines).Success?
    ensures var ks := Kept(fit, ah, lines).value;
      && |ks| == |LongLines(lines)|
      && forall k :: 0 <= k < |ks| ==> Some(ks[k]) == Refit(fit, ah / 10.0, LongLines(lines)[k])
  {
    if |lines| > 0 {
      var n := |lines| - 1;
      var pre, x := lines[..n], lines[n];
      var prev := Kept(fit, ah, pre).value;
      KeptRefits(fit, ah, pre);
      LongLinesSnoc(lines);
      var all, before := LongLines(lines), LongLines(pre);
      var ks := Kept(fit, ah, lines).value;
      if Long(x) {
        assert ks == prev + [Refit(fit, ah / 10.0, x).value];
        assert all == before + [x];
        forall k | 0 <= k < |ks|
          ensures Some(ks[k]) == Refit(fit, ah / 10.0, all[k])
        {
          if k < |before| {
            assert ks[k] == prev[k] && all[k] == before[k];
          }
        }
      } else {
        assert ks == prev && all == before;
      }
    }
  }

  /** Once the loop has raised on a prefix, the whole input raises with the same error. */
  lemma {:induction false} KeptFailsAfter(fit: Fitter, ah: real, lines: seq<Line>, m: nat)
    requires m <= |lines| && Kept(fit, ah, lines[..m]).Failure?
    ensures Kept(fit, ah, lines) == Kept(fit, ah, lines[..m])
    decreases |lines| - m
  {
    if m == |lines| {
      assert lines[..m] == lines;
    } else {
      var n := |lines| - 1;
      assert lines[..n][..m] == lines[..m];
      KeptFailsAfter(fit, ah, lines[..n], m);
    }
  }

  /** `remove_outliers` raises at the first long line whose fit finds no model. */
  lemma KeptFailsAt(fit: Fitter, ah: real, lines: seq<Line>, i: nat)
    requires i < |lines| && Kept(fit, ah, lines[..i]).Success?
    requires Long(lines[i]) && fit(lines[i].letters, ah / 10.0).None?
    ensures Kept(fit, ah, lines) == Failure(NoFit(i))
  {
    assert lines[..i + 1][..i] == lines[..i];
    KeptFailsAfter(fit, ah, lines, i + 1);
  }

  /** The merge test of `merge_lines`: the mean gap between the two baselines over the new line's
      extent is below AH / 8. A zero-width extent divides by zero, giving inf or nan, which never
      compares below. */
  predicate Close(area: Area, ah: real, last: Line, line: Line)
    requires |line.letters| > 0
    ensures Close(area, ah, last, line) ==> Left(line.letters[0]) != Right(line.letters[|line.letters| - 1])
  {
    var xMin := Left(line.letters[0]);
    var xMax := Right(line.letters[|line.letters| - 1]);
    xMax - xMin != 0.0 && area(last.model, line.model, xMin, xMax) / (xMax - xMin) < ah / 8.0
  }

  /** `out_lines[-1].merge(line)`, then the refit with threshold AH / 15 and the compress to its
      inliers: no line when the fit finds no model, and otherwise the model fitted to both lines'
      letters, with letters taken from the two lines. */
  function Merged(fit: Fitter, ah: real, last: Line, line: Line): (r: Option<Line>)
    ensures r.None? <==> fit(last.letters + line.letters, ah / 15.0).None?
    ensures r.Some? ==> r.value.model == fit(last.letters + line.letters, ah / 15.0).value.0
    ensures r.Some? ==> forall c :: c in r.value.letters ==> c in last.letters || c in line.letters
  {
    Refit(fit, ah / 15.0, Line(last.letters + line.letters, last.model))
  }

  /** The merged line keeps exactly the letters of both lines that the AH / 15 fit flags as
      inliers, in their order. */
  lemma MergedLetters(fit: Fitter, ah: real, last: Line, line: Line)
    requires fit(last.letters + line.letters, ah / 15.0).Some?
    ensures var both := last.letters + line.letters;
      var inliers := fit(both, ah / 15.0).value.1;
      Merged(fit, ah, last, line).value.letters == Picks(both, Positions(inliers, Shorter(|both|, |inliers|)))
  {
    CompressPicks(last.letters + line.letters, fit(last.letters + line.letters, ah / 15.0).value.1);
  }

  /** One step of the fold, for input line n: merge into the last output line when close, raising
      if that refit finds no model, or append. Earlier output lines are never touched. */
  function Absorb(fit: Fitter, area: Area, ah: real, out: seq<Line>, line: Line, n: nat): (r: Result<seq<Line>, MergeError>)
    requires |out| > 0 && |line.letters| > 0
    ensures r.Failure? ==> r.error == NoFit(n)
    ensures r.Success? ==> |out| <= |r.value| <= |out| + 1 && r.value[..|out| - 1] == out[..|out| - 1]
  {
    var last := out[|out| - 1];
    if !Close(area, ah, last, line) then Success(out + [line])
    else match Merged(fit, ah, last, line)
      case None => Failure(NoFit(n))
      case Some(merged) => Success(out[..|out| - 1] + [merged])
  }

  /** The step raises exactly when the line is close and the merged letters have no fit; it
      replaces the last output line by the merged one when close, and appends the line otherwise. */
  lemma AbsorbCases(fit: Fitter, area: Area, ah: real, out: seq<Line>, line: Line, n: nat)
    requires |out| > 0 && |line.letters| > 0
    ensures var r := Absorb(fit, area, ah, out, line, n);
      r.Failure? <==> Close(area, ah, out[|out| - 1], line) && fit(out[|out| - 1].letters + line.letters, ah / 15.0).None?
    ensures var r := Absorb(fit, area, ah, out, line, n);
      r.Success? ==>
      && |r.value| == (if Close(area, ah, out[|out| - 1], line) then |out| else |out| + 1)
      && r.value[|r.value| - 1] == if Close(area, ah, out[|out| - 1], line) then Merged(fit, ah, out[|out| - 1], line).value else line
  {
  }

  /** `merge_lines(AH, lines)`, as a left fold over the input. */
  function MergeFold(fit: Fitter, area: Area, ah: real, lines: seq<Line>): (r: Result<seq<Line>, MergeError>)
    ensures r.Success? ==> 0 < |r.value| <= |lines|
  {
    if |lines| == 0 then Failure(NoLines)
    else if |lines| == 1 then Success([lines[0]])
    else
      var n := |lines| - 1;
      match MergeFold(fit, area, ah, lines[..n])
      case Failure(e) => Failure(e)
      case Success(out) =>
        if |lines[n].letters| == 0 then Failure(EmptyLine(n)) else Absorb(fit, area, ah, out, lines[n], n)
  }

  /** The fold over two or more lines, in terms of the fold without the last line: the last line
      has letters and is merged into the last output line when close, appended otherwise. */
  lemma FoldLast(fit: Fitter, area: Area, ah: real, lines: seq<Line>)
    requires |lines| > 1 && MergeFold(fit, area, ah, lines).Success?
    ensures var n := |lines| - 1;
      && MergeFold(fit, area, ah, lines[..n]).Success? && |lines[n].letters| > 0
      && var out := MergeFold(fit, area, ah, lines[..n]).value;
      && (Close(area, ah, out[|out| - 1], lines[n]) ==>
            && Merged(fit, ah, out[|out| - 1], lines[n]).Some?
            && MergeFold(fit, area, ah, lines).value == out[..|out| - 1] + [Merged(fit, ah, out[|out| - 1], lines[n]).value])
      && (!Close(area, ah, out[|out| - 1], lines[n]) ==> MergeFold(fit, area, ah, lines).value == out + [lines[n]])
  {
  }

  /** `merge_lines` raises at the first later line without letters. */
  lemma MergeFailsAt(fit: Fitter, area: Area, ah: real, lines: seq<Line>, i: nat)
    requires 1 <= i < |lines| && MergeFold(fit, area, ah, lines[..i]).Success? && |lines[i].letters| == 0
    ensures MergeFold(fit, area, ah, lines) == Failure(EmptyLine(i))
  {
    MergeStep(fit, area, ah, lines, i, MergeFold(fit, area, ah, lines[..i]).value);
    MergeFailsAfter(fit, area, ah, lines, i + 1);
  }

  /** `merge_lines` raises when a line close enough to be merged leaves letters the fit finds no
      model for. */
  lemma MergeNoFitAt(fit: Fitter, area: Area, ah: real, lines: seq<Line>, i: nat, out: seq<Line>)
    requires 1 <= i < |lines| && MergeFold(fit, area, ah, lines[..i]) == Success(out) && |lines[i].letters| > 0
    requires Close(area, ah, out[|out| - 1], lines[i]) && fit(out[|out| - 1].letters + lines[i].letters, ah / 15.0).None?
    ensures MergeFold(fit, area, ah, lines) == Failure(NoFit(i))
  {
    MergeStep(fit, area, ah, lines, i, out);
    MergeFailsAfter(fit, area, ah, lines, i + 1);
  }

  /** A fit that always finds a model. */
  ghost predicate AlwaysFits(fit: Fitter, threshold: real)
  {
    forall letters :: fit(letters, threshold).Some?
  }

  /** With a first line, letters in every later line and a fit that always finds a model,
      `merge_lines` returns. */
  lemma {:induction false} MergeSucceeds(fit: Fitter, area: Area, ah: real, lines: seq<Line>)
    requires |lines| > 0 && forall j :: 1 <= j < |lines| ==> |lines[j].letters| > 0
    requires AlwaysFits(fit, ah / 15.0)
    ensures MergeFold(fit, area, ah, lines).Success?
  {
    if |lines| > 1 {
      var n := |lines| - 1;
      assert forall j :: 1 <= j < n ==> |lines[..n][j].letters| > 0;
      MergeSucceeds(fit, area, ah, lines[..n]);
    }
  }

  /** Where output line k ends in the input: the next output line's first input line, or the end. */
  function GroupEnd(heads: seq<nat>, k: nat, total: nat): nat
  {
    if k + 1 < |heads| then heads[k + 1] else total
  }

  /** For each output line of `merge_lines`, the input line it started from: it was appended
      there, and every input line up to the next start was merged into it. */
  ghost function Heads(fit: Fitter, area: Area, ah: real, lines: seq<Line>): (heads: seq<nat>)
    requires MergeFold(fit, area, ah, lines).Success?
    ensures |heads| == |MergeFold(fit, area, ah, lines).value|
    ensures forall k :: 0 <= k < |heads| ==> heads[k] < |lines|
  {
    if |lines| == 1 then [0]
    else
      var n := |lines| - 1;
      var out := MergeFold(fit, area, ah, lines[..n]).value;
      var heads := Heads(fit, area, ah, lines[..n]);
      if Close(area, ah, out[|out| - 1], lines[n]) then heads else heads + [n]
  }

  /** The output lines start at increasing input positions, the first at lines[0]: input order is
      kept and no line is merged backwards. */
  lemma {:induction false} MergeOrder(fit: Fitter, area: Area, ah: real, lines: seq<Line>)
    requires MergeFold(fit, area, ah, lines).Success?
    ensures var heads := Heads(fit, area, ah, lines);
      && |heads| == |MergeFold(fit, area, ah, lines).value|
      && heads[0] == 0 && heads[|heads| - 1] < |lines|
      && forall k :: 0 <= k < |heads| - 1 ==> heads[k] < heads[k + 1]
  {
    if |lines| > 1 {
      MergeOrder(fit, area, ah, lines[..|lines| - 1]);
    }
  }

  /** Output line k is input line heads[k] unchanged whenever nothing was merged into it. */
  ghost predicate Singles(out: seq<Line>, heads: seq<nat>, lines: seq<Line>)
  {
    && |out| == |heads|
    && forall k :: 0 <= k < |out| && GroupEnd(heads, k, |lines|) == heads[k] + 1 ==>
         heads[k] < |lines| && out[k] == lines[heads[k]]
  }

  /** Appending the next input line keeps the untouched output lines as they were. */
  lemma SinglesAppend(out: seq<Line>, heads: seq<nat>, lines: seq<Line>)
    requires |lines| > 0 && Singles(out, heads, lines[..|lines| - 1])
    ensures Singles(out + [lines[|lines| - 1]], heads + [|lines| - 1], lines)
  {
    var n := |lines| - 1;
    var out', heads' := out + [lines[n]], heads + [n];
    forall k | 0 <= k < |out'| && GroupEnd(heads', k, |lines|) == heads'[k] + 1
      ensures heads'[k] < |lines| && out'[k] == lines[heads'[k]]
    {
      if k < |out| {
        assert GroupEnd(heads, k, n) == GroupEnd(heads', k, |lines|);
        assert out[k] == lines[..n][heads[k]];
      }
    }
  }

  /** Merging into the last output line, which already holds a line before the new one, leaves the
      untouched output lines as they were. */
  lemma SinglesMerge(merged: Line, out: seq<Line>, heads: seq<nat>, lines: seq<Line>)
    requires |lines| > 0 && |out| > 0 && Singles(out, heads, lines[..|lines| - 1])
    requires heads[|heads| - 1] < |lines| - 1
    ensures Singles(out[..|out| - 1] + [merged], heads, lines)
  {
    var n := |lines| - 1;
    var out' := out[..|out| - 1] + [merged];
    forall k | 0 <= k < |out'| && GroupEnd(heads, k, |lines|) == heads[k] + 1
      ensures heads[k] < |lines| && out'[k] == lines[heads[k]]
    {
      if k + 1 < |out| {
        assert GroupEnd(heads, k, n) == GroupEnd(heads, k, |lines|);
        assert out[k] == lines[..n][heads[k]];
      }
    }
  }

  /** An output line of `merge_lines` that nothing was merged into is its input line unchanged. */
  lemma {:induction false} MergeKeepsSingles(fit: Fitter, area: Area, ah: real, lines: seq<Line>)
    requires MergeFold(fit, area, ah, lines).Success?
    ensures Singles(MergeFold(fit, area, ah, lines).value, Heads(fit, area, ah, lines), lines)
  {
    if |lines| > 1 {
      var n := |lines| - 1;
      FoldLast(fit, area, ah, lines);
      MergeKeepsSingles(fit, area, ah, lines[..n]);
      var out := MergeFold(fit, area, ah, lines[..n]).value;
      var heads := Heads(fit, area, ah, lines[..n]);
      if Close(area, ah, out[|out| - 1], lines[n]) {
        SinglesMerge(Merged(fit, ah, out[|out| - 1], lines[n]).value, out, heads, lines);
      } else {
        SinglesAppend(out, heads, lines);
      }
    }
  }

  /** Every letter of output line k comes from an input line between its start and the next. */
  ghost predicate Sourced(out: seq<Line>, heads: seq<nat>, lines: seq<Line>)
  {
    && |out| == |heads|
    && forall k, c :: 0 <= k < |out| && c in out[k].letters ==>
         exists i :: heads[k] <= i < GroupEnd(heads, k, |lines|) && i < |lines| && c in lines[i].letters
  }

  /** Appending the next input line keeps every output line's letters sourced. */
  lemma SourcedAppend(out: seq<Line>, heads: seq<nat>, lines: seq<Line>)
    requires |lines| > 0 && Sourced(out, heads, lines[..|lines| - 1])
    ensures Sourced(out + [lines[|lines| - 1]], heads + [|lines| - 1], lines)
  {
    var n := |lines| - 1;
    var out', heads' := out + [lines[n]], heads + [n];
    forall k, c | 0 <= k < |out'| && c in out'[k].letters
      ensures exists i :: heads'[k] <= i < GroupEnd(heads', k, |lines|) && i < |lines| && c in lines[i].letters
    {
      if k < |out| {
        var i :| heads[k] <= i < GroupEnd(heads, k, n) && i < n && c in lines[..n][i].letters;
        assert heads'[k] <= i < GroupEnd(heads', k, |lines|) && c in lines[i].letters;
      } else {
        assert heads'[k] <= n < GroupEnd(heads', k, |lines|) && c in lines[n].letters;
      }
    }
  }

  /** Merging the next input line into the last output line keeps every letter sourced. */
  lemma SourcedMerge(fit: Fitter, ah: real, out: seq<Line>, heads: seq<nat>, lines: seq<Line>)
    requires |lines| > 0 && |out| > 0 && Sourced(out, heads, lines[..|lines| - 1])
    requires heads[|heads| - 1] < |lines| - 1 && Merged(fit, ah, out[|out| - 1], lines[|lines| - 1]).Some?
    ensures Sourced(out[..|out| - 1] + [Merged(fit, ah, out[|out| - 1], lines[|lines| - 1]).value], heads, lines)
  {
    var n := |lines| - 1;
    var m := |out| - 1;
    var out' := out[..m] + [Merged(fit, ah, out[m], lines[n]).value];
    forall k, c | 0 <= k < |out'| && c in out'[k].letters
      ensures exists i :: heads[k] <= i < GroupEnd(heads, k, |lines|) && i < |lines| && c in lines[i].letters
    {
      if k < m {
        assert out'[k] == out[k];
        var i :| heads[k] <= i < GroupEnd(heads, k, n) && i < n && c in lines[..n][i].letters;
        assert GroupEnd(heads, k, |lines|) == GroupEnd(heads, k, n) && c in lines[i].letters;
      } else if c in lines[n].letters {
        assert heads[k] <= n < GroupEnd(heads, k, |lines|);
      } else {
        assert c in out[m].letters;
        var i :| heads[k] <= i < GroupEnd(heads, k, n) && i < n && c in lines[..n][i].letters;
        assert i < GroupEnd(heads, k, |lines|) && c in lines[i].letters;
      }
    }
  }

  /** Every letter of an output line of `merge_lines` comes from one of the input lines merged
      into it. */
  lemma {:induction false} MergeLetters(fit: Fitter, area: Area, ah: real, lines: seq<Line>)
    requires MergeFold(fit, area, ah, lines).Success?
    ensures Sourced(MergeFold(fit, area, ah, lines).value, Heads(fit, area, ah, lines), lines)
  {
    if |lines| > 1 {
      var n := |lines| - 1;
      FoldLast(fit, area, ah, lines);
      MergeLetters(fit, area, ah, lines[..n]);
      var out := MergeFold(fit, area, ah, lines[..n]).value;
      var heads := Heads(fit, area, ah, lines[..n]);
      if Close(area, ah, out[|out| - 1], lines[n]) {
        SourcedMerge(fit, ah, out, heads, lines);
      } else {
        SourcedAppend(out, heads, lines);
      }
    } else {
      var out := MergeFold(fit, area, ah, lines).value;
      forall k, c | 0 <= k < |out| && c in out[k].letters
        ensures exists i :: 0 <= i < GroupEnd([0], k, |lines|) && i < |lines| && c in lines[i].letters
      {
        assert c in lines[0].letters;
      }
    }
  }

  /** The body of the `merge_lines` loop for a line with letters: merge it into the last output
      line, refit and compress, when their baselines are close; append it otherwise. */
  method MergeOrAppend(fit: Fitter, area: Area, ah: real, outLines: seq<Line>, line: Line, n: nat)
    returns (r: Result<seq<Line>, MergeError>)
    requires |outLines| > 0 && |line.letters| > 0
    ensures r == Absorb(fit, area, ah, outLines, line, n)
  {
    var last := outLines[|outLines| - 1];
    if Close(area, ah, last, line) {
      var letters := last.letters + line.letters;
      var fitted := fit(letters, ah / 15.0);
      if fitted.None? {
        return Failure(NoFit(n));
      }
      var (newModel, inliers) := fitted.value;
      r := Success(outLines[..|outLines| - 1] + [Line(Compress(letters, inliers), newModel)]);
    } else {
      r := Success(outLines + [line]);
    }
  }

  /** `merge_lines(AH, lines)`: the loop over lines[1:] that merges into or appends to out_lines. */
  method MergeLines(fit: Fitter, area: Area, ah: real, lines: seq<Line>) returns (r: Result<seq<Line>, MergeError>)
    ensures r == MergeFold(fit, area, ah, lines)
  {
    if |lines| == 0 {
      return Failure(NoLines);
    }
    var outLines := [lines[0]];
    var i := 1;
    while i < |lines|
      invariant 1 <= i <= |lines| && MergeFold(fit, area, ah, lines[..i]) == Success(outLines)
    {
      var line := lines[i];
      MergeStep(fit, area, ah, lines, i, outLines);
      if |line.letters| == 0 {
        MergeFailsAfter(fit, area, ah, lines, i + 1);
        return Failure(EmptyLine(i));
      }
      var next := MergeOrAppend(fit, area, ah, outLines, line, i);
      if next.Failure? {
        MergeFailsAfter(fit, area, ah, lines, i + 1);
        return next;
      }
      outLines := next.value;
      i := i + 1;
    }
    assert lines[..i] == lines;
    r := Success(outLines);
  }

  /** A close line whose merged letters have a fit replaces the last output line by their refit. */
  lemma MergeInto(fit: Fitter, area: Area, ah: real, lines: seq<Line>, i: nat, out: seq<Line>)
    requires 1 <= i < |lines| && MergeFold(fit, area, ah, lines[..i]) == Success(out) && |lines[i].letters| > 0
    requires Close(area, ah, out[|out| - 1], lines[i]) && fit(out[|out| - 1].letters + lines[i].letters, ah / 15.0).Some?
    ensures var letters := out[|out| - 1].letters + lines[i].letters;
      var fitted := fit(letters, ah / 15.0).value;
      MergeFold(fit, area, ah, lines[..i + 1]) == Success(out[..|out| - 1] + [Line(Compress(letters, fitted.1), fitted.0)])
  {
    MergeStep(fit, area, ah, lines, i, out);
  }

  /** A line that is not close is appended as it is. */
  lemma MergeApart(fit: Fitter, area: Area, ah: real, lines: seq<Line>, i: nat, out: seq<Line>)
    requires 1 <= i < |lines| && MergeFold(fit, area, ah, lines[..i]) == Success(out) && |lines[i].letters| > 0
    requires !Close(area, ah, out[|out| - 1], lines[i])
    ensures MergeFold(fit, area, ah, lines[..i + 1]) == Success(out + [lines[i]])
  {
    MergeStep(fit, area, ah, lines, i, out);
  }

  /** One more input line: `merge_lines` fails on it if it has no letters, and otherwise merges or
      appends it against the output so far. */
  lemma MergeStep(fit: Fitter, area: Area, ah: real, lines: seq<Line>, i: nat, out: seq<Line>)
    requires 1 <= i < |lines| && MergeFold(fit, area, ah, lines[..i]) == Success(out)
    ensures |lines[i].letters| == 0 ==> MergeFold(fit, area, ah, lines[..i + 1]) == Failure(EmptyLine(i))
    ensures |lines[i].letters| > 0 ==> MergeFold(fit, area, ah, lines[..i + 1]) == Absorb(fit, area, ah, out, lines[i], i)
  {
    assert lines[..i + 1][..i] == lines[..i];
  }

  /** Once a prefix of the input has failed, the whole input fails with the same error. */
  lemma {:induction false} MergeFailsAfter(fit: Fitter, area: Area, ah: real, lines: seq<Line>, m: nat)
    requires 0 < m <= |lines| && MergeFold(fit, area, ah, lines[..m]).Failure?
    ensures MergeFold(fit, area, ah, lines) == MergeFold(fit, area, ah, lines[..m])
    decreases |lines| - m
  {
    if m == |lines| {
      assert lines[..m] == lines;
    } else {
      var n := |lines| - 1;
      assert lines[..n][..m] == lines[..m];
      MergeFailsAfter(fit, area, ah, lines[..n], m);
    }
  }

  /** Keeping the long lines of two runs of lines one after the other. */
  lemma {:induction false} LongLinesAppend(a: seq<Line>, b: seq<Line>)
    ensures LongLines(a + b) == LongLines(a) + LongLines(b)
  {
    if |a| != 0 {
      assert (a + b)[1..] == a[1..] + b;
      LongLinesAppend(a[1..], b);
    } else {
      assert a + b == b;
    }
  }

  /** `remove_outliers(im, AH, lines)`: refit and compress every line of at least five letters,
      then merge; a fit that finds no model raises. */
  method RemoveOutliers(fit: Fitter, area: Area, ah: real, lines: seq<Line>) returns (r: Result<seq<Line>, MergeError>)
    ensures Kept(fit, ah, lines).Failure? ==> r == Failure(Kept(fit, ah, lines).error)
    ensures Kept(fit, ah, lines).Success? ==> r == MergeFold(fit, area, ah, Kept(fit, ah, lines).value)
  {
    var result: seq<Line> := [];
    var i := 0;
    while i < |lines|
      invariant 0 <= i <= |lines| && Kept(fit, ah, lines[..i]) == Success(result)
    {
      var l := lines[i];
      assert lines[..i + 1][..i] == lines[..i];
      if |l.letters| < 5 {
        i := i + 1;
        continue;
      }
      var fitted := fit(l.letters, ah / 10.0);
      if fitted.None? {
        KeptFailsAt(fit, ah, lines, i);
        return Failure(NoFit(i));
      }
      var (model, inliers) := fitted.value;
      l := Line(Compress(l.letters, inliers), model);
      result := result + [l];
      i := i + 1;
    }
    assert lines[..i] == lines;
    r := MergeLines(fit, area, ah, result);
  }
}
