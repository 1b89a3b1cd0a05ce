/** Small selectors of rebook/dewarp.py: `C0_C1` picks the two boundary lines of the page,
    `MuMode` says whether the mesh is extended by the top or the bottom of a line, and
    `side_slice` picks the left/right alignment columns. */
module Selectors {
  import opened Wrappers
  import opened Seqs
  import Layout

  /** Why a selector raises: `lines[0]` of an empty list, or `assert left or right`. */
  datatype SelectError = NoLines | NoSide

  /** `C0_C1(lines, v)`: with the vanishing point above the image (vy < 0) the bottom line is C0
      and the top line C1; otherwise the other way round. */
  function C0C1<T>(lines: seq<T>, vy: real): (r: Result<(T, T), SelectError>)
    ensures r.Success? <==> |lines| > 0
    ensures r.Failure? ==> r.error == NoLines
    ensures r.Success? ==> {r.value.0, r.value.1} == {lines[0], lines[|lines| - 1]}
    ensures r.Success? ==> r.value.0 == (if vy < 0.0 then lines[|lines| - 1] else lines[0])
    ensures r.Success? ==> r.value.1 == (if vy < 0.0 then lines[0] else lines[|lines| - 1])
  {
    if |lines| == 0 then Failure(NoLines)
    else if vy < 0.0 then Success((lines[|lines| - 1], lines[0]))
    else Success((lines[0], lines[|lines| - 1]))
  }

  /** Moving the vanishing point to the other side of the image is the same as listing the lines
      in the opposite order. */
  lemma C0C1Reverse<T>(lines: seq<T>, vy: real)
    requires |lines| > 0
    ensures C0C1(Reverse(lines), vy).value == (C0C1(lines, vy).value.1, C0C1(lines, vy).value.0)
    ensures C0C1(lines, -1.0).value == C0C1(Reverse(lines), 0.0).value
  {
  }

  /** `MuMode(val)`: TOP when val holds, BOTTOM otherwise; `==` compares val. */
  datatype MuMode = MuMode(val: bool)

  const BOTTOM := MuMode(false)
  const TOP := MuMode(true)

  /** `MuMode.index()`: 0 for TOP, -1 for BOTTOM, a Python index. */
  function Index(m: MuMode): (i: int)
    ensures -1 <= i <= 0
  {
    if m.val then 0 else -1
  }

  /** Python's `s[i]` for -|s| <= i < |s|: a negative index counts from the end. */
  function At<T>(s: seq<T>, i: int): T
    requires -|s| <= i < |s|
  {
    if i < 0 then s[|s| + i] else s[i]
  }

  /** `MuMode.point(l)`: the line's top point for TOP, its base point for BOTTOM. */
  function PointOf<P>(m: MuMode, top: P, base: P): (p: P)
    ensures m == TOP ==> p == top
    ensures m == BOTTOM ==> p == base
  {
    if m.val then top else base
  }

  /** TOP indexes the first element and BOTTOM the last, so the two modes reach the two ends of
      a list, and they are the only modes. */
  lemma IndexEnds<T>(s: seq<T>, m: MuMode)
    requires |s| > 0
    ensures m == TOP || m == BOTTOM
    ensures At(s, Index(TOP)) == s[0] && At(s, Index(BOTTOM)) == s[|s| - 1]
    ensures At(s, Index(m)) == if m == TOP then s[0] else s[|s| - 1]
  {
  }

  /** A Python slice with optional bounds (`np.s_[start:stop]`). */
  datatype PySlice = PySlice(start: Option<nat>, stop: Option<nat>)

  /** Applying a slice: a missing start is 0 and a missing stop the length. */
  function Apply<T>(s: seq<T>, sl: PySlice): (r: seq<T>)
    ensures |r| <= |s|
    ensures sl.start.None? && sl.stop.None? ==> r == s
  {
    Layout.Slice(s, if sl.start.Some? then sl.start.value else 0, if sl.stop.Some? then sl.stop.value else |s|)
  }

  /** `side_slice(left, right)`: both sides, the first only or the second only. */
  function SideSlice(left: bool, right: bool): (r: Result<PySlice, SelectError>)
    ensures r.Success? <==> left || right
    ensures r.Failure? ==> r.error == NoSide
  {
    if !(left || right) then Failure(NoSide)
    else if left && right then Success(PySlice(None, None))
    else if left then Success(PySlice(None, Some(1)))
    else Success(PySlice(Some(1), None))
  }

  /** On a left/right pair, the slice keeps exactly the requested sides, left before right. */
  lemma SideSliceSelects<T>(pair: seq<T>, left: bool, right: bool)
    requires |pair| == 2 && (left || right)
    ensures Apply(pair, SideSlice(left, right).value) ==
      (if left then [pair[0]] else []) + (if right then [pair[1]] else [])
  {
  }
}
