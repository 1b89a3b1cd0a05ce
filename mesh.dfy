/** The output mesh of rebook/dewarp.py: `make_mesh_XYZ` lays a grid over the page surface, and
    `make_mesh_2d` turns the projected grid so that x grows along a row and y down a column. */
module Mesh {
  import opened Wrappers
  import opened Seqs

  /** A 2-d array: a sequence of rows. */
  type Grid = seq<seq<real>>

  /** Every row has w entries. */
  predicate Rect(g: Grid, w: nat)
  {
    forall i :: 0 <= i < |g| ==> |g[i]| == w
  }

  /** `np.tile(v, [n, 1])`: n copies of v as rows. */
  function Tile(v: seq<real>, n: nat): (g: Grid)
    ensures |g| == n && Rect(g, |v|)
  {
    seq(n, i => v)
  }

  /** The transpose of an h x w grid. */
  function Transpose(g: Grid, w: nat): (t: Grid)
    requires Rect(g, w)
    ensures |t| == w && Rect(t, |g|)
    ensures forall i, j :: 0 <= i < w && 0 <= j < |g| ==> t[i][j] == g[j][i]
  {
    seq(w, i requires 0 <= i < w => seq(|g|, j requires 0 <= j < |g| => g[j][i]))
  }

  /** g applied to every entry, as numpy does for the page polynomial. */
  function Map(g: real -> real, v: seq<real>): (r: seq<real>)
    ensures |r| == |v| && forall j :: 0 <= j < |v| ==> r[j] == g(v[j])
  {
    seq(|v|, j requires 0 <= j < |v| => g(v[j]))
  }

  /** The three coordinate grids of a mesh on the surface. */
  datatype MeshXYZ = MeshXYZ(x: Grid, y: Grid, z: Grid)

  /** `make_mesh_XYZ(xs, ys, g)`: one row per y and one column per x; the point in row i and
      column j is (xs[j], ys[i]), and it lies on the surface z = g(x). */
  function MakeMeshXYZ(xs: seq<real>, ys: seq<real>, g: real -> real): (m: MeshXYZ)
    ensures |m.x| == |m.y| == |m.z| == |ys|
    ensures Rect(m.x, |xs|) && Rect(m.y, |xs|) && Rect(m.z, |xs|)
    ensures forall i, j :: 0 <= i < |ys| && 0 <= j < |xs| ==>
      m.x[i][j] == xs[j] && m.y[i][j] == ys[i] && m.z[i][j] == g(m.x[i][j])
  {
    MeshXYZ(Tile(xs, |ys|), Transpose(Tile(ys, |xs|), |ys|), Tile(Map(g, xs), |ys|))
  }

  /** The projected mesh: image x and y of every grid point (channels 0 and 1 of `mesh_2d`). */
  datatype Mesh2 = Mesh2(x: Grid, y: Grid)

  /** Both channels are h x w. */
  predicate Shaped(m: Mesh2, h: nat, w: nat)
  {
    |m.x| == h && |m.y| == h && Rect(m.x, w) && Rect(m.y, w)
  }

  function Col(g: Grid, w: nat, j: nat): (c: seq<real>)
    requires Rect(g, w) && j < w
    ensures |c| == |g| && forall i :: 0 <= i < |g| ==> c[i] == g[i][j]
  {
    seq(|g|, i requires 0 <= i < |g| => g[i][j])
  }

  function Mean(s: seq<real>): real
    requires |s| > 0
  {
    Sum(s) / (|s| as real)
  }

  /** `mesh_2d[:, :, ::-1]`. */
  function FlipCols(m: Mesh2, h: nat, w: nat): (r: Mesh2)
    requires Shaped(m, h, w)
    ensures Shaped(r, h, w)
    ensures forall i, j :: 0 <= i < h && 0 <= j < w ==> r.x[i][j] == m.x[i][w - 1 - j] && r.y[i][j] == m.y[i][w - 1 - j]
  {
    Mesh2(seq(h, i requires 0 <= i < h => Reverse(m.x[i])), seq(h, i requires 0 <= i < h => Reverse(m.y[i])))
  }

  /** `mesh_2d[:, ::-1, :]`. */
  function FlipRows(m: Mesh2, h: nat, w: nat): (r: Mesh2)
    requires Shaped(m, h, w)
    ensures Shaped(r, h, w)
    ensures forall i, j :: 0 <= i < h && 0 <= j < w ==> r.x[i][j] == m.x[h - 1 - i][j] && r.y[i][j] == m.y[h - 1 - i][j]
  {
    Mesh2(Reverse(m.x), Reverse(m.y))
  }

  /** Flipping the columns leaves every row's mean y, so the row test sees the same values. */
  lemma FlipColsKeepsRows(m: Mesh2, h: nat, w: nat, i: nat)
    requires Shaped(m, h, w) && i < h && w > 0
    ensures Mean(FlipCols(m, h, w).y[i]) == Mean(m.y[i])
  {
    SumReverse(m.y[i]);
  }

  /** Flipping the rows leaves every column's mean x, so the column test stays settled. */
  lemma FlipRowsKeepsCols(m: Mesh2, h: nat, w: nat, j: nat)
    requires Shaped(m, h, w) && j < w && h > 0
    ensures Mean(Col(FlipRows(m, h, w).x, w, j)) == Mean(Col(m.x, w, j))
  {
    assert Col(FlipRows(m, h, w).x, w, j) == Reverse(Col(m.x, w, j));
    SumReverse(Col(m.x, w, j));
  }

  /** Flipping the columns swaps the first and the last column. */
  lemma FlipColsSwapsEnds(m: Mesh2, h: nat, w: nat)
    requires Shaped(m, h, w) && w > 0
    ensures Col(FlipCols(m, h, w).x, w, 0) == Col(m.x, w, w - 1)
    ensures Col(FlipCols(m, h, w).x, w, w - 1) == Col(m.x, w, 0)
  {
  }

  /** Flipping the rows swaps the first and the last row. */
  lemma FlipRowsSwapsEnds(m: Mesh2, h: nat, w: nat)
    requires Shaped(m, h, w) && h > 0
    ensures FlipRows(m, h, w).y[0] == m.y[h - 1] && FlipRows(m, h, w).y[h - 1] == m.y[0]
  {
  }

  /** The mesh with its columns and then its rows reversed or not. */
  function Flip(m: Mesh2, h: nat, w: nat, cols: bool, rows: bool): (r: Mesh2)
    requires Shaped(m, h, w)
    ensures Shaped(r, h, w)
  {
    var c := if cols then FlipCols(m, h, w) else m;
    if rows then FlipRows(c, h, w) else c
  }

  /** Why the orientation step raises: `mesh_2d[0, :, 0]` or `mesh_2d[1, 0]` of an empty mesh. */
  datatype MeshError = EmptyMesh

  /** The orientation step of `make_mesh_2d`: reverse the columns when the first column lies
      right of the last on average, then the rows when the first row lies below the last. */
  method Orient(m: Mesh2, h: nat, w: nat) returns (r: Result<Mesh2, MeshError>)
    requires Shaped(m, h, w)
    ensures r.Failure? <==> h == 0 || w == 0
    ensures r.Success? ==>
      && Shaped(r.value, h, w)
      && Mean(Col(r.value.x, w, 0)) <= Mean(Col(r.value.x, w, w - 1))
      && Mean(r.value.y[0]) <= Mean(r.value.y[h - 1])
    ensures r.Success? ==>
      r.value == Flip(m, h, w, Mean(Col(m.x, w, 0)) > Mean(Col(m.x, w, w - 1)), Mean(m.y[0]) > Mean(m.y[h - 1]))
  {
    if h == 0 || w == 0 {
      return Failure(EmptyMesh);
    }
    var mesh := m;
    var cols, rows := false, false;
    if Mean(Col(mesh.x, w, 0)) > Mean(Col(mesh.x, w, w - 1)) {
      FlipColsSwapsEnds(mesh, h, w);
      FlipColsKeepsRows(mesh, h, w, 0);
      FlipColsKeepsRows(mesh, h, w, h - 1);
      mesh := FlipCols(mesh, h, w);
      cols := true;
    }
    if Mean(mesh.y[0]) > Mean(mesh.y[h - 1]) {
      FlipRowsKeepsCols(mesh, h, w, 0);
      FlipRowsKeepsCols(mesh, h, w, w - 1);
      FlipRowsSwapsEnds(mesh, h, w);
      mesh := FlipRows(mesh, h, w);
      rows := true;
    }
    assert mesh == Flip(m, h, w, cols, rows);
    r := Success(mesh);
  }

  /** `mesh_2d.transpose(1, 2, 0)`: one (x, y) pair per grid point. */
  function Points(m: Mesh2, h: nat, w: nat): (p: seq<seq<(real, real)>>)
    requires Shaped(m, h, w)
    ensures |p| == h && forall i :: 0 <= i < h ==> |p[i]| == w
    ensures forall i, j :: 0 <= i < h && 0 <= j < w ==> p[i][j] == (m.x[i][j], m.y[i][j])
  {
    seq(h, i requires 0 <= i < h => seq(w, j requires 0 <= j < w => (m.x[i][j], m.y[i][j])))
  }
}
