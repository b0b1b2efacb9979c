/** Grids of cell values, the causal neighbour mask of the labeling scan, and
    8-connectivity of the "on" (nonzero) cells of a grid. */
module Grid {

  /** A grid of cells, row by row. Rows may differ in length. */
  type Grid = seq<seq<int>>

  /** A (row, column) position. */
  type Pos = (int, int)

  predicate InGrid(g: Grid, i: int, j: int) {
    0 <= i < |g| && 0 <= j < |g[i]|
  }

  /** The cell at (i, j); a position outside the grid reads as 0, the way an
      absent row or column is falsy in the source's neighbour test. */
  function Cell(g: Grid, i: int, j: int): int {
    if InGrid(g, i, j) then g[i][j] else 0
  }

  /** `getTarget`: the offsets of the neighbours compared with each cell, in the
      order the scan visits them: up-left, up, up-right, left. */
  function GetTarget(): (mask: seq<(int, int)>)
    ensures |mask| == 4
  {
    [(-1, -1), (-1, 0), (-1, 1), (0, -1)]
  }

  /** (di, dj) leads to one of the eight cells around a cell. */
  predicate Around(di: int, dj: int) {
    -1 <= di <= 1 && -1 <= dj <= 1 && (di, dj) != (0, 0)
  }

  /** The mask is exactly the causal half of the eight-cell neighbourhood: the
      neighbours that come earlier in row-major order. So of every pair of
      8-adjacent cells, exactly one is a mask neighbour of the other. */
  lemma MaskIsCausalHalf(di: int, dj: int)
    requires Around(di, dj)
    ensures (di, dj) in GetTarget() <==> (di < 0 || (di == 0 && dj < 0))
    ensures (di, dj) in GetTarget() <==> (-di, -dj) !in GetTarget()
  {
  }

  /** The set of labels a grid holds (its nonzero cell values). */
  ghost function Labels(g: Grid): set<int> {
    set i, j | 0 <= i < |g| && 0 <= j < |g[i]| && g[i][j] != 0 :: g[i][j]
  }

  /** Two grids have the same rows and row lengths. */
  ghost predicate SameShape(a: Grid, b: Grid) {
    |a| == |b| && forall i :: 0 <= i < |a| ==> |a[i]| == |b[i]|
  }

  /** Two grids have the same shape and the same "off" (zero) cells. */
  ghost predicate SameOn(a: Grid, b: Grid) {
    SameShape(a, b) &&
    forall i, j :: 0 <= i < |a| && 0 <= j < |a[i]| ==> (a[i][j] == 0 <==> b[i][j] == 0)
  }

  lemma SameOnTrans(a: Grid, b: Grid, c: Grid)
    requires SameOn(a, b) && SameOn(b, c)
    ensures SameOn(a, c)
  {
  }

  /** Every cell is 0 or 1. */
  ghost predicate Binary(g: Grid) {
    forall i, j :: 0 <= i < |g| && 0 <= j < |g[i]| ==> g[i][j] == 0 || g[i][j] == 1
  }

  predicate On(g: Grid, p: Pos) {
    Cell(g, p.0, p.1) != 0
  }

  predicate Adjacent(p: Pos, q: Pos) {
    Around(q.0 - p.0, q.1 - p.1)
  }

  /** A walk over "on" cells, each step to one of the eight surrounding cells. */
  ghost predicate IsPath(g: Grid, path: seq<Pos>) {
    |path| > 0 &&
    (forall k :: 0 <= k < |path| ==> On(g, path[k])) &&
    (forall k :: 0 <= k < |path| - 1 ==> Adjacent(path[k], path[k + 1]))
  }

  /** p and q lie in the same 8-connected component of the "on" cells of g. */
  ghost predicate Connected(g: Grid, p: Pos, q: Pos) {
    exists path :: IsPath(g, path) && path[0] == p && path[|path| - 1] == q
  }

  lemma ConnectedRefl(g: Grid, p: Pos)
    requires On(g, p)
    ensures Connected(g, p, p)
  {
    assert IsPath(g, [p]);
  }

  lemma ConnectedAdjacent(g: Grid, p: Pos, q: Pos)
    requires On(g, p) && On(g, q) && Adjacent(p, q)
    ensures Connected(g, p, q)
  {
    assert IsPath(g, [p, q]);
  }

  lemma ConnectedSym(g: Grid, p: Pos, q: Pos)
    requires Connected(g, p, q)
    ensures Connected(g, q, p)
  {
    var path :| IsPath(g, path) && path[0] == p && path[|path| - 1] == q;
    var back := seq(|path|, k requires 0 <= k < |path| => path[|path| - 1 - k]);
    forall k | 0 <= k < |back| - 1
      ensures Adjacent(back[k], back[k + 1])
    {
      assert Adjacent(path[|path| - 2 - k], path[|path| - 1 - k]);
    }
    assert IsPath(g, back);
  }

  lemma ConnectedTrans(g: Grid, p: Pos, q: Pos, r: Pos)
    requires Connected(g, p, q) && Connected(g, q, r)
    ensures Connected(g, p, r)
  {
    var a :| IsPath(g, a) && a[0] == p && a[|a| - 1] == q;
    var b :| IsPath(g, b) && b[0] == q && b[|b| - 1] == r;
    var c := a + b[1..];
    forall k | 0 <= k < |c| - 1
      ensures Adjacent(c[k], c[k + 1])
    {
      if k < |a| - 1 {
        assert c[k] == a[k] && c[k + 1] == a[k + 1];
      } else {
        assert c[k] == b[k - |a| + 1] && c[k + 1] == b[k - |a| + 2];
      }
    }
    assert IsPath(g, c);
  }

  /** Connectivity depends only on which cells are "on". */
  lemma ConnectedSameOn(a: Grid, b: Grid, p: Pos, q: Pos)
    requires SameOn(a, b) && Connected(a, p, q)
    ensures Connected(b, p, q)
  {
    var path :| IsPath(a, path) && path[0] == p && path[|path| - 1] == q;
    forall k | 0 <= k < |path|
      ensures On(b, path[k])
    {
      assert On(a, path[k]);
    }
    assert IsPath(b, path);
  }

  /** Every two 8-adjacent "on" cells hold the same value. */
  ghost predicate AdjacentAgree(g: Grid) {
    forall p, q :: On(g, p) && On(g, q) && Adjacent(p, q) ==> Cell(g, p.0, p.1) == Cell(g, q.0, q.1)
  }

  /** When adjacent "on" cells agree, every path keeps one value from end to
      end: a whole 8-connected component carries one label. */
  lemma {:induction false} PathAgrees(g: Grid, path: seq<Pos>)
    requires AdjacentAgree(g) && IsPath(g, path)
    ensures Cell(g, path[0].0, path[0].1) == Cell(g, path[|path| - 1].0, path[|path| - 1].1)
    decreases |path|
  {
    if |path| > 1 {
      var front := path[..|path| - 1];
      assert IsPath(g, front);
      PathAgrees(g, front);
      assert Adjacent(path[|path| - 2], path[|path| - 1]);
    }
  }

  lemma ConnectedAgree(g: Grid, p: Pos, q: Pos)
    requires AdjacentAgree(g) && Connected(g, p, q)
    ensures Cell(g, p.0, p.1) == Cell(g, q.0, q.1)
  {
    var path :| IsPath(g, path) && path[0] == p && path[|path| - 1] == q;
    PathAgrees(g, path);
  }

  /** A subset has no more elements than its superset. */
  lemma SubsetSmaller(a: set<int>, b: set<int>)
    requires a <= b
    ensures |a| <= |b|
  {
    assert b == a + (b - a);
    assert a * (b - a) == {};
  }
}
