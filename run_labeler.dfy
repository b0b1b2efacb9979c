/** `LabelInit`: the preliminary labels. A counter is bumped at the start of
    every row and at every falling edge of an "on" run; each cell becomes
    level * counter, so every horizontal run of ones gets a label of its own
    and every zero stays zero. */
module RunLabeler {
  import opened Grid

  /** One cell of the row scan: when the cell differs from the current level
      the level flips, and a flip down to 0 (a run just ended) bumps the
      counter. Returns the new level and counter. */
  function Advance(cell: int, flg: int, cnt: int): (int, int) {
    if cell != flg then
      var f := (flg + 1) % 2;
      (f, if f == 0 then cnt + 1 else cnt)
    else
      (flg, cnt)
  }

  /** The labels of a row scanned from level `flg` and counter `cnt`, and the
      counter after the row. */
  function RowLabels(row: seq<int>, flg: int, cnt: int): (seq<int>, int)
    decreases |row|
  {
    if row == [] then ([], cnt)
    else
      var (f, c) := Advance(row[0], flg, cnt);
      var (rest, end) := RowLabels(row[1..], f, c);
      ([f * c] + rest, end)
  }

  /** The labels of the rows of g when the counter stands at `cnt` before
      them; every row starts at level 0 after bumping the counter. */
  function GridLabels(g: Grid, cnt: int): Grid
    decreases |g|
  {
    if g == [] then []
    else
      var (labels, end) := RowLabels(g[0], 0, cnt + 1);
      [labels] + GridLabels(g[1..], end)
  }

  /** What `LabelInit` computes: the counter starts at 0. */
  function InitLabels(g: Grid): Grid {
    GridLabels(g, 0)
  }

  /** Cells j..k of a row are all "on": they lie in one run. */
  ghost predicate OneRun(row: seq<int>, j: int, k: int)
    requires 0 <= j <= k < |row|
  {
    forall m :: j <= m <= k ==> row[m] == 1
  }

  /** The labels of one binary row are run labels: two "on" cells carry
      labels that do not decrease from left to right and are equal exactly
      when the cells lie in one run. */
  ghost predicate RowRunLabelled(row: seq<int>, labels: seq<int>) {
    |labels| == |row| &&
    forall j, k :: 0 <= j < k < |row| && row[j] == 1 && row[k] == 1 ==>
      labels[j] <= labels[k] && (labels[j] == labels[k] <==> OneRun(row, j, k))
  }

  /** The labels l of a binary grid g are run labels: l has g's shape; a cell
      is 0 in l exactly when it is 0 in g; two "on" cells of one row carry
      labels that do not decrease from left to right and are equal exactly
      when the cells lie in one run; every "on" cell of a later row carries a
      larger label than every "on" cell of an earlier row. */
  ghost predicate RunLabelled(g: Grid, l: Grid) {
    SameOn(g, l) &&
    (forall i :: 0 <= i < |g| ==> RowRunLabelled(g[i], l[i])) &&
    (forall i1, j1, i2, j2 ::
       0 <= i1 < i2 < |g| && 0 <= j1 < |g[i1]| && 0 <= j2 < |g[i2]| &&
       g[i1][j1] == 1 && g[i2][j2] == 1
       ==> l[i1][j1] < l[i2][j2])
  }

  /** A row scan on a binary row labels exactly the "on" cells, with labels
      between the starting and the final counter. */
  lemma {:induction false} RowBounds(row: seq<int>, flg: int, cnt: int)
    requires forall m :: 0 <= m < |row| ==> row[m] == 0 || row[m] == 1
    requires flg == 0 || flg == 1
    requires cnt >= 1
    ensures var (labels, end) := RowLabels(row, flg, cnt);
      |labels| == |row| && end >= cnt &&
      (forall k :: 0 <= k < |row| ==> (labels[k] == 0 <==> row[k] == 0)) &&
      (forall k :: 0 <= k < |row| && row[k] == 1 ==> cnt <= labels[k] <= end)
    decreases |row|
  {
    if row != [] {
      var (f, c) := Advance(row[0], flg, cnt);
      RowBounds(row[1..], f, c);
      var (rest, end) := RowLabels(row[1..], f, c);
      var labels := RowLabels(row, flg, cnt).0;
      assert labels == [f * c] + rest;
      assert f == row[0];
      assert forall k :: 1 <= k < |row| ==> labels[k] == rest[k - 1] && row[k] == row[1..][k - 1];
    }
  }

  /** From level 1 (the row continues a run), an "on" cell keeps the starting
      counter exactly when every cell up to it is "on". */
  lemma {:induction false} RowContinues(row: seq<int>, cnt: int)
    requires forall m :: 0 <= m < |row| ==> row[m] == 0 || row[m] == 1
    requires cnt >= 1
    ensures var labels := RowLabels(row, 1, cnt).0;
      |labels| == |row| &&
      forall k :: 0 <= k < |row| && row[k] == 1 ==> (labels[k] == cnt <==> OneRun(row, 0, k))
    decreases |row|
  {
    RowBounds(row, 1, cnt);
    if row != [] {
      var (f, c) := Advance(row[0], 1, cnt);
      var tail := row[1..];
      RowBounds(tail, f, c);
      var rest := RowLabels(tail, f, c).0;
      var labels := RowLabels(row, 1, cnt).0;
      assert labels == [f * c] + rest;
      if row[0] == 1 {
        RowContinues(tail, cnt);
        forall k | 1 <= k < |row| && row[k] == 1
          ensures labels[k] == cnt <==> OneRun(row, 0, k)
        {
          assert labels[k] == rest[k - 1];
          assert OneRun(row, 0, k) <==> OneRun(tail, 0, k - 1) by {
            assert forall m :: 1 <= m <= k ==> row[m] == tail[m - 1];
          }
        }
      } else {
        forall k | 1 <= k < |row| && row[k] == 1
          ensures labels[k] != cnt && !OneRun(row, 0, k)
        {
          assert labels[k] == rest[k - 1] && tail[k - 1] == 1;
        }
      }
    }
  }

  /** The first cell of a binary row, when "on", is labelled alike with a
      later "on" cell exactly when the two lie in one run, and never above it. */
  lemma RowPairFirst(row: seq<int>, flg: int, cnt: int, k: int)
    requires forall m :: 0 <= m < |row| ==> row[m] == 0 || row[m] == 1
    requires flg == 0 || flg == 1
    requires cnt >= 1
    requires 0 < k < |row| && row[0] == 1 && row[k] == 1
    ensures var labels := RowLabels(row, flg, cnt).0;
      |labels| == |row| &&
      labels[0] <= labels[k] && (labels[0] == labels[k] <==> OneRun(row, 0, k))
  {
    RowLength(row, flg, cnt);
    var (f, c) := Advance(row[0], flg, cnt);
    var tail := row[1..];
    assert f == 1 && c == cnt;
    RowContinues(tail, cnt);
    RowBounds(tail, 1, cnt);
    var rest := RowLabels(tail, f, c).0;
    var labels := RowLabels(row, flg, cnt).0;
    assert labels == [cnt] + rest;
    assert labels[k] == rest[k - 1] && tail[k - 1] == 1;
    assert OneRun(row, 0, k) <==> OneRun(tail, 0, k - 1) by {
      assert forall m :: 1 <= m <= k ==> row[m] == tail[m - 1];
    }
  }

  /** Two "on" cells of a binary row: the left one's label is not larger, and
      the labels are equal exactly when the cells lie in one run. */
  lemma {:induction false} RowPairs(row: seq<int>, flg: int, cnt: int)
    requires forall m :: 0 <= m < |row| ==> row[m] == 0 || row[m] == 1
    requires flg == 0 || flg == 1
    requires cnt >= 1
    ensures RowRunLabelled(row, RowLabels(row, flg, cnt).0)
    decreases |row|
  {
    RowLength(row, flg, cnt);
    if row != [] {
      var (f, c) := Advance(row[0], flg, cnt);
      var tail := row[1..];
      assert f == 0 || f == 1;
      assert c >= 1;
      RowPairs(tail, f, c);
      var rest := RowLabels(tail, f, c).0;
      var labels := RowLabels(row, flg, cnt).0;
      assert labels == [f * c] + rest;
      forall j, k | 0 <= j < k < |row| && row[j] == 1 && row[k] == 1
        ensures labels[j] <= labels[k] && (labels[j] == labels[k] <==> OneRun(row, j, k))
      {
        if j == 0 {
          RowPairFirst(row, flg, cnt, k);
        } else {
          assert labels[k] == rest[k - 1] && tail[k - 1] == 1;
          assert labels[j] == rest[j - 1] && tail[j - 1] == 1;
          assert OneRun(row, j, k) <==> OneRun(tail, j - 1, k - 1) by {
            assert forall m :: j <= m <= k ==> row[m] == tail[m - 1];
          }
        }
      }
    }
  }

  /** The rows of a binary grid scanned from counter `cnt` keep the grid's
      "on" cells and give each of them a label above `cnt`. */
  lemma {:induction false} GridAbove(g: Grid, cnt: int)
    requires Binary(g)
    requires cnt >= 0
    ensures SameOn(g, GridLabels(g, cnt))
    ensures forall i, j :: 0 <= i < |g| && 0 <= j < |g[i]| && g[i][j] == 1 ==> GridLabels(g, cnt)[i][j] > cnt
    decreases |g|
  {
    if g != [] {
      var (labels, end) := RowLabels(g[0], 0, cnt + 1);
      RowBounds(g[0], 0, cnt + 1);
      var tail := g[1..];
      GridAbove(tail, end);
      var l := GridLabels(g, cnt);
      assert l == [labels] + GridLabels(tail, end);
      assert forall i :: 1 <= i < |g| ==> l[i] == GridLabels(tail, end)[i - 1] && g[i] == tail[i - 1];
    }
  }

  /** Within each row, the labels are ordered and equal exactly on runs. */
  lemma {:induction false} GridRowPairs(g: Grid, cnt: int)
    requires Binary(g)
    requires cnt >= 0
    ensures var l := GridLabels(g, cnt);
      SameShape(g, l) && forall i :: 0 <= i < |g| ==> RowRunLabelled(g[i], l[i])
    decreases |g|
  {
    LabelInitShape(g, cnt);
    if g != [] {
      var (labels, end) := RowLabels(g[0], 0, cnt + 1);
      RowPairs(g[0], 0, cnt + 1);
      RowBounds(g[0], 0, cnt + 1);
      var tail := g[1..];
      GridRowPairs(tail, end);
      var l := GridLabels(g, cnt);
      assert l == [labels] + GridLabels(tail, end);
      assert forall i :: 1 <= i < |g| ==> l[i] == GridLabels(tail, end)[i - 1] && g[i] == tail[i - 1];
    }
  }

  /** Every "on" cell of a later row has a larger label than every "on" cell
      of an earlier row. */
  lemma {:induction false} GridRowsOrdered(g: Grid, cnt: int)
    requires Binary(g)
    requires cnt >= 0
    ensures var l := GridLabels(g, cnt);
      SameShape(g, l) &&
      forall i1, j1, i2, j2 ::
        0 <= i1 < i2 < |g| && 0 <= j1 < |g[i1]| && 0 <= j2 < |g[i2]| &&
        g[i1][j1] == 1 && g[i2][j2] == 1
        ==> l[i1][j1] < l[i2][j2]
    decreases |g|
  {
    LabelInitShape(g, cnt);
    if g != [] {
      var (labels, end) := RowLabels(g[0], 0, cnt + 1);
      RowBounds(g[0], 0, cnt + 1);
      var tail := g[1..];
      GridRowsOrdered(tail, end);
      GridAbove(tail, end);
      var l := GridLabels(g, cnt);
      var lt := GridLabels(tail, end);
      assert l == [labels] + lt;
      forall i1, j1, i2, j2 |
        0 <= i1 < i2 < |g| && 0 <= j1 < |g[i1]| && 0 <= j2 < |g[i2]| &&
        g[i1][j1] == 1 && g[i2][j2] == 1
        ensures l[i1][j1] < l[i2][j2]
      {
        assert l[i2] == lt[i2 - 1] && g[i2] == tail[i2 - 1];
        if i1 > 0 {
          assert l[i1] == lt[i1 - 1] && g[i1] == tail[i1 - 1];
        }
      }
    }
  }

  /** The labels of a binary grid are run labels. */
  lemma GridRuns(g: Grid, cnt: int)
    requires Binary(g)
    requires cnt >= 0
    ensures RunLabelled(g, GridLabels(g, cnt))
  {
    GridAbove(g, cnt);
    GridRowPairs(g, cnt);
    GridRowsOrdered(g, cnt);
  }

  /** Two "on" cells of a binary grid, the first not to the right of the
      second, carry equal run labels exactly when they lie in one run of one
      row. */
  lemma RunLabelsEqual(g: Grid, l: Grid, p: Pos, q: Pos)
    requires Binary(g) && RunLabelled(g, l)
    requires On(g, p) && On(g, q) && p.1 <= q.1
    ensures InGrid(g, p.0, p.1) && InGrid(g, q.0, q.1)
    ensures Cell(l, p.0, p.1) == Cell(l, q.0, q.1) <==> p.0 == q.0 && OneRun(g[p.0], p.1, q.1)
  {
    var (i1, j1) := p;
    var (i2, j2) := q;
    assert g[i1][j1] == 1 && g[i2][j2] == 1;
    if i1 < i2 {
      assert l[i1][j1] < l[i2][j2];
    } else if i2 < i1 {
      assert l[i2][j2] < l[i1][j1];
    } else if j1 < j2 {
      assert RowRunLabelled(g[i1], l[i1]);
    }
  }

  /** The cell loop of `LabelInit` over one row: the level `flg` starts at 0
      and the counter at `start`, and both are updated in place. */
  method LabelRow(row: seq<int>, start: int) returns (labels: seq<int>, cnt: int)
    ensures (labels, cnt) == RowLabels(row, 0, start)
  {
    cnt := start;
    var flg := 0;
    labels := [];
    var j := 0;
    while j < |row|
      invariant 0 <= j <= |row|
      invariant labels + RowLabels(row[j..], flg, cnt).0 == RowLabels(row, 0, start).0
      invariant RowLabels(row[j..], flg, cnt).1 == RowLabels(row, 0, start).1
    {
      assert row[j..][1..] == row[j + 1..];
      var cell := row[j];
      if cell != flg {
        flg := (flg + 1) % 2;
        if flg == 0 {
          cnt := cnt + 1;
        }
      }
      labels := labels + [flg * cnt];
      j := j + 1;
    }
    assert row[j..] == [];
    assert labels == RowLabels(row, 0, start).0 && cnt == RowLabels(row, 0, start).1;
  }

  /** `LabelInit`: the row loop of the source, bumping the counter `cnt` at
      the start of every row. */
  method LabelInit(g: Grid) returns (table: Grid)
    ensures table == InitLabels(g)
    ensures SameShape(g, table)
    ensures Binary(g) ==> RunLabelled(g, table)
  {
    var cnt := 0;
    table := [];
    var i := 0;
    while i < |g|
      invariant 0 <= i <= |g|
      invariant table + GridLabels(g[i..], cnt) == InitLabels(g)
    {
      ghost var before := cnt;
      cnt := cnt + 1;
      var labels;
      labels, cnt := LabelRow(g[i], cnt);
      assert g[i..][0] == g[i] && g[i..][1..] == g[i + 1..];
      assert GridLabels(g[i..], before) == [labels] + GridLabels(g[i + 1..], cnt);
      table := table + [labels];
      i := i + 1;
    }
    assert g[i..] == [];
    LabelInitShape(g, 0);
    if Binary(g) {
      GridRuns(g, 0);
    }
  }

  lemma {:induction false} LabelInitShape(g: Grid, cnt: int)
    ensures SameShape(g, GridLabels(g, cnt))
    decreases |g|
  {
    if g != [] {
      RowLength(g[0], 0, cnt + 1);
      var (labels, end) := RowLabels(g[0], 0, cnt + 1);
      LabelInitShape(g[1..], end);
      assert forall i :: 1 <= i < |g| ==> GridLabels(g, cnt)[i] == GridLabels(g[1..], end)[i - 1];
    }
  }

  lemma {:induction false} RowLength(row: seq<int>, flg: int, cnt: int)
    ensures |RowLabels(row, flg, cnt).0| == |row|
    decreases |row|
  {
    if row != [] {
      var (f, c) := Advance(row[0], flg, cnt);
      RowLength(row[1..], f, c);
    }
  }
}
