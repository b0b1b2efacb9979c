/** The equivalence scan of `Labeling`: every cell is compared, in row-major
    order, with its four causal neighbours (`getTarget`), and an edge
    `current label -> neighbour label` is written into the label map when the
    two labels are nonzero and different and the neighbour label is not
    already a key of the map. A later write for the same current label
    replaces the earlier one. */
module EquivalenceScanner {
  import opened Grid
  import opened ChainResolver

  /** The label of the t-th causal neighbour of (i, j), 0 when absent. */
  function Neighbour(g: Grid, i: int, j: int, t: int): int
    requires 0 <= t < 4
  {
    Cell(g, i + GetTarget()[t].0, j + GetTarget()[t].1)
  }

  /** Cell (i, j) and its t-th causal neighbour hold two different nonzero
      labels: the scan's candidate edge. */
  predicate Candidate(g: Grid, i: int, j: int, t: int) {
    InGrid(g, i, j) && 0 <= t < 4 &&
    g[i][j] != 0 && Neighbour(g, i, j, t) != 0 && Neighbour(g, i, j, t) != g[i][j]
  }

  /** No cell and causal neighbour hold two different nonzero labels. */
  ghost predicate NoCandidate(g: Grid) {
    forall i, j, t :: !Candidate(g, i, j, t)
  }

  /** One step of the `reduce` over the mask: the commit rule. A candidate
      edge is written unless its target is already a key of the map; the
      keys only grow, and a candidate always leaves the map non-empty. */
  function Commit(g: Grid, i: int, j: int, t: int, m: map<int, int>): (r: map<int, int>)
    requires InGrid(g, i, j) && 0 <= t < 4
    ensures m.Keys <= r.Keys
    ensures Candidate(g, i, j, t) ==> r != map[]
    ensures !Candidate(g, i, j, t) ==> r == m
  {
    var nb := Neighbour(g, i, j, t);
    var cur := g[i][j];
    if nb != 0 && cur != 0 && nb != cur && !Has(m, nb) then
      assert cur in m[cur := nb];
      m[cur := nb]
    else
      assert Candidate(g, i, j, t) ==> nb in m;
      m
  }

  /** The mask offsets t.. of cell (i, j), applied to m in order. */
  function ScanOffsets(g: Grid, i: int, j: int, t: nat, m: map<int, int>): (r: map<int, int>)
    requires InGrid(g, i, j) && t <= 4
    ensures m.Keys <= r.Keys
    decreases 4 - t
  {
    if t == 4 then m else ScanOffsets(g, i, j, t + 1, Commit(g, i, j, t, m))
  }

  /** Cells j.. of row i, applied to m in order. */
  function ScanRow(g: Grid, i: int, j: nat, m: map<int, int>): (r: map<int, int>)
    requires 0 <= i < |g| && j <= |g[i]|
    ensures m.Keys <= r.Keys
    decreases |g[i]| - j
  {
    if j == |g[i]| then m else ScanRow(g, i, j + 1, ScanOffsets(g, i, j, 0, m))
  }

  /** Rows i.. of the grid, applied to m in order. */
  function ScanRows(g: Grid, i: nat, m: map<int, int>): (r: map<int, int>)
    requires i <= |g|
    ensures m.Keys <= r.Keys
    decreases |g| - i
  {
    if i == |g| then m else ScanRows(g, i + 1, ScanRow(g, i, 0, m))
  }

  /** The offsets t.. of a cell leave the map non-empty when one of them is a
      candidate, and leave it unchanged when none is. */
  lemma {:induction false} ScanOffsetsEmpty(g: Grid, i: int, j: int, t: nat, m: map<int, int>)
    requires InGrid(g, i, j) && t <= 4
    ensures (exists u :: t <= u && Candidate(g, i, j, u)) ==> ScanOffsets(g, i, j, t, m) != map[]
    ensures (forall u :: t <= u ==> !Candidate(g, i, j, u)) ==> ScanOffsets(g, i, j, t, m) == m
    decreases 4 - t
  {
    if t < 4 {
      ScanOffsetsEmpty(g, i, j, t + 1, Commit(g, i, j, t, m));
    }
  }

  /** Cells j.. of a row: the same, over the row's candidates. */
  lemma {:induction false} ScanRowEmpty(g: Grid, i: int, j: nat, m: map<int, int>)
    requires 0 <= i < |g| && j <= |g[i]|
    ensures (exists c, u :: j <= c && Candidate(g, i, c, u)) ==> ScanRow(g, i, j, m) != map[]
    ensures (forall c, u :: j <= c ==> !Candidate(g, i, c, u)) ==> ScanRow(g, i, j, m) == m
    decreases |g[i]| - j
  {
    if j < |g[i]| {
      var m' := ScanOffsets(g, i, j, 0, m);
      ScanOffsetsEmpty(g, i, j, 0, m);
      ScanRowEmpty(g, i, j + 1, m');
    }
  }

  /** Rows i.. of the grid: the same, over the rows' candidates. */
  lemma {:induction false} ScanRowsEmpty(g: Grid, i: nat, m: map<int, int>)
    requires i <= |g|
    ensures (exists a, c, u :: i <= a && Candidate(g, a, c, u)) ==> ScanRows(g, i, m) != map[]
    ensures (forall a, c, u :: i <= a ==> !Candidate(g, a, c, u)) ==> ScanRows(g, i, m) == m
    decreases |g| - i
  {
    if i < |g| {
      var m' := ScanRow(g, i, 0, m);
      ScanRowEmpty(g, i, 0, m);
      ScanRowsEmpty(g, i + 1, m');
    }
  }

  /** The label map one scan of g produces, starting from the empty map. */
  function ScanMap(g: Grid): map<int, int> {
    ScanRows(g, 0, map[])
  }

  /** Edge k -> v is backed by a cell labelled k whose causal neighbour is
      labelled v. */
  ghost predicate Witnessed(g: Grid, k: int, v: int) {
    exists i, j, t :: Candidate(g, i, j, t) && g[i][j] == k && Neighbour(g, i, j, t) == v
  }

  /** The two cells behind an edge k -> v: "on" cells labelled k and v, one
      of the eight neighbours of the other. */
  lemma WitnessCells(g: Grid, k: int, v: int) returns (a: Pos, b: Pos)
    requires Witnessed(g, k, v)
    ensures On(g, a) && Cell(g, a.0, a.1) == k
    ensures On(g, b) && Cell(g, b.0, b.1) == v
    ensures Adjacent(a, b)
  {
    var i, j, t :| Candidate(g, i, j, t) && g[i][j] == k && Neighbour(g, i, j, t) == v;
    a := (i, j);
    b := (i + GetTarget()[t].0, j + GetTarget()[t].1);
  }

  /** Every edge of the map is backed by a pair of neighbouring cells. */
  ghost predicate Backed(g: Grid, m: map<int, int>) {
    forall k :: k in m ==> Witnessed(g, k, m[k])
  }

  /** What the scan keeps true of the label map: it is backed, and it has no
      cycle. */
  ghost predicate LabelMapOk(g: Grid, m: map<int, int>) {
    Backed(g, m) && Acyclic(m)
  }

  /** The entries of a label map the scan keeps are two different nonzero
      labels of the grid. */
  lemma LabelMapEntries(g: Grid, m: map<int, int>)
    requires LabelMapOk(g, m)
    ensures NonzeroEntries(m)
    ensures forall k :: k in m ==> k != m[k] && k in Labels(g) && m[k] in Labels(g)
  {
    forall k | k in m
      ensures k != 0 && m[k] != 0 && k != m[k] && k in Labels(g) && m[k] in Labels(g)
    {
      assert Witnessed(g, k, m[k]);
      var i, j, t :| Candidate(g, i, j, t) && g[i][j] == k && Neighbour(g, i, j, t) == m[k];
      var a, b := i + GetTarget()[t].0, j + GetTarget()[t].1;
      assert InGrid(g, a, b) && g[a][b] == m[k];
    }
  }

  /** The commit rule keeps the label map backed and acyclic: the new edge
      points at a label that is not a key, so it closes no cycle. */
  lemma CommitKeeps(g: Grid, i: int, j: int, t: int, m: map<int, int>)
    requires InGrid(g, i, j) && 0 <= t < 4
    requires LabelMapOk(g, m)
    ensures LabelMapOk(g, Commit(g, i, j, t, m))
  {
    var nb := Neighbour(g, i, j, t);
    var cur := g[i][j];
    LabelMapEntries(g, m);
    if nb != 0 && cur != 0 && nb != cur && !Has(m, nb) {
      var m' := m[cur := nb];
      assert nb !in m;
      var rank :| Ranked(m, rank);
      var rank' := map x | x in rank.Keys + {cur, nb} ::
        if x == nb then 0 else if x in rank then rank[x] + 1 else 1;
      forall k | k in m'
        ensures k in rank' && m'[k] in rank' && rank'[m'[k]] < rank'[k]
      {
        if k != cur {
          assert k in m && m'[k] == m[k];
        }
      }
      assert Ranked(m', rank');
      forall k | k in m'
        ensures Witnessed(g, k, m'[k])
      {
        if k == cur {
          assert Candidate(g, i, j, t);
        } else {
          assert Witnessed(g, k, m[k]);
        }
      }
    }
  }

  lemma {:induction false} ScanOffsetsKeeps(g: Grid, i: int, j: int, t: nat, m: map<int, int>)
    requires InGrid(g, i, j) && t <= 4
    requires LabelMapOk(g, m)
    ensures LabelMapOk(g, ScanOffsets(g, i, j, t, m))
    decreases 4 - t
  {
    if t < 4 {
      CommitKeeps(g, i, j, t, m);
      ScanOffsetsKeeps(g, i, j, t + 1, Commit(g, i, j, t, m));
    }
  }

  lemma {:induction false} ScanRowKeeps(g: Grid, i: int, j: nat, m: map<int, int>)
    requires 0 <= i < |g| && j <= |g[i]|
    requires LabelMapOk(g, m)
    ensures LabelMapOk(g, ScanRow(g, i, j, m))
    decreases |g[i]| - j
  {
    if j < |g[i]| {
      ScanOffsetsKeeps(g, i, j, 0, m);
      ScanRowKeeps(g, i, j + 1, ScanOffsets(g, i, j, 0, m));
    }
  }

  lemma {:induction false} ScanRowsKeeps(g: Grid, i: nat, m: map<int, int>)
    requires i <= |g|
    requires LabelMapOk(g, m)
    ensures LabelMapOk(g, ScanRows(g, i, m))
    decreases |g| - i
  {
    if i < |g| {
      ScanRowKeeps(g, i, 0, m);
      ScanRowsKeeps(g, i + 1, ScanRow(g, i, 0, m));
    }
  }

  /** The label map of a scan: every edge joins two different nonzero labels
      held by neighbouring cells, the map is acyclic, and it is empty exactly
      when no cell and causal neighbour hold two different nonzero labels. */
  lemma ScanMapSound(g: Grid)
    ensures LabelMapOk(g, ScanMap(g))
    ensures NonzeroEntries(ScanMap(g))
    ensures ScanMap(g) == map[] <==> NoCandidate(g)
  {
    var empty: map<int, int> := map[];
    var rank: map<int, nat> := map[];
    assert Ranked(empty, rank);
    ScanRowsKeeps(g, 0, empty);
    ScanRowsEmpty(g, 0, empty);
    LabelMapEntries(g, ScanMap(g));
  }

  /** A grid has no candidate edge exactly when every two 8-adjacent "on"
      cells hold the same label: the causal mask sees every such pair from
      one side. */
  lemma NoCandidateIffAdjacentAgree(g: Grid)
    ensures NoCandidate(g) <==> AdjacentAgree(g)
  {
    if NoCandidate(g) {
      forall p: Pos, q: Pos | On(g, p) && On(g, q) && Adjacent(p, q)
        ensures Cell(g, p.0, p.1) == Cell(g, q.0, q.1)
      {
        var di, dj := q.0 - p.0, q.1 - p.1;
        if di < 0 || (di == 0 && dj < 0) {
          var t := if di == -1 then dj + 1 else 3;
          assert GetTarget()[t] == (di, dj);
          assert !Candidate(g, p.0, p.1, t);
        } else {
          var t := if di == 1 then 1 - dj else 3;
          assert GetTarget()[t] == (-di, -dj);
          assert !Candidate(g, q.0, q.1, t);
        }
      }
    }
    if AdjacentAgree(g) {
      forall i, j, t | Candidate(g, i, j, t)
        ensures false
      {
        var q := (i + GetTarget()[t].0, j + GetTarget()[t].1);
        assert On(g, (i, j)) && On(g, q) && Adjacent((i, j), q);
      }
    }
  }

  /** `getTarget().reduce(...)` for cell (i, j): the four mask offsets in
      order, each applying the commit rule to `labelMap` in place. */
  method ScanCell(g: Grid, i: int, j: int, labelMap: map<int, int>) returns (next: map<int, int>)
    requires InGrid(g, i, j)
    ensures next == ScanOffsets(g, i, j, 0, labelMap)
  {
    next := labelMap;
    var target := GetTarget();
    var t := 0;
    while t < |target|
      invariant 0 <= t <= 4
      invariant ScanOffsets(g, i, j, t, next) == ScanOffsets(g, i, j, 0, labelMap)
    {
      ghost var committed := Commit(g, i, j, t, next);
      assert ScanOffsets(g, i, j, t, next) == ScanOffsets(g, i, j, t + 1, committed);
      var r, c := i + target[t].0, j + target[t].1;
      assert Neighbour(g, i, j, t) == Cell(g, r, c);
      if 0 <= r < |g| && 0 <= c < |g[r]| && g[r][c] != 0 {
        if g[r][c] != 0 && g[i][j] != 0 && g[r][c] != g[i][j] {
          if !(g[r][c] in next && next[g[r][c]] != 0) {
            next := next[g[i][j] := g[r][c]];
          }
        }
      }
      assert next == committed;
      t := t + 1;
    }
  }

  /** The scan of `Labeling`: nested loops over rows and cells, updating
      `labelMap` in place. */
  method Scan(g: Grid) returns (labelMap: map<int, int>)
    ensures labelMap == ScanMap(g)
    ensures LabelMapOk(g, labelMap) && NonzeroEntries(labelMap)
    ensures labelMap == map[] <==> NoCandidate(g)
  {
    labelMap := map[];
    var i := 0;
    while i < |g|
      invariant 0 <= i <= |g|
      invariant ScanRows(g, i, labelMap) == ScanMap(g)
    {
      var j := 0;
      while j < |g[i]|
        invariant 0 <= j <= |g[i]|
        invariant ScanRows(g, i + 1, ScanRow(g, i, j, labelMap)) == ScanMap(g)
      {
        labelMap := ScanCell(g, i, j, labelMap);
        j := j + 1;
      }
      i := i + 1;
    }
    ScanMapSound(g);
  }
}
