/** One pass of `Labeling` (scan, then rewrite every cell through the label
    map) and the driver `step`, which repeats passes on its own output until a
    pass finds an empty label map. */
module Convergence {
  import opened Grid
  import opened ChainResolver
  import opened EquivalenceScanner
  import opened RunLabeler

  /** Line 170 of `Labeling`: every cell rewritten as
      `RecursiveGet(labelMap, cell) || cell`. */
  function ResolveGrid(m: map<int, int>, g: Grid): (r: Grid)
    ensures SameShape(g, r)
  {
    seq(|g|, i requires 0 <= i < |g| =>
      seq(|g[i]|, j requires 0 <= j < |g[i]| => Resolve(m, g[i][j])))
  }

  /** Two "on" cells that hold one label lie in one 8-connected component of
      the "on" cells of `base`. */
  ghost predicate LabelsConnected(base: Grid, g: Grid) {
    forall p, q :: On(g, p) && On(g, q) && Cell(g, p.0, p.1) == Cell(g, q.0, q.1) ==> Connected(base, p, q)
  }

  /** Rewriting through a scan's label map keeps the shape and the zero
      cells, brings in no new label and removes every key of the map; so a
      non-empty map strictly lowers the number of labels, and an empty one
      leaves the grid as it was. */
  lemma ResolveGridLabels(g: Grid, m: map<int, int>)
    requires LabelMapOk(g, m)
    ensures SameOn(g, ResolveGrid(m, g))
    ensures Labels(ResolveGrid(m, g)) <= Labels(g) - m.Keys
    ensures m == map[] ==> ResolveGrid(m, g) == g
    ensures m != map[] ==> |Labels(ResolveGrid(m, g))| < |Labels(g)|
  {
    var r := ResolveGrid(m, g);
    LabelMapEntries(g, m);
    forall i, j | 0 <= i < |g| && 0 <= j < |g[i]|
      ensures (g[i][j] == 0 <==> r[i][j] == 0)
      ensures r[i][j] != 0 ==> r[i][j] in Labels(g) - m.Keys
    {
      var c := g[i][j];
      ResolveToSink(m, c);
      assert r[i][j] == Resolve(m, c);
      if c in m {
        var k :| k in m && m[k] == Resolve(m, c);
        assert r[i][j] != 0 && r[i][j] in Labels(g);
      } else {
        assert r[i][j] == c;
      }
    }
    assert SameOn(g, r);
    forall l | l in Labels(r)
      ensures l in Labels(g) - m.Keys
    {
      var i, j :| 0 <= i < |r| && 0 <= j < |r[i]| && r[i][j] != 0 && r[i][j] == l;
    }
    if m == map[] {
      forall i | 0 <= i < |g|
        ensures r[i] == g[i]
      {
        forall j | 0 <= j < |g[i]|
          ensures r[i][j] == g[i][j]
        {
          assert RecursiveGet(m, g[i][j], 0) == None;
        }
      }
    } else {
      var k := SomeKey(m);
      assert k in Labels(g);
      assert Labels(r) <= Labels(g) - {k};
      SubsetSmaller(Labels(r), Labels(g) - {k});
    }
  }

  /** One redirection stays inside the component: an edge of a backed map
      out of p's label leads to a cell, connected to p, holding the edge's
      target label. */
  lemma EdgeConnected(base: Grid, g: Grid, m: map<int, int>, p: Pos) returns (b: Pos)
    requires SameOn(base, g) && LabelsConnected(base, g) && Backed(g, m)
    requires On(g, p) && Cell(g, p.0, p.1) in m
    ensures On(g, b) && Cell(g, b.0, b.1) == m[Cell(g, p.0, p.1)]
    ensures Connected(base, p, b)
  {
    var x := Cell(g, p.0, p.1);
    assert Witnessed(g, x, m[x]);
    var a;
    a, b := WitnessCells(g, x, m[x]);
    assert On(base, a) && On(base, b);
    assert Connected(base, p, a);
    ConnectedAdjacent(base, a, b);
    ConnectedTrans(base, p, a, b);
  }

  /** From an "on" cell, the chain of redirections of its label stays inside
      the cell's component: after n steps along a scan's map there is a cell
      with the label reached, connected to the start. */
  lemma {:induction false} ChainStaysConnected(base: Grid, g: Grid, m: map<int, int>, p: Pos, n: nat)
    returns (q: Pos)
    requires SameOn(base, g) && LabelsConnected(base, g) && Backed(g, m)
    requires On(g, p)
    ensures On(g, q) && Cell(g, q.0, q.1) == Follow(m, Cell(g, p.0, p.1), n)
    ensures Connected(base, p, q)
    decreases n
  {
    if n == 0 || Cell(g, p.0, p.1) !in m {
      q := p;
      assert On(base, p);
      ConnectedRefl(base, p);
    } else {
      var b := EdgeConnected(base, g, m, p);
      q := ChainStaysConnected(base, g, m, b, n - 1);
      ConnectedTrans(base, p, b, q);
    }
  }

  /** The cell a label ends at after resolution: an "on" cell of g connected to
      p whose label is p's resolved label. */
  lemma ResolvedWitness(base: Grid, g: Grid, m: map<int, int>, p: Pos) returns (q: Pos)
    requires SameOn(base, g) && LabelsConnected(base, g) && LabelMapOk(g, m)
    requires On(g, p)
    ensures On(g, q) && Cell(g, q.0, q.1) == Resolve(m, Cell(g, p.0, p.1))
    ensures Connected(base, p, q)
  {
    var x := Cell(g, p.0, p.1);
    LabelMapEntries(g, m);
    ResolveToSink(m, x);
    if x in m {
      var n :| n >= 1 && Resolve(m, x) == Follow(m, x, n);
      q := ChainStaysConnected(base, g, m, p, n);
    } else {
      q := p;
      assert On(base, p);
      ConnectedRefl(base, p);
    }
  }

  /** A pass merges labels only along adjacent cells: when each label of g
      lies in one component, so does each label after the rewrite. */
  lemma PassKeepsConnected(base: Grid, g: Grid, m: map<int, int>)
    requires SameOn(base, g) && LabelsConnected(base, g) && LabelMapOk(g, m)
    ensures LabelsConnected(base, ResolveGrid(m, g))
  {
    var r := ResolveGrid(m, g);
    ResolveGridLabels(g, m);
    forall p, q | On(r, p) && On(r, q) && Cell(r, p.0, p.1) == Cell(r, q.0, q.1)
      ensures Connected(base, p, q)
    {
      assert On(g, p) && On(g, q);
      assert Cell(r, p.0, p.1) == Resolve(m, Cell(g, p.0, p.1));
      assert Cell(r, q.0, q.1) == Resolve(m, Cell(g, q.0, q.1));
      var p' := ResolvedWitness(base, g, m, p);
      var q' := ResolvedWitness(base, g, m, q);
      assert Connected(base, p', q');
      ConnectedSym(base, q, q');
      ConnectedTrans(base, p, p', q');
      ConnectedTrans(base, p, q', q);
    }
  }

  /** `Labeling`: one pass. The scan's map is backed by adjacent cells and
      acyclic, and is empty exactly when the grid is a fixed point, in which
      case the grid comes back unchanged; otherwise the rewrite removes at
      least one label and introduces none. */
  method Labeling(table: Grid) returns (labelMap: map<int, int>, next: Grid)
    ensures labelMap == ScanMap(table) && next == ResolveGrid(labelMap, table)
    ensures LabelMapOk(table, labelMap)
    ensures labelMap == map[] <==> NoCandidate(table)
    ensures labelMap == map[] ==> next == table
    ensures SameOn(table, next)
    ensures Labels(next) <= Labels(table) - labelMap.Keys
    ensures labelMap != map[] ==> |Labels(next)| < |Labels(table)|
  {
    labelMap := Scan(table);
    next := ResolveGrid(labelMap, table);
    ResolveGridLabels(table, labelMap);
  }

  /** `step`, without the timer and the display: passes repeat on their own
      output until a pass finds an empty map. The result has the input's
      shape and zero cells, is a fixed point (no two adjacent "on" cells hold
      different labels), holds only labels of the input, and took at most one
      pass more than the number of labels removed. Every pass keeps each label
      inside one 8-connected component. */
  method Step(table: Grid) returns (result: Grid, passes: nat)
    ensures SameOn(table, result)
    ensures NoCandidate(result) && AdjacentAgree(result)
    ensures Labels(result) <= Labels(table)
    ensures 1 <= passes && passes + |Labels(result)| <= |Labels(table)| + 1
    ensures LabelsConnected(table, table) ==> LabelsConnected(table, result)
  {
    var labelMap;
    labelMap, result := Labeling(table);
    passes := 1;
    if LabelsConnected(table, table) {
      PassKeepsConnected(table, table, labelMap);
    }
    while labelMap != map[]
      invariant SameOn(table, result)
      invariant labelMap == map[] ==> NoCandidate(result)
      invariant Labels(result) <= Labels(table)
      invariant 1 <= passes
      invariant passes + |Labels(result)| <= |Labels(table)| + (if labelMap == map[] then 1 else 0)
      invariant LabelsConnected(table, table) ==> LabelsConnected(table, result)
      decreases |Labels(result)| + (if labelMap == map[] then 0 else 1)
    {
      ghost var before := result;
      labelMap, result := Labeling(result);
      passes := passes + 1;
      SameOnTrans(table, before, result);
      if LabelsConnected(table, table) {
        PassKeepsConnected(table, before, labelMap);
      }
    }
    NoCandidateIffAdjacentAgree(result);
  }

  /** Cells of one run are connected along the row. */
  lemma RunConnected(g: Grid, i: int, j: int, k: int)
    requires 0 <= i < |g| && 0 <= j <= k < |g[i]| && OneRun(g[i], j, k)
    ensures Connected(g, (i, j), (i, k))
  {
    var path := seq(k - j + 1, d requires 0 <= d <= k - j => (i, j + d));
    assert forall d :: 0 <= d < |path| ==> On(g, path[d]) by {
      forall d | 0 <= d < |path|
        ensures On(g, path[d])
      {
        assert g[i][j + d] == 1;
      }
    }
    assert IsPath(g, path);
  }

  /** The run labels of a binary grid put each label in one component. */
  lemma InitLabelsConnected(g: Grid)
    requires Binary(g)
    ensures LabelsConnected(g, InitLabels(g))
  {
    var l := InitLabels(g);
    GridRuns(g, 0);
    forall p, q | On(l, p) && On(l, q) && Cell(l, p.0, p.1) == Cell(l, q.0, q.1)
      ensures Connected(g, p, q)
    {
      assert On(g, p) && On(g, q);
      if p.1 <= q.1 {
        RunLabelsEqual(g, l, p, q);
        RunConnected(g, p.0, p.1, q.1);
      } else {
        RunLabelsEqual(g, l, q, p);
        RunConnected(g, p.0, q.1, p.1);
        ConnectedSym(g, q, p);
      }
    }
  }

  /** `LabelInit` followed by `step` on a binary grid: the "off" cells stay
      0, and two "on" cells end with the same label exactly when they are
      8-connected through "on" cells. */
  method LabelComponents(g: Grid) returns (result: Grid, passes: nat)
    requires Binary(g)
    ensures SameOn(g, result)
    ensures forall p, q :: On(g, p) && On(g, q) ==>
              (Cell(result, p.0, p.1) == Cell(result, q.0, q.1) <==> Connected(g, p, q))
  {
    var table := LabelInit(g);
    InitLabelsConnected(g);
    GridRuns(g, 0);
    forall p, q | LabelsConnected(g, table) && On(table, p) && On(table, q) && Cell(table, p.0, p.1) == Cell(table, q.0, q.1)
      ensures Connected(table, p, q)
    {
      ConnectedSameOn(g, table, p, q);
    }
    result, passes := Step(table);
    forall p, q | On(g, p) && On(g, q)
      ensures Cell(result, p.0, p.1) == Cell(result, q.0, q.1) <==> Connected(g, p, q)
    {
      assert On(table, p) && On(table, q) && On(result, p) && On(result, q);
      if Connected(g, p, q) {
        ConnectedSameOn(g, result, p, q);
        ConnectedAgree(result, p, q);
      }
      if Cell(result, p.0, p.1) == Cell(result, q.0, q.1) {
        assert Connected(table, p, q);
        ConnectedSameOn(table, g, p, q);
      }
    }
  }
}
