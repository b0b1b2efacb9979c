/** `RecursiveGet`: resolving a label through the label map by following the
    chain of recorded redirections, dropping every visited key from a copy of
    the map so that the walk cannot come back to it. */
module ChainResolver {

  datatype Option<T> = None | Some(value: T)

  /** `obj[key]` is truthy: the key is present with a nonzero value. */
  predicate Has(m: map<int, int>, k: int) {
    k in m && m[k] != 0
  }

  /** `RecursiveGet(obj, key, depth)`. A present key is dropped from the map
      and the walk goes on from its value at depth 1. A miss yields nothing
      (`undefined`) at depth 0 and the key that missed at any other depth.
      So a result is either the key itself after a miss, or a value the map
      holds; and a first lookup that hits always yields a value of the map. */
  function RecursiveGet(m: map<int, int>, key: int, depth: nat): (r: Option<int>)
    ensures r.None? <==> depth == 0 && !Has(m, key)
    ensures !Has(m, key) && depth > 0 ==> r == Some(key)
    ensures r.Some? ==> !Has(m, r.value) || IsValue(m, r.value)
    ensures Has(m, key) ==> r.Some? && IsValue(m, r.value)
    decreases |m|
  {
    if Has(m, key) then
      var rest := m - {key};
      assert |rest| < |m| by {
        assert rest.Keys == m.Keys - {key};
      }
      RecursiveGet(rest, m[key], 1)
    else if depth == 0 then
      None
    else
      Some(key)
  }

  /** v is the value of some key of m. */
  ghost predicate IsValue(m: map<int, int>, v: int) {
    exists k :: k in m && m[k] == v
  }

  /** The cell rewrite `RecursiveGet(labelMap, cell) || cell`: a falsy result
      (`undefined` or 0) leaves the cell as it was. */
  function Resolve(m: map<int, int>, cell: int): int {
    match RecursiveGet(m, cell, 0)
    case None => cell
    case Some(v) => if v != 0 then v else cell
  }

  /** A non-empty map has a key. */
  lemma SomeKey(m: map<int, int>) returns (k: int)
    requires m != map[]
    ensures k in m
  {
    if forall k :: k !in m {
      assert false;
    }
    k :| k in m;
  }

  /** Keys and values are nonzero labels. */
  ghost predicate NonzeroEntries(m: map<int, int>) {
    forall k :: k in m ==> k != 0 && m[k] != 0
  }

  /** `rank` strictly decreases along every edge k -> m[k] of the map. */
  ghost predicate Ranked(m: map<int, int>, rank: map<int, nat>) {
    forall k :: k in m ==> k in rank && m[k] in rank && rank[m[k]] < rank[k]
  }

  /** The map, read as a graph, has no cycle: some rank decreases along it. */
  ghost predicate Acyclic(m: map<int, int>) {
    exists rank :: Ranked(m, rank)
  }

  /** The label reached from k after n steps along the map, stopping early at
      a label that is not a key. */
  ghost function Follow(m: map<int, int>, k: int, n: nat): int
    decreases n
  {
    if n == 0 || k !in m then k else Follow(m, m[k], n - 1)
  }

  /** The walk of `RecursiveGet` on a sub-map m' of an acyclic map m, whose
      dropped keys all rank above the current key, follows m itself: it ends
      after n steps at the label `Follow(m, key, n)`, which is not a key of m. */
  lemma {:induction false} WalkFollowsMap(m: map<int, int>, rank: map<int, nat>, sub: map<int, int>, key: int, depth: nat)
    returns (n: nat)
    requires NonzeroEntries(m) && Ranked(m, rank)
    requires forall k :: k in sub ==> k in m && sub[k] == m[k]
    requires forall k :: k in m && k !in sub ==> key in rank && rank[k] > rank[key]
    ensures RecursiveGet(sub, key, depth).Some? ==>
              RecursiveGet(sub, key, depth).value == Follow(m, key, n) && Follow(m, key, n) !in m
    ensures Has(sub, key) ==> n >= 1
    decreases |sub|
  {
    if Has(sub, key) {
      var rest := sub - {key};
      assert rest.Keys == sub.Keys - {key};
      var next := m[key];
      var n' := WalkFollowsMap(m, rank, rest, next, 1);
      n := n' + 1;
    } else {
      n := 0;
    }
  }

  /** What `Resolve` yields on an acyclic map with nonzero entries: a label
      that is not a key (a sink). A label that is not a key resolves to itself;
      a key resolves to the sink its chain of redirections leads to. */
  lemma ResolveToSink(m: map<int, int>, cell: int)
    requires NonzeroEntries(m) && Acyclic(m)
    ensures Resolve(m, cell) !in m
    ensures cell !in m ==> Resolve(m, cell) == cell
    ensures cell in m ==> IsValue(m, Resolve(m, cell))
    ensures cell in m ==> exists n :: n >= 1 && Resolve(m, cell) == Follow(m, cell, n)
  {
    var rank :| Ranked(m, rank);
    var n := WalkFollowsMap(m, rank, m, cell, 0);
    if cell in m {
      var v := RecursiveGet(m, cell, 0).value;
      assert IsValue(m, v);
      assert Resolve(m, cell) == Follow(m, cell, n);
    }
  }
}
