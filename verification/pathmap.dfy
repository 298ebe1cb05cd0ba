/** A unit-cost shortest-path map from one source cell under a passability callback:
    a cost-ordered work queue, an expansion guard, predecessor recovery by lowest-cost
    neighbour, path reconstruction and bucketing of cells by cost. */
module PathMaps {
  import opened Traverse
  import opened Wrappers
  import Collections

  /** A path cost: a finite number of steps, or +Infinity for an unreached cell. */
  datatype Cost = Fin(n: nat) | Inf

  /** `a < b` on costs, with +Infinity above every finite cost. */
  predicate Below(a: Cost, b: Cost) {
    match (a, b)
    case (Fin(x), Fin(y)) => x < y
    case (Fin(_), Inf) => true
    case _ => false
  }

  /** A work-queue entry: a cell and the cost at which it was reached. */
  datatype Neighbour = Neighbour(pos: Vec, cost: nat)

  /** The work queue is ordered by non-decreasing cost. */
  predicate SortedByCost(queue: seq<Neighbour>) {
    forall i, j :: 0 <= i < j < |queue| ==> queue[i].cost <= queue[j].cost
  }

  lemma InsertKeepsSorted(t: Neighbour, q: seq<Neighbour>, i: nat)
    requires SortedByCost(q) && i <= |q|
    requires forall j :: 0 <= j < i ==> q[j].cost < t.cost
    requires i < |q| ==> q[i].cost >= t.cost
    ensures SortedByCost(q[..i] + [t] + q[i..])
  {
    var r := q[..i] + [t] + q[i..];
    forall a, b | 0 <= a < b < |r| ensures r[a].cost <= r[b].cost {
      if a < i && b > i { assert r[b] == q[b - 1]; }
      if a > i { assert r[a] == q[a - 1] && r[b] == q[b - 1]; }
    }
  }

  /** Inserting `t` at `i` adds exactly `t`. */
  lemma InsertContents(t: Neighbour, q: seq<Neighbour>, i: nat)
    requires i <= |q|
    ensures multiset(q[..i] + [t] + q[i..]) == multiset(q) + multiset{t}
    ensures forall e :: e in q[..i] + [t] + q[i..] <==> e in q || e == t
  {
    calc {
      multiset(q[..i] + [t] + q[i..]);
      multiset(q[..i]) + multiset{t} + multiset(q[i..]);
      { assert q == q[..i] + q[i..]; }
      multiset(q) + multiset{t};
    }
    forall e ensures e in q[..i] + [t] + q[i..] <==> e in q || e == t {
      assert e in q[..i] + [t] + q[i..] <==> e in multiset(q[..i] + [t] + q[i..]);
    }
  }

  /** The index of the first entry of minimal cost (an earlier entry wins a tie). */
  function FirstMinIndex(costs: seq<Cost>): (k: nat)
    requires |costs| > 0
    ensures k < |costs|
    ensures forall j :: 0 <= j < k ==> Below(costs[k], costs[j])
    ensures forall j :: k < j < |costs| ==> !Below(costs[j], costs[k])
    decreases |costs|
  {
    if |costs| == 1 then 0
    else
      var k := FirstMinIndex(costs[..|costs| - 1]);
      if Below(costs[|costs| - 1], costs[k]) then |costs| - 1 else k
  }

  /** Scanning one more entry: it becomes the first minimum only when strictly below the
      current one. */
  lemma FirstMinIndexSnoc(costs: seq<Cost>, i: nat)
    requires 0 < i < |costs|
    ensures FirstMinIndex(costs[..i + 1]) ==
      if Below(costs[i], costs[FirstMinIndex(costs[..i])]) then i else FirstMinIndex(costs[..i])
  {
    assert costs[..i + 1][..i] == costs[..i];
  }

  /** The costs of `cells`, in order. */
  function CostsOf(dist: map<Vec, Cost>, cells: seq<Vec>): (r: seq<Cost>)
    requires forall c :: c in cells ==> c in dist
    ensures |r| == |cells| && forall i :: 0 <= i < |cells| ==> r[i] == dist[cells[i]]
  {
    seq(|cells|, i requires 0 <= i < |cells| => dist[cells[i]])
  }

  // ---------------------------------------------------------------------------------------
  // The search problem and what a correct cost map is
  // ---------------------------------------------------------------------------------------

  /** The grid, the source cell and the passability callback of one map. */
  datatype Graph = Graph(dims: Dims, from: Vec, passable: Vec -> bool)

  /** One move: from `q` to a passable in-bounds cell `p` one step away. The source cell
      itself is never tested for passability. */
  ghost predicate IsMove(g: Graph, q: Vec, p: Vec) {
    WithinBounds(q, g.dims) && WithinBounds(p, g.dims) && L1(q, p) == 1 && g.passable(p)
  }

  /** `walk` starts at the source and every later cell is one move from the one before. */
  ghost predicate IsWalk(g: Graph, walk: seq<Vec>) {
    && |walk| > 0
    && walk[0] == g.from
    && WithinBounds(g.from, g.dims)
    && forall i :: 0 < i < |walk| ==> IsMove(g, walk[i - 1], walk[i])
  }

  /** `k` moves reach `p`, and no walk reaches it in fewer. */
  ghost predicate IsShortest(g: Graph, p: Vec, k: nat) {
    && (exists walk :: IsWalk(g, walk) && walk[|walk| - 1] == p && |walk| == k + 1)
    && (forall walk :: IsWalk(g, walk) && walk[|walk| - 1] == p ==> k + 1 <= |walk|)
  }

  /** No walk reaches `p`. */
  ghost predicate Unreachable(g: Graph, p: Vec) {
    forall walk :: IsWalk(g, walk) ==> walk[|walk| - 1] != p
  }

  /** The cells other than the source whose cost is finite. */
  ghost function Reached(g: Graph, dist: map<Vec, Cost>): set<Vec> {
    set p | p in dist && dist[p].Fin? && p != g.from
  }

  /** Every finite cost other than the source's is justified by a parent: the cell is
      passable, one step from its parent, and costs exactly one more than the parent. */
  ghost predicate Justified(g: Graph, dist: map<Vec, Cost>, parent: map<Vec, Vec>) {
    && parent.Keys == Reached(g, dist)
    && forall p {:trigger p in parent} :: p in parent ==>
      && p in dist
      && g.passable(p)
      && dist[p].Fin?
      && dist[p].n > 0
      && parent[p] in dist
      && L1(parent[p], p) == 1
      && dist[parent[p]] == Fin(dist[p].n - 1)
  }

  /** From the reached cell `e`, every passable cell one step away costs at most one more. */
  ghost predicate RelaxedAt(g: Graph, dist: map<Vec, Cost>, e: Vec) {
    && e in dist
    && dist[e].Fin?
    && forall p {:trigger L1(e, p)} :: p in dist && L1(e, p) == 1 && g.passable(p) ==> dist[p].Fin? && dist[p].n <= dist[e].n + 1
  }

  /** No reached cell could be improved by one more move. */
  ghost predicate Consistent(g: Graph, dist: map<Vec, Cost>) {
    forall e {:trigger RelaxedAt(g, dist, e)} :: e in dist && dist[e].Fin? ==> RelaxedAt(g, dist, e)
  }

  /** A correct cost map for a source inside the grid. */
  ghost predicate Distances(g: Graph, dist: map<Vec, Cost>, parent: map<Vec, Vec>) {
    && dist.Keys == Cells(g.dims)
    && g.from in dist
    && dist[g.from] == Fin(0)
    && Justified(g, dist, parent)
    && Consistent(g, dist)
  }

  /** Every walk ends on a cell whose cost is at most the walk's number of moves. */
  lemma {:induction false} WalkBound(g: Graph, dist: map<Vec, Cost>, parent: map<Vec, Vec>, walk: seq<Vec>)
    requires Distances(g, dist, parent) && IsWalk(g, walk)
    ensures walk[|walk| - 1] in dist && dist[walk[|walk| - 1]].Fin?
    ensures dist[walk[|walk| - 1]].n <= |walk| - 1
    decreases |walk|
  {
    if |walk| > 1 {
      var prefix := walk[..|walk| - 1];
      assert IsWalk(g, prefix) by {
        forall i | 0 < i < |prefix| ensures IsMove(g, prefix[i - 1], prefix[i]) {
          assert prefix[i - 1] == walk[i - 1] && prefix[i] == walk[i];
        }
      }
      WalkBound(g, dist, parent, prefix);
      var q, p := walk[|walk| - 2], walk[|walk| - 1];
      assert IsMove(g, q, p);
      assert RelaxedAt(g, dist, q);
    }
  }

  /** Every finite cost is achieved by a walk with exactly that many moves. */
  lemma {:induction false} WalkExists(g: Graph, dist: map<Vec, Cost>, parent: map<Vec, Vec>, p: Vec)
    requires Distances(g, dist, parent) && p in dist && dist[p].Fin?
    ensures exists walk :: IsWalk(g, walk) && walk[|walk| - 1] == p && |walk| == dist[p].n + 1
    decreases dist[p].n
  {
    if p == g.from {
      assert IsWalk(g, [p]);
    } else {
      assert p in Reached(g, dist);
      var q := parent[p];
      WalkExists(g, dist, parent, q);
      var walk :| IsWalk(g, walk) && walk[|walk| - 1] == q && |walk| == dist[q].n + 1;
      var longer := walk + [p];
      assert IsMove(g, q, p);
      assert IsWalk(g, longer) by {
        forall i | 0 < i < |longer| ensures IsMove(g, longer[i - 1], longer[i]) {
          if i < |walk| { assert longer[i - 1] == walk[i - 1] && longer[i] == walk[i]; }
        }
      }
      assert longer[|longer| - 1] == p;
    }
  }

  /** A finite cost is the length of a shortest walk. */
  lemma CostIsShortest(g: Graph, dist: map<Vec, Cost>, parent: map<Vec, Vec>, p: Vec)
    requires Distances(g, dist, parent) && p in dist && dist[p].Fin?
    ensures IsShortest(g, p, dist[p].n)
  {
    WalkExists(g, dist, parent, p);
    forall walk | IsWalk(g, walk) && walk[|walk| - 1] == p ensures dist[p].n + 1 <= |walk| {
      WalkBound(g, dist, parent, walk);
    }
  }

  /** A cell costs +Infinity exactly when no walk reaches it. */
  lemma InfIsUnreachable(g: Graph, dist: map<Vec, Cost>, parent: map<Vec, Vec>, p: Vec)
    requires Distances(g, dist, parent) && p in dist
    ensures dist[p] == Inf <==> Unreachable(g, p)
  {
    if dist[p].Fin? {
      WalkExists(g, dist, parent, p);
    } else {
      forall walk | IsWalk(g, walk) ensures walk[|walk| - 1] != p {
        WalkBound(g, dist, parent, walk);
      }
    }
  }

  /** Below any finite cost, every smaller cost is the cost of some cell. */
  lemma {:induction false} CostsContiguous(g: Graph, dist: map<Vec, Cost>, parent: map<Vec, Vec>, p: Vec, k: nat)
    requires Distances(g, dist, parent) && p in dist && dist[p].Fin? && k <= dist[p].n
    ensures exists q :: q in dist && dist[q] == Fin(k)
    decreases dist[p].n
  {
    if k < dist[p].n {
      assert p in Reached(g, dist);
      CostsContiguous(g, dist, parent, parent[p], k);
    }
  }

  /** The neighbour `previousNeighbour` picks: the first adjacent cell, in the order of
      `Adjacent`, of lowest cost. */
  ghost function PrevOf(dims: Dims, dist: map<Vec, Cost>, p: Vec): (r: Vec)
    requires dist.Keys == Cells(dims) && WithinBounds(p, dims)
    ensures r in Adjacent(p, dims)
  {
    var around := Adjacent(p, dims);
    AdjacentMembers(p, dims);
    around[FirstMinIndex(CostsOf(dist, around))]
  }

  /** From a reached cell other than the source, `PrevOf` is one move back and costs one less. */
  lemma PrevDescends(g: Graph, dist: map<Vec, Cost>, parent: map<Vec, Vec>, p: Vec)
    requires Distances(g, dist, parent) && p in dist && dist[p].Fin? && p != g.from
    ensures IsMove(g, PrevOf(g.dims, dist, p), p)
    ensures dist[PrevOf(g.dims, dist, p)].Fin? && dist[PrevOf(g.dims, dist, p)].n + 1 == dist[p].n
  {
    assert p in Reached(g, dist);
    PrevDescendsTo(g, dist, p, parent[p], dist[p].n - 1);
  }

  lemma PrevDescendsTo(g: Graph, dist: map<Vec, Cost>, p: Vec, q: Vec, m: nat)
    requires Consistent(g, dist) && dist.Keys == Cells(g.dims)
    requires p in dist && dist[p] == Fin(m + 1) && g.passable(p)
    requires q in dist && dist[q] == Fin(m) && L1(q, p) == 1
    ensures IsMove(g, PrevOf(g.dims, dist, p), p) && dist[PrevOf(g.dims, dist, p)] == Fin(m)
  {
    PrevCost(g, dist, p, q, m);
    var best := PrevOf(g.dims, dist, p);
    AdjacentMembers(p, g.dims);
    assert best != p;
    L1Zero(best, p);
  }

  lemma PrevCost(g: Graph, dist: map<Vec, Cost>, p: Vec, q: Vec, m: nat)
    requires Consistent(g, dist) && dist.Keys == Cells(g.dims)
    requires p in dist && dist[p] == Fin(m + 1) && g.passable(p)
    requires q in dist && dist[q] == Fin(m) && L1(q, p) == 1
    ensures dist[PrevOf(g.dims, dist, p)] == Fin(m)
  {
    var around := Adjacent(p, g.dims);
    AdjacentMembers(p, g.dims);
    var costs := CostsOf(dist, around);
    assert q in around;
    var j :| 0 <= j < |around| && around[j] == q;
    NearbyCostsBounded(g, dist, p, around);
    FirstMinAttains(costs, j, m);
  }

  /** No cell within one step of a reached, passable `p` costs less than one below `p`. */
  lemma NearbyCostsBounded(g: Graph, dist: map<Vec, Cost>, p: Vec, around: seq<Vec>)
    requires Consistent(g, dist) && p in dist && dist[p].Fin? && g.passable(p)
    requires forall a :: a in around ==> a in dist && L1(p, a) <= 1
    ensures forall i :: 0 <= i < |around| && dist[around[i]].Fin? ==> dist[around[i]].n + 1 >= dist[p].n
  {
    forall i | 0 <= i < |around| && dist[around[i]].Fin? ensures dist[around[i]].n + 1 >= dist[p].n {
      var a := around[i];
      assert a in around;
      if a != p {
        assert RelaxedAt(g, dist, a);
        assert L1(a, p) == 1;
      }
    }
  }

  /** When entry `j` costs `m` and no finite entry costs less, the first minimum costs `m`. */
  lemma FirstMinAttains(costs: seq<Cost>, j: nat, m: nat)
    requires j < |costs| && costs[j] == Fin(m)
    requires forall i :: 0 <= i < |costs| && costs[i].Fin? ==> costs[i].n >= m
    ensures costs[FirstMinIndex(costs)] == Fin(m)
  {
    var k := FirstMinIndex(costs);
    assert k <= j ==> !Below(costs[j], costs[k]) || k == j;
  }

  // ---------------------------------------------------------------------------------------
  // The states of the search in `generate`
  // ---------------------------------------------------------------------------------------

  /** The facts that hold between any two steps of the search, `level` being a cost no
      lower than any expanded cell's and no higher than any queued entry's. */
  ghost predicate Settled(g: Graph, dist: map<Vec, Cost>, expanded: set<Vec>, parent: map<Vec, Vec>,
                          queue: seq<Neighbour>, level: nat)
  {
    && dist.Keys == Cells(g.dims)
    && g.from in dist
    && dist[g.from] == Fin(0)
    && SortedByCost(queue)
    && (forall e :: e in queue ==> level <= e.cost && e.pos in dist && dist[e.pos].Fin? && dist[e.pos].n <= e.cost)
    && (forall e :: e in expanded ==> e in dist && dist[e].Fin? && dist[e].n <= level)
    && (forall p :: p in dist && p !in expanded && dist[p].Fin? ==> Neighbour(p, dist[p].n) in queue)
    && Justified(g, dist, parent)
    && (forall p :: p in parent ==> parent[p] in expanded)
  }

  /** Every expanded cell has had its neighbours relaxed. */
  ghost predicate AllRelaxed(g: Graph, dist: map<Vec, Cost>, expanded: set<Vec>) {
    forall e :: e in expanded ==> RelaxedAt(g, dist, e)
  }

  /** The state before `expand` takes the next entry. */
  ghost predicate Frontier(g: Graph, dist: map<Vec, Cost>, expanded: set<Vec>, parent: map<Vec, Vec>,
                           queue: seq<Neighbour>, level: nat)
  {
    Settled(g, dist, expanded, parent, queue, level) && AllRelaxed(g, dist, expanded)
  }

  /** The state inside `expand` while the neighbours of `pos`, reached at `cost`, are relaxed;
      `base` holds the cells expanded before `pos`. */
  ghost predicate Relaxing(g: Graph, dist: map<Vec, Cost>, expanded: set<Vec>, parent: map<Vec, Vec>,
                           queue: seq<Neighbour>, pos: Vec, cost: nat, base: set<Vec>)
  {
    && Settled(g, dist, expanded, parent, queue, cost)
    && pos in dist
    && dist[pos] == Fin(cost)
    && expanded == base + {pos}
    && AllRelaxed(g, dist, base)
  }

  lemma SearchStarts(g: Graph, dist: map<Vec, Cost>)
    requires dist.Keys == Cells(g.dims) && g.from in dist && dist[g.from] == Fin(0)
    requires forall p :: p in dist && p != g.from ==> dist[p] == Inf
    ensures Frontier(g, dist, {}, map[], [Neighbour(g.from, 0)], 0)
  {
    assert Reached(g, dist) == {};
  }

  /** The next entry's cost is a valid level. */
  lemma RaiseLevel(g: Graph, dist: map<Vec, Cost>, expanded: set<Vec>, parent: map<Vec, Vec>,
                   queue: seq<Neighbour>, level: nat)
    requires Frontier(g, dist, expanded, parent, queue, level) && queue != []
    ensures Frontier(g, dist, expanded, parent, queue, queue[0].cost)
  {
    forall e | e in queue ensures queue[0].cost <= e.cost {
      var i :| 0 <= i < |queue| && queue[i] == e;
    }
    assert queue[0] in queue;
  }

  /** Taking an entry of a cell already expanded leaves the rest of the queue a frontier. */
  lemma SkipExpanded(g: Graph, dist: map<Vec, Cost>, expanded: set<Vec>, parent: map<Vec, Vec>,
                     entry: Neighbour, queue: seq<Neighbour>)
    requires Frontier(g, dist, expanded, parent, [entry] + queue, entry.cost) && entry.pos in expanded
    ensures Frontier(g, dist, expanded, parent, queue, entry.cost)
  {
    var whole := [entry] + queue;
    assert queue == whole[1..];
    forall p | p in dist && p !in expanded && dist[p].Fin? ensures Neighbour(p, dist[p].n) in queue {
      assert Neighbour(p, dist[p].n) in whole;
    }
  }

  /** The first entry of a cell not yet expanded carries its final cost. */
  lemma StartExpansion(g: Graph, dist: map<Vec, Cost>, expanded: set<Vec>, parent: map<Vec, Vec>,
                       entry: Neighbour, queue: seq<Neighbour>)
    requires Frontier(g, dist, expanded, parent, [entry] + queue, entry.cost) && entry.pos !in expanded
    ensures Relaxing(g, dist, expanded + {entry.pos}, parent, queue, entry.pos, entry.cost, expanded)
  {
    var whole := [entry] + queue;
    assert queue == whole[1..];
    assert entry in whole;
    assert Neighbour(entry.pos, dist[entry.pos].n) in whole;
    forall p | p in dist && p !in expanded + {entry.pos} && dist[p].Fin? ensures Neighbour(p, dist[p].n) in queue {
      assert Neighbour(p, dist[p].n) in whole;
    }
  }

  /** Relaxing one passable neighbour `n` of `pos` to `cost + 1` keeps the invariant. */
  lemma RelaxStep(g: Graph, dist: map<Vec, Cost>, expanded: set<Vec>, parent: map<Vec, Vec>,
                  queue: seq<Neighbour>, pos: Vec, cost: nat, base: set<Vec>, n: Vec, queue': seq<Neighbour>)
    requires Relaxing(g, dist, expanded, parent, queue, pos, cost, base)
    requires n in dist && L1(pos, n) == 1 && g.passable(n) && Below(Fin(cost + 1), dist[n])
    requires SortedByCost(queue')
    requires forall e :: e in queue' <==> e in queue || e == Neighbour(n, cost + 1)
    ensures Relaxing(g, dist[n := Fin(cost + 1)], expanded, parent[n := pos], queue', pos, cost, base)
  {
    var dist' := dist[n := Fin(cost + 1)];
    assert n != g.from && n !in expanded;
    RelaxJustified(g, dist, parent, pos, cost, n);
    RelaxQueued(dist, expanded, queue, cost, n, queue');
    forall e | e in base ensures RelaxedAt(g, dist', e) {
      assert RelaxedAt(g, dist, e);
    }
  }

  lemma RelaxJustified(g: Graph, dist: map<Vec, Cost>, parent: map<Vec, Vec>, pos: Vec, cost: nat, n: Vec)
    requires Justified(g, dist, parent)
    requires pos in dist && dist[pos] == Fin(cost) && n in dist && n != g.from
    requires L1(pos, n) == 1 && g.passable(n) && Below(Fin(cost + 1), dist[n])
    requires forall p :: p in parent ==> parent[p] != n
    ensures Justified(g, dist[n := Fin(cost + 1)], parent[n := pos])
  {
    var dist' := dist[n := Fin(cost + 1)];
    assert Reached(g, dist') == Reached(g, dist) + {n};
  }

  lemma RelaxQueued(dist: map<Vec, Cost>, expanded: set<Vec>, queue: seq<Neighbour>, cost: nat, n: Vec, queue': seq<Neighbour>)
    requires n in dist && n !in expanded && Below(Fin(cost + 1), dist[n])
    requires forall e :: e in queue ==> cost <= e.cost && e.pos in dist && dist[e.pos].Fin? && dist[e.pos].n <= e.cost
    requires forall p :: p in dist && p !in expanded && dist[p].Fin? ==> Neighbour(p, dist[p].n) in queue
    requires forall e :: e in queue' <==> e in queue || e == Neighbour(n, cost + 1)
    ensures forall e :: e in queue' ==>
      cost <= e.cost && e.pos in dist && dist[n := Fin(cost + 1)][e.pos].Fin? && dist[n := Fin(cost + 1)][e.pos].n <= e.cost
    ensures forall p :: p in dist && p !in expanded && dist[n := Fin(cost + 1)][p].Fin? ==>
      Neighbour(p, dist[n := Fin(cost + 1)][p].n) in queue'
  {
  }

  /** The first `k` cells of `around`, when passable and other than `pos`, cost at most `cost + 1`. */
  ghost predicate RelaxedUpTo(g: Graph, dist: map<Vec, Cost>, pos: Vec, cost: nat, around: seq<Vec>, k: nat) {
    && k <= |around|
    && forall j :: 0 <= j < k && around[j] != pos && g.passable(around[j]) ==>
      around[j] in dist && dist[around[j]].Fin? && dist[around[j]].n <= cost + 1
  }

  /** Once every neighbour of `pos` is relaxed, the expansion is complete. */
  lemma FinishExpansion(g: Graph, dist: map<Vec, Cost>, expanded: set<Vec>, parent: map<Vec, Vec>,
                        queue: seq<Neighbour>, pos: Vec, cost: nat, base: set<Vec>)
    requires Relaxing(g, dist, expanded, parent, queue, pos, cost, base) && RelaxedAt(g, dist, pos)
    ensures Frontier(g, dist, expanded, parent, queue, cost)
  {
  }

  /** An empty queue leaves a correct cost map. */
  lemma SearchEnds(g: Graph, dist: map<Vec, Cost>, expanded: set<Vec>, parent: map<Vec, Vec>, level: nat)
    requires Frontier(g, dist, expanded, parent, [], level)
    ensures Distances(g, dist, parent)
  {
    forall e | e in dist && dist[e].Fin? ensures RelaxedAt(g, dist, e) {
      assert e in expanded;
    }
  }

  /** `q` is the cell `previousNeighbour` picks before `p`, one move away. */
  ghost predicate StepsBack(g: Graph, dist: map<Vec, Cost>, q: Vec, p: Vec)
    requires dist.Keys == Cells(g.dims)
  {
    IsMove(g, q, p) && q == PrevOf(g.dims, dist, p)
  }

  /** Every cell of `path` is the one `previousNeighbour` picks before the next. */
  ghost predicate ChainsBack(g: Graph, dist: map<Vec, Cost>, path: seq<Vec>)
    requires dist.Keys == Cells(g.dims)
  {
    forall i :: 0 < i < |path| ==> StepsBack(g, dist, path[i - 1], path[i])
  }

  /** One step of `pathTo`'s walk back: the cell `previousNeighbour` picks before `current`
      is one move nearer the source, and putting `current` in front keeps the chain. */
  lemma WalkBackStep(g: Graph, dist: map<Vec, Cost>, parent: map<Vec, Vec>, target: Vec, current: Vec, path: seq<Vec>)
    requires Distances(g, dist, parent) && current in dist && dist[current].Fin? && current != g.from
    requires target in dist && dist[target].Fin? && dist[target].n == dist[current].n + |path|
    requires ChainsBack(g, dist, [current] + path)
    requires path != [] ==> path[|path| - 1] == target
    requires path == [] ==> current == target
    ensures var q := PrevOf(g.dims, dist, current);
      && q in dist && dist[q].Fin? && dist[q].n < dist[current].n
      && dist[target].n == dist[q].n + |[current] + path|
      && ([current] + path)[|path|] == target
      && StepsBack(g, dist, q, current)
  {
    PrevDescends(g, dist, parent, current);
  }

  lemma ChainsBackCons(g: Graph, dist: map<Vec, Cost>, q: Vec, path: seq<Vec>)
    requires dist.Keys == Cells(g.dims) && ChainsBack(g, dist, path)
    requires path != [] ==> StepsBack(g, dist, q, path[0])
    ensures ChainsBack(g, dist, [q] + path)
  {
    var p := [q] + path;
    forall i | 0 < i < |p| ensures StepsBack(g, dist, p[i - 1], p[i]) {
      if i > 1 {
        assert p[i - 1] == path[i - 2] && p[i] == path[i - 1];
      }
    }
  }

  /** A chain back ending inside the grid stays inside the grid; so every path `pathTo` returns
      lies inside the grid. */
  lemma ChainInBounds(g: Graph, dist: map<Vec, Cost>, path: seq<Vec>)
    requires dist.Keys == Cells(g.dims) && ChainsBack(g, dist, path)
    requires path != [] && WithinBounds(path[|path| - 1], g.dims)
    ensures forall i :: 0 <= i < |path| ==> WithinBounds(path[i], g.dims)
  {
    forall i | 0 <= i < |path| - 1 ensures WithinBounds(path[i], g.dims) {
      assert StepsBack(g, dist, path[(i + 1) - 1], path[i + 1]);
    }
  }

  /** A chain back from a cell that starts one move from the source is a walk. */
  lemma ChainIsWalk(g: Graph, dist: map<Vec, Cost>, path: seq<Vec>)
    requires dist.Keys == Cells(g.dims) && ChainsBack(g, dist, path)
    requires path != [] && StepsBack(g, dist, g.from, path[0])
    ensures IsWalk(g, [g.from] + path)
  {
    ChainsBackCons(g, dist, g.from, path);
  }

  // ---------------------------------------------------------------------------------------
  // Isochrones
  // ---------------------------------------------------------------------------------------

  /** `result[key] ||= []; result[key].push(pos)` on a JavaScript array: a missing bucket
      (past the end or a hole) starts empty, and any gap below `key` is left as holes. */
  function AddToIsochrone(result: seq<Option<seq<Vec>>>, key: nat, pos: Vec): (r: seq<Option<seq<Vec>>>)
    ensures |r| == if key < |result| then |result| else key + 1
    ensures r[key] == Some((if key < |result| && result[key].Some? then result[key].value else []) + [pos])
    ensures forall k :: 0 <= k < |r| && k != key ==> r[k] == if k < |result| then result[k] else None
  {
    var isochrone := if key < |result| && result[key].Some? then result[key].value else [];
    seq(if key < |result| then |result| else key + 1,
        k requires 0 <= k => if k == key then Some(isochrone + [pos]) else if k < |result| then result[k] else None)
  }

  /** Bucket `k` of `result` exists exactly when some cell of `done` costs `k`, and then holds
      exactly those cells, in row-major order. */
  ghost predicate BucketHolds(dist: map<Vec, Cost>, done: set<Vec>, result: seq<Option<seq<Vec>>>, k: nat)
    requires done <= dist.Keys && k < |result|
  {
    && (result[k].Some? <==> exists p :: p in done && dist[p] == Fin(k))
    && (result[k].Some? ==> RowMajor(result[k].value) && forall p :: p in result[k].value <==> p in done && dist[p] == Fin(k))
  }

  /** `result` buckets the cells of `done` whose cost is at most `maxCost` by cost: one bucket
      per cost up to the largest such cost, the last one present, each as `BucketHolds` says. */
  ghost predicate Bucketed(dist: map<Vec, Cost>, done: set<Vec>, result: seq<Option<seq<Vec>>>, maxCost: int) {
    && done <= dist.Keys
    && (|result| > 0 ==> |result| - 1 <= maxCost && result[|result| - 1].Some?)
    && (forall p :: p in done && dist[p].Fin? && dist[p].n <= maxCost ==> dist[p].n < |result|)
    && (forall k: nat {:trigger BucketHolds(dist, done, result, k)} :: k < |result| ==> BucketHolds(dist, done, result, k))
  }

  /** What `isochrones(maxCost)` returns for the cost map `dist`. */
  ghost predicate IsIsochrones(dist: map<Vec, Cost>, result: seq<Option<seq<Vec>>>, maxCost: int) {
    Bucketed(dist, dist.Keys, result, maxCost)
  }

  /** Filing one more cell, after every cell already filed, keeps the buckets right. */
  lemma BucketedStep(dist: map<Vec, Cost>, done: set<Vec>, result: seq<Option<seq<Vec>>>, maxCost: int, pos: Vec)
    requires Bucketed(dist, done, result, maxCost) && pos in dist && pos !in done
    requires forall q :: q in done ==> Before(q, pos)
    ensures Bucketed(dist, done + {pos},
      if dist[pos].Fin? && dist[pos].n <= maxCost then AddToIsochrone(result, dist[pos].n, pos) else result, maxCost)
  {
    if dist[pos].Fin? && dist[pos].n <= maxCost {
      var r := AddToIsochrone(result, dist[pos].n, pos);
      forall k: nat | k < |r| ensures BucketHolds(dist, done + {pos}, r, k) {
        if k == dist[pos].n {
          BucketedStepKey(dist, done, result, maxCost, pos);
        } else {
          BucketedStepOther(dist, done, result, maxCost, pos, k);
        }
      }
    } else {
      forall k: nat | k < |result| ensures BucketHolds(dist, done + {pos}, result, k) {
        assert BucketHolds(dist, done, result, k);
      }
    }
  }

  lemma BucketedStepKey(dist: map<Vec, Cost>, done: set<Vec>, result: seq<Option<seq<Vec>>>, maxCost: int, pos: Vec)
    requires Bucketed(dist, done, result, maxCost) && pos in dist && pos !in done
    requires forall q :: q in done ==> Before(q, pos)
    requires dist[pos].Fin? && dist[pos].n <= maxCost
    ensures BucketHolds(dist, done + {pos}, AddToIsochrone(result, dist[pos].n, pos), dist[pos].n)
  {
    var key := dist[pos].n;
    var before := if key < |result| && result[key].Some? then result[key].value else [];
    if key < |result| {
      assert BucketHolds(dist, done, result, key);
    }
    forall q | q in before ensures Before(q, pos) {
      assert q in done;
    }
    RowMajorAppend(before, pos);
  }

  lemma BucketedStepOther(dist: map<Vec, Cost>, done: set<Vec>, result: seq<Option<seq<Vec>>>, maxCost: int, pos: Vec, k: nat)
    requires Bucketed(dist, done, result, maxCost) && pos in dist && pos !in done
    requires dist[pos].Fin? && dist[pos].n <= maxCost
    requires k < |AddToIsochrone(result, dist[pos].n, pos)| && k != dist[pos].n
    ensures BucketHolds(dist, done + {pos}, AddToIsochrone(result, dist[pos].n, pos), k)
  {
    if k < |result| {
      assert BucketHolds(dist, done, result, k);
    } else {
      assert !exists p :: p in done && dist[p] == Fin(k);
    }
  }

  /** The last bucket holds a cell of its cost, so a map of +Infinity costs has no buckets. */
  lemma LastBucketReached(dist: map<Vec, Cost>, result: seq<Option<seq<Vec>>>, maxCost: int)
    requires IsIsochrones(dist, result, maxCost)
    ensures |result| > 0 ==> exists p :: p in dist && dist[p] == Fin(|result| - 1)
  {
    if |result| > 0 {
      assert BucketHolds(dist, dist.Keys, result, |result| - 1);
    }
  }

  /** With a correct cost map, no bucket below the last is a hole. */
  lemma {:induction false} IsochronesHaveNoHoles(g: Graph, dist: map<Vec, Cost>, parent: map<Vec, Vec>,
                                                 result: seq<Option<seq<Vec>>>, maxCost: int)
    requires Distances(g, dist, parent) && IsIsochrones(dist, result, maxCost)
    ensures forall k :: 0 <= k < |result| ==> result[k].Some?
  {
    if |result| > 0 {
      var last := |result| - 1;
      assert BucketHolds(dist, dist.Keys, result, last);
      var p :| p in dist && dist[p] == Fin(last);
      forall k | 0 <= k < |result| ensures result[k].Some? {
        CostsContiguous(g, dist, parent, p, k);
        assert BucketHolds(dist, dist.Keys, result, k);
      }
    }
  }

  // ---------------------------------------------------------------------------------------
  // The path map
  // ---------------------------------------------------------------------------------------

  class PathMap {
    const from: Vec
    const bounds: Dims
    /** The cost grid (`pathMap`), indexed `[y, x]`. */
    const costs: array2<Cost>
    /** The cells already expanded (the source's set of position hashes). */
    var expansions: set<Vec>
    /** The passability callback the map was generated with. */
    ghost const passable: Vec -> bool
    /** The cost grid as a map from cell to cost. */
    ghost var dist: map<Vec, Cost>
    /** For every reached cell other than the source, the expanded cell it was reached from. */
    ghost var parent: map<Vec, Vec>

    ghost function G(): Graph {
      Graph(bounds, from, passable)
    }

    /** `dist` is the content of the grid. */
    ghost predicate Mirrors()
      reads this, costs
    {
      && costs.Length0 == bounds.height
      && costs.Length1 == bounds.width
      && dist.Keys == Cells(bounds)
      && forall p {:trigger costs[p.y, p.x]} :: p in dist ==> dist[p] == costs[p.y, p.x]
    }

    /** What `generate` establishes: with the source outside the grid nothing is reached;
        otherwise every cost is a shortest-walk length (`CostIsShortest`, `InfIsUnreachable`). */
    ghost predicate Valid()
      reads this, costs
    {
      && Mirrors()
      && (WithinBounds(from, bounds) ==> Distances(G(), dist, parent))
      && (!WithinBounds(from, bounds) ==> forall p :: p in dist ==> dist[p] == Inf)
    }

    constructor (from: Vec, bounds: Dims, pathMap: array2<Cost>, ghost passable: Vec -> bool)
      requires pathMap.Length0 == bounds.height && pathMap.Length1 == bounds.width
      ensures this.from == from && this.bounds == bounds && this.costs == pathMap
      ensures this.passable == passable
      ensures expansions == {} && parent == map[]
      ensures Mirrors()
    {
      this.from := from;
      this.bounds := bounds;
      this.costs := pathMap;
      this.passable := passable;
      expansions := {};
      parent := map[];
      dist := map p | p in Cells(bounds) :: pathMap[p.y, p.x];
    }

    /** `cost`: a finite cost is the number of moves of a shortest walk from `from`, and
        +Infinity means no walk reaches the cell. */
    function Cost(target: Vec): (c: Cost)
      reads this, costs
      requires Valid() && WithinBounds(target, bounds)
      ensures c.Fin? ==> IsShortest(G(), target, c.n)
      ensures c == Inf <==> Unreachable(G(), target)
    {
      if WithinBounds(from, bounds) then
        CostIsShortestOrUnreachable(target);
        costs[target.y, target.x]
      else
        costs[target.y, target.x]
    }

    lemma CostIsShortestOrUnreachable(target: Vec)
      requires Valid() && WithinBounds(target, bounds) && WithinBounds(from, bounds)
      ensures dist[target].Fin? ==> IsShortest(G(), target, dist[target].n)
      ensures dist[target] == Inf <==> Unreachable(G(), target)
    {
      InfIsUnreachable(G(), dist, parent, target);
      if dist[target].Fin? {
        CostIsShortest(G(), dist, parent, target);
      }
    }

    /** `pathTo`: the cells of a shortest walk from `from` to `target`, the source left out,
        each found from the next by `previousNeighbour`; just `[target]` when `target` is
        unreachable or is the source itself. */
    method PathTo(target: Vec) returns (path: seq<Vec>)
      requires Valid() && WithinBounds(target, bounds)
      ensures dist[target] == Inf || target == from ==> path == [target]
      ensures dist[target].Fin? && target != from ==>
        && |path| == dist[target].n && |path| > 0 && path[|path| - 1] == target
        && IsWalk(G(), [from] + path)
        && IsShortest(G(), target, |path|)
        && ChainsBack(G(), dist, path)
    {
      if costs[target.y, target.x] == Inf {
        return [target];
      }
      assert WithinBounds(from, bounds);
      ghost var g, d, pr := G(), dist, parent;
      assert Distances(g, d, pr);

      path := [];
      var current := target;
      while current != from
        invariant WithinBounds(current, bounds) && d[current].Fin?
        invariant d[target].n == d[current].n + |path|
        invariant path == [] ==> current == target
        invariant path != [] ==> path[|path| - 1] == target && StepsBack(g, d, current, path[0])
        invariant ChainsBack(g, d, path)
        decreases d[current].n
      {
        ChainsBackCons(g, d, current, path);
        path := [current] + path;
        var next := PreviousNeighbour(current);
        if next.None? {
          break;
        }
        WalkBackStep(g, d, pr, target, current, path[1..]);
        current := next.value;
      }

      if |path| == 0 {
        // The target is the source: a single move onto it.
        path := [target];
      } else {
        CostIsShortest(g, d, pr, target);
        ChainIsWalk(g, d, path);
      }
    }

    /** `isochrone`: the cells whose cost equals `targetCost`, in row-major order. */
    method Isochrone(targetCost: Cost) returns (isochrone: seq<Vec>)
      requires Mirrors()
      ensures forall p :: p in isochrone <==> p in dist && dist[p] == targetCost
      ensures RowMajor(isochrone)
    {
      var cells := All(bounds);
      isochrone := [];
      for i := 0 to |cells|
        invariant forall p :: p in isochrone <==> p in cells[..i] && dist[p] == targetCost
        invariant RowMajor(isochrone)
      {
        var pos := cells[i];
        assert WithinBounds(pos, bounds);
        var cost := costs[pos.y, pos.x];
        if cost == targetCost {
          forall q | q in isochrone ensures Before(q, pos) {
            var j :| 0 <= j < i && cells[j] == q;
          }
          RowMajorAppend(isochrone, pos);
          isochrone := isochrone + [pos];
        }
        assert cells[..i + 1] == cells[..i] + [pos];
      }
      assert cells[..|cells|] == cells;
    }

    /** `isochrones`: the cells of cost at most `maxCost`, bucketed by cost as `IsIsochrones`
        says; on a generated map no bucket below the last is missing. */
    method Isochrones(maxCost: int) returns (result: seq<Option<seq<Vec>>>)
      requires Mirrors()
      ensures IsIsochrones(dist, result, maxCost)
      ensures Valid() ==> forall k :: 0 <= k < |result| ==> result[k].Some?
    {
      var cells := All(bounds);
      result := [];
      ghost var done: set<Vec> := {};
      for i := 0 to |cells|
        invariant forall p :: p in done <==> p in cells[..i]
        invariant Bucketed(dist, done, result, maxCost)
      {
        var pos := cells[i];
        assert WithinBounds(pos, bounds);
        var cost := costs[pos.y, pos.x];
        forall q | q in done ensures Before(q, pos) {
          var j :| 0 <= j < i && cells[j] == q;
        }
        BucketedStep(dist, done, result, maxCost, pos);
        // An infinite cost is never at most `maxCost`, and the floor of a whole cost is itself.
        if cost.Fin? && cost.n <= maxCost {
          result := AddToIsochrone(result, cost.n, pos);
        }
        done := done + {pos};
        assert cells[..i + 1] == cells[..i] + [pos];
      }
      assert cells[..|cells|] == cells;
      assert done == dist.Keys;
      if Valid() && WithinBounds(from, bounds) {
        IsochronesHaveNoHoles(G(), dist, parent, result, maxCost);
      } else if Valid() {
        LastBucketReached(dist, result, maxCost);
      }
    }

    /** `previousNeighbour`: the first cell of least cost around `current`, `current` itself
        included, scanning in row-major order. */
    method PreviousNeighbour(current: Vec) returns (best: Option<Vec>)
      requires Mirrors() && WithinBounds(current, bounds)
      ensures best == Some(PrevOf(bounds, dist, current))
    {
      var around := Neighbours(current, bounds, 1);
      AdjacentMembers(current, bounds);
      ghost var cs := CostsOf(dist, around);
      best := None;
      var bestCost := costs[current.y, current.x];
      for i := 0 to |around|
        invariant best.None? <==> i == 0
        invariant i > 0 ==> best == Some(around[FirstMinIndex(cs[..i])]) && bestCost == cs[FirstMinIndex(cs[..i])]
      {
        var n := around[i];
        assert WithinBounds(n, bounds);
        var cost := costs[n.y, n.x];
        if i > 0 {
          FirstMinIndexSnoc(cs, i);
        }
        if best.None? || Below(cost, bestCost) {
          best := Some(n);
          bestCost := cost;
        }
      }
      assert cs[..|around|] == cs;
    }

    /** `assign`: records the entry's cost only when it is strictly below the recorded cost. */
    method Assign(neighbour: Neighbour)
      requires Mirrors() && WithinBounds(neighbour.pos, bounds)
      modifies this, costs
      ensures Mirrors()
      ensures dist == old(dist)[neighbour.pos := if Below(Fin(neighbour.cost), old(dist[neighbour.pos]))
                                                 then Fin(neighbour.cost) else old(dist[neighbour.pos])]
      ensures expansions == old(expansions) && parent == old(parent)
    {
      var pos := neighbour.pos;
      var cost := neighbour.cost;
      var previous := costs[pos.y, pos.x];
      if Below(Fin(cost), previous) {
        costs[pos.y, pos.x] := Fin(cost);
        dist := dist[pos := Fin(cost)];
      }
    }

    /** `insertNeighbour`: the entry goes in front of the first entry whose cost is not below its own. */
    static method InsertNeighbour(toInsert: Neighbour, neighbours: seq<Neighbour>) returns (r: seq<Neighbour>)
      ensures exists i :: && 0 <= i <= |neighbours|
                          && (forall j :: 0 <= j < i ==> neighbours[j].cost < toInsert.cost)
                          && (i < |neighbours| ==> neighbours[i].cost >= toInsert.cost)
                          && r == neighbours[..i] + [toInsert] + neighbours[i..]
      ensures multiset(r) == multiset(neighbours) + multiset{toInsert}
      ensures forall e :: e in r <==> e in neighbours || e == toInsert
      ensures SortedByCost(neighbours) ==> SortedByCost(r)
    {
      var i := 0;
      while i < |neighbours| && neighbours[i].cost < toInsert.cost
        invariant 0 <= i <= |neighbours|
        invariant forall j :: 0 <= j < i ==> neighbours[j].cost < toInsert.cost
      {
        i := i + 1;
      }
      r := neighbours[..i] + [toInsert] + neighbours[i..];
      InsertContents(toInsert, neighbours, i);
      if SortedByCost(neighbours) {
        InsertKeepsSorted(toInsert, neighbours, i);
      }
    }

    /** `expand`: the first time a cell is taken from the queue, every passable cell one
        step away is relaxed to one more than its cost; a cell already expanded is skipped. */
    method Expand(entry: Neighbour, passable: Vec -> bool, neighbours: seq<Neighbour>) returns (queue: seq<Neighbour>)
      requires passable == this.passable
      requires Mirrors() && Frontier(G(), dist, expansions, parent, [entry] + neighbours, entry.cost)
      modifies this, costs
      ensures Mirrors() && Frontier(G(), dist, expansions, parent, queue, entry.cost)
      ensures entry.pos in old(expansions) ==> queue == neighbours && expansions == old(expansions)
      ensures entry.pos !in old(expansions) ==> expansions == old(expansions) + {entry.pos}
    {
      var pos := entry.pos;
      var cost := entry.cost;
      queue := neighbours;
      if pos in expansions {
        // an entry whose cell was expanded earlier is dropped
        SkipExpanded(G(), dist, expansions, parent, entry, neighbours);
        return;
      }
      StartExpansion(G(), dist, expansions, parent, entry, neighbours);
      expansions := expansions + {pos};

      var around := Neighbours(pos, bounds, 1);
      for k := 0 to |around|
        invariant Mirrors() && expansions == old(expansions) + {pos}
        invariant Relaxing(G(), dist, expansions, parent, queue, pos, cost, old(expansions))
        invariant RelaxedUpTo(G(), dist, pos, cost, around, k)
      {
        queue := Relax(around[k], pos, cost, passable, old(expansions), queue, around, k);
      }
      forall p | p in dist && L1(pos, p) == 1 && passable(p)
        ensures dist[p].Fin? && dist[p].n <= cost + 1
      {
        assert p in around;
      }
      FinishExpansion(G(), dist, expansions, parent, queue, pos, cost, old(expansions));
    }

    /** The body of `expand`'s loop for the neighbour `n` of `pos`: a passable cell other than
        `pos` whose recorded cost is above `cost + 1` is assigned that cost and queued. */
    method Relax(n: Vec, pos: Vec, cost: nat, passable: Vec -> bool, ghost base: set<Vec>, neighbours: seq<Neighbour>,
                 ghost around: seq<Vec>, ghost k: nat)
      returns (queue: seq<Neighbour>)
      requires passable == this.passable && WithinBounds(n, bounds) && L1(pos, n) <= 1
      requires Mirrors() && Relaxing(G(), dist, expansions, parent, neighbours, pos, cost, base)
      requires k < |around| && around[k] == n && RelaxedUpTo(G(), dist, pos, cost, around, k)
      modifies this, costs
      ensures Mirrors() && Relaxing(G(), dist, expansions, parent, queue, pos, cost, base)
      ensures expansions == old(expansions)
      ensures RelaxedUpTo(G(), dist, pos, cost, around, k + 1)
    {
      queue := neighbours;
      if n == pos || !passable(n) {
        return;
      }
      var next := cost + 1;
      if Below(Fin(next), costs[n.y, n.x]) {
        var neighbour := Neighbour(n, next);
        Assign(neighbour);
        parent := parent[n := pos];
        queue := InsertNeighbour(neighbour, queue);
        L1Zero(pos, n);
        RelaxStep(G(), old(dist), expansions, old(parent), neighbours, pos, cost, base, n, queue);
      }
    }

    /** `generate`: a uniform-cost search from `from`; every cell stays +Infinity when `from`
        is outside the grid. */
    static method Generate(from: Vec, bounds: Dims, passable: Vec -> bool) returns (r: PathMap)
      ensures fresh(r) && fresh(r.costs)
      ensures r.from == from && r.bounds == bounds && r.passable == passable
      ensures r.Valid()
    {
      var pathMap := Collections.Create2D(bounds.width, bounds.height, Inf);
      r := new PathMap(from, bounds, pathMap, passable);
      forall p | p in r.dist ensures r.dist[p] == Inf {
        assert r.costs[p.y, p.x] == Inf;
      }

      if WithinBounds(from, bounds) {
        var initial := Neighbour(from, 0);
        r.Assign(initial);
        SearchStarts(r.G(), r.dist);

        var neighbours := [initial];
        ghost var level := 0;
        while |neighbours| > 0
          invariant fresh(r) && fresh(r.costs)
          invariant r.from == from && r.bounds == bounds && r.passable == passable
          invariant r.Mirrors() && Frontier(r.G(), r.dist, r.expansions, r.parent, neighbours, level)
          decreases Cells(bounds) - r.expansions, |neighbours|
        {
          RaiseLevel(r.G(), r.dist, r.expansions, r.parent, neighbours, level);
          ghost var before := neighbours;
          var neighbour := neighbours[0];
          neighbours := neighbours[1..];
          assert before == [neighbour] + neighbours;
          neighbours := r.Expand(neighbour, passable, neighbours);
          level := neighbour.cost;
        }
        SearchEnds(r.G(), r.dist, r.expansions, r.parent, level);
      } else {
        // a source outside the grid: every cost stays Inf
      }
    }
  }
}
