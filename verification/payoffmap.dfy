/** What each target is worth to one pac: the discounted value of every cell it would collect
    on its shortest walk there, built ring by ring outwards from the pac. */
module Payoffs {
  import opened Wrappers
  import opened Traverse
  import opened Model
  import opened AgentHelper
  import opened PathMaps
  import opened AgentBeliefs
  import opened Values
  import Collections

  /** A cell worth walking to, with its payoff. */
  datatype TargetCandidate = TargetCandidate(target: Vec, payoff: real)

  /** The payoff of walking to `p`: nothing when `p` is unreachable or further than `maxRange`
      moves; otherwise the value of `p`, discounted by its cost, plus the payoff of the
      neighbour `previousNeighbour` steps back to. */
  ghost function PayoffOf(dims: Dims, dist: map<Vec, Cost>, values: map<Vec, real>, rate: real, maxRange: int, p: Vec): (r: real)
    requires dist.Keys == Cells(dims) && values.Keys == Cells(dims) && rate > 0.0 && p in dist
    ensures dist[p] == Inf || dist[p].n > maxRange ==> r == 0.0
    ensures (forall q :: q in values ==> values[q] >= 0.0) ==> r >= 0.0
    decreases if dist[p].Fin? then dist[p].n else 0
  {
    if dist[p] == Inf || dist[p].n > maxRange then 0.0
    else if dist[p].n == 0 then Discount(values[p], 0, rate)
    else
      var q := PrevOf(dims, dist, p);
      AdjacentMembers(p, dims);
      Discount(values[p], dist[p].n, rate) + (if dist[q].Fin? && dist[q].n < dist[p].n then PayoffOf(dims, dist, values, rate, maxRange, q) else 0.0)
  }

  /** The payoff of every cell. */
  ghost function Payoffs(dims: Dims, dist: map<Vec, Cost>, values: map<Vec, real>, rate: real, maxRange: int): (r: map<Vec, real>)
    requires dist.Keys == Cells(dims) && values.Keys == Cells(dims) && rate > 0.0
    ensures r.Keys == Cells(dims)
  {
    map p | p in Cells(dims) :: PayoffOf(dims, dist, values, rate, maxRange, p)
  }

  /** A cell of cost zero steps back to a cell of cost zero: it is adjacent to itself. */
  lemma PrevOfZero(dims: Dims, dist: map<Vec, Cost>, p: Vec)
    requires dist.Keys == Cells(dims) && WithinBounds(p, dims) && dist[p] == Fin(0)
    ensures dist[PrevOf(dims, dist, p)] == Fin(0)
  {
    var around := Adjacent(p, dims);
    AdjacentMembers(p, dims);
    assert p in around;
    var j :| 0 <= j < |around| && around[j] == p;
    FirstMinAttains(CostsOf(dist, around), j, 0);
  }

  /** On a correct cost map, the source steps back to itself. */
  lemma PrevOfSource(g: Graph, dist: map<Vec, Cost>, parent: map<Vec, Vec>)
    requires Distances(g, dist, parent)
    ensures PrevOf(g.dims, dist, g.from) == g.from
  {
    PrevOfZero(g.dims, dist, g.from);
    var r := PrevOf(g.dims, dist, g.from);
    // Every reached cell other than the source costs more than zero.
    assert r !in parent;
    assert r !in Reached(g, dist);
  }

  /** On a correct cost map, a reached cell other than the source steps back to a cell one
      cheaper, and the source (the only cell of cost zero) steps back to itself. */
  lemma PrevOfReached(g: Graph, dist: map<Vec, Cost>, parent: map<Vec, Vec>, p: Vec)
    requires Distances(g, dist, parent) && p in dist && dist[p].Fin?
    ensures PrevOf(g.dims, dist, p) in dist
    ensures dist[p].n > 0 ==> dist[PrevOf(g.dims, dist, p)] == Fin(dist[p].n - 1)
    ensures dist[p].n == 0 ==> p == g.from && PrevOf(g.dims, dist, p) == p
  {
    if p != g.from {
      assert p in Reached(g, dist);
      PrevDescends(g, dist, parent, p);
    } else {
      PrevOfSource(g, dist, parent);
    }
  }
  /** Every reached cell steps back to a cell one cheaper, the source to itself. */
  ghost predicate StepsBackAll(dims: Dims, dist: map<Vec, Cost>)
    requires dist.Keys == Cells(dims)
  {
    forall p {:trigger PrevOf(dims, dist, p)} :: p in dist && dist[p].Fin? ==>
      && PrevOf(dims, dist, p) in dist
      && (dist[p].n > 0 ==> dist[PrevOf(dims, dist, p)] == Fin(dist[p].n - 1))
      && (dist[p].n == 0 ==> PrevOf(dims, dist, p) == p)
  }

  /** A generated cost map steps back everywhere. */
  lemma ValidStepsBack(pathMap: PathMap)
    requires pathMap.Valid()
    ensures StepsBackAll(pathMap.bounds, pathMap.dist)
  {
    var dist := pathMap.dist;
    forall p | p in dist && dist[p].Fin?
      ensures PrevOf(pathMap.bounds, dist, p) in dist
      ensures dist[p].n > 0 ==> dist[PrevOf(pathMap.bounds, dist, p)] == Fin(dist[p].n - 1)
      ensures dist[p].n == 0 ==> PrevOf(pathMap.bounds, dist, p) == p
    {
      PrevOfReached(pathMap.G(), dist, pathMap.parent, p);
    }
  }

  /** The step back from one reached cell. */
  lemma StepBackAt(dims: Dims, dist: map<Vec, Cost>, p: Vec)
    requires dist.Keys == Cells(dims) && StepsBackAll(dims, dist) && p in dist && dist[p].Fin?
    ensures dist[p].n > 0 ==> dist[PrevOf(dims, dist, p)] == Fin(dist[p].n - 1)
    ensures dist[p].n == 0 ==> PrevOf(dims, dist, p) == p
  {
  }


  /** With values of at least zero, every payoff is at least zero, and a cell within range
      is worth at least as much as the cell it steps back to: walking further never loses
      what the shorter walk collected. */
  lemma {:induction false} PayoffGrows(g: Graph, dist: map<Vec, Cost>, parent: map<Vec, Vec>, values: map<Vec, real>,
                                       rate: real, maxRange: int, p: Vec)
    requires Distances(g, dist, parent) && values.Keys == Cells(g.dims) && rate > 0.0 && p in dist
    requires forall q :: q in values ==> values[q] >= 0.0
    ensures PayoffOf(g.dims, dist, values, rate, maxRange, p) >= 0.0
    ensures dist[p].Fin? && 0 < dist[p].n <= maxRange ==>
      PayoffOf(g.dims, dist, values, rate, maxRange, p) >= PayoffOf(g.dims, dist, values, rate, maxRange, PrevOf(g.dims, dist, p))
    decreases if dist[p].Fin? then dist[p].n else 0
  {
    if dist[p].Fin? && dist[p].n <= maxRange {
      DiscountProperties(values[p], dist[p].n, dist[p].n, rate);
      if dist[p].n > 0 {
        PayoffStep(g, dist, parent, values, rate, maxRange, p);
        PayoffGrows(g, dist, parent, values, rate, maxRange, PrevOf(g.dims, dist, p));
      }
    }
  }

  /** The value collected along `path`, the `i`-th cell reached after `i + 1` moves. */
  ghost function PathValue(values: map<Vec, real>, rate: real, path: seq<Vec>): real
    requires rate > 0.0 && forall p :: p in path ==> p in values
    decreases |path|
  {
    if path == [] then 0.0
    else PathValue(values, rate, path[..|path| - 1]) + Discount(values[path[|path| - 1]], |path|, rate)
  }

  /** Within range and away from the source, a payoff is the cell's discounted value plus the
      payoff of the cell, one cheaper, that it steps back to. */
  lemma PayoffStep(g: Graph, dist: map<Vec, Cost>, parent: map<Vec, Vec>, values: map<Vec, real>,
                   rate: real, maxRange: int, t: Vec)
    requires Distances(g, dist, parent) && values.Keys == Cells(g.dims) && rate > 0.0 && t in dist
    requires dist[t].Fin? && 0 < dist[t].n <= maxRange
    ensures dist[PrevOf(g.dims, dist, t)] == Fin(dist[t].n - 1)
    ensures PayoffOf(g.dims, dist, values, rate, maxRange, t) ==
      Discount(values[t], dist[t].n, rate) + PayoffOf(g.dims, dist, values, rate, maxRange, PrevOf(g.dims, dist, t))
  {
    PrevOfReached(g, dist, parent, t);
  }

  /** Dropping the last cell of a chain leaves a chain that ends where the last cell steps back to. */
  lemma ChainsBackInit(g: Graph, dist: map<Vec, Cost>, path: seq<Vec>)
    requires dist.Keys == Cells(g.dims) && ChainsBack(g, dist, path) && |path| > 1
    ensures ChainsBack(g, dist, path[..|path| - 1])
    ensures StepsBack(g, dist, path[|path| - 2], path[|path| - 1])
  {
    var init := path[..|path| - 1];
    assert StepsBack(g, dist, path[|path| - 2], path[|path| - 1]);
    forall i | 0 < i < |init| ensures StepsBack(g, dist, init[i - 1], init[i]) {
      assert init[i - 1] == path[i - 1] && init[i] == path[i];
    }
  }

  /** The payoff of a target is the source's value plus the value collected along the walk
      that `pathTo` returns for it: the cells it chains back through, each discounted by the
      moves taken to reach it. */
  lemma {:induction false} PayoffAlongPath(g: Graph, dist: map<Vec, Cost>, parent: map<Vec, Vec>, values: map<Vec, real>,
                                           rate: real, maxRange: int, path: seq<Vec>)
    requires Distances(g, dist, parent) && values.Keys == Cells(g.dims) && rate > 0.0
    requires ChainsBack(g, dist, path) && path != [] && path[|path| - 1] in dist
    requires dist[path[|path| - 1]] == Fin(|path|) && |path| <= maxRange
    requires forall p :: p in path ==> p in values
    ensures PayoffOf(g.dims, dist, values, rate, maxRange, path[|path| - 1]) == Discount(values[g.from], 0, rate) + PathValue(values, rate, path)
    decreases |path|
  {
    var n := |path|;
    var t := path[n - 1];
    PayoffStep(g, dist, parent, values, rate, maxRange, t);
    var q := PrevOf(g.dims, dist, t);
    assert PathValue(values, rate, path) == PathValue(values, rate, path[..n - 1]) + Discount(values[t], n, rate);
    if n == 1 {
      PrevOfReached(g, dist, parent, q);
      assert path[..0] == [];
    } else {
      ChainsBackInit(g, dist, path);
      PayoffAlongPath(g, dist, parent, values, rate, maxRange, path[..n - 1]);
    }
  }

  /** The payoff grid once the rings of cost below `range`, and the cells of `done` in ring
      `range`, hold their payoff from `pay`; every other cell still holds zero. */
  ghost function Filled(dims: Dims, dist: map<Vec, Cost>, pay: map<Vec, real>, range: int, done: seq<Vec>): (r: map<Vec, real>)
    requires dist.Keys == Cells(dims) && pay.Keys == Cells(dims)
    ensures r.Keys == Cells(dims)
  {
    map p | p in Cells(dims) ::
      if dist[p].Fin? && (dist[p].n < range || (dist[p].n == range && p in done)) then pay[p] else 0.0
  }

  /** Before the first ring every cell holds zero. */
  lemma FilledStart(dims: Dims, dist: map<Vec, Cost>, pay: map<Vec, real>, now: map<Vec, real>)
    requires dist.Keys == Cells(dims) && pay.Keys == Cells(dims)
    requires now.Keys == Cells(dims) && forall p :: p in now ==> now[p] == 0.0
    ensures now == Filled(dims, dist, pay, 0, [])
  {
  }

  /** The recurrence `generate` computes: a cell within range is worth its value discounted by
      its cost, plus (unless it is the source) the payoff of the cell it steps back to. */
  lemma PayoffRecurrence(dims: Dims, dist: map<Vec, Cost>, values: map<Vec, real>, rate: real, maxRange: int, p: Vec)
    requires dist.Keys == Cells(dims) && values.Keys == Cells(dims) && rate > 0.0
    requires p in dist && dist[p].Fin? && dist[p].n <= maxRange
    requires dist[p].n > 0 ==> dist[PrevOf(dims, dist, p)] == Fin(dist[p].n - 1)
    ensures PrevOf(dims, dist, p) in dist
    ensures Payoffs(dims, dist, values, rate, maxRange)[p]
         == Discount(values[p], dist[p].n, rate) + (if dist[p].n == 0 then 0.0 else Payoffs(dims, dist, values, rate, maxRange)[PrevOf(dims, dist, p)])
  {
    AdjacentMembers(p, dims);
  }

  /** Storing at `p`, a cell of ring `range` whose payoff is `d` plus that of the cell `q` it
      steps back to, the value `v`, `d` plus what is stored at `q`, fills in one more cell: `q`
      is either done already (one ring down) or `p` itself, still zero. */
  lemma FillStep(dims: Dims, dist: map<Vec, Cost>, pay: map<Vec, real>, range: nat, done: seq<Vec>,
                 p: Vec, q: Vec, d: real, before: map<Vec, real>, v: real)
    requires dist.Keys == Cells(dims) && pay.Keys == Cells(dims)
    requires p in dist && dist[p] == Fin(range) && p !in done && q in dist
    requires range > 0 ==> dist[q] == Fin(range - 1)
    requires range == 0 ==> q == p
    requires pay[p] == d + (if range == 0 then 0.0 else pay[q])
    requires before == Filled(dims, dist, pay, range, done) && v == d + before[q]
    ensures Filled(dims, dist, pay, range, done + [p]) == before[p := v]
  {
    assert before[q] == if range == 0 then 0.0 else pay[q];
    assert forall x :: x in done + [p] <==> x in done || x == p;
  }

  /** `pay` follows the recurrence `generate` computes at every cell within range, each such
      cell stepping back one ring (or, on ring zero, to itself). */
  ghost predicate Recurs(dims: Dims, dist: map<Vec, Cost>, values: map<Vec, real>, rate: real, maxRange: int, pay: map<Vec, real>)
    requires dist.Keys == Cells(dims) && values.Keys == Cells(dims) && rate > 0.0
  {
    && pay.Keys == Cells(dims)
    && forall p {:trigger PrevOf(dims, dist, p)} :: p in dist && dist[p].Fin? && dist[p].n <= maxRange ==>
      && PrevOf(dims, dist, p) in dist && PrevOf(dims, dist, p) in pay
      && (dist[p].n > 0 ==> dist[PrevOf(dims, dist, p)] == Fin(dist[p].n - 1))
      && (dist[p].n == 0 ==> PrevOf(dims, dist, p) == p)
      && pay[p] == Discount(values[p], dist[p].n, rate) + (if dist[p].n == 0 then 0.0 else pay[PrevOf(dims, dist, p)])
  }

  /** On a cost map that steps back everywhere, the payoffs follow the recurrence. */
  lemma PayoffsRecur(dims: Dims, dist: map<Vec, Cost>, values: map<Vec, real>, rate: real, maxRange: int)
    requires dist.Keys == Cells(dims) && values.Keys == Cells(dims) && rate > 0.0 && StepsBackAll(dims, dist)
    ensures Recurs(dims, dist, values, rate, maxRange, Payoffs(dims, dist, values, rate, maxRange))
  {
    forall p | p in dist && dist[p].Fin? && dist[p].n <= maxRange
      ensures PrevOf(dims, dist, p) in dist && PrevOf(dims, dist, p) in Payoffs(dims, dist, values, rate, maxRange)
      ensures dist[p].n > 0 ==> dist[PrevOf(dims, dist, p)] == Fin(dist[p].n - 1)
      ensures dist[p].n == 0 ==> PrevOf(dims, dist, p) == p
      ensures Payoffs(dims, dist, values, rate, maxRange)[p] == Discount(values[p], dist[p].n, rate) +
        (if dist[p].n == 0 then 0.0 else Payoffs(dims, dist, values, rate, maxRange)[PrevOf(dims, dist, p)])
    {
      StepBackAt(dims, dist, p);
      PayoffRecurrence(dims, dist, values, rate, maxRange, p);
    }
  }

  /** The recurrence at `p`: its payoff is `d` plus that of `q`, unless it is on ring zero. */
  lemma PayAt(dims: Dims, dist: map<Vec, Cost>, values: map<Vec, real>, rate: real, maxRange: int, pay: map<Vec, real>,
              p: Vec, range: nat, q: Vec, d: real)
    requires dist.Keys == Cells(dims) && values.Keys == Cells(dims) && rate > 0.0
    requires Recurs(dims, dist, values, rate, maxRange, pay)
    requires p in dist && dist[p] == Fin(range) && range <= maxRange
    requires q == PrevOf(dims, dist, p) && d == Discount(values[p], range, rate)
    ensures q in pay && p in pay && pay[p] == d + (if range == 0 then 0.0 else pay[q])
  {
  }

  /** The cell `q` that `p`, a reached cell of ring `range`, steps back to is one ring down,
      or `p` itself on ring zero. */
  lemma RingStep(dims: Dims, dist: map<Vec, Cost>, values: map<Vec, real>, rate: real, maxRange: int, pay: map<Vec, real>,
                 p: Vec, range: nat, q: Vec)
    requires dist.Keys == Cells(dims) && values.Keys == Cells(dims) && rate > 0.0
    requires Recurs(dims, dist, values, rate, maxRange, pay)
    requires p in dist && dist[p] == Fin(range) && range <= maxRange
    requires q == PrevOf(dims, dist, p)
    ensures q in dist && (range > 0 ==> dist[q] == Fin(range - 1)) && (range == 0 ==> q == p)
  {
  }

  /** Once ring `range` is done, the next ring starts. */
  lemma FilledNext(dims: Dims, dist: map<Vec, Cost>, pay: map<Vec, real>, range: nat, done: seq<Vec>)
    requires dist.Keys == Cells(dims) && pay.Keys == Cells(dims)
    requires forall p :: p in dist && dist[p] == Fin(range) ==> p in done
    ensures Filled(dims, dist, pay, range, done) == Filled(dims, dist, pay, range + 1, [])
  {
  }

  /** After the last ring every cell holds its payoff, the cells beyond `maxRange` being zero. */
  lemma FilledAll(dims: Dims, dist: map<Vec, Cost>, values: map<Vec, real>, rate: real, maxRange: int, range: nat)
    requires dist.Keys == Cells(dims) && values.Keys == Cells(dims) && rate > 0.0
    requires forall p :: p in dist && dist[p].Fin? && dist[p].n <= maxRange ==> dist[p].n < range
    ensures Filled(dims, dist, Payoffs(dims, dist, values, rate, maxRange), range, []) == Payoffs(dims, dist, values, rate, maxRange)
  {
  }

  /** The cells of `cells` whose payoff in `g` is positive, each with that payoff, in the
      order of `cells`. */
  ghost function Positive(g: map<Vec, real>, cells: seq<Vec>): seq<TargetCandidate>
    requires forall p :: p in cells ==> p in g
  {
    if cells == [] then []
    else
      var last := cells[|cells| - 1];
      Positive(g, cells[..|cells| - 1]) + (if g[last] > 0.0 then [TargetCandidate(last, g[last])] else [])
  }

  /** Every candidate drawn from `cells` is one of them, with its payoff, which is positive. */
  lemma {:induction false} PositiveSound(g: map<Vec, real>, cells: seq<Vec>)
    requires forall p :: p in cells ==> p in g
    ensures forall i :: 0 <= i < |Positive(g, cells)| ==>
      var c := Positive(g, cells)[i]; c.target in cells && c.payoff == g[c.target] > 0.0
  {
    if cells != [] {
      var init := cells[..|cells| - 1];
      assert cells == init + [cells[|cells| - 1]];
      PositiveSound(g, init);
    }
  }

  /** Every cell of `cells` with a positive payoff is drawn as a candidate. */
  lemma {:induction false} PositiveComplete(g: map<Vec, real>, cells: seq<Vec>)
    requires forall p :: p in cells ==> p in g
    ensures forall p :: p in cells && g[p] > 0.0 ==> exists i :: 0 <= i < |Positive(g, cells)| && Positive(g, cells)[i].target == p
  {
    if cells != [] {
      var init := cells[..|cells| - 1];
      var last := cells[|cells| - 1];
      assert cells == init + [last];
      PositiveComplete(g, init);
      var r := Positive(g, init);
      assert Positive(g, cells) == r + (if g[last] > 0.0 then [TargetCandidate(last, g[last])] else []);
      forall p | p in cells && g[p] > 0.0
        ensures exists i :: 0 <= i < |Positive(g, cells)| && Positive(g, cells)[i].target == p
      {
        if p != last {
          var i :| 0 <= i < |r| && r[i].target == p;
          assert Positive(g, cells)[i] == r[i];
        } else {
          assert Positive(g, cells)[|r|].target == p;
        }
      }
    }
  }

  /** The candidates drawn from a row-major run of cells keep its row-major order. */
  lemma {:induction false} PositiveOrdered(g: map<Vec, real>, cells: seq<Vec>)
    requires forall p :: p in cells ==> p in g
    requires RowMajor(cells)
    ensures forall i, j :: 0 <= i < j < |Positive(g, cells)| ==> Before(Positive(g, cells)[i].target, Positive(g, cells)[j].target)
  {
    if cells != [] {
      var init := cells[..|cells| - 1];
      var last := cells[|cells| - 1];
      assert cells == init + [last];
      assert RowMajor(init);
      PositiveOrdered(g, init);
      PositiveSound(g, init);
      var r := Positive(g, init);
      forall i | 0 <= i < |r| ensures Before(r[i].target, last) {
        var m :| 0 <= m < |init| && init[m] == r[i].target;
      }
    }
  }

  /** The candidates drawn from a row-major run of cells are exactly its cells of positive
      payoff, with their payoffs, still in row-major order; each comes before any later cell. */
  lemma PositiveMembers(g: map<Vec, real>, cells: seq<Vec>)
    requires forall p :: p in cells ==> p in g
    requires RowMajor(cells)
    ensures forall i :: 0 <= i < |Positive(g, cells)| ==>
      var c := Positive(g, cells)[i]; c.target in cells && c.payoff == g[c.target] > 0.0
    ensures forall p :: p in cells && g[p] > 0.0 ==> exists i :: 0 <= i < |Positive(g, cells)| && Positive(g, cells)[i].target == p
    ensures forall i, j :: 0 <= i < j < |Positive(g, cells)| ==> Before(Positive(g, cells)[i].target, Positive(g, cells)[j].target)
  {
    PositiveSound(g, cells);
    PositiveComplete(g, cells);
    PositiveOrdered(g, cells);
  }

  /** `PayoffMap`: the payoff of each cell, indexed `[y, x]`. */
  class PayoffMap {
    const bounds: Dims
    const payoffs: array2<real>

    ghost predicate Valid()
      reads this
    {
      payoffs.Length0 == bounds.height && payoffs.Length1 == bounds.width
    }

    constructor (bounds: Dims, payoffs: array2<real>)
      requires payoffs.Length0 == bounds.height && payoffs.Length1 == bounds.width
      ensures this.bounds == bounds && this.payoffs == payoffs && Valid()
    {
      this.bounds := bounds;
      this.payoffs := payoffs;
    }

    /** `generate`: ring by ring in increasing cost up to the search range, each cell's payoff
        is its discounted value plus the payoff stored at the cell it steps back to. */
    static method Generate(beliefs: Beliefs, valueMap: ValueMap, pathMap: PathMap, params: AgentParams) returns (r: PayoffMap)
      requires pathMap.Valid() && pathMap.bounds == beliefs.Bounds()
      requires valueMap.values.Length0 == beliefs.height && valueMap.values.Length1 == beliefs.width
      requires params.discountRate > 0.0
      ensures fresh(r) && fresh(r.payoffs) && r.Valid() && r.bounds == beliefs.Bounds()
      ensures Grid(r.payoffs) == Payoffs(r.bounds, pathMap.dist, Grid(valueMap.values), params.discountRate, params.searchRange)
    {
      var bounds := beliefs.Bounds();
      var payoffMap := Collections.Create2D(beliefs.width, beliefs.height, 0.0);
      GridAt(payoffMap);
      ghost var pay := Payoffs(bounds, pathMap.dist, Grid(valueMap.values), params.discountRate, params.searchRange);
      FilledStart(bounds, pathMap.dist, pay, Grid(payoffMap));
      ValidStepsBack(pathMap);
      PayoffsRecur(bounds, pathMap.dist, Grid(valueMap.values), params.discountRate, params.searchRange);
      var isochrones := Rings(pathMap, params.searchRange);
      for range := 0 to |isochrones|
        invariant Grid(payoffMap) == Filled(bounds, pathMap.dist, pay, range, [])
      {
        FillRing(pathMap, valueMap, payoffMap, isochrones[range].value, range, params.discountRate, params.searchRange,
                 Grid(valueMap.values), pay);
      }
      FilledAll(bounds, pathMap.dist, Grid(valueMap.values), params.discountRate, params.searchRange, |isochrones|);
      r := new PayoffMap(bounds, payoffMap);
    }

    /** `pathMap.isochrones(maxRange)`, with no bucket missing. */
    static method Rings(pathMap: PathMap, maxRange: int) returns (rings: seq<Option<seq<Vec>>>)
      requires pathMap.Valid()
      ensures forall k :: 0 <= k < |rings| ==> rings[k].Some? && k <= maxRange
      ensures forall k :: 0 <= k < |rings| ==>
        && RowMajor(rings[k].value)
        && forall p :: p in rings[k].value <==> p in pathMap.dist && pathMap.dist[p] == Fin(k)
      ensures forall p :: p in pathMap.dist && pathMap.dist[p].Fin? && pathMap.dist[p].n <= maxRange ==> pathMap.dist[p].n < |rings|
    {
      rings := pathMap.Isochrones(maxRange);
      forall k | 0 <= k < |rings|
        ensures RowMajor(rings[k].value) && forall p :: p in rings[k].value <==> p in pathMap.dist && pathMap.dist[p] == Fin(k)
      {
        assert BucketHolds(pathMap.dist, pathMap.dist.Keys, rings, k);
      }
    }

    /** One pass of `generate`'s outer loop: every cell of ring `range`, in row-major order. */
    static method FillRing(pathMap: PathMap, valueMap: ValueMap, payoffMap: array2<real>, isochrone: seq<Vec>,
                           range: nat, rate: real, maxRange: int, ghost values: map<Vec, real>, ghost pay: map<Vec, real>)
      requires pathMap.Mirrors() && rate > 0.0 && range <= maxRange
      requires payoffMap.Length0 == pathMap.bounds.height && payoffMap.Length1 == pathMap.bounds.width
      requires valueMap.values.Length0 == pathMap.bounds.height && valueMap.values.Length1 == pathMap.bounds.width
      requires payoffMap != valueMap.values && values == Grid(valueMap.values)
      requires Recurs(pathMap.bounds, pathMap.dist, values, rate, maxRange, pay)
      requires RowMajor(isochrone) && forall p :: p in isochrone <==> p in pathMap.dist && pathMap.dist[p] == Fin(range)
      requires Grid(payoffMap) == Filled(pathMap.bounds, pathMap.dist, pay, range, [])
      modifies payoffMap
      ensures Grid(payoffMap) == Filled(pathMap.bounds, pathMap.dist, pay, range + 1, [])
    {
      for j := 0 to |isochrone|
        invariant values == Grid(valueMap.values)
        invariant Grid(payoffMap) == Filled(pathMap.bounds, pathMap.dist, pay, range, isochrone[..j])
      {
        assert isochrone[..j + 1] == isochrone[..j] + [isochrone[j]];
        RowMajorFresh(isochrone, j);
        label BeforeCell:
        ghost var q, d;
        var payoff;
        q, d, payoff := FillNext(pathMap, valueMap, payoffMap, isochrone[j], range, rate, maxRange, pathMap.dist, values, pay);
        FillStep(pathMap.bounds, pathMap.dist, pay, range, isochrone[..j], isochrone[j], q, d, old@BeforeCell(Grid(payoffMap)), payoff);
      }
      assert isochrone[..|isochrone|] == isochrone;
      FilledNext(pathMap.bounds, pathMap.dist, pay, range, isochrone);
    }

    /** One pass of `generate`'s inner loop: `current`, a cell of ring `range`, gets `d` plus
        what is stored at `q`, where its payoff is `d` plus that of `q`, the cell it steps back
        to (one ring down, or itself for the source). */
    static method FillNext(pathMap: PathMap, valueMap: ValueMap, payoffMap: array2<real>, current: Vec,
                           range: nat, rate: real, maxRange: int,
                           ghost dist: map<Vec, Cost>, ghost values: map<Vec, real>, ghost pay: map<Vec, real>)
      returns (ghost q: Vec, ghost d: real, payoff: real)
      requires pathMap.Mirrors() && rate > 0.0 && range <= maxRange
      requires payoffMap.Length0 == pathMap.bounds.height && payoffMap.Length1 == pathMap.bounds.width
      requires valueMap.values.Length0 == pathMap.bounds.height && valueMap.values.Length1 == pathMap.bounds.width
      requires payoffMap != valueMap.values && dist == pathMap.dist && values == Grid(valueMap.values)
      requires Recurs(pathMap.bounds, dist, values, rate, maxRange, pay)
      requires current in dist && dist[current] == Fin(range)
      modifies payoffMap
      ensures q in dist && (range > 0 ==> dist[q] == Fin(range - 1)) && (range == 0 ==> q == current)
      ensures q in pay && current in pay && pay[current] == d + (if range == 0 then 0.0 else pay[q])
      ensures q in old(Grid(payoffMap)) && payoff == d + old(Grid(payoffMap))[q]
      ensures Grid(payoffMap) == old(Grid(payoffMap))[current := payoff]
    {
      q := PrevOf(pathMap.bounds, dist, current);
      d := Discount(values[current], range, rate);
      RingStep(pathMap.bounds, dist, values, rate, maxRange, pay, current, range, q);
      PayAt(pathMap.bounds, dist, values, rate, maxRange, pay, current, range, q, d);
      payoff := FillCell(pathMap, valueMap, payoffMap, current, range, rate, q, d);
    }

    /** One pass of `generate`'s inner loop: `current` gets its discounted value `d` plus what
        is stored at `q`, its previous neighbour; nothing else changes. */
    static method FillCell(pathMap: PathMap, valueMap: ValueMap, payoffMap: array2<real>, current: Vec,
                           range: nat, rate: real, ghost q: Vec, ghost d: real) returns (payoff: real)
      requires pathMap.Mirrors() && rate > 0.0 && WithinBounds(current, pathMap.bounds)
      requires payoffMap.Length0 == pathMap.bounds.height && payoffMap.Length1 == pathMap.bounds.width
      requires valueMap.values.Length0 == pathMap.bounds.height && valueMap.values.Length1 == pathMap.bounds.width
      requires payoffMap != valueMap.values
      requires q == PrevOf(pathMap.bounds, pathMap.dist, current)
      requires d == Discount(Grid(valueMap.values)[current], range, rate)
      modifies payoffMap
      ensures q in old(Grid(payoffMap)) && payoff == d + old(Grid(payoffMap))[q]
      ensures Grid(payoffMap) == old(Grid(payoffMap))[current := payoff]
    {
      payoff := CellPayoff(pathMap, valueMap, payoffMap, current, range, rate);
      Put(payoffMap, current, payoff);
    }

    /** The payoff the inner loop stores at `current`: its discounted value plus what is stored
        at its previous neighbour. */
    static method CellPayoff(pathMap: PathMap, valueMap: ValueMap, payoffMap: array2<real>, current: Vec,
                             range: nat, rate: real) returns (payoff: real)
      requires pathMap.Mirrors() && rate > 0.0 && WithinBounds(current, pathMap.bounds)
      requires payoffMap.Length0 == pathMap.bounds.height && payoffMap.Length1 == pathMap.bounds.width
      requires valueMap.values.Length0 == pathMap.bounds.height && valueMap.values.Length1 == pathMap.bounds.width
      ensures PrevOf(pathMap.bounds, pathMap.dist, current) in Grid(payoffMap)
      ensures payoff == Discount(Grid(valueMap.values)[current], range, rate) +
        Grid(payoffMap)[PrevOf(pathMap.bounds, pathMap.dist, current)]
    {
      var previous := pathMap.PreviousNeighbour(current);
      AdjacentMembers(current, pathMap.bounds);
      GridAt(payoffMap);
      var previousPayoff := if previous.Some? then payoffMap[previous.value.y, previous.value.x] else 0.0;
      var currentPayoff := Discount(valueMap.Value(current), range, rate);
      payoff := currentPayoff + previousPayoff;
    }

    /** `clone`: a fresh grid with the same payoffs. */
    method Clone() returns (r: PayoffMap)
      requires Valid()
      ensures fresh(r) && fresh(r.payoffs) && r.Valid() && r.bounds == bounds
      ensures Grid(r.payoffs) == Grid(payoffs)
    {
      var copy := Collections.Clone2D(payoffs);
      GridAt(copy);
      GridAt(payoffs);
      r := new PayoffMap(bounds, copy);
    }

    /** `payoff`: the payoff of the cell `pos`. */
    function Payoff(pos: Vec): (v: real)
      reads this, payoffs
      requires Valid() && WithinBounds(pos, bounds)
      ensures v == Grid(payoffs)[pos]
    {
      payoffs[pos.y, pos.x]
    }

    /** `candidates`: every cell of positive payoff, once each, in row-major order. */
    method Candidates() returns (r: seq<TargetCandidate>)
      requires Valid()
      ensures forall i :: 0 <= i < |r| ==> WithinBounds(r[i].target, bounds) && r[i].payoff == Grid(payoffs)[r[i].target] > 0.0
      ensures forall p :: WithinBounds(p, bounds) && Grid(payoffs)[p] > 0.0 ==> exists i :: 0 <= i < |r| && r[i].target == p
      ensures forall i, j :: 0 <= i < j < |r| ==> Before(r[i].target, r[j].target)
    {
      var all := All(bounds);
      GridAt(payoffs);
      ghost var g := Grid(payoffs);
      assert forall p :: p in all ==> p in g;
      r := [];
      for k := 0 to |all|
        invariant r == Positive(g, all[..k])
      {
        var target := all[k];
        assert target in all;
        var payoff := payoffs[target.y, target.x];
        assert all[..k + 1] == all[..k] + [target];
        if payoff > 0.0 {
          r := r + [TargetCandidate(target, payoff)];
        }
      }
      assert all[..|all|] == all;
      PositiveMembers(g, all);
    }
  }

  /** A candidate target lies within the search range of the pac: a cell it cannot reach, or
      reaches only in more moves than the range, has no payoff. */
  lemma CandidateWithinRange(dims: Dims, dist: map<Vec, Cost>, values: map<Vec, real>, rate: real, maxRange: int, p: Vec)
    requires dist.Keys == Cells(dims) && values.Keys == Cells(dims) && rate > 0.0 && p in dist
    requires Payoffs(dims, dist, values, rate, maxRange)[p] > 0.0
    ensures dist[p].Fin? && dist[p].n <= maxRange
  {
  }
}
