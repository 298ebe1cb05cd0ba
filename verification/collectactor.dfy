/** The collecting planner. Until the move deadline it plans over and over: each own pac, in a
    random order, walks towards the cell of greatest payoff given the choices of the pacs
    before it, which clear the pellets on their paths and block their first steps. The plan of
    greatest total payoff is kept. */
module Collecting {
  import opened Wrappers
  import opened Traverse
  import opened Model
  import opened PacBeliefs
  import opened AgentHelper
  import opened PathMaps
  import opened AgentBeliefs
  import opened Occupants
  import opened Values
  import opened Payoffs
  import Collections

  /** One plan: a move for some of the pacs, and the payoff the moves are expected to collect. */
  datatype CollectCandidate = CollectCandidate(moves: seq<Action>, payoff: real)

  /** The direction, one step on each axis at most, from `from` towards `p`. */
  function Heading(from: Vec, p: Vec): (r: Vec)
    ensures -1 <= r.x <= 1 && -1 <= r.y <= 1
    ensures r == Vec(0, 0) <==> p == from
  {
    Unit(Sub(p, from))
  }

  /** `path[..k + 1]` is the longest start of `path` whose cells all lie in the heading of the
      first one, seen from `from`. */
  predicate StraightTo(from: Vec, path: seq<Vec>, k: int) {
    && 0 <= k < |path|
    && (forall i :: 0 <= i <= k ==> Heading(from, path[i]) == Heading(from, path[0]))
    && (k + 1 < |path| ==> Heading(from, path[k + 1]) != Heading(from, path[0]))
  }

  /** Only one start of a path is the longest in one heading. */
  lemma StraightToUnique(from: Vec, path: seq<Vec>, k1: int, k2: int)
    requires StraightTo(from, path, k1) && StraightTo(from, path, k2)
    ensures k1 == k2
  {
  }

  /** A candidate's payoff as `maxBy` compares it. */
  function PayoffNumber(c: TargetCandidate): Collections.Number {
    Collections.Real(c.payoff)
  }

  /** The candidate `maxBy` picks out of a list in row-major order: no candidate pays more,
      and every candidate before it pays strictly less. */
  lemma FirstMaxCandidate(candidates: seq<TargetCandidate>, k: int)
    requires forall i, j :: 0 <= i < j < |candidates| ==> Before(candidates[i].target, candidates[j].target)
    requires Collections.IsFirstMax(Collections.Map(candidates, PayoffNumber), k)
    ensures forall i :: 0 <= i < |candidates| ==> candidates[i].payoff <= candidates[k].payoff
    ensures forall i :: 0 <= i < |candidates| && Before(candidates[i].target, candidates[k].target) ==>
      candidates[i].payoff < candidates[k].payoff
  {
    var values := Collections.Map(candidates, PayoffNumber);
    forall i | 0 <= i < |candidates|
      ensures candidates[i].payoff <= candidates[k].payoff
      ensures Before(candidates[i].target, candidates[k].target) ==> candidates[i].payoff < candidates[k].payoff
    {
      assert values[i] == Collections.Real(candidates[i].payoff) && values[k] == Collections.Real(candidates[k].payoff);
      if Before(candidates[i].target, candidates[k].target) {
        assert i < k;
      }
    }
  }

  /** No two pacs share an id. */
  predicate UniqueIds(pacs: seq<Pac>) {
    forall i, j :: 0 <= i < j < |pacs| ==> pacs[i].id != pacs[j].id
  }

  /** Shuffling pacs of distinct ids keeps their ids distinct. */
  lemma ShuffledIdsUnique(pacs: seq<Pac>, order: seq<Pac>)
    requires multiset(order) == multiset(pacs) && UniqueIds(pacs)
    ensures UniqueIds(order)
  {
    assert Collections.Distinct(pacs);
    Collections.PermutationKeepsDistinct(pacs, order);
    forall i, j | 0 <= i < j < |order| ensures order[i].id != order[j].id {
      assert order[i] in multiset(pacs) && order[j] in multiset(pacs);
      var a :| 0 <= a < |pacs| && pacs[a] == order[i];
      var b :| 0 <= b < |pacs| && pacs[b] == order[j];
    }
  }

  /** `actions` after `actions.set(Pac.key(Self, move.pac), move)` for each move in turn. */
  function Stored(actions: map<string, Action>, moves: seq<Action>): map<string, Action>
    decreases |moves|
  {
    if moves == [] then actions
    else
      var last := moves[|moves| - 1];
      Stored(actions, moves[..|moves| - 1])[KeyOf(Self, last.pac) := last]
  }

  /** Storing moves keeps every action under a key no move is stored under, and stores under
      each other key one of the moves, for the pac that key names. */
  lemma {:induction false} StoredActions(actions: map<string, Action>, moves: seq<Action>)
    ensures Stored(actions, moves).Keys == actions.Keys + set m | m in moves :: KeyOf(Self, m.pac)
    ensures forall k :: k in actions && (forall m :: m in moves ==> KeyOf(Self, m.pac) != k) ==>
      Stored(actions, moves)[k] == actions[k]
    ensures forall m :: m in moves ==>
      var a := Stored(actions, moves)[KeyOf(Self, m.pac)]; a in moves && a.pac == m.pac
    decreases |moves|
  {
    if moves != [] {
      var init := moves[..|moves| - 1];
      var last := moves[|moves| - 1];
      assert moves == init + [last];
      StoredActions(actions, init);
      forall m | m in moves
        ensures var a := Stored(actions, moves)[KeyOf(Self, m.pac)]; a in moves && a.pac == m.pac
      {
        if KeyOf(Self, m.pac) != KeyOf(Self, last.pac) {
          assert m in init;
        } else {
          KeyOfInjective(Self, m.pac, Self, last.pac);
        }
      }
    }
  }

  /** The moves of a plan are for distinct pacs of `pacs` when those have distinct ids, at most
      one for each. */
  predicate FromPacs(moves: seq<Action>, pacs: seq<Pac>) {
    && |moves| <= |pacs|
    && (forall m :: m in moves ==> exists p :: p in pacs && p.id == m.pac)
    && (UniqueIds(pacs) ==> forall i, j :: 0 <= i < j < |moves| ==> moves[i].pac != moves[j].pac)
  }

  /** What one plan promises about its moves: at most one per pac, each a plain move for one
      of `pacs` to a cell of the grid, and a positive total payoff exactly when it moves. */
  predicate Planned(c: CollectCandidate, pacs: seq<Pac>, bounds: Dims) {
    && c.payoff >= 0.0
    && (c.payoff > 0.0 <==> c.moves != [])
    && (forall m :: m in c.moves ==> m.intent.Move? && m.tag.None? && WithinBounds(m.intent.target, bounds))
    && FromPacs(c.moves, pacs)
  }

  /** One more pass of `chooseOne`'s loop, for `p`: a plan of the pacs before it stays a plan
      when `p` stays put, and becomes one with `p`'s move and payoff added when it moves. */
  lemma PlannedSnoc(c: CollectCandidate, pacs: seq<Pac>, bounds: Dims, p: Pac, move: Option<Action>, payoff: real)
    requires Planned(c, pacs, bounds)
    requires move.Some? ==>
      && payoff > 0.0 && move.value.pac == p.id && move.value.intent.Move? && move.value.tag.None?
      && WithinBounds(move.value.intent.target, bounds)
    ensures move.None? ==> Planned(c, pacs + [p], bounds)
    ensures move.Some? ==> Planned(CollectCandidate(c.moves + [move.value], c.payoff + payoff), pacs + [p], bounds)
  {
    var all := pacs + [p];
    forall m | m in c.moves ensures exists q :: q in all && q.id == m.pac {
      var q :| q in pacs && q.id == m.pac;
      assert q in all;
    }
    if move.Some? {
      var moves := c.moves + [move.value];
      assert p in all;
      if UniqueIds(all) {
        assert UniqueIds(pacs) by {
          forall i, j | 0 <= i < j < |pacs| ensures pacs[i].id != pacs[j].id {
            assert pacs[i] == all[i] && pacs[j] == all[j];
          }
        }
        forall i | 0 <= i < |c.moves| ensures moves[i].pac != moves[|c.moves|].pac {
          assert c.moves[i] in c.moves;
          var q :| q in pacs && q.id == c.moves[i].pac;
          var a :| 0 <= a < |pacs| && pacs[a] == q;
          assert all[a] == q && all[|pacs|] == p;
        }
      }
    } else if UniqueIds(all) {
      assert UniqueIds(pacs) by {
        forall i, j | 0 <= i < j < |pacs| ensures pacs[i].id != pacs[j].id {
          assert pacs[i] == all[i] && pacs[j] == all[j];
        }
      }
    }
  }

  /** `dist` and `parent` are a correct cost map from `from` through the cells `passable`
      lets a pac enter (when `from` is on the grid), and no cell's payoff over `values` is
      above `best`. */
  ghost predicate Searched(dims: Dims, from: Vec, passable: Vec -> bool, values: map<Vec, real>, rate: real, range: int,
                           dist: map<Vec, Cost>, parent: map<Vec, Vec>, best: real)
  {
    && dist.Keys == Cells(dims) && values.Keys == Cells(dims) && rate > 0.0
    && (WithinBounds(from, dims) ==> Distances(Graph(dims, from, passable), dist, parent))
    && forall q :: WithinBounds(q, dims) ==> Payoffs.Payoffs(dims, dist, values, rate, range)[q] <= best
  }

  /** `path` is a route `pathTo` gives from the pac's cell `g.from` to a reachable target: the
      pac's own cell alone when that is the target, otherwise a shortest walk from it, the pac's
      cell left out, so that `path[0]` is the pac's first step. */
  ghost predicate Walks(g: Graph, dist: map<Vec, Cost>, path: seq<Vec>)
    requires dist.Keys == Cells(g.dims)
  {
    && path != []
    && (|| path == [g.from]
        || (IsWalk(g, [g.from] + path) && IsShortest(g, path[|path| - 1], |path|) && ChainsBack(g, dist, path)))
  }

  /** `target` is the cell `maxBy` picks from the candidates of `payoffs`, which run in
      row-major order: its payoff is positive, no cell's is larger, and every cell before it
      has a strictly smaller one. */
  ghost predicate FirstBest(dims: Dims, payoffs: map<Vec, real>, target: Vec) {
    && WithinBounds(target, dims) && target in payoffs && payoffs[target] > 0.0
    && forall q :: q in payoffs && WithinBounds(q, dims) ==>
         && payoffs[q] <= payoffs[target]
         && (Before(q, target) ==> payoffs[q] < payoffs[target])
  }

  /** The tie-break settles the choice: at most one cell is the first best. */
  lemma FirstBestUnique(dims: Dims, payoffs: map<Vec, real>, a: Vec, b: Vec)
    requires FirstBest(dims, payoffs, a) && FirstBest(dims, payoffs, b)
    ensures a == b
  {
  }

  /** `CollectActor`: plans collecting moves from the maps made when it is created. */
  class CollectActor {
    const beliefs: Beliefs
    const params: AgentParams
    /** The clock reading when the turn started. */
    const start: int
    const initialOccupants: OccupantMap
    const initialValueMap: ValueMap

    ghost predicate Valid()
      reads this, beliefs, beliefs.teams, initialOccupants, initialValueMap
    {
      && beliefs.Valid()
      && initialOccupants.Valid() && initialOccupants.bounds == beliefs.Bounds()
      && initialValueMap.values.Length0 == beliefs.height && initialValueMap.values.Length1 == beliefs.width
      && params.discountRate > 0.0
    }

    /** The occupant map and the value map of the beliefs as they are now. */
    constructor (beliefs: Beliefs, params: AgentParams, start: int)
      requires beliefs.Valid() && params.discountRate > 0.0
      requires forall q :: q in Present(beliefs.pacs, beliefs.tick) ==> WithinBounds(q.pos, beliefs.Bounds())
      ensures Valid()
      ensures this.beliefs == beliefs && this.params == params && this.start == start
      ensures fresh(initialOccupants) && fresh(initialOccupants.occupants)
      ensures fresh(initialValueMap) && fresh(initialValueMap.values)
      ensures initialOccupants.tick == beliefs.tick && initialOccupants.pacs == beliefs.pacs
      ensures Generated(Grid(beliefs.cells), beliefs.pacs, beliefs.tick, beliefs.Bounds(), Grid(initialOccupants.occupants))
      ensures Grid(initialValueMap.values) == Expected(Grid(beliefs.cells))
    {
      this.beliefs := beliefs;
      this.params := params;
      this.start := start;
      var occupants := OccupantMap.Generate(beliefs);
      var valueMap := ValueMap.Generate(beliefs);
      this.initialOccupants := occupants;
      this.initialValueMap := valueMap;
    }

    /** `choose`: plans again and again until the clock, read after each plan, shows the move
        timeout has passed; keeps the first plan of greatest payoff and stores its moves under
        the keys of their pacs. The clock readings are `clock`, the last of them past the
        deadline; `tried` are the plans made and `best` the index of the one kept. */
    method Choose(actions: map<string, Action>, clock: seq<int>)
      returns (r: map<string, Action>, ghost tried: seq<CollectCandidate>, ghost best: nat)
      requires Valid()
      requires |clock| > 0 && clock[|clock| - 1] - start >= params.moveTimeoutMilliseconds
      ensures 0 < |tried| <= |clock| && best < |tried|
      ensures clock[|tried| - 1] - start >= params.moveTimeoutMilliseconds
      ensures forall i :: 0 <= i < |tried| - 1 ==> clock[i] - start < params.moveTimeoutMilliseconds
      ensures forall j :: 0 <= j < best ==> tried[j].payoff < tried[best].payoff
      ensures forall j :: best < j < |tried| ==> tried[j].payoff <= tried[best].payoff
      ensures r == Stored(actions, tried[best].moves)
      ensures forall k :: k in actions ==> k in r && r[k] == actions[k]
      ensures forall k :: k in r && k !in actions ==>
        && r[k].intent.Move? && r[k].tag.None?
        && WithinBounds(r[k].intent.target, beliefs.Bounds())
        && exists p :: p in PacsToControl(beliefs.pacs, actions) && k == Key(p) && r[k].pac == p.id
    {
      var toControl := Collections.ToArray(PacsToControl(beliefs.pacs, actions));
      var bestCandidate;
      bestCandidate, tried, best := Attempts(toControl, clock);
      r := StoreMoves(actions, bestCandidate.moves);
      StoredMoves(actions, toControl, bestCandidate);
    }

    /** The loop of `choose`: a plan, then another as long as the clock reading after the last
        one is before the deadline; the first plan of greatest payoff is kept. */
    method Attempts(pacs: seq<Pac>, clock: seq<int>)
      returns (bestCandidate: CollectCandidate, ghost tried: seq<CollectCandidate>, ghost best: nat)
      requires Valid()
      requires |clock| > 0 && clock[|clock| - 1] - start >= params.moveTimeoutMilliseconds
      ensures 0 < |tried| <= |clock| && best < |tried| && bestCandidate == tried[best]
      ensures clock[|tried| - 1] - start >= params.moveTimeoutMilliseconds
      ensures forall i :: 0 <= i < |tried| - 1 ==> clock[i] - start < params.moveTimeoutMilliseconds
      ensures forall j :: 0 <= j < best ==> tried[j].payoff < tried[best].payoff
      ensures forall j :: best < j < |tried| ==> tried[j].payoff <= tried[best].payoff
      ensures Planned(bestCandidate, pacs, beliefs.Bounds())
    {
      bestCandidate := ChooseOne(pacs);
      tried := [bestCandidate];
      best := 0;
      var iteration := 0;
      while clock[iteration] - start < params.moveTimeoutMilliseconds
        invariant 0 <= iteration < |clock| && |tried| == iteration + 1 && best < |tried|
        invariant forall i :: 0 <= i < iteration ==> clock[i] - start < params.moveTimeoutMilliseconds
        invariant bestCandidate == tried[best]
        invariant forall j :: 0 <= j < best ==> tried[j].payoff < tried[best].payoff
        invariant forall j :: best < j < |tried| ==> tried[j].payoff <= tried[best].payoff
        invariant Planned(bestCandidate, pacs, beliefs.Bounds())
        decreases |clock| - iteration
      {
        var candidate := ChooseOne(pacs);
        if candidate.payoff > bestCandidate.payoff {
          bestCandidate := candidate;
          best := |tried|;
        }
        tried := tried + [candidate];
        iteration := iteration + 1;
      }
    }

    /** Storing the moves of a plan for pacs without an action keeps every existing action. */
    lemma StoredMoves(actions: map<string, Action>, toControl: seq<Pac>, c: CollectCandidate)
      requires forall p :: p in toControl <==> p in PacsToControl(beliefs.pacs, actions)
      requires Planned(c, toControl, beliefs.Bounds())
      ensures forall k :: k in actions ==> k in Stored(actions, c.moves) && Stored(actions, c.moves)[k] == actions[k]
      ensures forall k :: k in Stored(actions, c.moves) && k !in actions ==>
        var a := Stored(actions, c.moves)[k];
        && a.intent.Move? && a.tag.None?
        && WithinBounds(a.intent.target, beliefs.Bounds())
        && exists p :: p in PacsToControl(beliefs.pacs, actions) && k == Key(p) && a.pac == p.id
    {
      var r := Stored(actions, c.moves);
      StoredActions(actions, c.moves);
      forall k | k in actions ensures k in r && r[k] == actions[k] {
        forall m | m in c.moves ensures KeyOf(Self, m.pac) != k {
          var p :| p in toControl && p.id == m.pac;
          assert Key(p) == KeyOf(Self, m.pac);
        }
      }
      forall k | k in r && k !in actions
        ensures
          && r[k].intent.Move? && r[k].tag.None?
          && WithinBounds(r[k].intent.target, beliefs.Bounds())
          && exists p :: p in PacsToControl(beliefs.pacs, actions) && k == Key(p) && r[k].pac == p.id
      {
        var m :| m in c.moves && k == KeyOf(Self, m.pac);
        var p :| p in toControl && p.id == m.pac;
        assert Key(p) == k;
      }
    }

    /** The loop of `choose` that stores each move under its pac's key. */
    static method StoreMoves(actions: map<string, Action>, moves: seq<Action>) returns (r: map<string, Action>)
      ensures r == Stored(actions, moves)
    {
      r := actions;
      for i := 0 to |moves|
        invariant r == Stored(actions, moves[..i])
      {
        assert moves[..i + 1][..i] == moves[..i];
        r := r[KeyOf(Self, moves[i].pac) := moves[i]];
      }
      assert moves[..|moves|] == moves;
    }

    /** `chooseOne`: one plan. The pacs take turns in a random order on copies of the initial
        maps; each that finds a target moves towards it and claims its path. */
    method ChooseOne(pacs: seq<Pac>) returns (c: CollectCandidate)
      requires Valid()
      ensures Planned(c, pacs, beliefs.Bounds())
    {
      var occupants := initialOccupants.Clone();
      var valueMap := initialValueMap.Clone();
      c := CollectCandidate([], 0.0);
      var order := Collections.Shuffle(pacs);
      for i := 0 to |order|
        invariant fresh(occupants.occupants) && fresh(valueMap.values)
        invariant occupants.Valid() && occupants.bounds == beliefs.Bounds()
        invariant valueMap.values.Length0 == beliefs.height && valueMap.values.Length1 == beliefs.width
        invariant Planned(c, order[..i], beliefs.Bounds())
      {
        assert order[..i + 1] == order[..i] + [order[i]];
        c := Turn(order[i], occupants, valueMap, c, order[..i]);
      }
      assert order[..|order|] == order;
      forall m | m in c.moves ensures exists p :: p in pacs && p.id == m.pac {
        var p :| p in order && p.id == m.pac;
        assert p in multiset(pacs);
      }
      if UniqueIds(pacs) {
        ShuffledIdsUnique(pacs, order);
      }
    }

    /** One turn of `chooseOne`'s loop for `pac`: its pass, with the move it makes, if any,
        pushed onto the moves of the plan `c` of the pacs before it and its payoff added. */
    method Turn(pac: Pac, occupants: OccupantMap, valueMap: ValueMap, c: CollectCandidate, ghost before: seq<Pac>)
      returns (next: CollectCandidate)
      requires Valid()
      requires occupants.Valid() && occupants.bounds == beliefs.Bounds()
      requires valueMap.values.Length0 == beliefs.height && valueMap.values.Length1 == beliefs.width
      requires Planned(c, before, beliefs.Bounds())
      modifies occupants.occupants, valueMap.values
      ensures Planned(next, before + [pac], beliefs.Bounds())
      ensures || next == c
              || (&& |next.moves| == |c.moves| + 1 && next.moves[..|c.moves|] == c.moves
                  && next.moves[|c.moves|].pac == pac.id && next.payoff > c.payoff)
    {
      var move, payoff, path;
      ghost var dist, parent;
      move, payoff, path, dist, parent := Pass(pac, occupants, valueMap);
      PlannedSnoc(c, before, beliefs.Bounds(), pac, move, payoff);
      if move.Some? {
        next := CollectCandidate(c.moves + [move.value], c.payoff + payoff);
        assert next.moves[..|c.moves|] == c.moves;
      } else {
        next := c;
      }
    }

    /** One pass of `chooseOne`'s loop for `pac`: when it finds a target it moves towards it,
        the cells of its path are worth nothing more and the first step of the path is
        taken; otherwise nothing changes. */
    method Pass(pac: Pac, occupants: OccupantMap, valueMap: ValueMap)
      returns (move: Option<Action>, payoff: real, path: seq<Vec>, ghost dist: map<Vec, Cost>, ghost parent: map<Vec, Vec>)
      requires Valid()
      requires occupants.Valid() && occupants.bounds == beliefs.Bounds()
      requires valueMap.values.Length0 == beliefs.height && valueMap.values.Length1 == beliefs.width
      modifies occupants.occupants, valueMap.values
      ensures Searched(beliefs.Bounds(), pac.pos, Passability(old(Grid(occupants.occupants)), pac, occupants.pacs, occupants.tick),
                       old(Grid(valueMap.values)), params.discountRate, params.searchRange, dist, parent, payoff)
      ensures move.None? ==> payoff == 0.0 && unchanged(occupants.occupants) && unchanged(valueMap.values)
      ensures move.Some? ==>
        && payoff > 0.0 && move.value.pac == pac.id && move.value.intent.Move? && move.value.tag.None?
        && WithinBounds(move.value.intent.target, beliefs.Bounds())
      ensures move.Some? ==> path != [] && move.value.intent.target in path
      ensures move.Some? ==>
        Walks(Graph(beliefs.Bounds(), pac.pos, Passability(old(Grid(occupants.occupants)), pac, occupants.pacs, occupants.tick)), dist, path)
      ensures move.Some? ==>
        FirstBest(beliefs.Bounds(), Payoffs.Payoffs(beliefs.Bounds(), dist, old(Grid(valueMap.values)), params.discountRate, params.searchRange), path[|path| - 1])
      ensures move.Some? ==> Grid(valueMap.values) == Cleared(old(Grid(valueMap.values)), path)
      ensures move.Some? ==> Grid(occupants.occupants) == old(Grid(occupants.occupants))[path[0] := Some(Key(pac))]
    {
      move, payoff, path, dist, parent := Plan(pac, occupants, valueMap);
      if move.Some? {
        Claim(pac, path, occupants, valueMap);
      }
    }

    /** The end of a pass that found a target: no other pac can go for the pellets on `path`,
        and none can use its first step. */
    static method Claim(pac: Pac, path: seq<Vec>, occupants: OccupantMap, valueMap: ValueMap)
      requires occupants.Valid() && path != []
      requires forall p :: p in path ==> WithinBounds(p, occupants.bounds)
      requires valueMap.values.Length0 == occupants.bounds.height && valueMap.values.Length1 == occupants.bounds.width
      modifies occupants.occupants, valueMap.values
      ensures Grid(valueMap.values) == Cleared(old(Grid(valueMap.values)), path)
      ensures Grid(occupants.occupants) == old(Grid(occupants.occupants))[path[0] := Some(Key(pac))]
    {
      valueMap.Clear(path);
      occupants.Block(path[0], pac);
    }

    /** The choice in one pass of `chooseOne`'s loop for `pac`: the pac's cost map under the
        occupants, its payoff map over the values, and the cell of greatest payoff. When there
        is one, the pac moves along the path to it, as far as the path keeps its first
        heading. `dist` and `parent` are the pac's cost map and predecessors. */
    method Plan(pac: Pac, occupants: OccupantMap, valueMap: ValueMap)
      returns (move: Option<Action>, payoff: real, path: seq<Vec>, ghost dist: map<Vec, Cost>, ghost parent: map<Vec, Vec>)
      requires Valid()
      requires occupants.Valid() && occupants.bounds == beliefs.Bounds()
      requires valueMap.values.Length0 == beliefs.height && valueMap.values.Length1 == beliefs.width
      ensures Searched(beliefs.Bounds(), pac.pos, Passability(Grid(occupants.occupants), pac, occupants.pacs, occupants.tick),
                       Grid(valueMap.values), params.discountRate, params.searchRange, dist, parent, payoff)
      ensures move.None? ==> payoff == 0.0 && path == []
      ensures move.Some? ==> path != [] && forall p :: p in path ==> WithinBounds(p, beliefs.Bounds())
      ensures move.Some? ==>
        Walks(Graph(beliefs.Bounds(), pac.pos, Passability(Grid(occupants.occupants), pac, occupants.pacs, occupants.tick)), dist, path)
      ensures move.Some? ==> payoff > 0.0
      ensures move.Some? ==>
        payoff == Payoffs.Payoffs(beliefs.Bounds(), dist, Grid(valueMap.values), params.discountRate, params.searchRange)[path[|path| - 1]] > 0.0
      ensures move.Some? ==>
        FirstBest(beliefs.Bounds(), Payoffs.Payoffs(beliefs.Bounds(), dist, Grid(valueMap.values), params.discountRate, params.searchRange), path[|path| - 1])
      ensures move.Some? ==>
        && move.value.pac == pac.id && move.value.intent.Move? && move.value.tag.None?
        && exists k :: StraightTo(pac.pos, path, k) && move.value.intent.target == path[k]
    {
      var pathMap, best := BestTarget(pac, occupants, valueMap, Grid(occupants.occupants), Grid(valueMap.values));
      dist := pathMap.dist;
      parent := pathMap.parent;
      if best.None? {
        return None, 0.0, [], dist, parent;
      }
      ghost var payoffs := Payoffs.Payoffs(beliefs.Bounds(), dist, Grid(valueMap.values), params.discountRate, params.searchRange);
      assert payoffs[best.value.target] == best.value.payoff;
      path := Route(pathMap, best.value.target);
      assert payoffs[path[|path| - 1]] == best.value.payoff;
      Payoffs.CandidateWithinRange(beliefs.Bounds(), dist, Grid(valueMap.values), params.discountRate, params.searchRange, best.value.target);
      var target := FindTarget(pac, path);
      move := Some(Action(pac.id, Move(target), None));
      payoff := best.value.payoff;
    }

    /** `pathTo` for a target in the grid: a path inside the grid that ends at the target,
        the target alone when it is unreachable or the source, otherwise a shortest walk from
        the source (left out) that steps one cost down each move back. */
    static method Route(pathMap: PathMap, target: Vec) returns (path: seq<Vec>)
      requires pathMap.Valid() && WithinBounds(target, pathMap.bounds)
      ensures path != [] && path[|path| - 1] == target
      ensures forall p :: p in path ==> WithinBounds(p, pathMap.bounds)
      ensures pathMap.dist[target] == Inf || target == pathMap.from ==> path == [target]
      ensures pathMap.dist[target].Fin? && target != pathMap.from ==>
        && |path| == pathMap.dist[target].n
        && IsWalk(pathMap.G(), [pathMap.from] + path)
        && IsShortest(pathMap.G(), target, |path|)
        && ChainsBack(pathMap.G(), pathMap.dist, path)
    {
      path := pathMap.PathTo(target);
      PathInBounds(pathMap, target, path);
    }

    /** The path `pathTo` returns for a reachable target lies inside the grid and ends there. */
    static lemma PathInBounds(pathMap: PathMap, target: Vec, path: seq<Vec>)
      requires pathMap.Valid() && WithinBounds(target, pathMap.bounds)
      requires pathMap.dist[target] == Inf || target == pathMap.from ==> path == [target]
      requires pathMap.dist[target].Fin? && target != pathMap.from ==>
        |path| > 0 && path[|path| - 1] == target && ChainsBack(pathMap.G(), pathMap.dist, path)
      ensures path != [] && path[|path| - 1] == target
      ensures forall p :: p in path ==> WithinBounds(p, pathMap.bounds)
    {
      if pathMap.dist[target].Fin? && target != pathMap.from {
        ChainInBounds(pathMap.G(), pathMap.dist, path);
      }
    }

    /** The searches behind one pass of `chooseOne`'s loop: the pac's cost map through the
        cells the occupants let it pass, the payoff map it gives over the values, and the
        first candidate of greatest payoff, if any cell has a positive payoff. */
    method BestTarget(pac: Pac, occupants: OccupantMap, valueMap: ValueMap, ghost occupied: map<Vec, Option<string>>, ghost values: map<Vec, real>)
      returns (pathMap: PathMap, best: Option<TargetCandidate>)
      requires Valid()
      requires occupants.Valid() && occupants.bounds == beliefs.Bounds()
      requires valueMap.values.Length0 == beliefs.height && valueMap.values.Length1 == beliefs.width
      requires occupied == Grid(occupants.occupants) && values == Grid(valueMap.values)
      ensures fresh(pathMap) && pathMap.Valid() && pathMap.from == pac.pos && pathMap.bounds == beliefs.Bounds()
      ensures pathMap.passable == Passability(occupied, pac, occupants.pacs, occupants.tick)
      ensures Searched(beliefs.Bounds(), pac.pos, Passability(occupied, pac, occupants.pacs, occupants.tick),
                       values, params.discountRate, params.searchRange, pathMap.dist, pathMap.parent,
                       if best.Some? then best.value.payoff else 0.0)
      ensures best.Some? ==> WithinBounds(best.value.target, beliefs.Bounds())
      ensures best.Some? ==>
        best.value.payoff == Payoffs.Payoffs(beliefs.Bounds(), pathMap.dist, values, params.discountRate, params.searchRange)[best.value.target] > 0.0
      ensures best.Some? ==>
        FirstBest(beliefs.Bounds(), Payoffs.Payoffs(beliefs.Bounds(), pathMap.dist, values, params.discountRate, params.searchRange), best.value.target)
    {
      pathMap := occupants.Pathfind(pac);
      var payoffMap := PayoffMap.Generate(beliefs, valueMap, pathMap, params);
      best := MaxPayoff(payoffMap);
    }

    /** `maxBy` over the candidates of a payoff map: the first cell of greatest payoff, when
        some cell has a positive payoff. */
    static method MaxPayoff(payoffMap: PayoffMap) returns (best: Option<TargetCandidate>)
      requires payoffMap.Valid()
      ensures best.None? ==> forall q :: WithinBounds(q, payoffMap.bounds) ==> Grid(payoffMap.payoffs)[q] <= 0.0
      ensures best.Some? ==> WithinBounds(best.value.target, payoffMap.bounds)
      ensures best.Some? ==> best.value.payoff == Grid(payoffMap.payoffs)[best.value.target] > 0.0
      ensures best.Some? ==> forall q :: WithinBounds(q, payoffMap.bounds) ==> Grid(payoffMap.payoffs)[q] <= best.value.payoff
      ensures best.Some? ==>
        forall q :: WithinBounds(q, payoffMap.bounds) && Before(q, best.value.target) ==> Grid(payoffMap.payoffs)[q] < best.value.payoff
    {
      var candidates := payoffMap.Candidates();
      best := Collections.MaxBy(candidates, PayoffNumber);
      assert |candidates| > 0 ==> PayoffNumber(candidates[0]).Real?;
      if best.Some? {
        var values := Collections.Map(candidates, PayoffNumber);
        var k :| Collections.IsFirstMax(values, k) && candidates[k] == best.value;
        FirstMaxCandidate(candidates, k);
        forall q | WithinBounds(q, payoffMap.bounds) && Grid(payoffMap.payoffs)[q] > 0.0
          ensures Grid(payoffMap.payoffs)[q] <= best.value.payoff
          ensures Before(q, best.value.target) ==> Grid(payoffMap.payoffs)[q] < best.value.payoff
        {
          var i :| 0 <= i < |candidates| && candidates[i].target == q;
        }
      }
    }

    /** `findTarget`: the furthest cell along `path` before the heading from the pac first
        changes from the heading of the path's first cell. */
    method FindTarget(pac: Pac, path: seq<Vec>) returns (target: Vec)
      requires path != []
      ensures exists k :: StraightTo(pac.pos, path, k) && target == path[k]
    {
      target := path[0];
      var targetHeading := Heading(pac.pos, target);
      ghost var k := 0;
      var i := 1;
      while i < |path|
        invariant 1 <= i <= |path| && k == i - 1 && target == path[k]
        invariant forall j :: 0 <= j <= k ==> Heading(pac.pos, path[j]) == targetHeading
      {
        var proceeding := path[i];
        if targetHeading == Heading(pac.pos, proceeding) {
          target := proceeding;
          k := i;
        } else {
          break;
        }
        i := i + 1;
      }
    }
  }
}
