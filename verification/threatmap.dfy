/** The threat each tracked enemy poses to an own pac: how many ticks it would still need to
    reach the pac at full speed, allowing for how far it could have moved since the pac's
    position was known. */
module Threats {
  import opened Wrappers
  import opened Traverse
  import opened Model
  import opened PacBeliefs
  import opened AgentHelper
  import opened PathMaps
  import opened AgentBeliefs
  import Collections

  /** An enemy and the ticks it needs to arrive; `Inf` when it cannot arrive at all. */
  datatype Threat = Threat(enemy: Pac, arrivalTicks: Cost)

  /** The enemies `generate` tracks: alive, and seen fewer than `nearbyEnemiesTicks` ago. */
  predicate Nearby(enemy: Pac, tick: int, params: AgentParams) {
    enemy.team == Enemy && enemy.alive && tick - enemy.seenTick < params.nearbyEnemiesTicks
  }

  /** How far `enemy` may have moved, at its greatest speed, in the ticks since `pac` was seen
      and in the next one. */
  function MaxRange(pac: Pac, enemy: Pac, tick: int): (r: int)
    ensures pac.seenTick <= tick ==> r >= MaxMovementSpeed(enemy, tick) >= 1
    ensures pac.seenTick == tick + 1 ==> r == 0
  {
    (1 + tick - pac.seenTick) * MaxMovementSpeed(enemy, tick)
  }

  /** `Math.max(0, cost - maxRange)`, where an unreachable cell costs +Infinity: nothing
      arrives from where no walk leads; an enemy within range arrives at once; one further away
      still needs the cost beyond the range. */
  function ArrivalTicks(cost: Cost, maxRange: int): (r: Cost)
    ensures r == Inf <==> cost == Inf
    ensures r == Fin(0) <==> cost.Fin? && cost.n <= maxRange
    ensures r.Fin? && r.n > 0 ==> r.n + maxRange == cost.n
  {
    match cost
    case Inf => Inf
    case Fin(n) => if n <= maxRange then Fin(0) else Fin(n - maxRange)
  }

  /** `arrival` is +Infinity exactly when no walk of `g` reaches `p`, and otherwise the
      length of a shortest walk to `p` less `maxRange`, but never below zero. */
  ghost predicate Arrives(g: Graph, p: Vec, maxRange: int, arrival: Cost) {
    && (arrival == Inf <==> Unreachable(g, p))
    && (arrival.Fin? ==> exists n: nat :: IsShortest(g, p, n) && arrival == ArrivalTicks(Fin(n), maxRange))
  }

  /** A longer range never makes an enemy arrive later. */
  lemma ArrivalTicksMonotone(cost: Cost, range1: int, range2: int)
    requires range1 <= range2 && cost.Fin?
    ensures ArrivalTicks(cost, range2).n <= ArrivalTicks(cost, range1).n
  {
  }

  /** `ThreatMap`: a wall-only path map from the last known position of every tracked enemy.
      `enemies` are the keys of the source's map in the order they were added. */
  class ThreatMap {
    const beliefs: Beliefs
    const enemies: seq<Pac>
    const enemyPathMaps: map<Pac, PathMap>

    /** The keys of the path maps are the enemies, each once. */
    ghost predicate Tracked()
      reads this
    {
      Collections.Distinct(enemies) && forall e :: e in enemyPathMaps <==> e in enemies
    }

    ghost predicate Valid()
      reads this, enemyPathMaps.Values, set m | m in enemyPathMaps.Values :: m.costs
    {
      && Tracked()
      && forall e :: e in enemyPathMaps ==>
           && enemyPathMaps[e].Valid()
           && enemyPathMaps[e].from == e.pos
           && enemyPathMaps[e].bounds == beliefs.Bounds()
    }

    constructor (beliefs: Beliefs, enemies: seq<Pac>, enemyPathMaps: map<Pac, PathMap>)
      ensures this.beliefs == beliefs && this.enemies == enemies && this.enemyPathMaps == enemyPathMaps
    {
      this.beliefs := beliefs;
      this.enemies := enemies;
      this.enemyPathMaps := enemyPathMaps;
    }

    /** `generate`: one path map through every cell but the walls for each tracked enemy,
        starting from where it was last seen. The pacs are visited in an unconstrained order. */
    static method Generate(beliefs: Beliefs, params: AgentParams) returns (r: ThreatMap)
      requires beliefs.cells.Length0 == beliefs.height && beliefs.cells.Length1 == beliefs.width
      ensures fresh(r) && r.Valid() && r.beliefs == beliefs
      ensures forall e :: e in r.enemies <==> e in beliefs.pacs.Values && Nearby(e, beliefs.tick, params)
      ensures forall e :: e in r.enemyPathMaps ==>
        r.enemyPathMaps[e].passable == Open(WallsOf(Grid(beliefs.cells)))
    {
      var walls := beliefs.Walls();
      var all := Collections.ToArray(beliefs.pacs.Values);
      var enemies: seq<Pac> := [];
      var pathMaps: map<Pac, PathMap> := map[];
      for i := 0 to |all|
        invariant forall e :: e in enemies <==> e in all[..i] && Nearby(e, beliefs.tick, params)
        invariant Collections.Distinct(enemies)
        invariant forall e :: e in pathMaps <==> e in enemies
        invariant forall e :: e in pathMaps ==>
          && pathMaps[e].Valid() && pathMaps[e].from == e.pos && pathMaps[e].bounds == beliefs.Bounds()
          && pathMaps[e].passable == Open(walls)
      {
        var enemy := all[i];
        assert all[..i + 1] == all[..i] + [enemy];
        if Nearby(enemy, beliefs.tick, params) {
          assert enemy !in all[..i];
          var pathMap := PathMap.Generate(enemy.pos, beliefs.Bounds(), Open(walls));
          pathMaps := pathMaps[enemy := pathMap];
          enemies := enemies + [enemy];
        }
      }
      assert all[..|all|] == all;
      r := new ThreatMap(beliefs, enemies, pathMaps);
    }

    /** `size`: the number of tracked enemies. */
    function Size(): (n: nat)
      reads this
      requires Tracked()
      ensures n == |enemies|
    {
      Collections.DistinctCardinality(enemies);
      assert enemyPathMaps.Keys == set e | e in enemies;
      |enemyPathMaps|
    }

    /** `threats`: one threat per tracked enemy, in the order they were added. */
    method Threats(pac: Pac) returns (threats: seq<Threat>)
      requires Valid() && WithinBounds(pac.pos, beliefs.Bounds())
      ensures |threats| == |enemies|
      ensures forall i :: 0 <= i < |threats| ==>
        && threats[i].enemy == enemies[i]
        && Arrives(enemyPathMaps[enemies[i]].G(), pac.pos, MaxRange(pac, enemies[i], beliefs.tick), threats[i].arrivalTicks)
    {
      threats := [];
      for i := 0 to |enemies|
        invariant |threats| == i
        invariant forall j :: 0 <= j < i ==>
          && threats[j].enemy == enemies[j]
          && Arrives(enemyPathMaps[enemies[j]].G(), pac.pos, MaxRange(pac, enemies[j], beliefs.tick), threats[j].arrivalTicks)
      {
        var enemy := enemies[i];
        var arrivalTicks := Arrival(enemyPathMaps[enemy], pac, enemy);
        threats := threats + [Threat(enemy, arrivalTicks)];
      }
    }

    /** The arrival of one enemy, from its path map's cost of the pac's cell. */
    method Arrival(pathMap: PathMap, pac: Pac, enemy: Pac) returns (arrivalTicks: Cost)
      requires pathMap.Valid() && WithinBounds(pac.pos, pathMap.bounds)
      ensures Arrives(pathMap.G(), pac.pos, MaxRange(pac, enemy, beliefs.tick), arrivalTicks)
    {
      var maxRange := MaxRange(pac, enemy, beliefs.tick);
      var cost := pathMap.Cost(pac.pos);
      arrivalTicks := ArrivalTicks(cost, maxRange);
    }
  }
}
