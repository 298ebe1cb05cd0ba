/** Who stands where this turn: the walls, the pacs seen this tick, and the free cells next to
    an enemy that one of our pacs could step onto; and which of those cells a given pac may
    walk through. */
module Occupants {
  import opened Wrappers
  import opened Traverse
  import opened Model
  import opened CellBeliefs
  import opened PacBeliefs
  import opened AgentHelper
  import opened PathMaps
  import opened AgentBeliefs
  import Collections

  /** The occupant written on a wall cell (`Tiles.Wall`). */
  const WallMark: string := [Wall]

  /** No pac key is the wall mark, so a wall is never taken for a pac. */
  lemma KeyIsNotWall(pac: Pac)
    ensures Key(pac) != WallMark
  {
    assert Key(pac)[1..] != [];
  }

  /** The alive pacs of `pacs` seen this tick. */
  function Present(pacs: map<string, Pac>, tick: int): (r: set<Pac>)
    ensures forall q :: q in r <==> q in pacs.Values && q.seenTick == tick && q.alive
  {
    set q | q in pacs.Values && q.seenTick == tick && q.alive
  }

  /** The pacs of `pacs` on team `team`. */
  function OfTeam(pacs: set<Pac>, team: int): (r: set<Pac>)
    ensures forall q :: q in r <==> q in pacs && q.team == team
  {
    set q | q in pacs && q.team == team
  }

  /** The cells one of our present pacs could reach next turn at its top speed. */
  ghost function Reach(pacs: map<string, Pac>, tick: int, dims: Dims): set<Vec> {
    set p | p in Cells(dims) && exists q :: q in OfTeam(Present(pacs, tick), Self) && L1(q.pos, p) <= MaxMovementSpeed(q, tick)
  }

  /** Every pair of an enemy of `enemies` and a grid cell at most one step from it. */
  ghost function Claims(enemies: set<Pac>, dims: Dims): (r: set<(Pac, Vec)>)
    ensures forall e, p :: (e, p) in r <==> e in enemies && WithinBounds(p, dims) && L1(e.pos, p) <= 1
  {
    set e, p | e in enemies && p in Cells(dims) && L1(e.pos, p) <= 1 :: (e, p)
  }

  /** The first pass: a wall mark on each wall, nothing elsewhere. */
  ghost function Walled(cells: map<Vec, Cell>): (r: map<Vec, Option<string>>)
    ensures r.Keys == cells.Keys
    ensures forall p :: p in r ==> (r[p].Some? <==> cells[p].wall) && (r[p].Some? ==> r[p].value == WallMark)
  {
    map p | p in cells :: if cells[p].wall then Some(WallMark) else None
  }

  /** The second pass over the pacs of `done`: each writes its key on its cell, the last one
      written winning where two share a cell. */
  ghost predicate Placed(start: map<Vec, Option<string>>, now: map<Vec, Option<string>>, done: set<Pac>) {
    && now.Keys == start.Keys
    && forall p :: p in now ==>
         if exists q :: q in done && q.pos == p
         then exists q :: q in done && q.pos == p && now[p] == Some(Key(q))
         else now[p] == start[p]
  }

  /** The third pass over the pairs of `claims`: a free cell of `reach` that some claiming enemy
      could step onto takes the key of one of them. */
  ghost predicate Collided(start: map<Vec, Option<string>>, now: map<Vec, Option<string>>, reach: set<Vec>,
                           claims: set<(Pac, Vec)>) {
    && now.Keys == start.Keys
    && forall p :: p in now ==>
         if start[p].None? && p in reach && exists e :: (e, p) in claims
         then exists e :: (e, p) in claims && now[p] == Some(Key(e))
         else now[p] == start[p]
  }

  /** `occupants` is what `generate` builds from the grid `cells` and the pacs `pacs` on `tick`. */
  ghost predicate Generated(cells: map<Vec, Cell>, pacs: map<string, Pac>, tick: int, dims: Dims,
                            occupants: map<Vec, Option<string>>) {
    exists placed ::
      && Placed(Walled(cells), placed, Present(pacs, tick))
      && Collided(placed, occupants, Reach(pacs, tick, dims), Claims(OfTeam(Present(pacs, tick), Enemy), dims))
  }

  lemma PlacedNone(start: map<Vec, Option<string>>)
    ensures Placed(start, start, {})
  {
  }

  /** One more pac written on its cell. */
  lemma PlacedStep(start: map<Vec, Option<string>>, now: map<Vec, Option<string>>, done: set<Pac>, q: Pac)
    requires Placed(start, now, done) && q.pos in now
    ensures Placed(start, now[q.pos := Some(Key(q))], done + {q})
  {
    var now' := now[q.pos := Some(Key(q))];
    forall p | p in now'
      ensures if exists q' :: q' in done + {q} && q'.pos == p
              then exists q' :: q' in done + {q} && q'.pos == p && now'[p] == Some(Key(q'))
              else now'[p] == start[p]
    {
      PlacedCell(start, now, done, q, p);
    }
  }

  /** `PlacedStep` at one cell. */
  lemma PlacedCell(start: map<Vec, Option<string>>, now: map<Vec, Option<string>>, done: set<Pac>, q: Pac, p: Vec)
    requires Placed(start, now, done) && q.pos in now && p in now
    ensures var now' := now[q.pos := Some(Key(q))];
      if exists q' :: q' in done + {q} && q'.pos == p
      then exists q' :: q' in done + {q} && q'.pos == p && now'[p] == Some(Key(q'))
      else now'[p] == start[p]
  {
    if p == q.pos {
      assert q in done + {q};
    } else if exists q' :: q' in done + {q} && q'.pos == p {
      var q' :| q' in done + {q} && q'.pos == p;
      assert q' in done;
    }
  }

  lemma CollidedNone(start: map<Vec, Option<string>>, reach: set<Vec>)
    ensures Collided(start, start, reach, {})
  {
  }

  /** One more claim: the enemy `e` and the cell `n` next to it. */
  lemma CollidedStep(start: map<Vec, Option<string>>, now: map<Vec, Option<string>>, reach: set<Vec>,
                     claims: set<(Pac, Vec)>, e: Pac, n: Vec)
    requires Collided(start, now, reach, claims) && n in now
    ensures Collided(start, if n in reach && now[n].None? then now[n := Some(Key(e))] else now, reach, claims + {(e, n)})
  {
    var now' := if n in reach && now[n].None? then now[n := Some(Key(e))] else now;
    var claims' := claims + {(e, n)};
    forall p | p in now'
      ensures if start[p].None? && p in reach && exists e' :: (e', p) in claims'
              then exists e' :: (e', p) in claims' && now'[p] == Some(Key(e'))
              else now'[p] == start[p]
    {
      if p == n {
        if start[p].None? && p in reach && exists e' :: (e', p) in claims {
          var e' :| (e', p) in claims && now[p] == Some(Key(e'));
          assert (e', p) in claims';
        } else if start[p].None? && p in reach {
          assert (e, p) in claims';
        }
      } else if exists e' :: (e', p) in claims' {
        var e' :| (e', p) in claims';
        assert (e', p) in claims;
      }
    }
  }

  /** The claims of one more enemy are added to those of the others. */
  lemma ClaimsUnion(done: set<Pac>, enemy: Pac, dims: Dims)
    ensures Claims(done + {enemy}, dims) == Claims(done, dims) + Claims({enemy}, dims)
  {
  }

  /** `claimed` holds `claims` and the claims of `enemy` on the first `i` cells of `around`. */
  ghost predicate ClaimedUpTo(claims: set<(Pac, Vec)>, claimed: set<(Pac, Vec)>, enemy: Pac, around: seq<Vec>, i: nat) {
    && i <= |around|
    && forall c :: c in claimed <==> c in claims || (c.0 == enemy && c.1 in around[..i])
  }

  lemma ClaimedStep(claims: set<(Pac, Vec)>, claimed: set<(Pac, Vec)>, enemy: Pac, around: seq<Vec>, i: nat)
    requires ClaimedUpTo(claims, claimed, enemy, around, i) && i < |around|
    ensures ClaimedUpTo(claims, claimed + {(enemy, around[i])}, enemy, around, i + 1)
  {
    assert around[..i + 1] == around[..i] + [around[i]];
  }

  /** Once every cell around the enemy is claimed, its claims are the enemy's claim set. */
  lemma ClaimedAll(claims: set<(Pac, Vec)>, claimed: set<(Pac, Vec)>, enemy: Pac, around: seq<Vec>, dims: Dims)
    requires ClaimedUpTo(claims, claimed, enemy, around, |around|)
    requires forall p :: p in around <==> WithinBounds(p, dims) && L1(enemy.pos, p) <= 1
    ensures claimed == claims + Claims({enemy}, dims)
  {
    assert around[..|around|] == around;
  }

  /** The grid between the second and third passes of `generate`. */
  lemma GeneratedPasses(cells: map<Vec, Cell>, pacs: map<string, Pac>, tick: int, dims: Dims,
                        occupants: map<Vec, Option<string>>) returns (placed: map<Vec, Option<string>>)
    requires Generated(cells, pacs, tick, dims, occupants)
    ensures Placed(Walled(cells), placed, Present(pacs, tick))
    ensures Collided(placed, occupants, Reach(pacs, tick, dims), Claims(OfTeam(Present(pacs, tick), Enemy), dims))
  {
    placed :| && Placed(Walled(cells), placed, Present(pacs, tick))
              && Collided(placed, occupants, Reach(pacs, tick, dims), Claims(OfTeam(Present(pacs, tick), Enemy), dims));
  }

  /** A present enemy could step onto `p`. */
  ghost predicate Threatened(pacs: map<string, Pac>, tick: int, dims: Dims, p: Vec) {
    exists e :: e in OfTeam(Present(pacs, tick), Enemy) && WithinBounds(p, dims) && L1(e.pos, p) <= 1
  }

  lemma ThreatenedIsClaimed(pacs: map<string, Pac>, tick: int, dims: Dims, p: Vec)
    ensures Threatened(pacs, tick, dims, p) <==> exists e :: (e, p) in Claims(OfTeam(Present(pacs, tick), Enemy), dims)
  {
    var enemies := OfTeam(Present(pacs, tick), Enemy);
    if exists e :: (e, p) in Claims(enemies, dims) {
      var e :| (e, p) in Claims(enemies, dims);
      assert e in enemies && WithinBounds(p, dims) && L1(e.pos, p) <= 1;
    }
    if Threatened(pacs, tick, dims, p) {
      var e :| e in enemies && WithinBounds(p, dims) && L1(e.pos, p) <= 1;
      assert (e, p) in Claims(enemies, dims);
    }
  }

  /** A cell of a generated grid is free exactly when it is no wall, no present pac stands on
      it, and it is not both reachable by one of our pacs and within a step of a present enemy. */
  lemma GeneratedFree(cells: map<Vec, Cell>, pacs: map<string, Pac>, tick: int, dims: Dims,
                      occupants: map<Vec, Option<string>>, p: Vec)
    requires Generated(cells, pacs, tick, dims, occupants) && p in cells
    ensures occupants.Keys == cells.Keys
    ensures occupants[p].None? <==>
      && !cells[p].wall
      && (forall q :: q in Present(pacs, tick) ==> q.pos != p)
      && !(p in Reach(pacs, tick, dims) && Threatened(pacs, tick, dims, p))
  {
    var placed := GeneratedPasses(cells, pacs, tick, dims, occupants);
    ThreatenedIsClaimed(pacs, tick, dims, p);
    assert placed[p].None? <==> !cells[p].wall && forall q :: q in Present(pacs, tick) ==> q.pos != p;
  }

  /** An occupied cell of a generated grid holds the wall mark on a wall, the key of a present
      pac standing on it, or the key of a present enemy a step away. */
  lemma GeneratedHolder(cells: map<Vec, Cell>, pacs: map<string, Pac>, tick: int, dims: Dims,
                        occupants: map<Vec, Option<string>>, p: Vec)
    requires Generated(cells, pacs, tick, dims, occupants) && p in cells && occupants[p].Some?
    ensures || (cells[p].wall && occupants[p].value == WallMark)
            || (exists q :: q in Present(pacs, tick) && q.pos == p && occupants[p].value == Key(q))
            || (exists e :: e in OfTeam(Present(pacs, tick), Enemy) && L1(e.pos, p) <= 1 && occupants[p].value == Key(e))
  {
    var enemies := OfTeam(Present(pacs, tick), Enemy);
    var placed := GeneratedPasses(cells, pacs, tick, dims, occupants);
    if occupants[p] != placed[p] {
      var e :| (e, p) in Claims(enemies, dims) && occupants[p] == Some(Key(e));
      assert e in enemies && L1(e.pos, p) <= 1;
    }
  }

  /** A present pac's cell shows the key of a present pac standing on it (the last one written
      where several share the cell); the third pass never overwrites it. */
  lemma GeneratedShowsPacs(cells: map<Vec, Cell>, pacs: map<string, Pac>, tick: int, dims: Dims,
                           occupants: map<Vec, Option<string>>, q: Pac)
    requires Generated(cells, pacs, tick, dims, occupants) && q.pos in cells && q in Present(pacs, tick)
    ensures exists q' :: q' in Present(pacs, tick) && q'.pos == q.pos && occupants[q.pos] == Some(Key(q'))
  {
    var placed := GeneratedPasses(cells, pacs, tick, dims, occupants);
    var q' :| q' in Present(pacs, tick) && q'.pos == q.pos && placed[q.pos] == Some(Key(q'));
    assert occupants[q.pos] == placed[q.pos];
  }

  /** `passable`, on the occupant of a cell: a free cell, the pac's own cell, or a present enemy
      it dominates whose ability is still cooling down. For a present enemy of unknown form
      `dominate` throws, ending the search; here that cell blocks instead. */
  function PassableCell(occupant: Option<string>, pac: Pac, pacs: map<string, Pac>, tick: int): (r: bool)
    ensures occupant == None || occupant == Some(Key(pac)) ==> r
    ensures r && occupant.Some? && occupant.value != Key(pac) ==>
      occupant.value in pacs && pacs[occupant.value].team == Enemy && IsForm(pacs[occupant.value].form)
  {
    match occupant
    case None => true
    case Some(k) =>
      || k == Key(pac)
      || (&& k in pacs
          && pacs[k].team == Enemy
          && pacs[k].alive
          && pacs[k].seenTick == tick
          && Dominate(pacs[k].form) == Success(pac.form)
          && tick < pacs[k].abilityCooldownUntilTick)
  }

  /** A free cell and the pac's own cell are passable. A cell held by anything else is
      passable only when it holds a present enemy, both pacs have one of the three forms, the
      pac's form beats the enemy's, and the enemy cannot switch this tick. So a wall, and a
      cell held by another of our pacs, always block. */
  lemma PassableCellCases(occupant: Option<string>, pac: Pac, pacs: map<string, Pac>, tick: int)
    ensures occupant == None || occupant == Some(Key(pac)) ==> PassableCell(occupant, pac, pacs, tick)
    ensures PassableCell(occupant, pac, pacs, tick) && occupant.Some? && occupant.value != Key(pac) ==>
      var enemy := pacs[occupant.value];
      && occupant.value in pacs
      && enemy.team == Enemy && enemy.alive && enemy.seenTick == tick
      && IsForm(enemy.form) && IsForm(pac.form) && pac.form != enemy.form
      && tick < enemy.abilityCooldownUntilTick
    ensures WallMark !in pacs ==> !PassableCell(Some(WallMark), pac, pacs, tick)
    ensures forall k :: k in pacs && pacs[k].team == Self && k != Key(pac) ==> !PassableCell(Some(k), pac, pacs, tick)
  {
    KeyIsNotWall(pac);
    if PassableCell(occupant, pac, pacs, tick) && occupant.Some? && occupant.value != Key(pac) {
      DominateCycle(pacs[occupant.value].form);
    }
  }

  /** The passability callback `pathfind` hands to the search, over a snapshot of the grid. */
  function Passability(occupants: map<Vec, Option<string>>, pac: Pac, pacs: map<string, Pac>, tick: int): (r: Vec -> bool)
    ensures forall p :: r(p) ==> p in occupants
    ensures forall p :: p in occupants && occupants[p] == None ==> r(p)
  {
    p => p in occupants && PassableCell(occupants[p], pac, pacs, tick)
  }

  /** `OccupantMap`: the grid of occupants for one turn, with the tick, pacs and bounds of the
      beliefs it was generated from. */
  class OccupantMap {
    const tick: int
    const pacs: map<string, Pac>
    const bounds: Dims
    /** The occupant of each cell, indexed `[y, x]`: a pac key, the wall mark, or nothing. */
    const occupants: array2<Option<string>>

    ghost predicate Valid()
      reads this
    {
      occupants.Length0 == bounds.height && occupants.Length1 == bounds.width
    }

    constructor (tick: int, pacs: map<string, Pac>, bounds: Dims, occupants: array2<Option<string>>)
      requires occupants.Length0 == bounds.height && occupants.Length1 == bounds.width
      ensures this.tick == tick && this.pacs == pacs && this.bounds == bounds && this.occupants == occupants
      ensures Valid()
    {
      this.tick := tick;
      this.pacs := pacs;
      this.bounds := bounds;
      this.occupants := occupants;
    }

    /** `generate`: walls first, then every present pac on its cell, then the free cells next to
        a present enemy that one of our present pacs could also reach. */
    static method Generate(beliefs: Beliefs) returns (r: OccupantMap)
      requires beliefs.Valid()
      requires forall q :: q in Present(beliefs.pacs, beliefs.tick) ==> WithinBounds(q.pos, beliefs.Bounds())
      ensures fresh(r) && fresh(r.occupants) && r.Valid()
      ensures r.tick == beliefs.tick && r.pacs == beliefs.pacs && r.bounds == beliefs.Bounds()
      ensures Generated(Grid(beliefs.cells), r.pacs, r.tick, r.bounds, Grid(r.occupants))
    {
      var dims := beliefs.Bounds();
      var occupants := WallOccupants(beliefs.cells);
      ghost var walled := Grid(occupants);
      PlacePacs(occupants, beliefs.pacs, beliefs.tick);
      ghost var placed := Grid(occupants);
      var selfLocations := SelfLocations(beliefs.pacs, beliefs.tick, dims);
      MarkCollisions(occupants, beliefs.pacs, beliefs.tick, selfLocations);
      r := new OccupantMap(beliefs.tick, beliefs.pacs, dims, occupants);
      assert Placed(Walled(Grid(beliefs.cells)), placed, Present(r.pacs, r.tick));
    }

    /** The first pass of `generate`, from a snapshot of the cells. */
    static method WallOccupants(cells: array2<Cell>) returns (occupants: array2<Option<string>>)
      ensures fresh(occupants) && occupants.Length0 == cells.Length0 && occupants.Length1 == cells.Length1
      ensures Grid(occupants) == Walled(Grid(cells))
    {
      var g := Snapshot(cells);
      occupants := Collections.Init2D(cells.Length1, cells.Length0,
        (x, y) => if Vec(x, y) in g && g[Vec(x, y)].wall then Some(WallMark) else None);
      GridAt(occupants);
    }

    /** The second pass of `generate`: each present pac writes its key on its cell. */
    static method PlacePacs(occupants: array2<Option<string>>, pacs: map<string, Pac>, tick: int)
      requires forall q :: q in Present(pacs, tick) ==> WithinBounds(q.pos, Dims(occupants.Length1, occupants.Length0))
      modifies occupants
      ensures Placed(old(Grid(occupants)), Grid(occupants), Present(pacs, tick))
    {
      ghost var start := Grid(occupants);
      PlacedNone(start);
      var remaining := pacs.Values;
      ghost var done: set<Pac> := {};
      while remaining != {}
        invariant remaining <= pacs.Values
        invariant done <= Present(pacs, tick) && Present(pacs, tick) <= done + remaining
        invariant Placed(start, Grid(occupants), done)
        decreases remaining
      {
        var pac :| pac in remaining;
        remaining := remaining - {pac};
        if !(pac.seenTick == tick && pac.alive) {
          continue;
        }
        PlacedStep(start, Grid(occupants), done, pac);
        Put(occupants, pac.pos, Some(Key(pac)));
        done := done + {pac};
      }
    }

    /** The cells our present pacs could move to, each within its top speed of the pac. */
    static method SelfLocations(pacs: map<string, Pac>, tick: int, dims: Dims) returns (locations: set<Vec>)
      ensures locations == Reach(pacs, tick, dims)
    {
      var own := OfTeam(Present(pacs, tick), Self);
      locations := {};
      var remaining := pacs.Values;
      ghost var done: set<Pac> := {};
      while remaining != {}
        invariant remaining <= pacs.Values
        invariant done <= own && own <= done + remaining
        invariant forall p :: p in locations <==>
          WithinBounds(p, dims) && exists q :: q in done && L1(q.pos, p) <= MaxMovementSpeed(q, tick)
        decreases remaining
      {
        var pac :| pac in remaining;
        remaining := remaining - {pac};
        if pac.team == Self && pac.alive && pac.seenTick == tick {
          var speed := MaxMovementSpeed(pac, tick);
          var around := Neighbours(pac.pos, dims, speed);
          for i := 0 to |around|
            invariant forall p :: p in locations <==>
              || (WithinBounds(p, dims) && exists q :: q in done && L1(q.pos, p) <= MaxMovementSpeed(q, tick))
              || p in around[..i]
          {
            locations := locations + {around[i]};
            assert around[..i + 1] == around[..i] + [around[i]];
          }
          assert around[..|around|] == around;
          done := done + {pac};
        }
      }
    }

    /** The third pass of `generate`: around each present enemy, a free cell our pacs could
        reach takes the enemy's key. */
    static method MarkCollisions(occupants: array2<Option<string>>, pacs: map<string, Pac>, tick: int, locations: set<Vec>)
      modifies occupants
      ensures Collided(old(Grid(occupants)), Grid(occupants), locations,
                       Claims(OfTeam(Present(pacs, tick), Enemy), Dims(occupants.Length1, occupants.Length0)))
    {
      var dims := Dims(occupants.Length1, occupants.Length0);
      var enemies := OfTeam(Present(pacs, tick), Enemy);
      ghost var start := Grid(occupants);
      CollidedNone(start, locations);
      var remaining := pacs.Values;
      ghost var done: set<Pac> := {};
      while remaining != {}
        invariant remaining <= pacs.Values
        invariant done <= enemies && enemies <= done + remaining
        invariant Collided(start, Grid(occupants), locations, Claims(done, dims))
        decreases remaining
      {
        var enemy :| enemy in remaining;
        remaining := remaining - {enemy};
        if enemy.team == Enemy && enemy.alive && enemy.seenTick == tick {
          MarkAround(occupants, enemy, locations, start, Claims(done, dims));
          ClaimsUnion(done, enemy, dims);
          done := done + {enemy};
        }
      }
      assert done == enemies;
    }

    /** The claims of one enemy: each cell next to it, in the order `neighbours` yields them. */
    static method MarkAround(occupants: array2<Option<string>>, enemy: Pac, locations: set<Vec>,
                             ghost start: map<Vec, Option<string>>, ghost claims: set<(Pac, Vec)>)
      requires Collided(start, Grid(occupants), locations, claims)
      modifies occupants
      ensures Collided(start, Grid(occupants), locations,
                       claims + Claims({enemy}, Dims(occupants.Length1, occupants.Length0)))
    {
      var dims := Dims(occupants.Length1, occupants.Length0);
      var around := Neighbours(enemy.pos, dims, 1);
      ghost var claimed := claims;
      for i := 0 to |around|
        invariant ClaimedUpTo(claims, claimed, enemy, around, i)
        invariant Collided(start, Grid(occupants), locations, claimed)
      {
        var n := around[i];
        assert WithinBounds(n, dims);
        CollidedStep(start, Grid(occupants), locations, claimed, enemy, n);
        if n in locations && occupants[n.y, n.x].None? {
          Put(occupants, n, Some(Key(enemy)));
        }
        ClaimedStep(claims, claimed, enemy, around, i);
        claimed := claimed + {(enemy, n)};
      }
      ClaimedAll(claims, claimed, enemy, around, dims);
    }

    /** `clone`: a fresh grid with the same occupants; blocking cells of the copy leaves this
        map as it is. */
    method Clone() returns (r: OccupantMap)
      requires Valid()
      ensures fresh(r) && fresh(r.occupants) && r.Valid()
      ensures r.tick == tick && r.pacs == pacs && r.bounds == bounds
      ensures Grid(r.occupants) == Grid(occupants)
    {
      var copy := Collections.Clone2D(occupants);
      r := new OccupantMap(tick, pacs, bounds, copy);
      GridAt(copy);
      GridAt(occupants);
    }

    /** `block`: `pac` now holds `pos`; no other cell changes. */
    method Block(pos: Vec, pac: Pac)
      requires Valid() && WithinBounds(pos, bounds)
      modifies occupants
      ensures Grid(occupants) == old(Grid(occupants))[pos := Some(Key(pac))]
    {
      Put(occupants, pos, Some(Key(pac)));
    }

    /** `pathfind`: a search from the pac's cell through the cells it may pass. */
    method Pathfind(pac: Pac) returns (pathMap: PathMap)
      requires Valid()
      ensures fresh(pathMap) && fresh(pathMap.costs) && pathMap.Valid()
      ensures pathMap.from == pac.pos && pathMap.bounds == bounds
      ensures pathMap.passable == Passability(Grid(occupants), pac, pacs, tick)
    {
      var snapshot := Snapshot(occupants);
      pathMap := PathMap.Generate(pac.pos, bounds, Passability(snapshot, pac, pacs, tick));
    }
  }
}
