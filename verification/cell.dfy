/** What the bot believes about each cell of the grid: whether it is a wall, the pellet value
    last seen there, when it was last seen, and how likely an unseen pellet is still there. */
module CellBeliefs {
  import opened Wrappers
  import opened Traverse
  import opened Model
  import Collections

  /** `stillAvailableProbability` starts at one: nothing has been lost yet. */
  datatype Cell = Cell(pos: Vec, value: int, seenTick: int, wall: bool, stillAvailableProbability: real)

  /** The value a planner may expect to collect at the cell. */
  function ExpectedValue(cell: Cell): (r: real)
    ensures cell.stillAvailableProbability == 1.0 ==> r == cell.value as real
    ensures cell.value >= 0 && 0.0 <= cell.stillAvailableProbability <= 1.0 ==> 0.0 <= r <= cell.value as real
  {
    var v, prob := cell.value as real, cell.stillAvailableProbability;
    assert v >= 0.0 && 0.0 <= prob <= 1.0 ==> v * prob <= v * 1.0;
    v * prob
  }

  /** `init`: a wall where the map shows '#', a pellet worth one on every blank tile, seen on the
      view's tick. */
  function Init(view: View, x: int, y: int): (cell: Cell)
    ensures cell.pos == Vec(x, y) && cell.seenTick == view.tick && cell.stillAvailableProbability == 1.0
    ensures cell.wall <==> TileAt(view, x, y) == Some(Wall)
    ensures cell.value == 1 <==> TileAt(view, x, y) == Some(Blank)
    ensures cell.value == 0 || cell.value == 1
    ensures cell.wall ==> cell.value == 0
  {
    Cell(Vec(x, y), if TileAt(view, x, y) == Some(Blank) then 1 else 0, view.tick,
         TileAt(view, x, y) == Some(Wall), 1.0)
  }

  /** `initializeCells`: the cell grid, indexed `[y, x]`. */
  method InitializeCells(view: View) returns (cells: array2<Cell>)
    ensures fresh(cells) && cells.Length0 == view.height && cells.Length1 == view.width
    ensures forall y, x :: 0 <= y < view.height && 0 <= x < view.width ==> cells[y, x] == Init(view, x, y)
  {
    cells := Collections.Init2D(view.width, view.height, (x, y) => Init(view, x, y));
  }

  /** `seen`: the cell now holds `pellet`, as of `tick`. */
  function Seen(cell: Cell, tick: int, pellet: int): (r: Cell)
    ensures r.value == pellet && r.seenTick == tick
    ensures r.pos == cell.pos && r.wall == cell.wall && r.stillAvailableProbability == cell.stillAvailableProbability
  {
    cell.(value := pellet, seenTick := tick)
  }

  /** The cells of `ray` before its first wall. */
  function UntilWall(view: View, ray: seq<Vec>): (r: seq<Vec>)
    ensures |r| <= |ray| && r == ray[..|r|]
    ensures forall p :: p in r ==> TileAt(view, p.x, p.y) != Some(Wall)
    ensures |r| < |ray| ==> TileAt(view, ray[|r|].x, ray[|r|].y) == Some(Wall)
    decreases |ray|
  {
    if ray == [] then []
    else if TileAt(view, ray[0].x, ray[0].y) == Some(Wall) then []
    else [ray[0]] + UntilWall(view, ray[1..])
  }

  /** What an own pac at `from` sees looking along `heading`: the wrapping ray up to the first wall. */
  function Sight(view: View, from: Vec, heading: Vec): seq<Vec> {
    UntilWall(view, RayFrom(view.Dims(), from, heading, true, RayLimit(view.Dims(), heading)))
  }

  /** The cells the own pacs among `sensors` see along the four headings. */
  ghost function SeenFrom(view: View, sensors: seq<PacSensor>): set<Vec> {
    set s, h, p | s in sensors && s.team == Self && h in Headings() && p in Sight(view, s.pos, h) :: p
  }

  /** The value of the last pellet reported at `p`, if any. */
  function LastPellet(pellets: seq<Pellet>, p: Vec): Option<int>
    decreases |pellets|
  {
    if pellets == [] then None
    else if pellets[|pellets| - 1].pos == p then Some(pellets[|pellets| - 1].value)
    else LastPellet(pellets[..|pellets| - 1], p)
  }

  /** A cell after a turn's observations: a reported pellet sets its value; otherwise a cell an
      own pac sees is empty; either way it is seen on this tick. Nothing else changes. */
  ghost function Observed(view: View, cell: Cell, p: Vec): (r: Cell)
    ensures r.wall == cell.wall && r.pos == cell.pos && r.stillAvailableProbability == cell.stillAvailableProbability
    ensures LastPellet(view.pellets, p).Some? ==> r.value == LastPellet(view.pellets, p).value && r.seenTick == view.tick
    ensures LastPellet(view.pellets, p).None? && p in SeenFrom(view, view.pacs) ==> r.value == 0 && r.seenTick == view.tick
    ensures LastPellet(view.pellets, p).None? && p !in SeenFrom(view, view.pacs) ==> r == cell
  {
    match LastPellet(view.pellets, p)
    case Some(v) => Seen(cell, view.tick, v)
    case None => if p in SeenFrom(view, view.pacs) then Seen(cell, view.tick, 0) else cell
  }

  /** The cells an own pac can see never include a wall, and with a pac inside the grid they
      all lie inside it. */
  lemma {:induction false} SightInGrid(view: View, from: Vec, heading: Vec)
    requires WithinBounds(from, view.Dims()) && heading in Headings()
    ensures forall p :: p in Sight(view, from, heading) ==> WithinBounds(p, view.Dims()) && TileAt(view, p.x, p.y) != Some(Wall)
  {
    var ray := RayFrom(view.Dims(), from, heading, true, RayLimit(view.Dims(), heading));
    RayWithinBounds(view.Dims(), from, heading, RayLimit(view.Dims(), heading));
    forall p | p in Sight(view, from, heading) ensures p in ray {
      var r := Sight(view, from, heading);
      var i :| 0 <= i < |r| && r[i] == p;
      assert ray[i] == p;
    }
  }

  /** The cells seen from `from` along each heading of `headings`. */
  ghost function SightsOf(view: View, from: Vec, headings: seq<Vec>): set<Vec> {
    set h, p | h in headings && p in Sight(view, from, h) :: p
  }

  lemma SightsOfSnoc(view: View, from: Vec, headings: seq<Vec>, heading: Vec)
    ensures SightsOf(view, from, headings + [heading]) == SightsOf(view, from, headings) + SightSet(view, from, heading)
  {
  }

  lemma SeenFromSnocOther(view: View, sensors: seq<PacSensor>, s: PacSensor)
    requires s.team != Self
    ensures SeenFrom(view, sensors + [s]) == SeenFrom(view, sensors)
  {
  }

  lemma SeenFromSnocOwn(view: View, sensors: seq<PacSensor>, s: PacSensor)
    requires s.team == Self
    ensures SeenFrom(view, sensors + [s]) == SeenFrom(view, sensors) + SightsOf(view, s.pos, Headings())
  {
    var a := SeenFrom(view, sensors + [s]);
    var b := SeenFrom(view, sensors) + SightsOf(view, s.pos, Headings());
    forall p | p in a ensures p in b {
      var t, h :| t in sensors + [s] && t.team == Self && h in Headings() && p in Sight(view, t.pos, h);
      if t != s {
        assert t in sensors;
      }
    }
  }

  /** `g` with the cells of `marked` seen empty on `tick`. */
  ghost function Mark(g: map<Vec, Cell>, marked: set<Vec>, tick: int): (r: map<Vec, Cell>)
    ensures r.Keys == g.Keys
  {
    map p | p in g :: if p in marked then Seen(g[p], tick, 0) else g[p]
  }

  /** Marking twice on the same tick is marking the union once. */
  lemma MarkTwice(g: map<Vec, Cell>, a: set<Vec>, b: set<Vec>, tick: int)
    ensures Mark(Mark(g, a, tick), b, tick) == Mark(g, a + b, tick)
  {
  }

  lemma MarkSnoc(g: map<Vec, Cell>, marked: set<Vec>, pos: Vec, tick: int)
    requires pos in g
    ensures Mark(g, marked + {pos}, tick) == Mark(g, marked, tick)[pos := Seen(Mark(g, marked, tick)[pos], tick, 0)]
  {
  }

  /** The cells seen from `from` along `heading`, as a set. */
  ghost function SightSet(view: View, from: Vec, heading: Vec): set<Vec> {
    set q | q in Sight(view, from, heading)
  }

  /** The first `k` elements of `s`, as a set. */
  ghost function FirstOf(s: seq<Vec>, k: nat): set<Vec>
    requires k <= |s|
  {
    if k == 0 then {} else FirstOf(s, k - 1) + {s[k - 1]}
  }

  lemma {:induction false} FirstOfAll(s: seq<Vec>)
    ensures FirstOf(s, |s|) == set q | q in s
  {
    if s != [] {
      var t := s[..|s| - 1];
      FirstOfAll(t);
      assert forall k :: 0 <= k <= |t| ==> FirstOf(t, k) == FirstOf(s, k) by {
        forall k | 0 <= k <= |t| ensures FirstOf(t, k) == FirstOf(s, k) {
          FirstOfPrefix(s, t, k);
        }
      }
      assert s == t + [s[|s| - 1]];
    }
  }

  lemma {:induction false} FirstOfPrefix(s: seq<Vec>, t: seq<Vec>, k: nat)
    requires k <= |t| <= |s| && t == s[..|t|]
    ensures FirstOf(t, k) == FirstOf(s, k)
  {
    if k > 0 {
      FirstOfPrefix(s, t, k - 1);
    }
  }

  /** `cells` is `start` with the cells of `marked` seen empty on `tick`. */
  ghost predicate MarkedAs(cells: array2<Cell>, start: map<Vec, Cell>, marked: set<Vec>, tick: int)
    reads cells
  {
    && start.Keys == Cells(Dims(cells.Length1, cells.Length0))
    && forall y, x :: 0 <= y < cells.Length0 && 0 <= x < cells.Length1 ==>
         cells[y, x] == if Vec(x, y) in marked then Seen(start[Vec(x, y)], tick, 0) else start[Vec(x, y)]
  }

  /** Cell-by-cell agreement with `Mark` is agreement of the whole grid. */
  lemma GridMarked(cells: array2<Cell>, start: map<Vec, Cell>, marked: set<Vec>, tick: int)
    requires MarkedAs(cells, start, marked, tick)
    ensures Grid(cells) == Mark(start, marked, tick)
  {
    forall p | p in start ensures Grid(cells)[p] == Mark(start, marked, tick)[p] {
      assert cells[p.y, p.x] == Grid(cells)[p];
    }
  }

  /** `seen(tick, 0)` on the cell at `pos`. */
  method SeeEmpty(cells: array2<Cell>, pos: Vec, tick: int, ghost start: map<Vec, Cell>, ghost marked: set<Vec>)
    requires WithinBounds(pos, Dims(cells.Length1, cells.Length0))
    requires MarkedAs(cells, start, marked, tick)
    modifies cells
    ensures MarkedAs(cells, start, marked + {pos}, tick)
  {
    cells[pos.y, pos.x] := Seen(cells[pos.y, pos.x], tick, 0);
  }

  /** The ray pass along one heading from one own pac. */
  method MarkSight(view: View, cells: array2<Cell>, from: Vec, heading: Vec)
    requires cells.Length0 == view.height && cells.Length1 == view.width
    requires WithinBounds(from, view.Dims()) && heading in Headings()
    modifies cells
    ensures Grid(cells) == Mark(old(Grid(cells)), SightSet(view, from, heading), view.tick)
  {
    ghost var start := Grid(cells);
    GridAt(cells);
    var ray := Ray(view.Dims(), from, heading, true);
    ghost var sight := Sight(view, from, heading);
    SightInGrid(view, from, heading);
    var k := 0;
    while k < |ray|
      invariant k <= |sight| && sight == ray[..|sight|]
      invariant MarkedAs(cells, start, FirstOf(sight, k), view.tick)
    {
      var pos := ray[k];
      if TileAt(view, pos.x, pos.y) == Some(Wall) {
        break;
      }
      assert pos == sight[k];
      SeeEmpty(cells, pos, view.tick, start, FirstOf(sight, k));
      k := k + 1;
    }
    assert k == |sight|;
    FirstOfAll(sight);
    GridMarked(cells, start, FirstOf(sight, k), view.tick);
  }

  /** The ray passes of one own pac, along the four headings. */
  method MarkAround(view: View, cells: array2<Cell>, from: Vec)
    requires cells.Length0 == view.height && cells.Length1 == view.width
    requires WithinBounds(from, view.Dims())
    modifies cells
    ensures Grid(cells) == Mark(old(Grid(cells)), SightsOf(view, from, Headings()), view.tick)
  {
    ghost var start := Grid(cells);
    var headings := Headings();
    for j := 0 to |headings|
      invariant Grid(cells) == Mark(start, SightsOf(view, from, headings[..j]), view.tick)
    {
      var heading := headings[j];
      assert headings[..j + 1] == headings[..j] + [heading];
      MarkSight(view, cells, from, heading);
      MarkTwice(start, SightsOf(view, from, headings[..j]), SightSet(view, from, heading), view.tick);
      SightsOfSnoc(view, from, headings[..j], heading);
    }
    assert headings[..|headings|] == headings;
  }

  /** The ray pass of `update`: along each of the four headings from each own pac, every cell
      before the first wall is seen empty on this tick. Enemy reports mark nothing. */
  method MarkSeen(view: View, cells: array2<Cell>)
    requires cells.Length0 == view.height && cells.Length1 == view.width
    requires forall s :: s in view.pacs && s.team == Self ==> WithinBounds(s.pos, view.Dims())
    modifies cells
    ensures Grid(cells) == Mark(old(Grid(cells)), SeenFrom(view, view.pacs), view.tick)
  {
    ghost var start := Grid(cells);
    for i := 0 to |view.pacs|
      invariant Grid(cells) == Mark(start, SeenFrom(view, view.pacs[..i]), view.tick)
    {
      var pac := view.pacs[i];
      assert view.pacs[..i + 1] == view.pacs[..i] + [pac];
      if pac.team != Self {
        SeenFromSnocOther(view, view.pacs[..i], pac);
        continue;
      }
      MarkAround(view, cells, pac.pos);
      MarkTwice(start, SeenFrom(view, view.pacs[..i]), SightsOf(view, pac.pos, Headings()), view.tick);
      SeenFromSnocOwn(view, view.pacs[..i], pac);
    }
    assert view.pacs[..|view.pacs|] == view.pacs;
  }

  /** `g` after the pellet reports, in order: each sets the value of its cell on `tick`. */
  ghost function PlacePellets(g: map<Vec, Cell>, pellets: seq<Pellet>, tick: int): (r: map<Vec, Cell>)
    ensures r.Keys == g.Keys
    decreases |pellets|
  {
    if pellets == [] then g
    else
      var r := PlacePellets(g, pellets[..|pellets| - 1], tick);
      var last := pellets[|pellets| - 1];
      if last.pos in r then r[last.pos := Seen(r[last.pos], tick, last.value)] else r
  }

  /** The pellet pass of `update`. */
  method PlaceAll(view: View, cells: array2<Cell>)
    requires cells.Length0 == view.height && cells.Length1 == view.width
    requires forall pellet :: pellet in view.pellets ==> WithinBounds(pellet.pos, view.Dims())
    modifies cells
    ensures Grid(cells) == PlacePellets(old(Grid(cells)), view.pellets, view.tick)
  {
    ghost var start := Grid(cells);
    for i := 0 to |view.pellets|
      invariant Grid(cells) == PlacePellets(start, view.pellets[..i], view.tick)
    {
      var pellet := view.pellets[i];
      assert view.pellets[..i + 1][..i] == view.pellets[..i];
      ghost var g := Grid(cells);
      cells[pellet.pos.y, pellet.pos.x] := Seen(cells[pellet.pos.y, pellet.pos.x], view.tick, pellet.value);
      assert Grid(cells) == g[pellet.pos := Seen(g[pellet.pos], view.tick, pellet.value)];
    }
    assert view.pellets[..|view.pellets|] == view.pellets;
  }

  /** Each cell after the pellet reports: the last report at it wins. */
  lemma {:induction false} PlacePelletsAt(g: map<Vec, Cell>, pellets: seq<Pellet>, tick: int, p: Vec)
    requires p in g
    ensures PlacePellets(g, pellets, tick)[p] == match LastPellet(pellets, p)
      case Some(v) => Seen(g[p], tick, v)
      case None => g[p]
    decreases |pellets|
  {
    if pellets != [] {
      PlacePelletsAt(g, pellets[..|pellets| - 1], tick, p);
    }
  }

  /** Every cell of `g` as the turn's observations leave it. */
  ghost function Observe(view: View, g: map<Vec, Cell>): (r: map<Vec, Cell>)
    ensures r.Keys == g.Keys
  {
    map p | p in g :: Observed(view, g[p], p)
  }

  /** The two passes together are the observation of every cell. */
  lemma PassesObserve(view: View, g: map<Vec, Cell>)
    ensures PlacePellets(Mark(g, SeenFrom(view, view.pacs), view.tick), view.pellets, view.tick) == Observe(view, g)
  {
    var m := Mark(g, SeenFrom(view, view.pacs), view.tick);
    forall p | p in g
      ensures PlacePellets(m, view.pellets, view.tick)[p] == Observe(view, g)[p]
    {
      PlacePelletsAt(m, view.pellets, view.tick, p);
    }
  }

  /** `update`: the ray pass and then the pellet pass. Each cell becomes its observation. */
  method Update(view: View, cells: array2<Cell>)
    requires cells.Length0 == view.height && cells.Length1 == view.width
    requires forall s :: s in view.pacs && s.team == Self ==> WithinBounds(s.pos, view.Dims())
    requires forall pellet :: pellet in view.pellets ==> WithinBounds(pellet.pos, view.Dims())
    modifies cells
    ensures Grid(cells) == Observe(view, old(Grid(cells)))
  {
    ghost var start := Grid(cells);
    MarkSeen(view, cells);
    PlaceAll(view, cells);
    PassesObserve(view, start);
  }

  /** Observing the same turn again changes nothing. */
  lemma ObserveIdempotent(view: View, g: map<Vec, Cell>)
    ensures Observe(view, Observe(view, g)) == Observe(view, g)
  {
  }

  /** An own pac inside the grid that does not stand on a wall sees its own cell. */
  lemma OwnCellSeen(view: View, s: PacSensor)
    requires s in view.pacs && s.team == Self && WithinBounds(s.pos, view.Dims())
    requires TileAt(view, s.pos.x, s.pos.y) != Some(Wall)
    ensures s.pos in SeenFrom(view, view.pacs)
  {
    var h := Vec(0, 1);
    assert h in Headings();
    var ray := RayFrom(view.Dims(), s.pos, h, true, RayLimit(view.Dims(), h));
    assert |ray| == view.height > 0 && ray[0] == s.pos;
    assert UntilWall(view, ray) == [s.pos] + UntilWall(view, ray[1..]);
    assert s.pos in Sight(view, s.pos, h);
  }
}
