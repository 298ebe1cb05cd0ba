/** The value of collecting each cell this turn: its pellet's worth times the chance the pellet
    is still there. Planning clears the cells a pac's path will collect, so that the next pac
    does not count them again. */
module Values {
  import opened Traverse
  import opened CellBeliefs
  import opened AgentBeliefs
  import Collections

  /** The expected value of every cell of `cells`. */
  ghost function Expected(cells: map<Vec, Cell>): (r: map<Vec, real>)
    ensures r.Keys == cells.Keys
  {
    map p | p in cells :: ExpectedValue(cells[p])
  }

  /** A cell worth something in `[0, 1]` of the time is expected to be worth between nothing
      and its pellet's full value; a wall, worth nothing, is expected to be worth nothing. */
  lemma ExpectedBounds(cells: map<Vec, Cell>, p: Vec)
    requires p in cells && cells[p].value >= 0
    requires 0.0 <= cells[p].stillAvailableProbability <= 1.0
    ensures 0.0 <= Expected(cells)[p] <= cells[p].value as real
    ensures cells[p].value == 0 ==> Expected(cells)[p] == 0.0
  {
    var v := cells[p].value as real;
    var prob := cells[p].stillAvailableProbability;
    assert v * prob >= 0.0;
    assert v - v * prob == v * (1.0 - prob) >= 0.0;
  }

  /** `g` with every cell of `path` cleared. */
  ghost function Cleared(g: map<Vec, real>, path: seq<Vec>): (r: map<Vec, real>)
    ensures r.Keys == g.Keys
  {
    map p | p in g :: if p in path then 0.0 else g[p]
  }

  /** Clearing is idempotent, and clearing two paths one after the other clears both. */
  lemma ClearedTwice(g: map<Vec, real>, a: seq<Vec>, b: seq<Vec>)
    ensures Cleared(Cleared(g, a), a) == Cleared(g, a)
    ensures Cleared(Cleared(g, a), b) == Cleared(g, a + b)
  {
    assert forall p :: p in a + b <==> p in a || p in b;
  }

  /** Clearing one more cell. */
  lemma ClearedSnoc(g: map<Vec, real>, path: seq<Vec>, p: Vec)
    requires p in g
    ensures Cleared(g, path + [p]) == Cleared(g, path)[p := 0.0]
  {
    assert forall q :: q in path + [p] <==> q in path || q == p;
  }

  /** `ValueMap`: the expected value of each cell, indexed `[y, x]`. */
  class ValueMap {
    const values: array2<real>

    constructor (values: array2<real>)
      ensures this.values == values
    {
      this.values := values;
    }

    /** `generate`: the expected value of each cell of the beliefs. */
    static method Generate(beliefs: Beliefs) returns (r: ValueMap)
      requires beliefs.Valid()
      ensures fresh(r) && fresh(r.values)
      ensures r.values.Length0 == beliefs.height && r.values.Length1 == beliefs.width
      ensures Grid(r.values) == Expected(Grid(beliefs.cells))
    {
      var g := Snapshot(beliefs.cells);
      var valueMap := Collections.Init2D(beliefs.width, beliefs.height,
        (x, y) => if Vec(x, y) in g then ExpectedValue(g[Vec(x, y)]) else 0.0);
      GridAt(valueMap);
      r := new ValueMap(valueMap);
    }

    /** `clone`: a fresh grid with the same values; clearing the copy leaves this map as it is. */
    method Clone() returns (r: ValueMap)
      ensures fresh(r) && fresh(r.values)
      ensures r.values.Length0 == values.Length0 && r.values.Length1 == values.Length1
      ensures Grid(r.values) == Grid(values)
    {
      var copy := Collections.Clone2D(values);
      GridAt(copy);
      GridAt(values);
      r := new ValueMap(copy);
    }

    /** `clear`: every cell of `path` is worth nothing any more; the rest keep their value. */
    method Clear(path: seq<Vec>)
      requires forall p :: p in path ==> WithinBounds(p, Dims(values.Length1, values.Length0))
      modifies values
      ensures Grid(values) == Cleared(old(Grid(values)), path)
    {
      ghost var start := Grid(values);
      for i := 0 to |path|
        invariant Grid(values) == Cleared(start, path[..i])
      {
        var pos := path[i];
        ClearedSnoc(start, path[..i], pos);
        Put(values, pos, 0.0);
        assert path[..i + 1] == path[..i] + [pos];
      }
      assert path[..|path|] == path;
    }

    /** `value`: the value of the cell `pos`. */
    function Value(pos: Vec): (v: real)
      reads this, values
      requires WithinBounds(pos, Dims(values.Length1, values.Length0))
      ensures v == Grid(values)[pos]
    {
      values[pos.y, pos.x]
    }
  }
}
