/** Grid traversal primitives: positions, bounds, wrap-around, rays,
    neighbourhoods and the four compass headings. */
module Traverse {

  /** A grid position (or a step between positions). */
  datatype Vec = Vec(x: int, y: int)

  /** The size of the grid: `width` columns and `height` rows. */
  datatype Dims = Dims(width: nat, height: nat)

  function Add(a: Vec, b: Vec): Vec {
    Vec(a.x + b.x, a.y + b.y)
  }

  function Sub(a: Vec, b: Vec): Vec {
    Vec(a.x - b.x, a.y - b.y)
  }

  function Abs(n: int): nat {
    if n < 0 then -n else n
  }

  function Sign(n: int): int {
    if n < 0 then -1 else if n == 0 then 0 else 1
  }

  /** Manhattan distance (`Vec.l1`). */
  function L1(a: Vec, b: Vec): nat {
    Abs(a.x - b.x) + Abs(a.y - b.y)
  }

  lemma L1Zero(a: Vec, b: Vec)
    ensures L1(a, b) == 0 <==> a == b
  {
  }

  /** The heading of a vector (`Vec.unit`), taken component-wise. */
  function Unit(v: Vec): Vec {
    Vec(Sign(v.x), Sign(v.y))
  }

  function Min(a: int, b: int): int {
    if a <= b then a else b
  }

  function Max(a: int, b: int): int {
    if a >= b then a else b
  }

  /** Row-major order on positions: by row, then by column. */
  predicate Before(p: Vec, q: Vec) {
    p.y < q.y || (p.y == q.y && p.x < q.x)
  }

  /** A sequence strictly increasing in row-major order (so also free of duplicates). */
  predicate RowMajor(s: seq<Vec>) {
    forall i, j :: 0 <= i < j < |s| ==> Before(s[i], s[j])
  }

  /** A cell of a row-major sequence does not occur before its own position. */
  lemma RowMajorFresh(s: seq<Vec>, j: nat)
    requires RowMajor(s) && j < |s|
    ensures s[j] !in s[..j]
  {
    forall i | 0 <= i < j ensures s[..j][i] != s[j] {
      assert Before(s[i], s[j]);
    }
  }

  /** A row-major sequence has as many elements as cells. */
  lemma {:induction false} RowMajorCard(s: seq<Vec>)
    requires RowMajor(s)
    ensures |set q | q in s| == |s|
  {
    if s != [] {
      var t := s[1..];
      assert RowMajor(t) by {
        forall i, j | 0 <= i < j < |t| ensures Before(t[i], t[j]) {
          assert t[i] == s[i + 1] && t[j] == s[j + 1];
        }
      }
      RowMajorCard(t);
      assert (set q | q in s) == (set q | q in t) + {s[0]};
      assert s[0] !in (set q | q in t) by {
        forall j | 0 <= j < |t| ensures t[j] != s[0] {
          assert Before(s[0], s[j + 1]);
        }
      }
    }
  }

  /** The smallest distance from `p` to any edge of the grid; negative when `p` is outside. */
  function DistanceToEdge(p: Vec, dims: Dims): (r: int)
    ensures r <= p.x && r <= dims.width - p.x - 1 && r <= p.y && r <= dims.height - p.y - 1
    ensures r == p.x || r == dims.width - p.x - 1 || r == p.y || r == dims.height - p.y - 1
  {
    Min(Min(p.x, dims.width - p.x - 1), Min(p.y, dims.height - p.y - 1))
  }

  /** `withinBounds`, written as the coordinate ranges of the grid; `WithinBoundsIff`
      shows it is the source's test `distanceToEdge(pos, dims) >= 0`. */
  predicate WithinBounds(p: Vec, dims: Dims)
  {
    0 <= p.x < dims.width && 0 <= p.y < dims.height
  }

  lemma WithinBoundsIff(p: Vec, dims: Dims)
    ensures WithinBounds(p, dims) <==> DistanceToEdge(p, dims) >= 0
  {
  }

  /** Every cell of the grid, as a set. */
  function Cells(dims: Dims): (r: set<Vec>)
    ensures forall p :: p in r <==> WithinBounds(p, dims)
  {
    set x, y | 0 <= x < dims.width && 0 <= y < dims.height :: Vec(x, y)
  }

  /** `wrap`: moves a coordinate that left the grid by less than one width (height)
      back in from the opposite edge. */
  function Wrap(pos: Vec, dims: Dims): (r: Vec)
    ensures WithinBounds(pos, dims) ==> r == pos
    ensures -(dims.width as int) <= pos.x < 2 * dims.width && -(dims.height as int) <= pos.y < 2 * dims.height
            ==> WithinBounds(r, dims)
    ensures (r.x == pos.x || r.x == pos.x + dims.width || r.x == pos.x - dims.width)
    ensures (r.y == pos.y || r.y == pos.y + dims.height || r.y == pos.y - dims.height)
  {
    var x := if pos.x < 0 then pos.x + dims.width
             else if pos.x >= dims.width then pos.x - dims.width
             else pos.x;
    var y := if pos.y < 0 then pos.y + dims.height
             else if pos.y >= dims.height then pos.y - dims.height
             else pos.y;
    Vec(x, y)
  }

  /** The number of positions a ray yields for `step`. */
  function RayLimit(dims: Dims, step: Vec): nat {
    var limit := if step.x != 0 then dims.width else 0;
    if step.y != 0 then Max(limit, dims.height) else limit
  }

  /** One step of the ray cursor. */
  function Advance(current: Vec, step: Vec, dims: Dims, wrapping: bool): Vec {
    if wrapping then Wrap(Add(current, step), dims) else Add(current, step)
  }

  /** The `n` positions a ray yields from `from`: `from` itself and then each step. */
  function RayFrom(dims: Dims, from: Vec, step: Vec, wrapping: bool, n: nat): (r: seq<Vec>)
    ensures |r| == n
    ensures n > 0 ==> r[0] == from
    decreases n
  {
    if n == 0 then [] else [from] + RayFrom(dims, Advance(from, step, dims, wrapping), step, wrapping, n - 1)
  }

  /** `ray`: steps a cursor from `from`, yielding each position before moving on. */
  method Ray(dims: Dims, from: Vec, step: Vec, wrapping: bool) returns (r: seq<Vec>)
    ensures r == RayFrom(dims, from, step, wrapping, RayLimit(dims, step))
  {
    var current := from;
    var limit := RayLimit(dims, step);
    r := [];
    for i := 0 to limit
      invariant |r| == i
      invariant r + RayFrom(dims, current, step, wrapping, limit - i) == RayFrom(dims, from, step, wrapping, limit)
    {
      assert RayFrom(dims, current, step, wrapping, limit - i)
          == [current] + RayFrom(dims, Advance(current, step, dims, wrapping), step, wrapping, limit - i - 1);
      r := r + [current];
      current := Add(current, step);
      if wrapping {
        current := Wrap(current, dims);
      }
    }
  }

  /** How many positions a ray yields for each kind of step. */
  lemma RayLengths(dims: Dims, from: Vec, step: Vec, wrapping: bool)
    ensures var n := |RayFrom(dims, from, step, wrapping, RayLimit(dims, step))|;
      && (step.x != 0 && step.y == 0 ==> n == dims.width)
      && (step.x == 0 && step.y != 0 ==> n == dims.height)
      && (step.x != 0 && step.y != 0 ==> n == Max(dims.width, dims.height))
      && (step == Vec(0, 0) ==> n == 0)
  {
  }

  /** A step of at most one cell along each axis. */
  predicate IsStep(step: Vec) {
    -1 <= step.x <= 1 && -1 <= step.y <= 1
  }

  /** With wrapping on, a ray from a cell of the grid by single steps never leaves the grid. */
  lemma {:induction false} RayWithinBounds(dims: Dims, from: Vec, step: Vec, n: nat)
    requires WithinBounds(from, dims) && IsStep(step)
    ensures forall p :: p in RayFrom(dims, from, step, true, n) ==> WithinBounds(p, dims)
    decreases n
  {
    if n > 0 {
      var next := Advance(from, step, dims, true);
      RayWithinBounds(dims, next, step, n - 1);
      assert RayFrom(dims, from, step, true, n) == [from] + RayFrom(dims, next, step, true, n - 1);
    }
  }

  /** `all`: every cell of the grid, row by row. */
  method All(dims: Dims) returns (r: seq<Vec>)
    ensures forall p :: p in r <==> WithinBounds(p, dims)
    ensures RowMajor(r)
    ensures |r| == dims.width * dims.height
  {
    r := [];
    var y := 0;
    while y < dims.height
      invariant 0 <= y <= dims.height
      invariant |r| == y * dims.width
      invariant RowMajor(r)
      invariant forall p :: p in r <==> WithinBounds(p, dims) && p.y < y
      invariant forall i :: 0 <= i < |r| ==> r[i].y < y
    {
      var x := 0;
      while x < dims.width
        invariant 0 <= x <= dims.width
        invariant |r| == y * dims.width + x
        invariant RowMajor(r)
        invariant forall p :: p in r <==> WithinBounds(p, dims) && (p.y < y || (p.y == y && p.x < x))
        invariant forall i :: 0 <= i < |r| ==> Before(r[i], Vec(x, y))
      {
        r := r + [Vec(x, y)];
        x := x + 1;
      }
      assert (y + 1) * dims.width == y * dims.width + dims.width;
      y := y + 1;
    }
  }

  /** `neighbours`: the cells of the grid within Manhattan distance `range` of `pos`
      (`pos` included), scanning the surrounding square row by row, without wrap-around. */
  method Neighbours(pos: Vec, dims: Dims, range: int) returns (r: seq<Vec>)
    ensures forall p :: p in r <==> WithinBounds(p, dims) && L1(pos, p) <= range
    ensures RowMajor(r)
    ensures range == 1 ==> r == Adjacent(pos, dims)
  {
    r := [];
    var y := pos.y - range;
    while y <= pos.y + range
      invariant range >= 0 ==> pos.y - range <= y <= pos.y + range + 1
      invariant RowMajor(r)
      invariant forall p :: p in r <==> WithinBounds(p, dims) && L1(pos, p) <= range && p.y < y
      invariant forall i :: 0 <= i < |r| ==> r[i].y < y
      decreases pos.y + range - y
    {
      var x := pos.x - range;
      while x <= pos.x + range
        invariant pos.x - range <= x <= pos.x + range + 1
        invariant RowMajor(r)
        invariant forall p :: p in r <==> WithinBounds(p, dims) && L1(pos, p) <= range && (p.y < y || (p.y == y && p.x < x))
        invariant forall i :: 0 <= i < |r| ==> Before(r[i], Vec(x, y))
        decreases pos.x + range - x
      {
        var n := Vec(x, y);
        if L1(pos, n) <= range && WithinBounds(n, dims) {
          r := r + [n];
        }
        x := x + 1;
      }
      y := y + 1;
    }
    if range == 1 {
      AdjacentMembers(pos, dims);
      RowMajorUnique(r, Adjacent(pos, dims));
    }
  }

  /** The cells yielded by `neighbours(pos, dims)` with the default range 1, in order:
      north, west, `pos` itself, east, south, each only when inside the grid. */
  function Adjacent(pos: Vec, dims: Dims): (r: seq<Vec>)
    ensures forall p :: p in r ==> WithinBounds(p, dims)
    ensures pos in r <==> WithinBounds(pos, dims)
  {
    var candidates := [Vec(pos.x, pos.y - 1), Vec(pos.x - 1, pos.y), pos, Vec(pos.x + 1, pos.y), Vec(pos.x, pos.y + 1)];
    KeepWithinBounds(candidates, dims)
  }

  function KeepWithinBounds(s: seq<Vec>, dims: Dims): (r: seq<Vec>)
    ensures forall p :: p in r <==> p in s && WithinBounds(p, dims)
    ensures |r| <= |s|
  {
    if s == [] then []
    else if WithinBounds(s[0], dims) then [s[0]] + KeepWithinBounds(s[1..], dims)
    else KeepWithinBounds(s[1..], dims)
  }

  /** The kept members stay in their order: each lies at or after its own place in `s`. */
  lemma {:induction false} KeptInOrder(s: seq<Vec>, dims: Dims)
    ensures forall i :: 0 <= i < |KeepWithinBounds(s, dims)| ==> exists j :: i <= j < |s| && KeepWithinBounds(s, dims)[i] == s[j]
    decreases |s|
  {
    if s != [] {
      KeptInOrder(s[1..], dims);
      var rest := KeepWithinBounds(s[1..], dims);
      var r := KeepWithinBounds(s, dims);
      var kept := WithinBounds(s[0], dims);
      assert kept ==> r == [s[0]] + rest;
      assert !kept ==> r == rest;
      forall i | 0 <= i < |r| ensures exists j :: i <= j < |s| && r[i] == s[j] {
        if kept && i == 0 {
          assert r[0] == s[0];
        } else {
          var k := if kept then i - 1 else i;
          assert r[i] == rest[k];
          var j :| k <= j < |s[1..]| && rest[k] == s[1..][j];
          assert i <= j + 1 < |s| && r[i] == s[j + 1];
        }
      }
    } else {
      assert |KeepWithinBounds(s, dims)| == 0;
    }
  }

  /** The range-1 neighbourhood holds exactly the in-bounds cells at distance at most one, in row-major order. */
  lemma AdjacentMembers(pos: Vec, dims: Dims)
    ensures forall p :: p in Adjacent(pos, dims) <==> WithinBounds(p, dims) && L1(pos, p) <= 1
    ensures RowMajor(Adjacent(pos, dims))
    ensures WithinBounds(pos, dims) ==> pos in Adjacent(pos, dims)
  {
    var s := [Vec(pos.x, pos.y - 1), Vec(pos.x - 1, pos.y), pos, Vec(pos.x + 1, pos.y), Vec(pos.x, pos.y + 1)];
    assert RowMajor(s);
    forall p
      ensures p in s <==> L1(pos, p) <= 1
    {
      UnitDiamond(pos, p);
    }
    SubsequenceRowMajor(s, dims);
  }

  lemma UnitDiamond(pos: Vec, p: Vec)
    ensures L1(pos, p) <= 1 <==>
      p in [Vec(pos.x, pos.y - 1), Vec(pos.x - 1, pos.y), pos, Vec(pos.x + 1, pos.y), Vec(pos.x, pos.y + 1)]
  {
  }

  lemma {:induction false} SubsequenceRowMajor(s: seq<Vec>, dims: Dims)
    requires RowMajor(s)
    ensures RowMajor(KeepWithinBounds(s, dims))
  {
    if s != [] {
      SubsequenceRowMajor(s[1..], dims);
      KeptInOrder(s[1..], dims);
      var rest := KeepWithinBounds(s[1..], dims);
      forall i | 0 <= i < |rest|
        ensures Before(s[0], rest[i])
      {
        var j :| i <= j < |s[1..]| && rest[i] == s[1..][j];
        assert rest[i] == s[j + 1];
      }
    }
  }

  /** Every other member of a row-major sequence comes after its first element. */
  lemma RowMajorFirst(s: seq<Vec>, p: Vec)
    requires RowMajor(s) && p in s
    ensures p == s[0] || Before(s[0], p)
  {
    var i :| 0 <= i < |s| && s[i] == p;
    if i > 0 { assert Before(s[0], s[i]); }
  }

  /** Two row-major sequences with the same members are the same sequence. */
  lemma {:induction false} RowMajorUnique(a: seq<Vec>, b: seq<Vec>)
    requires RowMajor(a) && RowMajor(b)
    requires forall p :: p in a <==> p in b
    ensures a == b
  {
    if a != [] { assert a[0] in a; }
    if b != [] { assert b[0] in b; }
    if a != [] && b != [] {
      RowMajorFirst(a, b[0]);
      RowMajorFirst(b, a[0]);
      assert a[0] == b[0];
      forall p
        ensures p in a[1..] <==> p in b[1..]
      {
        RowMajorTail(a, p);
        RowMajorTail(b, p);
      }
      RowMajorUnique(a[1..], b[1..]);
      assert a == [a[0]] + a[1..];
      assert b == [b[0]] + b[1..];
    }
  }

  /** Appending a cell after every member keeps a sequence in row-major order. */
  lemma RowMajorAppend(s: seq<Vec>, p: Vec)
    requires RowMajor(s) && forall q :: q in s ==> Before(q, p)
    ensures RowMajor(s + [p])
  {
    var t := s + [p];
    forall i, j | 0 <= i < j < |t| ensures Before(t[i], t[j]) {
      assert t[i] in s;
    }
  }

  /** The tail of a row-major sequence holds every member but the first. */
  lemma RowMajorTail(s: seq<Vec>, p: Vec)
    requires RowMajor(s) && s != []
    ensures RowMajor(s[1..])
    ensures p in s[1..] <==> p in s && p != s[0]
  {
    if p in s && p != s[0] {
      var i :| 0 <= i < |s| && s[i] == p;
      assert s[1..][i - 1] == p;
    }
    if p in s[1..] {
      var i :| 0 <= i < |s| - 1 && s[1..][i] == p;
      assert Before(s[0], s[i + 1]);
    }
  }

  /** A heading: a unit step along one axis. */
  predicate IsAxisUnit(v: Vec) {
    L1(v, Vec(0, 0)) == 1
  }

  /** `headings`: south, east, west, north. */
  function Headings(): (r: seq<Vec>)
    ensures |r| == 4
    ensures forall h :: h in r <==> IsAxisUnit(h)
    ensures forall i, j :: 0 <= i < j < |r| ==> r[i] != r[j]
  {
    [Vec(0, 1), Vec(1, 0), Vec(-1, 0), Vec(0, -1)]
  }

  /** The entries of a grid indexed `[y, x]` as a map from cell to entry, for stating what a
      pass over the grid leaves behind. */
  ghost function Grid<T>(a: array2<T>): (g: map<Vec, T>)
    reads a
    ensures g.Keys == Cells(Dims(a.Length1, a.Length0))
  {
    map p | p in Cells(Dims(a.Length1, a.Length0)) :: a[p.y, p.x]
  }

  /** Reading `Grid` back entry by entry. */
  lemma GridAt<T>(a: array2<T>)
    ensures forall y, x :: 0 <= y < a.Length0 && 0 <= x < a.Length1 ==> Grid(a)[Vec(x, y)] == a[y, x]
  {
  }

  /** Writes the entry of cell `p`. */
  method Put<T>(a: array2<T>, p: Vec, v: T)
    requires WithinBounds(p, Dims(a.Length1, a.Length0))
    modifies a
    ensures Grid(a) == old(Grid(a))[p := v]
  {
    a[p.y, p.x] := v;
  }

  /** Reads every entry of the grid into a map. */
  method Snapshot<T>(a: array2<T>) returns (g: map<Vec, T>)
    ensures g == Grid(a)
  {
    g := map[];
    for y := 0 to a.Length0
      invariant forall p :: p in g <==> WithinBounds(p, Dims(a.Length1, a.Length0)) && p.y < y
      invariant forall p :: p in g ==> g[p] == a[p.y, p.x]
    {
      for x := 0 to a.Length1
        invariant forall p :: p in g <==> WithinBounds(p, Dims(a.Length1, a.Length0)) && (p.y < y || (p.y == y && p.x < x))
        invariant forall p :: p in g ==> g[p] == a[p.y, p.x]
      {
        g := g[Vec(x, y) := a[y, x]];
      }
    }
  }
}
