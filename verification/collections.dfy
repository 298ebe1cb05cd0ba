/** Small collection helpers: building and copying 2D grids, selecting the best item,
    filtering, grouping, summing and shuffling. None of them changes its input. */
module Collections {
  import opened Wrappers

  /** A JavaScript number as the helpers compare it: a real or one of the two infinities. */
  datatype Number = NegInf | Real(r: real) | PosInf

  predicate Less(a: Number, b: Number) {
    match (a, b)
    case (NegInf, NegInf) => false
    case (NegInf, _) => true
    case (Real(x), Real(y)) => x < y
    case (Real(_), PosInf) => true
    case _ => false
  }

  /** `Less` is a strict total order. */
  lemma LessIsStrictTotalOrder(a: Number, b: Number, c: Number)
    ensures !Less(a, a)
    ensures Less(a, b) ==> !Less(b, a)
    ensures Less(a, b) && Less(b, c) ==> Less(a, c)
    ensures a != b ==> Less(a, b) || Less(b, a)
  {
  }

  /** `create1D`: `length` copies of `initial`. */
  method Create1D<T(0)>(length: nat, initial: T) returns (a: array<T>)
    ensures fresh(a) && a.Length == length
    ensures forall i :: 0 <= i < length ==> a[i] == initial
  {
    a := new T[length];
    for i := 0 to length
      invariant forall j :: 0 <= j < i ==> a[j] == initial
    {
      a[i] := initial;
    }
  }

  /** `create2D`: `height` rows of `width` entries, all `initial`; indexed `[y, x]`. */
  method Create2D<T(0)>(width: nat, height: nat, initial: T) returns (a: array2<T>)
    ensures fresh(a) && a.Length0 == height && a.Length1 == width
    ensures forall y, x :: 0 <= y < height && 0 <= x < width ==> a[y, x] == initial
  {
    a := new T[height, width];
    for y := 0 to height
      invariant forall y', x :: 0 <= y' < y && 0 <= x < width ==> a[y', x] == initial
    {
      for x := 0 to width
        invariant forall y', x' :: 0 <= y' < y && 0 <= x' < width ==> a[y', x'] == initial
        invariant forall x' :: 0 <= x' < x ==> a[y, x'] == initial
      {
        a[y, x] := initial;
      }
    }
  }

  /** `init2D`: entry `[y, x]` is `initializer(x, y)`. */
  method Init2D<T(0)>(width: nat, height: nat, initializer: (int, int) -> T) returns (a: array2<T>)
    ensures fresh(a) && a.Length0 == height && a.Length1 == width
    ensures forall y, x :: 0 <= y < height && 0 <= x < width ==> a[y, x] == initializer(x, y)
  {
    a := new T[height, width];
    for y := 0 to height
      invariant forall y', x :: 0 <= y' < y && 0 <= x < width ==> a[y', x] == initializer(x, y')
    {
      for x := 0 to width
        invariant forall y', x' :: 0 <= y' < y && 0 <= x' < width ==> a[y', x'] == initializer(x', y')
        invariant forall x' :: 0 <= x' < x ==> a[y, x'] == initializer(x', y)
      {
        a[y, x] := initializer(x, y);
      }
    }
  }

  /** `clone2D`: a new grid with the shape and contents of `source`. Being fresh, later
      writes to the copy cannot reach `source`. */
  method Clone2D<T(0)>(source: array2<T>) returns (a: array2<T>)
    ensures fresh(a) && a.Length0 == source.Length0 && a.Length1 == source.Length1
    ensures forall y, x :: 0 <= y < a.Length0 && 0 <= x < a.Length1 ==> a[y, x] == source[y, x]
  {
    a := new T[source.Length0, source.Length1];
    for y := 0 to source.Length0
      invariant forall y', x :: 0 <= y' < y && 0 <= x < source.Length1 ==> a[y', x] == source[y', x]
    {
      for x := 0 to source.Length1
        invariant forall y', x' :: 0 <= y' < y && 0 <= x' < source.Length1 ==> a[y', x'] == source[y', x']
        invariant forall x' :: 0 <= x' < x ==> a[y, x'] == source[y, x']
      {
        a[y, x] := source[y, x];
      }
    }
  }

  /** `k` is the first index whose value is strictly smaller than every other value and than +Infinity. */
  predicate IsFirstMin(values: seq<Number>, k: int) {
    && 0 <= k < |values|
    && Less(values[k], PosInf)
    && (forall j :: 0 <= j < k ==> Less(values[k], values[j]))
    && (forall j :: k < j < |values| ==> !Less(values[j], values[k]))
  }

  /** `k` is the first index whose value is strictly larger than every other value and than -Infinity. */
  predicate IsFirstMax(values: seq<Number>, k: int) {
    && 0 <= k < |values|
    && Less(NegInf, values[k])
    && (forall j :: 0 <= j < k ==> Less(values[j], values[k]))
    && (forall j :: k < j < |values| ==> !Less(values[k], values[j]))
  }

  function Map<T, U>(items: seq<T>, f: T -> U): (r: seq<U>)
    ensures |r| == |items| && forall i :: 0 <= i < |items| ==> r[i] == f(items[i])
  {
    seq(|items|, i requires 0 <= i < |items| => f(items[i]))
  }

  /** `minBy`: the first item with the strictly smallest finite selector value; `None` when there
      is no item, or every item selects +Infinity. */
  method MinBy<T>(items: seq<T>, selector: T -> Number) returns (r: Option<T>)
    ensures r.None? <==> forall i :: 0 <= i < |items| ==> selector(items[i]) == PosInf
    ensures r.Some? ==> exists k :: IsFirstMin(Map(items, selector), k) && items[k] == r.value
  {
    var values := Map(items, selector);
    r := None;
    var currentValue := PosInf;
    ghost var k := -1;
    for i := 0 to |items|
      invariant r.None? <==> forall j :: 0 <= j < i ==> values[j] == PosInf
      invariant r.None? ==> k == -1 && currentValue == PosInf
      invariant r.Some? ==> 0 <= k < i && currentValue == values[k] && r.value == items[k]
      invariant r.Some? ==> Less(values[k], PosInf)
      invariant r.Some? ==> forall j :: 0 <= j < k ==> Less(values[k], values[j])
      invariant r.Some? ==> forall j :: k < j < i ==> !Less(values[j], values[k])
    {
      var value := selector(items[i]);
      if Less(value, currentValue) {
        forall j | 0 <= j < i ensures Less(value, values[j]) {
          LessIsStrictTotalOrder(value, currentValue, values[j]);
        }
        currentValue := value;
        r := Some(items[i]);
        k := i;
      }
    }
  }

  /** `maxBy`: the first item with the strictly largest finite selector value; `None` when there
      is no item, or every item selects -Infinity. */
  method MaxBy<T>(items: seq<T>, selector: T -> Number) returns (r: Option<T>)
    ensures r.None? <==> forall i :: 0 <= i < |items| ==> selector(items[i]) == NegInf
    ensures r.Some? ==> exists k :: IsFirstMax(Map(items, selector), k) && items[k] == r.value
  {
    var values := Map(items, selector);
    r := None;
    var currentValue := NegInf;
    ghost var k := -1;
    for i := 0 to |items|
      invariant r.None? <==> forall j :: 0 <= j < i ==> values[j] == NegInf
      invariant r.None? ==> k == -1 && currentValue == NegInf
      invariant r.Some? ==> 0 <= k < i && currentValue == values[k] && r.value == items[k]
      invariant r.Some? ==> Less(NegInf, values[k])
      invariant r.Some? ==> forall j :: 0 <= j < k ==> Less(values[j], values[k])
      invariant r.Some? ==> forall j :: k < j < i ==> !Less(values[k], values[j])
    {
      var value := selector(items[i]);
      if Less(currentValue, value) {
        forall j | 0 <= j < i ensures Less(values[j], value) {
          LessIsStrictTotalOrder(values[j], currentValue, value);
        }
        currentValue := value;
        r := Some(items[i]);
        k := i;
      }
    }
  }

  /** `min`: the first strictly smallest finite number; `None` (undefined) when there is none. */
  method Min(items: seq<Number>) returns (r: Option<Number>)
    ensures r.None? <==> forall i :: 0 <= i < |items| ==> items[i] == PosInf
    ensures r.Some? ==> exists k :: IsFirstMin(items, k) && items[k] == r.value
  {
    r := None;
    var currentValue := PosInf;
    ghost var k := -1;
    for i := 0 to |items|
      invariant r.None? <==> forall j :: 0 <= j < i ==> items[j] == PosInf
      invariant r.None? ==> k == -1 && currentValue == PosInf
      invariant r.Some? ==> 0 <= k < i && currentValue == items[k] && r.value == items[k]
      invariant r.Some? ==> Less(items[k], PosInf)
      invariant r.Some? ==> forall j :: 0 <= j < k ==> Less(items[k], items[j])
      invariant r.Some? ==> forall j :: k < j < i ==> !Less(items[j], items[k])
    {
      var value := items[i];
      if Less(value, currentValue) {
        forall j | 0 <= j < i ensures Less(value, items[j]) {
          LessIsStrictTotalOrder(value, currentValue, items[j]);
        }
        currentValue := value;
        r := Some(items[i]);
        k := i;
      }
    }
  }

  /** The items satisfying `keep`, in input order. */
  function Keep<T>(items: seq<T>, keep: T -> bool): (r: seq<T>)
    decreases |items|
  {
    if items == [] then []
    else
      var last := items[|items| - 1];
      Keep(items[..|items| - 1], keep) + (if keep(last) then [last] else [])
  }

  /** The kept items are exactly the input items that satisfy the predicate, in input order:
      kept item `i` sits at an input position strictly after that of kept item `i - 1`. */
  lemma {:induction false} KeepMembers<T>(items: seq<T>, keep: T -> bool)
    ensures forall x :: x in Keep(items, keep) <==> x in items && keep(x)
    ensures |Keep(items, keep)| <= |items|
    ensures exists pos: seq<nat> :: IsOrderedEmbedding(Keep(items, keep), items, pos)
    decreases |items|
  {
    if items != [] {
      var init := items[..|items| - 1];
      var last := items[|items| - 1];
      KeepMembers(init, keep);
      assert items == init + [last];
      var pos: seq<nat> :| IsOrderedEmbedding(Keep(init, keep), init, pos);
      if keep(last) {
        assert IsOrderedEmbedding(Keep(items, keep), items, pos + [|items| - 1]);
      } else {
        assert IsOrderedEmbedding(Keep(items, keep), items, pos);
      }
    } else {
      assert IsOrderedEmbedding(Keep(items, keep), items, []);
    }
  }

  /** `pos` places each element of `sub` at a strictly increasing position of `s`. */
  ghost predicate IsOrderedEmbedding<T>(sub: seq<T>, s: seq<T>, pos: seq<nat>) {
    && |pos| == |sub|
    && (forall i :: 0 <= i < |pos| ==> pos[i] < |s| && s[pos[i]] == sub[i])
    && (forall i, j :: 0 <= i < j < |pos| ==> pos[i] < pos[j])
  }

  /** `filter`: the items satisfying `selector`, in input order. */
  method Filter<T>(items: seq<T>, selector: T -> bool) returns (r: seq<T>)
    ensures r == Keep(items, selector)
  {
    r := [];
    for i := 0 to |items|
      invariant r == Keep(items[..i], selector)
    {
      assert items[..i + 1][..i] == items[..i];
      if selector(items[i]) {
        r := r + [items[i]];
      }
    }
    assert items[..|items|] == items;
  }

  /** `groupBy`: one group per selected key, holding that key's items in input order. */
  method GroupBy<T, K>(items: seq<T>, selector: T -> K) returns (groups: map<K, seq<T>>)
    ensures Grouped(items, selector, groups)
  {
    groups := map[];
    for i := 0 to |items|
      invariant Grouped(items[..i], selector, groups)
    {
      var key := selector(items[i]);
      var group := if key in groups then groups[key] else [];
      GroupedStep(items, selector, groups, i);
      groups := groups[key := group + [items[i]]];
    }
    assert items[..|items|] == items;
  }

  /** `groups` has one entry per key selected by some item, holding the items that select it,
      in input order. */
  ghost predicate Grouped<T, K>(items: seq<T>, selector: T -> K, groups: map<K, seq<T>>) {
    && groups.Keys == (set i | 0 <= i < |items| :: selector(items[i]))
    && forall k :: k in groups ==> groups[k] == Keep(items, x => selector(x) == k)
  }

  /** Appending the next item to its key's group (a new, empty group if the key is new). */
  lemma GroupedStep<T, K>(items: seq<T>, selector: T -> K, groups: map<K, seq<T>>, i: nat)
    requires i < |items| && Grouped(items[..i], selector, groups)
    ensures var key := selector(items[i]);
      Grouped(items[..i + 1], selector,
              groups[key := (if key in groups then groups[key] else []) + [items[i]]])
  {
    assert items[..i + 1][..i] == items[..i];
    var key := selector(items[i]);
    if key !in groups {
      forall j | 0 <= j < i ensures selector(items[..i][j]) != key {
        assert selector(items[j]) in groups.Keys;
      }
      KeepNone(items[..i], x => selector(x) == key);
    }
  }

  lemma {:induction false} KeepNone<T>(items: seq<T>, keep: T -> bool)
    requires forall i :: 0 <= i < |items| ==> !keep(items[i])
    ensures Keep(items, keep) == []
    decreases |items|
  {
    if items != [] {
      KeepNone(items[..|items| - 1], keep);
    }
  }

  /** `j` is the last index whose item selects `k`. */
  predicate IsLastWithKey<T, K(==)>(items: seq<T>, selector: T -> K, k: K, j: int) {
    && 0 <= j < |items|
    && selector(items[j]) == k
    && forall j' :: j < j' < |items| ==> selector(items[j']) != k
  }

  /** `lookup`: each selected key mapped to the last item that selects it. */
  method Lookup<T, K>(items: seq<T>, selector: T -> K) returns (table: map<K, T>)
    ensures table.Keys == set i | 0 <= i < |items| :: selector(items[i])
    ensures forall k :: k in table ==> exists j :: IsLastWithKey(items, selector, k, j) && table[k] == items[j]
  {
    table := map[];
    for i := 0 to |items|
      invariant table.Keys == set j | 0 <= j < i :: selector(items[j])
      invariant forall k :: k in table ==> exists j :: IsLastWithKey(items[..i], selector, k, j) && table[k] == items[j]
    {
      var key := selector(items[i]);
      forall k | k in table && k != key
        ensures exists j :: IsLastWithKey(items[..i + 1], selector, k, j) && table[k] == items[j]
      {
        var j :| IsLastWithKey(items[..i], selector, k, j) && table[k] == items[j];
        assert IsLastWithKey(items[..i + 1], selector, k, j);
      }
      assert IsLastWithKey(items[..i + 1], selector, key, i);
      table := table[key := items[i]];
    }
    assert items[..|items|] == items;
  }

  /** The total of `selector` over `items`. */
  function SumOf<T>(items: seq<T>, selector: T -> real): real
    decreases |items|
  {
    if items == [] then 0.0 else SumOf(items[..|items| - 1], selector) + selector(items[|items| - 1])
  }

  /** Summing splits over concatenation. */
  lemma {:induction false} SumOfAppend<T>(a: seq<T>, b: seq<T>, selector: T -> real)
    ensures SumOf(a + b, selector) == SumOf(a, selector) + SumOf(b, selector)
    decreases |b|
  {
    if b != [] {
      var b' := b[..|b| - 1];
      assert (a + b)[..|a + b| - 1] == a + b';
      SumOfAppend(a, b', selector);
    } else {
      assert a + b == a;
    }
  }

  /** With a non-negative selector, the total is non-negative. */
  lemma {:induction false} SumOfNonNegative<T>(items: seq<T>, selector: T -> real)
    requires forall i :: 0 <= i < |items| ==> selector(items[i]) >= 0.0
    ensures SumOf(items, selector) >= 0.0
    decreases |items|
  {
    if items != [] {
      SumOfNonNegative(items[..|items| - 1], selector);
    }
  }

  /** `sum`: the total of `selector` over the items. */
  method Sum<T>(items: seq<T>, selector: T -> real) returns (total: real)
    ensures total == SumOf(items, selector)
  {
    total := 0.0;
    for i := 0 to |items|
      invariant total == SumOf(items[..i], selector)
    {
      assert items[..i + 1][..i] == items[..i];
      total := total + selector(items[i]);
    }
    assert items[..|items|] == items;
  }

  /** `shuffle`: the items in an arbitrary order. Which item is taken next is the source's
      `Math.random`, modelled as an unconstrained choice. */
  method Shuffle<T>(items: seq<T>) returns (result: seq<T>)
    ensures multiset(result) == multiset(items)
    ensures |result| == |items|
  {
    var remaining := items;
    result := [];
    while |remaining| > 0
      invariant multiset(result) + multiset(remaining) == multiset(items)
      invariant |result| + |remaining| == |items|
    {
      var next :| 0 <= next < |remaining|;
      assert remaining == remaining[..next] + [remaining[next]] + remaining[next + 1..];
      result := result + [remaining[next]];
      remaining := remaining[..next] + remaining[next + 1..];
    }
  }

  /** Every item occurs at most once. */
  predicate Distinct<T(==)>(s: seq<T>) {
    forall i, j :: 0 <= i < j < |s| ==> s[i] != s[j]
  }

  /** A sequence without repeats holds each item at most once. */
  lemma {:induction false} DistinctCount<T>(s: seq<T>, x: T)
    requires Distinct(s)
    ensures multiset(s)[x] <= 1
    decreases |s|
  {
    if s != [] {
      var init := s[..|s| - 1];
      var last := s[|s| - 1];
      assert s == init + [last];
      assert last !in init;
      DistinctCount(init, x);
    }
  }

  /** An item at two positions is counted at least twice. */
  lemma RepeatCount<T>(s: seq<T>, i: nat, j: nat)
    requires i < j < |s|
    ensures s[i] == s[j] ==> multiset(s)[s[i]] >= 2
  {
    assert s == s[..j] + s[j..];
    assert s[i] in s[..j];
    assert s[j] in s[j..];
  }

  /** Reordering a sequence without repeats gives one without repeats. */
  lemma PermutationKeepsDistinct<T>(a: seq<T>, b: seq<T>)
    requires multiset(a) == multiset(b) && Distinct(a)
    ensures Distinct(b)
  {
    forall i, j | 0 <= i < j < |b| ensures b[i] != b[j] {
      RepeatCount(b, i, j);
      DistinctCount(a, b[i]);
    }
  }

  /** A sequence without repeats has as many items as the set of its items. */
  lemma {:induction false} DistinctCardinality<T>(s: seq<T>)
    requires Distinct(s)
    ensures |set x | x in s| == |s|
    decreases |s|
  {
    if s != [] {
      var init := s[..|s| - 1];
      var last := s[|s| - 1];
      assert s == init + [last];
      assert last !in init;
      DistinctCardinality(init);
      assert (set x | x in s) == (set x | x in init) + {last};
    }
  }

  /** `toArray`: the items of a collection, each once, in the order the collection yields them;
      for a set that order is an unconstrained choice. */
  method ToArray<T(==)>(items: set<T>) returns (r: seq<T>)
    ensures forall x :: x in r <==> x in items
    ensures Distinct(r)
  {
    r := [];
    var remaining := items;
    while remaining != {}
      invariant remaining <= items
      invariant forall x :: x in r <==> x in items && x !in remaining
      invariant Distinct(r)
      decreases remaining
    {
      var x :| x in remaining;
      r := r + [x];
      remaining := remaining - {x};
    }
  }
}
