/** Helpers the planners share: discounting a value by the ticks until it is collected, the
    rock-paper-scissors dominance cycle, a pac's top speed, and the pacs still awaiting orders. */
module AgentHelper {
  import opened Wrappers
  import opened Model
  import opened PacBeliefs

  /** `base` to the power `n`. */
  function Pow(base: real, n: nat): (r: real)
    ensures base > 0.0 ==> r > 0.0
    ensures base >= 1.0 ==> r >= 1.0
  {
    if n == 0 then 1.0 else base * Pow(base, n - 1)
  }

  /** With a base of at least one, a larger power is at least as large. */
  lemma {:induction false} PowMonotone(base: real, m: nat, n: nat)
    requires base >= 1.0 && m <= n
    ensures Pow(base, m) <= Pow(base, n)
    decreases n
  {
    if m < n {
      PowMonotone(base, m, n - 1);
      var p := Pow(base, n - 1);
      assert Pow(base, n) - p == (base - 1.0) * p;
      assert (base - 1.0) * p >= 0.0;
    }
  }

  /** `discount`: `value` divided by the discount rate once per tick. */
  function Discount(value: real, ticks: nat, rate: real): (r: real)
    requires rate > 0.0
    ensures ticks == 0 ==> r == value
    ensures value >= 0.0 ==> r >= 0.0
  {
    value / Pow(rate, ticks)
  }

  /** A value collected now is not discounted; a non-negative value stays non-negative; and
      with a rate of at least one, a later collection is worth no more than an earlier one. */
  lemma DiscountProperties(value: real, t1: nat, t2: nat, rate: real)
    requires rate > 0.0
    ensures Discount(value, 0, rate) == value
    ensures value >= 0.0 ==> Discount(value, t1, rate) >= 0.0
    ensures value >= 0.0 && rate >= 1.0 && t1 <= t2 ==> Discount(value, t2, rate) <= Discount(value, t1, rate)
  {
    if value >= 0.0 && rate >= 1.0 && t1 <= t2 {
      PowMonotone(rate, t1, t2);
      DivideByMore(value, Pow(rate, t1), Pow(rate, t2));
    }
  }

  /** Dividing a non-negative value by a larger positive divisor gives no more. */
  lemma DivideByMore(value: real, a: real, b: real)
    requires value >= 0.0 && 0.0 < a <= b
    ensures value / b <= value / a
  {
    var x := value / a;
    var y := value / b;
    assert x >= 0.0 && x * a == value && y * b == value;
    assert x * b - x * a == x * (b - a);
    assert x * (b - a) >= 0.0;
    assert y * b <= x * b;
    assert (x - y) * b >= 0.0;
  }

  /** `dominate`: the form that beats `form`; any other string than the three forms is an error. */
  function Dominate(form: string): (r: Result<string>)
    ensures r.Success? <==> IsForm(form)
    ensures r.Success? ==> IsForm(r.value) && r.value != form
  {
    if form == Scissors then Success(Rock)
    else if form == Paper then Success(Scissors)
    else if form == Rock then Success(Paper)
    else Failure("Unknown form: " + form)
  }

  predicate IsForm(form: string) {
    form == Rock || form == Paper || form == Scissors
  }

  /** Only the three forms are dominated; the dominating form is a different form, and going
      round the cycle three times comes back to the start. */
  lemma DominateCycle(form: string)
    ensures Dominate(form).Success? <==> IsForm(form)
    ensures IsForm(form) ==> IsForm(Dominate(form).value) && Dominate(form).value != form
    ensures IsForm(form) ==> Dominate(Dominate(Dominate(form).value).value).value == form
  {
  }

  /** `maxMovementSpeed`: two cells a tick while speeding, or for an enemy whose ability may
      be ready; one otherwise. */
  function MaxMovementSpeed(pac: Pac, tick: int): (speed: nat)
    ensures speed == 1 || speed == 2
    ensures pac.team == Self && pac.speedUntilTick <= tick ==> speed == 1
    ensures speed == 2 <==> tick < pac.speedUntilTick || (pac.team == Enemy && pac.abilityCooldownUntilTick < tick)
  {
    if tick < pac.speedUntilTick || (pac.team == Enemy && pac.abilityCooldownUntilTick < tick) then 2 else 1
  }

  /** `pacsToControl`: the alive own pacs with no action yet. */
  function PacsToControl(pacs: map<string, Pac>, actions: map<string, Action>): (r: set<Pac>)
    ensures forall p :: p in r <==> p in pacs.Values && p.team == Self && p.alive && Key(p) !in actions
  {
    set p | p in pacs.Values && p.team == Self && p.alive && Key(p) !in actions
  }
}
