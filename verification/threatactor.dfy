/** The threat responder: every own pac whose ability is ready either switches to the form that
    beats the enemy that could reach it at once, or speeds up. */
module ThreatActing {
  import opened Wrappers
  import opened Traverse
  import opened Decimal
  import opened Model
  import opened PacBeliefs
  import opened AgentHelper
  import opened AgentBeliefs
  import opened PathMaps
  import opened Threats
  import Collections

  /** A threat's arrival as `minBy` compares it. */
  function ArrivalNumber(t: Threat): Collections.Number {
    if t.arrivalTicks == Inf then Collections.PosInf else Collections.Real(t.arrivalTicks.n as real)
  }

  /** The tag of a speed action: the closest enemy's key and its arrival, or `*` when no
      enemy can arrive. */
  function SpeedTag(closest: Option<Threat>): (r: string)
    requires closest.Some? ==> closest.value.arrivalTicks.Fin?
    ensures r == "*" <==> closest.None?
  {
    if closest.Some? then Key(closest.value.enemy) + ":" + NatToString(closest.value.arrivalTicks.n) else "*"
  }

  /** A speed tag tells which enemy was closest and when it arrives: `*` exactly when none
      can; otherwise the enemy's key, a colon, and the arrival in digits that read back as it. */
  lemma SpeedTagReadsBack(closest: Option<Threat>)
    requires closest.Some? ==> closest.value.arrivalTicks.Fin?
    ensures SpeedTag(closest) == "*" <==> closest.None?
    ensures closest.Some? ==>
      var tag, key := SpeedTag(closest), Key(closest.value.enemy);
      && |key| < |tag| && tag[..|key|] == key && tag[|key|] == ':' && ':' !in key
      && AllDigits(tag[|key| + 1..]) && ParseNat(tag[|key| + 1..]) == closest.value.arrivalTicks.n
  {
    if closest.Some? {
      var tag, key := SpeedTag(closest), Key(closest.value.enemy);
      var digits := NatToString(closest.value.arrivalTicks.n);
      assert tag == key + ":" + digits;
      assert tag[|key| + 1..] == digits;
      assert key[1..] == NatToString(closest.value.enemy.id);
      assert forall i :: 1 <= i < |key| ==> key[i] == key[1..][i - 1];
      ParseNatToString(closest.value.arrivalTicks.n);
    }
  }

  /** What `chooseOne` does once the closest threat is known: switch to the form that beats an
      enemy that could already be here, unless the pac has that form; otherwise speed up.
      `dominate` fails on an enemy of no known form. */
  function Respond(pac: Pac, closest: Option<Threat>): (r: Result<Action>)
    requires closest.Some? ==> closest.value.arrivalTicks.Fin?
    ensures r.Success? ==> r.value.pac == pac.id && (r.value.intent.Switch? || r.value.intent == Speed)
    ensures r.Failure? <==>
      closest.Some? && closest.value.arrivalTicks == Fin(0) && !IsForm(closest.value.enemy.form)
    ensures r.Success? && r.value.intent.Switch? <==>
      && closest.Some? && closest.value.arrivalTicks == Fin(0) && IsForm(closest.value.enemy.form)
      && Dominate(closest.value.enemy.form).value != pac.form
    ensures r.Success? && r.value.intent.Switch? ==>
      && Dominate(closest.value.enemy.form) == Success(r.value.intent.form)
      && IsForm(r.value.intent.form) && r.value.intent.form != closest.value.enemy.form
      && r.value.tag == Some(Key(closest.value.enemy))
    ensures r.Success? && r.value.intent == Speed ==> r.value.tag == Some(SpeedTag(closest))
  {
    if closest.Some? && closest.value.arrivalTicks.n <= 0 then
      DominateCycle(closest.value.enemy.form);
      match Dominate(closest.value.enemy.form)
      case Failure(e) => Failure(e)
      case Success(dominantForm) =>
        if dominantForm != pac.form then Success(Action(pac.id, Switch(dominantForm), Some(Key(closest.value.enemy))))
        else Success(Action(pac.id, Speed, Some(SpeedTag(closest))))
    else
      Success(Action(pac.id, Speed, Some(SpeedTag(closest))))
  }

  /** `chosen` keeps every action of `actions`, and each action it adds is a switch or a speed
      for a pac to control, under that pac's key, whose ability was ready at `tick`. */
  ghost predicate Responses(pacs: map<string, Pac>, actions: map<string, Action>, chosen: map<string, Action>, tick: int) {
    && (forall k :: k in actions ==> k in chosen && chosen[k] == actions[k])
    && forall k :: k in chosen && k !in actions ==>
         exists p :: && p in PacsToControl(pacs, actions) && k == Key(p)
                     && p.abilityCooldownUntilTick <= tick && chosen[k].pac == p.id
                     && (chosen[k].intent.Switch? || chosen[k].intent == Speed)
  }

  /** Storing one more response, for a pac to control that has none yet, keeps `Responses`. */
  lemma ResponsesStep(pacs: map<string, Pac>, actions: map<string, Action>, chosen: map<string, Action>, tick: int,
                      pac: Pac, action: Action)
    requires Responses(pacs, actions, chosen, tick)
    requires pac in pacs.Values && pac.team == Self && pac.alive && Key(pac) !in chosen
    requires pac.abilityCooldownUntilTick <= tick && action.pac == pac.id
    requires action.intent.Switch? || action.intent == Speed
    ensures Responses(pacs, actions, chosen[Key(pac) := action], tick)
  {
    assert pac in PacsToControl(pacs, actions);
  }

  /** `ThreatActor`: responds to the threats of the enemies seen recently. */
  class ThreatActor {
    const beliefs: Beliefs
    const params: AgentParams

    constructor (beliefs: Beliefs, params: AgentParams)
      ensures this.beliefs == beliefs && this.params == params
    {
      this.beliefs := beliefs;
      this.params := params;
    }

    /** `choose`: the response of every pac to control, in an unconstrained order, stored under
        its key. An unknown enemy form fails the whole choice, as the thrown error does. Every
        existing action is kept, and each pac to control whose ability is ready gets one. */
    method Choose(actions: map<string, Action>) returns (r: Result<map<string, Action>>)
      requires beliefs.cells.Length0 == beliefs.height && beliefs.cells.Length1 == beliefs.width
      requires forall p :: p in beliefs.pacs.Values && p.team == Self ==> WithinBounds(p.pos, beliefs.Bounds())
      ensures r.Success? ==> Responses(beliefs.pacs, actions, r.value, beliefs.tick)
      ensures r.Success? ==> forall p :: p in PacsToControl(beliefs.pacs, actions) && p.abilityCooldownUntilTick <= beliefs.tick ==>
        Key(p) in r.value
      ensures r.Failure? ==> exists e :: e in beliefs.pacs.Values && Nearby(e, beliefs.tick, params) && !IsForm(e.form)
    {
      var threatMap := ThreatMap.Generate(beliefs, params);
      var all := Collections.ToArray(beliefs.pacs.Values);
      var chosen := actions;
      for i := 0 to |all|
        invariant threatMap.Valid() && threatMap.beliefs == beliefs
        invariant Responses(beliefs.pacs, actions, chosen, beliefs.tick)
        invariant forall j :: 0 <= j < i ==>
          all[j].team == Self && all[j].alive && all[j].abilityCooldownUntilTick <= beliefs.tick ==> Key(all[j]) in chosen
      {
        var next := Visit(all[i], threatMap, actions, chosen);
        if next.Failure? {
          var e :| e in threatMap.enemies && !IsForm(e.form);
          assert e in beliefs.pacs.Values && Nearby(e, beliefs.tick, params);
          return Failure(next.error);
        }
        chosen := next.value;
      }
      r := Success(chosen);
    }

    /** One pass of `choose`'s loop: a pac to control that has no action yet gets its
        response, when it has one. */
    method Visit(pac: Pac, threatMap: ThreatMap, actions: map<string, Action>, chosen: map<string, Action>)
      returns (r: Result<map<string, Action>>)
      requires threatMap.Valid() && threatMap.beliefs == beliefs
      requires pac in beliefs.pacs.Values && (pac.team == Self ==> WithinBounds(pac.pos, beliefs.Bounds()))
      requires Responses(beliefs.pacs, actions, chosen, beliefs.tick)
      ensures r.Success? ==> Responses(beliefs.pacs, actions, r.value, beliefs.tick) && chosen.Keys <= r.value.Keys
      ensures r.Success? && pac.team == Self && pac.alive && pac.abilityCooldownUntilTick <= beliefs.tick ==>
        Key(pac) in r.value
      ensures r.Failure? ==> exists e :: e in threatMap.enemies && !IsForm(e.form)
    {
      if pac.team == Self && pac.alive && Key(pac) !in chosen {
        var action, threats, closest := ChooseOne(pac, threatMap);
        if action.Failure? {
          return Failure(action.error);
        }
        if action.value.Some? {
          ResponsesStep(beliefs.pacs, actions, chosen, beliefs.tick, pac, action.value.value);
          return Success(chosen[Key(pac) := action.value.value]);
        }
      }
      r := Success(chosen);
    }

    /** `chooseOne`: nothing while the ability cools down; otherwise the response to the first
        threat of least arrival among the enemies' threats, if any can arrive. */
    method ChooseOne(pac: Pac, threatMap: ThreatMap)
      returns (r: Result<Option<Action>>, ghost threats: seq<Threat>, ghost closest: Option<Threat>)
      requires threatMap.Valid() && threatMap.beliefs == beliefs && WithinBounds(pac.pos, beliefs.Bounds())
      ensures pac.abilityCooldownUntilTick > beliefs.tick ==> r == Success(None)
      ensures pac.abilityCooldownUntilTick <= beliefs.tick ==>
        && |threats| == |threatMap.enemies|
        && (forall i :: 0 <= i < |threats| ==>
              && threats[i].enemy == threatMap.enemies[i]
              && Arrives(threatMap.enemyPathMaps[threatMap.enemies[i]].G(), pac.pos,
                         MaxRange(pac, threatMap.enemies[i], beliefs.tick), threats[i].arrivalTicks))
        && (closest.None? <==> forall i :: 0 <= i < |threats| ==> threats[i].arrivalTicks == Inf)
        && (closest.Some? ==> exists k :: Collections.IsFirstMin(Collections.Map(threats, ArrivalNumber), k) && threats[k] == closest.value)
        && (closest.Some? ==> closest.value.arrivalTicks.Fin?)
        && (Respond(pac, closest).Success? ==> r == Success(Some(Respond(pac, closest).value)))
        && (Respond(pac, closest).Failure? ==> r.Failure?)
      ensures r.Failure? ==>
        && pac.abilityCooldownUntilTick <= beliefs.tick && closest.Some?
        && closest.value.enemy in threatMap.enemies && closest.value.arrivalTicks == Fin(0)
        && !IsForm(closest.value.enemy.form)
    {
      if pac.abilityCooldownUntilTick > beliefs.tick {
        return Success(None), [], None;
      }
      var found := threatMap.Threats(pac);
      var nearest := Collections.MinBy(found, ArrivalNumber);
      threats, closest := found, nearest;
      if nearest.Some? {
        var values := Collections.Map(found, ArrivalNumber);
        var k :| Collections.IsFirstMin(values, k) && found[k] == nearest.value;
        assert values[k] != Collections.PosInf;
        assert nearest.value.enemy == threatMap.enemies[k];
      }
      var response := Respond(pac, nearest);
      if response.Failure? {
        return Failure(response.error), threats, closest;
      }
      r := Success(Some(response.value));
    }
  }
}
