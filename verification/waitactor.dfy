/** The fallback planner: every own pac that is still without an action waits. */
module Waiting {
  import opened Wrappers
  import opened Model
  import opened PacBeliefs
  import opened AgentHelper
  import opened AgentBeliefs
  import Collections

  /** The action `choose` stores for a pac: wait, without a tag. */
  function WaitFor(pac: Pac): Action {
    Action(pac.id, Wait, None)
  }

  /** `chosen` keeps every action of `actions`, and each action it adds is a wait for a pac
      to control, under that pac's key. */
  ghost predicate Waits(pacs: map<string, Pac>, actions: map<string, Action>, chosen: map<string, Action>) {
    && (forall k :: k in actions ==> k in chosen && chosen[k] == actions[k])
    && forall k :: k in chosen && k !in actions ==>
         exists p :: p in PacsToControl(pacs, actions) && k == Key(p) && chosen[k] == WaitFor(p)
  }

  /** Storing a wait for one more pac to control keeps `Waits`. */
  lemma WaitsStep(pacs: map<string, Pac>, actions: map<string, Action>, chosen: map<string, Action>, pac: Pac)
    requires Waits(pacs, actions, chosen)
    requires pac in pacs.Values && pac.team == Self && pac.alive && Key(pac) !in chosen
    ensures Waits(pacs, actions, chosen[Key(pac) := WaitFor(pac)])
  {
    assert pac in PacsToControl(pacs, actions);
  }

  /** Under the key of a pac to control, `Waits` can only have stored a wait for that pac. */
  lemma WaitsForKey(pacs: map<string, Pac>, actions: map<string, Action>, chosen: map<string, Action>, pac: Pac)
    requires Waits(pacs, actions, chosen)
    requires pac in PacsToControl(pacs, actions) && Key(pac) in chosen
    ensures chosen[Key(pac)] == WaitFor(pac)
  {
    var p :| p in PacsToControl(pacs, actions) && Key(pac) == Key(p) && chosen[Key(pac)] == WaitFor(p);
    KeyOfInjective(p.team, p.id, pac.team, pac.id);
  }

  /** `WaitActor`: tells every pac still without an action to wait. */
  class WaitActor {
    const beliefs: Beliefs
    const params: AgentParams

    constructor (beliefs: Beliefs, params: AgentParams)
      ensures this.beliefs == beliefs && this.params == params
    {
      this.beliefs := beliefs;
      this.params := params;
    }

    /** `choose`: a wait for every pac to control, in an unconstrained order. Every existing
        action is kept, every alive own pac then has an action, and a choice with no pac left
        to control changes nothing, so choosing twice adds nothing the second time. */
    method Choose(actions: map<string, Action>) returns (r: map<string, Action>)
      ensures Waits(beliefs.pacs, actions, r)
      ensures forall p :: p in PacsToControl(beliefs.pacs, actions) ==> Key(p) in r && r[Key(p)] == WaitFor(p)
      ensures PacsToControl(beliefs.pacs, r) == {}
      ensures PacsToControl(beliefs.pacs, actions) == {} ==> r == actions
    {
      var all := Collections.ToArray(beliefs.pacs.Values);
      r := actions;
      for i := 0 to |all|
        invariant Waits(beliefs.pacs, actions, r)
        invariant forall j :: 0 <= j < i && all[j].team == Self && all[j].alive ==> Key(all[j]) in r
      {
        var pac := all[i];
        if pac.team == Self && pac.alive && Key(pac) !in r {
          WaitsStep(beliefs.pacs, actions, r, pac);
          r := r[Key(pac) := WaitFor(pac)];
        }
      }
      forall p | p in PacsToControl(beliefs.pacs, actions) ensures Key(p) in r && r[Key(p)] == WaitFor(p) {
        assert p in all;
        WaitsForKey(beliefs.pacs, actions, r, p);
      }
      assert forall p :: p in beliefs.pacs.Values && p.team == Self && p.alive ==> p in all;
      if PacsToControl(beliefs.pacs, actions) == {} {
        assert r.Keys == actions.Keys;
      }
    }
  }
}
