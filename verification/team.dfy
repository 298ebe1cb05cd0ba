/** What the bot believes about the two teams: their scores. */
module TeamBeliefs {
  import opened Model

  datatype Team = Team(id: int, score: int)

  /** `initializeTeams`: one team per team number, in order, each starting at zero. */
  function InitializeTeams(): (teams: seq<Team>)
    ensures |teams| == 2
    ensures forall i :: 0 <= i < |teams| ==> teams[i].id == i && teams[i].score == 0
    ensures teams[Self].id == Self && teams[Enemy].id == Enemy
  {
    [Team(Self, 0), Team(Enemy, 0)]
  }

  /** `update`: the team at each index of the reported scores takes that score. A report with
      more scores than teams would index past the teams, which the caller rules out. */
  method Update(scores: seq<int>, teams: array<Team>)
    requires |scores| <= teams.Length
    modifies teams
    ensures forall i :: 0 <= i < teams.Length ==> teams[i].id == old(teams[i].id)
    ensures forall i :: 0 <= i < |scores| ==> teams[i].score == scores[i]
    ensures forall i :: |scores| <= i < teams.Length ==> teams[i] == old(teams[i])
  {
    for id := 0 to |scores|
      invariant forall i :: 0 <= i < teams.Length ==> teams[i].id == old(teams[i].id)
      invariant forall i :: 0 <= i < id ==> teams[i].score == scores[i]
      invariant forall i :: id <= i < teams.Length ==> teams[i] == old(teams[i])
    {
      teams[id] := teams[id].(score := scores[id]);
    }
  }
}
