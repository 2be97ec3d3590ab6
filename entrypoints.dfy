/** The earlier version of the backend (entrypoints.go, with its types from
    data.go): a registry of teams and a flat list of players, each player
    embedding a value copy of its team. Every HTTP handler becomes one method
    of `Registry`, run as one atomic step on the two global slices `teams` and
    `players`; a failed ParseForm is the flag `malformed`, and the generated
    uuid is a parameter. */
module Entrypoints {
  import opened Common

  datatype Team = Team(id: string, name: string)

  /** A player embeds a copy of its team, taken when the player is created. */
  datatype Player = Player(team: Team, id: string, pseudo: string)

  function TeamId(t: Team): string { t.id }

  function PlayerId(p: Player): string { p.id }

  function TeamIdIs(id: string): Team -> bool { (t: Team) => t.id == id }

  function PlayerIdIs(id: string): Player -> bool { (p: Player) => p.id == id }

  class Registry {
    var teams: seq<Team>
    var players: seq<Player>

    constructor ()
      ensures teams == [] && players == []
    {
      teams, players := [], [];
    }

    /** teamCreationHandler: `id` is the generated uuid. */
    method CreateTeam(malformed: bool, name: string, id: string) returns (status: Status)
      modifies this
      ensures status == (if malformed || name == "" then BadRequest else OK)
      ensures teams == (if status == OK then old(teams) + [Team(id, name)] else old(teams))
      ensures players == old(players)
      ensures Distinct(old(teams), TeamId) && (forall j :: 0 <= j < |old(teams)| ==> old(teams)[j].id != id)
              ==> Distinct(teams, TeamId)
    {
      if malformed || name == "" {
        return BadRequest;
      }
      var t := Team(id, name);
      if Distinct(teams, TeamId) && (forall j :: 0 <= j < |teams| ==> teams[j].id != id) {
        AppendedKeepsDistinct(teams, TeamId, t);
      }
      teams := teams + [t];
      return OK;
    }

    /** teamDeletionHandler: removes the first team with that id; the players
        keep their embedded copies of it. */
    method DeleteTeam(id: string) returns (status: Status)
      modifies this
      ensures players == old(players)
      ensures match FirstWhere(old(teams), TeamIdIs(id))
        case None => status == NotFound && teams == old(teams)
        case Some(k) => status == OK && teams == Removed(old(teams), k)
      ensures Distinct(old(teams), TeamId) ==> Distinct(teams, TeamId)
      ensures Distinct(old(teams), TeamId) ==> forall j :: 0 <= j < |teams| ==> teams[j].id != id
    {
      for i := 0 to |teams|
        invariant teams == old(teams)
        invariant forall j :: 0 <= j < i ==> teams[j].id != id
      {
        if teams[i].id == id {
          if Distinct(teams, TeamId) {
            RemovedKeepsDistinct(teams, TeamId, i);
          }
          teams := Removed(teams, i);
          return OK;
        }
      }
      return NotFound;
    }

    /** teamsListingHandler */
    method ListTeams() returns (r: seq<Team>)
      ensures r == teams
    {
      r := teams;
    }

    /** playerCreationHandler: the pseudo is checked before the team is looked
        up; `playerId` is the generated uuid. The new player, carrying a copy
        of the first team with the id, is appended to `players`. */
    method CreatePlayer(malformed: bool, pseudo: string, teamId: string, playerId: string) returns (status: Status)
      modifies this
      ensures teams == old(teams)
      ensures malformed || pseudo == "" ==> status == BadRequest && players == old(players)
      ensures !malformed && pseudo != "" ==>
        match FirstWhere(teams, TeamIdIs(teamId))
        case None => status == NotFound && players == old(players)
        case Some(k) => status == OK && players == old(players) + [Player(teams[k], playerId, pseudo)]
      ensures Distinct(old(players), PlayerId) && (forall j :: 0 <= j < |old(players)| ==> old(players)[j].id != playerId)
              ==> Distinct(players, PlayerId)
    {
      if malformed || pseudo == "" {
        return BadRequest;
      }
      for i := 0 to |teams|
        invariant players == old(players)
        invariant forall j :: 0 <= j < i ==> teams[j].id != teamId
      {
        var t := teams[i];
        if t.id == teamId {
          var p := Player(t, playerId, pseudo);
          if Distinct(players, PlayerId) && (forall j :: 0 <= j < |players| ==> players[j].id != playerId) {
            AppendedKeepsDistinct(players, PlayerId, p);
          }
          players := players + [p];
          return OK;
        }
      }
      return NotFound;
    }

    /** playerDeletionHandler: removes the first player with that id. */
    method DeletePlayer(id: string) returns (status: Status)
      modifies this
      ensures teams == old(teams)
      ensures match FirstWhere(old(players), PlayerIdIs(id))
        case None => status == NotFound && players == old(players)
        case Some(k) => status == OK && players == Removed(old(players), k)
      ensures Distinct(old(players), PlayerId) ==> Distinct(players, PlayerId)
      ensures Distinct(old(players), PlayerId) ==> forall j :: 0 <= j < |players| ==> players[j].id != id
    {
      for i := 0 to |players|
        invariant players == old(players)
        invariant forall j :: 0 <= j < i ==> players[j].id != id
      {
        if players[i].id == id {
          if Distinct(players, PlayerId) {
            RemovedKeepsDistinct(players, PlayerId, i);
          }
          players := Removed(players, i);
          return OK;
        }
      }
      return NotFound;
    }

    /** playersListingHandler */
    method ListPlayers() returns (r: seq<Player>)
      ensures r == players
    {
      r := players;
    }
  }

  /** On a fresh registry: a team is created, a player joins it, and the team
      is deleted. The player survives with its embedded copy of the deleted
      team, which no longer appears among the teams. */
  method DeletedTeamSurvivesInPlayers(teamId: string, name: string, playerId: string, pseudo: string)
    returns (teamsLeft: seq<Team>, playersLeft: seq<Player>)
    requires name != "" && pseudo != ""
    ensures teamsLeft == []
    ensures playersLeft == [Player(Team(teamId, name), playerId, pseudo)]
  {
    var r := new Registry();
    var created := r.CreateTeam(false, name, teamId);
    var joined := r.CreatePlayer(false, pseudo, teamId, playerId);
    var deleted := r.DeleteTeam(teamId);
    teamsLeft := r.ListTeams();
    playersLeft := r.ListPlayers();
  }
}
