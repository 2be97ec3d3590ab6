/** The fuller version of the backend (endpoints.go): a registry of teams,
    each with a roster of players, and of games played between two teams.
    Every HTTP handler becomes one method of `Registry`, run as one atomic
    step on the two global slices `teams` and `games`. Request parsing is
    reduced to its outcome (`malformed` for a failed ParseForm, plain string
    parameters for form and URL values), and the generated uuid and the clock
    reading are parameters. */
module Endpoints {
  import opened Common

  datatype Player = Player(id: string, pseudo: string)

  datatype Team = Team(id: string, name: string, players: seq<Player>)

  /** A game holds the two teams as they were at its creation: Go copies the
      Team structs, though their Players slices may still share a backing
      array with the stored teams (not part of this model). */
  datatype Game = Game(id: string, name: string, team1: Team, team2: Team, startTime: int)

  /** Go's zero value of Team: what a game's team field holds until a lookup
      assigns it. */
  const NoTeam := Team("", "", [])

  function TeamId(t: Team): string { t.id }

  function GameId(g: Game): string { g.id }

  function TeamIdIs(id: string): Team -> bool { (t: Team) => t.id == id }

  function GameIdIs(id: string): Game -> bool { (g: Game) => g.id == id }

  /** The team the player-deletion loop writes back: its id matches and
      RemovePlayer reports success on it. */
  function RemovesPlayer(removePlayer: (Team, string) -> (bool, Team), teamId: string, playerId: string): Team -> bool
  {
    (t: Team) => t.id == teamId && removePlayer(t, playerId).0
  }

  /** The checks of game creation, in the order the handler makes them. */
  datatype GameCheck =
    | WellFormedForm
    | NonEmptyParameters
    | Team1Exists
    | Team2Exists
    | DistinctTeams
    | ValidTeamSizes

  datatype GameCreation = Created(game: Game) | Rejected(failed: GameCheck)

  class Registry {
    var teams: seq<Team>
    var games: seq<Game>

    /** Team.AddPlayer, Team.RemovePlayer (its first result, and the team it
        leaves behind), Game.TeamSizesAreValid and Game.Stop: methods whose
        definitions are not part of this model, kept uninterpreted. */
    const addPlayer: (Team, Player) -> Team
    const removePlayer: (Team, string) -> (bool, Team)
    const teamSizesAreValid: Game -> bool
    const stop: Game -> Game

    constructor (addPlayer: (Team, Player) -> Team, removePlayer: (Team, string) -> (bool, Team),
                 teamSizesAreValid: Game -> bool, stop: Game -> Game)
      ensures teams == [] && games == []
      ensures this.addPlayer == addPlayer && this.removePlayer == removePlayer
      ensures this.teamSizesAreValid == teamSizesAreValid && this.stop == stop
    {
      teams, games := [], [];
      this.addPlayer, this.removePlayer := addPlayer, removePlayer;
      this.teamSizesAreValid, this.stop := teamSizesAreValid, stop;
    }

    /** teamCreationHandler: `id` is the generated uuid. */
    method CreateTeam(malformed: bool, name: string, id: string) returns (status: Status)
      modifies this
      ensures status == (if malformed || name == "" then BadRequest else OK)
      ensures teams == (if status == OK then old(teams) + [Team(id, name, [])] else old(teams))
      ensures games == old(games)
      ensures Distinct(old(teams), TeamId) && (forall j :: 0 <= j < |old(teams)| ==> old(teams)[j].id != id)
              ==> Distinct(teams, TeamId)
    {
      if malformed || name == "" {
        return BadRequest;
      }
      var t := Team(id, name, []);
      if Distinct(teams, TeamId) && (forall j :: 0 <= j < |teams| ==> teams[j].id != id) {
        AppendedKeepsDistinct(teams, TeamId, t);
      }
      teams := teams + [t];
      return OK;
    }

    /** teamDeletionHandler: removes the first team with that id. */
    method DeleteTeam(id: string) returns (status: Status)
      modifies this
      ensures games == old(games)
      ensures match FirstWhere(old(teams), TeamIdIs(id))
        case None => status == NotFound && teams == old(teams)
        case Some(k) => status == OK && teams == Removed(old(teams), k)
      ensures Distinct(old(teams), TeamId) ==> Distinct(teams, TeamId)
      ensures Distinct(old(teams), TeamId) ==> forall j :: 0 <= j < |teams| ==> teams[j].id != id
    {
      for i := 0 to |teams|
        invariant teams == old(teams)
        invariant forall j :: 0 <= j < i ==> teams[j].id != id
      {
        if teams[i].id == id {
          if Distinct(teams, TeamId) {
            RemovedKeepsDistinct(teams, TeamId, i);
          }
          teams := Removed(teams, i);
          return OK;
        }
      }
      return NotFound;
    }

    /** teamsListingHandler */
    method ListTeams() returns (r: seq<Team>)
      ensures r == teams
    {
      r := teams;
    }

    /** playerCreationHandler: the pseudo is checked before the team is looked
        up; `playerId` is the generated uuid. The first team with the id gets
        the player through AddPlayer, and the result goes back into its slot. */
    method CreatePlayer(malformed: bool, pseudo: string, teamId: string, playerId: string) returns (status: Status)
      modifies this
      ensures games == old(games)
      ensures malformed || pseudo == "" ==> status == BadRequest && teams == old(teams)
      ensures !malformed && pseudo != "" ==>
        match FirstWhere(old(teams), TeamIdIs(teamId))
        case None => status == NotFound && teams == old(teams)
        case Some(k) => status == OK && teams == old(teams)[k := addPlayer(old(teams)[k], Player(playerId, pseudo))]
      ensures Distinct(old(teams), TeamId) && (forall t, p :: addPlayer(t, p).id == t.id) ==> Distinct(teams, TeamId)
    {
      if malformed || pseudo == "" {
        return BadRequest;
      }
      for i := 0 to |teams|
        invariant teams == old(teams)
        invariant forall j :: 0 <= j < i ==> teams[j].id != teamId
      {
        var t := teams[i];
        if t.id == teamId {
          var p := Player(playerId, pseudo);
          t := addPlayer(t, p);
          if Distinct(teams, TeamId) && t.id == teams[i].id {
            ReplacedKeepsDistinct(teams, TeamId, i, t);
          }
          teams := teams[i := t];
          return OK;
        }
      }
      return NotFound;
    }

    /** playerDeletionHandler: the loop does not stop at a team with the id
        when RemovePlayer fails on it; it goes on to later teams and writes
        back the first one on which RemovePlayer succeeds. */
    method DeletePlayer(teamId: string, playerId: string) returns (status: Status)
      modifies this
      ensures games == old(games)
      ensures match FirstWhere(old(teams), RemovesPlayer(removePlayer, teamId, playerId))
        case None => status == NotFound && teams == old(teams)
        case Some(k) => status == OK && teams == old(teams)[k := removePlayer(old(teams)[k], playerId).1]
      ensures Distinct(old(teams), TeamId) && (forall t, id :: removePlayer(t, id).1.id == t.id) ==> Distinct(teams, TeamId)
    {
      for i := 0 to |teams|
        invariant teams == old(teams)
        invariant forall j :: 0 <= j < i ==> !RemovesPlayer(removePlayer, teamId, playerId)(teams[j])
      {
        var t := teams[i];
        if t.id == teamId {
          var (ok, t') := removePlayer(t, playerId);
          if ok {
            if Distinct(teams, TeamId) && t'.id == t.id {
              ReplacedKeepsDistinct(teams, TeamId, i, t');
            }
            teams := teams[i := t'];
            return OK;
          }
        }
      }
      return NotFound;
    }

    /** One of the two lookup loops of gameCreationHandler: every team with the
        id overwrites the result, so the last one wins; with none, the result
        keeps Go's zero value. */
    method LookupLast(id: string) returns (t: Team)
      ensures t == match LastWhere(teams, TeamIdIs(id)) case None => NoTeam case Some(k) => teams[k]
    {
      t := NoTeam;
      ghost var last: Option<nat> := None;
      for i := 0 to |teams|
        invariant last.None? ==> t == NoTeam && forall j :: 0 <= j < i ==> teams[j].id != id
        invariant last.Some? ==> last.value < i && teams[last.value].id == id && t == teams[last.value]
        invariant last.Some? ==> forall j :: last.value < j < i ==> teams[j].id != id
      {
        if teams[i].id == id {
          t := teams[i];
          last := Some(i);
        }
      }
      assert last == LastWhere(teams, TeamIdIs(id));
    }

    /** gameCreationHandler: the checks are made in the order of GameCheck,
        every failure answers BadRequest (never NotFound) and leaves `games`
        as it was; `id` is the generated uuid and `now` the clock reading. */
    method CreateGame(malformed: bool, name: string, team1Id: string, team2Id: string, id: string, now: int)
      returns (status: Status, outcome: GameCreation)
      modifies this
      ensures teams == old(teams)
      ensures status == (if outcome.Created? then OK else BadRequest)
      ensures games == (if outcome.Created? then old(games) + [outcome.game] else old(games))
      ensures malformed ==> outcome == Rejected(WellFormedForm)
      ensures !malformed && (name == "" || team1Id == "" || team2Id == "") ==> outcome == Rejected(NonEmptyParameters)
      ensures !malformed && name != "" && team1Id != "" && team2Id != "" ==>
        var k1, k2 := LastWhere(teams, TeamIdIs(team1Id)), LastWhere(teams, TeamIdIs(team2Id));
        outcome ==
          if k1.None? then Rejected(Team1Exists)
          else if k2.None? then Rejected(Team2Exists)
          else if team1Id == team2Id then Rejected(DistinctTeams)
          else if !teamSizesAreValid(Game(id, name, teams[k1.value], teams[k2.value], now)) then Rejected(ValidTeamSizes)
          else Created(Game(id, name, teams[k1.value], teams[k2.value], now))
      ensures Distinct(old(games), GameId) && (forall j :: 0 <= j < |old(games)| ==> old(games)[j].id != id)
              ==> Distinct(games, GameId)
    {
      if malformed {
        return BadRequest, Rejected(WellFormedForm);
      }
      if name == "" || team1Id == "" || team2Id == "" {
        return BadRequest, Rejected(NonEmptyParameters);
      }
      var g := Game(id, name, NoTeam, NoTeam, now);
      var t1 := LookupLast(team1Id);
      g := g.(team1 := t1);
      if g.team1.id == "" {
        return BadRequest, Rejected(Team1Exists);
      }
      var t2 := LookupLast(team2Id);
      g := g.(team2 := t2);
      if g.team2.id == "" {
        return BadRequest, Rejected(Team2Exists);
      }
      if g.team1.id == g.team2.id {
        return BadRequest, Rejected(DistinctTeams);
      }
      if !teamSizesAreValid(g) {
        return BadRequest, Rejected(ValidTeamSizes);
      }
      if Distinct(games, GameId) && (forall j :: 0 <= j < |games| ==> games[j].id != id) {
        AppendedKeepsDistinct(games, GameId, g);
      }
      games := games + [g];
      return OK, Created(g);
    }

    /** gameStopHandler: the first game with the id is replaced by its stopped
        copy. Nothing checks whether it was stopped already. */
    method StopGame(id: string) returns (status: Status)
      modifies this
      ensures teams == old(teams)
      ensures match FirstWhere(old(games), GameIdIs(id))
        case None => status == NotFound && games == old(games)
        case Some(k) => status == OK && games == old(games)[k := stop(old(games)[k])]
      ensures Distinct(old(games), GameId) && (forall g :: stop(g).id == g.id) ==> Distinct(games, GameId)
    {
      for i := 0 to |games|
        invariant games == old(games)
        invariant forall j :: 0 <= j < i ==> games[j].id != id
      {
        var g := games[i];
        if g.id == id {
          g := stop(g);
          if Distinct(games, GameId) && g.id == games[i].id {
            ReplacedKeepsDistinct(games, GameId, i, g);
          }
          games := games[i := g];
          return OK;
        }
      }
      return NotFound;
    }

    /** gamesListingHandler */
    method ListGames() returns (r: seq<Game>)
      ensures r == games
    {
      r := games;
    }
  }

  /** With distinct team ids, the last-match lookup of game creation finds the
      same team as the first-match search of the other handlers. */
  lemma GameLookupFindsFirstMatch(teams: seq<Team>, id: string)
    requires Distinct(teams, TeamId)
    ensures LastWhere(teams, TeamIdIs(id)) == FirstWhere(teams, TeamIdIs(id))
  {
  }

  /** With distinct team ids, player deletion writes back the one team with
      the id exactly when RemovePlayer succeeds on it, and otherwise changes
      nothing. */
  lemma DeletePlayerTargetsTeamWithId(teams: seq<Team>, removePlayer: (Team, string) -> (bool, Team),
                                      teamId: string, playerId: string)
    requires Distinct(teams, TeamId)
    ensures FirstWhere(teams, RemovesPlayer(removePlayer, teamId, playerId)) ==
      match FirstWhere(teams, TeamIdIs(teamId))
      case None => None
      case Some(k) => if removePlayer(teams[k], playerId).0 then Some(k) else None
  {
  }

  /** endpoints_test.go, run on a fresh registry: creating "Best Team Ever"
      answers OK with a team that carries a non-empty id, that name and no
      players; deleting it by that id then answers OK and leaves no team. The
      non-empty id the test checks comes from uuid.New, which the model
      replaces by the parameter `id`, so it is required of that parameter.
      The helpers the test never reaches are parameters. */
  method TeamCreationThenDeletion(id: string, addPlayer: (Team, Player) -> Team,
                                  removePlayer: (Team, string) -> (bool, Team),
                                  teamSizesAreValid: Game -> bool, stop: Game -> Game)
    returns (created: Status, team: Team, deleted: Status, remaining: seq<Team>)
    requires id != ""
    ensures created == OK && team.id != "" && team.name == "Best Team Ever" && team.players == []
    ensures deleted == OK && remaining == []
  {
    var r := new Registry(addPlayer, removePlayer, teamSizesAreValid, stop);
    created := r.CreateTeam(false, "Best Team Ever", id);
    team := r.teams[0];
    deleted := r.DeleteTeam(team.id);
    remaining := r.ListTeams();
  }
}
