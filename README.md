# Game backend registry, modelled in Dafny

The game backend is a small Go HTTP service for an esports competition. It
keeps teams of players and games played between two teams. Its state is held
in global slices that the HTTP handlers change directly. The repository holds
two versions of that program, and each one is modelled as its own module:

- `Endpoints` (endpoints.go) is the fuller version. It has a `Registry` class
  whose fields `teams` and `games` are the two global slices. Each handler is
  one method, with these operations:
  - team creation, deletion and listing;
  - adding a player to a team's roster and removing one from it;
  - game creation, behind its fixed sequence of checks;
  - game stop and game listing.
- `Entrypoints` (entrypoints.go with its types from data.go) is the earlier
  version. It has a `Registry` class over `teams` and a flat `players` slice.
  Each player embeds a value copy of its team.
- `Common` holds what both versions share:
  - the status a handler answers with (OK, BadRequest, NotFound);
  - the two ways the handlers search a slice: a `range` loop that returns on
    the first match (`FirstWhere`), and one without `break` that keeps the
    last match (`LastWhere`);
  - Go's delete idiom `append(s[:i], s[i+1:]...)` (`Removed`);
  - distinctness of ids, with the lemmas that each kind of slice update keeps
    it.

Each handler is modelled as one atomic step. Only its effect on the registry
is kept, and request parsing is reduced to its inputs:

- a failed `ParseForm` is the boolean `malformed`;
- form and URL values are plain string parameters;
- the generated uuid and the clock reading are parameters.

Every handler method states, as a function of the old state, the status it
answers with and the whole new state of both slices. Listing handlers change
nothing. Game creation also returns which of its checks failed. In the source
each check writes its own response text.

`Team.AddPlayer`, `Team.RemovePlayer`, `Game.TeamSizesAreValid` and
`Game.Stop` are called by endpoints.go, but their definitions are not part of
this model. They are function-valued constants of `Endpoints.Registry`, fixed
when it is constructed, and nothing is assumed about them. Properties that
depend on one of them, such as team ids staying distinct after a roster
change, are stated under an explicit hypothesis about it (for example, that
`AddPlayer` keeps the team's id).

Some behaviours of the code are easy to miss; the model keeps them:

- Every failed check of game creation answers BadRequest, an unknown team
  id included.
- Game stop applies `Stop` to the game whatever its state; nothing checks
  whether it was stopped already.
- Player creation checks the pseudo before it looks up the team, so an
  empty pseudo answers BadRequest even for an unknown team.
- Player deletion in endpoints.go does not stop at a team whose id matches
  when `RemovePlayer` fails on it. It writes back the first team whose id
  matches and on which `RemovePlayer` succeeds.
  `Endpoints.DeletePlayerTargetsTeamWithId` shows that, with distinct team
  ids, this is the team with that id.
- Game creation takes the last team with each id, where the other handlers
  take the first. `Endpoints.GameLookupFindsFirstMatch` shows that the two
  agree when team ids are distinct.

## Model

| member | source | states |
|---|---|---|
| `Common.Removed` | endpoints.go:49 | Deleting slot i yields one element fewer. The elements before i are unchanged, those after it shift down by one in the same order, and the multiset loses exactly the deleted element. |
| `Common.FirstWhere` | endpoints.go:47-53 | The search with early return ends at the first index whose element matches. It finds nothing exactly when no element matches. |
| `Common.LastWhere` | endpoints.go:144-148 | The search without `break` keeps the last index whose element matches. It finds nothing exactly when no element matches. |
| `Common.FirstIsLastWhenUnique` | endpoints.go:144-158 | When at most one element matches, the first match and the last match are the same. |
| `Common.AppendedKeepsDistinct` | endpoints.go:30-32 | Appending an element whose id is not yet used keeps ids pairwise distinct. |
| `Common.RemovedKeepsDistinct` | endpoints.go:47-49 | Deleting an element keeps ids distinct, and with distinct ids no remaining element has the deleted element's id. |
| `Common.ReplacedKeepsDistinct` | endpoints.go:84-88 | Writing back, into its slot, a copy that keeps the id keeps ids distinct. |
| `Endpoints.Registry.constructor` | endpoints.go:87-194 | Both slices start empty. The four helpers AddPlayer, RemovePlayer, TeamSizesAreValid and Stop are fixed for the registry's life. |
| `Endpoints.Registry.CreateTeam` | endpoints.go:15-37 | A malformed form or an empty name gives BadRequest with `teams` unchanged. Otherwise the status is OK and exactly one team is appended, carrying the supplied id and name and no players. `games` is untouched. A fresh id keeps team ids distinct. |
| `Endpoints.Registry.DeleteTeam` | endpoints.go:41-57 | The first team with the id is removed and the order of the rest is kept (OK). With no match the status is NotFound and `teams` is unchanged. Distinct ids stay distinct, and then the id is gone. |
| `Endpoints.Registry.ListTeams` | endpoints.go:60-63 | Returns `teams` as it is and changes nothing. |
| `Endpoints.Registry.CreatePlayer` | endpoints.go:67-98 | A malformed form or an empty pseudo gives BadRequest before the team lookup, even for an unknown team. An unknown team gives NotFound. In both cases `teams` is unchanged. Otherwise only the first team with the id is replaced, by AddPlayer of it and the new player (supplied id and pseudo). The length and every other slot stay the same. |
| `Endpoints.Registry.DeletePlayer` | endpoints.go:101-119 | Only the first team whose id matches and on which RemovePlayer reports success is replaced, by the team RemovePlayer leaves (OK). If no team qualifies, whether the team or the player is unknown, the status is NotFound and nothing changes. |
| `Endpoints.Registry.LookupLast` | endpoints.go:144-158 | The lookup yields the last team with the id, or Go's zero Team when there is none. |
| `Endpoints.Registry.CreateGame` | endpoints.go:123-184 | The checks are made in this order, each failing with BadRequest and leaving `games` unchanged: the form parses; name, team1Id and team2Id are non-empty; team 1 is found; team 2 is found; the ids differ; TeamSizesAreValid holds. On success exactly one game is appended: supplied id, name and time, and copies of the two looked-up teams. `teams` is untouched. A fresh game id keeps game ids distinct. |
| `Endpoints.Registry.StopGame` | endpoints.go:187-204 | Only the first game with the id is replaced, by its stopped copy (OK), and the count and other games stay the same. With no match the status is NotFound and nothing changes. There is no already-stopped check. If `Stop` keeps a game's id, game ids stay distinct. |
| `Endpoints.Registry.ListGames` | endpoints.go:207-210 | Returns `games` as it is and changes nothing. |
| `Endpoints.GameLookupFindsFirstMatch` | endpoints.go:144-158 | With distinct team ids, game creation's last-match lookup finds the same team as the first-match search of the other handlers. |
| `Endpoints.DeletePlayerTargetsTeamWithId` | endpoints.go:105-115 | With distinct team ids, player deletion writes back the team with that id exactly when RemovePlayer succeeds on it, and otherwise nothing. |
| `Endpoints.TeamCreationThenDeletion` | endpoints_test.go:18-84 | On a fresh registry, creating "Best Team Ever" answers OK with that name and no players, and with the supplied id (required non-empty, as uuid.New's result is). Deleting it by that id answers OK and leaves no team. |
| `Entrypoints.Registry.constructor` | data.go:16-17 | `teams` and `players` start empty. |
| `Entrypoints.Registry.CreateTeam` | entrypoints.go:14-36 | A malformed form or an empty name gives BadRequest with no change. Otherwise exactly one team (supplied id and name) is appended. `players` is untouched. A fresh id keeps team ids distinct. |
| `Entrypoints.Registry.DeleteTeam` | entrypoints.go:40-56 | The first team with the id is removed and the order is kept (OK). Otherwise the status is NotFound with no change. `players`, with their embedded team copies, is never touched. Distinct ids stay distinct and the id is gone. |
| `Entrypoints.Registry.ListTeams` | entrypoints.go:59-62 | Returns `teams` as it is and changes nothing. |
| `Entrypoints.Registry.CreatePlayer` | entrypoints.go:66-96 | A malformed form or an empty pseudo gives BadRequest, and an unknown team gives NotFound. Neither changes `players`. Otherwise exactly one player is appended, carrying a copy of the first team with the id and the supplied id and pseudo. `teams` is untouched. A fresh player id keeps player ids distinct. |
| `Entrypoints.Registry.DeletePlayer` | entrypoints.go:99-112 | The first player with the id is removed and the order of the rest is kept (OK). Otherwise the status is NotFound with no change. `teams` is untouched. Distinct ids stay distinct and the id is gone. |
| `Entrypoints.Registry.ListPlayers` | entrypoints.go:115-118 | Returns `players` as it is and changes nothing. |
| `Entrypoints.DeletedTeamSurvivesInPlayers` | entrypoints.go:46-89 | After a team is created, a player joins it and the team is deleted, no team is left. The player remains with its copy of the deleted team. |

## Left out

- HTTP plumbing is not modelled: parsing of form and URL values, status and
  header writing, JSON encoding of the results, routing and `main`
  (endpoints.go:212-226, entrypoints.go:120-132). A failed `ParseForm` is
  only the input `malformed`.
- Response bodies are not modelled. Game creation returns the check that
  failed in place of the text. The source writes the same text, "No team 1
  could be found with this id", when team 2 is missing (endpoints.go:161).
  It also writes "Team or player not found" for a missing game
  (endpoints.go:203).
- `uuid.New()` and `time.Now()` are parameters (`id`, `playerId`, `now`),
  so their freshness and monotonicity are not modelled. Distinctness of
  team, player and game ids is stated under the hypothesis that the supplied
  id is not yet in use (and, for roster changes and game stop, that the
  unseen helper keeps the id). Game start times are plain integers.
- The bodies of `Team.AddPlayer`, `Team.RemovePlayer`,
  `Game.TeamSizesAreValid` and `Game.Stop` are not part of this model, so
  they stay uninterpreted. Nothing is proved about roster contents, team
  sizes or stop times. The same goes for stats and achievements, which no
  modelled file contains. The second result of `RemovePlayer` is discarded
  by its caller and is not modelled.
- Slices are modelled as values. Copying a Team struct in Go copies only the
  header of its `Players` slice, so the loop's copy, the stored team and the
  `Team1`/`Team2` copies that game creation takes (endpoints.go:146, 156)
  can share one backing array. Writes that `AddPlayer` or `RemovePlayer`
  make through that array, which could show up in the stored team or in an
  earlier game's roster, are not modelled: a game's teams are treated as
  independent snapshots.
- There is no locking in the source, so concurrency is not modelled: each
  handler is one atomic step.
- backend.go is not modelled. Its handlers write a fixed string, and its
  listing returns a fixed two-team literal.
- endpoints.go uses the globals `teams` and `games` and the types Team,
  Player and Game without declaring them, and their declarations are not
  part of this model. The model's types carry only the fields the handlers
  use: Player ID and Pseudo, Team ID, Name and Players, and Game ID, Name,
  Team1, Team2 and StartTime.
