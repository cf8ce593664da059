# PlayerLives in Dafny

A model of `PlayerLives`, a TypeScript class that records how many lives each
player of an elimination game has left. Its state is an ordered list of
`{id, lives}` records. The class offers three groups of operations:

- mutators: `start`, `loseLife` and `loseLives`;
- derived queries: `remaining`, `eliminated`, `numRemaining`, `numEliminated`,
  `highestNumLives`, `leaders`, `livesRemaining` and `playerEliminated`;
- persistence: `save` and `load`.

The model makes the state an immutable `seq<Rec>` with `Rec(id, lives)`. Each
query is a pure function of that sequence. Each mutator returns the new
sequence.

Files:

- `wrappers.dfy` (module `Wrappers`): `Option`.
- `player_lives.dfy` (module `PlayerLives`): records, snapshots, every query and
  mutator, `save` and `load`.
- `player_lives_facts.dfy` (module `PlayerLivesFacts`): lemmas that relate
  several operations, plus concrete scenarios taken from the test file.

Two behaviours of the code are kept exactly as written:

- **First match only.** Lookup is `Array.find`, so only the first record with
  a matching id is read or changed. `load` accepts duplicate ids, so this can
  be seen: the same id can then be listed as both remaining and eliminated
  (`DuplicateIdOnlyFirstTouched`).
- **Leaders once everyone is out.** `leaders` compares each raw count with
  `highestNumLives` by strict equality. When every player is out,
  `highestNumLives` is 0, so only players at exactly 0 lead. Players below 0
  do not. So "everyone leads once the whole field is out" holds only when every
  player ended at exactly 0. The model follows the code (`LeadersWhenAllOut`,
  `LeadersAllOutExample`, `StartWithoutLives`).

Two more points where the code is looser than a reader might assume; the model
follows the code:

- Ids are meant to be unique, but `load` does not enforce this. Uniqueness is
  therefore an assumption of the lemmas that need it
  (`PlayerEliminatedAgreesWithViews`), not an invariant of the model. `start`
  builds unique ids, and the mutators keep the ids and their order
  (`StartIds`, `MutatorsKeepIds`).
- `load` rejects a snapshot only when its `lives` field is missing. Nothing
  else about the snapshot is checked.

`start` takes no prior state, so "calling `start` again discards everything
and restores full lives" holds by construction.

## Model

| member | source | states |
|---|---|---|
| PlayerLives.IdsWhere | src/player-lives.ts:19-29 | filter-then-map of ids never yields more ids than there are records |
| PlayerLives.IdsWhereMembers | src/player-lives.ts:19-29 | an id is in a filtered view iff some record carrying that id passes the filter |
| PlayerLives.IdsWhereNoneOrAll | src/player-lives.ts:19-29 | a filtered view is empty iff no record passes, and as long as the container iff every record passes |
| PlayerLives.Remaining | src/player-lives.ts:19-21 | an id is remaining iff some record carrying it has raw lives > 0 |
| PlayerLives.Eliminated | src/player-lives.ts:23-25 | an id is eliminated iff some record carrying it has raw lives <= 0 |
| PlayerLives.NumRemaining | src/player-lives.ts:11-13 | the count is 0 iff nobody has lives left and equals the container size iff everybody does |
| PlayerLives.NumEliminated | src/player-lives.ts:15-17 | the count is 0 iff everybody has lives left and equals the container size iff nobody does |
| PlayerLives.MaxLives | src/player-lives.ts:32 | `Math.max` over the raw counts is an upper bound that some record attains |
| PlayerLives.HighestNumLives | src/player-lives.ts:31-33 | it is 0 iff the container is empty or every record is out; otherwise it is positive, bounds every raw count, and some record attains it |
| PlayerLives.Leaders | src/player-lives.ts:27-29 | an id leads iff some record carrying it has a raw count exactly equal to `highestNumLives` |
| PlayerLives.FindIndex | src/player-lives.ts:77-80 | finds nothing iff no record carries the id; otherwise returns the index of the first record that does |
| PlayerLives.LivesRemaining | src/player-lives.ts:55-59 | never negative; 0 for an unknown id; otherwise the first match's raw count clamped at 0 |
| PlayerLives.PlayerEliminated | src/player-lives.ts:61-63 | true iff the id is unknown or its first match has raw count <= 0 |
| PlayerLives.Start | src/player-lives.ts:35-40 | exactly max(n, 0) records, the i-th being id i+1 with the given number of lives |
| PlayerLives.LoseLife | src/player-lives.ts:65-68 | the first matching record loses exactly one life; every other record, every id and the order are unchanged; an unknown id is a no-op |
| PlayerLives.LoseLives | src/player-lives.ts:70-74 | `numLives` successive `loseLife` calls equal the closed form `DropLives`, in which the first matching record alone loses max(numLives, 0) lives at once |
| PlayerLives.FirstMatchFollowsIds | src/player-lives.ts:77-80 | lookup depends only on the ids and their order, not on the life counts |
| PlayerLives.DropOneIsLoseLife | src/player-lives.ts:65-68 | the closed form with one life is exactly `loseLife` |
| PlayerLives.DropLivesCompose | src/player-lives.ts:70-74 | taking a lives from the first match and then b lives equals taking a + b lives |
| PlayerLives.Save | src/player-lives.ts:42-46 | the snapshot's `lives` field is the whole container, in order: loading it succeeds from any prior state and restores exactly that container |
| PlayerLives.Load | src/player-lives.ts:48-53 | accepted iff the snapshot has the `lives` field; a rejected load keeps the container; an accepted one adopts the snapshot's list unchanged |
| PlayerLivesFacts.IdsWhereAppend | src/player-lives.ts:19-29 | filtering keeps container order: the view of `s + t` is the view of `s` followed by the view of `t` |
| PlayerLivesFacts.IdsWhereAllOrNone | src/player-lives.ts:19-29 | if every record passes, the view is all ids in order; if none passes, it is empty |
| PlayerLivesFacts.ViewsKeepContainerOrder | src/player-lives.ts:19-25 | `remaining` and `eliminated` distribute over concatenation and list a single record exactly when it passes their test |
| PlayerLivesFacts.RemainingEliminatedPartition | src/player-lives.ts:11-25 | `numRemaining + numEliminated` is the record count; together the two views hold the container's ids, as a multiset |
| PlayerLivesFacts.EmptyBeforeStart | src/player-lives.spec.ts:44-54 | on the initial empty container every view is empty and every count, `highestNumLives` and `livesRemaining` are 0 |
| PlayerLivesFacts.StartIds | src/player-lives.ts:35-40 | after `start(n, k)` the ids are 1..n in ascending order, hence unique |
| PlayerLivesFacts.StartLivesRemaining | src/player-lives.spec.ts:257-266 | after `start(n, k)`, ids 1..n report k clamped at 0 and every other id reports 0 |
| PlayerLivesFacts.StartWithLives | src/player-lives.spec.ts:136-171 | after `start(n, k)` with k > 0: all of 1..n remain and lead, none is eliminated, and `highestNumLives` is k (0 when n <= 0) |
| PlayerLivesFacts.StartWithoutLives | src/player-lives.ts:27-40 | after `start(n, k)` with k <= 0: all of 1..n are eliminated and `highestNumLives` is 0; leaders are everyone when k = 0 and nobody when k < 0 |
| PlayerLivesFacts.LeadersAreRemaining | src/player-lives.ts:27-33 | while someone remains there is a leader, and every leader is remaining |
| PlayerLivesFacts.LeadersWhenAllOut | src/player-lives.ts:27-33 | when nobody remains, the leaders are exactly the ids whose raw count is 0 |
| PlayerLivesFacts.LeadersAllOutExample | src/player-lives.ts:28 | with raw counts 0 and -1 both players are eliminated but only the one at 0 leads |
| PlayerLivesFacts.LoseLifeAffectsOnlyItsPlayer | src/player-lives.ts:65-68 | `loseLife(id)` leaves `livesRemaining` of every other id unchanged, and for `id` reports the first match's raw count minus one, clamped |
| PlayerLivesFacts.LoseLivesEffect | src/player-lives.ts:70-74 | the first record carrying the id loses exactly max(c, 0) lives, every other record is unchanged, and an unknown id is a no-op |
| PlayerLivesFacts.LoseLivesAdditive | src/player-lives.ts:70-74 | losing a lives and then b lives equals losing a + b lives |
| PlayerLivesFacts.LoseLivesUnrolls | src/player-lives.ts:70-74 | `loseLives(id, c)` with c > 0 equals `loseLives(id, c - 1)` followed by one `loseLife(id)` |
| PlayerLivesFacts.DuplicateIdOnlyFirstTouched | src/player-lives.ts:77-80 | with two records carrying the same id, only the first loses lives, so that id is then both eliminated and remaining |
| PlayerLivesFacts.MutatorsKeepIds | src/player-lives.ts:65-74 | `loseLife` and `loseLives` keep every id and the order, hence keep ids unique |
| PlayerLivesFacts.PlayerEliminatedAgreesWithViews | src/player-lives.ts:55-63 | with unique ids, a known id is `playerEliminated` iff it is listed as eliminated, and not iff it is listed as remaining |
| PlayerLivesFacts.LoadSaveRoundTrip | src/player-lives.ts:42-53 | `load(save())` is accepted from any current state and restores the saved records, so every query answers as before |
| PlayerLivesFacts.ScenarioSixPlayersThreeLives | src/player-lives.spec.ts:79-83 | `start(6, 3)`: remaining is 1..6 and numRemaining is 6, as that test checks; the lemma also states that nothing is eliminated, the highest count is 3 and 1..6 all lead, which the tests at lines 105-171 check for other starts |
| PlayerLivesFacts.ScenarioFirstPlayerOut | src/player-lives.spec.ts:113-120 | `start(5, 1)` then `loseLife(1)`: eliminated is [1] and remaining is [2, 3, 4, 5] |
| PlayerLivesFacts.ScenarioOverdrawnPlayer | src/player-lives.spec.ts:412-416 | `start(3, 1)` then `loseLives(1, 2)`: the raw count is -1 but `livesRemaining(1)` is 0 |

## Left out

- JSON text. `save` returns a `Snapshot` value and `load` takes one, instead of
  calling `JSON.stringify` and `JSON.parse`. Parse errors, which throw in the
  source, are therefore not modelled.
- Shape validation. The source adopts whatever `state.lives` holds, including
  `null`, non-arrays and non-numeric fields; later queries would then throw or
  misbehave. The model's snapshot can only hold a well-typed list of records.
- JavaScript numbers. Ids and counts are unbounded integers. NaN, fractions
  (such as a fractional `loseLives` count, which the loop rounds up), `-0` and
  the loss of precision beyond 2^53 are not modelled.
- `Math.max(...array)` fails with a range error for very large arrays. The model
  has no such limit.
- Aliasing. `load` adopts the parsed array itself and `loseLife` mutates the
  record in place. Neither is observable through the class's interface, so the
  model uses values.
- `isGameOver` and `winner`. The tests use them, but `src/player-lives.ts` does
  not define them, so they are not part of this model.
