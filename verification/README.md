# Single-elimination bracket engine (Dafny model)

A model of the bracket engine of the tournament bot in `bot.py`. The
`bracket_matches` rows of a tournament are modelled as a map from a key
`(round, index)` to a `Match` with three nullable team ids: `teamA`, `teamB` and
`winner`. The modules are:

- `Wrappers`: the `Option` and `Result` types.
- `Brackets`: the data model, plus the index arithmetic that sends the winner of
  match `(r, m)` into slot A (`m` even) or slot B (`m` odd) of match `(r + 1, m / 2)`.
- `Generation`: `generate_bracket`, which pairs up the shuffled team list into
  round-0 matches `0, 1, 2, ...`. An odd team out gets a match whose B slot is empty.
- `Selection`: the winner button handler's choice of side, and the condition
  under which the admin view offers a match for decision.
- `Propagation`: `propagate_winner`. It is a nested loop over rounds and matches.
  The model proves it equal to `Swept`, which is the pointwise reference
  definition `Propagated` when no round is missing.
  The module also has the completion check that reports the champion.
- `Tournament`: the rows of every tournament, the two bracket operations that
  change them (generation and the winner button handler), and what follows from
  running the engine as written. Nothing in bot.py calls `generate_bracket`.
  The "Generate Bracket" button's data `generate_bracket_<tid>` (bot.py:942) is
  routed to `callback_handler` (bot.py:1288). That handler has branches for
  `win_` (bot.py:666-667) but none for `generate_` (bot.py:597-672). Rows also
  disappear when a team is deleted; see "Left out".

Team ids are SQLite `AUTOINCREMENT` keys (bot.py:166-167). They start at 1, so
the code's truthiness tests on ids (`if teamA_id`, `if match["winner"]`) are
modelled as "the value is present". A match row id is replaced by its tournament
id and its `(round, index)` key. `random.shuffle` is replaced by a parameter: the
shuffled list `order`. The teams table is a parameter `registered`, the set of
existing team ids.

Unlike a textbook single-elimination bracket engine, the code behaves as follows,
and the model follows the code:

- Generation does not pad to a power of two.
- Generation creates no rows for rounds after round 0.
- Generation does not reject fewer than two teams.
- Byes are never resolved automatically: propagation never sets a winner.
- Re-deciding a match is not rejected: the winner is overwritten.
- Propagation fails when a round is missing below a present round. At bot.py:1099
  it looks up `rounds[round_idx]` without checking it exists, which raises
  `KeyError`. The writes for lower rounds are already committed, and so is the
  winner set at bot.py:1068. The rest of the loop and the completion check are
  skipped. `Swept` gives the rows left behind, and `PropagateWinner` returns
  `failed`. Generation never leaves such a gap. Only rows written by other means
  can have one.

Because no later round is ever created, propagation writes nothing to a
generated bracket. The completion check can therefore succeed only for one or
two teams. `Tournament.NoChampionFromThreeTeams` proves that with three or more
teams no sequence of winner button presses finishes the tournament. Deleting a
team removes its rows, which can shrink round 0; that path is not modelled.

## Model

| member | source | states |
|---|---|---|
| `Generation.Generate` | bot.py:1022-1035 | the generation loop over the shuffled list inserts exactly the reference pairing, starting from no rows |
| `Generation.Pairing` | bot.py:1027-1029 | the generated matches are exactly round 0, indices `0 .. ceil(n/2)-1`; every match has team A and no winner; team B is missing exactly for the last match when `n` is odd |
| `Generation.PairingSize` | bot.py:1027-1035 | generation yields exactly `ceil(n/2)` matches |
| `Generation.EntrantsRoundTrip` | bot.py:1027-1033 | reading the round-0 slots left to right, skipping empty ones, gives back exactly the shuffled list |
| `Generation.EachTeamOnce` | bot.py:1018-1020 | when the order is a shuffle of the registered (distinct) teams, each registered team occupies exactly one round-0 slot and no other team appears |
| `Tournament.GenerateBracket` | bot.py:1016-1035 | after generation the tournament's rows are the pairing of the shuffled list, whatever rows it had before; other tournaments' rows are unchanged |
| `Selection.Select` | bot.py:1048-1068 | unknown match fails with MatchNotFound; a side other than an occupied "A"/"B" fails with InvalidSelection; a chosen team missing from the teams table fails with TeamNotFound; success exactly when the chosen slot is occupied by a registered team; then only that match's winner changes, to the chosen slot's team, with no already-decided check |
| `Selection.OfferedChoicesAccepted` | bot.py:1168-1172 | both buttons of an offered match are accepted, and after either press the match is no longer offered |
| `Selection.GeneratedOffers` | bot.py:1168 | in a generated bracket every match is offered except the bye of an odd team count |
| `Selection.ReselectionOverwrites` | bot.py:1055-1068 | deciding a decided match again for the other side succeeds and replaces the winner |
| `Brackets.FeederIsInverseOfDestination` | bot.py:1101-1110 | the destination `(r+1, m/2)` with slot A for even `m` and B for odd is inverted by "slot A of `(r, j)` is fed by `(r-1, 2j)`, slot B by `(r-1, 2j+1)`" |
| `Brackets.MaxRound` | bot.py:1093 | the highest round number present among the rows |
| `Propagation.Propagated` | bot.py:1095-1110 | propagation adds or removes no match, changes no winner and no round-0 match; any slot it changes holds the winner of a decided match whose destination is that slot |
| `Propagation.PropagationDelivers` | bot.py:1099-1110 | every decided match whose destination row exists has its winner in its destination slot afterwards |
| `Propagation.WriteStep` | bot.py:1100-1110 | one write of the loop is exactly adding that source to the set of sources whose winners have been delivered |
| `Propagation.WritesBeyondReachIrrelevant` | bot.py:1095-1102 | skipping rounds with no successor and sources whose destination row is missing loses no write: two source sets that agree on every source with a destination row make the same writes |
| `Brackets.FirstGap` | bot.py:1095-1099 | the lowest round that is missing while the next round is present, the place where the loop's lookup fails; none exactly when no such round exists |
| `Propagation.Swept` | bot.py:1095-1110 | the rows left by the loop: with no gap, exactly the full propagation; at a gap, every source below it has delivered its winner, no slot fed from the gap's round or above has changed, every changed slot holds the winner of its decided feeder below the gap, and round 0 is unchanged; no row is added or removed and no winner changes |
| `Propagation.SweptIdempotent` | bot.py:1095-1110 | running the routine again over the rows it left, whether it stopped at a gap or not, changes nothing more |
| `Propagation.PropagationIdempotent` | bot.py:1095-1110 | running propagation twice in a row gives the same rows as running it once |
| `Propagation.Champion` | bot.py:1112-1114 | a champion is reported exactly when some match is the only one of the highest round and is decided, and then it is that match's winner |
| `Propagation.ChampionUnaffectedByPropagation` | bot.py:1112 | the completion check gives the same answer on the loaded rows as on the propagated ones |
| `Propagation.PropagateWinner` | bot.py:1072-1114 | the nested round/match loop fails exactly when a round is missing below a present one; it leaves the rows `Swept` describes; a champion is reported only when the loop does not fail, and it is then the completion check's answer; an empty tournament is returned unchanged |
| `Tournament.WinnerCallback` | bot.py:1043-1069 | a rejected press ends with the selection's error and changes nothing; an accepted one stores the swept result of the selection for that tournament only; it ends in failure exactly when propagation meets a gap, and otherwise reports the completion check's champion |
| `Tournament.MissingRoundZeroStopsCompletion` | bot.py:1095-1099 | with only a decided round-1 row, the loop fails at round 0, so no champion is reported although the completion check would name one |
| `Tournament.MissingMiddleRoundStopsLaterWrites` | bot.py:1095-1099 | with rows in rounds 0, 2 and 3, the loop fails at round 1, so the round-2 winner never reaches round 3, which a full pass would have written |
| `Tournament.ReplayKeepsRows` | bot.py:1068-1110 | no sequence of winner presses and propagations adds or removes a match row |
| `Tournament.NoChampionFromThreeTeams` | bot.py:1112-1113 | starting from a generated bracket of three or more teams, no sequence of winner presses makes the completion check report a champion |
| `Tournament.TwoTeamsFinishAfterOneDecision` | bot.py:1112-1114 | with two teams, deciding the single match finishes the tournament with the chosen team as champion |
| `Tournament.PropagationOverGeneratedIsIdentity` | bot.py:1095-1097 | propagation over a freshly generated bracket cannot fail and changes nothing, since the bracket has no round 1 |
| `Tournament.ByeNotAutoResolved` | bot.py:1095-1110 | propagation never gives a bye match a winner, and a round-0 bye is never offered |

## Left out

- Telegram handlers, keyboards and message text (bot.py:294-1011, 1183-1227). These are user interface.
- Parsing the callback data `win_<id>_<side>` into a match id and a side (bot.py:1044-1046). The model takes the key and the side string directly. A malformed id, which raises in `int(...)`, is not modelled.
- The SQLite layer and schema (bot.py:150-216). Rows become a map keyed by `(round, index)`, which assumes at most one row per key in a tournament. Generation and the propagation loop never create a second row for a key.
- The transaction-per-statement behaviour of `db_execute` and the backup it triggers. Each operation is modelled as one atomic step.
- Team deletion (bot.py:276). The `ON DELETE CASCADE` foreign keys on `teamA_id`, `teamB_id` and `winner_team_id` (bot.py:188-190) are enforced because `PRAGMA foreign_keys = ON` (bot.py:201). So deleting a team also deletes every bracket row that names it. This can remove round-0 matches, and it can leave a bracket that finishes with fewer matches. Team management is outside the bracket engine, so the winner-press lemmas do not cover it.
- The unreachable "Generate Bracket" button (bot.py:942). No handler branch routes its data to `generate_bracket`. The model still describes `generate_bracket` as written.
- The exception raised by a propagation failure after it leaves the handler. The bot's `error_handler` (bot.py:1217-1227, registered at bot.py:1259) logs it and replies "An error occurred" to the admin, and the admin view at bot.py:1070 is not refreshed. The model reports it as the `Failed` outcome.
- `declare_winner` (bot.py:1116-1128). It looks the team up and marks the tournament finished. Its admin notifications never arrive: `context` at bot.py:1123 is neither a parameter nor a module name, so every send raises `NameError`, which bot.py:1127-1128 catches and logs. The model only returns the champion's id.
- The call to `show_bracket_admin_view` after a press (bot.py:1070), and the rendering of brackets (bot.py:559-591, 1130-1181). Only the offer condition at bot.py:1168 is modelled.
- `random.shuffle`. It is replaced by the parameter `order`.
- Team-name lookup for display (`get_team_name`, bot.py:234-239).
- Tournament capacity and status bookkeeping (bot.py:228-232, 278-281, 821). These are comparisons around database queries, outside the bracket engine.
- Cloud backup, the health server and the auto-backup loop (bot.py:50-144, 1233-1238). These are network I/O.
