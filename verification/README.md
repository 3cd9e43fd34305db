# Werewolf game engine — a Dafny model

This project models the deterministic engine of a six-player werewolf game.
In the original program a language model does the talking and the guessing.
Around it sits a small state machine over one game record. The record holds:

- `turn`;
- `alive_players` and `dead_players`;
- the pending votes `voted_to_leave`;
- the user-facing `history`;
- a diagnostic `debug_log`.

The model covers:

- **The role table and the faction census** (`State`). Players 1..6 each have a role string. A player is a wolf iff its role mentions "wolf". The census walks a list of players and looks each one up, and the lookup fails for a player without a role.
- **The vote tally** (`Tally`). It picks the most frequent target, and a tie goes to the target seen first. This is what `Counter.most_common(1)` yields.
- **The round resolver `god` and the conditional edge `next_node`** (`GameLogic`). `god` runs before every player's turn; off a round boundary it only logs a separator. They cover:
  - the dead-turn no-op;
  - the voting block with its "at least half" threshold;
  - the elimination, which is lenient about already-dead targets;
  - the status line;
  - the win check;
  - the skip-dead search, which starts at `(turn + 1) % 7` and steps by `(x + 1) % 6`.
- **A player's turn** (`Players`). The two language-model answers are an input `Guess`: an utterance, a guessed player and a confidence. The module also covers the teammate hint and the map from node names to players.
- **The graph** (`Graph`). One `Step` runs a node and follows its edge. The entry edge leads to `god`, the edge table after `god` is labelled by `next_node`, and every player node returns to `god`.
- **A whole game** (`Game`). The initial record, and a run of at most 2000 node runs, the recursion limit the program passes to its graph runtime.

The player's answers come from an `Oracle`, a function of the step index and of what the player is shown. Every lemma about runs therefore holds for any sequence of answers.

Faults that stop the program are results of the `Fault` datatype:

- a role lookup that raises during the game becomes `UnknownRole`;
- a scheduler search loop that never exits becomes `SchedulerLoops`;
- an unrouted label becomes `Unrouted`;
- the recursion limit becomes `StepLimit`.

The model follows the code's quirks rather than correcting them:

- the search starts at candidate `(turn + 1) % 7`, and candidate 0 is routed to player 1;
- a "no one leaves" outcome reaches only the diagnostic log, never the history;
- votes are never range-checked: any integer is accepted as a target;
- a voted-out player is appended to the dead list even when it is already dead, and leaves the alive list only if it is there;
- the `% 7` / `% 6` stepping can skip player 6, and can route candidate 0 to a dead player 1.

Once player 5 or player 6 is dead and the game is still undecided, the turn counter can never again be 0 or 6. No round boundary runs after that, and the game can only end at the step cap. (A burial of player 5 or 6 that itself decides the game goes straight to the terminal node.) `Game.BurialStalls` proves that a burial of player 5 or 6 that does not end the game leads to such a stalled configuration, and `Game.StalledRunsOut` proves that from there every run, for every oracle, ends at the step cap.

## Model

| member | source | states |
|---|---|---|
| State.RoleTableCoversRoster | game/state.py:33-40 | the role table has an entry for exactly the players 1..6 |
| State.WolvesAreOneAndTwo | game/state.py:33-40 | a player's role mentions "wolf" iff the player is 1 or 2, so the wolf faction is exactly {1, 2} |
| State.IsWolf | game/game_logic.py:83 | a player is a wolf iff its role string contains "wolf" as a substring, the test both `god` and `next_node` apply; `State.WolvesAreOneAndTwo` pins it down to players 1 and 2 |
| State.CountFactions | game/game_logic.py:80-86 | the census succeeds iff every listed player has a role; the wolf count is the number of occurrences of 1 and 2 and both counts add up to the list's length; a failure names a listed player without a role |
| State.Terminal | game/game_logic.py:119-124 | a census decides the game iff no wolf is left or the wolves are at least as many as the villagers; `GameLogic.NextNodeEndsIff` ties it to the end label |
| State.FullRosterCensus | game/state.py:33-40 | with all six alive there are two wolves and four villagers |
| State.WolfCountDistinct | game/state.py:33-40 | in a list without repeats each wolf player counts once if present |
| Tally.Leader | game/game_logic.py:45 | the chosen vote's target has the highest count among the votes scanned, and every earlier vote names a target with fewer votes |
| Tally.MostCommon | game/game_logic.py:35-45 | the winner occurs in the votes, has the maximal count, and every target seen before it has strictly fewer votes |
| Tally.MostCommonUnique | game/game_logic.py:45 | any two answers that satisfy the "most frequent, first seen wins" rule are equal, so the rule fixes the winner |
| Tally.TieGoesToFirstSeen | game/game_logic.py:45 | a tie of 3, 4, 3, 4 goes to 3 and of 4, 3, 4, 3 goes to 4: the first seen wins, not the smaller number |
| Tally.ClearWinner | game/game_logic.py:45 | votes 2, 2, 2, 5, 5, 6 elect player 2 with three votes |
| GameLogic.RemoveFirst | game/game_logic.py:61 | removing one occurrence shortens the list by one and keeps every other value's membership |
| GameLogic.RemoveFirstCounts | game/game_logic.py:61 | exactly one copy of the removed value disappears and nothing else changes |
| GameLogic.RemoveFirstDistinct | game/game_logic.py:61 | in a list without repeats the removed player is gone for good and the rest stays without repeats |
| GameLogic.Eliminate | game/game_logic.py:52-64 | the target always joins the dead list; it leaves the alive list with a "leaves" history entry only if it was alive, otherwise alive and history are untouched |
| GameLogic.Vote | game/game_logic.py:31-72 | the voting block always clears the votes, advances the turn by exactly one and only appends to both logs |
| GameLogic.VotingBlock | game/game_logic.py:45-68 | the leader with `n` votes is buried iff `2n` is at least the alive count; the alive list and history change only if it was alive |
| GameLogic.Announce | game/game_logic.py:79-94 | the status block succeeds iff every alive player has a role, and then appends exactly one status line with the census of the alive list, keeps alive, dead, votes and turn, and only appends to the diagnostic log |
| GameLogic.God | game/game_logic.py:19-30 | on a dead player's turn the record is returned unchanged; off a boundary only the diagnostic log grows; at a boundary the votes are cleared and the last history entry is the status of the alive list; only a role lookup can fail |
| GameLogic.EmptyRound | game/game_logic.py:30-88 | a boundary without votes changes neither alive, dead, votes nor turn, and the history gains only the status line |
| GameLogic.GodVotes | game/game_logic.py:30-88 | a boundary with votes runs the voting block and then the status block on its result |
| GameLogic.VotingRound | game/game_logic.py:30-88 | a boundary with votes buries the leader iff it has at least half the alive count, clears the votes, advances the turn by one, and appends a departure (only for an alive target) and then the status line |
| GameLogic.NoOneLeavesIsNotNarrated | game/game_logic.py:66-68 | when the leader falls short, the history gains only the status line, the alive and dead lists stay, and this round appends the "no one leaves" note to the diagnostic log |
| GameLogic.LeaderLeaves | game/game_logic.py:48-64 | an alive leader with enough votes moves from alive to dead, and the history records the departure and then the status |
| GameLogic.DeadLeaderBuried | game/game_logic.py:52-58 | a dead leader with enough votes is appended to the dead list again and the alive list is untouched |
| GameLogic.CandClosedForm | game/game_logic.py:137 | the `j`-th candidate of the `(x + 1) % 6` walk from `c` is `(c + j) % 6` |
| GameLogic.SkipDead | game/game_logic.py:130-137 | the search returns the first candidate of the walk that is not dead, and returns nothing iff every candidate tried is dead |
| GameLogic.Schedule | game/game_logic.py:127-137 | a scheduled candidate is in 0..6 and not dead |
| GameLogic.ScheduleLoopsIff | game/game_logic.py:127-137 | the search fails iff the first candidate and all of 0..5 are dead, and then every candidate the loop would ever try is dead, so the loop never exits |
| GameLogic.NextNode | game/game_logic.py:109-137 | a routed player is in 1..6 and is player 1 or not dead; the only faults are a missing role and the endless search |
| GameLogic.NextNodeEndsIff | game/game_logic.py:109-124 | with every alive player in the role table, the result is the end label iff no wolf is alive or wolves are at least villagers (a tie ends the game) |
| GameLogic.BurialOnlyAtBoundary | game/game_logic.py:19-72 | `god` changes the dead list only on a live turn at a round boundary with pending votes, and that call moves the turn counter on by exactly one |
| GameLogic.NextNodeExitsWithoutDeadZero | game/game_logic.py:127-137 | if candidate 0 is not dead the search exits |
| GameLogic.NextNodeFirstCandidate | game/game_logic.py:127-137 | the first candidate `(turn + 1) % 7` wins when alive; otherwise the skip-dead walk decides; candidate 0 means player 1 |
| GameLogic.SkipsDeadNeighbour | game/game_logic.py:128-137 | with player 2 dead after turn 1, player 3 speaks next |
| GameLogic.SkipsPlayerSix | game/game_logic.py:128-137 | with player 5 dead after turn 4, player 1 speaks next although player 6 is alive |
| GameLogic.SchedulesDeadPlayerOne | game/game_logic.py:131-134 | with player 1 dead after turn 6, the edge still leads to player 1 |
| GameLogic.GodPreservesWellFormed | game/game_logic.py:9-96 | on a reachable record `god` never fails and keeps the roster players distinct, alive exactly when not dead, and the turn within 0..7 |
| GameLogic.NextNodeWhenWellFormed | game/game_logic.py:109-137 | on a reachable record `next_node` never fails: an undecided census leaves a wolf alive, so the search finds a candidate |
| GameLogic.HalfTheVotesBury | game/game_logic.py:48-64 | votes 2, 2, 2, 5, 5, 6 with six alive bury player 2 with exactly half, leaving one wolf and four villagers |
| GameLogic.TieShortOfHalf | game/game_logic.py:45-68 | a 3, 4, 3, 4 tie goes to 3, whose two votes of six fall short: nobody leaves, the history gains only the status line, the turn moves to 7 |
| GameLogic.Unanimous | game/game_logic.py:45 | three votes for one target elect it with three votes |
| GameLogic.DeadTargetBuriedAgain | game/game_logic.py:52-58 | three votes for the dead player 3 append it to the dead list again and leave alive and history untouched apart from the status line |
| GameLogic.WolfVotedOut | game/game_logic.py:48-64 | three votes against wolf 1 with six alive bury it and move the turn to 7 |
| GameLogic.WolfVotedOutGameGoesOn | game/game_logic.py:109-137 | after wolf 1 is voted out the census is one wolf to four villagers and player 2 speaks next |
| Players.TeammateHint | game/players.py:49-54 | a player is told about a teammate iff it is a wolf, and the teammate is the other wolf |
| Players.ViewOf | game/players.py:56-64 | what both prompts show: the history, alive and dead lists of the record the player is handed, its role and its teammate hint; `Graph.PlayerSeesPriorRecord` shows this is the record before the player speaks |
| Players.PlayerTurn | game/players.py:22-115 | a turn fails iff the player has no role; otherwise the turn becomes the player, exactly its utterance is appended to the history, exactly two entries to the diagnostic log, alive and dead are untouched, and the guess is appended to the votes iff the confidence exceeds 50 |
| Players.VoteCastIff | game/players.py:112-113 | a vote is cast iff the confidence is above 50, and it counts for the guessed player whatever that number is |
| Players.PlayerTurnPreservesWellFormed | game/players.py:22-115 | a roster player's turn never fails and keeps the reachable-state invariant |
| Players.PlayerFunctions | game/players.py:128-153 | the node names are exactly `player_1`..`player_6`, and `player_k` runs player k's turn |
| Graph.Route | game/graph.py:37-49 | a label is routed iff it is the end label or names a player in 1..6, and `to_k` leads to the node of player k |
| Graph.Step | game/graph.py:35-57 | a player node returns to `god`; `god` leads elsewhere; both logs only grow; the terminal node is reached only with a decided census; `god` never routes to a player when the census is decided; a label without an edge and the step cap never arise in one step |
| Graph.PlayerSeesPriorRecord | game/players.py:56-110 | on a player node both prompts get the history, alive and dead lists as they were before the player speaks, plus its teammate hint, and the step adds exactly the utterance answered to that view to the history |
| Game.InitialState | main.py:40-50 | the first record is reachable with turn 0, all six players alive, nothing dead, said or voted, and two wolves against four villagers, so it is undecided |
| Game.Run | main.py:77 | a successful run ends at the terminal node with a decided census, the logs only grow, and with no steps left the run succeeds iff it is already at the terminal node |
| Game.StepKeepsConfigOK | game/graph.py:35-57 | from a reachable configuration every node run succeeds and leads to a reachable configuration |
| Game.RunFromConfigOK | main.py:77 | from a reachable configuration a run ends with a decided, reachable record or with the step cap, never with another fault |
| Game.GameOutcome | main.py:77 | every game, whatever the players answer, ends with a decided record or with the step cap |
| Game.PlayGame | main.py:71-77 | the game starts from the initial record at the entry node with the 2000-step cap; a finished game has a decided census and logs that extend the initial ones, and no label is ever unrouted |
| Game.OpeningAnnouncement | game/graph.py:35 | the first node run is `god` at turn 0: it announces two wolves and four villagers and hands over to player 1 |
| Game.StalledRoute | game/game_logic.py:127-137 | from a stalled record the search always answers, and the edge leads to the candidate found |
| Game.StalledSchedule | game/game_logic.py:128-137 | once player 5 or 6 is dead, the search never picks player 6 nor a dead player 5 |
| Game.StepKeepsStalled | game/game_logic.py:19-30 | a stalled game stays stalled: every node run keeps the alive and dead lists, and `god` adds nothing to the history |
| Game.StalledRunsOut | main.py:77 | once stalled, the run exhausts every step budget whatever the players say |
| Game.BurialStalls | game/game_logic.py:19-72 | burying player 5 or 6 without ending the game moves the turn to 1 or 7 and leaves a stalled configuration, which `Game.StalledRunsOut` then runs into the step cap |
| Game.SixVotedOutStalls | main.py:77 | voting out player 6 in the first round leaves a game that runs into the step cap |

## Left out

- The language model: prompts, `RULES` prose, output parsing and the `question`/`description` fields of the guess. The utterance, the guessed player and the confidence are inputs.
- The wording of diagnostic log lines and every `print`: the diagnostic log is a sequence of tagged entries whose kind and order follow the code.
- The text of history entries: a spoken line, a departure and a status line are datatype values carrying the same numbers as the code's strings.
- The fields `max_iter`, `current_iter`, `topic`, `roles` and `rules` of the record: the engine never reads them.
- The absent-key checks on `debug_log`: the log is always present, which appends the same entries.
- The winning faction: the code only prints it.
- The graph runtime's internals: one node run is one step of the 2000-step budget, and the runtime's own counting of steps is not modelled.
- The user interface, the launcher, packaging and the API-key set-up: they are orchestration around the engine.
- A failure mid-round: when a role lookup fails inside `god`, the code has already changed the record. The model returns only the fault, because the run stops there.
- Players.PlayerTurn: states the number of diagnostic entries and that the old log is a prefix, not the text of the two entries.
- GameLogic.God: at a round boundary its own contract states the last history entry, the cleared votes and the turn. The full effect on alive, dead and history is stated by GameLogic.VotingRound and GameLogic.EmptyRound.
