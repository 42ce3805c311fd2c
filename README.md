# Guess-who game sessions, modelled in Dafny

This project models the in-memory core of a Telegram "guess your character"
party game. Each player of a lobby is secretly given a character (a *role*).
Players take turns. On their turn a player asks a yes/no question about their
own role, and the other players vote "yes" or "no" from the point of view of
their own roles. A strict majority of "yes" lets the asker ask again.
Anything else, ties included, passes the turn to the next player.
A message "я <role>!" ("I am <role>!") is a final guess. It wins the game
when its normalised text names the player's role, ignoring case; otherwise
the turn passes. A role whose name holds "я " cannot be won this way (see
"## Findings").

The model covers four parts of the game:

- `SessionState` (session_state.dfy) holds the `GameState` class: status, players in turn order, the
  turn index, the open vote, and the winner.
- `SessionRegistry` (session_registry.dfy) holds the `GameStorageManager` registry of running sessions.
- `TurnController` (turn_controller.dfy) and `RoleAssignment` (role_assignment.dfy) are the older dict-based
  `GameManager`. This controller deals roles, checks whose turn it is, recognises final guesses, takes
  ballots, and announces results.
- `Bots` (bots.dfy) holds the bookkeeping of a computer player.

Several modules are shared:

- `Ballots` (ballots.dfy) is the yes/no tally used by both session implementations.
- `GuessText` (guess_text.dfy) handles Python's `strip`, `lower` and `replace` on messages.
- `Seqs` (seqs.dfy) holds facts about sequences.
- `Wrappers` (wrappers.dfy) holds `Option` and `Result`.

A Python dict whose key order matters is modelled as a sequence of its keys in
insertion order, paired with a map. The dicts modelled this way are the
players of a `GameState`, the registry, and the controller's `active_games`.
Re-assigning an existing key keeps its position, as in Python. Objects that the
source updates in place are classes whose methods state their whole new state:
`GameState`, the registry, the controller, its per-lobby session record, and
the bot.

The two session implementations differ in two ways, and the model keeps both
as written.

- **Completion test.** `GameState.is_voting_complete` completes a vote once the ballots **reach at least**
  the total stored when the vote opened (`>=`). The controller instead announces results only when the
  number of voters **equals** the number of players minus one (`==`). In the controller, a ballot that
  pushes the count past that number, for example from someone outside the game, never triggers an
  announcement.
- **Self-vote check.** `GameState.add_vote` refuses a ballot from the stored question owner. The
  controller refuses a ballot from whoever holds the turn when the ballot arrives.

The model also keeps these behaviours of the code as written.

- `GameState.end_vote` tests the current player with Python truthiness, so a player whose id is 0 never has
  a question counted.
- The controller reads `current_question` while announcing results. When every ballot arrives before any
  question was asked in the session, that read raises `KeyError`. The model answers `QuestionMissing`,
  and the ballots stay recorded.
- `distribution_roles` with an empty role list and at least one player divides by zero. The model returns
  `Failure(NoRoles)`, and `StartGameSession` then reports failure, as the Python `except` clause does.
  With no players and no roles, it returns no roles.

## Model

| member | source | states |
|---|---|---|
| Seqs.IndexOf | game/game_state.py:55 | the position found holds the element, and no earlier position does (Python `list.index`) |
| Seqs.Without | game/game_state.py:51 | deleting a dict key from its key order: exactly the other keys remain, and the list does not grow |
| Seqs.WithoutIsDeletion | game/game_state.py:51 | deleting a key from a dict without repeated keys removes exactly its one position and keeps everything before and after it |
| Seqs.WithoutDistinct | game/game_state.py:51 | deleting a key keeps the keys distinct and shortens the list by one |
| Seqs.WithoutKeepsOrder | game/game_state.py:51-55 | deleting a key keeps the relative order of all remaining keys |
| Seqs.DistinctSize | game/game_state.py:128-142 | a list of distinct keys is as long as the key set it enumerates, so `len(players)` equals the length of the turn order |
| Seqs.Repeat | game/game_logic.py:50 | `list * k` has `k` times the length |
| Seqs.RepeatMultiplicity | game/game_logic.py:50 | `list * k` holds every element exactly `k` times as often as the list |
| Seqs.SubMultisetOfDistinct | game/game_logic.py:52 | a draw without replacement from a list of distinct entries has no repeats |
| Ballots.Count | game/game_state.py:109-110 | "yes" counts exactly the ballots equal to "yes", "no" counts all other ballots, and the two add up to the number of ballots |
| Ballots.MajorityYes | game/game_logic.py:345 | strictly more "yes" than "no" ballots; its meaning is stated by `MajorityYesMeansMoreThanHalf` |
| Ballots.MajorityYesMeansMoreThanHalf | game/game_logic.py:345 | a question passes exactly when more than half of the ballots are "yes"; a tie, or no ballots at all, never passes |
| Ballots.CountAfterBallot | game/game_logic.py:314 | storing a ballot withdraws the voter's earlier ballot and adds the new one; the total grows only for a new voter |
| GuessText.Strip | game/game_logic.py:229 | `str.strip()`: the result is a slice of the input that neither starts nor ends with white space, and everything outside it is white space |
| GuessText.StripIdempotent | game/game_logic.py:229 | stripping twice is stripping once |
| GuessText.Lower | game/game_logic.py:232 | `str.lower()` keeps the length and lowers each character |
| GuessText.LowerIdempotent | game/game_logic.py:404 | lowering twice is lowering once |
| GuessText.LowerCharKeeps | game/game_logic.py:232 | lowering keeps white space, blanks and '!' and makes none; 'я' comes from 'я' or 'Я' only |
| GuessText.RemoveAll | game/game_logic.py:404 | `str.replace(pat, "")` never lengthens its input and keeps only characters of it |
| GuessText.RemoveAllChar | game/game_logic.py:404 | removing every '!' leaves none |
| GuessText.RemoveAllCleanPrefix | game/game_logic.py:404 | text in which the pattern does not start is copied through unchanged |
| GuessText.IsFinalGuess | game/game_logic.py:232 | the lowered stripped message starts with "я " and its last character is '!' |
| GuessText.FinalGuessShape | game/game_logic.py:232 | a stripped message is a final guess exactly when it has at least three characters, starts with 'я' or 'Я' and a blank, and ends with '!' |
| GuessText.GuessedRole | game/game_logic.py:404 | the guess lowered, every "я " and every '!' removed, then stripped; its properties are those of `GuessedRoleShape` |
| GuessText.GuessedRoleShape | game/game_logic.py:404 | the normalised guess is lower case, holds no '!', and has no white space at either end |
| GuessText.InnerMarkerLosesGuess | game/game_logic.py:404-407 | the guess "я Мария Кюри!" is a final guess that normalises to "марикюри" and so loses against its own role "Мария Кюри" |
| GuessText.IntendedGuessedRole | game/game_logic.py:404 | the guess lowered, one leading "я " and one closing '!' removed, then stripped; its properties are those of `IntendedCanonicalGuess` |
| GuessText.IntendedCanonicalGuess | game/game_logic.py:404-407 | with the intended normalisation, "я <name>!" names `name` lowered and stripped, whatever it holds, and a name without surrounding white space wins exactly when it equals the role ignoring case |
| GuessText.IntendedAgreesOnPlainNames | game/game_logic.py:404 | on names free of '!', of an inner "я " and of surrounding white space, the intended and the written normalisation agree |
| GuessText.GuessMatches | game/game_logic.py:407 | the guessed text and the role agree once both are lowered |
| GuessText.CanonicalGuess | game/game_logic.py:404-407 | for a name that holds no '!', no "я " once lowered, and no white space at either end, "я <name>!" is a final guess whose normalised text is `name` lowered, and it wins exactly when `name` equals the role ignoring case |
| SessionState.Advance | game/game_state.py:78 | the turn index after one step is a valid seat |
| SessionState.AdvanceStep | game/game_state.py:78 | one step moves to the next seat, or from the last seat to the first |
| SessionState.AdvanceTimesCompose | game/game_state.py:72-79 | `a` steps then `b` steps are `a + b` steps |
| SessionState.RotationReachesEverySeat | game/game_state.py:72-79 | every seat gets the turn within fewer than `n` steps |
| SessionState.FullRoundReturns | game/game_state.py:72-79 | after `n` steps the turn is back with the same player |
| SessionState.AllOthersVotedCompletes | game/game_state.py:84-102 | once every player other than the asker has voted, the vote opened by `start_vote` is complete |
| SessionState.GameState.constructor | game/game_state.py:35-42 | a new session is waiting, empty, with the turn index at 0, no vote and no winner |
| SessionState.GameState.AddPlayer | game/game_state.py:44-46 | the user gets a fresh record with their role; a new user joins at the end of the turn order, and a present user keeps their seat |
| SessionState.GameState.RemovePlayer | game/game_state.py:48-57 | an absent user changes nothing and gives false; a present one is deleted, the others keep their order, and the turn goes to `next_player` |
| SessionState.RemovingHolderPassesClockwise | game/game_state.py:48-57 | when the turn holder leaves, the next player clockwise is a valid `next_player` and then sits at the leaver's seat, or first when the leaver sat last |
| SessionState.GameState.CurrentPlayer | game/game_state.py:59-64 | None exactly in an empty session; otherwise a player whose seat is the turn index |
| SessionState.GameState.PlayerRole | game/game_state.py:66-70 | the role of a present player, None for anyone else |
| SessionState.GameState.NextPlayer | game/game_state.py:72-79 | in an empty session nothing changes and the result is None; otherwise the turn index advances cyclically and the new holder is returned |
| SessionState.GameState.StartVote | game/game_state.py:81-88 | status becomes voting, with a fresh vote that has no ballots, expects one ballot fewer than there are players, and records the owner |
| SessionState.GameState.AddVote | game/game_state.py:90-96 | refused, with nothing changed, when no vote is open or the voter is the owner; otherwise the ballot replaces the voter's earlier one |
| SessionState.GameState.IsVotingComplete | game/game_state.py:98-102 | false with no open vote; otherwise true exactly when the ballots reach the expected total |
| SessionState.GameState.GetVoteResults | game/game_state.py:104-111 | (0, 0) with no open vote; otherwise the "yes" voters, and yes + no equals the number of ballots |
| SessionState.GameState.EndVote | game/game_state.py:113-121 | back to playing with no vote; only the current holder's question count grows by one, and only when their id is not 0 |
| SessionState.GameState.FinishGame | game/game_state.py:123-126 | status finished and the winner recorded; players, turn index and vote unchanged |
| SessionState.GameState.GetRemainingPlayersCount | game/game_state.py:128-130 | the number of players equals the length of the turn order |
| SessionState.GameState.HasPlayer | game/game_state.py:132-134 | true exactly for users in the turn order |
| SessionState.GameState.GetAllPlayers | game/game_state.py:136-138 | the player ids listed once each, exactly the present players |
| SessionState.GameState.GetPlayerCount | game/game_state.py:140-142 | the number of players equals the length of the turn order |
| SessionRegistry.Keys | game/game_manager.py:23 | the keys of `players_data` in iteration order |
| SessionRegistry.Roster | game/game_manager.py:23-24 | the records created for `players_data`: one per user, under their own id, with no questions asked |
| SessionRegistry.RosterRole | game/game_manager.py:23-24 | every user of `players_data` gets the role given with them |
| SessionRegistry.NewSession | game/game_manager.py:20-24 | a fresh playing session whose players are `players_data` in its order, each with their role and no questions |
| SessionRegistry.GameStorageManager.constructor | game/game_manager.py:12-14 | a new registry holds no sessions |
| SessionRegistry.GameStorageManager.CreateGame | game/game_manager.py:18-27 | that session is registered under the lobby id, replacing any earlier one, whose place in the order is kept |
| SessionRegistry.GameStorageManager.GetGame | game/game_manager.py:29-31 | the registered session of the lobby, or None exactly when there is none |
| SessionRegistry.GameStorageManager.RemoveGame | game/game_manager.py:33-38 | true and the entry deleted exactly when the lobby was registered; otherwise false and nothing changes |
| SessionRegistry.GameStorageManager.GetGameByPlayer | game/game_manager.py:40-45 | the first registered session, in registration order, that has the user; None exactly when none has |
| SessionRegistry.GameStorageManager.GetActiveGamesCount | game/game_manager.py:185-187 | the number of registered sessions |
| SessionRegistry.GameStorageManager.GetTotalPlayersOnline | game/game_manager.py:189-194 | the sum of the player counts over all registered sessions |
| SessionRegistry.GameStorageManager.PlayersOfAppend | game/game_manager.py:189-194 | the player total splits over the parts of the list of lobbies |
| SessionRegistry.GameStorageManager.SessionShare | game/game_manager.py:189-194 | all players online are one session's players plus those of every other session |
| RoleAssignment.TilingCovers | game/game_logic.py:50 | repeating a pool of `p` roles `n // p + 1` times gives more than `n` roles |
| RoleAssignment.Tiled | game/game_logic.py:45-50 | the pool drawn from has at least `num_players` entries and only loaded roles |
| RoleAssignment.TiledMultiplicity | game/game_logic.py:50 | tiling repeats each role at most `n // len + 1` times as often as it was loaded |
| RoleAssignment.DistributionRoles | game/game_logic.py:41-53 | fails exactly when players need roles and none are loaded; otherwise exactly `num_players` loaded roles drawn without replacement, all different when enough distinct roles were loaded |
| TurnController.ZipRoles | game/game_logic.py:81 | `dict(zip(ids, roles))` has exactly the players as keys and dealt roles as values |
| TurnController.ZipRolesAt | game/game_logic.py:81 | each player holds the role dealt at their position |
| TurnController.DistinctRolesPerPlayer | game/game_logic.py:81 | distinct dealt roles give every player a different role |
| TurnController.Session.constructor | game/game_logic.py:84-93 | a new session record has the turn on the first player, no questions and no ballots |
| TurnController.Session.Current | game/game_logic.py:197-202 | the player at the turn index, who has a role |
| TurnController.Session.NextPlayer | game/game_logic.py:206-214 | the index advances cyclically, ballots are cleared and the question count restarts at 0 |
| TurnController.FirstLobbyWith | game/game_logic.py:221-222 | the first lobby, in start order, whose players include the user; None exactly when there is none |
| TurnController.GameManager.constructor | game/game_logic.py:15-19 | a new controller has no running sessions |
| TurnController.GameManager.StartGameSession | game/game_logic.py:55-96 | fails and changes nothing without a lobby or roles; otherwise registers a fresh session whose players each hold a loaded role, all different given enough distinct roles |
| TurnController.GameManager.GetCurrentPlayer | game/game_logic.py:197-204 | None exactly for a lobby without a session; otherwise the player at its turn index |
| TurnController.GameManager.NextPlayer | game/game_logic.py:206-214 | cyclic advance with ballots and question count reset, in that lobby only |
| TurnController.GameManager.FindLobby | game/game_logic.py:221-222 | the scan over running sessions finds the first lobby that has the user |
| TurnController.GameManager.AskQuestion | game/game_logic.py:216-248 | nothing changes for a user in no game or out of turn; a final guess either deletes the lobby, every other one staying in order, or passes the turn with the question kept; any other text becomes the question, and the count grows by exactly one |
| TurnController.GameManager.ProcessVote | game/game_logic.py:289-326 | the asker's ballot is refused unrecorded; any other ballot replaces the voter's earlier one; results are announced exactly when the voters number the players minus one, with the same outcomes as `AnnounceResults`; the pending question is never changed |
| TurnController.GameManager.AnnounceResults | game/game_logic.py:328-390 | with a strict "yes" majority the asker keeps the turn and ballots are cleared; otherwise, ties included, the turn passes; with no question it stops unchanged |
| TurnController.GameManager.ProcessFinalGuess | game/game_logic.py:392-434 | a normalised guess equal to the role ignoring case ends the game; any other guess passes the turn |
| TurnController.GameManager.EndGame | game/game_logic.py:436-496 | the lobby's session is removed and every other one stays, in order |
| Bots.AnswerText | game/bot_player.py:30 | "Да" exactly for yes, otherwise "Нет" |
| Bots.BotPlayer.constructor | game/bot_player.py:15-18 | a new bot has its id, no history and an empty role, whatever role it is given |
| Bots.BotPlayer.Ask | game/bot_player.py:20-22 | always the question "Test", not marked as a guess |
| Bots.BotQuestionIsOrdinary | game/bot_player.py:20-22 | the bot's question reaches the controller as an ordinary question, never a final guess |
| Bots.BotPlayer.AnsForQuestion | game/bot_player.py:24-26 | any yes or no, chosen at random, whatever the role and question |
| Bots.BotPlayer.AddFact | game/bot_player.py:28-30 | exactly one entry is appended, the question with "Да" or "Нет"; earlier entries stay |
| Bots.BotPlayer.ToDict | game/bot_player.py:32-39 | the bot's id, role and history, marked as a bot |

## Left out

- Telegram I/O is dropped: message texts, keyboards, callback answers, username lookups, and the
  conversation states the handlers return. Each handler instead returns a `Reply` saying which branch ran.
- The SQLite persistence is not modelled. This covers the role writes and clears in
  `start_game_session` and `end_game`, `get_lobby_info`, and the question-history methods of
  `GameStorageManager`. The lobby's player list reaches `StartGameSession` as a parameter, and None
  stands for a missing lobby.
- StartGameSession: deals as many roles as the lobby has players, and it requires at least one player. The
  source counts players with the lobby's stored counter. An empty lobby would register a session on which
  `get_current_player` raises `IndexError`.
- Randomness is nondeterministic choice. `random.sample` picks any draw without replacement,
  `random.shuffle` any permutation, and `random.choice` in `BotPlayer.ans_for_question` any boolean.
- `load_roles` (file reading and its fallback list) is not modelled. The role pool is a parameter of
  `DistributionRoles` and `StartGameSession`.
- The `SingletonMeta` lock and the service wiring are concurrency and dependency-injection plumbing. They
  are not part of this model.
- `prepare_player_exit` and `process_player_exit` are not part of this model, because the class that
  implements them is not among the modelled files. Only `GameState.remove_player` is modelled.
- `GameState.to_dict` is not modelled. It calls `VoteData.to_dict`, which does not exist.
- `GameState.questions_history` and the controller's `questions_history` and `game_started` entries are
  never changed by the modelled code, so they are not modelled.
- GuessText.Lower: lowers only the ASCII capitals and the Cyrillic capitals U+0400–U+042F. Python's
  `str.lower` covers all of Unicode, so every other capital, such as 'Ґ' (U+0490) or 'Ѣ' (U+0462), is
  kept as it is.
- SessionState.GameState.RemovePlayer: requires that a present user is not the named `next_player` and
  that `next_player` stays in the session. The source deletes the user first and then raises
  `ValueError` from `list.index` when `next_player` is gone. The model therefore leaves out that error
  path, and with it removing the last player.
- The lobby-side data transfer object and lobby management are SQL queries and plain records. They are
  not part of this model.

## Findings

| source | as written | input that shows it | evidently intended | confidence | as-written member | corrected member |
|---|---|---|---|---|---|---|
| game/game_logic.py:404 | `guess.lower().replace("я ", "")` deletes every "я " of the guess, not only the leading marker | the role "Мария Кюри" guessed as "я Мария Кюри!" normalises to "марикюри" and loses | remove only the leading "я " marker and the closing '!', so that every role whose name ends a word in 'я' can be won | high; not executed | GuessText.InnerMarkerLosesGuess | GuessText.IntendedCanonicalGuess |

`ProcessFinalGuess` keeps the written normalisation `GuessedRole`, because its reply must be the one the
program gives. `IntendedGuessedRole` is the corrected normalisation, and `IntendedAgreesOnPlainNames`
shows it changes nothing for names the written one already handles.
