# Spyfall bot: the per-chat game state machine

The Spyfall Telegram bot (`code.py`) runs one game of Spyfall per group chat.
A game goes through these stages:

- `/spyfall` opens a lobby.
- Players register with `/join <name>` until the lobby deadline. With at least four players, a game starts.
- Each player is dealt a role. One player is the spy; the others learn the location.
- Players ask each other questions in turn, using the "ask" and "next" buttons.
- Anyone may start an accusation with `/vote`. A strict majority of "for" presses resolves it.
  - If the accused is the spy, the spy is exposed and gets a last guess.
  - If not, the accusation counts as a mistake. The second mistake makes the spy win.
- The spy may name the location with `/guess` at any time. A right guess wins for the spy; a wrong one wins for the residents.
- The game also ends when the match timer runs out.

This project models the bot's three dictionaries and every handler and timer callback that changes them, with Telegram left out:

- `lobbies`, `games` and `active_votes` become the map fields of the class `Spyfall.Bot`.
- The insertion order of `games` is kept as the sequence `gameChats`, because `/guess` looks through games in that order.
- Each handler is a method that returns a `Reply` naming the branch it took. Its contract states that branch and the whole new state.
- Every method preserves the class invariant `Bot.Valid`:
  - no chat holds both a lobby and a game;
  - in every game the spy is a player and the location comes from the catalogue;
  - the turn order is a permutation of the players and the turn index is in range;
  - fewer than two accusations have missed.

The modules are:

- `options.dfy`: an `Option` type for Python's `None`.
- `strings.dfy`: Python's `str.strip()`, `str.lower()`, `sep.join(...)` and `int(...)` on `seq<char>`, with their laws.
- `rosters.dfy`: a player dictionary that keeps its insertion order, the `@username` search, and `format_players_list`.
- `games.dfy`: the lobby, game and vote records, game creation from a random draw, the ask list, `/vote` target resolution, the quorum test and the guess comparison.
- `bot.dfy`: the class `Bot` with the handlers.
- `scenarios.dfy`: whole games played from an empty bot.

Timers (`lobby_countdown`, `vote_timeout`, `spy_guess_timeout`, `game_timer`) are ordinary methods that may be called in any state. Their guards make a late call a no-op.

The random draws of `start_game_from_lobby` are a `Draw` parameter. Its precondition `DrawFits` states what Python's `random` promises about them.

Whether the bot can send a private message (`safe_send_pm`) is a boolean parameter of `OpenLobby`.

## Model

| member | source | states |
|---|---|---|
| Strings.Strip | code.py:160 | `str.strip()` returns the slice between the leading and the trailing whitespace; the result is empty exactly when the input is all whitespace |
| Strings.StripUnique | code.py:160 | any slice with whitespace-only margins and non-whitespace ends is what `strip()` returns |
| Strings.StripIdempotent | code.py:592-593 | stripping twice is stripping once |
| Strings.StripIgnoresPadding | code.py:592-593 | whitespace added around a string does not change its stripped form |
| Strings.LowerIdempotent | code.py:592-593 | lower-casing twice is lower-casing once |
| Strings.Normalise | code.py:592-593 | `s.strip().lower()` is empty exactly for an all-whitespace string, is never longer than `s`, and neither starts nor ends with whitespace |
| Strings.StripLower | code.py:592-593 | `s.lower().strip() == s.strip().lower()`, since lower-casing maps whitespace to whitespace and nothing else to it |
| Strings.Lower | code.py:410 | `s.lower()` has the length of `s`, whitespace exactly where `s` has it, and no character left to lower-case |
| Strings.NormaliseIdempotent | code.py:592-593 | `strip().lower()` applied twice is applied once |
| Strings.NormaliseIgnoresPadding | code.py:592-593 | surrounding whitespace does not change `strip().lower()` |
| Strings.NormaliseIgnoresCase | code.py:592-593 | strings equal after lower-casing have equal `strip().lower()` forms |
| Strings.JoinAppend | code.py:64-65 | joining one more part appends the separator and that part |
| Strings.Join | code.py:65 | `sep.join(parts)` is empty for no parts and otherwise starts with the first part |
| Strings.JoinEndsWithLast | code.py:65 | a join ends with its last part |
| Strings.JoinAllSpace | code.py:160 | a join with a whitespace separator is all whitespace iff every part is |
| Strings.JoinedBlankIff | code.py:160-163 | the `/join` name is blank exactly when every argument is whitespace |
| Strings.ParseDecimal | code.py:419 | `int(str(n)) == n` for every integer id |
| Strings.ParseInt | code.py:419 | `int(s)` succeeds only on a trimmed string of an optional sign and digits, and a negative result comes from a leading `-` |
| Rosters.Without | code.py:277-284 | the sequence without `x` holds exactly the other elements, stays duplicate-free, and is one shorter when `x` occurred once |
| Rosters.WithoutSnoc | code.py:279-284 | dropping `x` from a sequence extended by `y` drops it from the sequence and then keeps or skips `y` |
| Rosters.IndexOf | code.py:380 | `list.index`: a position holding `x` with no earlier one |
| Rosters.DistinctCount | code.py:197-198 | a duplicate-free list holds each element at most once, and exactly once if present |
| Rosters.PermutationOfDistinct | code.py:197-198 | a shuffle of a duplicate-free list is duplicate-free, has the same length and the same elements |
| Rosters.Roster.KeysAreIds | code.py:41 | the recorded key order lists exactly the dictionary's keys |
| Rosters.Roster.Add | code.py:170 | `players[u] = p` for a new user: the dictionary gains that entry, the key goes last and the size grows by one |
| Rosters.Roster.Remove | code.py:688 | `del players[u]`: only that entry goes, the recorded key order is the old one with `u` dropped and the others in their order, and an absent user changes nothing |
| Rosters.Roster.Names | code.py:65 | `players.values()` yields one name per dictionary entry, each user's own name at that user's position in key order |
| Rosters.NamesAfterAdd | code.py:65 | after a user joins, the names are the old ones in their order followed by the new player's |
| Rosters.SizeIsEntryCount | code.py:473 | `len(players)` is the number of dictionary entries |
| Rosters.FormatPlayersList | code.py:64-65 | the list is empty for an empty roster, starts with the first player's name and ends with the last player's |
| Rosters.RemoveAfterAdd | code.py:681-691 | a user who joins and then leaves leaves the roster exactly as it was |
| Rosters.FormatPlayersListAfterAdd | code.py:64-65 | a player who joins appears at the end of the printed list, after ", " |
| Rosters.FirstUsernameMatch | code.py:412-415 | the result, if any, has a matching non-empty username; it is missing iff no player matches; otherwise it is the first match in dictionary order |
| Rosters.FindByUsername | code.py:410-415 | the search loop returns exactly that first match |
| Games.SomeDrawFits | code.py:195-200 | every non-empty roster admits a draw that meets the `random` promises |
| Games.NewGame | code.py:193-216 | a new game: the spy is a player, the location is from the catalogue, the order is a permutation of the players, the index is in range, no mistakes and the spy not exposed |
| Games.OrderHoldsEachPlayerOnce | code.py:197-198 | the turn order holds each player exactly once |
| Games.AskTargets | code.py:277-284 | the ask list holds exactly the players other than the current one, each once |
| Games.SkipPlayer | code.py:278-283 | the loop over the turn order yields exactly the order with the current player skipped |
| Games.JoinedName | code.py:160 | the `/join` name is blank exactly when every argument is whitespace, and otherwise neither starts nor ends with whitespace |
| Games.ResolveTarget | code.py:404-423 | without a replied-to message, a target found from the arguments is always a player, and no arguments give no target |
| Games.ResolveTargetSpec | code.py:404-426 | the replied-to author wins; `@name` matches usernames case-insensitively and takes the first match; without arguments there is no target; a resolved argument is always a player |
| Games.FindVoteTarget | code.py:404-423 | the lookup of `cmd_vote`, with its username search loop, returns exactly the target described above |
| Games.ResolveById | code.py:417-423 | `/vote <id>` with a player's decimal id targets that player |
| Games.UnknownUsernameRefused | code.py:409-426 | `/vote @name` with a name no player's username matches is refused |
| Games.QuorumIsStrictMajority | code.py:486 | `count > total / 2` holds iff `count >= total / 2 + 1` in integer division |
| Games.QuorumOfFour | code.py:486 | with four players three ballots resolve a vote and two do not |
| Scenarios.RepeatPress | code.py:471-495 | a second "for" press by a user already among the ballots of a vote short of a majority gives the same count and changes no state |
| Games.GuessIgnoresCaseAndPadding | code.py:592-595 | a guess matches whatever its case and surrounding whitespace |
| Games.GuessMatches | code.py:592-595 | a guess equal to the location up to case is right, and a right guess has the location's trimmed length |
| Games.AirportGuess | code.py:592-595 | the location `Аэропорт` with a space on each side, and `"АЭРОПОРТ"`, are both right guesses for `Аэропорт` |
| Games.AirportUpperCase | code.py:593 | `"АЭРОПОРТ".lower() == "Аэропорт".lower()` |
| Spyfall.ResolutionSpec | code.py:527-545 | a resolved accusation exposes the spy iff it names the spy; otherwise the first miss counts one mistake and keeps the game valid, and the second ends the game with the spy winning |
| Spyfall.Resolution | code.py:526-545 | an accusation aborts iff its target is not a player, exposes the spy iff it names the spy, otherwise counts one more mistake below the limit or ends the game with the spy winning |
| Spyfall.GamesAfter | code.py:526-545 | the game is deleted iff the outcome ends it, other chats' games are untouched, exposure sets `spy_exposed` and keeps `mistakes`, a miss sets `mistakes` and keeps `spy_exposed`, and a game that stays keeps its players, location, spy, order and turn |
| Spyfall.FirstGameOf | code.py:573-577 | the result, if any, is a game the user plays in; it is missing iff the user plays in none; otherwise it is the first such game in creation order |
| Spyfall.Bot.constructor | code.py:39-47 | the bot starts with no lobbies, no games and no votes |
| Spyfall.Bot.OpenLobby | code.py:69-111 | refused when the chat has a game or a lobby, or when the bot cannot write to the user privately; otherwise an empty lobby created by the user and nothing else changed |
| Spyfall.Bot.Join | code.py:140-171 | refused without a lobby, without arguments, with a blank name or for a registered user, each leaving the roster as it was; otherwise exactly that user is added with the trimmed name, and the reply carries the new size |
| Spyfall.Bot.Leave | code.py:681-691 | a registered user is removed from the lobby; otherwise nothing changes |
| Spyfall.Bot.StartGameFromLobby | code.py:175-220 | without a lobby nothing happens; with fewer than four players the lobby is deleted and no game made; otherwise the new game is inserted and the lobby deleted in the same step |
| Spyfall.Bot.Promote | code.py:193-216 | the game drawn from the lobby's roster goes into `games` and last in creation order, and the lobby is deleted |
| Spyfall.Bot.LobbyCountdown | code.py:114-136 | at the deadline a missing lobby is ignored, a short lobby deleted, and a full one promoted to a game |
| Spyfall.Bot.BuildAskKeyboard | code.py:271-284 | the ask list is the turn order without the current player, and empty without a game |
| Spyfall.Bot.Ask | code.py:340-363 | accepted iff the game exists, the presser's turn it is and the target is a player; it changes nothing |
| Spyfall.Bot.Pass | code.py:366-388 | only the asked player may pass; the index moves to that player's first position, so that player has the turn and the order is unchanged |
| Spyfall.Bot.StartVote | code.py:392-451 | without a game, or with a target that does not resolve to a player, refused; with a vote already open, refused; otherwise a vote with no ballots on the resolved target |
| Spyfall.Bot.VoteYes | code.py:454-495 | refused without a vote or game, for a stale target or for a non-player, each changing nothing; otherwise the ballot is added to the set and a strict majority resolves the vote |
| Spyfall.Bot.VoteTimeout | code.py:498-510 | drops the vote only when both vote and game exist; games and mistakes are untouched |
| Spyfall.Bot.FinalizeVote | code.py:513-547 | removes the vote first; then exposes the spy, counts a mistake with order and index untouched, or ends the game with the spy winning at the second mistake |
| Spyfall.Bot.ApplyVerdict | code.py:527-545 | the outcome is `Resolution` of the game and target, and the game is updated, or deleted at the second mistake, to match |
| Spyfall.Bot.CancelVote | code.py:550-560 | any vote in the chat is removed; nothing else changes |
| Spyfall.Bot.FindPlayerGame | code.py:573-577 | the lookup loop returns the first game, in creation order, the user plays in |
| Spyfall.Bot.Guess | code.py:564-600 | only the spy of the user's game may guess, exposed or not; the spy wins iff the stripped, lower-cased guess equals the location's; either way that game ends |
| Spyfall.Bot.SpyGuessTimeout | code.py:603-614 | the residents win only if the game still exists and its spy was exposed |
| Spyfall.Bot.GameTimer | code.py:618-628 | the residents win if the game still exists; a late call does nothing |
| Spyfall.Bot.EndGame | code.py:631-666 | a no-op without a game; otherwise only that game is deleted, and lobbies and votes are left alone |
| Scenarios.SpyExposedThenGuesses | code.py:454-600 | four players, three ballots against the spy expose the spy, and the spy's guess `АЭРОПОРТ` wins |
| Scenarios.VoteOutlivesGame | code.py:631-666 | an accusation open when the match timer ends the game survives it, and blocks `/vote` in the next game in the same chat |

## Left out

- Telegram I/O: messages, replies, edits, `safe_send_pm` and the `Forbidden` handling are outside the state machine. Private-message delivery is the `pmOk` parameter of `OpenLobby`. Role messages to players have no effect on state.
- Keyboards and markup objects. Only the list of user ids behind the ask keyboard is kept (`BuildAskKeyboard`).
- `send_turn_keyboard` and the `last_ask_message_id` field it stores. It only sends a message.
- `callback_router`: the splitting of `callback_data` and its `int()` parsing. The handlers take the chat and target ids as integers.
- `cmd_players` (code.py:670-678): read-only listing of names into a message.
- Concurrency. Tasks, `sleep` and `cancel` are not modelled.
  - Each timer is a method callable in any state. That is more than the real program allows, because a cancelled timer never fires. A timer knows only its chat (`vote_timeout`, `spy_guess_timeout` and `game_timer` take a `chat_id` and look the game up when they fire), so it can act on a later game in the same chat; the model allows this too.
  - `game_timer` is created at code.py:264, after the role messages are awaited. A game that ends during those awaits cannot cancel it (code.py:652), so that timer can later end another game in the same chat.
  - The `await` between the existence checks and the lobby creation in `cmd_spyfall` (code.py:85) is a race a sequential model cannot show.
  - Every handler is one atomic step, but several await Telegram in the middle of a state change. The model does not capture these windows:
    - `lobby_countdown` (code.py:124-131) and `start_game_from_lobby` (code.py:185-190) await inside the loop over the lobby's players, before `del lobbies[chat_id]`. A `/join` or `/leave` in that window changes the dictionary during iteration. Python then raises `RuntimeError`, which is not caught, and the lobby is never deleted. `LobbyCountdown` always deletes it.
    - `finalize_vote` raises `mistakes` (code.py:539) and awaits a message (code.py:540) before calling `end_game`. `end_game` awaits its message (code.py:648) before `del games[chat_id]` (code.py:664). Other handlers can therefore see a game with two mistakes. The invariant `mistakes < MaxMistakes` holds only between the model's steps.
    - `handle_vote_yes` takes `count` (code.py:473) before awaiting the message edit (code.py:475) and tests it afterwards, so presses in between are not reflected in that test.
- The `task`, `lobby_task`, `timer_task`, `spy_guess_task`, `end_task`, `message_id`, `started_at` (`time.time()`) and `active_vote` fields. Nothing in the core reads them except to cancel tasks.
- The `started` flags. A lobby's is always false and a game's always true, so each check on them reduces to membership.
- Vote initiator: recorded as in the source but never checked to be a player, as in the source.
- Exceptions: `finalize_vote` on a vote whose target is not a player of the current game raises `KeyError` on the name lookup after the vote was deleted. The model returns `Aborted` with the vote deleted and the game unchanged.
- Strings.LowerChar: covers ASCII and the basic Cyrillic block U+0400 to U+042F, which hold the catalogue and usernames. Other scripts' case mappings are not modelled.
- Strings.ParseInt: does not accept underscores between digits or non-ASCII digits, both of which Python's `int()` accepts.
- Logging, `main` and the handler registration.
