/**
 * Whole games played through the handlers of `Spyfall.Bot`, from an empty bot.
 * Each method fixes the random draws and the button presses and states
 * how the game ends.
 */
module Scenarios {
  import opened Options
  import opened Strings
  import opened Rosters
  import opened Games
  import opened Spyfall

  const Chat: ChatId := 100

  /** Opens a lobby in `Chat` and registers users 1 to 4; user 4 has the username `spy_4`. */
  method FillLobby(b: Bot)
    requires b.Valid() && Chat !in b.games && Chat !in b.lobbies
    modifies b
    ensures b.Valid() && Chat in b.lobbies && b.lobbies[Chat].players.ids == [1, 2, 3, 4]
    ensures b.games == old(b.games) && b.gameChats == old(b.gameChats) && b.activeVotes == old(b.activeVotes)
  {
    var r := b.OpenLobby(Chat, 1, true);
    assert b.lobbies[Chat] == Lobby(EmptyRoster, 1);
    JoinOne(b, 1, None, "Аня", []);
    assert [] + [1] == [1];
    JoinOne(b, 2, None, "Борис", [1]);
    assert [1] + [2] == [1, 2];
    JoinOne(b, 3, None, "Вера", [1, 2]);
    assert [1, 2] + [3] == [1, 2, 3];
    JoinOne(b, 4, Some("spy_4"), "Глеб", [1, 2, 3]);
    assert [1, 2, 3] + [4] == [1, 2, 3, 4];
  }

  /** `/join name` by `user`, a new player, in the lobby of `Chat` whose roster so far is `before`. */
  method JoinOne(b: Bot, user: UserId, username: Option<string>, name: string, before: seq<UserId>)
    requires b.Valid() && Chat in b.lobbies && b.lobbies[Chat].players.ids == before && user !in before
    requires |name| > 0 && !IsSpace(name[0])
    modifies b
    ensures b.Valid() && Chat in b.lobbies && b.lobbies[Chat].players.ids == before + [user]
    ensures b.games == old(b.games) && b.gameChats == old(b.gameChats) && b.activeVotes == old(b.activeVotes)
  {
    assert Strings.Join(" ", [name]) == name;
    assert !AllSpace(name);
    b.lobbies[Chat].players.KeysAreIds();
    var r := b.Join(Chat, user, username, [name]);
  }

  /** The draw used below: the airport, user 4 as the spy, the lobby's order, user 1 asking first. */
  const FixedDraw: Draw := Draw(Locations[0], 4, [1, 2, 3, 4], 0)

  /** The lobby deadline passes with four players: the game drawn by `FixedDraw` starts. */
  method StartFixedGame(b: Bot)
    requires b.Valid() && Chat in b.lobbies && b.lobbies[Chat].players.ids == [1, 2, 3, 4]
    requires b.games == map[] && b.gameChats == []
    modifies b
    ensures b.Valid() && b.games.Keys == {Chat} && b.gameChats == [Chat] && b.activeVotes == old(b.activeVotes)
    ensures b.games[Chat].players.ids == [1, 2, 3, 4] && b.games[Chat].spyId == 4
    ensures b.games[Chat].location == Locations[0] && b.games[Chat].Current() == 1
    ensures b.games[Chat].mistakes == 0 && !b.games[Chat].spyExposed
  {
    var players := b.lobbies[Chat].players;
    FixedDrawFits(players);
    var s := b.LobbyCountdown(Chat, FixedDraw);
    assert b.games == map[Chat := NewGame(players, FixedDraw)];
  }

  lemma FixedDrawFits(players: Roster)
    requires players.ids == [1, 2, 3, 4]
    ensures DrawFits(players, FixedDraw) && players.Size() >= MinPlayers
  {
    assert Locations[0] in Locations;
  }

  /** The game in `Chat` as `StartFixedGame` leaves it, up to the spy's exposure. */
  predicate FixedGameOn(b: Bot)
    reads b
  {
    && b.games.Keys == {Chat} && b.gameChats == [Chat]
    && b.games[Chat].players.ids == [1, 2, 3, 4] && b.games[Chat].spyId == 4
  }

  /** User 1 opens an accusation of user 4 by replying to one of their messages. */
  method AccuseFour(b: Bot)
    requires b.Valid() && FixedGameOn(b) && b.activeVotes == map[]
    modifies b
    ensures b.Valid() && b.games == old(b.games) && b.gameChats == old(b.gameChats)
    ensures b.activeVotes == map[Chat := Vote(4, 1, {})]
  {
    b.games[Chat].players.KeysAreIds();
    var s := b.StartVote(Chat, 1, Some(4), []);
  }

  /** A ballot by `user`, a player, that leaves the accusation of user 4 short of a majority. */
  method BallotShort(b: Bot, user: UserId, before: set<UserId>)
    requires b.Valid() && b.VoteOpenOn(Chat, 4) && b.activeVotes == map[Chat := Vote(4, 1, before)]
    requires user in b.games[Chat].players.info && !b.BallotDecides(Chat, user)
    modifies b
    ensures b.Valid() && b.games == old(b.games) && b.gameChats == old(b.gameChats)
    ensures b.activeVotes == map[Chat := Vote(4, 1, before + {user})]
  {
    var s := b.VoteYes(Chat, user, 4);
  }

  /**
   * A second "for" press by a player already among the ballots of a vote
   * short of a majority: the reply repeats the count and nothing changes.
   */
  method RepeatPress(b: Bot, chat: ChatId, user: UserId, target: UserId) returns (r: Reply)
    requires b.Valid() && b.VoteOpenOn(chat, target)
    requires user in b.games[chat].players.info && user in b.activeVotes[chat].ballots
    requires !Resolves(|b.activeVotes[chat].ballots|, b.games[chat].players.Size())
    modifies b
    ensures r == BallotCounted(old(|b.activeVotes[chat].ballots|), old(b.games[chat].players.Size()))
    ensures b.activeVotes == old(b.activeVotes) && b.games == old(b.games)
    ensures b.lobbies == old(b.lobbies) && b.gameChats == old(b.gameChats)
  {
    ghost var votes := b.activeVotes;
    assert votes[chat].ballots + {user} == votes[chat].ballots;
    assert !b.BallotDecides(chat, user);
    r := b.VoteYes(chat, user, target);
    assert votes[chat := votes[chat].(ballots := votes[chat].ballots + {user})] == votes;
  }

  /** The ballot of user 3 after users 1 and 2: three of four is a majority, and user 4 is the spy. */
  method BallotExposes(b: Bot)
    requires b.Valid() && FixedGameOn(b) && b.activeVotes == map[Chat := Vote(4, 1, {1, 2})]
    modifies b
    ensures b.Valid() && b.gameChats == old(b.gameChats) && b.activeVotes == map[]
    ensures b.games == old(b.games)[Chat := old(b.games[Chat]).(spyExposed := true)]
  {
    b.games[Chat].players.KeysAreIds();
    assert {1, 2} + {3} == {1, 2, 3};
    assert |{1, 2, 3}| == 3;
    var s := b.VoteYes(Chat, 3, 4);
    assert s == SpyExposed;
  }

  /** Users 1, 2 and 3 press "for" on the accusation of user 4, the spy: the third ballot exposes the spy. */
  method ExposeSpy(b: Bot)
    requires b.Valid() && FixedGameOn(b) && b.activeVotes == map[]
    modifies b
    ensures b.Valid() && b.gameChats == old(b.gameChats) && b.activeVotes == map[]
    ensures b.games == old(b.games)[Chat := old(b.games[Chat]).(spyExposed := true)]
  {
    AccuseFour(b);
    b.games[Chat].players.KeysAreIds();
    assert b.games[Chat].players.Size() == 4;
    assert {} + {1} == {1} && |{1}| == 1;
    assert !b.BallotDecides(Chat, 1);
    BallotShort(b, 1, {});
    assert {1} + {2} == {1, 2} && |{1, 2}| == 2;
    assert !b.BallotDecides(Chat, 2);
    BallotShort(b, 2, {1});
    BallotExposes(b);
  }

  /**
   * Three of four players accuse the spy, who is exposed, and then names the
   * location in capitals: the spy wins and the game is gone.
   */
  method SpyExposedThenGuesses() returns (r: Reply)
    ensures r == Ended(Spy, SpyNamedLocation)
  {
    var b := new Bot();
    FillLobby(b);
    StartFixedGame(b);
    assert FixedGameOn(b);
    ExposeSpy(b);
    b.games[Chat].players.KeysAreIds();
    AirportGuess();
    r := b.Guess(4, ["АЭРОПОРТ"]);
  }

  /** The match timer fires on the fixed game: the residents win and no game is left. */
  method TimeRunsOut(b: Bot) returns (r: Reply)
    requires b.Valid() && FixedGameOn(b)
    modifies b
    ensures b.Valid() && b.games == map[] && b.gameChats == [] && b.activeVotes == old(b.activeVotes)
    ensures b.lobbies == old(b.lobbies)
    ensures r == Ended(Residents, TimeUp)
  {
    r := b.GameTimer(Chat);
    assert Without([Chat], Chat) == [];
  }

  /** A later game in `Chat` while an old accusation is still recorded: `/vote` is refused. */
  method AccuseDuringOpenVote(b: Bot) returns (r: Reply)
    requires b.Valid() && FixedGameOn(b) && Chat in b.activeVotes
    modifies b
    ensures r == VoteAlreadyActive
  {
    b.games[Chat].players.KeysAreIds();
    r := b.StartVote(Chat, 2, Some(3), []);
  }

  /**
   * An accusation is still open when the match timer ends the game. The vote
   * outlives the game, so in the next game in the same chat `/vote` is refused.
   */
  method VoteOutlivesGame() returns (ending: Reply, next: Reply)
    ensures ending == Ended(Residents, TimeUp)
    ensures next == VoteAlreadyActive
  {
    var b := new Bot();
    FillLobby(b);
    StartFixedGame(b);
    assert FixedGameOn(b);
    AccuseFour(b);
    ending := TimeRunsOut(b);
    FillLobby(b);
    StartFixedGame(b);
    assert FixedGameOn(b);
    next := AccuseDuringOpenVote(b);
  }
}
