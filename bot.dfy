/**
 * The bot's per-chat state machine: the three dictionaries `lobbies`,
 * `games` and `active_votes`, and the command and button handlers and timer
 * callbacks that change them. Telegram messages are left out; each handler
 * returns a `Reply` naming the branch it took.
 */
module Spyfall {
  import opened Options
  import opened Strings
  import opened Rosters
  import opened Games

  datatype Winner = Spy | Residents

  /** The `reason` an ended game is announced with. */
  datatype Reason = TwoWrongAccusations | SpyNamedLocation | SpyMissedLocation | GuessWindowExpired | TimeUp

  /** The branch a handler took; the bot answers each with its own message. */
  datatype Reply =
    // /spyfall
    | GameInProgress | LobbyExists | PmBlocked | LobbyOpened
    // /join and /leave
    | NoLobby | NameMissing | NameBlank | AlreadyJoined | Joined(size: nat) | LeftLobby | NotInLobby
    // the lobby deadline
    | NotEnoughPlayers | GameStarted
    // the "ask" and "next" buttons
    | NoGame | NotYourTurn | NotAPlayer | Asked(target: UserId) | NotAsked | NotInQueue | TurnPassed(index: nat)
    // /vote, the "for" button, the vote timer and the cancel button
    | TargetUnresolved | VoteAlreadyActive | VoteStarted(target: UserId)
    | NoActiveVote | StaleTarget | NotAParticipant | BallotCounted(count: nat, total: nat)
    | SpyExposed | WrongAccusation(mistakes: nat) | Aborted | VoteExpired | VoteCancelled
    // /guess
    | NotInAnyGame | NotTheSpy | GuessMissing
    // end_game
    | Ended(winner: Winner, reason: Reason)
    // a timer that finds nothing left to act on
    | Ignored

  /**
   * The branch `finalize_vote` takes on an accusation of `target` that reached
   * a majority in game `g`. A target that is not a player of `g` (a vote left
   * over from an earlier game) makes the name lookup raise: the handler stops.
   */
  function Resolution(g: Game, target: UserId): (r: Reply)
    ensures r == Aborted <==> target !in g.players.info
    ensures r == SpyExposed <==> target in g.players.info && target == g.spyId
    ensures r.Aborted? || r.SpyExposed? || r.WrongAccusation? || r == Ended(Spy, TwoWrongAccusations)
    ensures r.WrongAccusation? ==> r.mistakes == g.mistakes + 1 && r.mistakes < MaxMistakes
    ensures r.Ended? ==> g.mistakes + 1 >= MaxMistakes
  {
    if target !in g.players.info then Aborted
    else if target == g.spyId then SpyExposed
    else if g.mistakes + 1 >= MaxMistakes then Ended(Spy, TwoWrongAccusations)
    else WrongAccusation(g.mistakes + 1)
  }

  /**
   * What a resolved accusation leaves in `games`: the game is deleted iff the
   * outcome ends it, the other chats' games are untouched, and a game that
   * stays keeps its players, location, spy, order and turn.
   */
  function GamesAfter(games: map<ChatId, Game>, chat: ChatId, r: Reply): (m: map<ChatId, Game>)
    requires chat in games
    ensures chat in m <==> !r.Ended?
    ensures forall c :: c != chat ==> (c in m <==> c in games)
    ensures forall c :: c in m && c != chat ==> m[c] == games[c]
    ensures r.SpyExposed? ==> m[chat].spyExposed && m[chat].mistakes == games[chat].mistakes
    ensures r.WrongAccusation? ==> m[chat].mistakes == r.mistakes && m[chat].spyExposed == games[chat].spyExposed
    ensures chat in m ==> var g, h := games[chat], m[chat];
      && h.players == g.players && h.location == g.location && h.spyId == g.spyId
      && h.order == g.order && h.currentIndex == g.currentIndex
  {
    if r.SpyExposed? then games[chat := games[chat].(spyExposed := true)]
    else if r.WrongAccusation? then games[chat := games[chat].(mistakes := r.mistakes)]
    else if r.Ended? then games - {chat}
    else games
  }

  /** An accusation of the spy exposes the spy; any other player's costs a mistake, and the second one ends the game. */
  lemma ResolutionSpec(g: Game, target: UserId)
    requires g.Valid() && target in g.players.info
    ensures Resolution(g, target) == SpyExposed <==> target == g.spyId
    ensures target != g.spyId && g.mistakes == 0 ==> Resolution(g, target) == WrongAccusation(1)
    ensures target != g.spyId && g.mistakes == 1 ==> Resolution(g, target) == Ended(Spy, TwoWrongAccusations)
    ensures target != g.spyId && g.mistakes == 0 ==> g.(mistakes := 1).Valid()
  {
  }

  /** The first chat, in the order games were created, whose game has `user` among its players. */
  function FirstGameOf(chats: seq<ChatId>, games: map<ChatId, Game>, user: UserId): (r: Option<ChatId>)
    requires forall i :: 0 <= i < |chats| ==> chats[i] in games
    ensures r.Some? ==> r.value in games && user in games[r.value].players.info
    ensures r.None? <==> forall i :: 0 <= i < |chats| ==> user !in games[chats[i]].players.info
    ensures forall i :: 0 <= i < |chats| && user in games[chats[i]].players.info ==>
      (forall j :: 0 <= j < i ==> user !in games[chats[j]].players.info) ==> r == Some(chats[i])
  {
    if chats == [] then None
    else if user in games[chats[0]].players.info then Some(chats[0])
    else
      var r := FirstGameOf(chats[1..], games, user);
      assert forall i :: 1 <= i < |chats| ==> chats[i] == chats[1..][i - 1];
      r
  }

  /**
   * No chat holds both a lobby and a game, every lobby's roster is well
   * formed, every game satisfies `Game.Valid`, and `chats` lists the keys of
   * `games` once each.
   */
  ghost predicate Consistent(lobbies: map<ChatId, Lobby>, games: map<ChatId, Game>, chats: seq<ChatId>) {
    && Distinct(chats)
    && (forall c :: c in games ==> c in chats)
    && (forall i :: 0 <= i < |chats| ==> chats[i] in games)
    && (forall c :: c in lobbies ==> c !in games && lobbies[c].players.Valid())
    && (forall c :: c in games ==> games[c].Valid())
  }

  /** Replacing a game by a valid one keeps the state consistent. */
  lemma ReplaceGame(lobbies: map<ChatId, Lobby>, games: map<ChatId, Game>, chats: seq<ChatId>, chat: ChatId, g: Game)
    requires Consistent(lobbies, games, chats) && chat in games && g.Valid()
    ensures Consistent(lobbies, games[chat := g], chats)
  {
  }

  /** Opening or updating a lobby with a well-formed roster in a chat without a game keeps the state consistent. */
  lemma PutLobby(lobbies: map<ChatId, Lobby>, games: map<ChatId, Game>, chats: seq<ChatId>, chat: ChatId, l: Lobby)
    requires Consistent(lobbies, games, chats) && chat !in games && l.players.Valid()
    ensures Consistent(lobbies[chat := l], games, chats)
  {
  }

  /** Deleting a lobby keeps the state consistent. */
  lemma DropLobby(lobbies: map<ChatId, Lobby>, games: map<ChatId, Game>, chats: seq<ChatId>, chat: ChatId)
    requires Consistent(lobbies, games, chats)
    ensures Consistent(lobbies - {chat}, games, chats)
  {
  }

  /** Turning a lobby into a valid game, appended to the creation order, keeps the state consistent. */
  lemma PromoteLobby(lobbies: map<ChatId, Lobby>, games: map<ChatId, Game>, chats: seq<ChatId>, chat: ChatId, g: Game)
    requires Consistent(lobbies, games, chats) && chat in lobbies && g.Valid()
    ensures Consistent(lobbies - {chat}, games[chat := g], chats + [chat])
  {
    assert chat !in chats;
    var chats' := chats + [chat];
    assert forall i :: 0 <= i < |chats| ==> chats'[i] == chats[i];
  }

  /** Deleting a game, and its chat from the creation order, keeps the state consistent. */
  lemma DropGame(lobbies: map<ChatId, Lobby>, games: map<ChatId, Game>, chats: seq<ChatId>, chat: ChatId)
    requires Consistent(lobbies, games, chats)
    ensures Consistent(lobbies, games - {chat}, Without(chats, chat))
  {
    var rest := Without(chats, chat);
    assert forall i :: 0 <= i < |rest| ==> rest[i] in rest;
    assert forall i :: 0 <= i < |chats| ==> chats[i] in chats;
  }

  class Bot {
    /** `lobbies`: chats that are gathering players. */
    var lobbies: map<ChatId, Lobby>
    /** `games`: chats with a game under way. */
    var games: map<ChatId, Game>
    /** The keys of `games` in insertion order, the order in which `/guess` looks through them. */
    var gameChats: seq<ChatId>
    /** `active_votes`: chats with an accusation open. */
    var activeVotes: map<ChatId, Vote>

    /**
     * No chat holds both a lobby and a game, every lobby's roster is
     * well formed and every game satisfies `Game.Valid`.
     */
    ghost predicate Valid()
      reads this
    {
      Consistent(lobbies, games, gameChats)
    }

    constructor ()
      ensures Valid()
      ensures lobbies == map[] && games == map[] && gameChats == [] && activeVotes == map[]
    {
      lobbies, games, gameChats, activeVotes := map[], map[], [], map[];
    }

    /**
     * `/spyfall`: refused in a chat with a game or a lobby, and when the bot
     * cannot send the caller a private message (`pmOk` is that test); otherwise
     * opens an empty lobby.
     */
    method OpenLobby(chat: ChatId, user: UserId, pmOk: bool) returns (r: Reply)
      requires Valid()
      modifies this
      ensures Valid()
      ensures r == (if old(chat in games) then GameInProgress
                    else if old(chat in lobbies) then LobbyExists
                    else if !pmOk then PmBlocked
                    else LobbyOpened)
      ensures lobbies == if r == LobbyOpened then old(lobbies)[chat := Lobby(EmptyRoster, user)] else old(lobbies)
      ensures games == old(games) && gameChats == old(gameChats) && activeVotes == old(activeVotes)
    {
      if chat in games {
        return GameInProgress;
      }
      if chat in lobbies {
        return LobbyExists;
      }
      if !pmOk {
        return PmBlocked;
      }
      PutLobby(lobbies, games, gameChats, chat, Lobby(EmptyRoster, user));
      lobbies := lobbies[chat := Lobby(EmptyRoster, user)];
      return LobbyOpened;
    }

    /**
     * `/join <name>`: refused without a lobby, without arguments, when the
     * name is blank after trimming, or when the user is already registered;
     * otherwise adds exactly that user at the end of the roster.
     */
    method Join(chat: ChatId, user: UserId, username: Option<string>, args: seq<string>) returns (r: Reply)
      requires Valid()
      modifies this
      ensures Valid()
      ensures r == if old(chat !in lobbies) then NoLobby
                   else if args == [] then NameMissing
                   else if JoinedName(args) == [] then NameBlank
                   else if user in old(lobbies[chat].players.info) then AlreadyJoined
                   else Joined(old(lobbies[chat].players.Size()) + 1)
      ensures r.Joined? ==> lobbies == old(lobbies)[chat := old(lobbies[chat]).(players :=
        old(lobbies[chat].players).Add(user, Player(JoinedName(args), username)))]
      ensures !r.Joined? ==> lobbies == old(lobbies)
      ensures games == old(games) && gameChats == old(gameChats) && activeVotes == old(activeVotes)
    {
      if chat !in lobbies {
        return NoLobby;
      }
      if args == [] {
        return NameMissing;
      }
      var name := JoinedName(args);
      if name == [] {
        return NameBlank;
      }
      var lobby := lobbies[chat];
      if user in lobby.players.info {
        return AlreadyJoined;
      }
      var players := lobby.players.Add(user, Player(name, username));
      PutLobby(lobbies, games, gameChats, chat, lobby.(players := players));
      lobbies := lobbies[chat := lobby.(players := players)];
      return Joined(players.Size());
    }

    /** `/leave`: removes a registered user from the lobby; anything else changes nothing. */
    method Leave(chat: ChatId, user: UserId) returns (r: Reply)
      requires Valid()
      modifies this
      ensures Valid()
      ensures r == if old(chat in lobbies && user in lobbies[chat].players.info) then LeftLobby else NotInLobby
      ensures lobbies == if r == LeftLobby
        then old(lobbies)[chat := old(lobbies[chat]).(players := old(lobbies[chat].players).Remove(user))]
        else old(lobbies)
      ensures games == old(games) && gameChats == old(gameChats) && activeVotes == old(activeVotes)
    {
      if chat in lobbies && user in lobbies[chat].players.info {
        var lobby := lobbies[chat];
        PutLobby(lobbies, games, gameChats, chat, lobby.(players := lobby.players.Remove(user)));
        lobbies := lobbies[chat := lobby.(players := lobby.players.Remove(user))];
        return LeftLobby;
      }
      return NotInLobby;
    }

    /**
     * `start_game_from_lobby`: with fewer than `MinPlayers` the lobby is
     * dropped and no game made; otherwise the game built from the roster and
     * the draw replaces the lobby in one step.
     */
    method StartGameFromLobby(chat: ChatId, d: Draw) returns (r: Reply)
      requires Valid()
      requires chat in lobbies && lobbies[chat].players.Size() >= MinPlayers ==> DrawFits(lobbies[chat].players, d)
      modifies this
      ensures Valid()
      ensures old(chat !in lobbies) ==> r == Ignored && unchanged(this)
      ensures old(chat in lobbies && lobbies[chat].players.Size() < MinPlayers) ==>
        && r == NotEnoughPlayers && lobbies == old(lobbies) - {chat}
        && games == old(games) && gameChats == old(gameChats)
      ensures old(chat in lobbies && lobbies[chat].players.Size() >= MinPlayers) ==>
        && r == GameStarted && lobbies == old(lobbies) - {chat}
        && games == old(games[chat := NewGame(lobbies[chat].players, d)])
        && gameChats == old(gameChats) + [chat]
      ensures activeVotes == old(activeVotes)
    {
      if chat !in lobbies {
        return Ignored;
      }
      var players := lobbies[chat].players;
      if players.Size() < MinPlayers {
        DropLobby(lobbies, games, gameChats, chat);
        lobbies := lobbies - {chat};
        return NotEnoughPlayers;
      }
      Promote(chat, d);
      return GameStarted;
    }

    /** The lobby of `chat` becomes the game `d` draws from its roster. */
    method Promote(chat: ChatId, d: Draw)
      requires Valid() && chat in lobbies && DrawFits(lobbies[chat].players, d)
      modifies this
      ensures Valid()
      ensures lobbies == old(lobbies) - {chat}
      ensures games == old(games)[chat := NewGame(old(lobbies[chat].players), d)]
      ensures gameChats == old(gameChats) + [chat]
      ensures activeVotes == old(activeVotes)
    {
      var g := NewGame(lobbies[chat].players, d);
      PromoteLobby(lobbies, games, gameChats, chat, g);
      games := games[chat := g];
      gameChats := gameChats + [chat];
      lobbies := lobbies - {chat};
    }

    /** `lobby_countdown`, the lobby deadline: acts only on a lobby that still exists. */
    method LobbyCountdown(chat: ChatId, d: Draw) returns (r: Reply)
      requires Valid()
      requires chat in lobbies && lobbies[chat].players.Size() >= MinPlayers ==> DrawFits(lobbies[chat].players, d)
      modifies this
      ensures Valid()
      ensures r == if old(chat !in lobbies) then Ignored
                   else if old(lobbies[chat].players.Size()) < MinPlayers then NotEnoughPlayers
                   else GameStarted
      ensures lobbies == if r == Ignored then old(lobbies) else old(lobbies) - {chat}
      ensures games == if r == GameStarted then old(games)[chat := NewGame(old(lobbies[chat].players), d)] else old(games)
      ensures gameChats == if r == GameStarted then old(gameChats) + [chat] else old(gameChats)
      ensures activeVotes == old(activeVotes)
    {
      if chat !in lobbies {
        return Ignored;
      }
      if lobbies[chat].players.Size() < MinPlayers {
        DropLobby(lobbies, games, gameChats, chat);
        lobbies := lobbies - {chat};
        return NotEnoughPlayers;
      }
      r := StartGameFromLobby(chat, d);
    }

    /** `build_ask_keyboard`: the players in turn order other than the one whose turn it is. */
    method BuildAskKeyboard(chat: ChatId) returns (targets: seq<UserId>)
      requires Valid()
      ensures chat !in games ==> targets == []
      ensures chat in games ==> targets == AskTargets(games[chat])
    {
      if chat !in games {
        return [];
      }
      var g := games[chat];
      targets := SkipPlayer(g.order, g.order[g.currentIndex]);
    }

    /**
     * The "ask" button: only the player whose turn it is may press it, and
     * only about a player of the game. It changes no state.
     */
    method Ask(chat: ChatId, user: UserId, target: UserId) returns (r: Reply)
      requires Valid()
      ensures r.Asked? <==> chat in games && user == games[chat].Current() && target in games[chat].players.info
      ensures r.Asked? ==> r.target == target
      ensures chat !in games ==> r == NoGame
      ensures chat in games && user != games[chat].Current() ==> r == NotYourTurn
      ensures chat in games && user == games[chat].Current() && target !in games[chat].players.info ==> r == NotAPlayer
    {
      if chat !in games {
        return NoGame;
      }
      var g := games[chat];
      if user != g.order[g.currentIndex] {
        return NotYourTurn;
      }
      if target !in g.players.info {
        return NotAPlayer;
      }
      return Asked(target);
    }

    /**
     * The "next" button: only the asked player may press it; the turn moves to
     * that player's place in the order, which itself does not change.
     */
    method Pass(chat: ChatId, user: UserId, target: UserId) returns (r: Reply)
      requires Valid()
      modifies this
      ensures Valid()
      ensures r == if old(chat !in games) then NoGame
                   else if user != target then NotAsked
                   else if target !in old(games[chat].order) then NotInQueue
                   else TurnPassed(IndexOf(old(games[chat].order), target))
      ensures r.TurnPassed? ==>
        && games == old(games)[chat := old(games[chat]).(currentIndex := r.index)]
        && games[chat].Current() == target
        && games[chat].order == old(games[chat].order)
      ensures !r.TurnPassed? ==> games == old(games)
      ensures lobbies == old(lobbies) && gameChats == old(gameChats) && activeVotes == old(activeVotes)
    {
      if chat !in games {
        return NoGame;
      }
      if user != target {
        return NotAsked;
      }
      var g := games[chat];
      if target !in g.order {
        return NotInQueue;
      }
      var index := IndexOf(g.order, target);
      SetGame(chat, g.(currentIndex := index));
      return TurnPassed(index);
    }

    /**
     * `/vote`: the target is the author of the replied-to message, the first
     * player with a matching `@username`, or a player's numeric id; a target
     * that is not a player, or a vote already open in the chat, is refused.
     */
    method StartVote(chat: ChatId, user: UserId, replyTo: Option<UserId>, args: seq<string>) returns (r: Reply)
      requires Valid()
      modifies this
      ensures Valid()
      ensures old(chat !in games) ==> r == NoGame
      ensures old(chat in games) ==>
        var t := ResolveTarget(old(games[chat].players), replyTo, args);
        r == if !TargetAccepted(old(games[chat].players), t) then TargetUnresolved
             else if old(chat in activeVotes) then VoteAlreadyActive
             else VoteStarted(t.value)
      ensures activeVotes == if r.VoteStarted? then old(activeVotes)[chat := Vote(r.target, user, {})] else old(activeVotes)
      ensures lobbies == old(lobbies) && games == old(games) && gameChats == old(gameChats)
    {
      if chat !in games {
        return NoGame;
      }
      var g := games[chat];
      var target := FindVoteTarget(g.players, replyTo, args);
      if target.None? || target.value !in g.players.info {
        return TargetUnresolved;
      }
      if chat in activeVotes {
        return VoteAlreadyActive;
      }
      activeVotes := activeVotes[chat := Vote(target.value, user, {})];
      return VoteStarted(target.value);
    }

    /**
     * `finalize_vote`: removes the vote, then exposes the spy or counts a
     * mistake; the second mistake ends the game with the spy winning. The turn
     * order and index stay as they were.
     */
    method FinalizeVote(chat: ChatId, target: UserId) returns (r: Reply)
      requires Valid()
      modifies this
      ensures Valid()
      ensures old(chat !in activeVotes || chat !in games) ==> r == Ignored && unchanged(this)
      ensures old(chat in activeVotes && chat in games) ==>
        && r == Resolution(old(games[chat]), target)
        && activeVotes == old(activeVotes) - {chat}
        && games == GamesAfter(old(games), chat, r)
        && gameChats == if r.Ended? then Without(old(gameChats), chat) else old(gameChats)
      ensures lobbies == old(lobbies)
    {
      if chat !in activeVotes || chat !in games {
        return Ignored;
      }
      activeVotes := activeVotes - {chat};
      r := ApplyVerdict(chat, target);
    }

    /** The verdict on `target` applied to the game in `chat`: exposure, a mistake, or the end of the game. */
    method ApplyVerdict(chat: ChatId, target: UserId) returns (r: Reply)
      requires Valid() && chat in games
      modifies this
      ensures Valid()
      ensures r == Resolution(old(games[chat]), target)
      ensures games == GamesAfter(old(games), chat, r)
      ensures gameChats == if r.Ended? then Without(old(gameChats), chat) else old(gameChats)
      ensures lobbies == old(lobbies) && activeVotes == old(activeVotes)
    {
      var g := games[chat];
      if target !in g.players.info {
        return Aborted;
      }
      if target == g.spyId {
        SetGame(chat, g.(spyExposed := true));
        return SpyExposed;
      }
      var mistakes := g.mistakes + 1;
      if mistakes >= MaxMistakes {
        r := EndGame(chat, Spy, TwoWrongAccusations);
        return;
      }
      SetGame(chat, g.(mistakes := mistakes));
      return WrongAccusation(mistakes);
    }

    /** `games[chat]` replaced by `g`, a valid game; nothing else changes. */
    method SetGame(chat: ChatId, g: Game)
      requires Valid() && chat in games && g.Valid()
      modifies this
      ensures Valid()
      ensures games == old(games)[chat := g]
      ensures gameChats == old(gameChats) && lobbies == old(lobbies) && activeVotes == old(activeVotes)
    {
      ReplaceGame(lobbies, games, gameChats, chat, g);
      games := games[chat := g];
    }

    /** A vote on `target` is open in `chat`, whose game still exists. */
    ghost predicate VoteOpenOn(chat: ChatId, target: UserId)
      reads this
    {
      chat in activeVotes && chat in games && activeVotes[chat].target == target
    }

    /** A "for" press by `user` would bring the ballots in `chat` to a strict majority of the players. */
    ghost predicate BallotDecides(chat: ChatId, user: UserId)
      requires chat in activeVotes && chat in games
      reads this
    {
      Resolves(|activeVotes[chat].ballots + {user}|, games[chat].players.Size())
    }

    /**
     * The "for" button: refused without a vote and a game, for a stale target
     * or for a non-player; otherwise adds the ballot (a set, so pressing twice
     * counts once) and resolves the vote once ballots are a strict majority.
     */
    method VoteYes(chat: ChatId, user: UserId, target: UserId) returns (r: Reply)
      requires Valid()
      modifies this
      ensures Valid()
      ensures old(chat !in activeVotes || chat !in games) ==> r == NoActiveVote && unchanged(this)
      ensures old(chat in activeVotes && chat in games && activeVotes[chat].target != target) ==>
        r == StaleTarget && unchanged(this)
      ensures old(VoteOpenOn(chat, target) && user !in games[chat].players.info) ==>
        r == NotAParticipant && unchanged(this)
      ensures old(VoteOpenOn(chat, target) && user in games[chat].players.info && !BallotDecides(chat, user)) ==>
        && r == BallotCounted(old(|activeVotes[chat].ballots + {user}|), old(games[chat].players.Size()))
        && activeVotes == old(activeVotes[chat := activeVotes[chat].(ballots := activeVotes[chat].ballots + {user})])
        && games == old(games) && gameChats == old(gameChats)
      ensures old(VoteOpenOn(chat, target) && user in games[chat].players.info && BallotDecides(chat, user)) ==>
        && r == Resolution(old(games[chat]), target)
        && activeVotes == old(activeVotes) - {chat}
        && games == GamesAfter(old(games), chat, r)
        && gameChats == (if r.Ended? then Without(old(gameChats), chat) else old(gameChats))
      ensures lobbies == old(lobbies)
    {
      if chat !in activeVotes || chat !in games {
        return NoActiveVote;
      }
      var vote := activeVotes[chat];
      var g := games[chat];
      if vote.target != target {
        return StaleTarget;
      }
      if user !in g.players.info {
        return NotAParticipant;
      }
      var ballots := vote.ballots + {user};
      activeVotes := activeVotes[chat := vote.(ballots := ballots)];
      var count, total := |ballots|, g.players.Size();
      if Resolves(count, total) {
        r := FinalizeVote(chat, target);
      } else {
        r := BallotCounted(count, total);
      }
    }

    /** `vote_timeout`: drops the vote if its game still exists; never charges a mistake. */
    method VoteTimeout(chat: ChatId) returns (r: Reply)
      requires Valid()
      modifies this
      ensures Valid()
      ensures r == if old(chat in activeVotes && chat in games) then VoteExpired else Ignored
      ensures activeVotes == if r == VoteExpired then old(activeVotes) - {chat} else old(activeVotes)
      ensures lobbies == old(lobbies) && games == old(games) && gameChats == old(gameChats)
    {
      if chat !in activeVotes || chat !in games {
        return Ignored;
      }
      activeVotes := activeVotes - {chat};
      return VoteExpired;
    }

    /** The cancel button: drops any vote in the chat, whoever presses it. */
    method CancelVote(chat: ChatId) returns (r: Reply)
      requires Valid()
      modifies this
      ensures Valid()
      ensures r == VoteCancelled
      ensures activeVotes == old(activeVotes) - {chat}
      ensures lobbies == old(lobbies) && games == old(games) && gameChats == old(gameChats)
    {
      if chat in activeVotes {
        activeVotes := activeVotes - {chat};
      }
      return VoteCancelled;
    }

    /** The loop of `/guess` that finds the user's game: the first game, in creation order, the user plays in. */
    method FindPlayerGame(user: UserId) returns (c: Option<ChatId>)
      requires Valid()
      // A conjunct of `Valid()`, repeated so that the next ensures may index `games` by the result.
      ensures forall i :: 0 <= i < |gameChats| ==> gameChats[i] in games
      ensures c == FirstGameOf(gameChats, games, user)
    {
      var i := 0;
      while i < |gameChats|
        invariant 0 <= i <= |gameChats|
        invariant forall j :: 0 <= j < i ==> user !in games[gameChats[j]].players.info
      {
        var cid := gameChats[i];
        if user in games[cid].players.info {
          return Some(cid);
        }
        i := i + 1;
      }
      return None;
    }

    /**
     * `/guess <location>`: only the spy of the user's game may guess, exposed
     * or not. The game ends either way: the spy wins iff the trimmed,
     * lower-cased guess equals the trimmed, lower-cased location.
     */
    method Guess(user: UserId, args: seq<string>) returns (r: Reply)
      requires Valid()
      modifies this
      ensures Valid()
      // A conjunct of `Valid()` in the old state, repeated so that the next ensures may call `FirstGameOf` there.
      ensures old(forall i :: 0 <= i < |gameChats| ==> gameChats[i] in games)
      ensures var c := old(FirstGameOf(gameChats, games, user));
        && r == (if c.None? then NotInAnyGame
                 else if user != old(games[c.value].spyId) then NotTheSpy
                 else if args == [] then GuessMissing
                 else if GuessMatches(args, old(games[c.value].location)) then Ended(Spy, SpyNamedLocation)
                 else Ended(Residents, SpyMissedLocation))
        && games == (if r.Ended? then old(games) - {c.value} else old(games))
        && gameChats == (if r.Ended? then Without(old(gameChats), c.value) else old(gameChats))
      ensures lobbies == old(lobbies) && activeVotes == old(activeVotes)
    {
      var c := FindPlayerGame(user);
      if c.None? {
        return NotInAnyGame;
      }
      var g := games[c.value];
      if user != g.spyId {
        return NotTheSpy;
      }
      if args == [] {
        return GuessMissing;
      }
      var guess := Normalise(Strings.Join(" ", args));
      var answer := Normalise(g.location);
      if guess == answer {
        r := EndGame(c.value, Spy, SpyNamedLocation);
      } else {
        r := EndGame(c.value, Residents, SpyMissedLocation);
      }
    }

    /** `spy_guess_timeout`: the residents win if the game still exists and its spy was exposed. */
    method SpyGuessTimeout(chat: ChatId) returns (r: Reply)
      requires Valid()
      modifies this
      ensures Valid()
      ensures r == if old(chat in games && games[chat].spyExposed) then Ended(Residents, GuessWindowExpired) else Ignored
      ensures games == if r.Ended? then old(games) - {chat} else old(games)
      ensures gameChats == if r.Ended? then Without(old(gameChats), chat) else old(gameChats)
      ensures lobbies == old(lobbies) && activeVotes == old(activeVotes)
    {
      if chat !in games {
        return Ignored;
      }
      if games[chat].spyExposed {
        r := EndGame(chat, Residents, GuessWindowExpired);
      } else {
        r := Ignored;
      }
    }

    /** `game_timer`: the residents win if the game still exists. */
    method GameTimer(chat: ChatId) returns (r: Reply)
      requires Valid()
      modifies this
      ensures Valid()
      ensures r == if old(chat in games) then Ended(Residents, TimeUp) else Ignored
      ensures games == old(games) - {chat}
      ensures gameChats == Without(old(gameChats), chat)
      ensures lobbies == old(lobbies) && activeVotes == old(activeVotes)
    {
      if chat !in games {
        return Ignored;
      }
      r := EndGame(chat, Residents, TimeUp);
    }

    /**
     * `end_game`: a no-op without a game; otherwise deletes only that game.
     * An open vote in the chat is left in `activeVotes`.
     */
    method EndGame(chat: ChatId, winner: Winner, reason: Reason) returns (r: Reply)
      requires Valid()
      modifies this
      ensures Valid()
      ensures r == if old(chat in games) then Ended(winner, reason) else Ignored
      ensures games == old(games) - {chat}
      ensures gameChats == Without(old(gameChats), chat)
      ensures lobbies == old(lobbies) && activeVotes == old(activeVotes)
    {
      if chat !in games {
        assert chat !in gameChats;
        return Ignored;
      }
      DropGame(lobbies, games, gameChats, chat);
      games := games - {chat};
      gameChats := Without(gameChats, chat);
      return Ended(winner, reason);
    }
  }
}
