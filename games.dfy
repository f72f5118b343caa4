/**
 * The records the bot keeps per chat (a lobby, a game, a vote) and the pure
 * rules its handlers apply to them: building a game from a lobby, who may be
 * asked next, how a `/vote` argument names its target, when a vote passes and
 * when a guess names the location.
 */
module Games {
  import opened Options
  import opened Strings
  import opened Rosters

  type ChatId = int

  /** `MIN_PLAYERS`: a lobby with fewer players at its deadline does not start. */
  const MinPlayers: nat := 4

  /** The number of wrong accusations at which the spy wins. */
  const MaxMistakes: nat := 2

  /** `LOCATIONS`: the twenty places a game can be set in. */
  const Locations: seq<string> := [
    "Аэропорт", "Кафе", "Пляж", "Театр", "Стадион", "Космическая станция",
    "Казино", "Подводная лодка", "Школа", "Церковь", "Поезд", "Зоопарк",
    "Больница", "Ресторан", "Кинотеатр", "Полицейский участок",
    "Парк", "Библиотека", "Отель", "Корпоративный офис"
  ]

  /** An entry of `lobbies`: the players registered so far and who opened it. */
  datatype Lobby = Lobby(players: Roster, createdBy: UserId)

  /** An entry of `games`. */
  datatype Game = Game(
    players: Roster,
    location: string,
    spyId: UserId,
    order: seq<UserId>,
    currentIndex: int,
    mistakes: nat,
    spyExposed: bool)
  {
    /**
     * What holds of every game while it is in `games`: the spy is a player,
     * the location is one of the catalogue, the turn order is a shuffle of the
     * players, the turn index points into it, and fewer than two accusations
     * have missed.
     */
    predicate Valid() {
      && players.Valid()
      && spyId in players.info
      && location in Locations
      && multiset(order) == multiset(players.ids)
      && 0 <= currentIndex < |order|
      && mistakes < MaxMistakes
    }

    /** `order[current_index]`: the player whose turn it is to ask. */
    function Current(): UserId
      requires Valid()
    {
      order[currentIndex]
    }
  }

  /** An entry of `active_votes`; `ballots` is the set of users who pressed "for". */
  datatype Vote = Vote(target: UserId, initiator: UserId, ballots: set<UserId>)

  /**
   * The random draws of `start_game_from_lobby`: `random.choice(LOCATIONS)`,
   * `random.choice(player_ids)`, `random.shuffle(order)` and
   * `random.randrange(len(order))`.
   */
  datatype Draw = Draw(location: string, spyId: UserId, order: seq<UserId>, startIndex: int)

  /** What Python's `random` module promises of those draws. */
  predicate DrawFits(players: Roster, d: Draw) {
    && d.location in Locations
    && d.spyId in players.ids
    && multiset(d.order) == multiset(players.ids)
    && 0 <= d.startIndex < |d.order|
  }

  /** Any roster with a player admits a draw, so the promise above can always be kept. */
  lemma SomeDrawFits(players: Roster)
    requires players.Valid() && players.Size() > 0
    ensures DrawFits(players, Draw(Locations[0], players.ids[0], players.ids, 0))
  {
  }

  /** The game `start_game_from_lobby` builds. */
  function NewGame(players: Roster, d: Draw): (g: Game)
    requires players.Valid() && DrawFits(players, d)
    ensures g.Valid()
    ensures g.players == players && g.spyId == d.spyId && g.location == d.location
    ensures g.order == d.order && g.Current() == d.order[d.startIndex]
    ensures g.mistakes == 0 && !g.spyExposed
  {
    Game(players, d.location, d.spyId, d.order, d.startIndex, 0, false)
  }

  /** The turn order holds every player exactly once. */
  lemma OrderHoldsEachPlayerOnce(g: Game)
    requires g.Valid()
    ensures Distinct(g.order) && |g.order| == g.players.Size()
    ensures forall u :: u in g.order <==> u in g.players.info
  {
    PermutationOfDistinct(g.order, g.players.ids);
    g.players.KeysAreIds();
  }

  /** The players offered by the "whom to ask" keyboard: the order without the current player. */
  function AskTargets(g: Game): (r: seq<UserId>)
    requires g.Valid()
    ensures forall u :: u in r <==> u in g.players.info && u != g.Current()
    ensures |r| == g.players.Size() - 1
    ensures Distinct(r)
  {
    OrderHoldsEachPlayerOnce(g);
    Without(g.order, g.Current())
  }

  /** The loop of `build_ask_keyboard`: the players of `order`, in order, skipping `current`. */
  method SkipPlayer(order: seq<UserId>, current: UserId) returns (targets: seq<UserId>)
    ensures targets == Without(order, current)
  {
    targets := [];
    for i := 0 to |order|
      invariant targets == Without(order[..i], current)
    {
      WithoutPrefixStep(order, i, current);
      if order[i] != current {
        targets := targets + [order[i]];
      }
    }
    assert order[..|order|] == order;
  }

  /** One more element of `s` considered: it is kept unless it is `x`. */
  lemma WithoutPrefixStep(s: seq<UserId>, i: nat, x: UserId)
    requires i < |s|
    ensures Without(s[..i + 1], x) == Without(s[..i], x) + (if s[i] == x then [] else [s[i]])
  {
    assert s[..i + 1] == s[..i] + [s[i]];
    WithoutSnoc(s[..i], s[i], x);
  }

  /**
   * The name `/join` registers: `" ".join(context.args).strip()`. It is blank
   * exactly when every argument is whitespace, and otherwise neither starts
   * nor ends with whitespace.
   */
  function JoinedName(args: seq<string>): (name: string)
    ensures name == [] <==> forall i :: 0 <= i < |args| ==> AllSpace(args[i])
    ensures name == [] || (!IsSpace(name[0]) && !IsSpace(name[|name| - 1]))
  {
    JoinedBlankIff(args);
    Strip(Join(" ", args))
  }

  /**
   * The target of `/vote`: the author of the message replied to; otherwise
   * for `@name` the first player whose username is `name` ignoring case; otherwise
   * an argument that parses as the id of a player.
   */
  function ResolveTarget(players: Roster, replyTo: Option<UserId>, args: seq<string>): (t: Option<UserId>)
    requires players.Valid()
    ensures replyTo.None? && t.Some? ==> t.value in players.info
    ensures replyTo.None? && args == [] ==> t.None?
  {
    if replyTo.Some? then replyTo
    else if args == [] then None
    else if |args[0]| > 0 && args[0][0] == '@' then
      FirstUsernameMatch(players.ids, players.info, Lower(args[0][1..]))
    else match ParseInt(args[0])
      case Some(n) => if n in players.info then Some(n) else None
      case None => None
  }

  /** The target lookup of `cmd_vote`, with the username search as a loop. */
  method FindVoteTarget(players: Roster, replyTo: Option<UserId>, args: seq<string>) returns (target: Option<UserId>)
    requires players.Valid()
    ensures target == ResolveTarget(players, replyTo, args)
  {
    target := None;
    if replyTo.Some? {
      target := replyTo;
    } else if args != [] {
      var arg := args[0];
      if |arg| > 0 && arg[0] == '@' {
        target := FindByUsername(players, Lower(arg[1..]));
      } else {
        var n := ParseInt(arg);
        if n.Some? && n.value in players.info {
          target := n;
        }
      }
    }
  }

  /** `/vote` goes ahead only for a target that resolves to a player of the game. */
  predicate TargetAccepted(players: Roster, t: Option<UserId>) {
    t.Some? && t.value in players.info
  }

  /** The argument forms of `/vote` resolve as documented, and only ever to players. */
  lemma ResolveTargetSpec(players: Roster, replyTo: Option<UserId>, args: seq<string>)
    requires players.Valid()
    ensures replyTo.Some? ==> ResolveTarget(players, replyTo, args) == replyTo
    ensures replyTo.None? && args == [] ==> ResolveTarget(players, replyTo, args) == None
    ensures replyTo.None? && args != [] ==>
      var t := ResolveTarget(players, replyTo, args);
      t.Some? ==> t.value in players.info
    ensures replyTo.None? && args != [] && |args[0]| > 0 && args[0][0] == '@' ==>
      var t := ResolveTarget(players, replyTo, args);
      (t.Some? ==> UsernameMatches(players.info[t.value], Lower(args[0][1..]))) &&
      (t.None? <==> forall i :: 0 <= i < |players.ids| ==>
        !UsernameMatches(players.info[players.ids[i]], Lower(args[0][1..])))
    ensures replyTo.None? && args != [] && |args[0]| > 0 && args[0][0] == '@' ==>
      forall i :: 0 <= i < |players.ids| && UsernameMatches(players.info[players.ids[i]], Lower(args[0][1..])) ==>
        (forall j :: 0 <= j < i ==> !UsernameMatches(players.info[players.ids[j]], Lower(args[0][1..]))) ==>
        ResolveTarget(players, replyTo, args) == Some(players.ids[i])
  {
  }

  /** `/vote <id>` with the decimal id of a player targets that player, whatever follows. */
  lemma ResolveById(players: Roster, u: UserId, rest: seq<string>)
    requires players.Valid() && u in players.info
    ensures ResolveTarget(players, None, [Decimal(u)] + rest) == Some(u)
  {
    ParseDecimal(u);
    var d := Decimal(u);
    var args := [d] + rest;
    assert args[0] == d && args != [];
    if u >= 0 {
      DecimalNatDigits(u);
      assert IsDigit(d[0]);
    } else {
      assert d[0] == '-';
    }
  }

  /** `/vote @name` with a name that matches no player's username is refused. */
  lemma UnknownUsernameRefused(players: Roster, name: string, rest: seq<string>)
    requires players.Valid()
    requires forall u :: u in players.info ==> !UsernameMatches(players.info[u], Lower(name))
    ensures !TargetAccepted(players, ResolveTarget(players, None, ["@" + name] + rest))
  {
    var args := ["@" + name] + rest;
    assert args[0][0] == '@' && args[0][1..] == name;
    forall i | 0 <= i < |players.ids|
      ensures !UsernameMatches(players.info[players.ids[i]], Lower(name))
    {
      var u := players.ids[i];
      assert u in players.info;
    }
  }

  /** The majority test `count > total / 2` of `handle_vote_yes`, on Python's true division. */
  predicate Resolves(count: nat, total: nat) {
    2 * count > total
  }

  /** A vote resolves with a strict majority: `total / 2 + 1` ballots in integer terms. */
  lemma QuorumIsStrictMajority(count: nat, total: nat)
    ensures Resolves(count, total) <==> count >= total / 2 + 1
  {
  }

  /** With four players three ballots resolve a vote and two do not. */
  lemma QuorumOfFour()
    ensures Resolves(3, 4) && !Resolves(2, 4)
  {
  }

  /**
   * `/guess`: `" ".join(args).strip().lower()` against `location.strip().lower()`.
   * A guess equal to the location up to case is right, and a right guess is
   * as long as the location once both are trimmed.
   */
  predicate GuessMatches(args: seq<string>, location: string): (ok: bool)
    ensures Lower(Join(" ", args)) == Lower(location) ==> ok
    ensures ok ==> |Strip(Join(" ", args))| == |Strip(location)|
  {
    var guess := Join(" ", args);
    var ok := Normalise(guess) == Normalise(location);
    assert Lower(guess) == Lower(location) ==> ok by {
      if Lower(guess) == Lower(location) {
        NormaliseIgnoresCase(guess, location);
      }
    }
    ok
  }

  /** A guess matches whatever its case and whatever whitespace surrounds it. */
  lemma GuessIgnoresCaseAndPadding(p: string, guess: string, q: string, location: string)
    requires AllSpace(p) && AllSpace(q)
    requires Lower(guess) == Lower(location)
    ensures GuessMatches([p + guess + q], location)
  {
    NormaliseIgnoresPadding(p, guess, q);
    NormaliseIgnoresCase(guess, location);
  }

  /** The location `Аэропорт` surrounded by spaces, or written in capitals, is a right guess. */
  lemma AirportGuess()
    ensures GuessMatches([" " + Locations[0] + " "], Locations[0])
    ensures GuessMatches(["АЭРОПОРТ"], Locations[0])
  {
    AirportPadded();
    AirportCapitals();
  }

  lemma AirportPadded()
    ensures GuessMatches([" " + Locations[0] + " "], Locations[0])
  {
    GuessIgnoresCaseAndPadding(" ", Locations[0], " ", Locations[0]);
  }

  lemma AirportCapitals()
    ensures GuessMatches(["АЭРОПОРТ"], Locations[0])
  {
    AirportUpperCase();
    GuessIgnoresCaseAndPadding("", "АЭРОПОРТ", "", Locations[0]);
    assert "" + "АЭРОПОРТ" + "" == "АЭРОПОРТ";
  }

  lemma AirportUpperCase()
    ensures Lower("АЭРОПОРТ") == Lower("Аэропорт")
  {
    var a, b := "АЭРОПОРТ", "Аэропорт";
    forall k | 0 <= k < 8 ensures LowerChar(a[k]) == LowerChar(b[k]) {
    }
  }
}
