/**
 * A roster is the bot's `players` dictionary, `user_id -> {name, username}`.
 * Python dictionaries remember insertion order, and the bot depends on it
 * (the player list it prints, the first username that matches), so a roster
 * keeps its keys in a sequence beside the map.
 */
module Rosters {
  import opened Options
  import Strings

  type UserId = int

  datatype Player = Player(name: string, username: Option<string>)

  predicate Distinct<T(==)>(s: seq<T>) {
    forall i, j :: 0 <= i < j < |s| ==> s[i] != s[j]
  }

  /** `s` with every occurrence of `x` dropped, the others in their order. */
  function Without<T(==,!new)>(s: seq<T>, x: T): (r: seq<T>)
    ensures forall y :: y in r <==> y in s && y != x
    ensures x !in s ==> r == s
    ensures Distinct(s) ==> Distinct(r)
    ensures Distinct(s) && x in s ==> |r| == |s| - 1
  {
    if s == [] then []
    else
      var rest := Without(s[1..], x);
      assert s == [s[0]] + s[1..];
      if s[0] == x then rest
      else
        assert Distinct(s) ==> s[0] !in s[1..];
        [s[0]] + rest
  }

  /** Filtering a sequence extended by one element filters that element on its own. */
  lemma {:induction false} WithoutSnoc<T(!new)>(s: seq<T>, y: T, x: T)
    ensures Without(s + [y], x) == Without(s, x) + (if y == x then [] else [y])
  {
    if s == [] {
      assert [y][1..] == [];
    } else {
      assert (s + [y])[0] == s[0];
      assert (s + [y])[1..] == s[1..] + [y];
      WithoutSnoc(s[1..], y, x);
    }
  }

  /** Python's `s.index(x)`: the first position holding `x`. */
  function IndexOf<T(==)>(s: seq<T>, x: T): (i: nat)
    requires x in s
    ensures i < |s| && s[i] == x
    ensures forall j :: 0 <= j < i ==> s[j] != x
  {
    if s[0] == x then 0 else 1 + IndexOf(s[1..], x)
  }

  /** In a duplicate-free sequence each element occurs at most once, and exactly once if present. */
  lemma {:induction false} DistinctCount<T>(s: seq<T>, x: T)
    requires Distinct(s)
    ensures multiset(s)[x] <= 1
    ensures x in s ==> multiset(s)[x] == 1
  {
    if s != [] {
      var last := s[|s| - 1];
      var init := s[..|s| - 1];
      assert s == init + [last];
      DistinctCount(init, x);
      assert last !in init;
    }
  }

  /** A permutation of a duplicate-free sequence is duplicate-free and has the same elements. */
  lemma PermutationOfDistinct<T>(a: seq<T>, b: seq<T>)
    requires multiset(a) == multiset(b) && Distinct(b)
    ensures Distinct(a) && |a| == |b|
    ensures forall x :: x in a <==> x in b
  {
    assert |a| == |multiset(a)| == |multiset(b)| == |b|;
    forall x ensures x in a <==> x in b {
      assert x in a <==> x in multiset(a);
      assert x in b <==> x in multiset(b);
    }
    forall i, j | 0 <= i < j < |a| ensures a[i] != a[j] {
      DistinctCount(b, a[i]);
      RepeatCountsTwice(a, i, j);
    }
  }

  lemma RepeatCountsTwice<T>(a: seq<T>, i: nat, j: nat)
    requires i < j < |a|
    ensures a[i] == a[j] ==> multiset(a)[a[i]] >= 2
  {
    assert a == a[..i] + [a[i]] + a[i + 1..j] + [a[j]] + a[j + 1..];
  }

  datatype Roster = Roster(ids: seq<UserId>, info: map<UserId, Player>) {

    /** The keys in insertion order match the dictionary's keys, each once. */
    predicate Valid() {
      && Distinct(ids)
      && (forall u :: u in info ==> u in ids)
      && (forall i :: 0 <= i < |ids| ==> ids[i] in info)
    }

    /** Every key in insertion order is a dictionary key and the other way round. */
    lemma KeysAreIds()
      requires Valid()
      ensures forall u :: u in info <==> u in ids
    {
      forall u | u in ids ensures u in info {
        var k :| 0 <= k < |ids| && ids[k] == u;
      }
    }

    /** Python's `len(players)`. */
    function Size(): nat {
      |ids|
    }

    /** `players[u] = p` for a user not yet in the dictionary: appended at the end. */
    function Add(u: UserId, p: Player): (r: Roster)
      requires Valid() && u !in info
      ensures r.Valid() && r.Size() == Size() + 1
      ensures r.info == info[u := p] && r.ids == ids + [u]
    {
      Roster(ids + [u], info[u := p])
    }

    /** `del players[u]`: the others keep their order; an absent user changes nothing. */
    function Remove(u: UserId): (r: Roster)
      requires Valid()
      ensures r.Valid()
      ensures r.info == info - {u}
      ensures r.ids == Without(ids, u)
      ensures u !in info ==> r == this
      ensures u in info ==> r.Size() == Size() - 1
    {
      KeysAreIds();
      var r := Roster(Without(ids, u), info - {u});
      assert forall i :: 0 <= i < |r.ids| ==> r.ids[i] in r.ids;
      r
    }

    /** The names in dictionary order, as `players.values()` yields them: one per dictionary entry. */
    function Names(): (r: seq<string>)
      requires Valid()
      ensures |r| == Size() == |info|
      ensures forall u :: u in info ==> exists i :: 0 <= i < |ids| && ids[i] == u && r[i] == info[u].name
    {
      SizeIsEntryCount(this);
      KeysAreIds();
      var r := seq(|ids|, i requires 0 <= i < |ids| => info[ids[i]].name);
      assert forall u :: u in info ==> u in ids;
      r
    }
  }

  const EmptyRoster: Roster := Roster([], map[])

  /** A user who joins and then leaves leaves the roster exactly as it was. */
  lemma RemoveAfterAdd(r: Roster, u: UserId, p: Player)
    requires r.Valid() && u !in r.info
    ensures r.Add(u, p).Remove(u) == r
  {
    r.KeysAreIds();
    WithoutSnoc(r.ids, u, u);
    assert r.info[u := p] - {u} == r.info;
  }

  /** The number of keys in insertion order equals the number of dictionary entries. */
  lemma {:induction false} SizeIsEntryCount(r: Roster)
    requires r.Valid()
    ensures r.Size() == |r.info|
  {
    DistinctSetSize(r.ids);
    r.KeysAreIds();
    var ids := set u | u in r.ids;
    assert forall u :: u in r.info.Keys <==> u in ids;
    assert r.info.Keys == ids;
  }

  lemma {:induction false} DistinctSetSize<T>(s: seq<T>)
    requires Distinct(s)
    ensures |set x | x in s| == |s|
  {
    if s != [] {
      var init := s[..|s| - 1];
      DistinctSetSize(init);
      assert (set x | x in s) == (set x | x in init) + {s[|s| - 1]};
      assert s[|s| - 1] !in init;
    }
  }

  /**
   * `format_players_list`: the names joined by ", ". It is empty for an empty
   * roster, starts with the first player's name and ends with the last one's.
   */
  function FormatPlayersList(r: Roster): (s: string)
    requires r.Valid()
    ensures r.Size() == 0 ==> s == ""
    ensures r.Size() > 0 ==> r.info[r.ids[0]].name <= s
    ensures r.Size() > 0 ==> var last := r.info[r.ids[r.Size() - 1]].name;
      |last| <= |s| && s[|s| - |last|..] == last
  {
    if r.Size() == 0 then Strings.Join(", ", r.Names())
    else
      NameAt(r, 0);
      NameAt(r, r.Size() - 1);
      Strings.JoinEndsWithLast(", ", r.Names());
      Strings.Join(", ", r.Names())
  }

  /** The name at position `i` of the printed list is the `i`-th player's. */
  lemma NameAt(r: Roster, i: nat)
    requires r.Valid() && i < r.Size()
    ensures r.Names()[i] == r.info[r.ids[i]].name
  {
  }

  /** A new player's name comes after the names already in the roster. */
  lemma NamesAfterAdd(r: Roster, u: UserId, p: Player)
    requires r.Valid() && u !in r.info
    ensures r.Add(u, p).Names() == r.Names() + [p.name]
  {
    var r' := r.Add(u, p);
    var a, b := r'.Names(), r.Names() + [p.name];
    assert |a| == |b|;
    forall i | 0 <= i < |a| ensures a[i] == b[i] {
      NameAt(r', i);
      if i < |r.ids| {
        NameAt(r, i);
      }
    }
  }

  /** A player who joins shows up at the end of the printed list, after the earlier ones. */
  lemma FormatPlayersListAfterAdd(r: Roster, u: UserId, p: Player)
    requires r.Valid() && u !in r.info
    ensures FormatPlayersList(r.Add(u, p)) ==
      if r.Size() == 0 then p.name else FormatPlayersList(r) + ", " + p.name
  {
    NamesAfterAdd(r, u, p);
    if r.Size() > 0 {
      Strings.JoinAppend(", ", r.Names(), p.name);
    }
  }

  /** `p.get("username") and p["username"].lower() == uname`: an empty or missing username never matches. */
  predicate UsernameMatches(p: Player, uname: string) {
    p.username.Some? && p.username.value != [] && Strings.Lower(p.username.value) == uname
  }

  /** The first user, in dictionary order, whose username matches `uname`. */
  function FirstUsernameMatch(ids: seq<UserId>, info: map<UserId, Player>, uname: string): (r: Option<UserId>)
    requires forall i :: 0 <= i < |ids| ==> ids[i] in info
    ensures r.Some? ==> r.value in info && UsernameMatches(info[r.value], uname)
    ensures r.None? <==> forall i :: 0 <= i < |ids| ==> !UsernameMatches(info[ids[i]], uname)
    ensures forall i :: 0 <= i < |ids| && UsernameMatches(info[ids[i]], uname) ==>
      (forall j :: 0 <= j < i ==> !UsernameMatches(info[ids[j]], uname)) ==> r == Some(ids[i])
  {
    if ids == [] then None
    else if UsernameMatches(info[ids[0]], uname) then Some(ids[0])
    else
      var r := FirstUsernameMatch(ids[1..], info, uname);
      assert forall i :: 1 <= i < |ids| ==> ids[i] == ids[1..][i - 1];
      r
  }

  /** The search loop of `/vote @name`: players in dictionary order, stopping at the first match. */
  method FindByUsername(players: Roster, uname: string) returns (r: Option<UserId>)
    requires players.Valid()
    ensures r == FirstUsernameMatch(players.ids, players.info, uname)
  {
    var i := 0;
    while i < |players.ids|
      invariant 0 <= i <= |players.ids|
      invariant forall j :: 0 <= j < i ==> !UsernameMatches(players.info[players.ids[j]], uname)
    {
      var uid := players.ids[i];
      if UsernameMatches(players.info[uid], uname) {
        return Some(uid);
      }
      i := i + 1;
    }
    return None;
  }
}
