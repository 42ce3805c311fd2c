/**
 * The in-memory registry of running sessions (game/game_manager.py): lobby id
 * to `GameState`, with creation, lookup, removal, lookup by player and two
 * counts. The registry dict is held as `order` (its keys in insertion order)
 * together with `active_games`.
 */
module SessionRegistry {
  import opened Wrappers
  import opened Seqs
  import opened SessionState

  /** The keys of a dict given by its items in iteration order. */
  function Keys(items: seq<(int, string)>): (ks: seq<int>)
    ensures |ks| == |items|
    ensures forall i :: 0 <= i < |items| ==> ks[i] == items[i].0
  {
    seq(|items|, i requires 0 <= i < |items| => items[i].0)
  }

  /** The player records a new session gets for `items` (user id, role): that role, nothing asked yet. */
  function Roster(items: seq<(int, string)>): (m: map<int, PlayerData>)
    ensures forall id :: id in m <==> id in Keys(items)
    ensures forall id :: id in m ==> m[id].user_id == id && m[id].questions_asked == 0 && !m[id].has_voted
  {
    if items == [] then map[]
    else
      var last := items[|items| - 1];
      assert Keys(items) == Keys(items[..|items| - 1]) + [last.0];
      Roster(items[..|items| - 1])[last.0 := PlayerData(last.0, last.1, false, 0)]
  }

  /** In a roster built from a dict's items, every user holds the role given with them. */
  lemma {:induction false} RosterRole(items: seq<(int, string)>, i: nat)
    requires Distinct(Keys(items)) && i < |items|
    ensures Roster(items)[items[i].0] == PlayerData(items[i].0, items[i].1, false, 0)
  {
    var n := |items| - 1;
    var init := items[..n];
    assert Keys(items) == Keys(init) + [items[n].0];
    if i < n {
      assert Distinct(Keys(init)) by {
        forall a, b | 0 <= a < b < |init| ensures Keys(init)[a] != Keys(init)[b] {
          assert Keys(init)[a] == Keys(items)[a] && Keys(init)[b] == Keys(items)[b];
        }
      }
      assert init[i] == items[i];
      RosterRole(init, i);
      assert Keys(items)[i] != Keys(items)[n];
    }
  }

  /**
   * A fresh playing session for `lobby_id`: its players are those of
   * `players_data` in that order, each with the given role and nothing asked.
   */
  method NewSession(lobby_id: int, players_data: seq<(int, string)>) returns (g: GameState)
    requires Distinct(Keys(players_data))
    ensures fresh(g) && g.Valid()
    ensures g.lobby_id == lobby_id && g.status == Playing
    ensures g.order == Keys(players_data) && g.players == Roster(players_data)
    ensures g.current_player_index == 0 && g.current_vote == None && g.winner_id == None
  {
    g := new GameState(lobby_id);
    g.status := Playing;
    var i := 0;
    while i < |players_data|
      invariant 0 <= i <= |players_data|
      invariant fresh(g) && g.Valid() && g.lobby_id == lobby_id && g.status == Playing
      invariant g.order == Keys(players_data[..i]) && g.players == Roster(players_data[..i])
      invariant g.current_player_index == 0 && g.current_vote == None && g.winner_id == None
    {
      var (user_id, role) := players_data[i];
      KeysStep(players_data, i);
      g.AddPlayer(user_id, role);
      i := i + 1;
    }
    assert players_data[..i] == players_data;
  }

  /** Extending a prefix of a dict's items by the next item adds a key not seen before. */
  lemma KeysStep(items: seq<(int, string)>, i: nat)
    requires Distinct(Keys(items)) && i < |items|
    ensures items[..i + 1] == items[..i] + [items[i]]
    ensures items[..i + 1][..i] == items[..i]
    ensures Keys(items[..i + 1]) == Keys(items[..i]) + [items[i].0]
    ensures items[i].0 !in Keys(items[..i])
  {
    assert items[..i + 1] == items[..i] + [items[i]];
    forall k | 0 <= k < i ensures Keys(items[..i])[k] != items[i].0 {
      assert Keys(items)[k] != Keys(items)[i];
    }
  }

  class GameStorageManager {
    var active_games: map<int, GameState>
    var order: seq<int>

    /** `order` lists each registered lobby once; every registered session is well formed. */
    ghost predicate Valid()
      reads this, active_games.Values
    {
      && Distinct(order)
      && (forall id :: id in order <==> id in active_games)
      && (forall i :: 0 <= i < |order| ==> order[i] in active_games && active_games[order[i]].Valid())
      && (forall id :: id in active_games ==> active_games[id].Valid())
    }

    constructor ()
      ensures Valid() && active_games == map[] && order == []
    {
      active_games := map[];
      order := [];
    }

    /**
     * Starts a session for `lobby_id` with the players of `players_data`, and
     * registers it in place of any session registered before under the same
     * id (which keeps its place in the registry's order).
     */
    method CreateGame(lobby_id: int, players_data: seq<(int, string)>) returns (g: GameState)
      requires Valid()
      requires Distinct(Keys(players_data))
      modifies this
      ensures Valid()
      ensures fresh(g)
      ensures active_games == old(active_games)[lobby_id := g]
      ensures order == if lobby_id in old(active_games) then old(order) else old(order) + [lobby_id]
      ensures g.lobby_id == lobby_id && g.status == Playing
      ensures g.order == Keys(players_data) && g.players == Roster(players_data)
      ensures g.current_player_index == 0 && g.current_vote == None && g.winner_id == None
    {
      g := NewSession(lobby_id, players_data);
      active_games := active_games[lobby_id := g];
      if lobby_id !in order {
        order := order + [lobby_id];
      }
    }

    /** The session registered under `lobby_id`, or None. */
    function GetGame(lobby_id: int): (r: Option<GameState>)
      reads this
      ensures r.Some? <==> lobby_id in active_games
      ensures r.Some? ==> r.value == active_games[lobby_id]
    {
      if lobby_id in active_games then Some(active_games[lobby_id]) else None
    }

    /** Unregisters `lobby_id`; says whether it was registered. Every other entry stays, in order. */
    method RemoveGame(lobby_id: int) returns (removed: bool)
      requires Valid()
      modifies this
      ensures Valid()
      ensures removed <==> lobby_id in old(active_games)
      ensures active_games == old(active_games) - {lobby_id}
      ensures removed ==> order == Without(old(order), lobby_id)
      ensures !removed ==> order == old(order) && active_games == old(active_games)
    {
      if lobby_id in active_games {
        WithoutDistinct(order, lobby_id);
        active_games := active_games - {lobby_id};
        order := Without(order, lobby_id);
        return true;
      }
      return false;
    }

    /**
     * The first registered session, in registration order, in which `user_id`
     * plays; None exactly when they play in none.
     */
    method GetGameByPlayer(user_id: int) returns (r: Option<GameState>)
      requires Valid()
      ensures r.None? <==> forall id :: id in active_games ==> user_id !in active_games[id].players
      ensures r.Some? ==> exists i :: && 0 <= i < |order| && active_games[order[i]] == r.value
                                      && user_id in r.value.players
                                      && forall j :: 0 <= j < i ==> user_id !in active_games[order[j]].players
    {
      var i := 0;
      while i < |order|
        invariant 0 <= i <= |order|
        invariant forall j :: 0 <= j < i ==> user_id !in active_games[order[j]].players
      {
        var game := active_games[order[i]];
        if game.HasPlayer(user_id) {
          var id := order[i];
          assert id in active_games && user_id in active_games[id].players;
          return Some(game);
        }
        i := i + 1;
      }
      forall id | id in active_games ensures user_id !in active_games[id].players {
        assert id in order;
        var k :| 0 <= k < |order| && order[k] == id;
      }
      return None;
    }

    /** Number of registered sessions. */
    function GetActiveGamesCount(): (n: nat)
      reads this, active_games.Values
      requires Valid()
      ensures n == |order|
    {
      assert forall id :: id in order <==> id in active_games.Keys;
      DistinctSize(order, active_games.Keys);
      |active_games|
    }

    /** The players of the sessions under `ids`, added up. */
    ghost function PlayersOf(ids: seq<int>): int
      reads this, active_games.Values
      requires forall id :: id in ids ==> id in active_games
    {
      if ids == [] then 0
      else
        var last := ids[|ids| - 1];
        assert last in ids;
        assert last in active_games;
        assert forall id :: id in ids[..|ids| - 1] ==> id in ids;
        PlayersOf(ids[..|ids| - 1]) + |active_games[last].players|
    }

    /** The player total splits over the parts of a list of lobbies. */
    lemma {:induction false} PlayersOfAppend(a: seq<int>, b: seq<int>)
      requires forall id :: id in a + b ==> id in active_games
      ensures PlayersOf(a + b) == PlayersOf(a) + PlayersOf(b)
    {
      if b != [] {
        var c := b[..|b| - 1];
        assert (a + b)[..|a + b| - 1] == a + c;
        assert forall id :: id in a + c ==> id in a + b;
        PlayersOfAppend(a, c);
      } else {
        assert a + b == a;
      }
    }

    /**
     * One session's share of the total: all players online are that session's
     * players plus those of every other registered session.
     */
    lemma SessionShare(lobby_id: int)
      requires Valid() && lobby_id in active_games
      ensures PlayersOf(order) == PlayersOf(Without(order, lobby_id)) + |active_games[lobby_id].players|
    {
      WithoutIsDeletion(order, lobby_id);
      var i := IndexOf(order, lobby_id);
      assert order == order[..i] + [lobby_id] + order[i + 1..];
      assert forall id :: id in order[..i] + [lobby_id] + order[i + 1..] ==> id in active_games;
      PlayersOfAppend(order[..i] + [lobby_id], order[i + 1..]);
      PlayersOfAppend(order[..i], [lobby_id]);
      PlayersOfAppend(order[..i], order[i + 1..]);
      assert [lobby_id][..0] == [];
    }

    /** Number of players over all registered sessions. */
    method GetTotalPlayersOnline() returns (total: int)
      requires Valid()
      ensures total == PlayersOf(order)
      ensures total >= 0
    {
      total := 0;
      var i := 0;
      while i < |order|
        invariant 0 <= i <= |order|
        invariant total == PlayersOf(order[..i])
        invariant total >= 0
      {
        assert order[i] in order;
        var game := active_games[order[i]];
        assert order[..i + 1][..i] == order[..i];
        total := total + game.GetPlayerCount();
        i := i + 1;
      }
      assert order[..i] == order;
    }
  }
}
