/**
 * One game session as a class (game/game_state.py): its status, its players
 * in turn order, the turn index, the open vote and the winner.
 *
 * The Python `players` dict is held as `order` (its keys, in insertion order,
 * which is the turn order) together with `players` (the dict itself).
 */
module SessionState {
  import opened Wrappers
  import opened Seqs
  import opened Ballots

  datatype GameStatus = Waiting | Playing | Voting | Finished

  /** What a session knows about one player. */
  datatype PlayerData = PlayerData(user_id: int, role: string, has_voted: bool, questions_asked: int)

  /** The ballot of the question being voted on: voter id to ballot. */
  datatype VoteData = VoteData(question: string, votes: map<int, string>, total_players: int, question_owner_id: int)

  /** A vote is complete once at least the expected number of ballots is in. */
  predicate VoteComplete(v: VoteData) {
    |v.votes| >= v.total_players
  }

  /** Turn index after one step of the rotation. */
  function Advance(index: nat, n: nat): (r: nat)
    requires n > 0
    ensures r < n
  {
    (index + 1) % n
  }

  /** From a valid turn index, one step moves to the next seat, and from the last seat back to the first. */
  lemma AdvanceStep(index: nat, n: nat)
    requires index < n
    ensures Advance(index, n) == if index + 1 < n then index + 1 else 0
  {
  }

  /** Turn index after `k` steps of the rotation. */
  function AdvanceTimes(index: nat, n: nat, k: nat): (r: nat)
    requires n > 0
    ensures r < n || (k == 0 && r == index)
  {
    if k == 0 then index else Advance(AdvanceTimes(index, n, k - 1), n)
  }

  /** `a` steps followed by `b` steps are `a + b` steps. */
  lemma {:induction false} AdvanceTimesCompose(index: nat, n: nat, a: nat, b: nat)
    requires n > 0
    ensures AdvanceTimes(index, n, a + b) == AdvanceTimes(AdvanceTimes(index, n, a), n, b)
  {
    if b > 0 {
      AdvanceTimesCompose(index, n, a, b - 1);
    }
  }

  /** Seats ahead of the turn index, up to the last one, are reached one by one. */
  lemma {:induction false} AdvanceTimesAhead(index: nat, n: nat, k: nat)
    requires index + k < n
    ensures AdvanceTimes(index, n, k) == index + k
  {
    if k > 0 {
      AdvanceTimesAhead(index, n, k - 1);
      AdvanceStep(index + k - 1, n);
    }
  }

  /** Stepping on from the turn index reaches the first seat after `n - index` steps. */
  lemma WrapsToFirstSeat(index: nat, n: nat)
    requires index < n
    ensures AdvanceTimes(index, n, n - index) == 0
  {
    AdvanceTimesAhead(index, n, n - 1 - index);
    AdvanceStep(n - 1, n);
    AdvanceTimesCompose(index, n, n - 1 - index, 1);
  }

  /** The rotation is fair: every seat `j` gets the turn within fewer than `n` steps. */
  lemma RotationReachesEverySeat(index: nat, n: nat, j: nat)
    requires index < n && j < n
    ensures exists k :: 0 <= k < n && AdvanceTimes(index, n, k) == j
  {
    if j >= index {
      AdvanceTimesAhead(index, n, j - index);
      assert AdvanceTimes(index, n, j - index) == j;
    } else {
      WrapsToFirstSeat(index, n);
      AdvanceTimesAhead(0, n, j);
      AdvanceTimesCompose(index, n, n - index, j);
      assert AdvanceTimes(index, n, n - index + j) == j;
    }
  }

  /** After a full round of `n` steps the turn is back with the same player. */
  lemma FullRoundReturns(index: nat, n: nat)
    requires index < n
    ensures AdvanceTimes(index, n, n) == index
  {
    WrapsToFirstSeat(index, n);
    AdvanceTimesAhead(0, n, index);
    AdvanceTimesCompose(index, n, n - index, index);
  }

  /**
   * A vote opened in a session of `players` expects one ballot fewer than there
   * are players: once every player other than the owner has voted, it is complete.
   */
  lemma AllOthersVotedCompletes(players: set<int>, owner: int, question: string, votes: map<int, string>)
    requires owner in players
    requires votes.Keys == players - {owner}
    ensures VoteComplete(VoteData(question, votes, |players| - 1, owner))
  {
    assert |players - {owner}| == |players| - 1;
  }

  class GameState {
    const lobby_id: int
    var status: GameStatus
    var order: seq<int>
    var players: map<int, PlayerData>
    var current_player_index: nat
    var current_vote: Option<VoteData>
    var winner_id: Option<int>

    /** The keys of `players`, in order, are `order`; the turn index is in range whenever anyone plays. */
    ghost predicate Valid()
      reads this
    {
      && Distinct(order)
      && (forall id :: id in order <==> id in players)
      && (forall id :: id in players ==> players[id].user_id == id)
      && (if order == [] then current_player_index == 0 else current_player_index < |order|)
    }

    /** A new session waits, with nobody in it, no vote and no winner. */
    constructor (lobby_id: int)
      ensures Valid()
      ensures this.lobby_id == lobby_id && status == Waiting
      ensures order == [] && players == map[] && current_player_index == 0
      ensures current_vote == None && winner_id == None
    {
      this.lobby_id := lobby_id;
      status := Waiting;
      order := [];
      players := map[];
      current_player_index := 0;
      current_vote := None;
      winner_id := None;
    }

    /**
     * Adds `user_id` with `role` and a fresh record. A user already present
     * keeps their place in the turn order but gets a new record.
     */
    method AddPlayer(user_id: int, role: string)
      requires Valid()
      modifies this
      ensures Valid()
      ensures players == old(players)[user_id := PlayerData(user_id, role, false, 0)]
      ensures order == if user_id in old(players) then old(order) else old(order) + [user_id]
      ensures status == old(status) && current_player_index == old(current_player_index)
      ensures current_vote == old(current_vote) && winner_id == old(winner_id)
    {
      if user_id !in players {
        order := order + [user_id];
      }
      players := players[user_id := PlayerData(user_id, role, false, 0)];
    }

    /**
     * Removes `user_id` and hands the turn to `next_player`. An absent user
     * changes nothing. The caller names a next player who stays in the session
     * (otherwise Python's `list.index` raises).
     */
    method RemovePlayer(user_id: int, next_player: int) returns (removed: bool)
      requires Valid()
      requires user_id in players ==> next_player in players && next_player != user_id
      modifies this
      ensures Valid()
      ensures removed <==> user_id in old(players)
      ensures removed ==> && players == old(players) - {user_id}
                          && order == Without(old(order), user_id)
                          && current_player_index == IndexOf(order, next_player)
                          && CurrentPlayer() == Some(next_player)
      ensures !removed ==> players == old(players) && order == old(order)
                           && current_player_index == old(current_player_index)
      ensures status == old(status) && current_vote == old(current_vote) && winner_id == old(winner_id)
    {
      removed := false;
      if user_id in players {
        WithoutDistinct(order, user_id);
        players := players - {user_id};
        order := Without(order, user_id);
        current_player_index := IndexOf(order, next_player);
        removed := true;
      }
    }

    /** The player whose turn it is, or None in an empty session. */
    function CurrentPlayer(): (r: Option<int>)
      reads this
      requires Valid()
      ensures r.None? <==> players == map[]
      ensures r.Some? ==> r.value in players && IndexOf(order, r.value) == current_player_index
    {
      if order == [] then
        assert forall id :: id !in players;
        None
      else
        assert order[current_player_index] in order;
        IndexOfDistinct(order, current_player_index);
        Some(order[current_player_index])
    }

    /** The role of `user_id`, or None when they are not in the session. */
    function PlayerRole(user_id: int): (r: Option<string>)
      reads this
      requires Valid()
      ensures r.Some? <==> user_id in order
      ensures r.Some? ==> r.value == players[user_id].role
    {
      if user_id in players then Some(players[user_id].role) else None
    }

    /**
     * Passes the turn: in an empty session nothing happens; otherwise the
     * turn index moves one seat on, wrapping round, and the new holder is returned.
     */
    method NextPlayer() returns (r: Option<int>)
      requires Valid()
      modifies this
      ensures Valid()
      ensures old(order) == [] ==> r == None && current_player_index == old(current_player_index)
      ensures old(order) != [] ==> && current_player_index == Advance(old(current_player_index), |old(order)|)
                                   && r == CurrentPlayer() && r.Some?
      ensures order == old(order) && players == old(players) && status == old(status)
      ensures current_vote == old(current_vote) && winner_id == old(winner_id)
    {
      if order == [] {
        return None;
      }
      current_player_index := (current_player_index + 1) % |order|;
      r := CurrentPlayer();
    }

    /**
     * Opens a vote on `question` asked by `question_owner_id`, expecting a
     * ballot from every other player.
     */
    method StartVote(question: string, question_owner_id: int)
      requires Valid()
      modifies this
      ensures Valid()
      ensures status == Voting
      ensures current_vote == Some(VoteData(question, map[], |players| - 1, question_owner_id))
      ensures order == old(order) && players == old(players)
      ensures current_player_index == old(current_player_index) && winner_id == old(winner_id)
    {
      status := Voting;
      current_vote := Some(VoteData(question, map[], |players| - 1, question_owner_id));
    }

    /**
     * Records `vote` for `user_id`, replacing an earlier ballot of theirs.
     * Refused, with nothing changed, when no vote is open or the voter asked
     * the question.
     */
    method AddVote(user_id: int, vote: string) returns (accepted: bool)
      requires Valid()
      modifies this
      ensures Valid()
      ensures accepted <==> old(current_vote).Some? && user_id != old(current_vote).value.question_owner_id
      ensures accepted ==> current_vote == Some(old(current_vote).value.(votes := old(current_vote).value.votes[user_id := vote]))
      ensures !accepted ==> current_vote == old(current_vote)
      ensures status == old(status) && order == old(order) && players == old(players)
      ensures current_player_index == old(current_player_index) && winner_id == old(winner_id)
    {
      if current_vote.None? || user_id == current_vote.value.question_owner_id {
        return false;
      }
      current_vote := Some(current_vote.value.(votes := current_vote.value.votes[user_id := vote]));
      accepted := true;
    }

    /** The vote is complete when one is open and it has at least the expected number of ballots. */
    function IsVotingComplete(): (complete: bool)
      reads this
      ensures complete ==> current_vote.Some?
      ensures current_vote.Some? ==> (complete <==> VoteComplete(current_vote.value))
    {
      current_vote.Some? && VoteComplete(current_vote.value)
    }

    /** The tally of the open vote, (0, 0) when none is open. */
    function GetVoteResults(): (t: Tally)
      reads this
      ensures current_vote.None? ==> t == Tally(0, 0)
      ensures current_vote.Some? ==> (t.yes + t.no == |current_vote.value.votes|
                                      && t.yes == |YesVoters(current_vote.value.votes)|)
    {
      if current_vote.None? then Tally(0, 0) else Count(current_vote.value.votes)
    }

    /**
     * Closes the vote and returns to play; the player whose turn it is gets one
     * more question on their record. Python's truth test skips a player whose
     * id is 0.
     */
    method EndVote()
      requires Valid()
      modifies this
      ensures Valid()
      ensures status == Playing && current_vote == None
      ensures var cp := old(CurrentPlayer());
              players == if cp.Some? && cp.value != 0
                         then old(players)[cp.value := old(players)[cp.value].(questions_asked := old(players)[cp.value].questions_asked + 1)]
                         else old(players)
      ensures order == old(order) && current_player_index == old(current_player_index)
      ensures winner_id == old(winner_id)
    {
      status := Playing;
      current_vote := None;
      var current := CurrentPlayer();
      if current.Some? && current.value != 0 && current.value in players {
        var data := players[current.value];
        players := players[current.value := data.(questions_asked := data.questions_asked + 1)];
      }
    }

    /** Ends the game with `winner_id` as winner. */
    method FinishGame(winner_id: int)
      requires Valid()
      modifies this
      ensures Valid()
      ensures status == Finished && this.winner_id == Some(winner_id)
      ensures order == old(order) && players == old(players)
      ensures current_player_index == old(current_player_index) && current_vote == old(current_vote)
    {
      status := Finished;
      this.winner_id := Some(winner_id);
    }

    /** Number of players still in the session: the same count as `GetPlayerCount`. */
    function GetRemainingPlayersCount(): (n: nat)
      reads this
      requires Valid()
      ensures n == |order|
    {
      GetPlayerCount()
    }

    /** Whether `user_id` plays in this session. */
    function HasPlayer(user_id: int): (b: bool)
      reads this
      requires Valid()
      ensures b <==> user_id in order
    {
      user_id in players
    }

    /** The player ids in turn order. */
    function GetAllPlayers(): (ids: seq<int>)
      reads this
      requires Valid()
      ensures Distinct(ids) && |ids| == |players|
      ensures forall id :: id in ids <==> id in players
    {
      assert forall id :: id in order <==> id in players.Keys;
      DistinctSize(order, players.Keys);
      order
    }

    /** Number of players. */
    function GetPlayerCount(): (n: nat)
      reads this
      requires Valid()
      ensures n == |order|
    {
      assert forall id :: id in order <==> id in players.Keys;
      DistinctSize(order, players.Keys);
      |players|
    }
  }

  /**
   * Handing the turn on when its holder leaves: the next player clockwise is
   * someone else, so `RemovePlayer` accepts them as `next_player`, and after
   * the removal they sit where the leaving player sat (or first, when the
   * leaving player sat last). In [A, B, C] with the turn on B, B's departure
   * gives the turn to C, now at seat 1.
   */
  lemma RemovingHolderPassesClockwise(order: seq<int>, index: nat)
    requires Distinct(order) && |order| >= 2 && index < |order|
    ensures order[Advance(index, |order|)] != order[index]
    ensures IndexOf(Without(order, order[index]), order[Advance(index, |order|)])
            == if index + 1 < |order| then index else 0
  {
    var leaving := order[index];
    AdvanceStep(index, |order|);
    var j := Advance(index, |order|);
    var next := order[j];
    assert j != index;
    IndexOfDistinct(order, index);
    IndexOfDistinct(order, j);
    WithoutIndex(order, leaving, next);
  }
}
