/**
 * The dict-based turn controller of game/game_logic.py (`GameManager`): it
 * deals roles, keeps one session record per lobby, and decides every turn,
 * vote and final guess. Messages to players and database writes are dropped;
 * what each handler would answer is returned as a `Reply`.
 */
module TurnController {
  import opened Wrappers
  import opened Seqs
  import opened Ballots
  import opened GuessText
  import opened RoleAssignment
  import SessionState

  /** What a handler answers; the conversation state it returns is folded in. */
  datatype Reply =
    | NotInGame        // the user plays in no running session
    | NotYourTurn      // a question from someone whose turn it is not
    | QuestionSent     // an ordinary question went out to the vote
    | GuessRight       // a correct final guess: the game is over
    | GuessWrong       // a wrong final guess: the turn passes
    | GameNotFound     // a ballot for a lobby without a running session
    | OwnVote          // the asker tried to answer their own question
    | VoteRecorded     // a ballot was stored and more are awaited
    | QuestionPassed   // a strict majority said "yes": the asker keeps the turn
    | QuestionFailed   // no strict majority of "yes", ties included: the turn passes
    | QuestionMissing  // all ballots arrived but no question was ever asked (a KeyError)

  /** The roles dict built from the players and their dealt roles: `dict(zip(ids, roles))`. */
  function ZipRoles(ids: seq<int>, roles: seq<string>): (m: map<int, string>)
    requires |ids| == |roles|
    ensures forall p :: p in m <==> p in ids
    ensures forall p :: p in m ==> m[p] in roles
  {
    if ids == [] then map[]
    else
      var n := |ids| - 1;
      assert ids == ids[..n] + [ids[n]];
      assert roles == roles[..n] + [roles[n]];
      ZipRoles(ids[..n], roles[..n])[ids[n] := roles[n]]
  }

  /** Each player of a list without repetitions holds the role dealt at their position. */
  lemma {:induction false} ZipRolesAt(ids: seq<int>, roles: seq<string>, i: nat)
    requires |ids| == |roles| && Distinct(ids) && i < |ids|
    ensures ZipRoles(ids, roles)[ids[i]] == roles[i]
  {
    var n := |ids| - 1;
    if i < n {
      assert Distinct(ids[..n]) by {
        forall a, b | 0 <= a < b < n ensures ids[..n][a] != ids[..n][b] {
          assert ids[..n][a] == ids[a] && ids[..n][b] == ids[b];
        }
      }
      ZipRolesAt(ids[..n], roles[..n], i);
      assert ids[i] != ids[n];
      assert ids[..n][i] == ids[i] && roles[..n][i] == roles[i];
    }
  }

  /** Different players get different roles when the dealt roles are all different. */
  lemma DistinctRolesPerPlayer(ids: seq<int>, roles: seq<string>)
    requires |ids| == |roles| && Distinct(ids) && Distinct(roles)
    ensures forall i, j :: 0 <= i < j < |ids| ==> ZipRoles(ids, roles)[ids[i]] != ZipRoles(ids, roles)[ids[j]]
  {
    forall i, j | 0 <= i < j < |ids|
      ensures ZipRoles(ids, roles)[ids[i]] != ZipRoles(ids, roles)[ids[j]]
    {
      ZipRolesAt(ids, roles, i);
      ZipRolesAt(ids, roles, j);
    }
  }

  /** One running session: the record kept in `active_games[lobby_id]`. */
  class Session {
    const lobby_id: int
    const players: seq<int>
    const roles: map<int, string>
    var current_player_index: nat
    var question_count: nat
    var votes: map<int, string>
    var current_question: Option<string>

    /** The turn index points at a player, and every player has a role. */
    ghost predicate Valid()
      reads this
    {
      && current_player_index < |players|
      && (forall p :: p in players ==> p in roles)
    }

    constructor (lobby_id: int, players: seq<int>, roles: map<int, string>)
      requires |players| > 0 && forall p :: p in players ==> p in roles
      ensures Valid()
      ensures this.lobby_id == lobby_id && this.players == players && this.roles == roles
      ensures current_player_index == 0 && question_count == 0 && votes == map[] && current_question == None
    {
      this.lobby_id := lobby_id;
      this.players := players;
      this.roles := roles;
      current_player_index := 0;
      question_count := 0;
      votes := map[];
      current_question := None;
    }

    /** The player whose turn it is. */
    function Current(): (p: int)
      reads this
      requires Valid()
      ensures p == players[current_player_index]
      ensures p in players && p in roles
    {
      players[current_player_index]
    }

    /** Passes the turn to the next seat, wrapping round, and starts the new turn with no ballots and no questions. */
    method NextPlayer()
      requires Valid()
      modifies this
      ensures Valid()
      ensures current_player_index == SessionState.Advance(old(current_player_index), |players|)
      ensures votes == map[] && question_count == 0 && current_question == old(current_question)
    {
      current_player_index := (current_player_index + 1) % |players|;
      votes := map[];
      question_count := 0;
    }
  }

  /**
   * The first lobby in `order` whose session has `user_id` among its players,
   * which is where the user's messages are taken to belong.
   */
  function FirstLobbyWith(order: seq<int>, games: map<int, Session>, user_id: int): (r: Option<int>)
    requires forall i :: 0 <= i < |order| ==> order[i] in games
    ensures r.None? <==> forall i :: 0 <= i < |order| ==> user_id !in games[order[i]].players
    ensures r.Some? ==> exists i :: && 0 <= i < |order| && order[i] == r.value
                                   && user_id in games[order[i]].players
                                   && forall j :: 0 <= j < i ==> user_id !in games[order[j]].players
  {
    if order == [] then None
    else if user_id in games[order[0]].players then
      Some(order[0])
    else
      var r := FirstLobbyWith(order[1..], games, user_id);
      if r.Some? then
        var i :| && 0 <= i < |order[1..]| && order[1..][i] == r.value
                 && user_id in games[order[1..][i]].players
                 && forall j :: 0 <= j < i ==> user_id !in games[order[1..][j]].players;
        assert order[i + 1] == r.value;
        assert forall j :: 1 <= j < i + 1 ==> order[j] == order[1..][j - 1];
        r
      else
        assert forall i :: 1 <= i < |order| ==> order[i] == order[1..][i - 1];
        r
  }

  /** The controller: the running sessions by lobby, in the order they were started. */
  class GameManager {
    var active_games: map<int, Session>
    var lobby_order: seq<int>

    /** Each running lobby is listed once, its session is its own object and is well formed. */
    ghost predicate Valid()
      reads this, active_games.Values
    {
      && Distinct(lobby_order)
      && (forall id :: id in lobby_order <==> id in active_games)
      && (forall i :: 0 <= i < |lobby_order| ==> lobby_order[i] in active_games)
      && (forall id :: id in active_games ==> active_games[id].lobby_id == id && active_games[id].Valid())
    }

    constructor ()
      ensures Valid() && active_games == map[] && lobby_order == []
    {
      active_games := map[];
      lobby_order := [];
    }

    /** The session of `lobby_id` as a set, empty when the lobby has none: what the handlers may change. */
    function SessionOf(lobby_id: int): set<object>
      reads this
    {
      if lobby_id in active_games then {active_games[lobby_id]} else {}
    }

    /**
     * Starts the session of a lobby whose players are `lobby_players` (None
     * when the lobby does not exist), dealing roles from `pool`. It fails, and
     * changes nothing, when the lobby does not exist or there are no roles.
     * Otherwise the new session replaces any old one of the lobby, the first
     * player has the turn, no question or ballot is pending, every player
     * holds a role from the pool, and with enough distinct roles no two
     * players share one.
     */
    method StartGameSession(lobby_id: int, lobby_players: Option<seq<int>>, pool: seq<string>) returns (ok: bool)
      requires Valid()
      requires lobby_players.Some? ==> |lobby_players.value| > 0
      modifies this
      ensures Valid()
      ensures ok <==> lobby_players.Some? && |pool| > 0
      ensures !ok ==> active_games == old(active_games) && lobby_order == old(lobby_order)
      ensures ok ==> && lobby_id in active_games && fresh(active_games[lobby_id])
                     && active_games == old(active_games)[lobby_id := active_games[lobby_id]]
      ensures ok ==> lobby_order == if lobby_id in old(active_games) then old(lobby_order) else old(lobby_order) + [lobby_id]
      ensures ok ==> var s := active_games[lobby_id];
                     && s.players == lobby_players.value
                     && s.current_player_index == 0 && s.question_count == 0
                     && s.votes == map[] && s.current_question == None
                     && (forall p :: p in s.roles <==> p in s.players)
                     && (forall i :: 0 <= i < |s.players| ==> s.players[i] in s.roles)
                     && (forall p :: p in s.roles ==> s.roles[p] in pool)
      ensures ok && Distinct(lobby_players.value) && Distinct(pool) && |lobby_players.value| <= |pool| ==>
                var s := active_games[lobby_id];
                forall i, j :: 0 <= i < j < |s.players| ==> s.roles[s.players[i]] != s.roles[s.players[j]]
    {
      if lobby_players.None? {
        return false;
      }
      var player_ids := lobby_players.value;
      var dealt := DistributionRoles(pool, |player_ids|);
      if dealt.Failure? {
        return false;
      }
      var shuffled: seq<string> :| multiset(shuffled) == multiset(dealt.value);
      assert |shuffled| == |player_ids| by {
        assert |multiset(shuffled)| == |multiset(dealt.value)|;
      }
      forall x | x in shuffled ensures x in pool {
        assert x in multiset(shuffled);
        assert x in dealt.value;
      }
      if Distinct(player_ids) && Distinct(pool) && |player_ids| <= |pool| {
        SubMultisetOfDistinct(shuffled, dealt.value);
        DistinctRolesPerPlayer(player_ids, shuffled);
      }
      var roles := ZipRoles(player_ids, shuffled);
      var s := new Session(lobby_id, player_ids, roles);
      active_games := active_games[lobby_id := s];
      if lobby_id !in lobby_order {
        lobby_order := lobby_order + [lobby_id];
      }
      return true;
    }

    /** Whose turn it is in `lobby_id`: None when the lobby has no session, otherwise one of its players. */
    function GetCurrentPlayer(lobby_id: int): (r: Option<int>)
      reads this, active_games.Values
      requires Valid()
      ensures r.None? <==> lobby_id !in active_games
      ensures r.Some? ==> r.value in active_games[lobby_id].players
      ensures r.Some? ==> r.value == active_games[lobby_id].players[active_games[lobby_id].current_player_index]
    {
      if lobby_id in active_games then Some(active_games[lobby_id].Current()) else None
    }

    /** Passes the turn in `lobby_id`, if it has a session; nothing else changes. */
    method NextPlayer(lobby_id: int)
      requires Valid()
      modifies SessionOf(lobby_id)
      ensures Valid()
      ensures lobby_id in active_games ==>
        var s := active_games[lobby_id];
        && s.current_player_index == SessionState.Advance(old(s.current_player_index), |s.players|)
        && s.votes == map[] && s.question_count == 0 && s.current_question == old(s.current_question)
    {
      if lobby_id in active_games {
        var s := active_games[lobby_id];
        s.NextPlayer();
      }
    }

    /** The lobby a user's messages belong to: the first running session, by start order, in which they play. */
    method FindLobby(user_id: int) returns (r: Option<int>)
      requires Valid()
      ensures r == FirstLobbyWith(lobby_order, active_games, user_id)
    {
      var i := 0;
      while i < |lobby_order|
        invariant 0 <= i <= |lobby_order|
        invariant FirstLobbyWith(lobby_order, active_games, user_id)
               == FirstLobbyWith(lobby_order[i..], active_games, user_id)
      {
        var lobby_id := lobby_order[i];
        assert lobby_order[i..] == [lobby_id] + lobby_order[i + 1..];
        if user_id in active_games[lobby_id].players {
          return Some(lobby_id);
        }
        i := i + 1;
      }
      return None;
    }

    /** Ends the session of `lobby_id`: it is removed from the running sessions; every other one stays. */
    method EndGame(lobby_id: int, winner_id: int, guessed: bool)
      requires Valid() && lobby_id in active_games
      modifies this
      ensures Valid()
      ensures active_games == old(active_games) - {lobby_id}
      ensures lobby_order == Without(old(lobby_order), lobby_id)
    {
      WithoutDistinct(lobby_order, lobby_id);
      active_games := active_games - {lobby_id};
      lobby_order := Without(lobby_order, lobby_id);
    }

    /**
     * Resolves a final guess of `user_id` in `lobby_id`: the guessed role,
     * normalised, is compared without regard to case with the user's role. A
     * match ends the game; a miss passes the turn.
     */
    method ProcessFinalGuess(lobby_id: int, user_id: int, guess: string) returns (reply: Reply)
      requires Valid() && lobby_id in active_games && user_id in active_games[lobby_id].roles
      modifies this, active_games[lobby_id]
      ensures Valid()
      ensures reply == GuessRight || reply == GuessWrong
      ensures reply == GuessRight <==> GuessMatches(GuessedRole(guess), old(active_games)[lobby_id].roles[user_id])
      ensures reply == GuessRight ==> && active_games == old(active_games) - {lobby_id}
                                       && lobby_order == Without(old(lobby_order), lobby_id)
                                       && unchanged(old(active_games[lobby_id]))
      ensures reply == GuessWrong ==>
        && active_games == old(active_games) && lobby_order == old(lobby_order)
        && var s := active_games[lobby_id];
           && s.current_player_index == SessionState.Advance(old(s.current_player_index), |s.players|)
           && s.votes == map[] && s.question_count == 0 && s.current_question == old(s.current_question)
    {
      var s := active_games[lobby_id];
      var guess_text := GuessedRole(guess);
      var actual_role := s.roles[user_id];
      if GuessMatches(guess_text, actual_role) {
        EndGame(lobby_id, user_id, true);
        return GuessRight;
      }
      NextPlayer(lobby_id);
      return GuessWrong;
    }

    /**
     * A message `text` from `user_id`. Nothing changes when the user plays in
     * no session or it is not their turn. A stripped text of the form
     * "я <role>!" is resolved as a final guess; any other text becomes the
     * pending question and counts one more question of this turn.
     */
    method AskQuestion(user_id: int, text: string) returns (reply: Reply)
      requires Valid()
      modifies this, (match FirstLobbyWith(lobby_order, active_games, user_id) case Some(l) => SessionOf(l) case None => {})
      ensures Valid()
      ensures FirstLobbyWith(old(lobby_order), old(active_games), user_id).None? ==>
        reply == NotInGame && active_games == old(active_games) && lobby_order == old(lobby_order)
      ensures FirstLobbyWith(old(lobby_order), old(active_games), user_id).Some? ==>
        var l := FirstLobbyWith(old(lobby_order), old(active_games), user_id).value;
        var s := old(active_games)[l];
        var question := Strip(text);
        && (old(s.Current()) != user_id ==>
              reply == NotYourTurn && active_games == old(active_games) && lobby_order == old(lobby_order)
              && unchanged(s))
        && (old(s.Current()) == user_id && IsFinalGuess(question) ==>
              && (reply == GuessRight <==> GuessMatches(GuessedRole(question), s.roles[user_id]))
              && (reply == GuessRight ==>
                    && active_games == old(active_games) - {l}
                    && lobby_order == Without(old(lobby_order), l)
                    && unchanged(s))
              && (reply != GuessRight ==>
                    && reply == GuessWrong && active_games == old(active_games) && lobby_order == old(lobby_order)
                    && s.current_player_index == SessionState.Advance(old(s.current_player_index), |s.players|)
                    && s.votes == map[] && s.question_count == 0 && s.current_question == old(s.current_question)))
        && (old(s.Current()) == user_id && !IsFinalGuess(question) ==>
              && reply == QuestionSent && active_games == old(active_games) && lobby_order == old(lobby_order)
              && s.current_question == Some(question) && s.question_count == old(s.question_count) + 1
              && s.current_player_index == old(s.current_player_index) && s.votes == old(s.votes))
    {
      var found := FindLobby(user_id);
      if found.None? {
        return NotInGame;
      }
      var lobby_id := found.value;
      var s := active_games[lobby_id];
      var current_player := GetCurrentPlayer(lobby_id);
      if current_player != Some(user_id) {
        return NotYourTurn;
      }
      var question := Strip(text);
      if IsFinalGuess(question) {
        reply := ProcessFinalGuess(lobby_id, user_id, question);
        return;
      }
      s.current_question := Some(question);
      s.question_count := s.question_count + 1;
      return QuestionSent;
    }

    /**
     * Announces the vote of `lobby_id` on its ballots. With no question ever
     * asked it stops before deciding anything. On a strict majority of "yes"
     * the asker keeps the turn and the ballots are cleared; otherwise, ties
     * included, the turn passes.
     */
    method AnnounceResults(lobby_id: int) returns (reply: Reply)
      requires Valid() && lobby_id in active_games
      modifies active_games[lobby_id]
      ensures Valid()
      ensures var s := active_games[lobby_id];
        && (old(s.current_question).None? ==> reply == QuestionMissing && unchanged(s))
        && (old(s.current_question).Some? && MajorityYes(Count(old(s.votes))) ==>
              && reply == QuestionPassed && s.votes == map[]
              && s.current_player_index == old(s.current_player_index)
              && s.question_count == old(s.question_count) && s.current_question == old(s.current_question))
        && (old(s.current_question).Some? && !MajorityYes(Count(old(s.votes))) ==>
              && reply == QuestionFailed && s.votes == map[]
              && s.current_player_index == SessionState.Advance(old(s.current_player_index), |s.players|)
              && s.question_count == 0 && s.current_question == old(s.current_question))
    {
      var s := active_games[lobby_id];
      var tally := Count(s.votes);
      if s.current_question.None? {
        return QuestionMissing;
      }
      if tally.yes > tally.no {
        s.votes := map[];
        return QuestionPassed;
      }
      NextPlayer(lobby_id);
      return QuestionFailed;
    }

    /**
     * A ballot `vote` from `user_id` on the question pending in `lobby_id`.
     * The asker's own ballot is refused. Any other ballot is stored under the
     * voter, replacing an earlier one, and the vote is announced exactly when
     * the number of voters equals the number of players other than the asker.
     */
    method ProcessVote(lobby_id: int, user_id: int, vote: string) returns (reply: Reply)
      requires Valid()
      modifies SessionOf(lobby_id)
      ensures Valid()
      ensures lobby_id !in active_games ==> reply == GameNotFound
      ensures lobby_id in active_games ==>
        var s := active_games[lobby_id];
        var ballots := old(s.votes)[user_id := vote];
        && (user_id == old(s.Current()) ==> reply == OwnVote && unchanged(s))
        && (user_id != old(s.Current()) && |ballots| != |s.players| - 1 ==>
              && reply == VoteRecorded && s.votes == ballots
              && s.current_player_index == old(s.current_player_index)
              && s.question_count == old(s.question_count) && s.current_question == old(s.current_question))
        && (user_id != old(s.Current()) && |ballots| == |s.players| - 1 ==>
              && s.current_question == old(s.current_question)
              && (old(s.current_question).None? ==>
                    && reply == QuestionMissing && s.votes == ballots
                    && s.current_player_index == old(s.current_player_index)
                    && s.question_count == old(s.question_count))
              && (old(s.current_question).Some? && MajorityYes(Count(ballots)) ==>
                    && reply == QuestionPassed && s.votes == map[]
                    && s.current_player_index == old(s.current_player_index)
                    && s.question_count == old(s.question_count))
              && (old(s.current_question).Some? && !MajorityYes(Count(ballots)) ==>
                    && reply == QuestionFailed && s.votes == map[] && s.question_count == 0
                    && s.current_player_index == SessionState.Advance(old(s.current_player_index), |s.players|)))
    {
      if lobby_id !in active_games {
        return GameNotFound;
      }
      var s := active_games[lobby_id];
      var current_player := GetCurrentPlayer(lobby_id);
      if current_player == Some(user_id) {
        return OwnVote;
      }
      s.votes := s.votes[user_id := vote];
      var total_players := |s.players| - 1;
      if |s.votes| == total_players {
        reply := AnnounceResults(lobby_id);
        return;
      }
      return VoteRecorded;
    }
  }
}
