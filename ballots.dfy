/**
 * The yes/no tally of one question's ballots. Both session implementations
 * count the same way: a ballot counts as "yes" when it is exactly the string
 * "yes", and every other ballot counts as "no".
 */
module Ballots {

  /** The counts reported for one question. */
  datatype Tally = Tally(yes: nat, no: nat)

  /** Voters whose ballot is exactly "yes". */
  function YesVoters(votes: map<int, string>): set<int> {
    set v | v in votes && votes[v] == "yes"
  }

  /** Voters whose ballot is anything else. */
  function OtherVoters(votes: map<int, string>): set<int> {
    set v | v in votes && votes[v] != "yes"
  }

  /** Every voter is on exactly one side of the tally. */
  lemma PartitionSize(votes: map<int, string>)
    ensures |YesVoters(votes)| + |OtherVoters(votes)| == |votes|
  {
    assert votes.Keys == YesVoters(votes) + OtherVoters(votes);
    assert YesVoters(votes) !! OtherVoters(votes);
  }

  /** The tally of a ballot map: "yes" ballots on one side, all others on the other. */
  function Count(votes: map<int, string>): (t: Tally)
    ensures t.yes == |YesVoters(votes)|
    ensures t.no == |OtherVoters(votes)|
    ensures t.yes + t.no == |votes|
  {
    PartitionSize(votes);
    Tally(|YesVoters(votes)|, |votes| - |YesVoters(votes)|)
  }

  /** The resolution rule: a question passes only on a strict majority of "yes". */
  predicate MajorityYes(t: Tally) {
    t.yes > t.no
  }

  /**
   * A question passes exactly when more than half of the ballots are "yes";
   * in particular a tie does not pass, and with no ballots at all nothing passes.
   */
  lemma MajorityYesMeansMoreThanHalf(votes: map<int, string>)
    ensures MajorityYes(Count(votes)) <==> 2 * |YesVoters(votes)| > |votes|
    ensures Count(votes).yes == Count(votes).no ==> !MajorityYes(Count(votes))
    ensures |votes| == 0 ==> !MajorityYes(Count(votes))
  {
  }

  /** The "yes" side after one ballot: the voter leaves it, and rejoins it when the new ballot is "yes". */
  lemma YesVotersAfterBallot(votes: map<int, string>, voter: int, ballot: string)
    ensures YesVoters(votes[voter := ballot])
      == (YesVoters(votes) - {voter}) + (if ballot == "yes" then {voter} else {})
  {
    var after := votes[voter := ballot];
    forall v ensures v in YesVoters(after) <==> v in (YesVoters(votes) - {voter}) + (if ballot == "yes" then {voter} else {}) {
      if v != voter {
        assert (v in after) == (v in votes);
        assert v in after ==> after[v] == votes[v];
      }
    }
  }

  /** The number of "yes" voters after one ballot. */
  lemma YesCountAfterBallot(votes: map<int, string>, voter: int, ballot: string)
    ensures |YesVoters(votes[voter := ballot])|
      == |YesVoters(votes)|
         - (if voter in votes && votes[voter] == "yes" then 1 else 0)
         + (if ballot == "yes" then 1 else 0)
  {
    YesVotersAfterBallot(votes, voter, ballot);
    var rest := YesVoters(votes) - {voter};
    if voter in votes && votes[voter] == "yes" {
      assert YesVoters(votes) == rest + {voter};
    } else {
      assert YesVoters(votes) == rest;
    }
  }

  /** The number of ballots after one ballot. */
  lemma SizeAfterBallot(votes: map<int, string>, voter: int, ballot: string)
    ensures |votes[voter := ballot]| == |votes| + (if voter in votes then 0 else 1)
  {
    if voter in votes {
      assert votes[voter := ballot].Keys == votes.Keys;
    } else {
      assert votes[voter := ballot].Keys == votes.Keys + {voter};
    }
  }

  /**
   * Recording one ballot moves the tally by exactly that ballot: an earlier
   * ballot of the same voter is withdrawn, the new one is added, and the total
   * grows only when the voter is new.
   */
  lemma CountAfterBallot(votes: map<int, string>, voter: int, ballot: string)
    ensures Count(votes[voter := ballot]).yes
      == Count(votes).yes
         - (if voter in votes && votes[voter] == "yes" then 1 else 0)
         + (if ballot == "yes" then 1 else 0)
    ensures Count(votes[voter := ballot]).yes + Count(votes[voter := ballot]).no
      == |votes| + (if voter in votes then 0 else 1)
  {
    YesCountAfterBallot(votes, voter, ballot);
    SizeAfterBallot(votes, voter, ballot);
  }
}
