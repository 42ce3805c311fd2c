/**
 * Dealing roles to the players of a new session (`distribution_roles` in
 * game/game_logic.py): the loaded roles are repeated when there are fewer of
 * them than players, and then `num_players` of them are drawn without
 * replacement. The draw is random, so it is modelled as an arbitrary choice
 * satisfying what `random.sample` guarantees.
 */
module RoleAssignment {
  import opened Wrappers
  import opened Seqs

  /** Why no roles could be dealt: there are players but no roles (a division by zero). */
  datatype RoleError = NoRoles

  /** When `pool` is repeated `n / |pool| + 1` times it has more than `n` entries. */
  lemma TilingCovers(p: nat, n: nat)
    requires p > 0
    ensures p * (n / p + 1) > n
  {
    var q := n / p;
    assert n == p * q + n % p;
    assert p * (q + 1) == p * q + p;
  }

  /** A role occurs in `pool` repeated `k > 0` times exactly when it occurs in `pool`. */
  lemma RepeatMembers(pool: seq<string>, k: nat, x: string)
    requires k > 0
    ensures x in Repeat(pool, k) <==> x in pool
  {
    RepeatMultiplicity(pool, k, x);
    var m := multiset(pool)[x];
    assert x in pool <==> m > 0;
    assert m > 0 ==> k * m > 0;
  }

  /**
   * The roles the draw is made from: the loaded roles themselves, or, when
   * there are fewer than `n`, that list written out `n / |pool| + 1` times.
   * Defined whenever no role is needed or some role exists.
   */
  function Tiled(pool: seq<string>, n: nat): (t: seq<string>)
    requires |pool| > 0 || n == 0
    ensures |t| >= n
    ensures forall x :: x in t <==> x in pool
  {
    if |pool| < n then
      TilingCovers(|pool|, n);
      forall x ensures x in Repeat(pool, n / |pool| + 1) <==> x in pool {
        RepeatMembers(pool, n / |pool| + 1, x);
      }
      Repeat(pool, n / |pool| + 1)
    else
      pool
  }

  /** Every role occurs in the tiled pool at most `n / |pool| + 1` times as often as in the loaded roles. */
  lemma TiledMultiplicity(pool: seq<string>, n: nat, x: string)
    requires |pool| > 0
    ensures multiset(Tiled(pool, n))[x] <= (n / |pool| + 1) * multiset(pool)[x]
  {
    var k := n / |pool| + 1;
    var m := multiset(pool)[x];
    if |pool| < n {
      RepeatMultiplicity(pool, k, x);
    } else {
      assert m <= k * m;
    }
  }

  /** `num_players` entries of `t` drawn without replacement always exist when `t` is long enough. */
  lemma PrefixIsDraw(t: seq<string>, n: nat)
    requires n <= |t|
    ensures multiset(t[..n]) <= multiset(t)
  {
    assert t == t[..n] + t[n..];
  }

  /**
   * The roles dealt to `num_players` players from the loaded roles `pool`.
   * It fails exactly when players need roles and none were loaded. Otherwise
   * every player gets a loaded role, no entry of the tiled pool is dealt
   * twice, no role is dealt more often than the tiling allows, and when
   * enough roles were loaded no repetition is needed at all, so a list of
   * distinct roles gives every player a different role.
   */
  method DistributionRoles(pool: seq<string>, num_players: nat) returns (r: Result<seq<string>, RoleError>)
    ensures r.Failure? <==> |pool| == 0 && num_players > 0
    ensures r.Success? ==> |r.value| == num_players
    ensures r.Success? ==> multiset(r.value) <= multiset(Tiled(pool, num_players))
    ensures r.Success? ==> forall x :: x in r.value ==> x in pool
    ensures r.Success? && |pool| > 0 ==>
      forall x :: multiset(r.value)[x] <= (num_players / |pool| + 1) * multiset(pool)[x]
    ensures r.Success? && num_players <= |pool| ==> multiset(r.value) <= multiset(pool)
    ensures r.Success? && num_players <= |pool| && Distinct(pool) ==> Distinct(r.value)
  {
    if |pool| < num_players && |pool| == 0 {
      return Failure(NoRoles);
    }
    var all_roles := Tiled(pool, num_players);
    PrefixIsDraw(all_roles, num_players);
    var selected: seq<string> :| |selected| == num_players && multiset(selected) <= multiset(all_roles);
    forall x | x in selected ensures x in pool {
      assert x in multiset(selected);
    }
    if |pool| > 0 {
      forall x ensures multiset(selected)[x] <= (num_players / |pool| + 1) * multiset(pool)[x] {
        TiledMultiplicity(pool, num_players, x);
      }
    }
    if num_players <= |pool| && Distinct(pool) {
      SubMultisetOfDistinct(selected, pool);
    }
    return Success(selected);
  }
}
