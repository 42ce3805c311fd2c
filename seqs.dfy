/**
 * Facts about sequences used as the key order of Python dicts and lists:
 * distinctness, the position of an element (`list.index`), deletion of a key
 * (`del d[k]`), and repetition (`list * k`).
 */
module Seqs {

  /** No element occurs twice (the keys of a dict, in insertion order). */
  predicate Distinct<T(==)>(s: seq<T>) {
    forall i, j :: 0 <= i < j < |s| ==> s[i] != s[j]
  }

  /** Position of the first occurrence of `x`, as Python's `list.index`. */
  function IndexOf(s: seq<int>, x: int): (i: nat)
    requires x in s
    ensures i < |s| && s[i] == x
    ensures forall j :: 0 <= j < i ==> s[j] != x
  {
    if s[0] == x then 0 else 1 + IndexOf(s[1..], x)
  }

  /** In a sequence without repetitions, the element at `i` is found at `i`. */
  lemma IndexOfDistinct(s: seq<int>, i: nat)
    requires Distinct(s) && i < |s|
    ensures IndexOf(s, s[i]) == i
  {
  }

  /** `s` with every occurrence of `x` deleted, all other elements kept in their order. */
  function Without(s: seq<int>, x: int): (r: seq<int>)
    ensures forall y :: y in r <==> y in s && y != x
    ensures |r| <= |s|
  {
    if s == [] then [] else (if s[0] == x then [] else [s[0]]) + Without(s[1..], x)
  }

  /**
   * Deleting an element of a sequence without repetitions removes exactly the
   * one position where it stands: what precedes it and what follows it are kept
   * as they were.
   */
  lemma {:induction false} WithoutIsDeletion(s: seq<int>, x: int)
    requires Distinct(s) && x in s
    ensures Without(s, x) == s[..IndexOf(s, x)] + s[IndexOf(s, x) + 1..]
  {
    if s[0] != x {
      WithoutIsDeletion(s[1..], x);
      assert s[1..][..IndexOf(s[1..], x)] + s[1..][IndexOf(s[1..], x) + 1..]
        == s[1..IndexOf(s, x)] + s[IndexOf(s, x) + 1..];
      assert [s[0]] + s[1..IndexOf(s, x)] == s[..IndexOf(s, x)];
    } else {
      assert forall y :: y in s[1..] ==> y != x;
      WithoutAbsent(s[1..], x);
    }
  }

  /** Deleting an element that does not occur changes nothing. */
  lemma {:induction false} WithoutAbsent(s: seq<int>, x: int)
    requires x !in s
    ensures Without(s, x) == s
  {
    if s != [] {
      WithoutAbsent(s[1..], x);
      assert [s[0]] + s[1..] == s;
    }
  }

  /** Deletion keeps a sequence free of repetitions and shortens it by exactly one. */
  lemma WithoutDistinct(s: seq<int>, x: int)
    requires Distinct(s) && x in s
    ensures Distinct(Without(s, x))
    ensures |Without(s, x)| == |s| - 1
  {
    WithoutIsDeletion(s, x);
    var i := IndexOf(s, x);
    var r := Without(s, x);
    forall a, b | 0 <= a < b < |r| ensures r[a] != r[b] {
      var a' := if a < i then a else a + 1;
      var b' := if b < i then b else b + 1;
      assert r[a] == s[a'] && r[b] == s[b'];
    }
  }

  /** After deleting `x`, an element behind `x` moves up one place; one before it stays. */
  lemma WithoutIndex(s: seq<int>, x: int, a: int)
    requires Distinct(s) && x in s && a in s && a != x
    ensures a in Without(s, x)
    ensures IndexOf(Without(s, x), a)
      == if IndexOf(s, a) < IndexOf(s, x) then IndexOf(s, a) else IndexOf(s, a) - 1
  {
    WithoutIsDeletion(s, x);
    WithoutDistinct(s, x);
    var i, ia := IndexOf(s, x), IndexOf(s, a);
    var r := Without(s, x);
    var ra := if ia < i then ia else ia - 1;
    assert ia != i;
    if ia < i {
      assert r[ra] == s[..i][ia];
    } else {
      assert r[ra] == s[i + 1..][ia - 1 - i];
    }
    IndexOfDistinct(r, ra);
  }

  /**
   * Deletion keeps the relative order of the remaining elements: whoever came
   * before whom still does.
   */
  lemma WithoutKeepsOrder(s: seq<int>, x: int, a: int, b: int)
    requires Distinct(s) && x in s
    requires a in s && b in s && a != x && b != x
    ensures IndexOf(Without(s, x), a) < IndexOf(Without(s, x), b) <==> IndexOf(s, a) < IndexOf(s, b)
  {
    WithoutIndex(s, x, a);
    WithoutIndex(s, x, b);
  }

  /** A sequence without repetitions has as many elements as the set it enumerates. */
  lemma {:induction false} DistinctSize<T>(s: seq<T>, keys: set<T>)
    requires Distinct(s)
    requires forall x :: x in s <==> x in keys
    ensures |keys| == |s|
  {
    if s != [] {
      var rest := keys - {s[0]};
      assert forall x :: x in s[1..] <==> x in rest by {
        forall x ensures x in s[1..] <==> x in rest {
          if x in s[1..] {
            var k :| 1 <= k < |s| && s[k] == x;
            assert s[0] != s[k];
          }
          if x in rest {
            var k :| 0 <= k < |s| && s[k] == x;
            assert k != 0;
            assert s[1..][k - 1] == x;
          }
        }
      }
      DistinctSize(s[1..], rest);
    }
  }

  /** In a sequence without repetitions, every element has multiplicity at most one. */
  lemma {:induction false} DistinctMultiplicity<T>(s: seq<T>, x: T)
    requires Distinct(s)
    ensures multiset(s)[x] <= 1
  {
    if s != [] {
      assert s == [s[0]] + s[1..];
      DistinctMultiplicity(s[1..], x);
      if s[0] == x {
        assert x !in s[1..];
      }
    }
  }

  /** Anything drawn without replacement from a sequence without repetitions has none either. */
  lemma SubMultisetOfDistinct<T>(r: seq<T>, s: seq<T>)
    requires Distinct(s)
    requires multiset(r) <= multiset(s)
    ensures Distinct(r)
  {
    forall i, j | 0 <= i < j < |r| ensures r[i] != r[j] {
      if r[i] == r[j] {
        var x := r[i];
        assert r == r[..j] + [r[j]] + r[j + 1..];
        assert x in multiset(r[..j]);
        assert multiset(r)[x] >= 2;
        DistinctMultiplicity(s, x);
        assert false;
      }
    }
  }

  /** `s * k` in Python: `s` written out `k` times. */
  function Repeat<T>(s: seq<T>, k: nat): (r: seq<T>)
    ensures |r| == k * |s|
  {
    if k == 0 then [] else Repeat(s, k - 1) + s
  }

  /** Every element appears `k` times as often in `s * k` as in `s`. */
  lemma {:induction false} RepeatMultiplicity<T>(s: seq<T>, k: nat, x: T)
    ensures multiset(Repeat(s, k))[x] == k * multiset(s)[x]
  {
    if k > 0 {
      RepeatMultiplicity(s, k - 1, x);
      assert multiset(Repeat(s, k)) == multiset(Repeat(s, k - 1)) + multiset(s);
      var m := multiset(s)[x];
      assert k * m == (k - 1) * m + m;
    }
  }
}
