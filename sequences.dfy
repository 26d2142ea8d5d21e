/** Sequence facts behind the list operations the editor uses: `List.Remove`,
    which drops one occurrence, and `string.Contains`, an ordinal substring test. */
module Sequences {

  /** No element occurs twice. */
  ghost predicate Distinct<T>(s: seq<T>) {
    forall i, j :: 0 <= i < j < |s| ==> Apart(s, i, j)
  }

  /** The entries at `i` and `j` differ. Kept apart from `Distinct` so that the
      pairwise facts are only drawn where a proof asks for them. */
  ghost predicate Apart<T>(s: seq<T>, i: int, j: int)
    requires 0 <= i < |s| && 0 <= j < |s|
  {
    s[i] != s[j]
  }

  /** Two different positions of a sequence without repetitions hold
      different entries. */
  lemma DistinctAt<T>(s: seq<T>, i: int, j: int)
    requires Distinct(s) && 0 <= i < |s| && 0 <= j < |s| && i != j
    ensures s[i] != s[j]
  {
    if i < j {
      assert Apart(s, i, j);
    } else {
      assert Apart(s, j, i);
    }
  }

  /** The entry at `i` of a sequence without repetitions is at no other
      position. */
  lemma NoOtherPosition<T>(s: seq<T>, i: int)
    requires Distinct(s) && 0 <= i < |s|
    ensures forall k :: 0 <= k < |s| && k != i ==> s[k] != s[i]
  {
    forall k | 0 <= k < |s| && k != i ensures s[k] != s[i] {
      DistinctAt(s, k, i);
    }
  }

  /** Appending an element that is not yet there keeps the sequence without
      repetitions. */
  lemma AppendKeepsDistinct<T>(s: seq<T>, x: T)
    requires Distinct(s) && x !in s
    ensures Distinct(s + [x])
  {
    var r := s + [x];
    forall i, j | 0 <= i < j < |r| ensures Apart(r, i, j) {
      if j < |s| {
        DistinctAt(s, i, j);
      } else {
        assert r[i] == s[i];
      }
    }
  }

  /** `List<T>.Remove(x)`: drops the first occurrence of `x`, if there is one. */
  function RemoveFirst<T(==)>(s: seq<T>, x: T): (r: seq<T>)
    ensures x in s ==> |r| == |s| - 1
    ensures x !in s ==> r == s
  {
    if s == [] then []
    else if s[0] == x then s[1..]
    else [s[0]] + RemoveFirst(s[1..], x)
  }

  /** `RemoveFirst` takes away exactly one occurrence of `x`, if there is one. */
  lemma {:induction false} RemoveFirstMultiset<T>(s: seq<T>, x: T)
    ensures multiset(RemoveFirst(s, x)) == multiset(s) - multiset{x}
  {
    if s != [] {
      assert s == [s[0]] + s[1..];
      if s[0] != x {
        RemoveFirstMultiset(s[1..], x);
      }
    }
  }

  /** Index of the first occurrence of `x`. */
  function FirstIndex<T(==)>(s: seq<T>, x: T): (k: nat)
    requires x in s
    ensures k < |s| && s[k] == x && x !in s[..k]
  {
    if s[0] == x then 0
    else
      var k := FirstIndex(s[1..], x);
      assert s[..k + 1] == [s[0]] + s[1..][..k];
      k + 1
  }

  /** `RemoveFirst` cuts out exactly the first occurrence and keeps every other
      element in its order. */
  lemma {:induction false} RemoveFirstCutsFirst<T>(s: seq<T>, x: T)
    requires x in s
    ensures RemoveFirst(s, x) == s[..FirstIndex(s, x)] + s[FirstIndex(s, x) + 1..]
  {
    if s[0] != x {
      RemoveFirstCutsFirst(s[1..], x);
      var k := FirstIndex(s[1..], x);
      assert FirstIndex(s, x) == k + 1;
      assert RemoveFirst(s, x) == [s[0]] + (s[1..][..k] + s[1..][k + 1..]);
      assert s[..k + 1] == [s[0]] + s[1..][..k];
      assert s[k + 2..] == s[1..][k + 1..];
    }
  }

  /** In a sequence without repetitions, removing the element at index `k` by
      value is removing position `k`. */
  lemma RemoveFirstAtIndex<T>(s: seq<T>, k: nat)
    requires Distinct(s) && k < |s|
    ensures RemoveFirst(s, s[k]) == s[..k] + s[k + 1..]
  {
    assert FirstIndex(s, s[k]) == k by {
      var f := FirstIndex(s, s[k]);
      if f != k {
        DistinctAt(s, f, k);
      }
    }
    RemoveFirstCutsFirst(s, s[k]);
  }

  /** Removing an element never introduces a repetition. */
  lemma RemoveFirstKeepsDistinct<T>(s: seq<T>, x: T)
    requires Distinct(s)
    ensures Distinct(RemoveFirst(s, x))
  {
    var r := RemoveFirst(s, x);
    RemoveFirstMultiset(s, x);
    forall y ensures multiset(r)[y] <= 1 {
      DistinctOccursOnce(s, y);
    }
    OnceIsDistinct(r);
  }

  /** Every element of the result was in the input, and only `x` can go. */
  lemma RemoveFirstMembers<T>(s: seq<T>, x: T, y: T)
    ensures y in RemoveFirst(s, x) ==> y in s
    ensures y in s && y != x ==> y in RemoveFirst(s, x)
  {
    assert y in s <==> multiset(s)[y] > 0;
    assert y in RemoveFirst(s, x) <==> multiset(RemoveFirst(s, x))[y] > 0;
  }

  /** A single `Remove` leaves no occurrence of `x` exactly when `x` occurred
      at most once. */
  lemma {:induction false} RemoveFirstLeavesNone<T>(s: seq<T>, x: T)
    ensures x !in RemoveFirst(s, x) <==> multiset(s)[x] <= 1
  {
    RemoveFirstMultiset(s, x);
    assert x in RemoveFirst(s, x) <==> multiset(RemoveFirst(s, x))[x] > 0;
  }

  /** Without repetitions, every element occurs once. */
  lemma {:induction false} DistinctOccursOnce<T>(s: seq<T>, x: T)
    requires Distinct(s)
    ensures multiset(s)[x] <= 1
  {
    if s != [] {
      assert Distinct(s[1..]) by {
        forall i, j | 0 <= i < j < |s[1..]| ensures Apart(s[1..], i, j) {
          assert s[1..][i] == s[i + 1] && s[1..][j] == s[j + 1];
          DistinctAt(s, i + 1, j + 1);
        }
      }
      DistinctOccursOnce(s[1..], x);
      assert s == [s[0]] + s[1..];
      if s[0] == x {
        assert x !in s[1..] by {
          forall j | 0 <= j < |s[1..]| ensures s[1..][j] != x {
            assert s[1..][j] == s[j + 1];
            DistinctAt(s, 0, j + 1);
          }
        }
      }
    }
  }

  /** Two equal entries at different positions count twice. */
  lemma RepeatCountsTwice<T>(r: seq<T>, i: nat, j: nat)
    requires i < j < |r| && r[i] == r[j]
    ensures multiset(r)[r[i]] >= 2
  {
    assert r == r[..j] + r[j..];
    assert r[i] in r[..j];
    assert r[j] == r[j..][0];
  }

  /** A sequence in which no element counts twice has no repetitions. */
  lemma OnceIsDistinct<T>(r: seq<T>)
    requires forall y :: multiset(r)[y] <= 1
    ensures Distinct(r)
  {
    forall i, j | 0 <= i < j < |r| ensures Apart(r, i, j) {
      if r[i] == r[j] {
        RepeatCountsTwice(r, i, j);
      }
    }
  }

  /** A permutation of a sequence without repetitions has none either. */
  lemma PermutationKeepsDistinct<T>(s: seq<T>, r: seq<T>)
    requires Distinct(s) && multiset(r) == multiset(s)
    ensures Distinct(r)
  {
    forall y ensures multiset(r)[y] <= 1 {
      DistinctOccursOnce(s, y);
    }
    OnceIsDistinct(r);
  }

  /** `t` occurs in `s` starting at index `i`. */
  predicate OccursAt(s: string, t: string, i: int) {
    0 <= i <= |s| - |t| && s[i..i + |t|] == t
  }

  /** `string.Contains(t)`: ordinal substring test. */
  predicate Contains(s: string, t: string) {
    exists i | 0 <= i <= |s| - |t| :: OccursAt(s, t, i)
  }
}
