/**
  Permutations of tile indices.

  A draw order, and the index choice behind the initial shuffle, are both
  arrangements of the tile indices 0 .. n-1 with each index exactly once.
  This module defines that notion once, as multiset equality with the
  identity order, and derives the facts the rest of the model relies on:
  the length is n, every entry is below n, no entry repeats and no index
  is missing.
 */
module Permutations {

  /** The identity order 0, 1, ..., n-1 (Python's `list(range(n))`). */
  function Iota(n: nat): (r: seq<nat>)
    ensures |r| == n
    ensures forall i :: 0 <= i < n ==> r[i] == i
  {
    seq(n, i => i)
  }

  /** `s` holds each of 0 .. n-1 exactly once, in some order. */
  predicate IsPermutation(s: seq<nat>, n: nat) {
    multiset(s) == multiset(Iota(n))
  }

  /** No value occurs twice in `s`. */
  predicate Distinct<T(==)>(s: seq<T>) {
    forall i, j :: 0 <= i < j < |s| ==> s[i] != s[j]
  }

  /** In a sequence without repetitions every value occurs at most once. */
  lemma {:induction false} DistinctAtMostOnce<T>(s: seq<T>, v: T)
    requires Distinct(s)
    ensures multiset(s)[v] <= 1
  {
    if s != [] {
      assert s == [s[0]] + s[1..];
      assert Distinct(s[1..]) by {
        forall i, j | 0 <= i < j < |s[1..]|
          ensures s[1..][i] != s[1..][j]
        {
          assert s[1..][i] == s[i + 1] && s[1..][j] == s[j + 1];
        }
      }
      DistinctAtMostOnce(s[1..], v);
      if s[0] == v {
        assert v !in s[1..] by {
          forall k | 0 <= k < |s[1..]| ensures s[1..][k] != v {
            assert s[1..][k] == s[k + 1];
          }
        }
      }
    }
  }

  /** A value at two different positions occurs at least twice. */
  lemma RepeatedTwice<T>(s: seq<T>, i: nat, j: nat)
    requires i < j < |s| && s[i] == s[j]
    ensures multiset(s)[s[i]] >= 2
  {
    assert s == s[..i] + [s[i]] + s[i + 1..j] + [s[j]] + s[j + 1..];
  }

  lemma IotaDistinct(n: nat)
    ensures Distinct(Iota(n))
  {
  }

  /**
    What "permutation of 0 .. n-1" means index by index: the right length,
    every entry a valid index, no entry twice, and no index left out.
   */
  lemma {:induction false} PermutationFacts(s: seq<nat>, n: nat)
    requires IsPermutation(s, n)
    ensures |s| == n
    ensures forall i :: 0 <= i < |s| ==> s[i] < n
    ensures Distinct(s)
    ensures forall k :: 0 <= k < n ==> k in s
  {
    assert |multiset(s)| == |s|;
    assert |multiset(Iota(n))| == n;
    forall i | 0 <= i < |s| ensures s[i] < n {
      assert s[i] in multiset(s);
      assert s[i] in multiset(Iota(n));
      assert s[i] in Iota(n);
    }
    forall i, j | 0 <= i < j < |s| ensures s[i] != s[j] {
      if s[i] == s[j] {
        RepeatedTwice(s, i, j);
        IotaDistinct(n);
        DistinctAtMostOnce(Iota(n), s[i]);
        assert false;
      }
    }
    forall k | 0 <= k < n ensures k in s {
      assert Iota(n)[k] == k;
      assert k in multiset(Iota(n));
      assert k in multiset(s);
    }
  }

  /**
    The elements of `population` picked out by the indices in `picks`, in
    the order of `picks`; with `picks` a permutation this is the result of
    Python's `random.sample(population, len(population))` for the index
    choice the random generator happened to make.
   */
  function Gather<T>(population: seq<T>, picks: seq<nat>): (r: seq<T>)
    requires forall i :: 0 <= i < |picks| ==> picks[i] < |population|
    ensures |r| == |picks|
    ensures forall i :: 0 <= i < |picks| ==> r[i] == population[picks[i]]
  {
    if picks == [] then []
    else [population[picks[0]]] + Gather(population, picks[1..])
  }

  /** Renumbers the indices that remain after index `m` is removed. */
  function CloseGap(picks: seq<nat>, m: nat): (r: seq<nat>)
    requires forall i :: 0 <= i < |picks| ==> picks[i] != m
    ensures |r| == |picks|
    ensures forall i :: 0 <= i < |picks| ==>
      r[i] == (if picks[i] < m then picks[i] else picks[i] - 1)
  {
    seq(|picks|, i requires 0 <= i < |picks| => if picks[i] < m then picks[i] else picks[i] - 1)
  }

  /**
    Sampling every element of a population by a permutation of its
    indices yields the same multiset of elements: the shuffle neither
    loses nor duplicates anything.
   */
  lemma {:induction false} GatherIsPermutation<T>(population: seq<T>, picks: seq<nat>)
    requires IsPermutation(picks, |population|)
    ensures forall i :: 0 <= i < |picks| ==> picks[i] < |population|
    ensures multiset(Gather(population, picks)) == multiset(population)
  {
    PermutationFacts(picks, |population|);
    GatherDistinct(population, picks);
  }

  lemma {:induction false} GatherDistinct<T>(population: seq<T>, picks: seq<nat>)
    requires |picks| == |population|
    requires forall i :: 0 <= i < |picks| ==> picks[i] < |population|
    requires Distinct(picks)
    ensures multiset(Gather(population, picks)) == multiset(population)
    decreases |picks|
  {
    if picks != [] {
      var m := picks[0];
      var rest := population[..m] + population[m + 1..];
      var renumbered := RenumberTail(picks);
      GatherDistinct(rest, renumbered);
      GatherAfterRemoval(population, picks, renumbered);
      RemoveOne(population, m);
      GatherFirst(population, picks);
    }
  }

  lemma RemoveOne<T>(s: seq<T>, m: nat)
    requires m < |s|
    ensures multiset(s) == multiset(s[..m] + s[m + 1..]) + multiset{s[m]}
  {
    assert s == s[..m] + [s[m]] + s[m + 1..];
  }

  lemma GatherFirst<T>(population: seq<T>, picks: seq<nat>)
    requires picks != []
    requires forall i :: 0 <= i < |picks| ==> picks[i] < |population|
    ensures multiset(Gather(population, picks))
         == multiset{population[picks[0]]} + multiset(Gather(population, picks[1..]))
  {
  }

  /**
    Once the first pick `m` is taken, the remaining picks, renumbered for a
    population without element `m`, are again distinct and in range.
   */
  lemma RenumberTail(picks: seq<nat>) returns (renumbered: seq<nat>)
    requires picks != []
    requires forall i :: 0 <= i < |picks| ==> picks[i] < |picks|
    requires Distinct(picks)
    ensures forall i :: 1 <= i < |picks| ==> picks[i] != picks[0]
    ensures |renumbered| == |picks| - 1
    ensures forall i :: 0 <= i < |renumbered| ==>
      renumbered[i] == (if picks[i + 1] < picks[0] then picks[i + 1] else picks[i + 1] - 1)
    ensures forall i :: 0 <= i < |renumbered| ==> renumbered[i] < |picks| - 1
    ensures Distinct(renumbered)
  {
    var m := picks[0];
    var tail := picks[1..];
    forall i | 0 <= i < |tail| ensures tail[i] != m {
      assert tail[i] == picks[i + 1];
    }
    renumbered := CloseGap(tail, m);
    forall i | 0 <= i < |renumbered| ensures renumbered[i] < |picks| - 1 {
      assert tail[i] == picks[i + 1];
    }
    forall i, j | 0 <= i < j < |renumbered| ensures renumbered[i] != renumbered[j] {
      assert tail[i] == picks[i + 1] && tail[j] == picks[j + 1];
    }
  }

  /** Removing element `picks[0]` and renumbering leaves the later picks' elements unchanged. */
  lemma GatherAfterRemoval<T>(population: seq<T>, picks: seq<nat>, renumbered: seq<nat>)
    requires picks != [] && |picks| == |population|
    requires forall i :: 0 <= i < |picks| ==> picks[i] < |population|
    requires |renumbered| == |picks| - 1
    requires forall i :: 1 <= i < |picks| ==> picks[i] != picks[0]
    requires forall i :: 0 <= i < |renumbered| ==>
      renumbered[i] == (if picks[i + 1] < picks[0] then picks[i + 1] else picks[i + 1] - 1)
    ensures forall i :: 0 <= i < |renumbered| ==> renumbered[i] < |population| - 1
    ensures Gather(population[..picks[0]] + population[picks[0] + 1..], renumbered)
         == Gather(population, picks[1..])
  {
    var m := picks[0];
    var rest := population[..m] + population[m + 1..];
    var tail := picks[1..];
    forall i | 0 <= i < |renumbered| ensures renumbered[i] < |population| - 1 {
      assert tail[i] == picks[i + 1];
    }
    forall i | 0 <= i < |tail|
      ensures Gather(rest, renumbered)[i] == Gather(population, tail)[i]
    {
      var p := tail[i];
      assert p == picks[i + 1];
      if p < m {
        assert rest[p] == population[p];
      } else {
        assert rest[p - 1] == population[p];
      }
    }
  }
}
