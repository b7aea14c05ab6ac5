/**
 * An argsort: the positions `0 .. |keys| - 1` listed so that their keys
 * are ascending. The converter sorts the negated per-row counts with it.
 */
module Sorting {

  /** `order` lists positions of `keys` whose keys never decrease along it. */
  ghost predicate SortedBy(keys: seq<int>, order: seq<nat>)
  {
    && (forall i :: 0 <= i < |order| ==> order[i] < |keys|)
    && forall i, j :: 0 <= i < j < |order| ==> keys[order[i]] <= keys[order[j]]
  }

  /** No position occurs twice in `order`. */
  ghost predicate Distinct(order: seq<nat>)
  {
    forall i, j :: 0 <= i < j < |order| ==> order[i] != order[j]
  }

  /** `order` is a permutation of `0 .. n - 1`: no duplicates, no omissions, nothing else. */
  ghost predicate IsPermutation(order: seq<nat>, n: nat)
  {
    && |order| == n
    && Distinct(order)
    && forall k: nat :: k in order <==> k < n
  }

  /**
   * The place where `x` goes into a key-sorted `order`: after the leading
   * run of positions whose keys are not larger than `x`'s.
   */
  function InsertPos(keys: seq<int>, order: seq<nat>, x: nat): (p: nat)
    requires x < |keys|
    requires forall i :: 0 <= i < |order| ==> order[i] < |keys|
    ensures p <= |order|
    ensures forall i :: 0 <= i < p ==> keys[order[i]] <= keys[x]
    ensures p < |order| ==> keys[x] < keys[order[p]]
  {
    if order == [] || keys[x] < keys[order[0]] then 0 else 1 + InsertPos(keys, order[1..], x)
  }

  /** Insert position `x` into a key-sorted `order`. */
  function Insert(keys: seq<int>, order: seq<nat>, x: nat): seq<nat>
    requires x < |keys|
    requires forall i :: 0 <= i < |order| ==> order[i] < |keys|
  {
    var p := InsertPos(keys, order, x);
    order[..p] + [x] + order[p..]
  }

  /** Place `i` of the inserted sequence, read off the old one. */
  lemma InsertAt(keys: seq<int>, order: seq<nat>, x: nat)
    requires x < |keys|
    requires forall i :: 0 <= i < |order| ==> order[i] < |keys|
    ensures var p, r := InsertPos(keys, order, x), Insert(keys, order, x);
      && |r| == |order| + 1
      && (forall i :: 0 <= i < p ==> r[i] == order[i])
      && r[p] == x
      && (forall i :: p < i < |r| ==> r[i] == order[i - 1])
  {
  }

  /** The inserted sequence holds the old positions and `x`, and nothing else. */
  lemma InsertMembers(keys: seq<int>, order: seq<nat>, x: nat)
    requires x < |keys|
    requires forall i :: 0 <= i < |order| ==> order[i] < |keys|
    ensures forall y :: y in Insert(keys, order, x) <==> y in order || y == x
  {
    var p := InsertPos(keys, order, x);
    assert order == order[..p] + order[p..];
  }

  /** Inserting a position not already present keeps the sequence free of duplicates. */
  lemma InsertDistinct(keys: seq<int>, order: seq<nat>, x: nat)
    requires x < |keys|
    requires forall i :: 0 <= i < |order| ==> order[i] < |keys|
    requires Distinct(order) && x !in order
    ensures Distinct(Insert(keys, order, x))
  {
    InsertAt(keys, order, x);
  }

  /** Inserting keeps the keys ascending. */
  lemma InsertSorted(keys: seq<int>, order: seq<nat>, x: nat)
    requires x < |keys|
    requires SortedBy(keys, order)
    ensures SortedBy(keys, Insert(keys, order, x))
  {
    InsertAt(keys, order, x);
  }

  /** The positions `0 .. n - 1`, inserted one after another. */
  function ArgsortPrefix(keys: seq<int>, n: nat): (r: seq<nat>)
    requires n <= |keys|
    ensures IsPermutation(r, n)
    ensures SortedBy(keys, r)
  {
    if n == 0 then []
    else
      var prev := ArgsortPrefix(keys, n - 1);
      InsertMembers(keys, prev, n - 1);
      InsertDistinct(keys, prev, n - 1);
      InsertSorted(keys, prev, n - 1);
      Insert(keys, prev, n - 1)
  }

  /** numpy's `argsort`: a permutation of the positions of `keys` that lists their keys in ascending order. */
  function Argsort(keys: seq<int>): (r: seq<nat>)
    ensures IsPermutation(r, |keys|)
    ensures SortedBy(keys, r)
  {
    ArgsortPrefix(keys, |keys|)
  }

  /**
   * The key sequence read along a sorted permutation is determined by
   * the keys alone: choices the sort makes among equal keys cannot change it.
   */
  lemma {:induction false} SortedKeysUnique(keys: seq<int>, a: seq<nat>, b: seq<nat>)
    requires IsPermutation(a, |keys|) && SortedBy(keys, a)
    requires IsPermutation(b, |keys|) && SortedBy(keys, b)
    ensures forall i :: 0 <= i < |keys| ==> keys[a[i]] == keys[b[i]]
  {
    forall i | 0 <= i < |keys|
      ensures keys[a[i]] == keys[b[i]]
    {
      if keys[a[i]] < keys[b[i]] {
        NotSmaller(keys, a, b, i);
      } else if keys[b[i]] < keys[a[i]] {
        NotSmaller(keys, b, a, i);
      }
    }
  }

  /**
   * Along two sorted permutations, the key at place `i` of `a` is not
   * below the key at place `i` of `b`; otherwise the `i + 1` positions
   * `a[0..i]` would all have to sit among the `i` places before `b[i]`.
   */
  lemma NotSmaller(keys: seq<int>, a: seq<nat>, b: seq<nat>, i: nat)
    requires IsPermutation(a, |keys|) && SortedBy(keys, a)
    requires IsPermutation(b, |keys|) && SortedBy(keys, b)
    requires i < |keys|
    ensures keys[a[i]] >= keys[b[i]]
  {
    if keys[a[i]] < keys[b[i]] {
      var small := set k | 0 <= k < i + 1 :: a[k];
      var places := set k | 0 <= k < i :: b[k];
      forall y | y in small
        ensures y in places
      {
        var k :| 0 <= k < i + 1 && a[k] == y;
        assert keys[y] < keys[b[i]];
        assert y in b;
        EarlyInSorted(keys, b, y, i);
      }
      InjectiveCard(a, i + 1);
      RangeCard(b, i);
      SubsetCard(small, places);
    }
  }

  /** A position whose key is below the key at place `i` of a sorted order occurs before place `i`. */
  lemma EarlyInSorted(keys: seq<int>, b: seq<nat>, y: nat, i: nat)
    requires SortedBy(keys, b) && i < |b| && y in b && y < |keys|
    requires keys[y] < keys[b[i]]
    ensures y in set k | 0 <= k < i :: b[k]
  {
    var t :| 0 <= t < |b| && b[t] == y;
  }

  lemma SubsetCard<T>(small: set<T>, big: set<T>)
    requires small <= big
    ensures |small| <= |big|
  {
    assert big == small + (big - small);
  }

  /** The first `n` entries of a sequence without duplicates form a set of `n` elements. */
  lemma {:induction false} InjectiveCard(a: seq<nat>, n: nat)
    requires Distinct(a) && n <= |a|
    ensures |set k | 0 <= k < n :: a[k]| == n
  {
    if n > 0 {
      InjectiveCard(a, n - 1);
      var s := set k | 0 <= k < n - 1 :: a[k];
      assert (set k | 0 <= k < n :: a[k]) == s + {a[n - 1]};
      assert a[n - 1] !in s;
    }
  }

  /** The first `n` entries of any sequence form a set of at most `n` elements. */
  lemma {:induction false} RangeCard(b: seq<nat>, n: nat)
    requires n <= |b|
    ensures |set k | 0 <= k < n :: b[k]| <= n
  {
    if n > 0 {
      RangeCard(b, n - 1);
      assert (set k | 0 <= k < n :: b[k]) == (set k | 0 <= k < n - 1 :: b[k]) + {b[n - 1]};
    }
  }
}
