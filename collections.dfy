/**
 * Shared vocabulary of the slotting model: a failure-carrying result, and the
 * facts about sequences and Python containers that several stages rely on
 * (distinctness, first-occurrence order, dict.get with a default, list slicing).
 */
module Collections {

  /** A value, or the error the Python code would have raised instead. */
  datatype Result<+T, +E> = Success(value: T) | Failure(error: E)

  /** No element occurs twice. */
  predicate Distinct<T(==)>(s: seq<T>) {
    forall i, j :: 0 <= i < j < |s| ==> s[i] != s[j]
  }

  /** `m.get(k, 0)` of a dict of counters. */
  function Lookup<K>(m: map<K, nat>, k: K): nat {
    if k in m then m[k] else 0
  }

  /**
   * The distinct elements of `s`, each where it first occurs: the key order of
   * a Python dict filled from `s`, or of a networkx node set.
   */
  function Dedup<T(==,!new)>(s: seq<T>): (d: seq<T>)
    ensures Distinct(d)
    ensures forall x :: x in d <==> x in s
    ensures |d| <= |s|
    decreases |s|
  {
    if s == [] then []
    else
      var d := Dedup(s[..|s| - 1]);
      if s[|s| - 1] in d then d else d + [s[|s| - 1]]
  }

  /** The index of the first occurrence of `x` in `s`. */
  function Pos<T(==)>(s: seq<T>, x: T): (k: nat)
    requires x in s
    ensures k < |s| && s[k] == x
    ensures forall j :: 0 <= j < k ==> s[j] != x
  {
    if s[0] == x then 0 else 1 + Pos(s[1..], x)
  }

  /** Python's `s[:n]`, including a negative `n` (which drops elements from the end). */
  function Take<T>(s: seq<T>, n: int): (r: seq<T>)
    ensures 0 <= n ==> |r| == if n <= |s| then n else |s|
    ensures n < 0 ==> |r| == if 0 <= |s| + n then |s| + n else 0
    ensures r == s[..|r|]
  {
    if 0 <= n then (if n <= |s| then s[..n] else s)
    else if 0 <= |s| + n then s[..|s| + n]
    else []
  }

  /** In a sequence without repetitions an element's first position is its only one. */
  lemma DistinctPos<T>(s: seq<T>, k: nat)
    requires Distinct(s) && k < |s|
    ensures Pos(s, s[k]) == k
  {
  }

  /** Deduplicating a sequence that has no repetitions changes nothing. */
  lemma {:induction false} DedupDistinct<T(!new)>(s: seq<T>)
    requires Distinct(s)
    ensures Dedup(s) == s
    decreases |s|
  {
    if s != [] {
      var init := s[..|s| - 1];
      assert Distinct(init);
      DedupDistinct(init);
      assert s[|s| - 1] !in init;
      assert init + [s[|s| - 1]] == s;
    }
  }

  /** Deduplicating a prefix one element longer: the recursion of Dedup, on prefixes. */
  lemma DedupSnoc<T(!new)>(s: seq<T>, n: nat)
    requires n < |s|
    ensures Dedup(s[..n + 1]) == if s[n] in Dedup(s[..n]) then Dedup(s[..n]) else Dedup(s[..n]) + [s[n]]
  {
    assert s[..n + 1][..n] == s[..n];
  }

  /**
   * The elements of Dedup(s) appear in the order of their first occurrence in s:
   * earlier in the result means earlier first occurrence.
   */
  lemma {:induction false} DedupOrder<T(!new)>(s: seq<T>, i: nat, j: nat)
    requires i < j < |Dedup(s)|
    ensures Dedup(s)[i] in s && Dedup(s)[j] in s
    ensures Pos(s, Dedup(s)[i]) < Pos(s, Dedup(s)[j])
    decreases |s|
  {
    var init := s[..|s| - 1];
    var d := Dedup(init);
    var x, y := Dedup(s)[i], Dedup(s)[j];
    assert x in d by {
      if j == |d| { assert Dedup(s) == d + [s[|s| - 1]]; }
    }
    PosPrefix(s, x, |s| - 1);
    if j < |d| {
      assert Dedup(s)[i] == d[i] && Dedup(s)[j] == d[j];
      DedupOrder(init, i, j);
      PosPrefix(s, y, |s| - 1);
    } else {
      assert Dedup(s) == d + [s[|s| - 1]];
      assert y == s[|s| - 1] && y !in init;
      assert Pos(s, y) == |s| - 1;
    }
  }

  /** The first position of an element of a prefix is the same in the whole sequence. */
  lemma PosPrefix<T>(s: seq<T>, x: T, n: nat)
    requires n <= |s| && x in s[..n]
    ensures Pos(s, x) == Pos(s[..n], x)
  {
    var k, k' := Pos(s, x), Pos(s[..n], x);
    assert s[k'] == x;
    assert k <= k' < n;
    assert s[..n][k] == x;
  }

  /** A sequence without repetitions holds each element at most once, and conversely. */
  lemma {:induction false} DistinctMultiset<T>(s: seq<T>)
    ensures Distinct(s) <==> forall x :: multiset(s)[x] <= 1
    decreases |s|
  {
    if s != [] {
      var init, last := s[..|s| - 1], s[|s| - 1];
      assert s == init + [last];
      DistinctMultiset(init);
      if Distinct(s) {
        assert Distinct(init);
        assert last !in init;
        assert multiset(init)[last] == 0;
      }
      if forall x :: multiset(s)[x] <= 1 {
        forall x ensures multiset(init)[x] <= 1 {
          assert multiset(s)[x] == multiset(init)[x] + multiset([last])[x];
        }
        assert last !in multiset(init) by {
          assert multiset(s)[last] == multiset(init)[last] + 1;
        }
        forall i, j | 0 <= i < j < |s| ensures s[i] != s[j] {
          if j == |s| - 1 { assert s[i] in init; }
          else { assert init[i] == s[i] && init[j] == s[j]; }
        }
      }
    }
  }

  /** A rearrangement of a sequence without repetitions has no repetitions. */
  lemma PermutationDistinct<T>(s: seq<T>, t: seq<T>)
    requires multiset(s) == multiset(t) && Distinct(s)
    ensures Distinct(t)
  {
    DistinctMultiset(s);
    DistinctMultiset(t);
  }
}
