/**
 * Stable sorting in descending order of an integer key: the contract of
 * Python's `list.sort(key=..., reverse=True)` and `sorted(..., key=..., reverse=True)`,
 * which keep elements with equal keys in their original order.
 *
 * The order is defined by a stable insertion sort, SortDesc. Whatever algorithm
 * Python runs internally, StableSortUnique shows that a stable descending sort has
 * only one possible result, so SortDesc is that result.
 */
module Sorting {

  /** Keys never increase along `s`. */
  predicate SortedDesc<T>(s: seq<T>, key: T -> int) {
    forall i, j :: 0 <= i < j < |s| ==> key(s[i]) >= key(s[j])
  }

  /** The elements of `s` whose key is `h`, in their order in `s`. */
  function KeyFilter<T>(s: seq<T>, key: T -> int, h: int): (r: seq<T>)
    ensures |r| <= |s|
  {
    if s == [] then []
    else (if key(s[0]) == h then [s[0]] else []) + KeyFilter(s[1..], key, h)
  }

  /** Places `x` after the elements with a strictly larger key and before all others. */
  function Insert<T>(x: T, s: seq<T>, key: T -> int): (r: seq<T>)
    ensures multiset(r) == multiset(s) + multiset{x}
  {
    if s == [] then [x]
    else if key(s[0]) <= key(x) then [x] + s
    else
      assert s == [s[0]] + s[1..];
      [s[0]] + Insert(x, s[1..], key)
  }

  /** Inserting into a descending sequence keeps it descending. */
  lemma {:induction false} InsertSorted<T>(x: T, s: seq<T>, key: T -> int)
    requires SortedDesc(s, key)
    ensures SortedDesc(Insert(x, s, key), key)
  {
    if s != [] && key(s[0]) > key(x) {
      var t := Insert(x, s[1..], key);
      assert SortedDesc(s[1..], key);
      InsertSorted(x, s[1..], key);
      var r := [s[0]] + t;
      forall k | 0 < k < |r| ensures key(r[0]) >= key(r[k]) {
        assert r[k] in multiset(s[1..]) + multiset{x};
        if r[k] != x {
          var m :| 0 <= m < |s[1..]| && s[1..][m] == r[k];
          assert s[m + 1] == r[k];
        }
      }
    }
  }

  /** Stable insertion sort, largest key first. */
  function SortDesc<T>(s: seq<T>, key: T -> int): (r: seq<T>)
    ensures multiset(r) == multiset(s)
    ensures |r| == |s|
    ensures SortedDesc(r, key)
  {
    if s == [] then []
    else
      assert s == [s[0]] + s[1..];
      InsertSorted(s[0], SortDesc(s[1..], key), key);
      Insert(s[0], SortDesc(s[1..], key), key)
  }

  /** Inserting `x` adds it to the front of its own key class and leaves the other classes alone. */
  lemma {:induction false} InsertFilter<T>(x: T, s: seq<T>, key: T -> int, h: int)
    ensures KeyFilter(Insert(x, s, key), key, h)
         == if key(x) == h then [x] + KeyFilter(s, key, h) else KeyFilter(s, key, h)
  {
    if s != [] && key(s[0]) > key(x) {
      InsertFilter(x, s[1..], key, h);
      var t := Insert(x, s[1..], key);
      assert ([s[0]] + t)[1..] == t;
    } else if s != [] {
      assert ([x] + s)[1..] == s;
    }
  }

  /** Stability: each key class keeps the relative order it had in the input. */
  lemma {:induction false} SortStable<T>(s: seq<T>, key: T -> int, h: int)
    ensures KeyFilter(SortDesc(s, key), key, h) == KeyFilter(s, key, h)
  {
    if s != [] {
      SortStable(s[1..], key, h);
      InsertFilter(s[0], SortDesc(s[1..], key), key, h);
    }
  }

  /** A key class is non-empty exactly when some element has that key. */
  lemma {:induction false} KeyFilterNonEmpty<T>(s: seq<T>, key: T -> int, h: int)
    ensures KeyFilter(s, key, h) != [] <==> exists i :: 0 <= i < |s| && key(s[i]) == h
  {
    if s != [] {
      KeyFilterNonEmpty(s[1..], key, h);
      if exists i :: 0 <= i < |s| && key(s[i]) == h {
        var i :| 0 <= i < |s| && key(s[i]) == h;
        if i > 0 { assert key(s[1..][i - 1]) == h; }
      }
      if exists i :: 0 <= i < |s[1..]| && key(s[1..][i]) == h {
        var i :| 0 <= i < |s[1..]| && key(s[1..][i]) == h;
        assert key(s[i + 1]) == h;
      }
    }
  }

  /** Two descending sequences with the same key classes are equal. */
  lemma {:induction false} SortedClassesDetermine<T>(a: seq<T>, b: seq<T>, key: T -> int)
    requires SortedDesc(a, key) && SortedDesc(b, key)
    requires forall h :: KeyFilter(a, key, h) == KeyFilter(b, key, h)
    ensures a == b
    decreases |a|
  {
    if a == [] || b == [] {
      if a != [] {
        KeyFilterNonEmpty(a, key, key(a[0]));
        KeyFilterNonEmpty(b, key, key(a[0]));
      } else if b != [] {
        KeyFilterNonEmpty(a, key, key(b[0]));
        KeyFilterNonEmpty(b, key, key(b[0]));
      }
    } else {
      var ka, kb := key(a[0]), key(b[0]);
      if ka > kb {
        KeyFilterNonEmpty(a, key, ka);
        KeyFilterNonEmpty(b, key, ka);
        assert false;
      }
      if kb > ka {
        KeyFilterNonEmpty(a, key, kb);
        KeyFilterNonEmpty(b, key, kb);
        assert false;
      }
      assert KeyFilter(a, key, ka) == [a[0]] + KeyFilter(a[1..], key, ka);
      assert KeyFilter(b, key, ka) == [b[0]] + KeyFilter(b[1..], key, ka);
      forall h ensures KeyFilter(a[1..], key, h) == KeyFilter(b[1..], key, h) {
        assert KeyFilter(a, key, h) == KeyFilter(b, key, h);
        if h == ka {
          assert ([a[0]] + KeyFilter(a[1..], key, ka))[1..] == KeyFilter(a[1..], key, ka);
          assert ([b[0]] + KeyFilter(b[1..], key, ka))[1..] == KeyFilter(b[1..], key, ka);
        } else {
          assert KeyFilter(a, key, h) == KeyFilter(a[1..], key, h);
          assert KeyFilter(b, key, h) == KeyFilter(b[1..], key, h);
        }
      }
      assert a[0] == KeyFilter(a, key, ka)[0];
      SortedClassesDetermine(a[1..], b[1..], key);
      assert a == [a[0]] + a[1..] && b == [b[0]] + b[1..];
    }
  }

  /**
   * A stable descending sort has one possible result: any arrangement that is
   * descending and keeps every key class in input order is SortDesc's.
   */
  lemma StableSortUnique<T>(s: seq<T>, r: seq<T>, key: T -> int)
    requires SortedDesc(r, key)
    requires forall h :: KeyFilter(r, key, h) == KeyFilter(s, key, h)
    ensures r == SortDesc(s, key)
  {
    forall h ensures KeyFilter(r, key, h) == KeyFilter(SortDesc(s, key), key, h) {
      SortStable(s, key, h);
    }
    SortedClassesDetermine(r, SortDesc(s, key), key);
  }

  /** `rank` strictly increases along `s`. */
  predicate RankIncreasing<T>(s: seq<T>, rank: T -> int) {
    forall i, j :: 0 <= i < j < |s| ==> rank(s[i]) < rank(s[j])
  }

  /** Ordered by key, descending, and among equal keys by rank, ascending. */
  predicate HeavierFirst<T>(s: seq<T>, key: T -> int, rank: T -> int) {
    forall i, j :: 0 <= i < j < |s| ==>
      key(s[i]) > key(s[j]) || (key(s[i]) == key(s[j]) && rank(s[i]) < rank(s[j]))
  }

  lemma {:induction false} InsertHeavierFirst<T>(x: T, s: seq<T>, key: T -> int, rank: T -> int)
    requires HeavierFirst(s, key, rank)
    requires forall k :: 0 <= k < |s| ==> rank(x) < rank(s[k])
    ensures HeavierFirst(Insert(x, s, key), key, rank)
  {
    if s != [] && key(s[0]) > key(x) {
      var t := Insert(x, s[1..], key);
      assert HeavierFirst(s[1..], key, rank);
      InsertHeavierFirst(x, s[1..], key, rank);
      var r := [s[0]] + t;
      forall k | 0 < k < |r|
        ensures key(r[0]) > key(r[k]) || (key(r[0]) == key(r[k]) && rank(r[0]) < rank(r[k]))
      {
        assert r[k] in multiset(s[1..]) + multiset{x};
        if r[k] != x {
          var m :| 0 <= m < |s[1..]| && s[1..][m] == r[k];
          assert s[m + 1] == r[k];
        }
      }
    }
  }

  /**
   * When the input is listed in increasing rank, stability means that the
   * sorted result breaks key ties by rank.
   */
  lemma {:induction false} SortHeavierFirst<T>(s: seq<T>, key: T -> int, rank: T -> int)
    requires RankIncreasing(s, rank)
    ensures HeavierFirst(SortDesc(s, key), key, rank)
  {
    if s != [] {
      var t := SortDesc(s[1..], key);
      assert RankIncreasing(s[1..], rank);
      SortHeavierFirst(s[1..], key, rank);
      forall k | 0 <= k < |t| ensures rank(s[0]) < rank(t[k]) {
        assert t[k] in multiset(s[1..]);
        var m :| 0 <= m < |s[1..]| && s[1..][m] == t[k];
        assert s[m + 1] == t[k];
      }
      InsertHeavierFirst(s[0], t, key, rank);
    }
  }
}
