/**
 * Bin layouts: numbering an ordering of the products 1..N, and the baseline
 * layout of backend/simulation.py, random_layout, which numbers a shuffled copy
 * of the product list.
 *
 * `random.shuffle` is CPython's Fisher-Yates walk: for i from N - 1 down to 1
 * it swaps position i with a position j drawn from 0..i. The draws are an input
 * here: `draws[k]` is the j chosen at step k, where i = N - 1 - k.
 */
module Layouts {
  import opened Collections
  import opened Orders

  /** `{p: i + 1 for i, p in enumerate(s)}`; for a repeated product the later bin wins. */
  function NumberBins(s: seq<Product>): (layout: map<Product, nat>)
    ensures forall p :: p in layout <==> p in s
  {
    if s == [] then map[] else NumberBins(s[..|s| - 1])[s[|s| - 1] := |s|]
  }

  /** `layout` is a bijection from the products onto the bins 1..|products|. */
  ghost predicate IsLayout(layout: map<Product, nat>, products: seq<Product>) {
    && (forall p :: p in layout <==> p in products)
    && (forall p :: p in layout ==> 1 <= layout[p] <= |products|)
    && (forall b :: 1 <= b <= |products| ==> b in layout.Values)
    && (forall p, q :: p in layout && q in layout && p != q ==> layout[p] != layout[q])
  }

  /** In an ordering without repetitions the product at position k gets bin k + 1. */
  lemma {:induction false} NumberBinsAt(s: seq<Product>, k: nat)
    requires Distinct(s) && k < |s|
    ensures s[k] in NumberBins(s) && NumberBins(s)[s[k]] == k + 1
  {
    if k < |s| - 1 {
      var init := s[..|s| - 1];
      assert Distinct(init) && init[k] == s[k];
      NumberBinsAt(init, k);
    }
  }

  /** Numbering any rearrangement of a product list without repetitions gives a layout of it. */
  lemma NumberBinsLayout(s: seq<Product>, products: seq<Product>)
    requires Distinct(s) && multiset(s) == multiset(products)
    ensures IsLayout(NumberBins(s), products)
  {
    assert |s| == |products| by {
      assert |multiset(s)| == |multiset(products)|;
    }
    SameElements(s, products);
    NumberBinsValues(s);
    NumberBinsInjective(s);
  }

  /** Rearrangements have the same elements. */
  lemma SameElements(s: seq<Product>, t: seq<Product>)
    requires multiset(s) == multiset(t)
    ensures forall p :: p in s <==> p in t
  {
    forall p ensures p in s <==> p in t {
      assert p in s <==> p in multiset(s);
      assert p in t <==> p in multiset(t);
    }
  }

  /** Different products of an ordering without repetitions get different bins. */
  lemma NumberBinsInjective(s: seq<Product>)
    requires Distinct(s)
    ensures forall p, q :: p in NumberBins(s) && q in NumberBins(s) && p != q ==> NumberBins(s)[p] != NumberBins(s)[q]
  {
    var layout := NumberBins(s);
    forall p, q | p in layout && q in layout && p != q ensures layout[p] != layout[q] {
      var k :| 0 <= k < |s| && s[k] == p;
      var l :| 0 <= l < |s| && s[l] == q;
      NumberBinsAt(s, k);
      NumberBinsAt(s, l);
    }
  }

  /** The bins of an ordering without repetitions are exactly 1..N. */
  lemma NumberBinsValues(s: seq<Product>)
    requires Distinct(s)
    ensures forall p :: p in NumberBins(s) ==> 1 <= NumberBins(s)[p] <= |s|
    ensures forall b :: 1 <= b <= |s| ==> b in NumberBins(s).Values
  {
    NumberBinsRange(s);
    forall b | 1 <= b <= |s| ensures b in NumberBins(s).Values {
      NumberBinsHit(s, b);
    }
  }

  lemma NumberBinsRange(s: seq<Product>)
    requires Distinct(s)
    ensures forall p :: p in NumberBins(s) ==> 1 <= NumberBins(s)[p] <= |s|
  {
    forall p | p in NumberBins(s) ensures 1 <= NumberBins(s)[p] <= |s| {
      var k :| 0 <= k < |s| && s[k] == p;
      NumberBinsAt(s, k);
    }
  }

  lemma NumberBinsHit(s: seq<Product>, b: nat)
    requires Distinct(s) && 1 <= b <= |s|
    ensures b in NumberBins(s).Values
  {
    var layout, p := NumberBins(s), s[b - 1];
    NumberBinsAt(s, b - 1);
    assert p in layout && layout[p] == b;
    assert layout[p] in layout.Values;
  }

  /** `draws` are outcomes random.shuffle can produce for a list of length n. */
  predicate ValidDraws(n: nat, draws: seq<nat>) {
    && |draws| == (if n == 0 then 0 else n - 1)
    && forall k :: 0 <= k < |draws| ==> draws[k] <= n - 1 - k
  }

  /** Exchange the elements at positions i and j. */
  function Swap<T>(s: seq<T>, i: nat, j: nat): (r: seq<T>)
    requires i < |s| && j < |s|
    ensures |r| == |s|
  {
    s[i := s[j]][j := s[i]]
  }

  /** The list after the first k steps of the walk; step k swaps position N - k with draws[k - 1]. */
  function ShuffleUpTo<T>(s: seq<T>, draws: seq<nat>, k: nat): (r: seq<T>)
    requires ValidDraws(|s|, draws) && k <= |draws|
    ensures |r| == |s|
  {
    if k == 0 then s
    else Swap(ShuffleUpTo(s, draws, k - 1), |s| - k, draws[k - 1])
  }

  /** The list random.shuffle leaves behind for the given draws. */
  function Shuffled<T>(s: seq<T>, draws: seq<nat>): (r: seq<T>)
    requires ValidDraws(|s|, draws)
    ensures |r| == |s|
  {
    ShuffleUpTo(s, draws, |draws|)
  }

  /** `random.shuffle(a)`, in place: the walk the draws describe, which rearranges the list. */
  method Shuffle<T>(a: array<T>, draws: seq<nat>)
    requires ValidDraws(a.Length, draws)
    modifies a
    ensures a[..] == Shuffled(old(a[..]), draws)
    ensures multiset(a[..]) == multiset(old(a[..]))
  {
    var k := 0;
    while k < |draws|
      invariant 0 <= k <= |draws|
      invariant a[..] == ShuffleUpTo(old(a[..]), draws, k)
      invariant multiset(a[..]) == multiset(old(a[..]))
    {
      var i, j := a.Length - 1 - k, draws[k];
      ghost var before := a[..];
      a[i], a[j] := a[j], a[i];
      assert a[..] == Swap(before, i, j);
      k := k + 1;
    }
  }

  /**
   * `random_layout`: shuffle a copy of the product list and number it 1..N.
   * The product list itself is a value here, so the copy leaves it as it was.
   */
  method RandomLayout(products: seq<Product>, draws: seq<nat>) returns (layout: map<Product, nat>)
    requires ValidDraws(|products|, draws)
    ensures layout == NumberBins(Shuffled(products, draws))
    ensures forall p :: p in layout <==> p in products
    ensures Distinct(products) ==> IsLayout(layout, products)
  {
    var shuffled := new Product[|products|](k requires 0 <= k < |products| => products[k]);
    assert shuffled[..] == products;
    Shuffle(shuffled, draws);
    layout := NumberBins(shuffled[..]);
    SameElements(shuffled[..], products);
    if Distinct(products) {
      PermutationDistinct(products, shuffled[..]);
      NumberBinsLayout(shuffled[..], products);
    }
  }
}
