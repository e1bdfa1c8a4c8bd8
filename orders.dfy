/**
 * The synthetic workload: the product universe and the orders drawn from it
 * (backend/simulation.py, generate_products and generate_orders).
 *
 * The random draws are inputs. `sizes[t]` is what `random.randint(2, 6)` returned
 * for order t, and `picks[t]` are the positions `random.sample` chose: distinct
 * positions of the product list, as many as the size asks for.
 */
module Orders {
  import opened Collections

  type Product = string

  /** The character of one decimal digit. */
  function Digit(d: nat): (c: char)
    requires d < 10
    ensures '0' <= c <= '9'
  {
    ('0' as int + d) as char
  }

  /** The decimal numeral of `n`, as an f-string prints it. */
  function Decimal(n: nat): (s: string)
    ensures |s| >= 1
    ensures n >= 10 ==> |s| >= 2
  {
    if n < 10 then [Digit(n)] else Decimal(n / 10) + [Digit(n % 10)]
  }

  /** Different numbers have different numerals. */
  lemma {:induction false} DecimalInjective(m: nat, n: nat)
    requires Decimal(m) == Decimal(n)
    ensures m == n
  {
    if m >= 10 && n >= 10 {
      var a, b := Decimal(m), Decimal(n);
      assert a[|a| - 1] == Digit(m % 10) && b[|b| - 1] == Digit(n % 10);
      assert a[..|a| - 1] == Decimal(m / 10) && b[..|b| - 1] == Decimal(n / 10);
      DecimalInjective(m / 10, n / 10);
    }
  }

  /** The name of the product at position `i`: "Product_" followed by i + 1. */
  function ProductName(i: nat): Product {
    "Product_" + Decimal(i + 1)
  }

  /** `generate_products`: the names Product_1 .. Product_n, all different. */
  function GenerateProducts(n: nat): (ps: seq<Product>)
    ensures |ps| == n
    ensures forall i :: 0 <= i < n ==> ps[i] == ProductName(i)
    ensures Distinct(ps)
  {
    var ps := seq(n, i requires 0 <= i < n => ProductName(i));
    assert Distinct(ps) by {
      forall i, j | 0 <= i < j < n ensures ps[i] != ps[j] {
        if ps[i] == ps[j] {
          assert ps[i][8..] == Decimal(i + 1) && ps[j][8..] == Decimal(j + 1);
          DecimalInjective(i + 1, j + 1);
        }
      }
    }
    ps
  }

  /** An order as the generator promises it: 2 to 6 distinct products of the universe. */
  predicate ValidOrder(products: seq<Product>, order: seq<Product>) {
    && 2 <= |order| <= 6
    && Distinct(order)
    && forall k :: 0 <= k < |order| ==> order[k] in products
  }

  /** What `random.sample` of `k` items out of `n` picks: `k` distinct positions below `n`. */
  predicate IsSample(picks: seq<nat>, k: int, n: nat) {
    && |picks| == k
    && Distinct(picks)
    && forall m :: 0 <= m < |picks| ==> picks[m] < n
  }

  /** The products at the picked positions, in the order they were picked. */
  function Pick(products: seq<Product>, picks: seq<nat>): (order: seq<Product>)
    requires forall m :: 0 <= m < |picks| ==> picks[m] < |products|
    ensures |order| == |picks|
    ensures forall m :: 0 <= m < |picks| ==> order[m] == products[picks[m]]
  {
    seq(|picks|, m requires 0 <= m < |picks| => products[picks[m]])
  }

  /** A sample of a universe without repetitions is an order of the promised shape. */
  lemma PickValid(products: seq<Product>, picks: seq<nat>)
    requires IsSample(picks, |picks|, |products|) && 2 <= |picks| <= 6
    requires Distinct(products)
    ensures ValidOrder(products, Pick(products, picks))
  {
    var order := Pick(products, picks);
    forall i, j | 0 <= i < j < |order| ensures order[i] != order[j] {
      assert picks[i] != picks[j];
    }
  }

  /** `random.sample` raises ValueError when asked for more items than there are. */
  datatype OrderError = SampleLargerThanPopulation(order: nat, size: int)

  /**
   * `generate_orders`: one order per iteration, of size `sizes[t]`, holding the
   * products at `picks[t]`. Fails on the first order whose size exceeds the universe.
   */
  method GenerateOrders(products: seq<Product>, numOrders: nat, sizes: seq<int>, picks: seq<seq<nat>>)
    returns (r: Result<seq<seq<Product>>, OrderError>)
    requires |sizes| == numOrders && |picks| == numOrders
    requires forall t :: 0 <= t < numOrders ==> 2 <= sizes[t] <= 6
    requires forall t :: 0 <= t < numOrders && sizes[t] <= |products| ==> IsSample(picks[t], sizes[t], |products|)
    ensures r.Success? <==> forall t :: 0 <= t < numOrders ==> sizes[t] <= |products|
    ensures r.Failure? ==>
      && r.error.order < numOrders
      && r.error.size == sizes[r.error.order] > |products|
      && forall t :: 0 <= t < r.error.order ==> sizes[t] <= |products|
    ensures r.Success? ==>
      && |r.value| == numOrders
      && forall t :: 0 <= t < numOrders ==>
           IsSample(picks[t], sizes[t], |products|) && r.value[t] == Pick(products, picks[t])
    ensures r.Success? && Distinct(products) ==>
      forall t :: 0 <= t < numOrders ==> ValidOrder(products, r.value[t])
  {
    var orders: seq<seq<Product>> := [];
    var t := 0;
    while t < numOrders
      invariant 0 <= t <= numOrders
      invariant |orders| == t
      invariant forall u :: 0 <= u < t ==> sizes[u] <= |products|
      invariant forall u :: 0 <= u < t ==> orders[u] == Pick(products, picks[u])
      invariant Distinct(products) ==> forall u :: 0 <= u < t ==> ValidOrder(products, orders[u])
    {
      if sizes[t] > |products| {
        return Failure(SampleLargerThanPopulation(t, sizes[t]));
      }
      var order := Pick(products, picks[t]);
      if Distinct(products) {
        PickValid(products, picks[t]);
      }
      orders := orders + [order];
      t := t + 1;
    }
    return Success(orders);
  }
}
