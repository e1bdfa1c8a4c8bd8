/**
 * Product heat (backend/simulation.py, product_heat): how often each product is
 * ordered. The source's map has a key only for products that occur in some
 * order; CompleteHeat is the corrected map that gives every product of the
 * universe a key, with 0 for products nobody ordered.
 */
module Heat {
  import opened Collections
  import opened Orders
  import opened Cooccurrence

  /** How many times `p` is listed, over all orders. */
  function HeatCount(orders: seq<seq<Product>>, p: Product): nat {
    if orders == [] then 0
    else HeatCount(orders[..|orders| - 1], p) + multiset(orders[|orders| - 1])[p]
  }

  /** The number of orders that contain `p`. */
  function OrdersContaining(orders: seq<seq<Product>>, p: Product): nat {
    if orders == [] then 0
    else OrdersContaining(orders[..|orders| - 1], p) + (if p in orders[|orders| - 1] then 1 else 0)
  }

  /** The total number of items over all orders. */
  function TotalSize(orders: seq<seq<Product>>): nat {
    if orders == [] then 0 else TotalSize(orders[..|orders| - 1]) + |orders[|orders| - 1]|
  }

  /** A product has positive heat exactly when some order contains it. */
  lemma {:induction false} HeatCountPositive(orders: seq<seq<Product>>, p: Product)
    ensures HeatCount(orders, p) > 0 <==> Ordered(orders, p)
  {
    if orders != [] {
      var init, last := orders[..|orders| - 1], orders[|orders| - 1];
      HeatCountPositive(init, p);
      if Ordered(orders, p) && !(p in last) {
        var t :| 0 <= t < |orders| && p in orders[t];
        assert t < |orders| - 1 && init[t] == orders[t];
      }
      if Ordered(init, p) {
        var t :| 0 <= t < |init| && p in init[t];
        assert orders[t] == init[t];
      }
      if p in last {
        assert p in orders[|orders| - 1];
      }
    }
  }

  /** For orders without repeated products, heat counts the orders that contain the product. */
  lemma {:induction false} HeatIsOrdersContaining(orders: seq<seq<Product>>, p: Product)
    requires DistinctOrders(orders)
    ensures HeatCount(orders, p) == OrdersContaining(orders, p)
  {
    if orders != [] {
      var init, last := orders[..|orders| - 1], orders[|orders| - 1];
      assert DistinctOrders(init);
      HeatIsOrdersContaining(init, p);
      DistinctMultiset(last);
      assert multiset(last)[p] <= 1;
    }
  }

  /**
   * `product_heat`: for every item of every order, `heat[item] = heat.get(item, 0) + 1`.
   * The keys are the ordered products and each value is the product's count.
   */
  method ProductHeat(orders: seq<seq<Product>>) returns (heat: map<Product, nat>)
    ensures forall p :: p in heat <==> Ordered(orders, p)
    ensures forall p :: Lookup(heat, p) == HeatCount(orders, p)
  {
    heat := map[];
    var t := 0;
    while t < |orders|
      invariant 0 <= t <= |orders|
      invariant forall p :: Lookup(heat, p) == HeatCount(orders[..t], p)
      invariant forall p :: p in heat ==> heat[p] >= 1
    {
      var o := orders[t];
      var k := 0;
      while k < |o|
        invariant 0 <= k <= |o|
        invariant forall p :: Lookup(heat, p) == HeatCount(orders[..t], p) + multiset(o[..k])[p]
        invariant forall p :: p in heat ==> heat[p] >= 1
      {
        var item := o[k];
        assert o[..k + 1] == o[..k] + [item];
        heat := heat[item := Lookup(heat, item) + 1];
        k := k + 1;
      }
      assert o[..|o|] == o;
      assert orders[..t + 1][..t] == orders[..t] && orders[..t + 1][t] == o;
      t := t + 1;
    }
    assert orders[..|orders|] == orders;
    forall p ensures p in heat <==> Ordered(orders, p) {
      HeatCountPositive(orders, p);
    }
  }

  // ---------------------------------------------------------------------------
  // The heat values add up to the number of items ordered.

  /** The sum of Lookup(heat, p) over the products `ps`. */
  function SumOver(heat: map<Product, nat>, ps: seq<Product>): nat {
    if ps == [] then 0 else SumOver(heat, ps[..|ps| - 1]) + Lookup(heat, ps[|ps| - 1])
  }

  /** The sum of HeatCount over the products `ps`. */
  function SumHeat(ps: seq<Product>, orders: seq<seq<Product>>): nat {
    if ps == [] then 0 else SumHeat(ps[..|ps| - 1], orders) + HeatCount(orders, ps[|ps| - 1])
  }

  /** How many items of one order are among `ps`, counted per product of `ps`. */
  function SumCount(ps: seq<Product>, o: seq<Product>): nat {
    if ps == [] then 0 else SumCount(ps[..|ps| - 1], o) + multiset(o)[ps[|ps| - 1]]
  }

  lemma {:induction false} SumHeatSnoc(ps: seq<Product>, orders: seq<seq<Product>>)
    requires orders != []
    ensures SumHeat(ps, orders) == SumHeat(ps, orders[..|orders| - 1]) + SumCount(ps, orders[|orders| - 1])
  {
    if ps != [] {
      SumHeatSnoc(ps[..|ps| - 1], orders);
    }
  }

  lemma {:induction false} SumCountSnoc(ps: seq<Product>, o: seq<Product>, x: Product)
    ensures SumCount(ps, o + [x]) == SumCount(ps, o) + multiset(ps)[x]
  {
    if ps != [] {
      var init := ps[..|ps| - 1];
      SumCountSnoc(init, o, x);
      assert ps == init + [ps[|ps| - 1]];
      assert multiset(o + [x]) == multiset(o) + multiset{x};
    }
  }

  /** Counting an order's items product by product over a universe without repetitions gives its size. */
  lemma {:induction false} SumCountAll(ps: seq<Product>, o: seq<Product>)
    requires Distinct(ps)
    requires forall k :: 0 <= k < |o| ==> o[k] in ps
    ensures SumCount(ps, o) == |o|
    decreases |o|
  {
    if o == [] {
      SumCountEmpty(ps);
    } else {
      var init, x := o[..|o| - 1], o[|o| - 1];
      assert o == init + [x];
      SumCountAll(ps, init);
      SumCountSnoc(ps, init, x);
      DistinctMultiset(ps);
      assert multiset(ps)[x] == 1;
    }
  }

  lemma {:induction false} SumCountEmpty(ps: seq<Product>)
    ensures SumCount(ps, []) == 0
  {
    if ps != [] { SumCountEmpty(ps[..|ps| - 1]); }
  }

  lemma {:induction false} SumHeatEmpty(ps: seq<Product>)
    ensures SumHeat(ps, []) == 0
  {
    if ps != [] { SumHeatEmpty(ps[..|ps| - 1]); }
  }

  /**
   * Summed over a universe without repetitions that holds every ordered
   * product, the heat counts add up to the total number of items ordered.
   */
  lemma {:induction false} HeatSum(ps: seq<Product>, orders: seq<seq<Product>>)
    requires Distinct(ps) && AllIn(orders, ps)
    ensures SumHeat(ps, orders) == TotalSize(orders)
  {
    if orders == [] {
      SumHeatEmpty(ps);
    } else {
      var init, last := orders[..|orders| - 1], orders[|orders| - 1];
      assert AllIn(init, ps) by {
        forall t, k | 0 <= t < |init| && 0 <= k < |init[t]| ensures init[t][k] in ps {
          assert init[t] == orders[t];
        }
      }
      HeatSum(ps, init);
      SumHeatSnoc(ps, orders);
      assert forall k :: 0 <= k < |last| ==> last[k] in ps by {
        forall k | 0 <= k < |last| ensures last[k] in ps {
          assert orders[|orders| - 1][k] in ps;
        }
      }
      SumCountAll(ps, last);
    }
  }

  lemma {:induction false} SumOverIsSumHeat(heat: map<Product, nat>, ps: seq<Product>, orders: seq<seq<Product>>)
    requires forall p :: Lookup(heat, p) == HeatCount(orders, p)
    ensures SumOver(heat, ps) == SumHeat(ps, orders)
  {
    if ps != [] { SumOverIsSumHeat(heat, ps[..|ps| - 1], orders); }
  }

  /**
   * The heat values of ProductHeat, summed over the universe (which holds every
   * key of the map, so no value is left out), equal the total order size.
   */
  lemma HeatValuesSum(heat: map<Product, nat>, ps: seq<Product>, orders: seq<seq<Product>>)
    requires forall p :: Lookup(heat, p) == HeatCount(orders, p)
    requires Distinct(ps) && AllIn(orders, ps)
    ensures SumOver(heat, ps) == TotalSize(orders)
  {
    SumOverIsSumHeat(heat, ps, orders);
    HeatSum(ps, orders);
  }

  // ---------------------------------------------------------------------------
  // The corrected heat map.

  /**
   * The heat map with a key for every product of the universe: the counted
   * value where product_heat has one, 0 otherwise.
   */
  function CompleteHeat(products: seq<Product>, heat: map<Product, nat>): (full: map<Product, nat>)
    ensures forall p :: p in full <==> p in products || p in heat
    ensures forall p :: Lookup(full, p) == Lookup(heat, p)
  {
    map p | p in (set x | x in products) + heat.Keys :: Lookup(heat, p)
  }
}
