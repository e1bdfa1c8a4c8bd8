/**
 * The co-occurrence graph of backend/simulation.py, build_cooccurrence_graph.
 *
 * The networkx graph becomes a value: its node list in insertion order, a map
 * from unordered pairs (a set of one or two products) to the pair's weight, and
 * the list of edges in the order they were created. An edge whose two ends
 * are the same product would be the one-element set.
 */
module Cooccurrence {
  import opened Collections
  import opened Orders

  /** An unordered pair of products. */
  type Edge = set<Product>

  function Key(u: Product, v: Product): Edge {
    {u, v}
  }

  datatype Graph = Graph(nodes: seq<Product>, weight: map<Edge, nat>, edges: seq<(Product, Product)>)

  // ---------------------------------------------------------------------------
  // The specification: how many times the source's loops count a pair.

  /** The pairs (i, j') with i < j' < j whose products form `e`: the inner loop, up to j. */
  function RowCount(o: seq<Product>, i: nat, j: nat, e: Edge): nat
    requires i < j <= |o|
    decreases j
  {
    if j == i + 1 then 0
    else RowCount(o, i, j - 1, e) + (if Key(o[i], o[j - 1]) == e then 1 else 0)
  }

  lemma RowCountStep(o: seq<Product>, i: nat, j: nat, e: Edge)
    requires i < j < |o|
    ensures RowCount(o, i, j + 1, e) == RowCount(o, i, j, e) + (if Key(o[i], o[j]) == e then 1 else 0)
  {
  }

  /** The pairs counted by the first `i` rounds of the outer loop over one order. */
  function PairsBefore(o: seq<Product>, i: nat, e: Edge): nat
    requires i <= |o|
  {
    if i == 0 then 0 else PairsBefore(o, i - 1, e) + RowCount(o, i - 1, |o|, e)
  }

  /** How much one order adds to the weight of `e`. */
  function PairCount(o: seq<Product>, e: Edge): nat {
    PairsBefore(o, |o|, e)
  }

  /** The weight of `e` after folding in every order. */
  function Weight(orders: seq<seq<Product>>, e: Edge): nat {
    if orders == [] then 0
    else Weight(orders[..|orders| - 1], e) + PairCount(orders[|orders| - 1], e)
  }

  /** The number of orders that contain both `u` and `v`. */
  function CoCount(orders: seq<seq<Product>>, u: Product, v: Product): nat {
    if orders == [] then 0
    else
      var o := orders[|orders| - 1];
      CoCount(orders[..|orders| - 1], u, v) + (if u in o && v in o then 1 else 0)
  }

  /** Every order lists each of its products once. */
  predicate DistinctOrders(orders: seq<seq<Product>>) {
    forall t :: 0 <= t < |orders| ==> Distinct(orders[t])
  }

  /** Every product named by an order is in the universe. */
  predicate AllIn(orders: seq<seq<Product>>, products: seq<Product>) {
    forall t, k :: 0 <= t < |orders| && 0 <= k < |orders[t]| ==> orders[t][k] in products
  }

  /** `p` occurs in some order. */
  predicate Ordered(orders: seq<seq<Product>>, p: Product) {
    exists t :: 0 <= t < |orders| && p in orders[t]
  }

  // ---------------------------------------------------------------------------
  // What the count amounts to for orders without repeated products.

  lemma KeyEq(a: Product, b: Product, u: Product, v: Product)
    requires u != v
    ensures Key(a, b) == Key(u, v) <==> (a == u && b == v) || (a == v && b == u)
  {
    if Key(a, b) == Key(u, v) {
      assert u in Key(a, b) && v in Key(a, b);
      assert a in Key(u, v) && b in Key(u, v);
    }
  }

  /** Row i of an order counts {u, v} once when o[i] is one end and the other end follows before j. */
  lemma {:induction false} RowCountDistinct(o: seq<Product>, i: nat, j: nat, u: Product, v: Product)
    requires Distinct(o) && u != v && i < j <= |o|
    ensures RowCount(o, i, j, Key(u, v))
         == if (o[i] == u && v in o[i + 1..j]) || (o[i] == v && u in o[i + 1..j]) then 1 else 0
    decreases j
  {
    if j > i + 1 {
      RowCountDistinct(o, i, j - 1, u, v);
      KeyEq(o[i], o[j - 1], u, v);
      assert o[i + 1..j] == o[i + 1..j - 1] + [o[j - 1]];
      assert o[j - 1] != o[i];
      if o[j - 1] == v { assert v !in o[i + 1..j - 1]; }
      if o[j - 1] == u { assert u !in o[i + 1..j - 1]; }
    }
  }

  /** Where `x` can sit in an order without repetitions, relative to position k. */
  lemma SplitAt(o: seq<Product>, k: nat, x: Product)
    requires Distinct(o) && k < |o|
    ensures x in o <==> x in o[..k] || x == o[k] || x in o[k + 1..]
    ensures x in o[..k + 1] <==> x in o[..k] || x == o[k]
    ensures x in o[..k] ==> x != o[k] && x !in o[k + 1..]
    ensures x == o[k] ==> x !in o[k + 1..]
  {
    assert o == o[..k] + [o[k]] + o[k + 1..];
    assert o[..k + 1] == o[..k] + [o[k]];
    if x in o[..k] {
      var p :| 0 <= p < k && o[p] == x;
    }
    if x in o[k + 1..] {
      var p :| k + 1 <= p < |o| && o[p] == x;
    }
  }

  /** After i rounds, {u, v} has been counted once if both occur and one of them lies before i. */
  lemma {:induction false} PairsBeforeDistinct(o: seq<Product>, i: nat, u: Product, v: Product)
    requires Distinct(o) && u != v && i <= |o|
    ensures PairsBefore(o, i, Key(u, v))
         == if u in o && v in o && (u in o[..i] || v in o[..i]) then 1 else 0
  {
    if i > 0 {
      PairsBeforeDistinct(o, i - 1, u, v);
      RowCountDistinct(o, i - 1, |o|, u, v);
      SplitAt(o, i - 1, u);
      SplitAt(o, i - 1, v);
    } else {
      assert o[..0] == [];
    }
  }

  /** An order without repetitions adds 1 to {u, v} when it holds both, else 0. */
  lemma PairCountDistinct(o: seq<Product>, u: Product, v: Product)
    requires Distinct(o) && u != v
    ensures PairCount(o, Key(u, v)) == if u in o && v in o then 1 else 0
  {
    PairsBeforeDistinct(o, |o|, u, v);
    assert o[..|o|] == o;
  }

  lemma {:induction false} RowCountNoSelf(o: seq<Product>, i: nat, j: nat, u: Product)
    requires Distinct(o) && i < j <= |o|
    ensures RowCount(o, i, j, {u}) == 0
    decreases j
  {
    if j > i + 1 {
      RowCountNoSelf(o, i, j - 1, u);
      assert o[i] != o[j - 1];
      assert o[i] in Key(o[i], o[j - 1]) && o[j - 1] in Key(o[i], o[j - 1]);
    }
  }

  lemma {:induction false} PairsBeforeNoSelf(o: seq<Product>, i: nat, u: Product)
    requires Distinct(o) && i <= |o|
    ensures PairsBefore(o, i, {u}) == 0
  {
    if i > 0 {
      PairsBeforeNoSelf(o, i - 1, u);
      RowCountNoSelf(o, i - 1, |o|, u);
    }
  }

  /**
   * For orders without repeated products the weight of {u, v} is the number of
   * orders that contain both.
   */
  lemma {:induction false} WeightIsCoCount(orders: seq<seq<Product>>, u: Product, v: Product)
    requires DistinctOrders(orders) && u != v
    ensures Weight(orders, Key(u, v)) == CoCount(orders, u, v)
  {
    if orders != [] {
      var init := orders[..|orders| - 1];
      assert DistinctOrders(init);
      WeightIsCoCount(init, u, v);
      PairCountDistinct(orders[|orders| - 1], u, v);
    }
  }

  /** No self-edges: for orders without repeated products a single product has weight 0. */
  lemma {:induction false} NoSelfWeight(orders: seq<seq<Product>>, u: Product)
    requires DistinctOrders(orders)
    ensures Weight(orders, {u}) == 0
  {
    if orders != [] {
      var init := orders[..|orders| - 1];
      assert DistinctOrders(init);
      NoSelfWeight(init, u);
      PairsBeforeNoSelf(orders[|orders| - 1], |orders[|orders| - 1]|, u);
    }
  }

  /** Folding in one more order adds 1 to the weight of every pair it holds and nothing to the others. */
  lemma WeightAddsOrder(orders: seq<seq<Product>>, o: seq<Product>, u: Product, v: Product)
    requires Distinct(o) && u != v
    ensures Weight(orders + [o], Key(u, v))
         == Weight(orders, Key(u, v)) + (if u in o && v in o then 1 else 0)
  {
    assert (orders + [o])[..|orders|] == orders;
    PairCountDistinct(o, u, v);
  }

  // ---------------------------------------------------------------------------
  // The builder.

  /** `G.add_node(x)`: appends `x` unless it is already a node. */
  function AddNode(nodes: seq<Product>, x: Product): (r: seq<Product>)
    ensures Distinct(nodes) ==> Distinct(r)
    ensures x in r && forall k :: 0 <= k < |nodes| ==> nodes[k] in r
    ensures forall k :: 0 <= k < |r| ==> r[k] in nodes || r[k] == x
    ensures x in nodes ==> r == nodes
  {
    if x in nodes then nodes else nodes + [x]
  }

  /** `edges` lists every key of `weight` exactly once, as an (end, end) pair. */
  predicate Enumerates(edges: seq<(Product, Product)>, weight: map<Edge, nat>) {
    && (forall k :: 0 <= k < |edges| ==> Key(edges[k].0, edges[k].1) in weight)
    && (forall k, l :: 0 <= k < l < |edges| ==> Key(edges[k].0, edges[k].1) != Key(edges[l].0, edges[l].1))
    && (forall e :: e in weight ==> exists k :: 0 <= k < |edges| && Key(edges[k].0, edges[k].1) == e)
  }

  /**
   * The shape of the graph at every step of the fold: weights are positive, the
   * edge list enumerates the weighted pairs, edge ends are nodes, the nodes are
   * distinct, hold the universe, and hold nothing that is neither a product nor
   * an ordered item; and when every order stays inside the universe the nodes
   * are the universe in its own order.
   */
  predicate WellFormed(g: Graph, products: seq<Product>, orders: seq<seq<Product>>) {
    && (forall e :: e in g.weight ==> g.weight[e] >= 1)
    && Enumerates(g.edges, g.weight)
    && NodesOk(g, products, orders)
  }

  /** The node-list part of WellFormed. */
  predicate NodesOk(g: Graph, products: seq<Product>, orders: seq<seq<Product>>) {
    && (forall k :: 0 <= k < |g.edges| ==> g.edges[k].0 in g.nodes && g.edges[k].1 in g.nodes)
    && Distinct(g.nodes)
    && (forall k :: 0 <= k < |products| ==> products[k] in g.nodes)
    && (forall k :: 0 <= k < |g.nodes| ==> g.nodes[k] in products || Ordered(orders, g.nodes[k]))
    && (AllIn(orders, products) ==> g.nodes == Dedup(products))
  }

  /**
   * One step of the inner loop: `G[u][v]["weight"] += 1` when the edge exists,
   * otherwise `G.add_edge(u, v, weight=1)`, which also adds a missing end node.
   */
  function AddPair(g: Graph, u: Product, v: Product): (r: Graph)
    ensures forall e :: Lookup(r.weight, e) == Lookup(g.weight, e) + (if Key(u, v) == e then 1 else 0)
  {
    var key := Key(u, v);
    if key in g.weight then
      Graph(g.nodes, g.weight[key := g.weight[key] + 1], g.edges)
    else
      Graph(AddNode(AddNode(g.nodes, u), v), g.weight[key := 1], g.edges + [(u, v)])
  }

  /** A step of the fold keeps the edge list an enumeration of the positive weights. */
  lemma AddPairEdges(g: Graph, u: Product, v: Product)
    requires forall e :: e in g.weight ==> g.weight[e] >= 1
    requires Enumerates(g.edges, g.weight)
    ensures forall e :: e in AddPair(g, u, v).weight ==> AddPair(g, u, v).weight[e] >= 1
    ensures Enumerates(AddPair(g, u, v).edges, AddPair(g, u, v).weight)
  {
    if Key(u, v) in g.weight {
      AddPairEdgesExisting(g, u, v);
    } else {
      AddPairEdgesNew(g, u, v);
    }
  }

  /** Counting one more occurrence of an existing edge changes neither the keys nor the edge list. */
  lemma AddPairEdgesExisting(g: Graph, u: Product, v: Product)
    requires forall e :: e in g.weight ==> g.weight[e] >= 1
    requires Enumerates(g.edges, g.weight)
    requires Key(u, v) in g.weight
    ensures forall e :: e in AddPair(g, u, v).weight ==> AddPair(g, u, v).weight[e] >= 1
    ensures Enumerates(AddPair(g, u, v).edges, AddPair(g, u, v).weight)
  {
    var r := AddPair(g, u, v);
    assert r.edges == g.edges && r.weight.Keys == g.weight.Keys;
  }

  /** A new edge gets weight 1 and is listed once, after the others. */
  lemma AddPairEdgesNew(g: Graph, u: Product, v: Product)
    requires forall e :: e in g.weight ==> g.weight[e] >= 1
    requires Enumerates(g.edges, g.weight)
    requires Key(u, v) !in g.weight
    ensures forall e :: e in AddPair(g, u, v).weight ==> AddPair(g, u, v).weight[e] >= 1
    ensures Enumerates(AddPair(g, u, v).edges, AddPair(g, u, v).weight)
  {
    var key := Key(u, v);
    var r := AddPair(g, u, v);
    assert r.edges == g.edges + [(u, v)] && r.weight == g.weight[key := 1];
    forall k | 0 <= k < |r.edges| ensures Key(r.edges[k].0, r.edges[k].1) in r.weight {
      if k < |g.edges| { assert r.edges[k] == g.edges[k]; }
    }
    forall k, l | 0 <= k < l < |r.edges| ensures Key(r.edges[k].0, r.edges[k].1) != Key(r.edges[l].0, r.edges[l].1) {
      assert r.edges[k] == g.edges[k];
      if l < |g.edges| { assert r.edges[l] == g.edges[l]; }
    }
    forall e | e in r.weight
      ensures exists k :: 0 <= k < |r.edges| && Key(r.edges[k].0, r.edges[k].1) == e
    {
      if e == key {
        assert Key(r.edges[|g.edges|].0, r.edges[|g.edges|].1) == e;
      } else {
        assert e in g.weight;
        var k :| 0 <= k < |g.edges| && Key(g.edges[k].0, g.edges[k].1) == e;
        assert r.edges[k] == g.edges[k];
      }
    }
  }

  /** A step of the fold keeps the node list's properties. */
  lemma AddPairNodes(g: Graph, u: Product, v: Product, products: seq<Product>, orders: seq<seq<Product>>)
    requires NodesOk(g, products, orders)
    requires Ordered(orders, u) && Ordered(orders, v)
    requires AllIn(orders, products) ==> u in products && v in products
    ensures NodesOk(AddPair(g, u, v), products, orders)
  {
    var r := AddPair(g, u, v);
    if Key(u, v) !in g.weight {
      var n1 := AddNode(g.nodes, u);
      assert r.nodes == AddNode(n1, v) && r.edges == g.edges + [(u, v)];
      forall k | 0 <= k < |r.edges| ensures r.edges[k].0 in r.nodes && r.edges[k].1 in r.nodes {
        if k < |g.edges| { assert r.edges[k] == g.edges[k]; }
      }
      forall k | 0 <= k < |r.nodes| ensures r.nodes[k] in products || Ordered(orders, r.nodes[k]) {
        if r.nodes[k] != u && r.nodes[k] != v {
          var m :| 0 <= m < |g.nodes| && g.nodes[m] == r.nodes[k];
        }
      }
    }
  }

  /** A step of the fold keeps the graph well formed. */
  lemma AddPairWellFormed(g: Graph, u: Product, v: Product, products: seq<Product>, orders: seq<seq<Product>>)
    requires WellFormed(g, products, orders)
    requires Ordered(orders, u) && Ordered(orders, v)
    requires AllIn(orders, products) ==> u in products && v in products
    ensures WellFormed(AddPair(g, u, v), products, orders)
  {
    AddPairEdges(g, u, v);
    AddPairNodes(g, u, v, products, orders);
  }

  /** What the builder promises about the graph it returns. */
  ghost predicate IsCooccurrenceGraph(g: Graph, products: seq<Product>, orders: seq<seq<Product>>) {
    && WellFormed(g, products, orders)
    && (forall e :: Lookup(g.weight, e) == Weight(orders, e))
  }

  /** One step of the inner loop: adding the pair (o[i], o[j]) keeps the graph well formed and counts one more pair of row i. */
  lemma RowStep(g0: Graph, g: Graph, orders: seq<seq<Product>>, t: nat, i: nat, j: nat, products: seq<Product>)
    requires t < |orders| && i < j < |orders[t]|
    requires WellFormed(g, products, orders)
    requires forall e :: Lookup(g.weight, e) == Lookup(g0.weight, e) + RowCount(orders[t], i, j, e)
    ensures WellFormed(AddPair(g, orders[t][i], orders[t][j]), products, orders)
    ensures forall e :: Lookup(AddPair(g, orders[t][i], orders[t][j]).weight, e)
                     == Lookup(g0.weight, e) + RowCount(orders[t], i, j + 1, e)
  {
    var o := orders[t];
    assert Ordered(orders, o[i]) && Ordered(orders, o[j]) by {
      assert o[i] in orders[t] && o[j] in orders[t];
    }
    assert AllIn(orders, products) ==> o[i] in products && o[j] in products by {
      if AllIn(orders, products) { assert orders[t][i] in products && orders[t][j] in products; }
    }
    AddPairWellFormed(g, o[i], o[j], products, orders);
    forall e ensures Lookup(AddPair(g, o[i], o[j]).weight, e) == Lookup(g0.weight, e) + RowCount(o, i, j + 1, e) {
      RowCountStep(o, i, j, e);
    }
  }

  /** The inner loop over j for row i of order t: adds every pair (o[i], o[j]) with i < j. */
  method FoldRow(g0: Graph, orders: seq<seq<Product>>, t: nat, i: nat, ghost products: seq<Product>) returns (g: Graph)
    requires t < |orders| && i < |orders[t]|
    requires WellFormed(g0, products, orders)
    ensures WellFormed(g, products, orders)
    ensures forall e :: Lookup(g.weight, e) == Lookup(g0.weight, e) + RowCount(orders[t], i, |orders[t]|, e)
  {
    var o := orders[t];
    g := g0;
    var j := i + 1;
    while j < |o|
      invariant i + 1 <= j <= |o|
      invariant WellFormed(g, products, orders)
      invariant forall e :: Lookup(g.weight, e) == Lookup(g0.weight, e) + RowCount(o, i, j, e)
    {
      RowStep(g0, g, orders, t, i, j, products);
      g := AddPair(g, o[i], o[j]);
      j := j + 1;
    }
  }

  /** The two inner loops for order t: adds every pair of the order. */
  method FoldOrder(g0: Graph, orders: seq<seq<Product>>, t: nat, ghost products: seq<Product>) returns (g: Graph)
    requires t < |orders|
    requires WellFormed(g0, products, orders)
    ensures WellFormed(g, products, orders)
    ensures forall e :: Lookup(g.weight, e) == Lookup(g0.weight, e) + PairCount(orders[t], e)
  {
    var o := orders[t];
    g := g0;
    var i := 0;
    while i < |o|
      invariant 0 <= i <= |o|
      invariant WellFormed(g, products, orders)
      invariant forall e :: Lookup(g.weight, e) == Lookup(g0.weight, e) + PairsBefore(o, i, e)
    {
      g := FoldRow(g, orders, t, i, products);
      i := i + 1;
    }
  }

  /**
   * `build_cooccurrence_graph`: every product becomes a node, then every pair
   * (order[i], order[j]) with i < j of every order adds 1 to its edge, creating
   * the edge (and any missing end node) with weight 1 the first time.
   */
  method BuildCooccurrenceGraph(products: seq<Product>, orders: seq<seq<Product>>) returns (g: Graph)
    ensures IsCooccurrenceGraph(g, products, orders)
  {
    g := Graph(Dedup(products), map[], []);
    var t := 0;
    while t < |orders|
      invariant 0 <= t <= |orders|
      invariant WellFormed(g, products, orders)
      invariant forall e :: Lookup(g.weight, e) == Weight(orders[..t], e)
    {
      g := FoldOrder(g, orders, t, products);
      assert orders[..t + 1][..t] == orders[..t] && orders[..t + 1][t] == orders[t];
      t := t + 1;
    }
    assert orders[..|orders|] == orders;
  }
}
