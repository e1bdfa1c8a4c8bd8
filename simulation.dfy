/**
 * The whole pipeline of backend/simulation.py, run_simulation: products,
 * orders, the co-occurrence graph, product heat, the random baseline layout,
 * the optimized layout and the ten strongest relationships.
 *
 * The random outcomes (order sizes, sampled positions, shuffle draws) and the
 * labels spectral clustering assigns to the graph's nodes are inputs.
 *
 * product_heat leaves out the products nobody ordered, while optimize_slotting
 * reads `heat[p]` for every node, and the graph holds every product as a node.
 * RunSimulation is the pipeline as written. It raises KeyError exactly when
 * some product is never sampled, and SparseOrdersRaise exhibits such a run.
 * RunCorrectedSimulation gives the optimizer the heat map completed with 0.
 * It never fails, and it returns the same layout whenever the code as written
 * succeeds.
 */
module Simulation {
  import opened Collections
  import opened Orders
  import opened Cooccurrence
  import opened Heat
  import opened Layouts
  import opened Slotting
  import opened Ranking

  const NumProducts: nat := 50
  const NumOrders: nat := 1000
  /** The default `top_n` of top_edges. */
  const TopN: int := 10
  /** `n_clusters` of the spectral clustering. */
  const NumClusters: int := 10

  /** `orders` holds, for every list of sampled positions, the products at those positions: 2 to 6 distinct ones. */
  predicate SampledOrders(products: seq<Product>, picks: seq<seq<nat>>, orders: seq<seq<Product>>) {
    && |orders| == |picks|
    && forall t :: 0 <= t < |orders| ==>
         && IsSample(picks[t], |picks[t]|, |products|)
         && orders[t] == Pick(products, picks[t])
         && ValidOrder(products, orders[t])
  }

  /**
   * Glue between GenerateOrders' postcondition and the later stages: restates
   * per-order validity as SampledOrders, DistinctOrders and AllIn.
   */
  lemma GeneratedOrders(products: seq<Product>, sizes: seq<int>, picks: seq<seq<nat>>, orders: seq<seq<Product>>)
    requires |orders| == |picks| == |sizes|
    requires forall t :: 0 <= t < |picks| ==> IsSample(picks[t], sizes[t], |products|) && orders[t] == Pick(products, picks[t])
    requires forall t :: 0 <= t < |picks| ==> ValidOrder(products, orders[t])
    ensures SampledOrders(products, picks, orders)
    ensures DistinctOrders(orders) && AllIn(orders, products)
  {
    forall t, k | 0 <= t < |orders| && 0 <= k < |orders[t]| ensures orders[t][k] in products {
      assert ValidOrder(products, orders[t]);
    }
  }

  /** When the orders stay inside a universe without repetitions, the graph's nodes are the universe in its order. */
  lemma NodesAreProducts(g: Graph, products: seq<Product>, orders: seq<seq<Product>>)
    requires IsCooccurrenceGraph(g, products, orders)
    requires Distinct(products) && AllIn(orders, products)
    ensures g.nodes == products
  {
    assert NodesOk(g, products, orders);
    DedupDistinct(products);
  }

  /** A product of the universe is ordered exactly when some order sampled its position. */
  lemma SampledIffOrdered(products: seq<Product>, picks: seq<seq<nat>>, orders: seq<seq<Product>>, k: nat)
    requires SampledOrders(products, picks, orders) && Distinct(products) && k < |products|
    ensures Ordered(orders, products[k]) <==> exists t :: 0 <= t < |picks| && k in picks[t]
  {
    if Ordered(orders, products[k]) {
      var t :| 0 <= t < |orders| && products[k] in orders[t];
      var m :| 0 <= m < |orders[t]| && orders[t][m] == products[k];
      assert products[picks[t][m]] == products[k];
      assert picks[t][m] == k;
    }
    if exists t :: 0 <= t < |picks| && k in picks[t] {
      var t :| 0 <= t < |picks| && k in picks[t];
      var m :| 0 <= m < |picks[t]| && picks[t][m] == k;
      assert orders[t][m] == products[k];
    }
  }

  /** Position `k` is in none of the samples. */
  predicate Unsampled(picks: seq<seq<nat>>, k: nat) {
    forall t :: 0 <= t < |picks| ==> k !in picks[t]
  }

  /** Some position of a universe of `n` products is in none of the samples. */
  predicate SomeProductUnsampled(picks: seq<seq<nat>>, n: nat) {
    exists k :: 0 <= k < n && Unsampled(picks, k)
  }

  /**
   * With product_heat's map, some zipped node lacks heat (the condition under
   * which the optimizer raises) exactly when some product's position was never
   * sampled.
   */
  lemma MissingHeatIffUnsampled(products: seq<Product>, picks: seq<seq<nat>>, orders: seq<seq<Product>>,
                                heat: map<Product, nat>, labels: seq<Label>)
    requires SampledOrders(products, picks, orders) && Distinct(products) && |labels| == |products|
    requires forall p :: p in heat <==> Ordered(orders, p)
    ensures (exists k :: 0 <= k < ZipLength(products, labels) && products[k] !in heat)
        <==> SomeProductUnsampled(picks, |products|)
  {
    if exists k :: 0 <= k < ZipLength(products, labels) && products[k] !in heat {
      var k :| 0 <= k < ZipLength(products, labels) && products[k] !in heat;
      SampledIffOrdered(products, picks, orders, k);
      assert Unsampled(picks, k);
    }
    if SomeProductUnsampled(picks, |products|) {
      var k :| 0 <= k < |products| && Unsampled(picks, k);
      SampledIffOrdered(products, picks, orders, k);
      assert 0 <= k < ZipLength(products, labels) && products[k] !in heat;
    }
  }

  /** The completed heat map has a key for every node of the graph, so the optimizer's lookups all succeed. */
  lemma CompleteHeatNeverRaises(nodes: seq<Product>, heat: map<Product, nat>, labels: seq<Label>)
    ensures forall k :: 0 <= k < ZipLength(nodes, labels) ==> nodes[k] in CompleteHeat(nodes, heat)
  {
  }

  /**
   * When every product was ordered, the completed map is product_heat's map
   * itself, so the optimizer's layout is the one the code as written returns.
   */
  lemma CompleteHeatAgrees(products: seq<Product>, orders: seq<seq<Product>>, heat: map<Product, nat>)
    requires AllIn(orders, products)
    requires forall p :: p in heat <==> Ordered(orders, p)
    ensures (forall k :: 0 <= k < |products| ==> products[k] in heat) ==> CompleteHeat(products, heat) == heat
  {
    var full := CompleteHeat(products, heat);
    if !(forall k :: 0 <= k < |products| ==> products[k] in heat) { return; }
    forall p | p in heat ensures p in products {
      var t :| 0 <= t < |orders| && p in orders[t];
      var k :| 0 <= k < |orders[t]| && orders[t][k] == p;
    }
    forall p | p in full ensures p in heat && full[p] == heat[p] {
      if p in products {
        var k :| 0 <= k < |products| && products[k] == p;
      }
    }
    assert full.Keys == heat.Keys;
  }

  /** The inputs run_simulation's random calls and the clustering can produce: sizes, samples, shuffle draws, one label in 0..9 per product. */
  predicate ValidInputs(sizes: seq<int>, picks: seq<seq<nat>>, draws: seq<nat>, labels: seq<Label>) {
    && |sizes| == NumOrders && |picks| == NumOrders
    && (forall t :: 0 <= t < NumOrders ==> 2 <= sizes[t] <= 6 && IsSample(picks[t], sizes[t], NumProducts))
    && ValidDraws(NumProducts, draws)
    && |labels| == NumProducts && (forall k :: 0 <= k < |labels| ==> 0 <= labels[k] < NumClusters)
  }

  /**
   * What run_simulation computes besides the optimized layout: 50 products,
   * the sampled orders, their co-occurrence graph over the products, the heat
   * map, the random layout and the ten heaviest edges.
   */
  ghost predicate Stages(picks: seq<seq<nat>>, draws: seq<nat>, products: seq<Product>, orders: seq<seq<Product>>,
                         heat: map<Product, nat>, graph: Graph, randomLayout: map<Product, nat>, topEdges: seq<EdgeRecord>)
  {
    && products == GenerateProducts(NumProducts)
    && SampledOrders(products, picks, orders)
    && DistinctOrders(orders) && AllIn(orders, products)
    && IsCooccurrenceGraph(graph, products, orders) && graph.nodes == products
    && (forall p :: p in heat <==> Ordered(orders, p))
    && (forall p :: Lookup(heat, p) == HeatCount(orders, p))
    && SumOver(heat, products) == TotalSize(orders)
    && ValidDraws(|products|, draws)
    && randomLayout == NumberBins(Shuffled(products, draws))
    && IsLayout(randomLayout, products)
    && topEdges == TopEdges(graph, TopN)
    && (forall k :: 0 <= k < |topEdges| ==>
          topEdges[k].source != topEdges[k].target &&
          topEdges[k].weight == CoCount(orders, topEdges[k].source, topEdges[k].target) >= 1)
  }

  /** The stages of `run_simulation` other than the optimizer; `orders` is the intermediate order list. */
  method RunStages(sizes: seq<int>, picks: seq<seq<nat>>, draws: seq<nat>)
    returns (products: seq<Product>, heat: map<Product, nat>, graph: Graph, randomLayout: map<Product, nat>,
             topEdges: seq<EdgeRecord>, ghost orders: seq<seq<Product>>)
    requires |sizes| == NumOrders && |picks| == NumOrders
    requires forall t :: 0 <= t < NumOrders ==> 2 <= sizes[t] <= 6 && IsSample(picks[t], sizes[t], NumProducts)
    requires ValidDraws(NumProducts, draws)
    ensures Stages(picks, draws, products, orders, heat, graph, randomLayout, topEdges)
  {
    products := GenerateProducts(NumProducts);
    var generated := GenerateOrders(products, NumOrders, sizes, picks);
    assert generated.Success?;
    var generatedOrders := generated.value;
    orders := generatedOrders;
    GeneratedOrders(products, sizes, picks, orders);

    graph := BuildCooccurrenceGraph(products, generatedOrders);
    NodesAreProducts(graph, products, orders);
    heat := ProductHeat(generatedOrders);
    HeatValuesSum(heat, products, orders);

    randomLayout := RandomLayout(products, draws);

    topEdges := TopEdges(graph, TopN);
    TopEdgesAreCoOccurrences(graph, products, orders, TopN, topEdges);
  }

  /**
   * `run_simulation` as written. The cluster labels stand for `fit_predict`
   * on the graph's adjacency matrix. The optimizer reads product_heat's map,
   * so it raises KeyError exactly when some product is never sampled, and it
   * names a product nobody ordered. Otherwise it returns the optimized layout.
   */
  method RunSimulation(sizes: seq<int>, picks: seq<seq<nat>>, draws: seq<nat>, labels: seq<Label>)
    returns (products: seq<Product>, heat: map<Product, nat>, graph: Graph, randomLayout: map<Product, nat>,
             optimizedLayout: Result<map<Product, nat>, SlotError>, topEdges: seq<EdgeRecord>, ghost orders: seq<seq<Product>>)
    requires ValidInputs(sizes, picks, draws, labels)
    ensures Stages(picks, draws, products, orders, heat, graph, randomLayout, topEdges)
    ensures optimizedLayout.Failure? <==> SomeProductUnsampled(picks, NumProducts)
    ensures optimizedLayout.Failure? ==>
      optimizedLayout.error.product in products && !Ordered(orders, optimizedLayout.error.product)
    ensures optimizedLayout.Success? ==>
      && optimizedLayout.value == NumberBins(ClusterOrder(products, labels, heat))
      && SlotLayout(optimizedLayout.value, products, labels, heat)
  {
    products, heat, graph, randomLayout, topEdges, orders := RunStages(sizes, picks, draws);
    optimizedLayout := OptimizeSlotting(graph.nodes, heat, labels);
    MissingHeatIffUnsampled(products, picks, orders, heat, labels);
  }

  /** Samples of two neighbouring positions below 49; position 48 is paired with 47. */
  function ChainPicks(): (picks: seq<seq<nat>>)
    ensures |picks| == NumOrders
  {
    seq(NumOrders, t => if t < 48 then [t, t + 1] else [0, 1])
  }

  /** Each chain sample is two distinct positions of the universe, and every position but the last is sampled. */
  lemma ChainPicksCover()
    ensures forall t :: 0 <= t < NumOrders ==> IsSample(ChainPicks()[t], 2, NumProducts)
    ensures Unsampled(ChainPicks(), NumProducts - 1)
    ensures forall k :: 0 <= k < NumProducts - 1 ==> !Unsampled(ChainPicks(), k)
  {
    var picks := ChainPicks();
    forall t | 0 <= t < NumOrders ensures IsSample(picks[t], 2, NumProducts) {
      assert picks[t] == if t < 48 then [t, t + 1] else [0, 1];
    }
    forall k | 0 <= k < NumProducts - 1 ensures !Unsampled(picks, k) {
      if k < 48 {
        assert k in picks[k];
      } else {
        assert k in picks[47];
      }
    }
  }

  /**
   * Orders of two neighbouring products among the first 49 leave Product_50
   * unordered. Whatever labels the clustering assigns, the pipeline as written
   * then raises KeyError on Product_50.
   */
  method SparseOrdersRaise(draws: seq<nat>, labels: seq<Label>) returns (r: Result<map<Product, nat>, SlotError>)
    requires ValidDraws(NumProducts, draws)
    requires |labels| == NumProducts && forall k :: 0 <= k < |labels| ==> 0 <= labels[k] < NumClusters
    ensures r.Failure? && r.error.product == ProductName(NumProducts - 1)
  {
    var sizes := seq(NumOrders, t => 2);
    var picks := ChainPicks();
    ChainPicksCover();
    var products, heat, graph, randomLayout, optimized, topEdges;
    ghost var orders;
    products, heat, graph, randomLayout, optimized, topEdges, orders := RunSimulation(sizes, picks, draws, labels);
    assert SomeProductUnsampled(picks, NumProducts);
    r := optimized;
    var k :| 0 <= k < |products| && products[k] == r.error.product;
    SampledIffOrdered(products, picks, orders, k);
    assert Unsampled(picks, k);
  }

  /**
   * `run_simulation` with the heat map completed with 0 for products nobody
   * ordered. Its optimized layout always exists. Whenever the code as written
   * succeeds (every product sampled), it is the layout that code returns.
   */
  method RunCorrectedSimulation(sizes: seq<int>, picks: seq<seq<nat>>, draws: seq<nat>, labels: seq<Label>)
    returns (products: seq<Product>, heat: map<Product, nat>, graph: Graph, randomLayout: map<Product, nat>,
             optimizedLayout: map<Product, nat>, topEdges: seq<EdgeRecord>, ghost orders: seq<seq<Product>>)
    requires ValidInputs(sizes, picks, draws, labels)
    ensures Stages(picks, draws, products, orders, heat, graph, randomLayout, topEdges)
    ensures optimizedLayout == NumberBins(ClusterOrder(products, labels, CompleteHeat(products, heat)))
    ensures SlotLayout(optimizedLayout, products, labels, CompleteHeat(products, heat))
    ensures !SomeProductUnsampled(picks, NumProducts) ==>
      optimizedLayout == NumberBins(ClusterOrder(products, labels, heat))
  {
    products, heat, graph, randomLayout, topEdges, orders := RunStages(sizes, picks, draws);
    var full := CompleteHeat(graph.nodes, heat);
    CompleteHeatNeverRaises(graph.nodes, heat, labels);
    var optimized := OptimizeSlotting(graph.nodes, full, labels);
    assert optimized.Success?;
    optimizedLayout := optimized.value;
    MissingHeatIffUnsampled(products, picks, orders, heat, labels);
    CompleteHeatAgrees(products, orders, heat);
  }
}
