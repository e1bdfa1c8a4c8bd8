/**
 * The strongest relationships (backend/simulation.py, top_edges): the graph's
 * edges sorted by weight, heaviest first and stably, cut to the first `topN`,
 * each reported as a source/target/weight record.
 *
 * `G.edges(data=True)` reports each edge with the end that comes first in the
 * node list as its source, and that orientation is modelled. The order in which
 * it lists edges (node by node, each node's neighbours in order of attachment)
 * is not: the graph value lists edges in the order they were created, so only
 * the relative order of equally heavy edges can differ. Every property below
 * holds for any enumeration of the weighted pairs.
 */
module Ranking {
  import opened Collections
  import opened Orders
  import opened Sorting
  import opened Cooccurrence

  /** `{"source": u, "target": v, "weight": w}`. */
  datatype EdgeRecord = EdgeRecord(source: Product, target: Product, weight: nat)

  /** The sort key `lambda x: x[2]["weight"]`. */
  function EdgeWeight(g: Graph): ((Product, Product)) -> int {
    (e: (Product, Product)) => Lookup(g.weight, Key(e.0, e.1))
  }

  /** `sorted(G.edges(data=True), key=..., reverse=True)`. */
  function RankedEdges(g: Graph): seq<(Product, Product)> {
    SortDesc(g.edges, EdgeWeight(g))
  }

  /** The way round networkx reports an edge: the end that comes first in the node list is the source. */
  function Oriented(nodes: seq<Product>, e: (Product, Product)): (r: (Product, Product))
    ensures Key(r.0, r.1) == Key(e.0, e.1)
    ensures e.0 in nodes && e.1 in nodes ==> r.0 in nodes && r.1 in nodes && Pos(nodes, r.0) <= Pos(nodes, r.1)
  {
    if e.0 in nodes && e.1 in nodes && Pos(nodes, e.1) < Pos(nodes, e.0) then (e.1, e.0) else e
  }

  /** `{"source": u, "target": v, "weight": d["weight"]}` for one edge. */
  function Record(g: Graph, e: (Product, Product)): EdgeRecord {
    var o := Oriented(g.nodes, e);
    EdgeRecord(o.0, o.1, Lookup(g.weight, Key(e.0, e.1)))
  }

  /** `top_edges(G, top_n)`: the records of `edges[:top_n]`. */
  function TopEdges(g: Graph, topN: int): (top: seq<EdgeRecord>)
    ensures |top| == |Take(RankedEdges(g), topN)|
    ensures forall k :: 0 <= k < |top| ==> top[k] == Record(g, RankedEdges(g)[k])
  {
    var chosen := Take(RankedEdges(g), topN);
    seq(|chosen|, k requires 0 <= k < |chosen| => Record(g, chosen[k]))
  }

  /** The ranking is a rearrangement of the edge list. */
  lemma RankedEdgesPermutation(g: Graph)
    ensures multiset(RankedEdges(g)) == multiset(g.edges)
    ensures |RankedEdges(g)| == |g.edges|
  {
  }

  /**
   * The ranking is the only arrangement of the edges that is heaviest first and
   * keeps equally heavy edges in their enumeration order.
   */
  lemma RankedEdgesUnique(g: Graph, r: seq<(Product, Product)>)
    requires SortedDesc(r, EdgeWeight(g))
    requires forall h :: KeyFilter(r, EdgeWeight(g), h) == KeyFilter(g.edges, EdgeWeight(g), h)
    ensures r == RankedEdges(g)
  {
    StableSortUnique(g.edges, r, EdgeWeight(g));
  }

  /** `edges[:top_n]` keeps min(top_n, |edges|) records, and a negative top_n drops that many from the end. */
  lemma TopEdgesLength(g: Graph, topN: int)
    ensures 0 <= topN <= |g.edges| ==> |TopEdges(g, topN)| == topN
    ensures topN > |g.edges| ==> |TopEdges(g, topN)| == |g.edges|
    ensures topN < 0 ==> |TopEdges(g, topN)| == if |g.edges| + topN >= 0 then |g.edges| + topN else 0
  {
    RankedEdgesPermutation(g);
  }

  /** The reported weights never increase down the list. */
  lemma TopEdgesDescending(g: Graph, topN: int)
    ensures forall i, j :: 0 <= i < j < |TopEdges(g, topN)| ==> TopEdges(g, topN)[i].weight >= TopEdges(g, topN)[j].weight
  {
    var r := RankedEdges(g);
    var top := TopEdges(g, topN);
    forall i, j | 0 <= i < j < |top| ensures top[i].weight >= top[j].weight {
      assert EdgeWeight(g)(r[i]) >= EdgeWeight(g)(r[j]);
    }
  }

  /** No edge left out is heavier than an edge reported. */
  lemma TopEdgesHeaviest(g: Graph, topN: int)
    ensures forall i, j :: 0 <= i < |TopEdges(g, topN)| <= j < |RankedEdges(g)| ==>
      Lookup(g.weight, Key(RankedEdges(g)[j].0, RankedEdges(g)[j].1)) <= TopEdges(g, topN)[i].weight
  {
    var r := RankedEdges(g);
    var top := TopEdges(g, topN);
    forall i, j | 0 <= i < |top| <= j < |r| ensures EdgeWeight(g)(r[j]) <= top[i].weight {
      assert EdgeWeight(g)(r[i]) >= EdgeWeight(g)(r[j]);
    }
  }

  /**
   * Each reported record is an edge of the graph with its weight, and for the
   * co-occurrence graph of orders without repeated products that weight is
   * the number of orders holding both ends, which are two different products.
   */
  lemma TopEdgesAreCoOccurrences(g: Graph, products: seq<Product>, orders: seq<seq<Product>>, topN: int, top: seq<EdgeRecord>)
    requires IsCooccurrenceGraph(g, products, orders) && DistinctOrders(orders)
    requires top == TopEdges(g, topN)
    ensures forall k :: 0 <= k < |top| ==> Key(top[k].source, top[k].target) in g.weight
    ensures forall k :: 0 <= k < |top| ==>
      top[k].source != top[k].target &&
      top[k].weight == CoCount(orders, top[k].source, top[k].target) >= 1
  {
    var r := RankedEdges(g);
    forall k | 0 <= k < |top|
      ensures Key(top[k].source, top[k].target) in g.weight
      ensures top[k].source != top[k].target
      ensures top[k].weight == CoCount(orders, top[k].source, top[k].target) >= 1
    {
      assert r[k] in multiset(g.edges);
      var m :| 0 <= m < |g.edges| && g.edges[m] == r[k];
      assert Key(top[k].source, top[k].target) == Key(r[k].0, r[k].1);
      EdgeIsCoOccurrence(g, products, orders, top[k].source, top[k].target);
    }
  }

  /** Each record names its ends in node-list order, as networkx reports them, when every edge joins two nodes. */
  lemma TopEdgesOriented(g: Graph, topN: int)
    requires forall k :: 0 <= k < |g.edges| ==> g.edges[k].0 in g.nodes && g.edges[k].1 in g.nodes
    ensures forall k :: 0 <= k < |TopEdges(g, topN)| ==>
      && TopEdges(g, topN)[k].source in g.nodes && TopEdges(g, topN)[k].target in g.nodes
      && Pos(g.nodes, TopEdges(g, topN)[k].source) <= Pos(g.nodes, TopEdges(g, topN)[k].target)
  {
    var r := RankedEdges(g);
    var top := TopEdges(g, topN);
    forall k | 0 <= k < |top|
      ensures top[k].source in g.nodes && top[k].target in g.nodes && Pos(g.nodes, top[k].source) <= Pos(g.nodes, top[k].target)
    {
      assert r[k] in multiset(g.edges);
      var m :| 0 <= m < |g.edges| && g.edges[m] == r[k];
    }
  }

  /** A weighted pair of the co-occurrence graph joins two different products, weighted by their co-occurrences. */
  lemma EdgeIsCoOccurrence(g: Graph, products: seq<Product>, orders: seq<seq<Product>>, u: Product, v: Product)
    requires IsCooccurrenceGraph(g, products, orders) && DistinctOrders(orders)
    requires Key(u, v) in g.weight
    ensures u != v
    ensures g.weight[Key(u, v)] == CoCount(orders, u, v) >= 1
  {
    assert g.weight[Key(u, v)] >= 1;
    assert Lookup(g.weight, Key(u, v)) == Weight(orders, Key(u, v));
    assert u == v ==> Key(u, v) == {u};
    if u == v {
      NoSelfWeight(orders, u);
      assert false;
    }
    WeightIsCoCount(orders, u, v);
  }
}
