# Warehouse slotting simulation, modelled in Dafny

This project models the optimization engine of the Waregraph supply-chain
optimizer, `backend/simulation.py`. The engine does six things:

1. It generates a universe of products (`Product_1` … `Product_N`).
2. It generates synthetic orders of 2 to 6 distinct products.
3. It folds the orders into an undirected co-occurrence graph. Each unordered pair of products in an order adds 1 to that pair's edge weight.
4. It counts the "heat" of each product: the number of times the product is picked.
5. It produces two bin layouts:
   - a random baseline, which shuffles the product list and numbers it 1..N;
   - an optimized layout, which groups products by cluster label, sorts each group by heat (highest first, stably), concatenates the groups and numbers the result 1..N.
6. It ranks the strongest relationships: the edges sorted by weight, heaviest first and stably, cut to `top_n` records.

Modules, one per stage; `Collections` and `Sorting` are shared vocabulary:

- `Collections` (collections.dfy): `Distinct`, `Lookup` (a dict read with default 0), `Dedup` (first-occurrence order, as a dict's keys keep it), `Pos`, and `Take` (a Python slice `s[:n]`, negative `n` included).
- `Sorting` (sorting.dfy): Python's `sort(key=..., reverse=True)`, modelled as a stable insertion sort by descending key. It is proved to be the *only* ordering that is both descending and stable.
- `Orders` (orders.dfy): `generate_products` and `generate_orders`.
- `Cooccurrence` (graph.dfy): `build_cooccurrence_graph`.
  - The graph is a node list, a map from unordered pairs to weights (a pair is a set of one or two products; a self-pair would be the one-element set), and the edges in creation order.
  - The nested loops are two loop methods.
- `Heat` (heat.dfy): `product_heat`, as a loop method over a map.
- `Layouts` (layout.dfy): bin numbering, plus `random_layout`.
  - `random_layout` copies the product list into an array and runs CPython's in-place Fisher–Yates walk on that copy.
- `Slotting` (slotting.dfy): `optimize_slotting`.
  - Grouping fills a map in a loop, in insertion order.
  - The group sort and the concatenation form a loop that can fail with `KeyError`.
  - Numbering is a function.
- `Ranking` (ranking.dfy): `top_edges`.
- `Simulation` (simulation.dfy): `run_simulation`.

Randomness and the clustering library are inputs, not computations:

- `sizes[t]` is the outcome of `random.randint(2, 6)` for order `t`.
- `picks[t]` is the list of positions `random.sample` chose.
- `draws[k]` is the position `random.shuffle` swaps with at its k-th step.
- `labels[k]` is the cluster label `SpectralClustering.fit_predict` assigned to the k-th graph node.

Every property is proved for *all* such inputs.

Two parts of the code do not fit together:
- `product_heat` (backend/simulation.py:64-67) gives a key only to products that occur in some order.
- `optimize_slotting` reads `heat[p]` (backend/simulation.py:112) for every node of the graph.
- The graph holds every product as a node (backend/simulation.py:45-46).

So the code's own consumer of the heat map needs a key for every product. `Simulation.RunSimulation` models the code as written, including the KeyError. `Simulation.RunCorrectedSimulation` models the evidently intended pipeline, with heat 0 for products nobody ordered. Both are described under "## Findings".

## Model

| member | source | states |
|---|---|---|
| Orders.GenerateProducts | backend/simulation.py:23-24 | exactly N names, the i-th is `Product_` followed by the decimal digits of i+1, and no two are equal |
| Orders.DecimalInjective | backend/simulation.py:24 | different numbers give different decimal spellings, which is why the product names are distinct |
| Orders.PickValid | backend/simulation.py:34-35 | a sample of 2 to 6 distinct positions in a universe without repetitions yields an order of 2 to 6 distinct products of the universe |
| Orders.GenerateOrders | backend/simulation.py:27-36 | succeeds exactly when no drawn size exceeds the universe; otherwise it reports the first oversized order (random.sample's ValueError). On success there is one order per iteration, holding the products at the sampled positions, and each order is valid |
| Cooccurrence.AddPair | backend/simulation.py:52-55 | the pair {u,v} gains 1 (a new edge starts at 1) and every other weight is unchanged |
| Cooccurrence.AddNode | backend/simulation.py:55 | `add_edge` adds a missing end to the node list; the result contains the old nodes and the new one, keeps them distinct, and leaves the list unchanged for a known node |
| Cooccurrence.AddPairWellFormed | backend/simulation.py:51-55 | one update keeps the graph well formed: weights at least 1, the edge list naming each weighted pair once, edge ends among the nodes, distinct nodes that hold every product and nothing but products and ordered items, and the nodes equal to the products when the orders stay inside them |
| Cooccurrence.FoldRow | backend/simulation.py:50-55 | the inner loop adds, to each pair, the number of later positions j with {order[i], order[j]} equal to it |
| Cooccurrence.FoldOrder | backend/simulation.py:49-55 | one order adds to each pair the number of index pairs i<j that form it |
| Cooccurrence.BuildCooccurrenceGraph | backend/simulation.py:39-57 | every weight is the number of index pairs i<j, over all orders, that form the pair; the graph is well formed, and its nodes are the products in order when the orders stay inside them |
| Cooccurrence.WeightIsCoCount | backend/simulation.py:48-55 | for orders without repeated products, the weight of {u,v} (u≠v) is the number of orders containing both u and v |
| Cooccurrence.NoSelfWeight | backend/simulation.py:48-55 | for orders without repeated products, there are no self-edges |
| Cooccurrence.WeightAddsOrder | backend/simulation.py:48-55 | appending an order without repeated products adds 1 to {u,v} (u≠v) if the order holds both, and 0 otherwise |
| Heat.HeatCountPositive | backend/simulation.py:64-67 | a product's pick count is positive exactly when some order contains it |
| Heat.HeatIsOrdersContaining | backend/simulation.py:64-67 | for orders without repeated products, the pick count is the number of orders containing the product |
| Heat.ProductHeat | backend/simulation.py:60-68 | the keys are exactly the products occurring in some order, and each value is that product's pick count |
| Heat.HeatSum | backend/simulation.py:64-67 | over a universe without repetitions that holds every ordered product, the pick counts add up to the sum of the order sizes |
| Heat.HeatValuesSum | backend/simulation.py:64-67 | the heat values, read over the universe with 0 for missing keys, add up to the sum of the order sizes |
| Heat.CompleteHeat | backend/simulation.py:112 | the corrected heat map has a key for every product and for every ordered product, and reads the same as the original everywhere |
| Layouts.NumberBins | backend/simulation.py:77 | `{p: i + 1 for i, p in enumerate(s)}` has exactly the products of s as keys |
| Layouts.NumberBinsAt | backend/simulation.py:77 | in an ordering without repetitions, the product at position k gets bin k+1 |
| Layouts.NumberBinsLayout | backend/simulation.py:77 | numbering any rearrangement of a product list without repetitions is a bijection from the products onto 1..N |
| Layouts.Shuffle | backend/simulation.py:76 | the array ends as the Fisher–Yates walk over the draws leaves it, and it is a rearrangement of its old contents |
| Layouts.RandomLayout | backend/simulation.py:71-77 | the layout numbers the shuffled copy, its keys are the products, and for a product list without repetitions it is a bijection onto 1..N |
| Sorting.SortDesc | backend/simulation.py:112 | the sorted list is a rearrangement of the input and descending by key |
| Sorting.SortStable | backend/simulation.py:112 | the elements with one key value keep their input order |
| Sorting.StableSortUnique | backend/simulation.py:112 | any list that is descending, and keeps each key class in input order, is the sort's result |
| Sorting.SortHeavierFirst | backend/simulation.py:112 | when the input is in increasing rank order, a heavier element precedes a lighter one, and elements of equal weight keep rank order |
| Slotting.Groups | backend/simulation.py:105-107 | after n pairs, the keys are the labels seen so far, and each maps to the products carrying it, in node order |
| Slotting.GroupStep | backend/simulation.py:106-107 | one `setdefault(label, []).append(product)` adds one member to one group, creating the group if the label is new |
| Slotting.GroupByLabel | backend/simulation.py:105-107 | the grouping loop yields Groups over the zipped pairs, with keys in first-occurrence order |
| Slotting.ClusterValues | backend/simulation.py:111 | `clusters.values()` lists each group in key insertion order |
| Slotting.FirstMissing | backend/simulation.py:112 | the sort's key function reads heat for every member before the first that has none |
| Slotting.SortClusters | backend/simulation.py:110-113 | succeeds exactly when every member has heat, and then returns each group sorted by heat and concatenated; otherwise it names a member whose lookup raises |
| Slotting.ArrangeIsSortEach | backend/simulation.py:110-113 | the loop's concatenation is ClusterOrder's arrangement |
| Slotting.ClusterOrderSorted | backend/simulation.py:105-116 | the final order is a rearrangement of the nodes, ordered by the first appearance of the cluster label, then by heat descending, then by node position |
| Slotting.ClustersContiguous | backend/simulation.py:105-113 | a cluster's products occupy one contiguous run: anything between two of its members belongs to it |
| Slotting.ClusterOrderShape | backend/simulation.py:105-113 | clusters appear in first-occurrence order of their labels; within a cluster, higher heat comes first and ties keep node-list order |
| Slotting.SlotBeforeAsymmetric | backend/simulation.py:105-113 | the slot order never puts two products before each other |
| Slotting.OptimizedLayout | backend/simulation.py:105-116 | numbering the final order is a bijection onto 1..N and gives p an earlier bin than q whenever p precedes q in that order |
| Slotting.SlotBinsOrdered | backend/simulation.py:116 | in any order sorted by the slot order, the earlier product gets the smaller bin |
| Slotting.OptimizeSlotting | backend/simulation.py:80-116 | raises KeyError exactly when a zipped node has no heat entry, naming such a node; otherwise it returns the numbering of ClusterOrder, which is a SlotLayout |
| Ranking.TopEdges | backend/simulation.py:119-131 | record k is the k-th edge of the ranking with its weight, and there are as many records as `edges[:top_n]` keeps |
| Ranking.RankedEdgesPermutation | backend/simulation.py:123-127 | the ranking is a rearrangement of the edge list |
| Ranking.RankedEdgesUnique | backend/simulation.py:123-127 | the ranking is the only arrangement of the edges that is heaviest first and keeps equally heavy edges in enumeration order |
| Ranking.TopEdgesLength | backend/simulation.py:130 | there are min(top_n, edges) records, and a negative top_n drops that many from the end |
| Ranking.TopEdgesDescending | backend/simulation.py:123-131 | reported weights never increase down the list |
| Ranking.TopEdgesHeaviest | backend/simulation.py:123-131 | no edge left out is heavier than any edge reported |
| Ranking.EdgeIsCoOccurrence | backend/simulation.py:128-129 | a weighted pair of the co-occurrence graph joins two different products, and its weight is their number of shared orders, at least 1 |
| Ranking.Oriented | backend/simulation.py:124 | `G.edges(data=True)` names an edge's ends with the one earlier in the node list first; the pair stays the same unordered pair |
| Ranking.TopEdgesOriented | backend/simulation.py:124-129 | each record's source comes no later in the node list than its target, both being nodes |
| Ranking.TopEdgesAreCoOccurrences | backend/simulation.py:128-131 | every record is an edge of the graph between two different products, weighted by the number of orders holding both |
| Simulation.NodesAreProducts | backend/simulation.py:45-46 | when the orders stay inside a universe without repetitions, the graph's nodes are exactly the products, in order, including those never ordered |
| Simulation.SampledIffOrdered | backend/simulation.py:33-35 | a product is ordered, and so has a heat key, exactly when some order sampled its position |
| Simulation.MissingHeatIffUnsampled | backend/simulation.py:112 | with product_heat's map, some node lacks heat (the optimizer's failure condition) exactly when some product's position was never sampled |
| Simulation.ChainPicksCover | backend/simulation.py:34-35 | the exhibit's samples are valid 2-product samples that reach every position except Product_50's |
| Simulation.SparseOrdersRaise | backend/simulation.py:112 | 1000 orders of two neighbouring products among Product_1..Product_49, under any labels in 0..9: the pipeline as written raises KeyError on Product_50 |
| Simulation.CompleteHeatNeverRaises | backend/simulation.py:112 | with the completed heat map, every zipped node has heat |
| Simulation.CompleteHeatAgrees | backend/simulation.py:112 | when every product was ordered, the completed map is product_heat's map itself |
| Simulation.RunStages | backend/simulation.py:135-147 | 50 products; sampled orders without repeats inside the universe; the co-occurrence graph with the products as its nodes; heat keyed by the ordered products, counting them, summing to the order sizes; a random bijective layout; the ten heaviest edges as co-occurrence records |
| Simulation.RunSimulation | backend/simulation.py:134-148 | everything RunStages states, and the optimizer as written: KeyError exactly when some product's position is never sampled, naming a product nobody ordered; otherwise the numbering of ClusterOrder under product_heat's map, a SlotLayout |
| Simulation.RunCorrectedSimulation | backend/simulation.py:134-148 | everything RunStages states, and an optimized layout that always exists: the numbering of ClusterOrder under the completed heat map, a SlotLayout, equal to the as-written layout whenever every product is sampled |

## Left out

- frontend/app.py and backend/main.py: presentation, HTTP serving and the cached result. They hold no logic of the engine.
- `nx.to_numpy_array` and `SpectralClustering(...).fit_predict` (backend/simulation.py:95-103): floating-point eigen-decomposition and k-means in a foreign library. Their output is the `labels` input, one label in 0..9 per node. `random_state=42` only fixes that library's result, so it has no counterpart here.
- `index` (backend/simulation.py:92) is built and never read.
- `random.randint`, `random.sample` and `random.shuffle`: their outcomes are inputs satisfying what those calls guarantee. Uniformity of the shuffle is a statement about probabilities, which is not modelled.
- networkx's graph object: the graph is a node list, a weight map on unordered pairs, and the edges in creation order.
  - `G.edges(data=True)` lists edges node by node, each node's neighbours in order of attachment. The ranking sorts the creation-order list instead.
  - Every ranking property is proved for whatever enumeration is given. The records are oriented as networkx orients them (Ranking.Oriented). So the only difference that remains is which of two equally heavy edges comes first.
- Layouts.RandomLayout: the product list is a value, so the shuffle cannot alter it. This is the guarantee `products[:]` gives; aliasing is not modelled.
- Slotting.SortClusters: the in-place `cluster_products.sort(...)` is modelled on values, as SortDesc of the group. The grouping, the failing lookups and `final_order.extend` are a loop.
- `NUM_PRODUCTS`, `NUM_ORDERS`, `n_clusters` and `top_n`: every operation takes them as parameters. Only Simulation.RunStages, Simulation.RunSimulation and Simulation.RunCorrectedSimulation fix them at 50, 1000, 10 and 10.
- The `KeyError` at backend/simulation.py:112 is a `Failure(MissingHeat(p))` result, not an exception. Simulation.RunSimulation returns it as the optimized layout and still returns the other stages, which the exception would discard along with the whole report.
- Simulation.SparseOrdersRaise: spectral clustering is not modelled, so the exhibit holds for every label sequence in 0..9. The real `fit_predict` produces one of these on that 50-node graph.
- Python dicts are Dafny maps, plus a key sequence where insertion order matters (the cluster keys).

## Findings

| source | as written | input that shows it | evidently intended | confidence | as-written member | corrected member |
|---|---|---|---|---|---|---|
| backend/simulation.py:64-67, 112 | `product_heat` creates keys only for ordered products. `optimize_slotting` then reads `heat[p]` for every node of the graph, and the graph has every product as a node (lines 45-46) | 50 products and 1000 orders of two products each: order k (k = 1..48) holds Product_k and Product_k+1, and the rest hold Product_1 and Product_2. Clustering gets a 50-node graph, but Product_50 is never ordered, so `heat["Product_50"]` raises KeyError | a product nobody ordered has heat 0, so the optimizer returns a layout | not executed | Simulation.RunSimulation, Simulation.SparseOrdersRaise | Heat.CompleteHeat, Simulation.RunCorrectedSimulation |
