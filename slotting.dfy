/**
 * The optimized layout of backend/simulation.py, optimize_slotting.
 *
 * Spectral clustering is an input: `labels[k]` is the cluster label that
 * `SpectralClustering.fit_predict` gave the k-th node. What remains is the
 * source's own work: group the nodes by label in the order each label first
 * appears (dict insertion order), sort each group by heat, highest first and
 * stably, concatenate the groups and number the result 1..N.
 *
 * ClusterOrderSorted characterises the outcome completely: the layout orders
 * products by the first appearance of their cluster's label, then by heat,
 * descending, then by their position in the node list.
 */
module Slotting {
  import opened Collections
  import opened Orders
  import opened Sorting
  import opened Layouts

  type Label = int

  /** `zip(products, labels)` stops at the shorter list. */
  function ZipLength(products: seq<Product>, labels: seq<Label>): nat {
    if |products| <= |labels| then |products| else |labels|
  }

  /** The sort key `lambda p: heat[p]`, reading 0 for a product that has no heat entry. */
  function HeatOf(heat: map<Product, nat>): Product -> int {
    p => Lookup(heat, p)
  }

  /** A product's position in the node list: the order a stable sort keeps among equal keys. */
  function PosIn(products: seq<Product>): Product -> int {
    p => if p in products then Pos(products, p) else -1
  }

  /** The products among the first `n` whose label is `c`, in node-list order. */
  function Members(products: seq<Product>, labels: seq<Label>, c: Label, n: nat): seq<Product>
    requires n <= |products| && n <= |labels|
  {
    if n == 0 then []
    else Members(products, labels, c, n - 1) + (if labels[n - 1] == c then [products[n - 1]] else [])
  }

  /** The groups for `keys`, each sorted by heat, concatenated in the order of `keys`. */
  function Arrange(products: seq<Product>, labels: seq<Label>, heat: map<Product, nat>, keys: seq<Label>, n: nat): seq<Product>
    requires n <= |products| && n <= |labels|
  {
    if keys == [] then []
    else
      Arrange(products, labels, heat, keys[..|keys| - 1], n)
        + SortDesc(Members(products, labels, keys[|keys| - 1], n), HeatOf(heat))
  }

  /** `final_order`: the groups in first-occurrence order of their labels. */
  function ClusterOrder(products: seq<Product>, labels: seq<Label>, heat: map<Product, nat>): seq<Product> {
    var n := ZipLength(products, labels);
    Arrange(products, labels, heat, Dedup(labels[..n]), n)
  }

  // ---------------------------------------------------------------------------
  // The order the optimizer produces, for a node list without repetitions and
  // one label per node.

  /** The label of product `p`. */
  function LabelOf(products: seq<Product>, labels: seq<Label>, p: Product): Label
    requires p in products && |products| <= |labels|
  {
    labels[Pos(products, p)]
  }

  /** Where the label of `p` first appears: the position of p's cluster among the groups. */
  function ClusterRank(products: seq<Product>, labels: seq<Label>, p: Product): nat
    requires p in products && |products| <= |labels|
  {
    Pos(labels, LabelOf(products, labels, p))
  }

  /**
   * `p` gets an earlier bin than `q`: its cluster comes first, or they share a
   * cluster and `p` is hotter, or they are equally hot and `p` comes first in
   * the node list.
   */
  predicate SlotBefore(products: seq<Product>, labels: seq<Label>, heat: map<Product, nat>, p: Product, q: Product)
    requires p in products && q in products && |products| <= |labels|
  {
    var cp, cq := ClusterRank(products, labels, p), ClusterRank(products, labels, q);
    || cp < cq
    || (cp == cq && Lookup(heat, p) > Lookup(heat, q))
    || (cp == cq && Lookup(heat, p) == Lookup(heat, q) && Pos(products, p) < Pos(products, q))
  }

  /** A sequence of products ordered by SlotBefore. */
  predicate SlotSorted(products: seq<Product>, labels: seq<Label>, heat: map<Product, nat>, s: seq<Product>)
    requires |products| <= |labels|
  {
    && (forall i :: 0 <= i < |s| ==> s[i] in products)
    && (forall i, j :: 0 <= i < j < |s| ==> SlotBefore(products, labels, heat, s[i], s[j]))
  }

  /** SlotBefore is a strict order: never both ways. */
  lemma SlotBeforeAsymmetric(products: seq<Product>, labels: seq<Label>, heat: map<Product, nat>, p: Product, q: Product)
    requires p in products && q in products && |products| <= |labels|
    requires SlotBefore(products, labels, heat, p, q)
    ensures !SlotBefore(products, labels, heat, q, p)
  {
  }

  /** Every member of group `c` is one of the first `n` products and is labelled `c`. */
  lemma {:induction false} MembersLabelled(products: seq<Product>, labels: seq<Label>, c: Label, n: nat)
    requires Distinct(products) && n <= |products| <= |labels|
    ensures forall m :: 0 <= m < |Members(products, labels, c, n)| ==>
      && Members(products, labels, c, n)[m] in products
      && Pos(products, Members(products, labels, c, n)[m]) < n
      && LabelOf(products, labels, Members(products, labels, c, n)[m]) == c
  {
    if n > 0 {
      MembersLabelled(products, labels, c, n - 1);
      DistinctPos(products, n - 1);
    }
  }

  /** A group lists its members in node-list order. */
  lemma {:induction false} MembersIncreasing(products: seq<Product>, labels: seq<Label>, c: Label, n: nat)
    requires Distinct(products) && n <= |products| <= |labels|
    ensures RankIncreasing(Members(products, labels, c, n), PosIn(products))
  {
    if n > 0 {
      MembersIncreasing(products, labels, c, n - 1);
      MembersLabelled(products, labels, c, n - 1);
      DistinctPos(products, n - 1);
    }
  }

  /** Each of the first `n` products is in the group of its own label. */
  lemma {:induction false} MembersContains(products: seq<Product>, labels: seq<Label>, k: nat, n: nat)
    requires k < n <= |products| && n <= |labels|
    ensures products[k] in Members(products, labels, labels[k], n)
  {
    if k < n - 1 {
      MembersContains(products, labels, k, n - 1);
    }
  }

  /** Every member of a group is one of the first `n` products. */
  lemma {:induction false} MembersFromPrefix(products: seq<Product>, labels: seq<Label>, c: Label, n: nat)
    requires n <= |products| && n <= |labels|
    ensures forall x :: x in Members(products, labels, c, n) ==> x in products[..n]
  {
    if n > 0 {
      MembersFromPrefix(products, labels, c, n - 1);
      assert products[..n] == products[..n - 1] + [products[n - 1]];
    }
  }

  /** A label that does not occur among the first `n` has an empty group. */
  lemma {:induction false} MembersAbsent(products: seq<Product>, labels: seq<Label>, c: Label, n: nat)
    requires n <= |products| && n <= |labels|
    requires c !in labels[..n]
    ensures Members(products, labels, c, n) == []
  {
    if n > 0 {
      assert labels[..n - 1] == labels[..n][..n - 1];
      assert labels[n - 1] == labels[..n][n - 1];
      MembersAbsent(products, labels, c, n - 1);
    }
  }

  // ---------------------------------------------------------------------------
  // The groups together hold every product once.

  /** The multiset union of the groups for `keys`. */
  function GroupsUnion(products: seq<Product>, labels: seq<Label>, keys: seq<Label>, n: nat): multiset<Product>
    requires n <= |products| && n <= |labels|
  {
    if keys == [] then multiset{}
    else GroupsUnion(products, labels, keys[..|keys| - 1], n) + multiset(Members(products, labels, keys[|keys| - 1], n))
  }

  lemma {:induction false} GroupsUnionStep(products: seq<Product>, labels: seq<Label>, keys: seq<Label>, n: nat)
    requires n < |products| && n < |labels|
    requires Distinct(keys)
    ensures GroupsUnion(products, labels, keys, n + 1)
         == GroupsUnion(products, labels, keys, n) + (if labels[n] in keys then multiset{products[n]} else multiset{})
  {
    if keys != [] {
      var init := keys[..|keys| - 1];
      assert Distinct(init);
      GroupsUnionStep(products, labels, init, n);
      assert keys == init + [keys[|keys| - 1]];
      assert labels[n] in keys <==> labels[n] in init || labels[n] == keys[|keys| - 1];
      assert labels[n] == keys[|keys| - 1] ==> labels[n] !in init;
    }
  }

  /** A label seen for the first time at position m opens a group holding just products[m]. */
  lemma NewGroup(products: seq<Product>, labels: seq<Label>, m: nat)
    requires m < |products| && m < |labels|
    requires labels[m] !in Dedup(labels[..m])
    ensures GroupsUnion(products, labels, Dedup(labels[..m]) + [labels[m]], m + 1)
         == GroupsUnion(products, labels, Dedup(labels[..m]), m) + multiset{products[m]}
  {
    var keys := Dedup(labels[..m]);
    var keys' := keys + [labels[m]];
    assert keys'[..|keys'| - 1] == keys;
    assert labels[m] !in labels[..m];
    MembersAbsent(products, labels, labels[m], m);
    assert Members(products, labels, labels[m], m + 1) == [products[m]];
    GroupsUnionStep(products, labels, keys, m);
  }

  /** One more product: the groups grow by exactly that product. */
  lemma GroupsCoverStep(products: seq<Product>, labels: seq<Label>, m: nat)
    requires m < |products| && m < |labels|
    ensures GroupsUnion(products, labels, Dedup(labels[..m + 1]), m + 1)
         == GroupsUnion(products, labels, Dedup(labels[..m]), m) + multiset{products[m]}
  {
    var keys := Dedup(labels[..m]);
    DedupSnoc(labels, m);
    if labels[m] in keys {
      GroupsUnionStep(products, labels, keys, m);
    } else {
      NewGroup(products, labels, m);
    }
  }

  /** The multiset of the first `n` products, built one product at a time. */
  function PrefixBag(products: seq<Product>, n: nat): multiset<Product>
    requires n <= |products|
  {
    if n == 0 then multiset{} else PrefixBag(products, n - 1) + multiset{products[n - 1]}
  }

  lemma {:induction false} PrefixBagIsMultiset(products: seq<Product>, n: nat)
    requires n <= |products|
    ensures PrefixBag(products, n) == multiset(products[..n])
  {
    if n > 0 {
      PrefixBagIsMultiset(products, n - 1);
      assert products[..n] == products[..n - 1] + [products[n - 1]];
    } else {
      assert products[..0] == [];
    }
  }

  /** The groups of the labels seen among the first `n` products hold exactly those products. */
  lemma {:induction false} GroupsCover(products: seq<Product>, labels: seq<Label>, n: nat)
    requires n <= |products| && n <= |labels|
    ensures GroupsUnion(products, labels, Dedup(labels[..n]), n) == PrefixBag(products, n)
  {
    if n > 0 {
      GroupsCover(products, labels, n - 1);
      GroupsCoverStep(products, labels, n - 1);
    } else {
      assert labels[..0] == [];
    }
  }

  /** Concatenating the sorted groups loses and duplicates nothing. */
  lemma {:induction false} ArrangeUnion(products: seq<Product>, labels: seq<Label>, heat: map<Product, nat>, keys: seq<Label>, n: nat)
    requires n <= |products| && n <= |labels|
    ensures multiset(Arrange(products, labels, heat, keys, n)) == GroupsUnion(products, labels, keys, n)
  {
    if keys != [] {
      ArrangeUnion(products, labels, heat, keys[..|keys| - 1], n);
    }
  }

  // ---------------------------------------------------------------------------
  // The groups come in first-occurrence order; inside a group, hottest first.

  /** A group sorted by heat holds products labelled c. */
  lemma SortedGroupMembers(products: seq<Product>, labels: seq<Label>, heat: map<Product, nat>, c: Label)
    requires Distinct(products) && |products| == |labels|
    ensures forall m :: 0 <= m < |SortDesc(Members(products, labels, c, |products|), HeatOf(heat))| ==>
      var x := SortDesc(Members(products, labels, c, |products|), HeatOf(heat))[m];
      x in products && LabelOf(products, labels, x) == c
  {
    var group := Members(products, labels, c, |products|);
    var b := SortDesc(group, HeatOf(heat));
    MembersLabelled(products, labels, c, |products|);
    forall m | 0 <= m < |b| ensures b[m] in products && LabelOf(products, labels, b[m]) == c {
      assert b[m] in multiset(group);
      var g :| 0 <= g < |group| && group[g] == b[m];
    }
  }

  /** Two products of one cluster, the first hotter, or as hot and earlier in the node list, are SlotBefore-ordered. */
  lemma SameClusterBefore(products: seq<Product>, labels: seq<Label>, heat: map<Product, nat>, c: Label, p: Product, q: Product)
    requires |products| == |labels|
    requires p in products && LabelOf(products, labels, p) == c
    requires q in products && LabelOf(products, labels, q) == c
    requires HeatOf(heat)(p) > HeatOf(heat)(q) || (HeatOf(heat)(p) == HeatOf(heat)(q) && PosIn(products)(p) < PosIn(products)(q))
    ensures SlotBefore(products, labels, heat, p, q)
  {
  }

  /** A group sorted by heat: all its members carry label c, and it is ordered by SlotBefore. */
  lemma SortedGroup(products: seq<Product>, labels: seq<Label>, heat: map<Product, nat>, c: Label)
    requires Distinct(products) && |products| == |labels|
    ensures forall m :: 0 <= m < |SortDesc(Members(products, labels, c, |products|), HeatOf(heat))| ==>
      var x := SortDesc(Members(products, labels, c, |products|), HeatOf(heat))[m];
      x in products && LabelOf(products, labels, x) == c
    ensures SlotSorted(products, labels, heat, SortDesc(Members(products, labels, c, |products|), HeatOf(heat)))
  {
    var group := Members(products, labels, c, |products|);
    var b := SortDesc(group, HeatOf(heat));
    SortedGroupMembers(products, labels, heat, c);
    MembersIncreasing(products, labels, c, |products|);
    SortHeavierFirst(group, HeatOf(heat), PosIn(products));
    forall i, j | 0 <= i < j < |b| ensures SlotBefore(products, labels, heat, b[i], b[j]) {
      SameClusterBefore(products, labels, heat, c, b[i], b[j]);
    }
  }

  /** Two SlotBefore-ordered sequences, the first wholly before the second, concatenate to one. */
  lemma SlotSortedConcat(products: seq<Product>, labels: seq<Label>, heat: map<Product, nat>, a: seq<Product>, b: seq<Product>)
    requires |products| <= |labels|
    requires SlotSorted(products, labels, heat, a) && SlotSorted(products, labels, heat, b)
    requires forall i, j :: 0 <= i < |a| && 0 <= j < |b| ==> SlotBefore(products, labels, heat, a[i], b[j])
    ensures SlotSorted(products, labels, heat, a + b)
  {
    var s := a + b;
    forall i | 0 <= i < |s| ensures s[i] in products {
      if i < |a| { assert s[i] == a[i]; } else { assert s[i] == b[i - |a|]; }
    }
    forall i, j | 0 <= i < j < |s| ensures SlotBefore(products, labels, heat, s[i], s[j]) {
      if j < |a| {
        assert s[i] == a[i] && s[j] == a[j];
      } else if i >= |a| {
        assert s[i] == b[i - |a|] && s[j] == b[j - |a|];
      } else {
        assert s[i] == a[i] && s[j] == b[j - |a|];
      }
    }
  }

  /** Appending the q-th sorted group keeps the concatenation ordered by SlotBefore. */
  lemma ArrangeSortedStep(products: seq<Product>, labels: seq<Label>, heat: map<Product, nat>, keys: seq<Label>, q: nat)
    requires Distinct(products) && |products| == |labels|
    requires 0 < q <= |keys| && keys[q - 1] in labels
    requires SlotSorted(products, labels, heat, Arrange(products, labels, heat, keys[..q - 1], |products|))
    requires forall x :: x in Arrange(products, labels, heat, keys[..q - 1], |products|) ==>
      x in products && Pos(labels, LabelOf(products, labels, x)) < Pos(labels, keys[q - 1])
    ensures SlotSorted(products, labels, heat, Arrange(products, labels, heat, keys[..q], |products|))
  {
    var n := |products|;
    var c := keys[q - 1];
    assert keys[..q][..q - 1] == keys[..q - 1];
    var a := Arrange(products, labels, heat, keys[..q - 1], n);
    var b := SortDesc(Members(products, labels, c, n), HeatOf(heat));
    assert Arrange(products, labels, heat, keys[..q], n) == a + b;
    SortedGroup(products, labels, heat, c);
    forall i, j | 0 <= i < |a| && 0 <= j < |b| ensures SlotBefore(products, labels, heat, a[i], b[j]) {
      assert a[i] in a;
    }
    SlotSortedConcat(products, labels, heat, a, b);
  }

  /** Every product placed by the groups for `keys` carries one of those labels. */
  lemma {:induction false} ArrangeLabels(products: seq<Product>, labels: seq<Label>, heat: map<Product, nat>, keys: seq<Label>)
    requires Distinct(products) && |products| == |labels|
    ensures forall x :: x in Arrange(products, labels, heat, keys, |products|) ==>
      x in products && LabelOf(products, labels, x) in keys
  {
    if keys != [] {
      var n := |products|;
      var c := keys[|keys| - 1];
      var init := keys[..|keys| - 1];
      ArrangeLabels(products, labels, heat, init);
      var group := Members(products, labels, c, n);
      MembersLabelled(products, labels, c, n);
      forall x | x in Arrange(products, labels, heat, keys, n)
        ensures x in products && LabelOf(products, labels, x) in keys
      {
        if x !in Arrange(products, labels, heat, init, n) {
          assert x in multiset(SortDesc(group, HeatOf(heat)));
          var g :| 0 <= g < |group| && group[g] == x;
        } else {
          assert forall y :: y in init ==> y in keys;
        }
      }
    }
  }

  /** The groups for a prefix of the first-occurrence key order are ordered by SlotBefore. */
  lemma {:induction false} ArrangeSorted(products: seq<Product>, labels: seq<Label>, heat: map<Product, nat>, q: nat)
    requires Distinct(products) && |products| == |labels|
    requires q <= |Dedup(labels)|
    ensures SlotSorted(products, labels, heat, Arrange(products, labels, heat, Dedup(labels)[..q], |products|))
  {
    if q > 0 {
      ArrangeSorted(products, labels, heat, q - 1);
      EarlierGroups(products, labels, heat, q);
      ArrangeSortedStep(products, labels, heat, Dedup(labels), q);
    }
  }

  /** The products of the first q - 1 groups carry labels that first occur before the q-th key. */
  lemma EarlierGroups(products: seq<Product>, labels: seq<Label>, heat: map<Product, nat>, q: nat)
    requires Distinct(products) && |products| == |labels|
    requires 0 < q <= |Dedup(labels)|
    ensures forall x :: x in Arrange(products, labels, heat, Dedup(labels)[..q - 1], |products|) ==>
      x in products && Pos(labels, LabelOf(products, labels, x)) < Pos(labels, Dedup(labels)[q - 1])
  {
    var keys := Dedup(labels);
    ArrangeLabels(products, labels, heat, keys[..q - 1]);
    forall x | x in Arrange(products, labels, heat, keys[..q - 1], |products|)
      ensures x in products && Pos(labels, LabelOf(products, labels, x)) < Pos(labels, keys[q - 1])
    {
      var c := LabelOf(products, labels, x);
      var i :| 0 <= i < q - 1 && keys[..q - 1][i] == c;
      DedupOrder(labels, i, q - 1);
    }
  }

  /**
   * The optimizer's order, for a node list without repetitions and one label
   * per node: a rearrangement of the nodes, ordered by SlotBefore.
   */
  lemma ClusterOrderSorted(products: seq<Product>, labels: seq<Label>, heat: map<Product, nat>)
    requires Distinct(products) && |products| == |labels|
    ensures multiset(ClusterOrder(products, labels, heat)) == multiset(products)
    ensures SlotSorted(products, labels, heat, ClusterOrder(products, labels, heat))
  {
    var n := |products|;
    assert labels[..n] == labels && products[..n] == products;
    var keys := Dedup(labels);
    assert keys[..|keys|] == keys;
    ArrangeSorted(products, labels, heat, |keys|);
    ArrangeUnion(products, labels, heat, keys, n);
    GroupsCover(products, labels, n);
    PrefixBagIsMultiset(products, n);
  }

  /** Each cluster occupies one run of consecutive positions of the order. */
  lemma ClustersContiguous(products: seq<Product>, labels: seq<Label>, heat: map<Product, nat>)
    requires Distinct(products) && |products| == |labels|
    ensures forall i :: 0 <= i < |ClusterOrder(products, labels, heat)| ==> ClusterOrder(products, labels, heat)[i] in products
    ensures forall i, j, k ::
      && 0 <= i < j < k < |ClusterOrder(products, labels, heat)|
      && LabelOf(products, labels, ClusterOrder(products, labels, heat)[i]) == LabelOf(products, labels, ClusterOrder(products, labels, heat)[k])
      ==> LabelOf(products, labels, ClusterOrder(products, labels, heat)[j]) == LabelOf(products, labels, ClusterOrder(products, labels, heat)[i])
  {
    var f := ClusterOrder(products, labels, heat);
    ClusterOrderSorted(products, labels, heat);
    forall i, j, k | 0 <= i < j < k < |f| && LabelOf(products, labels, f[i]) == LabelOf(products, labels, f[k])
      ensures LabelOf(products, labels, f[j]) == LabelOf(products, labels, f[i])
    {
      assert SlotBefore(products, labels, heat, f[i], f[j]);
      assert SlotBefore(products, labels, heat, f[j], f[k]);
    }
  }

  /**
   * Clusters appear in the order their labels first appear, and inside a
   * cluster hotter products come first, ties keeping node-list order.
   */
  lemma ClusterOrderShape(products: seq<Product>, labels: seq<Label>, heat: map<Product, nat>, i: nat, j: nat)
    requires Distinct(products) && |products| == |labels|
    requires i < j < |ClusterOrder(products, labels, heat)|
    ensures ClusterOrder(products, labels, heat)[i] in products && ClusterOrder(products, labels, heat)[j] in products
    ensures
      var p, q := ClusterOrder(products, labels, heat)[i], ClusterOrder(products, labels, heat)[j];
      && (LabelOf(products, labels, p) != LabelOf(products, labels, q) ==>
            Pos(labels, LabelOf(products, labels, p)) < Pos(labels, LabelOf(products, labels, q)))
      && (LabelOf(products, labels, p) == LabelOf(products, labels, q) ==>
            Lookup(heat, p) >= Lookup(heat, q)
            && (Lookup(heat, p) == Lookup(heat, q) ==> Pos(products, p) < Pos(products, q)))
  {
    ClusterOrderSorted(products, labels, heat);
    var f := ClusterOrder(products, labels, heat);
    assert SlotBefore(products, labels, heat, f[i], f[j]);
  }

  // ---------------------------------------------------------------------------
  // The optimizer.

  /** `heat[p]` raises KeyError for a node that has no heat entry. */
  datatype SlotError = MissingHeat(product: Product)

  /** The dict `clusters` once the first `n` pairs are grouped: every label seen, mapped to its group. */
  function Groups(products: seq<Product>, labels: seq<Label>, n: nat): (g: map<Label, seq<Product>>)
    requires n <= |products| && n <= |labels|
    ensures forall c :: c in g <==> c in labels[..n]
    ensures forall c :: c in g ==> g[c] == Members(products, labels, c, n)
  {
    map c | c in labels[..n] :: Members(products, labels, c, n)
  }

  /** One iteration of the grouping loop: the group of labels[k] gets products[k] at its end. */
  lemma GroupStep(products: seq<Product>, labels: seq<Label>, k: nat)
    requires k < |products| && k < |labels|
    ensures Groups(products, labels, k + 1)
         == Groups(products, labels, k)[labels[k] :=
              (if labels[k] in Groups(products, labels, k) then Groups(products, labels, k)[labels[k]] else []) + [products[k]]]
  {
    var g, g' := Groups(products, labels, k), Groups(products, labels, k + 1);
    var l := labels[k];
    var h := g[l := (if l in g then g[l] else []) + [products[k]]];
    assert labels[..k + 1] == labels[..k] + [l];
    if l !in g {
      MembersAbsent(products, labels, l, k);
    }
    assert forall c :: c in g' <==> c in h;
    forall c | c in g' ensures g'[c] == h[c] {
      assert Members(products, labels, c, k + 1)
          == Members(products, labels, c, k) + (if l == c then [products[k]] else []);
    }
  }

  /**
   * The grouping loop: `clusters.setdefault(label, []).append(product)` over
   * `zip(products, labels)`. `keys` is the dict's key order: each label where it first appears.
   */
  method GroupByLabel(products: seq<Product>, labels: seq<Label>) returns (keys: seq<Label>, clusters: map<Label, seq<Product>>)
    ensures keys == Dedup(labels[..ZipLength(products, labels)])
    ensures clusters == Groups(products, labels, ZipLength(products, labels))
  {
    var n := ZipLength(products, labels);
    keys, clusters := [], map[];
    assert labels[..0] == [];
    var k := 0;
    while k < n
      invariant 0 <= k <= n
      invariant keys == Dedup(labels[..k])
      invariant clusters == Groups(products, labels, k)
    {
      var product, c := products[k], labels[k];
      DedupSnoc(labels, k);
      GroupStep(products, labels, k);
      if c !in keys {
        keys := keys + [c];
      }
      clusters := clusters[c := (if c in clusters then clusters[c] else []) + [product]];
      k := k + 1;
    }
  }

  /** Every member of every group has a heat entry. */
  predicate Heated(groups: seq<seq<Product>>, heat: map<Product, nat>) {
    groups == [] || (Heated(groups[..|groups| - 1], heat) && FirstMissing(groups[|groups| - 1], heat) == |groups[|groups| - 1]|)
  }

  lemma {:induction false} HeatedAll(groups: seq<seq<Product>>, heat: map<Product, nat>)
    requires Heated(groups, heat)
    ensures forall m, i :: 0 <= m < |groups| && 0 <= i < |groups[m]| ==> groups[m][i] in heat
  {
    if groups != [] {
      var init := groups[..|groups| - 1];
      HeatedAll(init, heat);
      assert forall m :: 0 <= m < |init| ==> init[m] == groups[m];
    }
  }

  /** A grouped product without heat is one of the zipped nodes without heat. */
  lemma MissingNode(nodes: seq<Product>, labels: seq<Label>, heat: map<Product, nat>, c: Label, x: Product)
    requires x in Members(nodes, labels, c, ZipLength(nodes, labels)) && x !in heat
    ensures x in nodes
    ensures exists k :: 0 <= k < ZipLength(nodes, labels) && nodes[k] !in heat
  {
    var n := ZipLength(nodes, labels);
    MembersFromPrefix(nodes, labels, c, n);
    var k :| 0 <= k < n && nodes[..n][k] == x;
    assert nodes[k] == x;
  }

  /** If every group of the first `n` nodes is fully heated, so is every one of those nodes. */
  lemma GroupsHeated(nodes: seq<Product>, labels: seq<Label>, heat: map<Product, nat>, keys: seq<Label>, groups: seq<seq<Product>>)
    requires keys == Dedup(labels[..ZipLength(nodes, labels)])
    requires groups == GroupList(nodes, labels, keys, ZipLength(nodes, labels))
    requires Heated(groups, heat)
    ensures forall k :: 0 <= k < ZipLength(nodes, labels) ==> nodes[k] in heat
  {
    var n := ZipLength(nodes, labels);
    HeatedAll(groups, heat);
    forall k | 0 <= k < n ensures nodes[k] in heat {
      MembersContains(nodes, labels, k, n);
      assert labels[k] == labels[..n][k];
      assert labels[k] in keys;
      var m :| 0 <= m < |keys| && keys[m] == labels[k];
      var i :| 0 <= i < |groups[m]| && groups[m][i] == nodes[k];
    }
  }

  /** Each group sorted by heat, highest first, the results concatenated in order. */
  function SortEach(groups: seq<seq<Product>>, heat: map<Product, nat>): seq<Product> {
    if groups == [] then []
    else SortEach(groups[..|groups| - 1], heat) + SortDesc(groups[|groups| - 1], HeatOf(heat))
  }

  /** The groups of `keys`, in the order of `keys`. */
  function GroupList(products: seq<Product>, labels: seq<Label>, keys: seq<Label>, n: nat): (groups: seq<seq<Product>>)
    requires n <= |products| && n <= |labels|
    ensures |groups| == |keys|
    ensures forall m :: 0 <= m < |keys| ==> groups[m] == Members(products, labels, keys[m], n)
  {
    seq(|keys|, m requires 0 <= m < |keys| => Members(products, labels, keys[m], n))
  }

  /** A fully heated list of groups has fully heated prefixes. */
  lemma {:induction false} HeatedPrefix(groups: seq<seq<Product>>, heat: map<Product, nat>, q: nat)
    requires q <= |groups|
    ensures Heated(groups, heat) ==> Heated(groups[..q], heat)
    decreases |groups|
  {
    if q < |groups| {
      var init := groups[..|groups| - 1];
      HeatedPrefix(init, heat, q);
      assert init[..q] == groups[..q];
    } else {
      assert groups[..q] == groups;
    }
  }

  /** One more group: SortEach and Heated over a prefix one group longer. */
  lemma GroupPrefixStep(groups: seq<seq<Product>>, heat: map<Product, nat>, q: nat)
    requires q < |groups|
    ensures SortEach(groups[..q + 1], heat) == SortEach(groups[..q], heat) + SortDesc(groups[q], HeatOf(heat))
    ensures Heated(groups[..q + 1], heat) <==> Heated(groups[..q], heat) && FirstMissing(groups[q], heat) == |groups[q]|
  {
    assert groups[..q + 1][..q] == groups[..q] && groups[..q + 1][q] == groups[q];
  }

  /** Arrange is SortEach over the list of groups. */
  lemma {:induction false} ArrangeIsSortEach(products: seq<Product>, labels: seq<Label>, heat: map<Product, nat>, keys: seq<Label>, n: nat)
    requires n <= |products| && n <= |labels|
    ensures Arrange(products, labels, heat, keys, n) == SortEach(GroupList(products, labels, keys, n), heat)
  {
    if keys != [] {
      var init, c := keys[..|keys| - 1], keys[|keys| - 1];
      var gs := GroupList(products, labels, keys, n);
      var before := GroupList(products, labels, init, n);
      assert gs[..|gs| - 1] == before by {
        assert forall m :: 0 <= m < |init| ==> init[m] == keys[m];
      }
      assert gs[|gs| - 1] == Members(products, labels, c, n);
      ArrangeIsSortEach(products, labels, heat, init, n);
    }
  }

  /**
   * The sort computes `heat[p]` for each member in turn, so the KeyError names
   * the first member without a heat entry; |group| when there is none.
   */
  function FirstMissing(group: seq<Product>, heat: map<Product, nat>): (k: nat)
    ensures k <= |group|
    ensures forall i :: 0 <= i < k ==> group[i] in heat
    ensures k < |group| ==> group[k] !in heat
  {
    if group == [] || group[0] !in heat then 0 else 1 + FirstMissing(group[1..], heat)
  }

  /** `clusters.values()`: the groups, in the dict's key order. */
  function ClusterValues(nodes: seq<Product>, labels: seq<Label>, keys: seq<Label>, clusters: map<Label, seq<Product>>): (groups: seq<seq<Product>>)
    requires keys == Dedup(labels[..ZipLength(nodes, labels)])
    requires clusters == Groups(nodes, labels, ZipLength(nodes, labels))
    ensures groups == GroupList(nodes, labels, keys, ZipLength(nodes, labels))
  {
    seq(|keys|, m requires 0 <= m < |keys| => assert keys[m] in labels[..ZipLength(nodes, labels)]; clusters[keys[m]])
  }

  /** Group m is the first group with a member lacking heat, and `x` is its first such member. */
  predicate RaisesAt(groups: seq<seq<Product>>, heat: map<Product, nat>, m: nat, x: Product)
    requires m < |groups|
  {
    && Heated(groups[..m], heat)
    && FirstMissing(groups[m], heat) < |groups[m]|
    && x == groups[m][FirstMissing(groups[m], heat)]
  }

  /**
   * The second loop of `optimize_slotting`: for each group in turn, sort it by
   * heat, highest first, and extend `final_order` with it. The first member
   * without a heat entry, in the first group that has one, raises KeyError.
   */
  method SortClusters(groups: seq<seq<Product>>, heat: map<Product, nat>) returns (r: Result<seq<Product>, SlotError>)
    ensures r.Success? <==> Heated(groups, heat)
    ensures r.Success? ==> r.value == SortEach(groups, heat)
    ensures r.Failure? ==> exists m :: 0 <= m < |groups| && RaisesAt(groups, heat, m, r.error.product)
  {
    var finalOrder: seq<Product> := [];
    var q := 0;
    while q < |groups|
      invariant 0 <= q <= |groups|
      invariant finalOrder == SortEach(groups[..q], heat)
      invariant Heated(groups[..q], heat)
    {
      var group := groups[q];
      var miss := FirstMissing(group, heat);
      GroupPrefixStep(groups, heat, q);
      if miss < |group| {
        assert RaisesAt(groups, heat, q, group[miss]);
        HeatedPrefix(groups, heat, q + 1);
        return Failure(MissingHeat(group[miss]));
      }
      finalOrder := finalOrder + SortDesc(group, HeatOf(heat));
      q := q + 1;
    }
    assert groups[..|groups|] == groups;
    return Success(finalOrder);
  }

  /**
   * `layout` numbers the nodes 1..N, one bin each, and puts p in an earlier
   * bin than q whenever SlotBefore says so.
   */
  ghost predicate SlotLayout(layout: map<Product, nat>, nodes: seq<Product>, labels: seq<Label>, heat: map<Product, nat>)
    requires |nodes| <= |labels|
  {
    && IsLayout(layout, nodes)
    && forall p, q :: p in nodes && q in nodes && SlotBefore(nodes, labels, heat, p, q) ==>
         p in layout && q in layout && layout[p] < layout[q]
  }

  /**
   * For a node list without repetitions and one label per node, numbering the
   * optimizer's order gives a SlotLayout.
   */
  lemma OptimizedLayout(nodes: seq<Product>, labels: seq<Label>, heat: map<Product, nat>)
    requires Distinct(nodes) && |labels| == |nodes|
    ensures SlotLayout(NumberBins(ClusterOrder(nodes, labels, heat)), nodes, labels, heat)
  {
    var f := ClusterOrder(nodes, labels, heat);
    ClusterOrderSorted(nodes, labels, heat);
    PermutationDistinct(nodes, f);
    NumberBinsLayout(f, nodes);
    forall p, q | p in nodes && q in nodes && SlotBefore(nodes, labels, heat, p, q)
      ensures NumberBins(f)[p] < NumberBins(f)[q]
    {
      SlotBinsOrdered(nodes, labels, heat, f, p, q);
    }
  }

  /**
   * `optimize_slotting` after the clustering call: group, sort, concatenate
   * and number `final_order` 1..N.
   */
  method OptimizeSlotting(nodes: seq<Product>, heat: map<Product, nat>, labels: seq<Label>)
    returns (r: Result<map<Product, nat>, SlotError>)
    ensures r.Failure? <==> exists k :: 0 <= k < ZipLength(nodes, labels) && nodes[k] !in heat
    ensures r.Failure? ==> r.error.product in nodes && r.error.product !in heat
    ensures r.Success? ==> r.value == NumberBins(ClusterOrder(nodes, labels, heat))
    ensures r.Success? && Distinct(nodes) && |labels| == |nodes| ==> SlotLayout(r.value, nodes, labels, heat)
  {
    var keys, clusters := GroupByLabel(nodes, labels);
    var groups := ClusterValues(nodes, labels, keys, clusters);
    var sorted := SortClusters(groups, heat);
    if sorted.Failure? {
      var m :| 0 <= m < |groups| && RaisesAt(groups, heat, m, sorted.error.product);
      SlotFailure(nodes, labels, heat, keys, groups, m, sorted.error.product);
      return Failure(sorted.error);
    }
    SlotSuccess(nodes, labels, heat, keys, groups);
    if Distinct(nodes) && |labels| == |nodes| {
      OptimizedLayout(nodes, labels, heat);
    }
    return Success(NumberBins(sorted.value));
  }

  /** The product the sort fails on is a zipped node without heat. */
  lemma SlotFailure(nodes: seq<Product>, labels: seq<Label>, heat: map<Product, nat>,
                    keys: seq<Label>, groups: seq<seq<Product>>, m: nat, x: Product)
    requires keys == Dedup(labels[..ZipLength(nodes, labels)])
    requires groups == GroupList(nodes, labels, keys, ZipLength(nodes, labels))
    requires m < |groups| && RaisesAt(groups, heat, m, x)
    ensures x in nodes && x !in heat
    ensures exists k :: 0 <= k < ZipLength(nodes, labels) && nodes[k] !in heat
  {
    MissingNode(nodes, labels, heat, keys[m], x);
  }

  /** When every group is heated, the sorted groups are the optimizer's order, with all the facts about it. */
  lemma SlotSuccess(nodes: seq<Product>, labels: seq<Label>, heat: map<Product, nat>,
                    keys: seq<Label>, groups: seq<seq<Product>>)
    requires keys == Dedup(labels[..ZipLength(nodes, labels)])
    requires groups == GroupList(nodes, labels, keys, ZipLength(nodes, labels))
    requires Heated(groups, heat)
    ensures SortEach(groups, heat) == ClusterOrder(nodes, labels, heat)
    ensures NumberBins(SortEach(groups, heat)) == NumberBins(ClusterOrder(nodes, labels, heat))
    ensures forall k :: 0 <= k < ZipLength(nodes, labels) ==> nodes[k] in heat
  {
    ArrangeIsSortEach(nodes, labels, heat, keys, ZipLength(nodes, labels));
    GroupsHeated(nodes, labels, heat, keys, groups);
  }

  /** In a SlotBefore-ordered sequence without repetitions, an earlier product sits at a lower position. */
  lemma SlotPosOrdered(products: seq<Product>, labels: seq<Label>, heat: map<Product, nat>, f: seq<Product>, p: Product, q: Product)
    requires |products| == |labels| && Distinct(f)
    requires SlotSorted(products, labels, heat, f)
    requires p in products && q in products && p in f && q in f
    requires SlotBefore(products, labels, heat, p, q)
    ensures Pos(f, p) < Pos(f, q)
  {
  }

  /** In a SlotBefore-ordered numbering, an earlier product gets a lower bin. */
  lemma SlotBinsOrdered(products: seq<Product>, labels: seq<Label>, heat: map<Product, nat>, f: seq<Product>, p: Product, q: Product)
    requires |products| == |labels| && Distinct(f)
    requires SlotSorted(products, labels, heat, f)
    requires p in products && q in products && p in f && q in f
    requires SlotBefore(products, labels, heat, p, q)
    ensures NumberBins(f)[p] < NumberBins(f)[q]
  {
    SlotPosOrdered(products, labels, heat, f, p, q);
    NumberBinsAt(f, Pos(f, p));
    NumberBinsAt(f, Pos(f, q));
  }
}
