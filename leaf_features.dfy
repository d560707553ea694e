/** The evaluation tool tools/test_gbdt.cc: for every record it appends
    one synthetic feature per tree naming the leaf the record reached (and,
    in path mode, one per ancestor of that leaf), and it evaluates the
    model at a series of tree cuts.  The model's walk is the one of
    GbdtModel; here the leaves and leaf means it returns are inputs. */
module LeafFeatures {
  import opened Instances
  import opened GbdtNode

  /** The ancestors of node `l`, nearest first, ending at root 0: the ids
      the loop `l = (l-1)/2` visits while `l` is not 0. */
  function Ancestors(l: int): seq<int>
    requires l >= 0
    decreases l
  {
    if l == 0 then [] else [Parent(l)] + Ancestors(Parent(l))
  }

  /** The walk up from a leaf ends at the root, climbs one layer at a time
      (each id is a child of the next one) and never revisits a node; leaf 0
      has no ancestors (tools/test_gbdt.cc:47-57). */
  lemma {:induction false} AncestorsClimbToRoot(l: int)
    requires l >= 0
    ensures Ancestors(l) == [] <==> l == 0
    ensures l > 0 ==> Ancestors(l)[|Ancestors(l)| - 1] == 0
    ensures forall k :: 0 <= k < |Ancestors(l)| ==> 0 <= Ancestors(l)[k] < l
    ensures l > 0 ==> l == Left(Ancestors(l)[0]) || l == Right(Ancestors(l)[0])
    ensures forall k :: 0 < k < |Ancestors(l)| ==>
      (Ancestors(l)[k] < Ancestors(l)[k - 1] &&
       (Ancestors(l)[k - 1] == Left(Ancestors(l)[k]) || Ancestors(l)[k - 1] == Right(Ancestors(l)[k])))
    decreases l
  {
    if l > 0 {
      var p := Parent(l);
      ParentIsInverse(l);
      AncestorsClimbToRoot(p);
      var a := Ancestors(l);
      assert a == [p] + Ancestors(p);
      forall k | 0 < k < |a|
        ensures a[k] < a[k - 1] && (a[k - 1] == Left(a[k]) || a[k - 1] == Right(a[k]))
      {
        if k == 1 {
          ParentIsInverse(p);
        }
      }
    }
  }

  /** Where tree `t`'s block of synthetic indices starts. */
  function BlockStart(baseDim: int, t: int, treeNodeCount: int): int {
    baseDim + t * treeNodeCount
  }

  /** The pairs emitted for one tree: in path mode without `-m`, one pair
      of value 1 per ancestor, then the leaf pair, whose value is the leaf's
      mean with `-m` and 1 otherwise (tools/test_gbdt.cc:38-57). */
  function TreePairs(start: int, leaf: int, mean: real, outputMean: bool, outputPath: bool): (r: seq<IndValue>)
    requires leaf >= 0
  {
    PathPairs(start, if !outputMean && outputPath then Ancestors(leaf) else []) +
    [IndValue(start + leaf, if outputMean then mean else 1.0)]
  }

  /** Value-1 pairs for the nodes of `path`, offset by the block start. */
  function PathPairs(start: int, path: seq<int>): (r: seq<IndValue>)
    ensures |r| == |path| && forall k :: 0 <= k < |path| ==> r[k] == IndValue(start + path[k], 1.0)
  {
    seq(|path|, k requires 0 <= k < |path| => IndValue(start + path[k], 1.0))
  }

  /** The synthetic pairs of the first `n` trees, in tree order. */
  function Synthetic(baseDim: int, treeNodeCount: int, leaves: seq<int>, means: seq<real>, outputMean: bool, outputPath: bool, n: nat): seq<IndValue>
    requires n <= |leaves| == |means| && forall t :: 0 <= t < |leaves| ==> leaves[t] >= 0
  {
    if n == 0 then []
    else
      Synthetic(baseDim, treeNodeCount, leaves, means, outputMean, outputPath, n - 1) +
      TreePairs(BlockStart(baseDim, n - 1, treeNodeCount), leaves[n - 1], means[n - 1], outputMean, outputPath)
  }

  /** A tree's pairs end with its one leaf pair; ancestor pairs come
      before it only in path mode without `-m`, and only for a leaf other
      than the root. */
  lemma TreePairsEndWithLeaf(start: int, leaf: int, mean: real, outputMean: bool, outputPath: bool)
    requires 0 <= leaf
    ensures var r := TreePairs(start, leaf, mean, outputMean, outputPath);
      r[|r| - 1] == IndValue(start + leaf, if outputMean then mean else 1.0) &&
      (|r| > 1 <==> !outputMean && outputPath && leaf > 0)
  {
    AncestorsClimbToRoot(leaf);
  }

  /** With a leaf below `tree_node_count`, every pair of the tree lies in
      the tree's block, and all but the leaf pair have value 1. */
  lemma TreePairsInBlock(start: int, leaf: int, mean: real, outputMean: bool, outputPath: bool, treeNodeCount: int)
    requires 0 <= leaf < treeNodeCount
    ensures var r := TreePairs(start, leaf, mean, outputMean, outputPath);
      forall k :: 0 <= k < |r| ==> start <= r[k].index < start + treeNodeCount && (k < |r| - 1 ==> r[k].value == 1.0)
  {
    AncestorsClimbToRoot(leaf);
  }

  /** Tree blocks do not overlap: with leaves below `tree_node_count`, the
      synthetic index of tree `t` lies in
      [base_dim + t*tree_node_count, base_dim + (t+1)*tree_node_count). */
  lemma BlocksAreConsecutive(baseDim: int, t: nat, treeNodeCount: int)
    ensures BlockStart(baseDim, t + 1, treeNodeCount) == BlockStart(baseDim, t, treeNodeCount) + treeNodeCount
  {
    assert (t + 1) * treeNodeCount == t * treeNodeCount + treeNodeCount;
  }

  /** The path loop of `test_auc`: `l = (l-1)/2` until the root, one
      value-1 pair per node visited (tools/test_gbdt.cc:47-56). */
  method AppendPath(out0: seq<IndValue>, start: int, leaf: int) returns (out: seq<IndValue>)
    requires leaf >= 0
    ensures out == out0 + PathPairs(start, Ancestors(leaf))
  {
    out := out0;
    var l := leaf;
    ghost var climbed: seq<int> := [];
    while l != 0
      invariant l >= 0 && climbed + Ancestors(l) == Ancestors(leaf)
      invariant out == out0 + PathPairs(start, climbed)
      decreases l
    {
      l := (l - 1) / 2;
      out := out + [IndValue(start + l, 1.0)];
      climbed := climbed + [l];
    }
    assert climbed == Ancestors(leaf);
  }

  /** The pairs `test_auc` appends for one tree: the path in path mode
      without `-m`, then the leaf pair (tools/test_gbdt.cc:38-57). */
  method AppendTree(out0: seq<IndValue>, start: int, leaf: int, mean: real, outputMean: bool, outputPath: bool)
    returns (out: seq<IndValue>)
    requires leaf >= 0
    ensures out == out0 + TreePairs(start, leaf, mean, outputMean, outputPath)
  {
    out := out0;
    if !outputMean && outputPath {
      out := AppendPath(out, start, leaf);
    } else {
      assert PathPairs(start, []) == [];
    }
    out := out + [IndValue(start + leaf, if outputMean then mean else 1.0)];
  }

  /** Appending `t` to `a + s` gives `a` followed by `s + t`. */
  lemma ExtendBy<T>(a: seq<T>, s: seq<T>, t: seq<T>, s': seq<T>, out0: seq<T>, out: seq<T>)
    requires out0 == a + s && out == out0 + t && s' == s + t
    ensures out == a + s'
  {
  }

  /** The emission loop of `test_auc`: the record's own features are kept
      and the synthetic pairs of every tree are appended after them, tree
      by tree (tools/test_gbdt.cc:35-59). */
  method AppendLeafFeatures(features: seq<IndValue>, baseDim: int, treeNodeCount: int, leaves: seq<int>, means: seq<real>,
                            outputMean: bool, outputPath: bool) returns (out: seq<IndValue>)
    requires |leaves| == |means| && forall t :: 0 <= t < |leaves| ==> leaves[t] >= 0
    ensures out == features + Synthetic(baseDim, treeNodeCount, leaves, means, outputMean, outputPath, |leaves|)
  {
    out := features;
    for i := 0 to |leaves|
      invariant out == features + Synthetic(baseDim, treeNodeCount, leaves, means, outputMean, outputPath, i)
    {
      var out0 := out;
      out := AppendTree(out, baseDim + i * treeNodeCount, leaves[i], means[i], outputMean, outputPath);
      ExtendBy(features, Synthetic(baseDim, treeNodeCount, leaves, means, outputMean, outputPath, i),
               TreePairs(BlockStart(baseDim, i, treeNodeCount), leaves[i], means[i], outputMean, outputPath),
               Synthetic(baseDim, treeNodeCount, leaves, means, outputMean, outputPath, i + 1), out0, out);
    }
  }

  /** The cuts the tool evaluates: with a positive interval, interval,
      2*interval, ... up to the total; otherwise one run, cut at `-C<n>`
      when that is not 0 and at every tree (-1) when it is
      (tools/test_gbdt.cc:98-101, 141-153). */
  method EvaluationCuts(interval: int, total: int, treeCut: int) returns (cuts: seq<int>)
    ensures interval <= 0 ==> cuts == [if treeCut != 0 then treeCut else -1]
    ensures interval > 0 ==> (cuts == [] <==> interval > total)
    ensures interval > 0 && cuts != [] ==> cuts[0] == interval && cuts[|cuts| - 1] <= total < cuts[|cuts| - 1] + interval
    ensures interval > 0 ==> forall k :: 0 < k < |cuts| ==> cuts[k] == cuts[k - 1] + interval
  {
    if interval <= 0 {
      return [if treeCut != 0 then treeCut else -1];
    }
    cuts := [];
    var t := interval;
    while t <= total
      invariant cuts == [] <==> t == interval
      invariant cuts != [] ==> cuts[0] == interval && interval <= cuts[|cuts| - 1] <= total && t == cuts[|cuts| - 1] + interval
      invariant forall k :: 0 < k < |cuts| ==> cuts[k] == cuts[k - 1] + interval
      decreases total - t
    {
      cuts := cuts + [t];
      t := t + interval;
    }
  }
}
