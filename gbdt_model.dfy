/** The trained model of the gradient-boosted tree learner
    (src/models/gbdt.h): threshold recovery after training, the compact
    trees prediction walks, the prediction itself and the binary model
    file. */
module GbdtModel {
  import opened Wrappers
  import opened GbdtNode
  import opened Instances

  // ---------------------------------------------------------------------
  // Compact nodes (SmallTreeNode_t) and the records of the model file.

  /** `SmallTreeNode_t`: the decision part of a node. */
  datatype SmallNode = SmallNode(fidx: int, threshold: real)

  /** What `TreeNode_t::write` emits and `TreeNode_t::read` fills. */
  datatype Record = Record(fidx: int, threshold: real, mean: real)

  function RecordOf(n: TreeNode): Record {
    Record(n.fidx, n.threshold, n.mean)
  }

  /** `SmallTreeNode_t::copy`, with the feature index kept whole. */
  function Compact(r: Record): SmallNode {
    SmallNode(r.fidx, r.threshold)
  }

  /** The conversion of an `int` to the 16-bit `short` that
      `SmallTreeNode_t::fidx` is: two's complement wrap-around. */
  function ShortOf(x: int): (s: int)
    ensures -32768 <= s < 32768
    ensures (x - s) % 65536 == 0
    ensures -32768 <= x < 32768 ==> s == x
  {
    var m := x % 65536;
    if m >= 32768 then m - 65536 else m
  }

  /** `SmallTreeNode_t::copy` as written: the feature index goes through a
      `short`. */
  function CompactAsWritten(r: Record): SmallNode {
    SmallNode(ShortOf(r.fidx), r.threshold)
  }

  /** A split on feature 65535 becomes a leaf in the compact tree, and one
      on feature 32768 a split on a negative index. */
  lemma ShortFidxLosesSplits()
    ensures CompactAsWritten(Record(65535, 0.5, 1.0)).fidx == -1
    ensures CompactAsWritten(Record(32768, 0.5, 1.0)).fidx == -32768
  {
  }

  function Records(trees: seq<seq<TreeNode>>): (rs: seq<seq<Record>>)
    ensures |rs| == |trees| && forall t :: 0 <= t < |trees| ==> |rs[t]| == |trees[t]|
  {
    seq(|trees|, t requires 0 <= t < |trees| => seq(|trees[t]|, i requires 0 <= i < |trees[t]| => RecordOf(trees[t][i])))
  }

  /** `_compact_trees`: every node copied. */
  function CompactAll(rs: seq<seq<Record>>): (cs: seq<seq<SmallNode>>)
    ensures |cs| == |rs| && forall t :: 0 <= t < |rs| ==> |cs[t]| == |rs[t]|
  {
    seq(|rs|, t requires 0 <= t < |rs| => seq(|rs[t]|, i requires 0 <= i < |rs[t]| => Compact(rs[t][i])))
  }

  /** `_mean`: every node's mean times the shrinkage. */
  function MeansOf(rs: seq<seq<Record>>, sr: real): (ms: seq<seq<real>>)
    ensures |ms| == |rs| && forall t :: 0 <= t < |rs| ==> |ms[t]| == |rs[t]|
  {
    seq(|rs|, t requires 0 <= t < |rs| => seq(|rs[t]|, i requires 0 <= i < |rs[t]| => rs[t][i].mean * sr))
  }

  // ---------------------------------------------------------------------
  // The prediction walk.

  /** A compact tree that can be walked with a buffer of `dim` values:
      every split node's children and feature are in range. C++ does not
      check either. */
  predicate Walkable(tree: seq<SmallNode>, dim: int) {
    forall i :: 0 <= i < |tree| && tree[i].fidx != -1 ==> Right(i) < |tree| && 0 <= tree[i].fidx < dim
  }

  /** One step down: right when the row's value reaches the threshold. */
  function Step(nd: SmallNode, buf: seq<real>, x: int): int
    requires 0 <= nd.fidx < |buf|
  {
    if buf[nd.fidx] >= nd.threshold then Right(x) else Left(x)
  }

  /** The leaf a row with dense values `buf` reaches from node `x`. */
  function LeafOf(tree: seq<SmallNode>, buf: seq<real>, x: int): (leaf: int)
    requires Walkable(tree, |buf|) && 0 <= x < |tree|
    ensures x <= leaf < |tree| && tree[leaf].fidx == -1
    decreases |tree| - x
  {
    if tree[x].fidx == -1 then x else LeafOf(tree, buf, Step(tree[x], buf, x))
  }

  /** Every node from layer `layer` on is a leaf. */
  predicate LeavesFrom(tree: seq<SmallNode>, layer: nat) {
    forall i :: Pow2(layer) - 1 <= i < |tree| ==> tree[i].fidx == -1
  }

  /** In a tree whose nodes from layer `layer` on are leaves, the walk from
      any node above layer `layer + 1` ends above it too, so a leaf id is
      below `tree_node_count = 2^(layer+1)`. */
  lemma {:induction false} LeafWithinLayers(tree: seq<SmallNode>, buf: seq<real>, layer: nat, x: int)
    requires Walkable(tree, |buf|) && 0 <= x < |tree| && LeavesFrom(tree, layer)
    requires x < Pow2(layer + 1) - 1
    ensures LeafOf(tree, buf, x) < Pow2(layer + 1) - 1
    decreases |tree| - x
  {
    if tree[x].fidx != -1 {
      assert x < Pow2(layer) - 1;
      assert Pow2(layer + 1) == 2 * Pow2(layer);
      LeafWithinLayers(tree, buf, layer, Step(tree[x], buf, x));
    }
  }

  /** A leaf id `predict_and_get_leaves` reports for a tree whose nodes
      from layer `layer` on are leaves is a valid id below
      `tree_node_count = 2^(layer+1)`, so it can index a per-tree table of
      that size. */
  lemma LeafBelowNodeCount(tree: seq<SmallNode>, buf: seq<real>, layer: nat)
    requires Walkable(tree, |buf|) && |tree| > 0 && LeavesFrom(tree, layer)
    ensures 0 <= LeafOf(tree, buf, 0) < Pow2(layer + 1)
  {
    assert Pow2(layer + 1) == 2 * Pow2(layer);
    LeafWithinLayers(tree, buf, layer, 0);
  }

  /** The walk as the loop of `predict_and_get_leaves` does it. */
  method Walk(tree: seq<SmallNode>, buf: array<real>) returns (nid: int)
    requires Walkable(tree, buf.Length) && |tree| > 0
    ensures nid == LeafOf(tree, buf[..], 0)
  {
    nid := 0;
    while tree[nid].fidx != -1
      invariant 0 <= nid < |tree|
      invariant LeafOf(tree, buf[..], nid) == LeafOf(tree, buf[..], 0)
      decreases |tree| - nid
    {
      var node := tree[nid];
      nid := Left(nid);
      if buf[node.fidx] >= node.threshold {
        nid := nid + 1;
      }
    }
  }

  // ---------------------------------------------------------------------
  // The dense buffer.

  /** The `predict_buffer` a row's pairs fill: slot `j` holds the value of
      the last pair with index `j`, or 0; indices at or past `dim` are
      dropped. */
  function Dense(fs: seq<IndValue>, dim: nat): seq<real> {
    seq(dim, j => LastValue(fs, j))
  }

  /** The buffer fill of `predict_and_get_leaves`. A negative index would
      write before the buffer, which C++ leaves undefined. */
  method FillBuffer(fs: seq<IndValue>, dim: nat) returns (buf: array<real>)
    requires forall k :: 0 <= k < |fs| ==> fs[k].index >= 0
    ensures fresh(buf) && buf[..] == Dense(fs, dim)
  {
    buf := new real[dim](_ => 0.0);
    for f := 0 to |fs|
      invariant forall j :: 0 <= j < dim ==> buf[j] == LastValue(fs[..f], j)
    {
      if fs[f].index < dim {
        buf[fs[f].index] := fs[f].value;
      }
      assert fs[..f + 1][..f] == fs[..f];
    }
    assert fs[..|fs|] == fs;
  }

  /** Slot `j` of the buffer is the row's value for feature `j` whenever
      the row names it at most once. */
  lemma DenseIsFeatureValue(fs: seq<IndValue>, dim: nat, j: int)
    requires DistinctIndices(fs) && 0 <= j < dim
    ensures Dense(fs, dim)[j] == FirstValue(fs, j)
  {
    FirstIsLastWhenDistinct(fs, j);
  }

  // ---------------------------------------------------------------------
  // Tree cut.

  /** How many trees prediction visits: the first `cut` ones when
      `cut >= 0`, all of them otherwise. */
  function TreesUsed(treeCount: int, cut: int): int {
    if cut >= 0 && cut < treeCount then cut else treeCount
  }

  /** `get_predict_tree_cut`: -1 stands for all trees. */
  function TreeCut(treeCount: int, cut: int): (n: int)
    ensures cut == -1 ==> n == treeCount
    ensures cut != -1 ==> n == cut
  {
    if cut == -1 then treeCount else cut
  }

  /** The cut reported is the number of trees prediction visits, as long
      as it is -1 or within the forest. */
  lemma TreeCutCountsTrees(treeCount: nat, cut: int)
    requires -1 <= cut <= treeCount
    ensures TreeCut(treeCount, cut) == TreesUsed(treeCount, cut)
    ensures 0 <= TreesUsed(treeCount, cut) <= treeCount
  {
  }

  /** The sum of the scaled means at the leaves reached. */
  function LeafSum(means: seq<seq<real>>, leaves: seq<int>): real
    requires |leaves| <= |means| && forall t :: 0 <= t < |leaves| ==> 0 <= leaves[t] < |means[t]|
  {
    if |leaves| == 0 then 0.0
    else LeafSum(means, leaves[..|leaves| - 1]) + means[|leaves| - 1][leaves[|leaves| - 1]]
  }

  // ---------------------------------------------------------------------
  // The model file. The stream is a sequence of typed fields; the byte
  // layout of each field is not modelled.

  datatype Field = IntField(i: int) | RealField(r: real)

  function NodeFields(r: Record): seq<Field> {
    [IntField(r.fidx), RealField(r.threshold), RealField(r.mean)]
  }

  /** A tree's records, one after the other. */
  function TreeFields(rs: seq<Record>): (s: seq<Field>)
    ensures |s| == 3 * |rs|
  {
    if |rs| == 0 then [] else TreeFields(rs[..|rs| - 1]) + NodeFields(rs[|rs| - 1])
  }

  function ForestFields(ts: seq<seq<Record>>): seq<Field> {
    if |ts| == 0 then [] else ForestFields(ts[..|ts| - 1]) + TreeFields(ts[|ts| - 1])
  }

  /** What `write_model` emits: tree count, tree size, shrinkage, then the
      nodes of every tree in order. */
  function ModelFile(treeCount: int, treeSize: int, sr: real, rs: seq<seq<Record>>): seq<Field> {
    [IntField(treeCount), IntField(treeSize), RealField(sr)] + ForestFields(rs)
  }

  /** `TreeNode_t::read`. */
  function ReadNode(s: seq<Field>): Option<Record> {
    if |s| >= 3 && s[0].IntField? && s[1].RealField? && s[2].RealField? then
      Some(Record(s[0].i, s[1].r, s[2].r))
    else None
  }

  /** `n` records from the front of `s`. */
  function ReadTree(s: seq<Field>, n: nat): Option<seq<Record>> {
    if n == 0 then Some([])
    else match ReadNode(s)
      case None => None
      case Some(r) =>
        match ReadTree(s[3..], n - 1)
        case None => None
        case Some(rest) => Some([r] + rest)
  }

  /** `count` trees of `size` records each from the front of `s`. */
  function ReadForest(s: seq<Field>, count: nat, size: nat): Option<seq<seq<Record>>> {
    if count == 0 then Some([])
    else if |s| < 3 * size then None
    else match ReadTree(s, size)
      case None => None
      case Some(t) =>
        match ReadForest(s[3 * size..], count - 1, size)
        case None => None
        case Some(rest) => Some([t] + rest)
  }

  /** Number of binary digits: how often `t >>= 1` runs before `t` is 0. */
  function BitLength(n: nat): nat {
    if n == 0 then 0 else 1 + BitLength(n / 2)
  }

  lemma {:induction false} BitLengthOfPow2(k: nat)
    ensures BitLength(Pow2(k)) == k + 1
  {
    if k > 0 {
      BitLengthOfPow2(k - 1);
      assert Pow2(k) / 2 == Pow2(k - 1);
    }
  }

  /** The layer count `read_model` infers from the tree size. */
  function LayerOf(treeSize: nat): int {
    BitLength(treeSize) - 3
  }

  /** The size `1 << (layer_num + 2)` the constructor gives a tree. */
  lemma LayerOfTreeSize(layer: nat)
    ensures LayerOf(Pow2(layer + 2)) == layer
  {
    BitLengthOfPow2(layer + 2);
  }

  /** `dim_count` after the records: one past the largest feature index, or
      0. */
  function DimOf(rs: seq<Record>): int {
    if |rs| == 0 then 0
    else var d := DimOf(rs[..|rs| - 1]); if d <= rs[|rs| - 1].fidx then rs[|rs| - 1].fidx + 1 else d
  }

  lemma {:induction false} DimOfIsMax(rs: seq<Record>)
    ensures DimOf(rs) >= 0
    ensures forall k :: 0 <= k < |rs| ==> rs[k].fidx < DimOf(rs)
    ensures DimOf(rs) == 0 || exists k :: 0 <= k < |rs| && rs[k].fidx == DimOf(rs) - 1
  {
    if |rs| > 0 {
      var p := rs[..|rs| - 1];
      DimOfIsMax(p);
      assert forall k :: 0 <= k < |p| ==> p[k] == rs[k];
    }
  }

  function Flatten(ts: seq<seq<Record>>): seq<Record> {
    if |ts| == 0 then [] else Flatten(ts[..|ts| - 1]) + ts[|ts| - 1]
  }

  /** What `read_model` loads. */
  datatype Image = Image(treeCount: int, treeSize: int, sr: real, maxLayer: int, dimCount: int,
                         compact: seq<seq<SmallNode>>, means: seq<seq<real>>)

  function ImageOf(treeCount: int, treeSize: nat, sr: real, rs: seq<seq<Record>>): Image {
    Image(treeCount, treeSize, sr, LayerOf(treeSize), DimOf(Flatten(rs)), CompactAll(rs), MeansOf(rs, sr))
  }

  /** `read_model` on a stream: None when the stream is too short, has a
      field of the wrong kind, or a negative count or size (for which the
      C++ allocation throws). */
  function Load(s: seq<Field>): Option<Image> {
    if |s| < 3 || !s[0].IntField? || !s[1].IntField? || !s[2].RealField? then None
    else if s[0].i < 0 || s[1].i < 0 then None
    else match ReadForest(s[3..], s[0].i, s[1].i)
      case None => None
      case Some(rs) => Some(ImageOf(s[0].i, s[1].i, s[2].r, rs))
  }

  lemma {:induction false} ReadTreeOfFields(rs: seq<Record>, rest: seq<Field>)
    ensures ReadTree(TreeFields(rs) + rest, |rs|) == Some(rs)
  {
    if |rs| > 0 {
      var tail := rs[1..];
      FieldsOfCons(rs[0], tail);
      assert [rs[0]] + tail == rs;
      assert TreeFields(rs) + rest == NodeFields(rs[0]) + (TreeFields(tail) + rest);
      assert (TreeFields(rs) + rest)[3..] == TreeFields(tail) + rest;
      ReadTreeOfFields(tail, rest);
    }
  }

  lemma {:induction false} FieldsOfCons(r: Record, rs: seq<Record>)
    ensures TreeFields([r] + rs) == NodeFields(r) + TreeFields(rs)
    decreases |rs|
  {
    if |rs| > 0 {
      var p := rs[..|rs| - 1];
      assert ([r] + rs)[..|rs|] == [r] + p;
      FieldsOfCons(r, p);
    }
  }

  lemma {:induction false} ForestFieldsOfCons(t: seq<Record>, ts: seq<seq<Record>>)
    ensures ForestFields([t] + ts) == TreeFields(t) + ForestFields(ts)
    decreases |ts|
  {
    if |ts| > 0 {
      var p := ts[..|ts| - 1];
      assert ([t] + ts)[..|ts|] == [t] + p;
      ForestFieldsOfCons(t, p);
    }
  }

  predicate Shaped(rs: seq<seq<Record>>, count: int, size: int) {
    |rs| == count && forall t :: 0 <= t < |rs| ==> |rs[t]| == size
  }

  lemma {:induction false} ReadForestOfFields(rs: seq<seq<Record>>, size: nat)
    requires Shaped(rs, |rs|, size)
    ensures ReadForest(ForestFields(rs), |rs|, size) == Some(rs)
  {
    if |rs| > 0 {
      var tail := rs[1..];
      ForestFieldsOfCons(rs[0], tail);
      assert [rs[0]] + tail == rs;
      var s := ForestFields(rs);
      assert s == TreeFields(rs[0]) + ForestFields(tail);
      ReadTreeOfFields(rs[0], ForestFields(tail));
      assert s[3 * size..] == ForestFields(tail);
      ReadForestOfFields(tail, size);
    }
  }

  /** `read_model` after `write_model`: the counts, the shrinkage and every
      node's feature, threshold and scaled mean come back, the layer count
      is the one the tree size was made from, and the dimension is one past
      the largest feature index. */
  lemma LoadInvertsModelFile(treeCount: nat, layer: nat, sr: real, rs: seq<seq<Record>>)
    requires Shaped(rs, treeCount, Pow2(layer + 2))
    ensures Load(ModelFile(treeCount, Pow2(layer + 2), sr, rs)) == Some(ImageOf(treeCount, Pow2(layer + 2), sr, rs))
    ensures ImageOf(treeCount, Pow2(layer + 2), sr, rs).maxLayer == layer
  {
    var s := ModelFile(treeCount, Pow2(layer + 2), sr, rs);
    assert s[3..] == ForestFields(rs);
    ReadForestOfFields(rs, Pow2(layer + 2));
    LayerOfTreeSize(layer);
  }

  // ---------------------------------------------------------------------
  // Threshold recovery.

  /** `ItemID_ReverseInfo_t`: the row a split was found at, and where the
      split node is. */
  datatype Entry = Entry(item: int, tree: int, node: int)

  /** Row `id` as the reader pass sees it: a reader that ends at once leaves
      the default instance in hand. */
  function ItemAt(rows: seq<Instance>, id: int): Instance {
    if 0 <= id < |rows| then rows[id] else EmptyInstance
  }

  /** The pass reaches row `item`: it exists, or it is row 0 (the first
      read, whose failure goes unnoticed). */
  predicate Reached(item: int, rowCount: int) {
    0 <= item && (item < rowCount || item == 0)
  }

  /** A node after recovery: a split node whose row the pass reaches takes
      that row's value for its feature (0 when absent) as its threshold;
      every other node is kept. */
  function RecoveredNode(n: TreeNode, rows: seq<Instance>): TreeNode {
    if n.fidx >= 0 && Reached(n.splitId, |rows|) then
      n.(threshold := FirstValue(ItemAt(rows, n.splitId).features, n.fidx))
    else n
  }

  function Recovered(trees: seq<seq<TreeNode>>, rows: seq<Instance>): (r: seq<seq<TreeNode>>)
    ensures |r| == |trees| && forall t :: 0 <= t < |trees| ==> |r[t]| == |trees[t]|
  {
    seq(|trees|, t requires 0 <= t < |trees| => seq(|trees[t]|, i requires 0 <= i < |trees[t]| => RecoveredNode(trees[t][i], rows)))
  }

  /** An entry for a split node of `trees`, carrying that node's row. */
  predicate EntryOf(trees: seq<seq<TreeNode>>, e: Entry) {
    0 <= e.tree < |trees| && 0 <= e.node < |trees[e.tree]| &&
    trees[e.tree][e.node].fidx >= 0 && e.item == trees[e.tree][e.node].splitId
  }

  predicate Listed(es: seq<Entry>, t: int, i: int) {
    exists k :: 0 <= k < |es| && es[k].tree == t && es[k].node == i
  }

  lemma ListedAppend(es: seq<Entry>, e: Entry)
    ensures forall t, i :: Listed(es, t, i) ==> Listed(es + [e], t, i)
    ensures Listed(es + [e], e.tree, e.node)
  {
    assert (es + [e])[|es|] == e;
    forall t, i | Listed(es, t, i)
      ensures Listed(es + [e], t, i)
    {
      var k :| 0 <= k < |es| && es[k].tree == t && es[k].node == i;
      assert (es + [e])[k] == es[k];
    }
  }

  /** Split rows are `uint32_t`. */
  predicate RowIds(trees: seq<seq<TreeNode>>) {
    forall t, i :: 0 <= t < |trees| && 0 <= i < |trees[t]| && trees[t][i].fidx >= 0 ==> trees[t][i].splitId >= 0
  }

  /** The collection loop of `_rebuild_tree`: one entry per split node, in
      tree and node order. */
  method CollectSplits(trees: seq<seq<TreeNode>>) returns (es: seq<Entry>)
    ensures forall k :: 0 <= k < |es| ==> EntryOf(trees, es[k])
    ensures forall t, i :: 0 <= t < |trees| && 0 <= i < |trees[t]| && trees[t][i].fidx >= 0 ==> Listed(es, t, i)
  {
    es := [];
    for t := 0 to |trees|
      invariant forall k :: 0 <= k < |es| ==> EntryOf(trees, es[k])
      invariant forall u, i :: 0 <= u < t && 0 <= i < |trees[u]| && trees[u][i].fidx >= 0 ==> Listed(es, u, i)
    {
      for i := 0 to |trees[t]|
        invariant forall k :: 0 <= k < |es| ==> EntryOf(trees, es[k])
        invariant forall u, j :: 0 <= u < t && 0 <= j < |trees[u]| && trees[u][j].fidx >= 0 ==> Listed(es, u, j)
        invariant forall j :: 0 <= j < i && trees[t][j].fidx >= 0 ==> Listed(es, t, j)
      {
        if trees[t][i].fidx >= 0 {
          ListedAppend(es, Entry(trees[t][i].splitId, t, i));
          es := es + [Entry(trees[t][i].splitId, t, i)];
        }
      }
    }
  }

  predicate SortedByItem(es: seq<Entry>) {
    forall j, k :: 0 <= j < k < |es| ==> es[j].item <= es[k].item
  }

  function InsertByItem(e: Entry, es: seq<Entry>): seq<Entry> {
    if |es| == 0 || e.item <= es[0].item then [e] + es else [es[0]] + InsertByItem(e, es[1..])
  }

  /** `sort` of the entries by row id; the order among equal row ids does
      not matter to the pass. */
  function SortByItem(es: seq<Entry>): seq<Entry> {
    if |es| == 0 then [] else InsertByItem(es[0], SortByItem(es[1..]))
  }

  lemma {:induction false} InsertByItemKeeps(e: Entry, es: seq<Entry>)
    ensures multiset(InsertByItem(e, es)) == multiset(es) + multiset{e}
  {
    if |es| > 0 && e.item > es[0].item {
      InsertByItemKeeps(e, es[1..]);
      assert es == [es[0]] + es[1..];
    }
  }

  lemma {:induction false} InsertByItemSorts(e: Entry, es: seq<Entry>)
    requires SortedByItem(es)
    ensures SortedByItem(InsertByItem(e, es))
  {
    if |es| > 0 && e.item > es[0].item {
      var rest := InsertByItem(e, es[1..]);
      InsertByItemSorts(e, es[1..]);
      InsertByItemKeeps(e, es[1..]);
      forall k | 0 <= k < |rest|
        ensures es[0].item <= rest[k].item
      {
        assert rest[k] in multiset(es[1..]) + multiset{e};
        if rest[k] != e {
          assert rest[k] in es[1..];
        }
      }
      assert InsertByItem(e, es) == [es[0]] + rest;
    }
  }

  lemma {:induction false} SortByItemSorts(es: seq<Entry>)
    ensures SortedByItem(SortByItem(es))
    ensures multiset(SortByItem(es)) == multiset(es)
  {
    if |es| > 0 {
      SortByItemSorts(es[1..]);
      InsertByItemSorts(es[0], SortByItem(es[1..]));
      InsertByItemKeeps(es[0], SortByItem(es[1..]));
      assert es == [es[0]] + es[1..];
    }
  }

  /** The inner loop of the pass: the first pair with the node's feature. */
  method FindThreshold(fs: seq<IndValue>, fidx: int) returns (v: real)
    ensures v == FirstValue(fs, fidx)
  {
    v := 0.0;
    for f := 0 to |fs|
      invariant forall j :: 0 <= j < f ==> fs[j].index != fidx
    {
      if fs[f].index == fidx {
        v := fs[f].value;
        return;
      }
    }
  }

  /** The trees after the first `i` entries of the pass. */
  ghost predicate PassedUpTo(trees: seq<seq<TreeNode>>, trees0: seq<seq<TreeNode>>, rows: seq<Instance>,
                             es: seq<Entry>, i: int)
    requires 0 <= i <= |es|
  {
    |trees| == |trees0| &&
    (forall t :: 0 <= t < |trees| ==> |trees[t]| == |trees0[t]|) &&
    forall t, j :: 0 <= t < |trees| && 0 <= j < |trees[t]| ==>
      trees[t][j] == if Listed(es[..i], t, j) then RecoveredNode(trees0[t][j], rows) else trees0[t][j]
  }

  /** Entry `i` sets its node's threshold. */
  lemma PassStep(trees: seq<seq<TreeNode>>, trees0: seq<seq<TreeNode>>, rows: seq<Instance>, es: seq<Entry>, i: int)
    requires 0 <= i < |es| && PassedUpTo(trees, trees0, rows, es, i) && EntryOf(trees0, es[i])
    requires Reached(es[i].item, |rows|)
    ensures var e := es[i]; var nd := trees[e.tree][e.node];
      nd.fidx == trees0[e.tree][e.node].fidx &&
      PassedUpTo(trees[e.tree := trees[e.tree][e.node := nd.(threshold := FirstValue(ItemAt(rows, e.item).features, nd.fidx))]],
                 trees0, rows, es, i + 1)
  {
    var e := es[i];
    var nd := trees[e.tree][e.node];
    var nt := trees[e.tree := trees[e.tree][e.node := nd.(threshold := FirstValue(ItemAt(rows, e.item).features, nd.fidx))]];
    assert es[..i + 1] == es[..i] + [e];
    ListedAppend(es[..i], e);
    forall t, j | 0 <= t < |nt| && 0 <= j < |nt[t]|
      ensures nt[t][j] == if Listed(es[..i + 1], t, j) then RecoveredNode(trees0[t][j], rows) else trees0[t][j]
    {
      if t != e.tree || j != e.node {
        if Listed(es[..i + 1], t, j) {
          var k :| 0 <= k < i + 1 && es[..i + 1][k].tree == t && es[..i + 1][k].node == j;
          assert k < i && es[..i][k] == es[..i + 1][k];
        }
      }
    }
  }

  /** One reader step: `item` is row `id`, the cursor one past it. */
  predicate Cursor(rows: seq<Instance>, cur: int, id: int, item: Instance) {
    0 <= id && item == ItemAt(rows, id) &&
    if |rows| == 0 then cur == 0 && id == 0 else cur == id + 1 && cur <= |rows|
  }

  /** Rows past the end stay past the end along entries sorted by row. */
  lemma ReachedIsDownward(es: seq<Entry>, i: int, rowCount: int)
    requires SortedByItem(es) && 0 <= i < |es| && !Reached(es[i].item, rowCount) && es[i].item >= 0
    ensures forall k :: i <= k < |es| ==> !Reached(es[k].item, rowCount)
  {
  }

  /** The update of one entry's node, with row `es[i].item` in hand. */
  method ApplyEntry(trees: seq<seq<TreeNode>>, trees0: seq<seq<TreeNode>>, rows: seq<Instance>, es: seq<Entry>, i: int,
                    item: Instance)
    returns (trees': seq<seq<TreeNode>>, next: int)
    requires 0 <= i < |es| && PassedUpTo(trees, trees0, rows, es, i) && EntryOf(trees0, es[i])
    requires Reached(es[i].item, |rows|) && item == ItemAt(rows, es[i].item)
    ensures next == i + 1 && PassedUpTo(trees', trees0, rows, es, next)
  {
    next := i + 1;
    var e := es[i];
    var nd := trees[e.tree][e.node];
    var th := FindThreshold(item.features, nd.fidx);
    PassStep(trees, trees0, rows, es, i);
    trees' := trees[e.tree := trees[e.tree][e.node := nd.(threshold := th)]];
  }

  /** The reader loop of the pass: read on until row `target` is in hand
      or the reader ends. */
  method ReadUpTo(rows: seq<Instance>, cur0: int, id0: int, item0: Instance, target: int)
    returns (cur: int, id: int, item: Instance)
    requires Cursor(rows, cur0, id0, item0) && id0 <= target
    ensures Cursor(rows, cur, id, item) && id0 <= id <= target
    ensures id < target ==> !Reached(target, |rows|)
  {
    cur, id, item := cur0, id0, item0;
    while id < target
      invariant Cursor(rows, cur, id, item) && id0 <= id <= target
    {
      if cur >= |rows| {
        break;
      }
      item := rows[cur];
      cur := cur + 1;
      id := id + 1;
    }
  }

  /** The merge pass of `_rebuild_tree` over the entries sorted by row id
      and one forward pass of the reader over `rows`. */
  method MergeThresholds(trees0: seq<seq<TreeNode>>, rows: seq<Instance>, es: seq<Entry>)
    returns (trees: seq<seq<TreeNode>>, ghost done: int)
    requires SortedByItem(es) && forall k :: 0 <= k < |es| ==> EntryOf(trees0, es[k]) && es[k].item >= 0
    ensures 0 <= done <= |es| && PassedUpTo(trees, trees0, rows, es, done)
    ensures forall k :: done <= k < |es| ==> !Reached(es[k].item, |rows|)
  {
    trees := trees0;
    var item := EmptyInstance;
    var cur := 0;
    if cur < |rows| {
      item := rows[cur];
      cur := cur + 1;
    }
    var id := 0;
    var i := 0;
    var stop := false;  // the reader ended before a split row
    while i < |es| && !stop
      invariant 0 <= i <= |es| && PassedUpTo(trees, trees0, rows, es, i)
      invariant Cursor(rows, cur, id, item)
      invariant !stop ==> id <= (if i == 0 then 0 else es[i - 1].item)
      invariant stop ==> forall k :: i <= k < |es| ==> !Reached(es[k].item, |rows|)
      decreases |es| - i, !stop
    {
      var e := es[i];
      cur, id, item := ReadUpTo(rows, cur, id, item, e.item);
      if id < e.item {
        ReachedIsDownward(es, i, |rows|);
        stop := true;
      } else {
        trees, i := ApplyEntry(trees, trees0, rows, es, i, item);
      }
    }
    done := i;
  }

  /** Every split node whose row the pass reaches was listed, sorted in
      among the entries the pass got through; every other node is left
      alone. So the pass leaves exactly the recovered trees. */
  lemma PassIsRecovery(trees: seq<seq<TreeNode>>, trees0: seq<seq<TreeNode>>, rows: seq<Instance>,
                       es: seq<Entry>, sorted: seq<Entry>, done: int)
    requires forall k :: 0 <= k < |es| ==> EntryOf(trees0, es[k])
    requires forall t, i :: 0 <= t < |trees0| && 0 <= i < |trees0[t]| && trees0[t][i].fidx >= 0 ==> Listed(es, t, i)
    requires multiset(sorted) == multiset(es)
    requires 0 <= done <= |sorted| && PassedUpTo(trees, trees0, rows, sorted, done)
    requires forall k :: done <= k < |sorted| ==> !Reached(sorted[k].item, |rows|)
    ensures trees == Recovered(trees0, rows)
  {
    var r := Recovered(trees0, rows);
    forall t | 0 <= t < |trees|
      ensures trees[t] == r[t]
    {
      forall j | 0 <= j < |trees[t]|
        ensures trees[t][j] == r[t][j]
      {
        var n := trees0[t][j];
        if n.fidx >= 0 && Reached(n.splitId, |rows|) {
          ReachedIsListed(trees0, rows, es, sorted, done, t, j);
        }
      }
    }
  }

  /** A split node whose row the pass reaches sits among the entries the
      pass got through. */
  lemma ReachedIsListed(trees0: seq<seq<TreeNode>>, rows: seq<Instance>, es: seq<Entry>, sorted: seq<Entry>,
                        done: int, t: int, j: int)
    requires forall k :: 0 <= k < |es| ==> EntryOf(trees0, es[k])
    requires forall t, i :: 0 <= t < |trees0| && 0 <= i < |trees0[t]| && trees0[t][i].fidx >= 0 ==> Listed(es, t, i)
    requires multiset(sorted) == multiset(es)
    requires 0 <= done <= |sorted|
    requires forall k :: done <= k < |sorted| ==> !Reached(sorted[k].item, |rows|)
    requires 0 <= t < |trees0| && 0 <= j < |trees0[t]|
    requires trees0[t][j].fidx >= 0 && Reached(trees0[t][j].splitId, |rows|)
    ensures Listed(sorted[..done], t, j)
  {
    var k :| 0 <= k < |es| && es[k].tree == t && es[k].node == j;
    assert es[k] in multiset(sorted);
    var m :| 0 <= m < |sorted| && sorted[m] == es[k];
    assert sorted[..done][m] == es[k];
  }

  /** The threshold part of `_rebuild_tree`: collect the split nodes, sort
      them by row and merge them against one reader pass. The result is the
      node-by-node recovery. */
  method RecoverThresholds(trees0: seq<seq<TreeNode>>, rows: seq<Instance>) returns (trees: seq<seq<TreeNode>>)
    requires RowIds(trees0)
    ensures trees == Recovered(trees0, rows)
  {
    var es := CollectSplits(trees0);
    var sorted := SortByItem(es);
    SortByItemSorts(es);
    forall k | 0 <= k < |sorted|
      ensures EntryOf(trees0, sorted[k]) && sorted[k].item >= 0
    {
      assert sorted[k] in multiset(es);
    }
    ghost var done;
    trees, done := MergeThresholds(trees0, rows, sorted);
    PassIsRecovery(trees, trees0, rows, es, sorted, done);
  }

  /** The copy loop of `_rebuild_tree` (and of `read_model`): compact
      nodes and scaled means, tree by tree. */
  method CompactTrees(rs: seq<seq<Record>>, sr: real) returns (cs: seq<seq<SmallNode>>, ms: seq<seq<real>>)
    ensures cs == CompactAll(rs) && ms == MeansOf(rs, sr)
  {
    cs, ms := [], [];
    for t := 0 to |rs|
      invariant |cs| == t && |ms| == t
      invariant forall u :: 0 <= u < t ==> cs[u] == CompactAll(rs)[u] && ms[u] == MeansOf(rs, sr)[u]
    {
      var c: seq<SmallNode> := [];
      var m: seq<real> := [];
      for i := 0 to |rs[t]|
        invariant |c| == i && |m| == i
        invariant forall j :: 0 <= j < i ==> c[j] == Compact(rs[t][j]) && m[j] == rs[t][j].mean * sr
      {
        c := c + [Compact(rs[t][i])];
        m := m + [rs[t][i].mean * sr];
      }
      assert c == CompactAll(rs)[t] by {
        forall j | 0 <= j < |c| ensures c[j] == CompactAll(rs)[t][j] {}
      }
      assert m == MeansOf(rs, sr)[t] by {
        forall j | 0 <= j < |m| ensures m[j] == MeansOf(rs, sr)[t][j] {}
      }
      cs := cs + [c];
      ms := ms + [m];
    }
  }

  /** The layer count loop of `read_model`: shift until nothing is left. */
  method CountBits(n: nat) returns (b: nat)
    ensures b == BitLength(n)
  {
    var t := n;
    b := 0;
    while t != 0
      invariant BitLength(n) == b + BitLength(t)
    {
      t := t / 2;
      b := b + 1;
    }
  }

  /** The dimension update of `read_model` over the nodes of one tree,
      after the nodes `before`. */
  method CountTreeDims(start: int, ghost before: seq<Record>, recs: seq<Record>) returns (dim: int)
    requires start == DimOf(before)
    ensures dim == DimOf(before + recs)
  {
    dim := start;
    assert before + recs[..0] == before;
    for i := 0 to |recs|
      invariant dim == DimOf(before + recs[..i])
    {
      assert (before + recs[..i + 1])[..|before| + i] == before + recs[..i];
      if dim <= recs[i].fidx {
        dim := recs[i].fidx + 1;
      }
    }
    assert recs[..|recs|] == recs;
  }

  /** The dimension update of `read_model`, node after node. */
  method CountDims(rs: seq<seq<Record>>) returns (dim: int)
    ensures dim == DimOf(Flatten(rs))
  {
    dim := 0;
    for t := 0 to |rs|
      invariant dim == DimOf(Flatten(rs[..t]))
    {
      dim := CountTreeDims(dim, Flatten(rs[..t]), rs[t]);
      assert rs[..t + 1][..t] == rs[..t];
    }
    assert rs[..|rs|] == rs;
  }

  /** Records read so far in front of what is still to be read. */
  function Then<T>(done: seq<T>, rest: Option<seq<T>>): Option<seq<T>> {
    match rest
    case None => None
    case Some(x) => Some(done + x)
  }

  lemma ThenAppend<T>(done: seq<T>, x: T, rest: Option<seq<T>>)
    ensures Then(done, Then([x], rest)) == Then(done + [x], rest)
  {
    match rest {
      case None =>
      case Some(y) => assert done + ([x] + y) == done + [x] + y;
    }
  }

  /** The node loop of `read_model` for one tree. */
  method ReadTreeFields(s: seq<Field>, size: nat) returns (ok: bool, recs: seq<Record>)
    ensures ok == ReadTree(s, size).Some? && (ok ==> recs == ReadTree(s, size).value)
  {
    var pos := 0;
    recs := [];
    assert s[pos..] == s;
    match ReadTree(s, size) {
      case None =>
      case Some(x) => assert [] + x == x;
    }
    for i := 0 to size
      invariant 0 <= pos <= |s| && ReadTree(s, size) == Then(recs, ReadTree(s[pos..], size - i))
    {
      if pos + 3 > |s| || !s[pos].IntField? || !s[pos + 1].RealField? || !s[pos + 2].RealField? {
        return false, [];
      }
      var r := Record(s[pos].i, s[pos + 1].r, s[pos + 2].r);
      assert ReadNode(s[pos..]) == Some(r);
      assert s[pos..][3..] == s[pos + 3..];
      assert ReadTree(s[pos..], size - i) == Then([r], ReadTree(s[pos + 3..], size - i - 1));
      ThenAppend(recs, r, ReadTree(s[pos + 3..], size - i - 1));
      recs := recs + [r];
      pos := pos + 3;
    }
    assert ReadTree(s[pos..], 0) == Some([]) && recs + [] == recs;
    return true, recs;
  }

  /** The tree loop of `read_model`. */
  method ReadForestFields(s: seq<Field>, count: nat, size: nat) returns (ok: bool, recs: seq<seq<Record>>)
    ensures ok == ReadForest(s, count, size).Some? && (ok ==> recs == ReadForest(s, count, size).value)
  {
    var pos := 0;
    recs := [];
    assert s[pos..] == s;
    match ReadForest(s, count, size) {
      case None =>
      case Some(x) => assert [] + x == x;
    }
    for t := 0 to count
      invariant 0 <= pos <= |s| && ReadForest(s, count, size) == Then(recs, ReadForest(s[pos..], count - t, size))
    {
      if |s| - pos < 3 * size {
        return false, [];
      }
      var okTree, tree := ReadTreeFields(s[pos..], size);
      if !okTree {
        return false, [];
      }
      assert s[pos..][3 * size..] == s[pos + 3 * size..];
      assert ReadForest(s[pos..], count - t, size) == Then([tree], ReadForest(s[pos + 3 * size..], count - t - 1, size));
      ThenAppend(recs, tree, ReadForest(s[pos + 3 * size..], count - t - 1, size));
      recs := recs + [tree];
      pos := pos + 3 * size;
    }
    assert ReadForest(s[pos..], 0, size) == Some([]) && recs + [] == recs;
    return true, recs;
  }

  /** `read_model` up to the assignment of the fields. */
  method LoadModel(s: seq<Field>) returns (ok: bool, im: Image)
    ensures ok == Load(s).Some? && (ok ==> im == Load(s).value)
  {
    im := Image(0, 0, 0.0, 0, 0, [], []);
    if |s| < 3 || !s[0].IntField? || !s[1].IntField? || !s[2].RealField? || s[0].i < 0 || s[1].i < 0 {
      return false, im;
    }
    var tc, ts, r := s[0].i, s[1].i, s[2].r;
    var recs;
    ok, recs := ReadForestFields(s[3..], tc, ts);
    if !ok {
      return;
    }
    var bits := CountBits(ts);
    var dim := CountDims(recs);
    var cs, ms := CompactTrees(recs, r);
    im := Image(tc, ts, r, bits as int - 3, dim, cs, ms);
  }

  /** The first `count` trees are there, walkable with `dim` values, with a
      mean per node. */
  predicate Forest(compact: seq<seq<SmallNode>>, means: seq<seq<real>>, count: int, dim: int) {
    0 <= count <= |compact| && count <= |means| &&
    forall t :: 0 <= t < count ==> 0 < |compact[t]| == |means[t]| && Walkable(compact[t], dim)
  }

  /** The tree loop of `predict_and_get_leaves`, stopping at the cut. */
  method WalkForest(compact: seq<seq<SmallNode>>, means: seq<seq<real>>, treeCount: int, cut: int, buf: array<real>)
    returns (score: real, leaves: seq<int>, leafMeans: seq<real>)
    requires Forest(compact, means, treeCount, buf.Length)
    ensures |leaves| == TreesUsed(treeCount, cut) && |leafMeans| == |leaves|
    ensures forall t :: 0 <= t < |leaves| ==>
      leaves[t] == LeafOf(compact[t], buf[..], 0) && 0 <= leaves[t] < |means[t]| && leafMeans[t] == means[t][leaves[t]]
    ensures score == LeafSum(means, leaves)
  {
    score, leaves, leafMeans := 0.0, [], [];
    var tc := 0;
    while tc < treeCount
      invariant 0 <= tc <= treeCount && |leaves| == tc && |leafMeans| == tc
      invariant cut >= 0 ==> tc <= cut
      invariant forall t :: 0 <= t < tc ==>
        leaves[t] == LeafOf(compact[t], buf[..], 0) && 0 <= leaves[t] < |means[t]| && leafMeans[t] == means[t][leaves[t]]
      invariant score == LeafSum(means, leaves)
    {
      if cut >= 0 && tc >= cut {
        break;
      }
      var nid := Walk(compact[tc], buf);
      assert (leaves + [nid])[..tc] == leaves;
      leaves := leaves + [nid];
      leafMeans := leafMeans + [means[tc][nid]];
      score := score + means[tc][nid];
      tc := tc + 1;
    }
  }

  /** Trees whose split nodes have their children inside the tree and a
      feature below `dim`, as training leaves them, stay so when their
      thresholds are recovered, and their compact copies can be walked
      with a buffer of `dim` values. */
  lemma FitTreesWalkable(trees: seq<seq<TreeNode>>, rows: seq<Instance>, dim: int)
    requires forall t :: 0 <= t < |trees| ==> SplitsFit(trees[t], dim)
    ensures var cs := CompactAll(Records(Recovered(trees, rows)));
      forall t :: 0 <= t < |trees| ==> Walkable(cs[t], dim)
  {
    var rec: seq<seq<TreeNode>> := Recovered(trees, rows);
    var cs: seq<seq<SmallNode>> := CompactAll(Records(rec));
    forall t: int, i: int | 0 <= t < |trees| && 0 <= i < |cs[t]|
      ensures cs[t][i].fidx == trees[t][i].fidx
    {
      assert cs[t][i] == Compact(RecordOf(rec[t][i]));
    }
  }

  /** The model object: `_trees` as training left them, the compact trees
      and scaled means prediction uses, and the settings. */
  class Gbdt {
    var treeCount: int
    var maxLayer: int
    var treeSize: int
    var sr: real
    var dimCount: int
    var predictTreeCut: int
    var trees: seq<seq<TreeNode>>
    var compact: seq<seq<SmallNode>>
    var means: seq<seq<real>>

    /** The settings `tree_num`, `layer_num` and `shrinkage`; a tree holds
        `1 << (layer_num + 2)` nodes. */
    constructor (treeNum: int, layerNum: nat, shrinkage: real)
      ensures treeCount == treeNum && maxLayer == layerNum && treeSize == Pow2(layerNum + 2) && sr == shrinkage
      ensures predictTreeCut == -1 && dimCount == 0 && trees == [] && compact == [] && means == []
    {
      treeCount := treeNum;
      maxLayer := layerNum;
      treeSize := Pow2(layerNum + 2);
      sr := shrinkage;
      dimCount := 0;
      predictTreeCut := -1;
      trees := [];
      compact := [];
      means := [];
    }

    /** `_trees` holds every tree at full size. */
    ghost predicate Trained()
      reads this
    {
      treeCount >= 0 && treeSize >= 0 && |trees| == treeCount &&
      forall t :: 0 <= t < treeCount ==> |trees[t]| == treeSize
    }

    /** The compact trees are there and can be walked with a buffer of
        `dim_count` values. */
    ghost predicate Ready()
      reads this
    {
      treeCount >= 0 && dimCount >= 0 && |compact| == treeCount && |means| == treeCount &&
      forall t :: 0 <= t < treeCount ==>
        |compact[t]| == treeSize && |means[t]| == treeSize && treeSize > 0 && Walkable(compact[t], dimCount)
    }

    method SetPredictTreeCut(n: int)
      modifies this`predictTreeCut
      ensures predictTreeCut == n
    {
      predictTreeCut := n;
    }

    function PredictTreeCut(): int
      reads this
    {
      TreeCut(treeCount, predictTreeCut)
    }

    /** `tree_node_count`: `1 << (max_layer + 1)`, half the node table a
        trained tree gets (src/models/gbdt.h:394, 947); a shift by a
        negative amount has no value in C++ and gives 0 here. */
    function TreeNodeCount(): (r: int)
      reads this
      ensures maxLayer >= -1 ==> r >= 1
      ensures maxLayer >= -1 && treeSize == Pow2(maxLayer + 2) ==> 2 * r == treeSize
    {
      if maxLayer >= -1 then Pow2(maxLayer + 1) else 0
    }

    /** `predict_and_get_leaves`: the row's values go into a dense buffer,
        each of the first trees up to the cut is walked to a leaf, and the
        scaled means of the leaves are summed. */
    method PredictAndGetLeaves(ins: Instance) returns (score: real, leaves: seq<int>, leafMeans: seq<real>)
      requires Ready() && forall k :: 0 <= k < |ins.features| ==> ins.features[k].index >= 0
      ensures |leaves| == TreesUsed(treeCount, predictTreeCut) && |leafMeans| == |leaves|
      ensures forall t :: 0 <= t < |leaves| ==>
        leaves[t] == LeafOf(compact[t], Dense(ins.features, dimCount), 0) && 0 <= leaves[t] < |means[t]| &&
        leafMeans[t] == means[t][leaves[t]]
      ensures score == LeafSum(means, leaves)
    {
      var buf := FillBuffer(ins.features, dimCount);
      score, leaves, leafMeans := WalkForest(compact, means, treeCount, predictTreeCut, buf);
    }

    /** `predict`: the score alone. */
    method Predict(ins: Instance) returns (score: real)
      requires Ready() && forall k :: 0 <= k < |ins.features| ==> ins.features[k].index >= 0
      ensures exists leaves: seq<int> ::
        |leaves| == TreesUsed(treeCount, predictTreeCut) &&
        (forall t :: 0 <= t < |leaves| ==> leaves[t] == LeafOf(compact[t], Dense(ins.features, dimCount), 0)) &&
        score == LeafSum(means, leaves)
    {
      var leaves, leafMeans;
      score, leaves, leafMeans := PredictAndGetLeaves(ins);
    }

    /** `write_model`. */
    method WriteModel() returns (s: seq<Field>)
      requires Trained()
      ensures s == ModelFile(treeCount, treeSize, sr, Records(trees))
    {
      var rs := Records(trees);
      s := [IntField(treeCount), IntField(treeSize), RealField(sr)];
      for t := 0 to treeCount
        invariant s == ModelFile(treeCount, treeSize, sr, rs[..t])
      {
        ghost var before := s;
        for i := 0 to treeSize
          invariant s == before + TreeFields(rs[t][..i])
        {
          assert rs[t][..i + 1][..i] == rs[t][..i];
          s := s + NodeFields(RecordOf(trees[t][i]));
        }
        assert rs[..t + 1][..t] == rs[..t];
        assert rs[t][..treeSize] == rs[t];
      }
      assert rs[..treeCount] == rs;
    }

    /** `read_model`: a stream `Load` accepts replaces the counts, the
        shrinkage, the inferred layer count, the dimension, the compact
        trees and the scaled means; any other stream changes nothing. */
    method ReadModel(s: seq<Field>) returns (ok: bool)
      modifies this
      ensures ok == Load(s).Some?
      ensures ok ==> var im := Load(s).value;
        treeCount == im.treeCount && treeSize == im.treeSize && sr == im.sr && maxLayer == im.maxLayer &&
        dimCount == im.dimCount && compact == im.compact && means == im.means &&
        trees == old(trees) && predictTreeCut == old(predictTreeCut)
      ensures !ok ==> unchanged(this)
    {
      var im;
      ok, im := LoadModel(s);
      if ok {
        treeCount, treeSize, sr, maxLayer := im.treeCount, im.treeSize, im.sr, im.maxLayer;
        dimCount, compact, means := im.dimCount, im.compact, im.means;
      }
    }

    /** `_rebuild_tree`: thresholds recovered from the rows, then the
        compact trees and scaled means rebuilt from `_trees`. */
    method RebuildTree(rows: seq<Instance>)
      requires Trained() && RowIds(trees)
      modifies this`trees, this`compact, this`means
      ensures trees == Recovered(old(trees), rows)
      ensures compact == CompactAll(Records(trees)) && means == MeansOf(Records(trees), sr)
      ensures dimCount >= 0 && treeSize > 0 && (forall t :: 0 <= t < treeCount ==> SplitsFit(old(trees)[t], dimCount))
              ==> Ready()
    {
      if forall t :: 0 <= t < treeCount ==> SplitsFit(trees[t], dimCount) {
        FitTreesWalkable(trees, rows, dimCount);
      }
      trees := RecoverThresholds(trees, rows);
      compact, means := CompactTrees(Records(trees), sr);
    }
  }
}
