/** One feature job of a layer (`__worker_layer_processor` in
    src/models/gbdt.h): reset the node cursors, run through the feature's
    pre-sorted column once, placing every sampled row in its node's next
    slot and scoring cut points at boundaries between runs of equal values. */
module GbdtScan {
  import opened GbdtNode
  import opened GbdtColumn

  // ---------------------------------------------------------------------
  // What the scan has seen of one node.

  /** The run key in effect after the first `i` column entries: the position
      of the latest entry whose `same` bit is clear. */
  ghost function RunKey(col: seq<SortedIndex>, i: nat): int
    requires i <= |col|
  {
    if i == 0 then InvalidSameKey
    else if !col[i - 1].same then i - 1
    else RunKey(col, i - 1)
  }

  lemma {:induction false} RunKeyBound(col: seq<SortedIndex>, i: nat)
    requires i <= |col|
    ensures RunKey(col, i) == InvalidSameKey || 0 <= RunKey(col, i) < i
  {
    if i > 0 && col[i - 1].same {
      RunKeyBound(col, i - 1);
    }
  }

  /** Every column entry names a row of the table. */
  predicate RowsIn(col: seq<SortedIndex>, n: int) {
    forall j :: 0 <= j < |col| ==> 0 <= col[j].index < n
  }

  /** Column entry `j` is a sampled row sitting in node `n`. */
  predicate OwnedAt(col: seq<SortedIndex>, rows: seq<ItemInfo>, smp: Sampling, n: int, j: int)
    requires RowsIn(col, |rows|)
    requires 0 <= j < |col|
  {
    Sampled(smp, col[j].index) && rows[col[j].index].node == n
  }

  /** A column entry as node `n` sees it: its position, row, run key and
      residual. */
  datatype Seen = Seen(pos: int, row: int, key: int, res: real)

  /** The entries among the first `i` that belong to node `n`, in column
      order. */
  ghost function SeenBy(col: seq<SortedIndex>, rows: seq<ItemInfo>, smp: Sampling, n: int, i: nat): seq<Seen>
    requires RowsIn(col, |rows|)
    requires i <= |col|
  {
    if i == 0 then []
    else
      var prev := SeenBy(col, rows, smp, n, i - 1);
      if OwnedAt(col, rows, smp, n, i - 1)
      then prev + [Seen(i - 1, col[i - 1].index, RunKey(col, i), rows[col[i - 1].index].residual)]
      else prev
  }

  lemma {:induction false} SeenFacts(col: seq<SortedIndex>, rows: seq<ItemInfo>, smp: Sampling, n: int, i: nat)
    requires RowsIn(col, |rows|)
    requires i <= |col|
    ensures var s := SeenBy(col, rows, smp, n, i);
      && |s| <= i
      && (forall t :: 0 <= t < |s| ==>
            && 0 <= s[t].pos < i
            && OwnedAt(col, rows, smp, n, s[t].pos)
            && s[t].row == col[s[t].pos].index
            && s[t].res == rows[s[t].row].residual
            && s[t].key == RunKey(col, s[t].pos + 1)
            && (s[t].key == InvalidSameKey || 0 <= s[t].key <= s[t].pos))
      && (forall t1, t2 :: 0 <= t1 < t2 < |s| ==> s[t1].pos < s[t2].pos)
  {
    if i > 0 {
      SeenFacts(col, rows, smp, n, i - 1);
      RunKeyBound(col, i);
    }
  }

  lemma {:induction false} SeenPrefix(col: seq<SortedIndex>, rows: seq<ItemInfo>, smp: Sampling, n: int, i: nat, j: nat)
    requires RowsIn(col, |rows|)
    requires i <= j <= |col|
    ensures var s := SeenBy(col, rows, smp, n, j);
      |SeenBy(col, rows, smp, n, i)| <= |s| && SeenBy(col, rows, smp, n, i) == s[..|SeenBy(col, rows, smp, n, i)|]
    decreases j - i
  {
    if i < j {
      SeenPrefix(col, rows, smp, n, i, j - 1);
    }
  }

  function SumRes(s: seq<Seen>): real {
    if s == [] then 0.0 else SumRes(s[..|s| - 1]) + s[|s| - 1].res
  }

  function SumSq(s: seq<Seen>): real {
    if s == [] then 0.0 else SumSq(s[..|s| - 1]) + Square(s[|s| - 1].res)
  }

  /** The run key of the last entry seen, which is what the node's
      `same_key` holds. */
  function LastKey(s: seq<Seen>): int {
    if s == [] then InvalidSameKey else s[|s| - 1].key
  }

  // ---------------------------------------------------------------------
  // Cut points and the best one.

  /** The entry at position `k` of a node is scored: it is the first entry
      of its run to reach the node. */
  predicate Evaluated(s: seq<Seen>, k: int)
    requires 0 <= k < |s|
  {
    s[k].key != (if k == 0 then InvalidSameKey else s[k - 1].key)
  }

  /** The score of cutting node `nd` before its `k`-th entry. */
  function MidAt(nd: TreeNode, s: seq<Seen>, k: int): real
    requires 0 <= k <= |s|
  {
    Mid(SumRes(s[..k]), k, nd.sum - SumRes(s[..k]), nd.end - nd.begin - k)
  }

  /** The score a layer node starts the scan with: nothing on the left. */
  function NoSplitScore(nd: TreeNode): real {
    Mid(0.0, 0, nd.sum, nd.cnt)
  }

  /** The best cut recorded so far: whether any cut beat the "no split"
      score, its score and its position among the node's entries. */
  datatype Record = Record(found: bool, score: real, k: int)

  /** Left-to-right search over the scored entries, replacing the record
      only on a strictly greater score. */
  ghost function Best(nd: TreeNode, s: seq<Seen>): Record
    decreases |s|
  {
    if s == [] then Record(false, NoSplitScore(nd), 0)
    else
      var r := Best(nd, s[..|s| - 1]);
      var k := |s| - 1;
      if Evaluated(s, k) && MidAt(nd, s, k) > r.score then Record(true, MidAt(nd, s, k), k) else r
  }

  /** The record's position lies among the entries, and without a cut
      the record keeps the "no split" score. */
  lemma {:induction false} BestBound(nd: TreeNode, s: seq<Seen>)
    ensures var b := Best(nd, s);
      && (b.found ==> 0 <= b.k < |s|)
      && (!b.found ==> b.score == NoSplitScore(nd))
    decreases |s|
  {
    if s != [] {
      BestBound(nd, s[..|s| - 1]);
    }
  }

  /** The recorded cut is optimal over all scored entries, beats the "no
      split" score strictly, and is the first entry reaching that score. */
  lemma {:induction false} BestIsOptimal(nd: TreeNode, s: seq<Seen>)
    ensures var b := Best(nd, s);
      && b.score >= NoSplitScore(nd)
      && (forall k :: 0 <= k < |s| && Evaluated(s, k) ==> MidAt(nd, s, k) <= b.score)
      && (b.found ==>
            && 0 <= b.k < |s| && Evaluated(s, b.k) && b.score == MidAt(nd, s, b.k)
            && b.score > NoSplitScore(nd)
            && forall k :: 0 <= k < b.k && Evaluated(s, k) ==> MidAt(nd, s, k) < b.score)
      && (!b.found ==> b.score == NoSplitScore(nd))
    decreases |s|
  {
    if s != [] {
      var p := s[..|s| - 1];
      BestIsOptimal(nd, p);
      forall k | 0 <= k < |p|
        ensures s[..k] == p[..k] && MidAt(nd, s, k) == MidAt(nd, p, k) && (Evaluated(s, k) <==> Evaluated(p, k))
      {
        assert s[..k] == p[..k];
      }
    }
  }

  /** The whole state of a layer node after the scan has seen `s`, starting
      from its state `nd` after the reset. */
  ghost function LayerScanned(nd: TreeNode, s: seq<Seen>, feature: int): TreeNode {
    var b := Best(nd, s);
    nd.(grow := nd.begin + |s|, sameKey := LastKey(s),
        tempSum := nd.tempSum + SumRes(s), tempSsum := nd.tempSsum + SumSq(s),
        score := if b.found then Finite(b.score) else nd.score,
        fidx := if b.found then feature else nd.fidx,
        split := if b.found then nd.begin + b.k else nd.split,
        splitId := if b.found && 0 <= b.k < |s| then s[b.k].row else nd.splitId,
        splitSum := if b.found && 0 <= b.k <= |s| then nd.tempSum + SumRes(s[..b.k]) else nd.splitSum,
        splitSsum := if b.found && 0 <= b.k <= |s| then nd.tempSsum + SumSq(s[..b.k]) else nd.splitSsum)
  }

  /** A layer node after the reset: empty running sums and the "no split"
      score. */
  predicate ResetLayerNode(nd: TreeNode) {
    nd.tempSum == 0.0 && nd.cnt == nd.end - nd.begin && nd.score == Finite(NoSplitScore(nd))
  }

  // ---------------------------------------------------------------------
  // The job's node array before and during the scan.

  /** The node fields the scan never writes. */
  predicate SameRange(a: TreeNode, b: TreeNode) {
    a.begin == b.begin && a.end == b.end && a.cnt == b.cnt && a.sum == b.sum && a.squareSum == b.squareSum
  }

  /** The rows of `s` sit in consecutive slots of `buf` from `begin`. */
  ghost predicate Placed(buf: seq<int>, begin: int, s: seq<Seen>) {
    0 <= begin && begin + |s| <= |buf| && forall t :: 0 <= t < |s| ==> buf[begin + t] == s[t].row
  }

  /** Node `n` owns at least one sampled row of the column. */
  ghost predicate Owner(col: seq<SortedIndex>, rows: seq<ItemInfo>, smp: Sampling, n: int)
    requires RowsIn(col, |rows|)
  {
    |SeenBy(col, rows, smp, n, |col|)| > 0
  }

  /** What a job needs of the shared state: every sampled row sits in one of
      the first `allNodeCount` nodes, each node's range holds its rows, and
      the ranges of nodes owning rows do not overlap. */
  ghost predicate ScanReady(t: seq<TreeNode>, col: seq<SortedIndex>, rows: seq<ItemInfo>, smp: Sampling,
                            allNodeCount: int, beg: int, end: int)
  {
    && RowsIn(col, |rows|)
    && |col| < InvalidSameKey
    && 0 <= beg <= end <= allNodeCount <= |t|
    && (forall j :: 0 <= j < |col| && Sampled(smp, col[j].index) ==> 0 <= rows[col[j].index].node < allNodeCount)
    && (forall n :: 0 <= n < allNodeCount ==> NodeFits(t[n], col, rows, smp, n))
    && (forall n1, n2 ::
          (0 <= n1 < allNodeCount && 0 <= n2 < allNodeCount && n1 != n2
           && Owner(col, rows, smp, n1) && Owner(col, rows, smp, n2)) ==>
          Apart(t[n1], t[n2]))
  }

  /** The range of node `n` (with state `nd`) lies in the slot buffer and
      has room for all of its rows. */
  ghost predicate NodeFits(nd: TreeNode, col: seq<SortedIndex>, rows: seq<ItemInfo>, smp: Sampling, n: int)
    requires RowsIn(col, |rows|)
  {
    0 <= nd.begin && nd.begin + |SeenBy(col, rows, smp, n, |col|)| <= nd.end <= |col|
  }

  /** Two node ranges do not overlap. */
  predicate Apart(a: TreeNode, b: TreeNode) {
    a.end <= b.begin || b.end <= a.begin
  }

  /** A node of the job after the reset loops of the worker. */
  function ResetNode(nd: TreeNode, layer: bool): TreeNode {
    var c := nd.(grow := nd.begin, sameKey := InvalidSameKey);
    if layer then
      var cnt := c.end - c.begin;
      c.(tempSum := 0.0, cnt := cnt, score := Finite(Mid(0.0, 0, c.sum, cnt)))
    else c
  }

  lemma ResetNodeFacts(nd: TreeNode, layer: bool)
    ensures var r := ResetNode(nd, layer);
      && r.grow == r.begin && r.sameKey == InvalidSameKey
      && r.begin == nd.begin && r.end == nd.end && r.sum == nd.sum && r.squareSum == nd.squareSum
      && r.fidx == nd.fidx && r.split == nd.split && r.splitSum == nd.splitSum
      && (layer ==> ResetLayerNode(r))
  {
  }

  /** The reset loops of `__worker_layer_processor`: every node below
      `allNodeCount` restarts its cursor and run key; layer nodes also
      restart their running sum, recount and take the "no split" score. */
  method ResetCursors(tree: array<TreeNode>, allNodeCount: int, beg: int, end: int)
    requires 0 <= beg <= end <= allNodeCount <= tree.Length
    modifies tree
    ensures forall n :: 0 <= n < tree.Length ==>
      tree[n] == if n < allNodeCount then ResetNode(old(tree[n]), beg <= n < end) else old(tree[n])
  {
    var i := 0;
    while i < allNodeCount
      invariant 0 <= i <= allNodeCount
      invariant forall n :: 0 <= n < tree.Length ==>
        tree[n] == if n < i then old(tree[n]).(grow := old(tree[n]).begin, sameKey := InvalidSameKey) else old(tree[n])
    {
      tree[i] := tree[i].(grow := tree[i].begin, sameKey := InvalidSameKey);
      i := i + 1;
    }
    i := beg;
    while i < end
      invariant beg <= i <= end
      invariant forall n :: 0 <= n < tree.Length ==>
        tree[n] == if n < allNodeCount then ResetNode(old(tree[n]), beg <= n < i) else old(tree[n])
    {
      var cnt := tree[i].end - tree[i].begin;
      tree[i] := tree[i].(tempSum := 0.0, cnt := cnt, score := Finite(Mid(0.0, 0, tree[i].sum, cnt)));
      i := i + 1;
    }
  }

  /** The state of node `n` after the scan has seen the first `i` entries,
      relative to its state `nd` after the reset. */
  ghost predicate ScannedNode(cur: TreeNode, nd: TreeNode, s: seq<Seen>, layer: bool, feature: int) {
    if layer then cur == LayerScanned(nd, s, feature)
    else SameRange(cur, nd) && cur.grow == nd.begin + |s| && cur.sameKey == LastKey(s)
  }

  /** The scan invariant after `i` entries: nodes from `allNodeCount` on are
      untouched, the others are as `ScannedNode` says and their rows are
      placed. */
  ghost predicate ScanInv(t0: seq<TreeNode>, t: seq<TreeNode>, buf: seq<int>, col: seq<SortedIndex>,
                          rows: seq<ItemInfo>, smp: Sampling, feature: int,
                          allNodeCount: int, beg: int, end: int, i: nat)
    requires RowsIn(col, |rows|)
    requires i <= |col|
  {
    && |buf| == |col| && |t| == |t0| && 0 <= allNodeCount <= |t|
    && (forall n :: allNodeCount <= n < |t| ==> t[n] == t0[n])
    && (forall n :: 0 <= n < allNodeCount ==>
          NodeScanned(t[n], t0[n], buf, col, rows, smp, n, i, beg <= n < end, feature))
  }

  /** Node `n` after the first `i` entries: its state and its slots. */
  ghost predicate NodeScanned(cur: TreeNode, nd: TreeNode, buf: seq<int>, col: seq<SortedIndex>,
                              rows: seq<ItemInfo>, smp: Sampling, n: int, i: nat, layer: bool, feature: int)
    requires RowsIn(col, |rows|)
    requires i <= |col|
  {
    var s := SeenBy(col, rows, smp, n, i);
    ScannedNode(cur, nd, s, layer, feature) && Placed(buf, nd.begin, s)
  }

  /** The loop body of the scan applied to node `nod` for the row `ind`,
      when `sameKey` is the run key after the current entry. */
  function StepNode(nod: TreeNode, same: bool, sameKey: int, ind: int, r: real, feature: int): TreeNode {
    var c1 := if !same || nod.sameKey != sameKey then nod.(sameKey := sameKey) else nod;
    var ts := StepScore(c1);
    var c2 := if (!same || nod.sameKey != sameKey) && Greater(Finite(ts), c1.score)
              then c1.(fidx := feature, score := Finite(ts), split := c1.grow, splitId := ind,
                       splitSum := c1.tempSum, splitSsum := c1.tempSsum)
              else c1;
    c2.(tempSum := c2.tempSum + r, tempSsum := c2.tempSsum + Square(r), grow := c2.grow + 1)
  }

  /** The cut score a step computes for `nod`. */
  function StepScore(nod: TreeNode): real {
    Mid(nod.tempSum, nod.grow - nod.begin, nod.sum - nod.tempSum, nod.end - nod.grow)
  }

  /** A step that records the entry's cut. */
  lemma StepNodeTakes(nod: TreeNode, same: bool, sameKey: int, ind: int, r: real, feature: int)
    requires !same || nod.sameKey != sameKey
    requires Greater(Finite(StepScore(nod)), nod.score)
    ensures StepNode(nod, same, sameKey, ind, r, feature)
      == nod.(sameKey := sameKey, fidx := feature, score := Finite(StepScore(nod)), split := nod.grow, splitId := ind,
              splitSum := nod.tempSum, splitSsum := nod.tempSsum,
              tempSum := nod.tempSum + r, tempSsum := nod.tempSsum + Square(r), grow := nod.grow + 1)
  {
  }

  /** A step that leaves the record alone. */
  lemma StepNodeKeeps(nod: TreeNode, same: bool, sameKey: int, ind: int, r: real, feature: int)
    requires (!same ==> nod.sameKey != sameKey) && (same ==> nod.sameKey == sameKey || !Greater(Finite(StepScore(nod)), nod.score))
    requires !Greater(Finite(StepScore(nod)), nod.score) || (same && nod.sameKey == sameKey)
    ensures StepNode(nod, same, sameKey, ind, r, feature)
      == nod.(sameKey := sameKey, tempSum := nod.tempSum + r, tempSsum := nod.tempSsum + Square(r), grow := nod.grow + 1)
  {
  }

  /** A step never moves a node's range or totals, advances its cursor by
      one, and leaves the run key of the current entry in it. */
  lemma StepNodeFrame(nod: TreeNode, same: bool, sameKey: int, ind: int, r: real, feature: int)
    requires !same ==> nod.sameKey != sameKey
    ensures var c := StepNode(nod, same, sameKey, ind, r, feature);
      SameRange(c, nod) && c.grow == nod.grow + 1 && c.sameKey == sameKey
  {
  }

  /** The score a layer node compares with at the next entry: the cut
      before it, computed from the node's running sums. */
  lemma LayerStepScore(nd: TreeNode, s: seq<Seen>, e: Seen, feature: int)
    requires ResetLayerNode(nd)
    ensures var cur := LayerScanned(nd, s, feature);
      var s' := s + [e];
      && cur.score == Finite(Best(nd, s).score)
      && StepScore(cur) == MidAt(nd, s', |s|)
      && Evaluated(s', |s|) == (e.key != LastKey(s))
      && Best(nd, s') == if Evaluated(s', |s|) && MidAt(nd, s', |s|) > Best(nd, s).score
                         then Record(true, MidAt(nd, s', |s|), |s|) else Best(nd, s)
  {
    var s' := s + [e];
    assert s'[..|s'| - 1] == s;
    assert s'[..|s|] == s;
    BestBound(nd, s);
  }

  /** The running sums after one more entry. */
  lemma SumsStep(s: seq<Seen>, e: Seen)
    ensures SumRes(s + [e]) == SumRes(s) + e.res
    ensures SumSq(s + [e]) == SumSq(s) + Square(e.res)
    ensures LastKey(s + [e]) == e.key
  {
    assert (s + [e])[..|s|] == s;
  }

  /** One scan step on a layer node extends its state by one entry. */
  lemma LayerStep(nd: TreeNode, s: seq<Seen>, e: Seen, same: bool, feature: int)
    requires ResetLayerNode(nd)
    requires !same ==> e.key != LastKey(s)
    ensures StepNode(LayerScanned(nd, s, feature), same, e.key, e.row, e.res, feature)
      == LayerScanned(nd, s + [e], feature)
  {
    LayerStepScore(nd, s, e, feature);
    if Evaluated(s + [e], |s|) && MidAt(nd, s + [e], |s|) > Best(nd, s).score {
      LayerStepTake(nd, s, e, same, feature);
    } else {
      LayerStepKeep(nd, s, e, same, feature);
    }
  }

  /** The step when the entry's cut beats the record. */
  lemma LayerStepTake(nd: TreeNode, s: seq<Seen>, e: Seen, same: bool, feature: int)
    requires ResetLayerNode(nd)
    requires !same ==> e.key != LastKey(s)
    requires Evaluated(s + [e], |s|) && MidAt(nd, s + [e], |s|) > Best(nd, s).score
    ensures StepNode(LayerScanned(nd, s, feature), same, e.key, e.row, e.res, feature)
      == LayerScanned(nd, s + [e], feature)
  {
    var s' := s + [e];
    var cur := LayerScanned(nd, s, feature);
    var ts := MidAt(nd, s', |s|);
    var next := cur.(sameKey := e.key, fidx := feature, score := Finite(ts), split := cur.grow, splitId := e.row,
                     splitSum := cur.tempSum, splitSsum := cur.tempSsum,
                     tempSum := cur.tempSum + e.res, tempSsum := cur.tempSsum + Square(e.res), grow := cur.grow + 1);
    LayerStepScore(nd, s, e, feature);
    assert Greater(Finite(StepScore(cur)), cur.score);
    StepNodeTakes(cur, same, e.key, e.row, e.res, feature);
    assert LayerScanned(nd, s', feature) == next by {
      SumsStep(s, e);
      assert s'[..|s|] == s;
    }
  }

  /** The step when the record stands. */
  lemma LayerStepKeep(nd: TreeNode, s: seq<Seen>, e: Seen, same: bool, feature: int)
    requires ResetLayerNode(nd)
    requires !same ==> e.key != LastKey(s)
    requires !(Evaluated(s + [e], |s|) && MidAt(nd, s + [e], |s|) > Best(nd, s).score)
    ensures StepNode(LayerScanned(nd, s, feature), same, e.key, e.row, e.res, feature)
      == LayerScanned(nd, s + [e], feature)
  {
    var s' := s + [e];
    var cur := LayerScanned(nd, s, feature);
    var next := cur.(sameKey := e.key, tempSum := cur.tempSum + e.res, tempSsum := cur.tempSsum + Square(e.res),
                     grow := cur.grow + 1);
    LayerStepScore(nd, s, e, feature);
    assert !Greater(Finite(StepScore(cur)), cur.score) || (same && cur.sameKey == e.key);
    StepNodeKeeps(cur, same, e.key, e.row, e.res, feature);
    assert LayerScanned(nd, s', feature) == next by {
      var b := Best(nd, s);
      BestBound(nd, s);
      LayerStepScore(nd, s, e, feature);
      SumsStep(s, e);
      if b.found {
        assert s'[..b.k] == s[..b.k] && s'[b.k] == s[b.k];
      }
    }
  }

  /** One scan step on the node `nid` that owns the entry, whose state
      after the reset is `nd` and whose current state is `cur`. */
  lemma ScanStepOwner(nd: TreeNode, cur: TreeNode, buf: seq<int>, col: seq<SortedIndex>,
                      rows: seq<ItemInfo>, smp: Sampling, feature: int, layer: bool, i: nat, nid: int)
    requires RowsIn(col, |rows|) && |col| < InvalidSameKey
    requires i < |col| && Sampled(smp, col[i].index) && rows[col[i].index].node == nid
    requires NodeFits(nd, col, rows, smp, nid) && |buf| == |col|
    requires layer ==> ResetLayerNode(nd)
    requires NodeScanned(cur, nd, buf, col, rows, smp, nid, i, layer, feature)
    ensures Owner(col, rows, smp, nid)
    ensures nd.begin <= cur.grow < nd.end && cur.grow < |buf|
    ensures var ind := col[i].index;
      NodeScanned(StepNode(cur, col[i].same, RunKey(col, i + 1), ind, rows[ind].residual, feature), nd,
                  buf[cur.grow := ind], col, rows, smp, nid, i + 1, layer, feature)
  {
    var ind := col[i].index;
    var key := RunKey(col, i + 1);
    var s := SeenBy(col, rows, smp, nid, i);
    var seen := Seen(i, ind, key, rows[ind].residual);
    OwnerSees(col, rows, smp, i, nid);
    if layer {
      LayerStep(nd, s, seen, col[i].same, feature);
    } else {
      StepNodeFrame(cur, col[i].same, key, ind, rows[ind].residual, feature);
    }
    assert Placed(buf[cur.grow := ind], nd.begin, s + [seen]);
  }

  /** The owner of entry `i` sees it next, as a fresh run exactly when the
      column starts one there or the node missed the run's earlier
      entries. */
  lemma OwnerSees(col: seq<SortedIndex>, rows: seq<ItemInfo>, smp: Sampling, i: nat, nid: int)
    requires RowsIn(col, |rows|) && |col| < InvalidSameKey
    requires i < |col| && Sampled(smp, col[i].index) && rows[col[i].index].node == nid
    ensures var s := SeenBy(col, rows, smp, nid, i);
      var key := RunKey(col, i + 1);
      && SeenBy(col, rows, smp, nid, i + 1) == s + [Seen(i, col[i].index, key, rows[col[i].index].residual)]
      && |s| < |SeenBy(col, rows, smp, nid, |col|)|
      && Owner(col, rows, smp, nid)
      && (!col[i].same ==> key != LastKey(s))
  {
    var s := SeenBy(col, rows, smp, nid, i);
    SeenPrefix(col, rows, smp, nid, i + 1, |col|);
    assert OwnedAt(col, rows, smp, nid, i);
    SeenFacts(col, rows, smp, nid, i);
    RunKeyBound(col, i + 1);
  }

  /** Writing slot `g` outside a node's filled slots keeps them. */
  lemma PlacedKept(buf: seq<int>, begin: int, s: seq<Seen>, g: int, x: int)
    requires Placed(buf, begin, s)
    requires 0 <= g < |buf| && (g < begin || begin + |s| <= g)
    ensures Placed(buf[g := x], begin, s)
  {
  }

  /** One scan step leaves node `n`, which does not own the entry, alone;
      `other` is the owner's state after the reset and `g` the slot written. */
  lemma ScanStepOther(nd: TreeNode, cur: TreeNode, other: TreeNode, buf: seq<int>, col: seq<SortedIndex>,
                      rows: seq<ItemInfo>, smp: Sampling, feature: int, layer: bool, i: nat, n: int, g: int)
    requires RowsIn(col, |rows|)
    requires i < |col| && Sampled(smp, col[i].index) && rows[col[i].index].node != n
    requires NodeFits(nd, col, rows, smp, n)
    requires NodeScanned(cur, nd, buf, col, rows, smp, n, i, layer, feature)
    requires Owner(col, rows, smp, n) ==> Apart(nd, other)
    requires other.begin <= g < other.end && 0 <= g < |buf|
    ensures NodeScanned(cur, nd, buf[g := col[i].index], col, rows, smp, n, i + 1, layer, feature)
  {
    var sn := SeenBy(col, rows, smp, n, i);
    assert SeenBy(col, rows, smp, n, i + 1) == sn;
    if |sn| > 0 {
      SeenPrefix(col, rows, smp, n, i, |col|);
      assert Owner(col, rows, smp, n);
    }
    PlacedKept(buf, nd.begin, sn, g, col[i].index);
  }

  /** One scan step keeps the invariant. */
  lemma ScanStep(t0: seq<TreeNode>, t: seq<TreeNode>, buf: seq<int>, col: seq<SortedIndex>,
                 rows: seq<ItemInfo>, smp: Sampling, feature: int,
                 allNodeCount: int, beg: int, end: int, i: nat, next: nat, key: int)
    requires ScanReady(t0, col, rows, smp, allNodeCount, beg, end)
    requires forall n :: beg <= n < end ==> ResetLayerNode(t0[n])
    requires i < |col| && next == i + 1 && key == RunKey(col, next)
    requires ScanInv(t0, t, buf, col, rows, smp, feature, allNodeCount, beg, end, i)
    ensures var ind := col[i].index;
      if Sampled(smp, ind) then
        var nid := rows[ind].node;
        && 0 <= nid < allNodeCount
        && 0 <= t[nid].grow < |buf|
        && ScanInv(t0, t[nid := StepNode(t[nid], col[i].same, key, ind, rows[ind].residual, feature)],
                   buf[t[nid].grow := ind], col, rows, smp, feature, allNodeCount, beg, end, next)
      else ScanInv(t0, t, buf, col, rows, smp, feature, allNodeCount, beg, end, next)
  {
    var ind := col[i].index;
    if Sampled(smp, ind) {
      var nid := rows[ind].node;
      ScanStepOwner(t0[nid], t[nid], buf, col, rows, smp, feature, beg <= nid < end, i, nid);
      var g := t[nid].grow;
      forall n | 0 <= n < allNodeCount && n != nid
        ensures NodeScanned(t[n], t0[n], buf[g := ind], col, rows, smp, n, i + 1, beg <= n < end, feature)
      {
        ScanStepOther(t0[n], t[n], t0[nid], buf, col, rows, smp, feature, beg <= n < end, i, n, g);
      }
    } else {
      forall n | 0 <= n < allNodeCount
        ensures SeenBy(col, rows, smp, n, i + 1) == SeenBy(col, rows, smp, n, i)
        ensures NodeScanned(t[n], t0[n], buf, col, rows, smp, n, i + 1, beg <= n < end, feature)
      {
      }
    }
  }

  /** Before the first entry the invariant holds of the reset nodes. */
  lemma ScanStart(t0: seq<TreeNode>, buf: seq<int>, col: seq<SortedIndex>, rows: seq<ItemInfo>, smp: Sampling,
                  feature: int, allNodeCount: int, beg: int, end: int)
    requires ScanReady(t0, col, rows, smp, allNodeCount, beg, end)
    requires forall n :: 0 <= n < allNodeCount ==> t0[n].grow == t0[n].begin && t0[n].sameKey == InvalidSameKey
    requires forall n :: beg <= n < end ==> ResetLayerNode(t0[n])
    requires |buf| == |col|
    ensures ScanInv(t0, t0, buf, col, rows, smp, feature, allNodeCount, beg, end, 0)
  {
    forall n | 0 <= n < allNodeCount
      ensures NodeScanned(t0[n], t0[n], buf, col, rows, smp, n, 0, beg <= n < end, feature)
    {
      if beg <= n < end {
        assert Best(t0[n], []) == Record(false, NoSplitScore(t0[n]), 0);
      }
    }
  }

  /** The body of the scan loop for one sampled entry: score a cut if the
      entry starts a run for its node, add its residual to the running
      sums, and place the row in the node's next slot. */
  method ScanEntry(tree: array<TreeNode>, buf: array<int>, e: SortedIndex, sameKey: int,
                   rows: seq<ItemInfo>, feature: int)
    requires 0 <= e.index < |rows| && 0 <= rows[e.index].node < tree.Length
    requires 0 <= tree[rows[e.index].node].grow < buf.Length
    modifies tree, buf
    ensures var nid := rows[e.index].node;
      && tree[..] == old(tree[..])[nid := StepNode(old(tree[nid]), e.same, sameKey, e.index, rows[e.index].residual, feature)]
      && buf[..] == old(buf[..])[old(tree[nid]).grow := e.index]
  {
    var ind := e.index;
    var nid := rows[ind].node;
    var nod := tree[nid];
    ghost var next := StepNode(nod, e.same, sameKey, ind, rows[ind].residual, feature);
    if !e.same || nod.sameKey != sameKey {
      nod := nod.(sameKey := sameKey);
      var ts := Mid(nod.tempSum, nod.grow - nod.begin, nod.sum - nod.tempSum, nod.end - nod.grow);
      if Greater(Finite(ts), nod.score) {
        nod := nod.(fidx := feature, score := Finite(ts), split := nod.grow, splitId := ind,
                    splitSum := nod.tempSum, splitSsum := nod.tempSsum);
      }
    }
    var r := rows[ind].residual;
    nod := nod.(tempSum := nod.tempSum + r, tempSsum := nod.tempSsum + r * r);
    buf[nod.grow] := ind;
    nod := nod.(grow := nod.grow + 1);
    assert nod == next;
    tree[nid] := nod;
  }

  /** The scan loop of `__worker_layer_processor` over one feature's sorted
      column. It returns the job's slot buffer (`dim_id_sorted`): every node
      below `allNodeCount` finds its sampled rows in its own slots in
      column order, each layer node holds the best cut of `Best`, and the
      other nodes only advance their cursors. */
  method ScanColumn(tree: array<TreeNode>, col: seq<SortedIndex>, rows: seq<ItemInfo>, smp: Sampling,
                    feature: int, allNodeCount: int, beg: int, end: int) returns (buf: array<int>)
    requires ScanReady(tree[..], col, rows, smp, allNodeCount, beg, end)
    requires forall n :: 0 <= n < allNodeCount ==> tree[n].grow == tree[n].begin && tree[n].sameKey == InvalidSameKey
    requires forall n :: beg <= n < end ==> ResetLayerNode(tree[n])
    modifies tree
    ensures fresh(buf) && buf.Length == |col|
    ensures ScanInv(old(tree[..]), tree[..], buf[..], col, rows, smp, feature, allNodeCount, beg, end, |col|)
  {
    ghost var t0 := tree[..];
    buf := new int[|col|];
    ScanStart(t0, buf[..], col, rows, smp, feature, allNodeCount, beg, end);
    var sameKey := InvalidSameKey;
    var i := 0;
    while i < |col|
      invariant 0 <= i <= |col|
      invariant sameKey == RunKey(col, i)
      invariant ScanInv(t0, tree[..], buf[..], col, rows, smp, feature, allNodeCount, beg, end, i)
    {
      sameKey, i := ScanAt(tree, buf, col, rows, smp, feature, allNodeCount, beg, end, i, sameKey, t0);
    }
  }

  /** One entry of the scan loop: the run key moves on at an unmarked
      entry, and a sampled row's node takes the entry. */
  method ScanAt(tree: array<TreeNode>, buf: array<int>, col: seq<SortedIndex>, rows: seq<ItemInfo>, smp: Sampling,
                feature: int, allNodeCount: int, beg: int, end: int, i: nat, sameKey: int, ghost t0: seq<TreeNode>)
    returns (key: int, next: nat)
    requires ScanReady(t0, col, rows, smp, allNodeCount, beg, end)
    requires forall n :: beg <= n < end ==> ResetLayerNode(t0[n])
    requires i < |col| && sameKey == RunKey(col, i)
    requires ScanInv(t0, tree[..], buf[..], col, rows, smp, feature, allNodeCount, beg, end, i)
    modifies tree, buf
    ensures next == i + 1 && key == RunKey(col, next)
    ensures ScanInv(t0, tree[..], buf[..], col, rows, smp, feature, allNodeCount, beg, end, next)
  {
    ghost var t, b := tree[..], buf[..];
    next := i + 1;
    var e := col[i];
    key := sameKey;
    if !e.same {
      key := i;
    }
    ScanStep(t0, t, b, col, rows, smp, feature, allNodeCount, beg, end, i, next, key);
    if Sampled(smp, e.index) {
      var nid := rows[e.index].node;
      assert tree[nid] == t[nid];
      ScanEntry(tree, buf, e, key, rows, feature);
      assert tree[..] == t[nid := StepNode(t[nid], e.same, key, e.index, rows[e.index].residual, feature)];
      assert buf[..] == b[t[nid].grow := e.index];
    }
  }

  // ---------------------------------------------------------------------
  // What a recorded cut means.

  /** Two entries of the column with different run keys have an entry
      starting a run between them. */
  lemma {:induction false} KeyChangeStartsRun(col: seq<SortedIndex>, p1: int, p2: int) returns (q: int)
    requires 0 <= p1 < p2 < |col|
    requires RunKey(col, p2 + 1) != RunKey(col, p1 + 1)
    ensures p1 < q <= p2 && !col[q].same
    decreases p2 - p1
  {
    if !col[p2].same {
      q := p2;
    } else {
      q := KeyChangeStartsRun(col, p1, p2 - 1);
    }
  }

  /** A scored entry of a node separates values: on a column built from
      sorted pairs, every entry the node saw before it has a strictly
      smaller value than every entry from it on. */
  lemma EvaluatedSeparates(col: seq<SortedIndex>, rows: seq<ItemInfo>, smp: Sampling, n: int,
                           ps: seq<FeatureInfo>, k: int)
    requires RowsIn(col, |rows|) && SortedByValue(ps) && MarkedFrom(col, ps)
    requires var s := SeenBy(col, rows, smp, n, |col|); 0 <= k < |s| && Evaluated(s, k)
    ensures var s := SeenBy(col, rows, smp, n, |col|);
      && (forall a :: 0 <= a < |s| ==> 0 <= s[a].pos < |ps|)
      && (forall a, c :: 0 <= a < k <= c < |s| ==> ps[s[a].pos].value < ps[s[c].pos].value)
  {
    var s := SeenBy(col, rows, smp, n, |col|);
    SeenFacts(col, rows, smp, n, |col|);
    if k > 0 {
      var q := KeyChangeStartsRun(col, s[k - 1].pos, s[k].pos);
      UnmarkedSeparates(ps, col, q);
      forall a, c | 0 <= a < k <= c < |s|
        ensures ps[s[a].pos].value < ps[s[c].pos].value
      {
        assert s[a].pos <= s[k - 1].pos < q;
        assert q <= s[k].pos <= s[c].pos;
      }
    }
  }

  /** A cut the scan records never splits equal values within its node:
      on a column built from sorted pairs, the node's slots hold its rows
      in column order, and every row placed before the cut has a strictly
      smaller value for the feature than every row at or after it. */
  lemma ScanCutSeparates(cur: TreeNode, nd: TreeNode, buf: seq<int>, col: seq<SortedIndex>, rows: seq<ItemInfo>,
                         smp: Sampling, n: int, feature: int, ps: seq<FeatureInfo>)
    requires RowsIn(col, |rows|) && SortedByValue(ps) && MarkedFrom(col, ps)
    requires NodeScanned(cur, nd, buf, col, rows, smp, n, |col|, true, feature)
    requires cur.fidx == feature != nd.fidx
    ensures var s := SeenBy(col, rows, smp, n, |col|);
      && nd.begin <= cur.split < cur.grow == nd.begin + |s|
      && (forall a :: 0 <= a < |s| ==> 0 <= s[a].pos < |ps|)
      && (forall a :: 0 <= a < |s| ==> buf[nd.begin + a] == ps[s[a].pos].index)
      && (forall a, c :: 0 <= a < cur.split - nd.begin <= c < |s| ==> ps[s[a].pos].value < ps[s[c].pos].value)
  {
    var s := SeenBy(col, rows, smp, n, |col|);
    var b := Best(nd, s);
    BestIsOptimal(nd, s);
    SeenFacts(col, rows, smp, n, |col|);
    EvaluatedSeparates(col, rows, smp, n, ps, b.k);
    forall a | 0 <= a < |s|
      ensures buf[nd.begin + a] == ps[s[a].pos].index
    {
      assert buf[nd.begin + a] == s[a].row == col[s[a].pos].index;
    }
  }
}
