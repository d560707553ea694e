/** Growing one tree of the gradient-boosted ensemble (`train` in
    src/models/gbdt.h): the root takes every sampled row, each layer runs
    the selected feature jobs against a snapshot of the tree, the rows move
    to the children of their node, and finally every node's mean is the
    average residual of its rows and the sampled rows' residuals are reduced
    by the shrunk mean of the leaf they end in. */
module GbdtTrain {
  import opened GbdtNode
  import opened GbdtScan
  import opened GbdtWorker
  import opened GbdtRows

  // ---------------------------------------------------------------------
  // Row tables that differ only in their pending turns.

  ghost predicate SameRows(a: seq<ItemInfo>, b: seq<ItemInfo>) {
    |a| == |b| && forall r :: 0 <= r < |a| ==> a[r].node == b[r].node && a[r].residual == b[r].residual
  }

  /** What a node sees of a column does not depend on the turns. */
  lemma {:induction false} SeenIgnoresTurns(col: seq<SortedIndex>, a: seq<ItemInfo>, b: seq<ItemInfo>,
                                            smp: Sampling, n: int, i: nat)
    requires SameRows(a, b) && RowsIn(col, |a|) && i <= |col|
    ensures SeenBy(col, a, smp, n, i) == SeenBy(col, b, smp, n, i)
  {
    if i > 0 {
      SeenIgnoresTurns(col, a, b, smp, n, i - 1);
    }
  }

  // ---------------------------------------------------------------------
  // The tree at the start of a layer.

  /** The nodes of layer `layer` are [beg, end), or the layer is empty
      because no node of the layer before was split. */
  predicate LayerRange(layer: nat, beg: int, end: int) {
    && 0 <= beg <= end <= Pow2(layer + 1) - 1
    && (beg < end ==> beg == Pow2(layer) - 1 && end == Pow2(layer + 1) - 1)
  }

  /** Node `n` holds at least one sampled row. */
  ghost predicate Owns(rows: seq<ItemInfo>, smp: Sampling, n: int) {
    |OwnRows(rows, smp, n, |rows|)| > 0
  }

  /** The node state `nd` counts and sums exactly the sampled rows of node
      `n`, and its range is as long as its row count. */
  ghost predicate Accounted(nd: TreeNode, rows: seq<ItemInfo>, smp: Sampling, n: int) {
    var o := OwnRows(rows, smp, n, |rows|);
    && InTable(rows, o)
    && nd.cnt == |o| && nd.end - nd.begin == |o|
    && nd.sum == SumOver(rows, o)
  }

  /** A node just initialised: no feature, cut at its beginning, nothing on
      the left of the cut. */
  predicate Fresh(nd: TreeNode) {
    nd.fidx == -1 && nd.split == nd.begin && nd.splitSum == 0.0
  }

  /** The state of tree `m` and rows `rows` when layer `layer` with nodes
      [beg, end) starts: no pending turns; every sampled row sits in a node
      below `end`, in the layer when it is not empty; node ranges lie in the
      row range; the layer's nodes and every node holding rows count and sum
      their rows; the layer's nodes are fresh; and the ranges of nodes
      holding rows do not overlap. */
  ghost predicate TreeInv(m: seq<TreeNode>, rows: seq<ItemInfo>, smp: Sampling, layer: nat, beg: int, end: int) {
    && LayerRange(layer, beg, end)
    && Pow2(layer + 2) <= |m|
    && (forall r :: 0 <= r < |rows| ==> rows[r].turn == 0)
    && (forall r :: 0 <= r < |rows| && Sampled(smp, r) ==>
          0 <= rows[r].node < end && (beg < end ==> beg <= rows[r].node))
    && (forall n :: 0 <= n < end ==> 0 <= m[n].begin <= m[n].end <= |rows|)
    && (forall n :: 0 <= n < end && (beg <= n || Owns(rows, smp, n)) ==> Accounted(m[n], rows, smp, n))
    && (forall n :: beg <= n < end ==> Fresh(m[n]))
    && (forall n1, n2 :: 0 <= n1 < end && 0 <= n2 < end && n1 != n2 && Owns(rows, smp, n1) && Owns(rows, smp, n2) ==>
          Apart(m[n1], m[n2]))
  }

  /** Every feature's pre-sorted column lists each of the `n` rows once. */
  ghost predicate ColumnsCover(cols: seq<seq<SortedIndex>>, n: int) {
    forall d :: 0 <= d < |cols| ==> Covers(cols[d], n)
  }

  lemma {:induction false} Pow2Step(k: nat)
    ensures Pow2(k + 1) == 2 * Pow2(k)
  {
  }

  /** At the start of a layer every feature job is ready to run on a copy of
      the tree, whatever turns earlier jobs of the layer left on the rows. */
  lemma {:induction false} ReadyFromInv(m: seq<TreeNode>, rows: seq<ItemInfo>, info: seq<ItemInfo>, smp: Sampling,
                     layer: nat, beg: int, end: int, col: seq<SortedIndex>)
    requires TreeInv(m, rows, smp, layer, beg, end)
    requires SameRows(info, rows) && Covers(col, |rows|) && |rows| < InvalidSameKey
    ensures JobReady(m, col, info, smp, end, beg, end)
  {
    Pow2Step(layer);
    Pow2Step(layer + 1);
    forall n | 0 <= n < end
      ensures SeenBy(col, info, smp, n, |col|) == SeenBy(col, rows, smp, n, |col|)
      ensures |SeenBy(col, rows, smp, n, |col|)| == |OwnRows(rows, smp, n, |rows|)|
    {
      SeenIgnoresTurns(col, info, rows, smp, n, |col|);
      SeenAreOwn(col, rows, smp, n);
    }
    assert forall n :: 0 <= n < end ==> NodeFits(m[n], col, info, smp, n);
  }

  // ---------------------------------------------------------------------
  // The feature jobs of one layer.

  /** The layer node `n` of the snapshot `snap` after the job of feature
      `feature` (column `col`) scanned it and finalised it. */
  ghost function Chosen(snap: seq<TreeNode>, col: seq<SortedIndex>, rows: seq<ItemInfo>, smp: Sampling,
                        feature: int, n: int): TreeNode
    requires RowsIn(col, |rows|) && 0 <= n < |snap|
  {
    Finalized(LayerScanned(ResetNode(snap[n], true), SeenBy(col, rows, smp, n, |col|), feature), feature)
  }

  /** The side row `r` takes below the committed node `nd` whose rows, in
      the column order of its feature, are `s`: 1 (left) before the cut, 2
      (right) from the cut on, 0 when the node never saw it. */
  ghost function Side(nd: TreeNode, s: seq<Seen>, r: int): int {
    var k := nd.split - nd.begin;
    if 0 <= k <= |s| && r in RowsOf(s[..k]) then 1
    else if r in RowsOf(s) then 2
    else 0
  }

  /** Slot `k` is neither a layer node nor the child of one. */
  predicate Untouched(k: int, beg: int, end: int) {
    !(beg <= k < end) && !(k >= 1 && beg <= Parent(k) < end)
  }

  /** After the jobs of the features below `d`, the layer node `n` of the
      master `m` carries the result of a selected feature's job, its
      children are initialised from it, and no selected feature's job beats
      it. */
  ghost predicate NodeChosen(m: seq<TreeNode>, snap: seq<TreeNode>, rows: seq<ItemInfo>, cols: seq<seq<SortedIndex>>,
                             sel: seq<bool>, smp: Sampling, n: int, d: int)
    requires ColumnsCover(cols, |rows|) && |sel| == |cols|
    requires 0 <= n && Right(n) < |m| == |snap|
  {
    var f := m[n].fidx;
    && 0 <= f < d && f < |cols| && sel[f]
    && m[n] == Chosen(snap, cols[f], rows, smp, f, n)
    && m[Left(n)] == LeftInit(snap[Left(n)], m[n])
    && m[Right(n)] == RightInit(snap[Right(n)], m[n])
    && forall e :: 0 <= e < d && e < |cols| && sel[e] ==> !Less(m[n], Chosen(snap, cols[e], rows, smp, e, n))
  }

  /** The pending turn of row `r` after the jobs so far: the side it takes
      below its layer node, as that node's chosen feature orders its rows. */
  ghost function TurnOf(m: seq<TreeNode>, rows: seq<ItemInfo>, cols: seq<seq<SortedIndex>>, smp: Sampling,
                        beg: int, end: int, r: int): int
    requires ColumnsCover(cols, |rows|) && 0 <= r < |rows|
  {
    var n := rows[r].node;
    if beg <= n < end && 0 <= n < |m| && 0 <= m[n].fidx < |cols| then
      var col := cols[m[n].fidx];
      Side(m[n], SeenBy(col, rows, smp, n, |col|), r)
    else 0
  }

  /** The job-loop invariant of a layer after the jobs of the features below
      `d`: `any` says whether one of them was selected. Without one, nothing
      changed; with one, every layer node is chosen, only the layer and its
      children changed, and the rows carry their sides. */
  ghost predicate LayerJobs(m: seq<TreeNode>, info: seq<ItemInfo>, snap: seq<TreeNode>, rows: seq<ItemInfo>,
                            cols: seq<seq<SortedIndex>>, sel: seq<bool>, smp: Sampling,
                            beg: int, end: int, any: bool, d: int)
    requires ColumnsCover(cols, |rows|) && |sel| == |cols|
    requires 0 <= beg <= end && (beg < end ==> Right(end - 1) < |snap|)
  {
    && |m| == |snap| && SameRows(info, rows)
    && (!any ==> m == snap && info == rows && forall e :: 0 <= e < d && e < |sel| ==> !sel[e])
    && (any ==> forall n :: beg <= n < end ==> NodeChosen(m, snap, rows, cols, sel, smp, n, d))
    && (any ==> forall k :: 0 <= k < |m| && Untouched(k, beg, end) ==> m[k] == snap[k])
    && (any ==> forall r :: 0 <= r < |info| ==> info[r].turn == TurnOf(m, rows, cols, smp, beg, end, r))
  }

  /** `Init` overwrites everything an earlier `Init` of the slot wrote. */
  lemma {:induction false} InitTwice(x: TreeNode, p: TreeNode, q: TreeNode)
    ensures LeftInit(LeftInit(x, p), q) == LeftInit(x, q)
    ensures RightInit(RightInit(x, p), q) == RightInit(x, q)
  {
  }

  lemma {:induction false} PrefixRowsAll(s: seq<Seen>, k: int)
    requires 0 <= k <= |s|
    ensures forall r :: r in RowsOf(s[..k]) ==> r in RowsOf(s)
  {
    forall r | r in RowsOf(s[..k])
      ensures r in RowsOf(s)
    {
      PrefixRows(s, k, r);
    }
  }

  /** The rows before a cut are among the node's rows. */
  lemma {:induction false} PrefixRows(s: seq<Seen>, k: int, r: int)
    requires 0 <= k <= |s| && r in RowsOf(s[..k])
    ensures r in RowsOf(s)
  {
    var t :| 0 <= t < k && RowsOf(s[..k])[t] == r;
    assert RowsOf(s)[t] == r;
  }

  /** Layer nodes and their children fit in the tree. */
  lemma {:induction false} LayerFits(m: seq<TreeNode>, rows: seq<ItemInfo>, smp: Sampling, layer: nat, beg: int, end: int)
    requires TreeInv(m, rows, smp, layer, beg, end)
    ensures beg < end ==> end == Left(beg) && Right(end - 1) < |m|
    ensures end < |m|
  {
    Pow2Step(layer);
    Pow2Step(layer + 1);
  }

  /** A job's view of the layer does not depend on the turns. */
  lemma {:induction false} ScannedIgnoresTurns(snap: seq<TreeNode>, col: seq<SortedIndex>, info: seq<ItemInfo>, rows: seq<ItemInfo>,
                            smp: Sampling, d: int, beg: int, end: int)
    requires SameRows(info, rows) && RowsIn(col, |rows|)
    ensures ScannedTree(snap, col, info, smp, d, beg, end) == ScannedTree(snap, col, rows, smp, d, beg, end)
    ensures forall n :: beg <= n < end && 0 <= n < |snap| ==>
      Finalized(ScannedTree(snap, col, rows, smp, d, beg, end)[n], d) == Chosen(snap, col, rows, smp, d, n)
  {
    forall n | beg <= n < end && 0 <= n < |snap|
      ensures SeenBy(col, info, smp, n, |col|) == SeenBy(col, rows, smp, n, |col|)
    {
      SeenIgnoresTurns(col, info, rows, smp, n, |col|);
    }
  }

  /** An unselected job changes nothing, and the invariant moves on to the
      next feature. */
  lemma {:induction false} JobSkipped(m: seq<TreeNode>, info: seq<ItemInfo>, snap: seq<TreeNode>, rows: seq<ItemInfo>,
                   cols: seq<seq<SortedIndex>>, sel: seq<bool>, smp: Sampling, beg: int, end: int, any: bool, d: int)
    requires ColumnsCover(cols, |rows|) && |sel| == |cols| && 0 <= d < |sel| && !sel[d]
    requires 0 <= beg <= end && (beg < end ==> Right(end - 1) < |snap|)
    requires LayerJobs(m, info, snap, rows, cols, sel, smp, beg, end, any, d)
    ensures LayerJobs(m, info, snap, rows, cols, sel, smp, beg, end, any, d + 1)
  {
    if any {
      var d1 := d + 1;
      forall n | beg <= n < end
        ensures NodeChosen(m, snap, rows, cols, sel, smp, n, d1)
      {
        assert NodeChosen(m, snap, rows, cols, sel, smp, n, d);
      }
    }
  }

  /** One layer node across a selected job `d` whose result for it is `c`:
      the master keeps the node unless `c` beats it, and then takes `c` and
      initialises the children from it. */
  lemma {:induction false} NodeStep(m: seq<TreeNode>, m': seq<TreeNode>, snap: seq<TreeNode>, rows: seq<ItemInfo>,
                 cols: seq<seq<SortedIndex>>, sel: seq<bool>, smp: Sampling, any: bool, d: int, next: int, n: int, c: TreeNode)
    requires ColumnsCover(cols, |rows|) && |sel| == |cols| && 0 <= d < |sel| && sel[d] && next == d + 1
    requires 0 <= n && Right(n) < |m| == |m'| == |snap|
    requires c == Chosen(snap, cols[d], rows, smp, d, n)
    requires any ==> NodeChosen(m, snap, rows, cols, sel, smp, n, d)
    requires !any ==> m[n] == snap[n] && m[Left(n)] == snap[Left(n)] && m[Right(n)] == snap[Right(n)]
    requires !any ==> Fresh(snap[n]) && forall e :: 0 <= e < d ==> !sel[e]
    requires m'[n] == if Less(m[n], c) then c else m[n]
    requires m'[Left(n)] == if Less(m[n], c) then LeftInit(m[Left(n)], c) else m[Left(n)]
    requires m'[Right(n)] == if Less(m[n], c) then RightInit(m[Right(n)], c) else m[Right(n)]
    ensures NodeChosen(m', snap, rows, cols, sel, smp, n, next)
  {
    LessIsStrictOrder(c, c, c);
    assert c.fidx == d;
    if any {
      InitTwice(snap[Left(n)], m[n], c);
      InitTwice(snap[Right(n)], m[n], c);
      forall e | 0 <= e < d && sel[e]
        ensures !Less(m'[n], Chosen(snap, cols[e], rows, smp, e, n))
      {
        LessIsStrictOrder(m[n], c, Chosen(snap, cols[e], rows, smp, e, n));
      }
    }
  }

  /** A row not seen by its node in one covering column is seen by it in no
      column, so it takes no side. */
  lemma {:induction false} UnseenTakesNoSide(nd: TreeNode, rows: seq<ItemInfo>, cols: seq<seq<SortedIndex>>, smp: Sampling,
                          d: int, f: int, r: int)
    requires ColumnsCover(cols, |rows|) && 0 <= d < |cols| && 0 <= f < |cols| && 0 <= r < |rows|
    requires r !in RowsOf(SeenBy(cols[d], rows, smp, rows[r].node, |cols[d]|))
    ensures Side(nd, SeenBy(cols[f], rows, smp, rows[r].node, |cols[f]|), r) == 0
  {
    var n := rows[r].node;
    var s := SeenBy(cols[f], rows, smp, n, |cols[f]|);
    SeenAreOwn(cols[d], rows, smp, n);
    SeenAreOwn(cols[f], rows, smp, n);
    var k := nd.split - nd.begin;
    if 0 <= k <= |s| && r in RowsOf(s[..k]) {
      PrefixRows(s, k, r);
    }
  }

  /** The turn of one row across a selected job `d`. */
  lemma {:induction false} RowStep(m: seq<TreeNode>, m': seq<TreeNode>, info: seq<ItemInfo>, info': seq<ItemInfo>, snap: seq<TreeNode>,
                rows: seq<ItemInfo>, cols: seq<seq<SortedIndex>>, sel: seq<bool>, smp: Sampling, tj: seq<TreeNode>,
                beg: int, end: int, any: bool, d: int, r: int)
    requires ColumnsCover(cols, |rows|) && |sel| == |cols| && 0 <= d < |cols|
    requires SameRows(info, rows) && |info'| == |info| && 0 <= r < |rows|
    requires |m| == |m'| == |tj| == |snap| && 0 <= beg <= end && (beg < end ==> Right(end - 1) < |snap|)
    requires forall n :: beg <= n < end ==> Finalized(tj[n], d) == Chosen(snap, cols[d], rows, smp, d, n)
    requires var n := rows[r].node;
      beg <= n < end ==> m'[n] == if Wins(m, tj, n, d) then Finalized(tj[n], d) else m[n]
    requires !any ==> m == snap && info == rows && rows[r].turn == 0
    requires !any ==> forall n :: beg <= n < end ==> snap[n].fidx == -1
    requires any ==> info[r].turn == TurnOf(m, rows, cols, smp, beg, end, r)
    requires any ==> forall n :: beg <= n < end ==> NodeChosen(m, snap, rows, cols, sel, smp, n, d)
    requires info'[r] == info[r].(turn := JobTurn(info[r], r, m, tj, cols[d], info, smp, d, beg, end))
    ensures info'[r].turn == TurnOf(m', rows, cols, smp, beg, end, r)
  {
    var n := rows[r].node;
    if beg <= n < end {
      SeenIgnoresTurns(cols[d], info, rows, smp, n, |cols[d]|);
      var s := SeenBy(cols[d], rows, smp, n, |cols[d]|);
      if Wins(m, tj, n, d) {
        assert m'[n].fidx == d && m'[n].split - m'[n].begin == tj[n].split - tj[n].begin;
        assert TurnOf(m', rows, cols, smp, beg, end, r) == Side(m'[n], s, r);
        if r !in RowsOf(s) {
          if any {
            assert NodeChosen(m, snap, rows, cols, sel, smp, n, d);
            var f := m[n].fidx;
            assert TurnOf(m, rows, cols, smp, beg, end, r) == Side(m[n], SeenBy(cols[f], rows, smp, n, |cols[f]|), r);
            UnseenTakesNoSide(m[n], rows, cols, smp, d, f, r);
          }
          assert info[r].turn == 0;
        }
        assert JobTurn(info[r], r, m, tj, cols[d], info, smp, d, beg, end) == Side(m'[n], s, r);
      }
    }
  }

  /** A selected job `d` keeps the job-loop invariant, now with a selected
      job behind it. */
  lemma {:induction false} JobStep(m: seq<TreeNode>, info: seq<ItemInfo>, m': seq<TreeNode>, info': seq<ItemInfo>,
                snap: seq<TreeNode>, rows: seq<ItemInfo>, cols: seq<seq<SortedIndex>>, sel: seq<bool>, smp: Sampling,
                layer: nat, beg: int, end: int, any: bool, d: int)
    requires TreeInv(snap, rows, smp, layer, beg, end)
    requires ColumnsCover(cols, |rows|) && |sel| == |cols| && 0 <= d < |cols| && sel[d]
    requires beg < end ==> Right(end - 1) < |snap|
    requires LayerJobs(m, info, snap, rows, cols, sel, smp, beg, end, any, d)
    requires JobCommitted(m, m', info, info', ScannedTree(snap, cols[d], info, smp, d, beg, end), cols[d], smp, d, beg, end)
    ensures LayerJobs(m', info', snap, rows, cols, sel, smp, beg, end, true, d + 1)
  {
    JobChoices(m, info, m', info', snap, rows, cols, sel, smp, layer, beg, end, any, d, d + 1);
    JobKeepsUntouched(m, info, m', info', snap, rows, cols, sel, smp, layer, beg, end, any, d);
    JobTurns(m, info, m', info', snap, rows, cols, sel, smp, layer, beg, end, any, d);
  }

  /** After job `d`, every layer node holds the best choice over the jobs
      up to it. */
  lemma {:induction false} JobChoices(m: seq<TreeNode>, info: seq<ItemInfo>, m': seq<TreeNode>, info': seq<ItemInfo>,
                snap: seq<TreeNode>, rows: seq<ItemInfo>, cols: seq<seq<SortedIndex>>, sel: seq<bool>, smp: Sampling,
                layer: nat, beg: int, end: int, any: bool, d: int, next: int)
    requires TreeInv(snap, rows, smp, layer, beg, end)
    requires ColumnsCover(cols, |rows|) && |sel| == |cols| && 0 <= d < |cols| && sel[d] && next == d + 1
    requires beg < end ==> Right(end - 1) < |snap|
    requires LayerJobs(m, info, snap, rows, cols, sel, smp, beg, end, any, d)
    requires JobCommitted(m, m', info, info', ScannedTree(snap, cols[d], info, smp, d, beg, end), cols[d], smp, d, beg, end)
    ensures forall n :: beg <= n < end ==> NodeChosen(m', snap, rows, cols, sel, smp, n, next)
  {
    LayerFits(snap, rows, smp, layer, beg, end);
    var tj := ScannedTree(snap, cols[d], info, smp, d, beg, end);
    ScannedIgnoresTurns(snap, cols[d], info, rows, smp, d, beg, end);
    forall n | beg <= n < end
      ensures NodeChosen(m', snap, rows, cols, sel, smp, n, next)
    {
      var c := Chosen(snap, cols[d], rows, smp, d, n);
      ChildrenOfNode(n);
      assert Left(n) >= end;
      assert Finalized(tj[n], d) == c;
      assert m'[n] == CommittedSlot(m, tj, d, beg, end, n);
      assert m'[Left(n)] == CommittedSlot(m, tj, d, beg, end, Left(n));
      assert m'[Right(n)] == CommittedSlot(m, tj, d, beg, end, Right(n));
      NodeStep(m, m', snap, rows, cols, sel, smp, any, d, next, n, c);
    }
  }

  /** Job `d` leaves every slot outside the layer and its children as in
      the snapshot. */
  lemma {:induction false} JobKeepsUntouched(m: seq<TreeNode>, info: seq<ItemInfo>, m': seq<TreeNode>, info': seq<ItemInfo>,
                snap: seq<TreeNode>, rows: seq<ItemInfo>, cols: seq<seq<SortedIndex>>, sel: seq<bool>, smp: Sampling,
                layer: nat, beg: int, end: int, any: bool, d: int)
    requires TreeInv(snap, rows, smp, layer, beg, end)
    requires ColumnsCover(cols, |rows|) && |sel| == |cols| && 0 <= d < |cols| && sel[d]
    requires beg < end ==> Right(end - 1) < |snap|
    requires LayerJobs(m, info, snap, rows, cols, sel, smp, beg, end, any, d)
    requires JobCommitted(m, m', info, info', ScannedTree(snap, cols[d], info, smp, d, beg, end), cols[d], smp, d, beg, end)
    ensures |m'| == |snap|
    ensures forall k :: 0 <= k < |m'| && Untouched(k, beg, end) ==> m'[k] == snap[k]
  {
    LayerFits(snap, rows, smp, layer, beg, end);
    var tj := ScannedTree(snap, cols[d], info, smp, d, beg, end);
    forall k | 0 <= k < |m'| && Untouched(k, beg, end)
      ensures m'[k] == snap[k]
    {
      assert m'[k] == CommittedSlot(m, tj, d, beg, end, k);
    }
  }

  /** After job `d`, every row's turn names the side of the cut of the best
      choice so far. */
  lemma {:induction false} JobTurns(m: seq<TreeNode>, info: seq<ItemInfo>, m': seq<TreeNode>, info': seq<ItemInfo>,
                snap: seq<TreeNode>, rows: seq<ItemInfo>, cols: seq<seq<SortedIndex>>, sel: seq<bool>, smp: Sampling,
                layer: nat, beg: int, end: int, any: bool, d: int)
    requires TreeInv(snap, rows, smp, layer, beg, end)
    requires ColumnsCover(cols, |rows|) && |sel| == |cols| && 0 <= d < |cols| && sel[d]
    requires beg < end ==> Right(end - 1) < |snap|
    requires LayerJobs(m, info, snap, rows, cols, sel, smp, beg, end, any, d)
    requires JobCommitted(m, m', info, info', ScannedTree(snap, cols[d], info, smp, d, beg, end), cols[d], smp, d, beg, end)
    ensures SameRows(info', rows)
    ensures forall r :: 0 <= r < |info'| ==> info'[r].turn == TurnOf(m', rows, cols, smp, beg, end, r)
  {
    LayerFits(snap, rows, smp, layer, beg, end);
    var tj := ScannedTree(snap, cols[d], info, smp, d, beg, end);
    ScannedIgnoresTurns(snap, cols[d], info, rows, smp, d, beg, end);
    forall r | 0 <= r < |info'|
      ensures info'[r].turn == TurnOf(m', rows, cols, smp, beg, end, r)
    {
      RowStep(m, m', info, info', snap, rows, cols, sel, smp, tj, beg, end, any, d, r);
    }
  }

  // ---------------------------------------------------------------------
  // Moving the rows down one layer.

  /** The row update after the jobs: turn 1 moves the row to the left
      child of its node, turn 2 to the right child, and the turn clears. */
  function Moved(x: ItemInfo): ItemInfo {
    if x.turn == 1 then x.(node := Left(x.node), turn := 0)
    else if x.turn == 2 then x.(node := Right(x.node), turn := 0)
    else x.(turn := 0)
  }

  /** A row that moves leaves a node of layer `l` for one of layer
      `l + 1`; a row that stays keeps its node. */
  lemma MovedToNextLayer(x: ItemInfo, l: nat)
    requires InLayer(x.node, l)
    ensures x.turn == 1 || x.turn == 2 ==> InLayer(Moved(x).node, l + 1)
    ensures x.turn != 1 && x.turn != 2 ==> Moved(x).node == x.node
    ensures Moved(x).turn == 0 && Moved(x).residual == x.residual
  {
    ChildrenInNextLayer(x.node, l);
  }

  /** The row update as written: `in_which_node` is a 14-bit field, so the
      new node id is kept modulo 2^14. */
  function MovedAsWritten(x: ItemInfo): ItemInfo {
    var m := Moved(x);
    m.(node := m.node % 16384)
  }

  /** A row of node 8192 (layer 13) that goes right belongs in node 16386
      of layer 14, but the 14-bit field keeps 2, a node of layer 1. */
  lemma NodeIdWrapsAtLayer14()
    ensures InLayer(8192, 13) && InLayer(Moved(ItemInfo(0.0, 8192, 2)).node, 14)
    ensures MovedAsWritten(ItemInfo(0.0, 8192, 2)).node == 2 && InLayer(2, 1)
  {
    assert Pow2(13) == 8192 && Pow2(14) == 16384 && Pow2(15) == 32768 by {
      assert Pow2(1) == 2 && Pow2(2) == 4 && Pow2(3) == 8 && Pow2(4) == 16 && Pow2(5) == 32;
      assert Pow2(6) == 64 && Pow2(7) == 128 && Pow2(8) == 256 && Pow2(9) == 512 && Pow2(10) == 1024;
      assert Pow2(11) == 2048 && Pow2(12) == 4096;
    }
  }

  /** What a fresh layer node looks like once a job of feature `f` has
      scanned and finalised it: the same range, filled by exactly its rows
      `s`, a cut `k` entries in, the sum of those `k` entries recorded at the
      cut, and the whole sum kept. */
  lemma {:induction false} ChosenFacts(snap: seq<TreeNode>, rows: seq<ItemInfo>, smp: Sampling, col: seq<SortedIndex>, f: int, p: int)
    requires Covers(col, |rows|) && 0 <= p < |snap|
    requires Fresh(snap[p]) && Accounted(snap[p], rows, smp, p)
    ensures var c := Chosen(snap, col, rows, smp, f, p);
      var s := SeenBy(col, rows, smp, p, |col|);
      var k := c.split - c.begin;
      && 0 <= k <= |s|
      && c.fidx == f
      && c.begin == snap[p].begin && c.end == snap[p].end && c.end == c.begin + |s|
      && c.splitSum == SumRes(s[..k])
      && c.sum == SumRes(s)
  {
    var s := SeenBy(col, rows, smp, p, |col|);
    var nr := ResetNode(snap[p], true);
    BestBound(nr, s);
    SeenAreOwn(col, rows, smp, p);
    assert s[..0] == [];
  }

  /** Where a row ends up after the jobs of a layer in which some job was
      selected: a sampled row of layer node `p` goes to the left child when
      it is among the node's first `split - begin` rows in its chosen
      feature's order, otherwise to the right child. */
  lemma {:induction false} RowMoves(m: seq<TreeNode>, info: seq<ItemInfo>, snap: seq<TreeNode>, rows: seq<ItemInfo>,
                 cols: seq<seq<SortedIndex>>, sel: seq<bool>, smp: Sampling, layer: nat, beg: int, end: int,
                 x: ItemInfo, r: int)
    requires TreeInv(snap, rows, smp, layer, beg, end) && beg < end
    requires ColumnsCover(cols, |rows|) && |sel| == |cols| && Right(end - 1) < |snap|
    requires LayerJobs(m, info, snap, rows, cols, sel, smp, beg, end, true, |cols|)
    requires 0 <= r < |rows| && Sampled(smp, r) && x == Moved(info[r])
    ensures var p := rows[r].node;
      && beg <= p < end
      && 0 <= m[p].fidx < |cols|
      && var s := SeenBy(cols[m[p].fidx], rows, smp, p, |cols[m[p].fidx]|);
         var k := m[p].split - m[p].begin;
         && 0 <= k <= |s|
         && r in RowsOf(s)
         && x.node == (if r in RowsOf(s[..k]) then Left(p) else Right(p))
         && x.residual == rows[r].residual && x.turn == 0
  {
    var p := rows[r].node;
    assert NodeChosen(m, snap, rows, cols, sel, smp, p, |cols|);
    var f := m[p].fidx;
    ChosenFacts(snap, rows, smp, cols[f], f, p);
    SeenAreOwn(cols[f], rows, smp, p);
    assert info[r].turn == TurnOf(m, rows, cols, smp, beg, end, r);
  }

  /** Cutting a node's rows `k` entries in: both parts list rows once, and
      the rows from the cut on are the node's rows not before the cut. */
  lemma {:induction false} CutRows(s: seq<Seen>, rows: seq<ItemInfo>, k: int)
    requires 0 <= k <= |s| && Distinct(RowsOf(s)) && ResOfRows(s, rows)
    ensures Distinct(RowsOf(s[..k])) && Distinct(RowsOf(s[k..]))
    ensures ResOfRows(s[..k], rows) && ResOfRows(s[k..], rows)
    ensures forall r :: r in RowsOf(s[k..]) <==> r in RowsOf(s) && r !in RowsOf(s[..k])
  {
    var rs := RowsOf(s);
    assert RowsOf(s[..k]) == rs[..k];
    assert RowsOf(s[k..]) == rs[k..];
    forall r
      ensures r in rs[k..] <==> r in rs && r !in rs[..k]
    {
      if r in rs[k..] {
        var i :| k <= i < |rs| && rs[i] == r;
        assert rs[i - k + k] == r;
      }
      if r in rs && r !in rs[..k] {
        var i :| 0 <= i < |rs| && rs[i] == r;
        assert rs[k..][i - k] == r;
      }
    }
  }

  /** After the move, the sampled rows of the left child of layer node `p`
      are the node's rows before its cut, and those of the right child the
      rows from the cut on. */
  lemma {:induction false} ChildRows(m: seq<TreeNode>, info: seq<ItemInfo>, snap: seq<TreeNode>, rows: seq<ItemInfo>, rows': seq<ItemInfo>,
                  cols: seq<seq<SortedIndex>>, sel: seq<bool>, smp: Sampling, layer: nat, beg: int, end: int, p: int)
    requires TreeInv(snap, rows, smp, layer, beg, end) && beg <= p < end
    requires ColumnsCover(cols, |rows|) && |sel| == |cols| && Right(end - 1) < |snap|
    requires LayerJobs(m, info, snap, rows, cols, sel, smp, beg, end, true, |cols|)
    requires |rows'| == |rows| && forall r :: 0 <= r < |rows| ==> rows'[r] == Moved(info[r])
    ensures 0 <= m[p].fidx < |cols|
    ensures var s := SeenBy(cols[m[p].fidx], rows, smp, p, |cols[m[p].fidx]|);
      var k := m[p].split - m[p].begin;
      && 0 <= k <= |s|
      && (forall r :: r in OwnRows(rows', smp, Left(p), |rows'|) <==> r in RowsOf(s[..k]))
      && (forall r :: r in OwnRows(rows', smp, Right(p), |rows'|) <==> r in RowsOf(s[k..]))
  {
    ChosenCut(m, info, snap, rows, cols, sel, smp, layer, beg, end, p);
    var f := m[p].fidx;
    var s := SeenBy(cols[f], rows, smp, p, |cols[f]|);
    var k := m[p].split - m[p].begin;
    EveryChildRow(m, info, snap, rows, rows', cols, sel, smp, layer, beg, end, p, s, k);
    ChildrenByRows(rows', smp, p, s, k);
  }

  /** The choice of a layer node `p` after all jobs names a feature and
      cuts that feature's entries of `p` inside their range. */
  lemma {:induction false} ChosenCut(m: seq<TreeNode>, info: seq<ItemInfo>, snap: seq<TreeNode>, rows: seq<ItemInfo>,
                  cols: seq<seq<SortedIndex>>, sel: seq<bool>, smp: Sampling, layer: nat, beg: int, end: int, p: int)
    requires TreeInv(snap, rows, smp, layer, beg, end) && beg <= p < end
    requires ColumnsCover(cols, |rows|) && |sel| == |cols| && Right(end - 1) < |snap|
    requires LayerJobs(m, info, snap, rows, cols, sel, smp, beg, end, true, |cols|)
    ensures 0 <= m[p].fidx < |cols|
    ensures 0 <= m[p].split - m[p].begin <= |SeenBy(cols[m[p].fidx], rows, smp, p, |cols[m[p].fidx]|)|
  {
    assert NodeChosen(m, snap, rows, cols, sel, smp, p, |cols|);
    ChosenFacts(snap, rows, smp, cols[m[p].fidx], m[p].fidx, p);
  }

  /** The sampled rows of the children of `p`, read off from where each
      sampled row went. */
  lemma ChildrenByRows(rows': seq<ItemInfo>, smp: Sampling, p: int, s: seq<Seen>, k: int)
    requires 0 <= k <= |s|
    requires forall y :: y in RowsOf(s[..k]) || y in RowsOf(s[k..]) ==> 0 <= y < |rows'| && Sampled(smp, y)
    requires forall r :: 0 <= r < |rows'| && Sampled(smp, r) ==>
      (rows'[r].node == Left(p) <==> r in RowsOf(s[..k])) &&
      (rows'[r].node == Right(p) <==> r in RowsOf(s[k..]))
    ensures forall r :: r in OwnRows(rows', smp, Left(p), |rows'|) <==> r in RowsOf(s[..k])
    ensures forall r :: r in OwnRows(rows', smp, Right(p), |rows'|) <==> r in RowsOf(s[k..])
  {
    OwnRowsMembers(rows', smp, Left(p), |rows'|);
    OwnRowsMembers(rows', smp, Right(p), |rows'|);
  }

  /** `ChildRow` for every sampled row, where node `p` saw the rows `s`
      and cut them `k` entries in. */
  lemma {:induction false} EveryChildRow(m: seq<TreeNode>, info: seq<ItemInfo>, snap: seq<TreeNode>, rows: seq<ItemInfo>, rows': seq<ItemInfo>,
                  cols: seq<seq<SortedIndex>>, sel: seq<bool>, smp: Sampling, layer: nat, beg: int, end: int, p: int,
                  s: seq<Seen>, k: int)
    requires TreeInv(snap, rows, smp, layer, beg, end) && beg <= p < end
    requires ColumnsCover(cols, |rows|) && |sel| == |cols| && Right(end - 1) < |snap|
    requires LayerJobs(m, info, snap, rows, cols, sel, smp, beg, end, true, |cols|)
    requires |rows'| == |rows| && forall r :: 0 <= r < |rows| ==> rows'[r] == Moved(info[r])
    requires 0 <= m[p].fidx < |cols| && s == SeenBy(cols[m[p].fidx], rows, smp, p, |cols[m[p].fidx]|)
    requires k == m[p].split - m[p].begin && 0 <= k <= |s|
    ensures forall y :: y in RowsOf(s[..k]) || y in RowsOf(s[k..]) ==> 0 <= y < |rows| && Sampled(smp, y)
    ensures forall r :: 0 <= r < |rows| && Sampled(smp, r) ==>
      (rows'[r].node == Left(p) <==> r in RowsOf(s[..k])) &&
      (rows'[r].node == Right(p) <==> r in RowsOf(s[k..]))
  {
    var f := m[p].fidx;
    SeenAreOwn(cols[f], rows, smp, p);
    CutRows(s, rows, k);
    PrefixRowsAll(s, k);
    forall r | 0 <= r < |rows| && Sampled(smp, r)
      ensures rows'[r].node == Left(p) <==> r in RowsOf(s[..k])
      ensures rows'[r].node == Right(p) <==> r in RowsOf(s[k..])
    {
      ChildRow(m, info, snap, rows, cols, sel, smp, layer, beg, end, p, s, k, rows'[r], r);
    }
  }

  /** `ChildRows` for one sampled row `r` whose moved info is `x`, where
      node `p` saw the rows `s` (exactly its own) and cut them `k` in. */
  lemma {:induction false} ChildRow(m: seq<TreeNode>, info: seq<ItemInfo>, snap: seq<TreeNode>, rows: seq<ItemInfo>,
                 cols: seq<seq<SortedIndex>>, sel: seq<bool>, smp: Sampling, layer: nat, beg: int, end: int, p: int,
                 s: seq<Seen>, k: int, x: ItemInfo, r: int)
    requires TreeInv(snap, rows, smp, layer, beg, end) && beg <= p < end
    requires ColumnsCover(cols, |rows|) && |sel| == |cols| && Right(end - 1) < |snap|
    requires LayerJobs(m, info, snap, rows, cols, sel, smp, beg, end, true, |cols|)
    requires 0 <= m[p].fidx < |cols| && s == SeenBy(cols[m[p].fidx], rows, smp, p, |cols[m[p].fidx]|)
    requires k == m[p].split - m[p].begin && 0 <= k <= |s|
    requires forall y :: y in RowsOf(s) <==> 0 <= y < |rows| && Sampled(smp, y) && rows[y].node == p
    requires forall y :: y in RowsOf(s[..k]) ==> y in RowsOf(s)
    requires forall y :: y in RowsOf(s[k..]) <==> y in RowsOf(s) && y !in RowsOf(s[..k])
    requires 0 <= r < |rows| && Sampled(smp, r) && x == Moved(info[r])
    ensures x.node == Left(p) <==> r in RowsOf(s[..k])
    ensures x.node == Right(p) <==> r in RowsOf(s[k..])
  {
    var q := rows[r].node;
    RowMoves(m, info, snap, rows, cols, sel, smp, layer, beg, end, x, r);
    if q == p {
      assert Left(p) != Right(p);
    } else {
      // The row belongs to another layer node, whose children differ from
      // those of `p`, and `p` never saw it.
      assert x.node == Left(q) || x.node == Right(q);
      assert r !in RowsOf(s);
    }
  }

  // ---------------------------------------------------------------------
  // Moving the rows down one layer.

  /** Two row tables with the same residuals sum any rows alike. */
  lemma {:induction false} SumOverSameResiduals(a: seq<ItemInfo>, b: seq<ItemInfo>, rs: seq<int>)
    requires |a| == |b| && (forall r :: 0 <= r < |a| ==> a[r].residual == b[r].residual)
    requires InTable(a, rs)
    ensures SumOver(a, rs) == SumOver(b, rs)
    decreases |rs|
  {
    if rs != [] {
      SumOverSameResiduals(a, b, rs[..|rs| - 1]);
    }
  }

  /** Moving rows keeps their residuals. */
  lemma {:induction false} MovedResiduals(info: seq<ItemInfo>, rows: seq<ItemInfo>, rows': seq<ItemInfo>)
    requires SameRows(info, rows)
    requires |rows'| == |rows| && forall r :: 0 <= r < |rows| ==> rows'[r] == Moved(info[r])
    ensures forall r :: 0 <= r < |rows| ==> rows'[r].residual == rows[r].residual
  {
  }

  /** A node whose sampled rows are exactly the rows of the entries `t`
      has as many rows as `t` has entries, and the same residual sum. */
  lemma {:induction false} ChildAccounts(rows: seq<ItemInfo>, rows': seq<ItemInfo>, smp: Sampling, n: int, t: seq<Seen>)
    requires |rows'| == |rows| && (forall r :: 0 <= r < |rows| ==> rows'[r].residual == rows[r].residual)
    requires Distinct(RowsOf(t)) && ResOfRows(t, rows)
    requires forall r :: r in OwnRows(rows', smp, n, |rows'|) <==> r in RowsOf(t)
    ensures var o := OwnRows(rows', smp, n, |rows'|);
      InTable(rows', o) && |o| == |t| && SumOver(rows', o) == SumRes(t)
  {
    var o := OwnRows(rows', smp, n, |rows'|);
    OwnRowsMembers(rows', smp, n, |rows'|);
    SumResIsSumOver(t, rows);
    SumOverPermutation(rows', o, RowsOf(t));
    SumOverSameResiduals(rows', rows, RowsOf(t));
  }

  /** The children initialised from a committed node `c` whose rows `s`
      are cut `k` entries in count and sum the rows before and from the
      cut, when those are the rows that moved into them. */
  lemma {:induction false} KidsAccounted(c: TreeNode, x: TreeNode, y: TreeNode, s: seq<Seen>, k: int,
                      rows: seq<ItemInfo>, rows': seq<ItemInfo>, smp: Sampling, p: int)
    requires 0 <= k <= |s| && c.split - c.begin == k && c.end == c.begin + |s|
    requires c.splitSum == SumRes(s[..k]) && c.sum == SumRes(s)
    requires |rows'| == |rows| && (forall r :: 0 <= r < |rows| ==> rows'[r].residual == rows[r].residual)
    requires Distinct(RowsOf(s[..k])) && ResOfRows(s[..k], rows)
    requires Distinct(RowsOf(s[k..])) && ResOfRows(s[k..], rows)
    requires forall r :: r in OwnRows(rows', smp, Left(p), |rows'|) <==> r in RowsOf(s[..k])
    requires forall r :: r in OwnRows(rows', smp, Right(p), |rows'|) <==> r in RowsOf(s[k..])
    ensures Accounted(LeftInit(x, c), rows', smp, Left(p)) && Accounted(RightInit(y, c), rows', smp, Right(p))
  {
    ChildAccounts(rows, rows', smp, Left(p), s[..k]);
    ChildAccounts(rows, rows', smp, Right(p), s[k..]);
    SumResSplit(s, k);
  }

  /** The children of a layer node split its range at the cut and start
      fresh. */
  lemma {:induction false} ChildShape(m: seq<TreeNode>, info: seq<ItemInfo>, snap: seq<TreeNode>, rows: seq<ItemInfo>,
                   cols: seq<seq<SortedIndex>>, sel: seq<bool>, smp: Sampling, layer: nat, beg: int, end: int, p: int)
    requires TreeInv(snap, rows, smp, layer, beg, end) && beg <= p < end
    requires ColumnsCover(cols, |rows|) && |sel| == |cols| && Right(end - 1) < |snap|
    requires LayerJobs(m, info, snap, rows, cols, sel, smp, beg, end, true, |cols|)
    ensures m[p].begin == snap[p].begin && m[p].end == snap[p].end && 0 <= m[p].fidx
    ensures m[Left(p)].begin == m[p].begin && m[Left(p)].end == m[Right(p)].begin && m[Right(p)].end == m[p].end
    ensures m[Left(p)].begin <= m[Left(p)].end <= m[Right(p)].end
    ensures Fresh(m[Left(p)]) && Fresh(m[Right(p)])
  {
    assert NodeChosen(m, snap, rows, cols, sel, smp, p, |cols|);
    var f := m[p].fidx;
    assert Fresh(snap[p]) && Accounted(snap[p], rows, smp, p);
    ChosenFacts(snap, rows, smp, cols[f], f, p);
  }

  /** The children of a layer node count and sum the rows that moved into
      them. */
  lemma {:induction false} ChildAccounted(m: seq<TreeNode>, info: seq<ItemInfo>, snap: seq<TreeNode>, rows: seq<ItemInfo>,
                   rows': seq<ItemInfo>, cols: seq<seq<SortedIndex>>, sel: seq<bool>, smp: Sampling,
                   layer: nat, beg: int, end: int, p: int)
    requires TreeInv(snap, rows, smp, layer, beg, end) && beg <= p < end
    requires ColumnsCover(cols, |rows|) && |sel| == |cols| && Right(end - 1) < |snap|
    requires LayerJobs(m, info, snap, rows, cols, sel, smp, beg, end, true, |cols|)
    requires |rows'| == |rows| && forall r :: 0 <= r < |rows| ==> rows'[r] == Moved(info[r])
    ensures Accounted(m[Left(p)], rows', smp, Left(p)) && Accounted(m[Right(p)], rows', smp, Right(p))
  {
    assert NodeChosen(m, snap, rows, cols, sel, smp, p, |cols|);
    var f := m[p].fidx;
    assert Fresh(snap[p]) && Accounted(snap[p], rows, smp, p);
    ChildRows(m, info, snap, rows, rows', cols, sel, smp, layer, beg, end, p);
    MovedResiduals(info, rows, rows');
    ChosenKidsAccounted(snap, rows, rows', smp, cols[f], f, p, m[p]);
  }

  /** The children initialised from the choice `c` of a fresh, accounted
      node `p` are accounted for, once the moved rows split as `c` says. */
  lemma {:induction false} ChosenKidsAccounted(snap: seq<TreeNode>, rows: seq<ItemInfo>, rows': seq<ItemInfo>, smp: Sampling,
                               col: seq<SortedIndex>, f: int, p: int, c: TreeNode)
    requires Covers(col, |rows|) && 0 <= p && Right(p) < |snap|
    requires Fresh(snap[p]) && Accounted(snap[p], rows, smp, p)
    requires c == Chosen(snap, col, rows, smp, f, p)
    requires |rows'| == |rows| && (forall r :: 0 <= r < |rows| ==> rows'[r].residual == rows[r].residual)
    requires var s := SeenBy(col, rows, smp, p, |col|);
      var k := c.split - c.begin;
      && 0 <= k <= |s|
      && (forall r :: r in OwnRows(rows', smp, Left(p), |rows'|) <==> r in RowsOf(s[..k]))
      && (forall r :: r in OwnRows(rows', smp, Right(p), |rows'|) <==> r in RowsOf(s[k..]))
    ensures Accounted(LeftInit(snap[Left(p)], c), rows', smp, Left(p))
    ensures Accounted(RightInit(snap[Right(p)], c), rows', smp, Right(p))
  {
    var s := SeenBy(col, rows, smp, p, |col|);
    var k := c.split - c.begin;
    ChosenFacts(snap, rows, smp, col, f, p);
    SeenAreOwn(col, rows, smp, p);
    CutRows(s, rows, k);
    KidsAccounted(c, snap[Left(p)], snap[Right(p)], s, k, rows, rows', smp, p);
  }

  /** After the move every node holding a sampled row is a child of a layer
      node that held it before. */
  lemma {:induction false} MovedOwners(m: seq<TreeNode>, info: seq<ItemInfo>, snap: seq<TreeNode>, rows: seq<ItemInfo>,
                    rows': seq<ItemInfo>, cols: seq<seq<SortedIndex>>, sel: seq<bool>, smp: Sampling,
                    layer: nat, beg: int, end: int)
    requires TreeInv(snap, rows, smp, layer, beg, end) && beg < end
    requires ColumnsCover(cols, |rows|) && |sel| == |cols| && Right(end - 1) < |snap|
    requires LayerJobs(m, info, snap, rows, cols, sel, smp, beg, end, true, |cols|)
    requires |rows'| == |rows| && forall r :: 0 <= r < |rows| ==> rows'[r] == Moved(info[r])
    ensures forall r :: 0 <= r < |rows'| && Sampled(smp, r) ==> end <= rows'[r].node < 2 * end + 1
    ensures forall n :: Owns(rows', smp, n) ==>
      && end <= n < 2 * end + 1
      && beg <= Parent(n) < end && Owns(rows, smp, Parent(n))
      && (n == Left(Parent(n)) || n == Right(Parent(n)))
  {
    Pow2Step(layer);
    forall r | 0 <= r < |rows'| && Sampled(smp, r)
      ensures end <= rows'[r].node < 2 * end + 1
      ensures rows'[r].node >= 1 && Parent(rows'[r].node) == rows[r].node
    {
      RowMoves(m, info, snap, rows, cols, sel, smp, layer, beg, end, rows'[r], r);
      ChildrenOfNode(rows[r].node);
    }
    forall n | Owns(rows', smp, n)
      ensures end <= n < 2 * end + 1
      ensures beg <= Parent(n) < end && Owns(rows, smp, Parent(n))
      ensures n == Left(Parent(n)) || n == Right(Parent(n))
    {
      OwnRowsMembers(rows', smp, n, |rows'|);
      var r := OwnRows(rows', smp, n, |rows'|)[0];
      assert r in OwnRows(rows', smp, n, |rows'|);
      var q := rows[r].node;
      OwnRowsMembers(rows, smp, q, |rows|);
      assert r in OwnRows(rows, smp, q, |rows|);
      ParentIsInverse(n);
    }
  }

  /** The layer after a layer in which some job was selected: the children
      of the layer, [end, 2 * end + 1), hold every sampled row, start fresh,
      and count and sum their rows; the ranges of the nodes holding rows
      still do not overlap. */
  lemma {:induction false} LayerAdvance(m: seq<TreeNode>, info: seq<ItemInfo>, snap: seq<TreeNode>, rows: seq<ItemInfo>,
                     rows': seq<ItemInfo>, cols: seq<seq<SortedIndex>>, sel: seq<bool>, smp: Sampling,
                     layer: nat, beg: int, end: int)
    requires TreeInv(snap, rows, smp, layer, beg, end) && beg < end
    requires ColumnsCover(cols, |rows|) && |sel| == |cols| && Right(end - 1) < |snap| && Pow2(layer + 3) <= |snap|
    requires LayerJobs(m, info, snap, rows, cols, sel, smp, beg, end, true, |cols|)
    requires |rows'| == |rows| && forall r :: 0 <= r < |rows| ==> rows'[r] == Moved(info[r])
    ensures TreeInv(m, rows', smp, layer + 1, end, 2 * end + 1)
  {
    Pow2Step(layer);
    Pow2Step(layer + 1);
    assert end == Left(beg);
    MovedOwners(m, info, snap, rows, rows', cols, sel, smp, layer, beg, end);
    NewLayerFresh(m, info, snap, rows, rows', cols, sel, smp, layer, beg, end);
    OldLayersShaped(m, info, snap, rows, rows', cols, sel, smp, layer, beg, end);
    NewLayerApart(m, info, snap, rows, rows', cols, sel, smp, layer, beg, end);
  }

  /** The nodes of the next layer start fresh and account for their rows. */
  lemma {:induction false} NewLayerFresh(m: seq<TreeNode>, info: seq<ItemInfo>, snap: seq<TreeNode>, rows: seq<ItemInfo>,
                     rows': seq<ItemInfo>, cols: seq<seq<SortedIndex>>, sel: seq<bool>, smp: Sampling,
                     layer: nat, beg: int, end: int)
    requires TreeInv(snap, rows, smp, layer, beg, end) && beg < end
    requires ColumnsCover(cols, |rows|) && |sel| == |cols| && Right(end - 1) < |snap| && Pow2(layer + 3) <= |snap|
    requires LayerJobs(m, info, snap, rows, cols, sel, smp, beg, end, true, |cols|)
    requires |rows'| == |rows| && forall r :: 0 <= r < |rows| ==> rows'[r] == Moved(info[r])
    ensures forall n :: end <= n < 2 * end + 1 ==>
      && Fresh(m[n]) && 0 <= m[n].begin <= m[n].end <= |rows'|
      && Accounted(m[n], rows', smp, n)
  {
    forall n | end <= n < 2 * end + 1
      ensures Fresh(m[n]) && 0 <= m[n].begin <= m[n].end <= |rows'|
      ensures Accounted(m[n], rows', smp, n)
    {
      ParentIsInverse(n);
      var q := Parent(n);
      assert end == Left(beg);
      ChildShape(m, info, snap, rows, cols, sel, smp, layer, beg, end, q);
      ChildAccounted(m, info, snap, rows, rows', cols, sel, smp, layer, beg, end, q);
    }
  }

  /** The nodes above the next layer keep ranges within the rows. */
  lemma {:induction false} OldLayersShaped(m: seq<TreeNode>, info: seq<ItemInfo>, snap: seq<TreeNode>, rows: seq<ItemInfo>,
                     rows': seq<ItemInfo>, cols: seq<seq<SortedIndex>>, sel: seq<bool>, smp: Sampling,
                     layer: nat, beg: int, end: int)
    requires TreeInv(snap, rows, smp, layer, beg, end) && beg < end
    requires ColumnsCover(cols, |rows|) && |sel| == |cols| && Right(end - 1) < |snap| && Pow2(layer + 3) <= |snap|
    requires LayerJobs(m, info, snap, rows, cols, sel, smp, beg, end, true, |cols|)
    requires |rows'| == |rows| && forall r :: 0 <= r < |rows| ==> rows'[r] == Moved(info[r])
    ensures forall n :: 0 <= n < end ==> 0 <= m[n].begin <= m[n].end <= |rows'|
  {
    forall n | 0 <= n < end
      ensures 0 <= m[n].begin <= m[n].end <= |rows'|
    {
      if n < beg {
        assert Untouched(n, beg, end);
      } else {
        ChildShape(m, info, snap, rows, cols, sel, smp, layer, beg, end, n);
      }
    }
  }

  /** Nodes up to the next layer that hold rows have ranges apart. */
  lemma {:induction false} NewLayerApart(m: seq<TreeNode>, info: seq<ItemInfo>, snap: seq<TreeNode>, rows: seq<ItemInfo>,
                     rows': seq<ItemInfo>, cols: seq<seq<SortedIndex>>, sel: seq<bool>, smp: Sampling,
                     layer: nat, beg: int, end: int)
    requires TreeInv(snap, rows, smp, layer, beg, end) && beg < end
    requires ColumnsCover(cols, |rows|) && |sel| == |cols| && Right(end - 1) < |snap| && Pow2(layer + 3) <= |snap|
    requires LayerJobs(m, info, snap, rows, cols, sel, smp, beg, end, true, |cols|)
    requires |rows'| == |rows| && forall r :: 0 <= r < |rows| ==> rows'[r] == Moved(info[r])
    ensures forall n1, n2 ::
      0 <= n1 < 2 * end + 1 && 0 <= n2 < 2 * end + 1 && n1 != n2 && Owns(rows', smp, n1) && Owns(rows', smp, n2)
      ==> Apart(m[n1], m[n2])
  {
    assert end == Left(beg);
    MovedOwners(m, info, snap, rows, rows', cols, sel, smp, layer, beg, end);
    forall n1, n2 | 0 <= n1 < 2 * end + 1 && 0 <= n2 < 2 * end + 1 && n1 != n2 && Owns(rows', smp, n1) && Owns(rows', smp, n2)
      ensures Apart(m[n1], m[n2])
    {
      KidsApart(m, info, snap, rows, cols, sel, smp, layer, beg, end, n1, n2);
    }
  }

  /** Distinct children of layer nodes holding rows have ranges that do not
      overlap: siblings meet at the cut, and the children of different
      nodes lie within their parents' ranges. */
  lemma {:induction false} KidsApart(m: seq<TreeNode>, info: seq<ItemInfo>, snap: seq<TreeNode>, rows: seq<ItemInfo>,
                  cols: seq<seq<SortedIndex>>, sel: seq<bool>, smp: Sampling, layer: nat, beg: int, end: int,
                  n1: int, n2: int)
    requires TreeInv(snap, rows, smp, layer, beg, end)
    requires ColumnsCover(cols, |rows|) && |sel| == |cols| && Right(end - 1) < |snap|
    requires LayerJobs(m, info, snap, rows, cols, sel, smp, beg, end, true, |cols|)
    requires n1 != n2 && n1 >= 1 && n2 >= 1
    requires beg <= Parent(n1) < end && (n1 == Left(Parent(n1)) || n1 == Right(Parent(n1)))
    requires beg <= Parent(n2) < end && (n2 == Left(Parent(n2)) || n2 == Right(Parent(n2)))
    requires Owns(rows, smp, Parent(n1)) && Owns(rows, smp, Parent(n2))
    ensures Apart(m[n1], m[n2])
  {
    var q1 := Parent(n1);
    var q2 := Parent(n2);
    ChildShape(m, info, snap, rows, cols, sel, smp, layer, beg, end, q1);
    ChildShape(m, info, snap, rows, cols, sel, smp, layer, beg, end, q2);
    if q1 != q2 {
      assert Apart(snap[q1], snap[q2]);
    }
  }

  /** The layer after a layer in which no job was selected, or which had
      no nodes: nothing moved, and the next layer is empty. */
  lemma {:induction false} LayerStays(m: seq<TreeNode>, info: seq<ItemInfo>, snap: seq<TreeNode>, rows: seq<ItemInfo>,
                   rows': seq<ItemInfo>, cols: seq<seq<SortedIndex>>, sel: seq<bool>, smp: Sampling,
                   layer: nat, beg: int, end: int, any: bool)
    requires TreeInv(snap, rows, smp, layer, beg, end) && (!any || beg == end)
    requires ColumnsCover(cols, |rows|) && |sel| == |cols| && Pow2(layer + 3) <= |snap|
    requires beg < end ==> Right(end - 1) < |snap|
    requires LayerJobs(m, info, snap, rows, cols, sel, smp, beg, end, any, |cols|)
    requires |rows'| == |rows| && forall r :: 0 <= r < |rows| ==> rows'[r] == Moved(info[r])
    ensures m == snap && rows' == rows
    ensures TreeInv(m, rows', smp, layer + 1, end, end)
  {
    Pow2Step(layer + 1);
    if any {
      assert forall k :: 0 <= k < |m| ==> Untouched(k, beg, end);
      assert m == snap;
    }
    forall r | 0 <= r < |rows|
      ensures rows'[r] == rows[r]
    {
      assert info[r].turn == 0;
    }
  }
}
