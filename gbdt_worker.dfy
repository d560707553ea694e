/** The commit half of `__worker_layer_processor` (src/models/gbdt.h) and the
    whole job: after the scan, every layer node of the job takes the feature,
    turns its cut score into a mean squared error, and replaces the shared
    (master) node when it beats it, initialising both children there and
    tagging its rows with the side they go to. */
module GbdtWorker {
  import opened GbdtNode
  import opened GbdtScan

  /** IEEE `(square_sum - score) / cnt` on a float score. */
  function Mse(squareSum: real, score: Score, cnt: int): Score {
    match score
    case Finite(v) => Quotient(squareSum - v, cnt)
    case NaN => NaN
    case PosInf => if cnt < 0 then PosInf else NegInf
    case NegInf => if cnt < 0 then NegInf else PosInf
  }

  /** A layer node of the job after its commit step: the job's feature, the
      end moved to the cursor, and the score as a mean squared error. */
  function Finalized(nd: TreeNode, feature: int): TreeNode {
    nd.(fidx := feature, end := nd.grow, score := Mse(nd.squareSum, nd.score, nd.cnt))
  }

  /** The left child slot `slot` after a commit of `p`: the rows before the
      cut with the sums recorded at the cut. */
  function LeftInit(slot: TreeNode, p: TreeNode): TreeNode {
    Init(slot, p.begin, p.split).(sum := p.splitSum, squareSum := p.splitSsum)
  }

  /** The right child slot after a commit of `p`: the rows from the cut on
      with the rest of the sums. */
  function RightInit(slot: TreeNode, p: TreeNode): TreeNode {
    Init(slot, p.split, p.end).(sum := p.sum - p.splitSum, squareSum := p.squareSum - p.splitSsum)
  }

  /** With `init` as written, a layer node whose scan finds no cut keeps
      the `split_sum` its slot held before: here a node of two rows of equal
      value summing 3, in a slot that held 5. It still wins against the
      fresh master node and its right child, which takes both rows, is
      given the sum 3 - 5 instead of 3. With `Init` the child gets 3. */
  lemma StaleSplitSumAsWritten()
    ensures var stale := BlankNode.(splitSum := 5.0);
      var s := [Seen(0, 0, 0, 1.0), Seen(1, 1, 0, 2.0)];
      var asWritten := InitAsWritten(stale, 0, 2).(sum := 3.0);
      var p := Finalized(LayerScanned(ResetNode(asWritten, true), s, 7), 7);
      var corrected := Init(stale, 0, 2).(sum := 3.0);
      var q := Finalized(LayerScanned(ResetNode(corrected, true), s, 7), 7);
      && SumRes(s) == 3.0
      && Less(asWritten, p) && p.split == 0 && p.end == 2
      && RightInit(stale, p).begin == 0 && RightInit(stale, p).end == 2
      && RightInit(stale, p).sum == -2.0
      && Less(corrected, q) && RightInit(stale, q).sum == 3.0
  {
    var s := [Seen(0, 0, 0, 1.0), Seen(1, 1, 0, 2.0)];
    assert s[..1] == [s[0]] && s[..0] == [];
    assert !Evaluated(s, 1);
    var r := ResetNode(InitAsWritten(BlankNode.(splitSum := 5.0), 0, 2).(sum := 3.0), true);
    assert MidAt(r, s, 0) == NoSplitScore(r);
    assert !Best(r, s[..1]).found;
    assert !Best(r, s).found;
    var r' := ResetNode(Init(BlankNode.(splitSum := 5.0), 0, 2).(sum := 3.0), true);
    assert MidAt(r', s, 0) == NoSplitScore(r');
    assert !Best(r', s[..1]).found;
    assert !Best(r', s).found;
  }

  /** The job's layer node `n` replaces the master's: it carries a feature
      and the master's has none or a strictly larger error. */
  predicate Wins(m: seq<TreeNode>, t: seq<TreeNode>, n: int, feature: int)
    requires 0 <= n < |m| && n < |t|
  {
    Less(m[n], Finalized(t[n], feature))
  }

  /** The slot `k` of the master after the layer nodes in [beg, hi) have
      been committed from the job nodes `t` onto the master `m`. */
  function CommittedSlot(m: seq<TreeNode>, t: seq<TreeNode>, feature: int, beg: int, hi: int, k: int): TreeNode
    requires 0 <= k < |m| && |m| == |t|
  {
    if beg <= k < hi then
      if Wins(m, t, k, feature) then Finalized(t[k], feature) else m[k]
    else if k >= 1 && beg <= Parent(k) < hi && Wins(m, t, Parent(k), feature) then
      var p := Finalized(t[Parent(k)], feature);
      if k == Left(Parent(k)) then LeftInit(m[k], p) else RightInit(m[k], p)
    else m[k]
  }

  /** The node range of `nd` lies in a slot buffer of length `len`, with the
      cut inside the filled part. */
  predicate CutInBuffer(nd: TreeNode, len: int) {
    0 <= nd.begin <= nd.split <= nd.grow <= len
  }

  /** The turn the commit of layer nodes [beg, hi) leaves on row `r`, whose
      info before the commit is `info`: 2 if it sits in a winning node's
      slots from the cut on, 1 if it sits before the cut, otherwise as it
      was. */
  function CommitTurn(info: ItemInfo, r: int, m: seq<TreeNode>, t: seq<TreeNode>, buf: seq<int>,
                      feature: int, beg: int, hi: int): int
  {
    var n := info.node;
    if 0 <= n && beg <= n < hi && n < |t| && n < |m| && Wins(m, t, n, feature) && CutInBuffer(t[n], |buf|) then
      if r in buf[t[n].split..t[n].grow] then 2
      else if r in buf[t[n].begin..t[n].split] then 1
      else info.turn
    else info.turn
  }

  /** `iinfo[dim_id_sorted[i]].turn = turn` for i in [lo, hi). */
  method TagRows(iinfo: array<ItemInfo>, buf: array<int>, lo: int, hi: int, turn: int)
    requires 0 <= lo <= hi <= buf.Length
    requires forall p :: lo <= p < hi ==> 0 <= buf[p] < iinfo.Length
    modifies iinfo
    ensures forall r :: 0 <= r < iinfo.Length ==>
      iinfo[r] == if r in buf[lo..hi] then old(iinfo[r]).(turn := turn) else old(iinfo[r])
  {
    var i := lo;
    while i < hi
      invariant lo <= i <= hi
      invariant forall r :: 0 <= r < iinfo.Length ==>
        iinfo[r] == if r in buf[lo..i] then old(iinfo[r]).(turn := turn) else old(iinfo[r])
    {
      iinfo[buf[i]] := iinfo[buf[i]].(turn := turn);
      assert buf[lo..i + 1] == buf[lo..i] + [buf[i]];
      i := i + 1;
    }
  }

  /** The rows `info` after the commit step of the finalised node `j`,
      from `it` before it: tagged by the side of the cut if `j` won. */
  ghost predicate NodeTagged(info: seq<ItemInfo>, it: seq<ItemInfo>, buf: seq<int>, j: TreeNode, won: bool)
    requires CutInBuffer(j, |buf|)
  {
    |info| == |it| && forall r :: 0 <= r < |info| ==>
      info[r] == if !won then it[r]
                 else if r in buf[j.split..j.grow] then it[r].(turn := 2)
                 else if r in buf[j.begin..j.split] then it[r].(turn := 1)
                 else it[r]
  }

  /** The commit step for one layer node `n`. */
  method CommitNode(tree: array<TreeNode>, master: array<TreeNode>, iinfo: array<ItemInfo>, buf: array<int>,
                    n: int, feature: int)
    requires tree != master
    requires 0 <= n < tree.Length && Right(n) < master.Length
    requires CutInBuffer(tree[n], buf.Length)
    requires forall p :: tree[n].begin <= p < tree[n].grow ==> 0 <= buf[p] < iinfo.Length
    modifies tree, master, iinfo
    ensures var j := Finalized(old(tree[n]), feature);
      && tree[..] == old(tree[..])[n := j]
      && (if Less(old(master[n]), j)
          then master[..] == old(master[..])[n := j][Left(n) := LeftInit(old(master[Left(n)]), j)]
                                                   [Right(n) := RightInit(old(master[Right(n)]), j)]
          else master[..] == old(master[..]))
      && NodeTagged(iinfo[..], old(iinfo[..]), buf[..], j, Less(old(master[n]), j))
  {
    var node := tree[n];
    node := node.(fidx := feature, end := node.grow, score := Mse(node.squareSum, node.score, node.cnt));
    tree[n] := node;
    if Less(master[n], node) {
      master[n] := node;
      master[Left(n)] := LeftInit(master[Left(n)], node);
      master[Right(n)] := RightInit(master[Right(n)], node);
      TagRows(iinfo, buf, node.begin, node.split, 1);
      TagRows(iinfo, buf, node.split, node.end, 2);
    }
  }

  /** The slots of every layer node in [beg, end) hold rows of that node. */
  ghost predicate SlotRows(t: seq<TreeNode>, buf: seq<int>, info: seq<ItemInfo>, beg: int, end: int) {
    && 0 <= beg <= end <= |t|
    && forall n :: beg <= n < end ==>
         && CutInBuffer(t[n], |buf|)
         && forall p :: t[n].begin <= p < t[n].grow ==> 0 <= buf[p] < |info| && info[buf[p]].node == n
  }

  /** The rows after the commit of the layer nodes [beg, hi). */
  ghost predicate TurnsAfter(info: seq<ItemInfo>, i0: seq<ItemInfo>, m0: seq<TreeNode>, t0: seq<TreeNode>,
                             buf: seq<int>, feature: int, beg: int, hi: int) {
    |info| == |i0| && forall r :: 0 <= r < |info| ==>
      info[r] == i0[r].(turn := CommitTurn(i0[r], r, m0, t0, buf, feature, beg, hi))
  }

  /** The commit loop over the layer nodes [beg, end) of one job: the job's
      nodes are finalised, the master takes every winning node with its two
      children, and the rows of a winning node are tagged by the side of its
      cut. A child slot of one layer node is never a layer node. */
  method CommitLayer(tree: array<TreeNode>, master: array<TreeNode>, iinfo: array<ItemInfo>, buf: array<int>,
                     feature: int, beg: int, end: int)
    requires tree != master && tree.Length == master.Length
    requires beg < end ==> end <= Left(beg) && Right(end - 1) < master.Length
    requires SlotRows(tree[..], buf[..], iinfo[..], beg, end)
    modifies tree, master, iinfo
    ensures TreeAfter(tree[..], old(tree[..]), feature, beg, end)
    ensures MasterAfter(master[..], old(master[..]), old(tree[..]), feature, beg, end)
    ensures TurnsAfter(iinfo[..], old(iinfo[..]), old(master[..]), old(tree[..]), buf[..], feature, beg, end)
  {
    ghost var t0 := tree[..];
    ghost var m0 := master[..];
    ghost var i0 := iinfo[..];
    var n := beg;
    while n < end
      invariant beg <= n <= end
      invariant tree.Length == |t0| && master.Length == |m0|
      invariant TreeAfter(tree[..], t0, feature, beg, n)
      invariant MasterAfter(master[..], m0, t0, feature, beg, n)
      invariant TurnsAfter(iinfo[..], i0, m0, t0, buf[..], feature, beg, n)
    {
      CommitStep(m0, t0, master[..], feature, beg, end, n);
      ghost var it := iinfo[..];
      ghost var tt := tree[..];
      assert tree[n] == t0[n];
      SlotBounds(t0, buf[..], i0, beg, end, n);
      CommitNode(tree, master, iinfo, buf, n, feature);
      TurnsStep(iinfo[..], it, i0, m0, t0, buf[..], feature, beg, end, n);
      assert tree[..] == tt[n := Finalized(t0[n], feature)];
      n := n + 1;
    }
  }

  lemma SlotBounds(t0: seq<TreeNode>, buf: seq<int>, i0: seq<ItemInfo>, beg: int, end: int, n: int)
    requires SlotRows(t0, buf, i0, beg, end) && beg <= n < end
    ensures CutInBuffer(t0[n], |buf|)
    ensures forall p :: t0[n].begin <= p < t0[n].grow ==> 0 <= buf[p] < |i0|
  {
  }

  /** The job nodes after the layer nodes [beg, hi) were finalised. */
  ghost predicate TreeAfter(t: seq<TreeNode>, t0: seq<TreeNode>, feature: int, beg: int, hi: int) {
    |t| == |t0| && forall k :: 0 <= k < |t| ==> t[k] == if beg <= k < hi then Finalized(t0[k], feature) else t0[k]
  }

  /** The master after the layer nodes [beg, hi) were committed. */
  ghost predicate MasterAfter(m: seq<TreeNode>, m0: seq<TreeNode>, t0: seq<TreeNode>, feature: int, beg: int, hi: int) {
    |m| == |m0| == |t0| && forall k :: 0 <= k < |m| ==> m[k] == CommittedSlot(m0, t0, feature, beg, hi, k)
  }

  /** Committing layer node `n` after the nodes before it tags only rows of
      `n`, as `CommitTurn` says. */
  lemma TurnsStep(info: seq<ItemInfo>, it: seq<ItemInfo>, i0: seq<ItemInfo>, m0: seq<TreeNode>, t0: seq<TreeNode>,
                  buf: seq<int>, feature: int, beg: int, end: int, n: int)
    requires |m0| == |t0| && beg <= n < end
    requires SlotRows(t0, buf, i0, beg, end)
    requires TurnsAfter(it, i0, m0, t0, buf, feature, beg, n)
    requires var j := Finalized(t0[n], feature); NodeTagged(info, it, buf, j, Less(m0[n], j))
    ensures TurnsAfter(info, i0, m0, t0, buf, feature, beg, n + 1)
  {
    forall r | 0 <= r < |info|
      ensures info[r] == i0[r].(turn := CommitTurn(i0[r], r, m0, t0, buf, feature, beg, n + 1))
    {
      if i0[r].node != n {
        NotInSlots(t0, buf, i0, beg, end, n, t0[n].split, r);
        NotInSlots(t0, buf, i0, beg, end, n, t0[n].begin, r);
      }
    }
  }

  /** A row of another node is in no slot of node `n` from `lo` on. */
  lemma NotInSlots(t0: seq<TreeNode>, buf: seq<int>, i0: seq<ItemInfo>, beg: int, end: int, n: int, lo: int, r: int)
    requires SlotRows(t0, buf, i0, beg, end) && beg <= n < end
    requires t0[n].begin <= lo <= t0[n].grow
    requires 0 <= r < |i0| && i0[r].node != n
    ensures r !in buf[lo..t0[n].grow]
  {
    assert forall p :: lo <= p < t0[n].grow ==> i0[buf[p]].node == n;
  }

  /** Committing layer node `n` on top of the nodes before it changes the
      master slots as `CommittedSlot` says. */
  lemma CommitStep(m0: seq<TreeNode>, t0: seq<TreeNode>, m: seq<TreeNode>, feature: int, beg: int, end: int, n: int)
    requires |m0| == |t0| == |m|
    requires 0 <= beg <= n < end <= |t0|
    requires end <= Left(beg) && Right(end - 1) < |m0|
    requires MasterAfter(m, m0, t0, feature, beg, n)
    ensures m[n] == m0[n] && m[Left(n)] == m0[Left(n)] && m[Right(n)] == m0[Right(n)]
    ensures var j := Finalized(t0[n], feature);
      var m' := if Less(m0[n], j) then m[n := j][Left(n) := LeftInit(m0[Left(n)], j)][Right(n) := RightInit(m0[Right(n)], j)] else m;
      MasterAfter(m', m0, t0, feature, beg, n + 1)
  {
    var j := Finalized(t0[n], feature);
    var m' := if Less(m0[n], j) then m[n := j][Left(n) := LeftInit(m0[Left(n)], j)][Right(n) := RightInit(m0[Right(n)], j)] else m;
    forall k | 0 <= k < |m|
      ensures m'[k] == CommittedSlot(m0, t0, feature, beg, n + 1, k)
    {
      if k >= 1 {
        ParentIsInverse(k);
      }
    }
  }

  // ---------------------------------------------------------------------
  // The whole job.

  /** No row appears twice in a column. */
  predicate ColumnRowsDistinct(col: seq<SortedIndex>) {
    forall j1, j2 :: 0 <= j1 < j2 < |col| ==> col[j1].index != col[j2].index
  }

  predicate Distinct(xs: seq<int>) {
    forall i, j :: 0 <= i < j < |xs| ==> xs[i] != xs[j]
  }

  /** The rows of the entries a node has seen, in column order. */
  function RowsOf(s: seq<Seen>): (rs: seq<int>)
    ensures |rs| == |s| && forall t :: 0 <= t < |s| ==> rs[t] == s[t].row
  {
    seq(|s|, t requires 0 <= t < |s| => s[t].row)
  }

  /** What a selected job needs: the scan's requirements, fresh layer nodes
      (cut at their beginning), a column without repeated rows, and room in
      the master for the children of the layer nodes, none of which is a
      layer node itself. */
  ghost predicate JobReady(t0: seq<TreeNode>, col: seq<SortedIndex>, rows: seq<ItemInfo>, smp: Sampling,
                           allNodeCount: int, beg: int, end: int)
  {
    && ScanReady(t0, col, rows, smp, allNodeCount, beg, end)
    && ColumnRowsDistinct(col)
    && (forall n :: beg <= n < end ==> t0[n].split == t0[n].begin)
    && (beg < end ==> end <= Left(beg) && Right(end - 1) < |t0|)
  }

  /** The job's layer nodes after the reset and the scan, as the
      specification of the scan describes them; other slots as they were. */
  ghost function ScannedTree(t0: seq<TreeNode>, col: seq<SortedIndex>, rows: seq<ItemInfo>, smp: Sampling,
                             feature: int, beg: int, end: int): (t: seq<TreeNode>)
    requires RowsIn(col, |rows|)
    ensures |t| == |t0|
  {
    seq(|t0|, k requires 0 <= k < |t0| =>
      if beg <= k < end then LayerScanned(ResetNode(t0[k], true), SeenBy(col, rows, smp, k, |col|), feature)
      else t0[k])
  }

  /** The turn a job leaves on row `r` (info `info` before the job): a row
      of a winning layer node goes left (1) when it is among the node's
      first `split - begin` entries in the column's order, and right (2)
      otherwise; other rows keep their turn. */
  ghost function JobTurn(info: ItemInfo, r: int, m0: seq<TreeNode>, tj: seq<TreeNode>, col: seq<SortedIndex>,
                         rows: seq<ItemInfo>, smp: Sampling, feature: int, beg: int, end: int): int
    requires RowsIn(col, |rows|) && |m0| == |tj|
  {
    var n := info.node;
    if 0 <= n && beg <= n < end && n < |tj| && Wins(m0, tj, n, feature) then
      var s := SeenBy(col, rows, smp, n, |col|);
      var k := tj[n].split - tj[n].begin;
      if 0 <= k <= |s| && r in RowsOf(s[..k]) then 1
      else if r in RowsOf(s) then 2
      else info.turn
    else info.turn
  }

  /** The master `m` and rows `info` after a selected job whose job nodes
      are `tj`, from `m0` and `i0` before it. */
  ghost predicate JobCommitted(m0: seq<TreeNode>, m: seq<TreeNode>, i0: seq<ItemInfo>, info: seq<ItemInfo>,
                               tj: seq<TreeNode>, col: seq<SortedIndex>, smp: Sampling, feature: int, beg: int, end: int)
    requires RowsIn(col, |i0|)
  {
    && |m| == |m0| == |tj| && |info| == |i0|
    && (forall k :: 0 <= k < |m| ==> m[k] == CommittedSlot(m0, tj, feature, beg, end, k))
    && (forall r :: 0 <= r < |info| ==>
          info[r] == i0[r].(turn := JobTurn(i0[r], r, m0, tj, col, i0, smp, feature, beg, end)))
  }

  /** `__worker_layer_processor` on the job tree `tree` (a copy of the
      master taken when the layer started), committing onto `master` and
      tagging `iinfo`. An unselected job does nothing. */
  method Worker(tree: array<TreeNode>, master: array<TreeNode>, iinfo: array<ItemInfo>, col: seq<SortedIndex>,
                smp: Sampling, feature: int, selected: bool, allNodeCount: int, beg: int, end: int)
    requires tree != master && tree.Length == master.Length
    requires selected ==> JobReady(tree[..], col, iinfo[..], smp, allNodeCount, beg, end)
    modifies tree, master, iinfo
    ensures !selected ==> unchanged(tree) && unchanged(master) && unchanged(iinfo)
    ensures selected ==>
      var tj := ScannedTree(old(tree[..]), col, old(iinfo[..]), smp, feature, beg, end);
      && (forall k :: beg <= k < end ==> tree[k] == Finalized(tj[k], feature))
      && (forall k :: allNodeCount <= k < tree.Length ==> tree[k] == old(tree[k]))
      && JobCommitted(old(master[..]), master[..], old(iinfo[..]), iinfo[..], tj, col, smp, feature, beg, end)
  {
    if !selected {
      return;
    }
    ghost var t0 := tree[..];
    ghost var m0 := master[..];
    ghost var rows := iinfo[..];
    ResetCursors(tree, allNodeCount, beg, end);
    ghost var tr := tree[..];
    ResetKeepsReady(t0, tr, col, rows, smp, allNodeCount, beg, end);
    var buf := ScanColumn(tree, col, iinfo[..], smp, feature, allNodeCount, beg, end);
    ghost var ts := tree[..];
    ScanGivesSlots(t0, tr, ts, buf[..], col, rows, smp, feature, allNodeCount, beg, end);
    CommitLayer(tree, master, iinfo, buf, feature, beg, end);
    CommitIsJob(t0, ts, buf[..], m0, master[..], rows, iinfo[..], col, smp, feature, beg, end);
  }

  /** What the commit loop leaves behind, stated over the slot buffer, is
      what `JobCommitted` states over the entries each node has seen. */
  lemma CommitIsJob(t0: seq<TreeNode>, ts: seq<TreeNode>, buf: seq<int>, m0: seq<TreeNode>, m: seq<TreeNode>,
                    i0: seq<ItemInfo>, info: seq<ItemInfo>, col: seq<SortedIndex>, smp: Sampling, feature: int,
                    beg: int, end: int)
    requires RowsIn(col, |i0|) && ColumnRowsDistinct(col)
    requires |ts| == |t0| == |m0| == |m|
    requires 0 <= beg <= end <= |t0| && (beg < end ==> end <= Left(beg))
    requires forall n :: beg <= n < end ==>
      LayerSlots(ts[n], ScannedTree(t0, col, i0, smp, feature, beg, end)[n], buf, SeenBy(col, i0, smp, n, |col|), i0, n)
    requires MasterAfter(m, m0, ts, feature, beg, end)
    requires TurnsAfter(info, i0, m0, ts, buf, feature, beg, end)
    ensures JobCommitted(m0, m, i0, info, ScannedTree(t0, col, i0, smp, feature, beg, end), col, smp, feature, beg, end)
  {
    var tj := ScannedTree(t0, col, i0, smp, feature, beg, end);
    CommitMasterIsJob(ts, tj, m0, m, feature, beg, end);
    forall r | 0 <= r < |info|
      ensures info[r] == i0[r].(turn := JobTurn(i0[r], r, m0, tj, col, i0, smp, feature, beg, end))
    {
      var n := i0[r].node;
      if 0 <= n && beg <= n < end && Wins(m0, ts, n, feature) {
        SeenRowsDistinct(col, i0, smp, n);
        TurnMatches(ts[n], buf, SeenBy(col, i0, smp, n, |col|), r);
      }
    }
  }

  /** The master slots depend on the job nodes of the layer only. */
  lemma CommitMasterIsJob(ts: seq<TreeNode>, tj: seq<TreeNode>, m0: seq<TreeNode>, m: seq<TreeNode>,
                          feature: int, beg: int, end: int)
    requires |ts| == |tj| == |m0| == |m|
    requires 0 <= beg <= end <= |ts| && (beg < end ==> end <= Left(beg))
    requires forall n :: beg <= n < end ==> ts[n] == tj[n]
    requires MasterAfter(m, m0, ts, feature, beg, end)
    ensures MasterAfter(m, m0, tj, feature, beg, end)
  {
    forall k | 0 <= k < |m|
      ensures m[k] == CommittedSlot(m0, tj, feature, beg, end, k)
    {
      if k >= 1 {
        ParentIsInverse(k);
      }
    }
  }

  /** A node sees each row at most once, since the column holds each row at
      most once. */
  lemma SeenRowsDistinct(col: seq<SortedIndex>, rows: seq<ItemInfo>, smp: Sampling, n: int)
    requires RowsIn(col, |rows|) && ColumnRowsDistinct(col)
    ensures Distinct(RowsOf(SeenBy(col, rows, smp, n, |col|)))
  {
    SeenFacts(col, rows, smp, n, |col|);
  }

  /** The reset keeps every node's range, so the job stays ready for the
      scan, with cursors at the beginnings and layer nodes reset. */
  lemma ResetKeepsReady(t0: seq<TreeNode>, tr: seq<TreeNode>, col: seq<SortedIndex>, rows: seq<ItemInfo>, smp: Sampling,
                        allNodeCount: int, beg: int, end: int)
    requires JobReady(t0, col, rows, smp, allNodeCount, beg, end)
    requires |tr| == |t0|
    requires forall n :: 0 <= n < |tr| ==> tr[n] == if n < allNodeCount then ResetNode(t0[n], beg <= n < end) else t0[n]
    ensures ScanReady(tr, col, rows, smp, allNodeCount, beg, end)
    ensures forall n :: 0 <= n < allNodeCount ==> tr[n].grow == tr[n].begin && tr[n].sameKey == InvalidSameKey
    ensures forall n :: beg <= n < end ==> ResetLayerNode(tr[n]) && tr[n].split == tr[n].begin
  {
    forall n | 0 <= n < allNodeCount
      ensures tr[n].begin == t0[n].begin && tr[n].end == t0[n].end
      ensures tr[n].grow == tr[n].begin && tr[n].sameKey == InvalidSameKey
      ensures beg <= n < end ==> ResetLayerNode(tr[n]) && tr[n].split == tr[n].begin
    {
      ResetNodeFacts(t0[n], beg <= n < end);
    }
  }

  /** A layer node `n` after the scan (state `cur`, job node `jn`): its
      state is the job node, its slots hold the rows it has seen (`s`) and
      its cut lies among them. */
  ghost predicate LayerSlots(cur: TreeNode, jn: TreeNode, buf: seq<int>, s: seq<Seen>, rows: seq<ItemInfo>, n: int) {
    && cur == jn
    && Placed(buf, cur.begin, s)
    && cur.grow == cur.begin + |s|
    && CutInBuffer(cur, |buf|)
    && forall p :: cur.begin <= p < cur.grow ==> 0 <= buf[p] < |rows| && rows[buf[p]].node == n
  }

  /** After the scan, the layer nodes are as `ScannedTree` says, their cuts
      lie in their filled slots, and those slots hold their own rows. */
  lemma ScanGivesSlots(t0: seq<TreeNode>, tr: seq<TreeNode>, ts: seq<TreeNode>, buf: seq<int>, col: seq<SortedIndex>,
                       rows: seq<ItemInfo>, smp: Sampling, feature: int, allNodeCount: int, beg: int, end: int)
    requires JobReady(t0, col, rows, smp, allNodeCount, beg, end)
    requires |tr| == |t0|
    requires forall n :: 0 <= n < |tr| ==> tr[n] == if n < allNodeCount then ResetNode(t0[n], beg <= n < end) else t0[n]
    requires ScanReady(tr, col, rows, smp, allNodeCount, beg, end)
    requires ScanInv(tr, ts, buf, col, rows, smp, feature, allNodeCount, beg, end, |col|)
    ensures forall n :: beg <= n < end ==>
      LayerSlots(ts[n], ScannedTree(t0, col, rows, smp, feature, beg, end)[n], buf, SeenBy(col, rows, smp, n, |col|), rows, n)
    ensures SlotRows(ts, buf, rows, beg, end)
  {
    forall n | beg <= n < end
      ensures LayerSlots(ts[n], ScannedTree(t0, col, rows, smp, feature, beg, end)[n], buf, SeenBy(col, rows, smp, n, |col|), rows, n)
    {
      assert NodeScanned(ts[n], tr[n], buf, col, rows, smp, n, |col|, true, feature);
      assert NodeFits(tr[n], col, rows, smp, n);
      ScanGivesNodeSlots(t0[n], tr[n], ts[n], buf, col, rows, smp, feature, n);
    }
  }

  /** `ScanGivesSlots` for one layer node. */
  lemma ScanGivesNodeSlots(nd0: TreeNode, nr: TreeNode, cur: TreeNode, buf: seq<int>, col: seq<SortedIndex>,
                           rows: seq<ItemInfo>, smp: Sampling, feature: int, n: int)
    requires RowsIn(col, |rows|) && |buf| == |col|
    requires nr == ResetNode(nd0, true) && nd0.split == nd0.begin
    requires NodeFits(nr, col, rows, smp, n)
    requires NodeScanned(cur, nr, buf, col, rows, smp, n, |col|, true, feature)
    ensures LayerSlots(cur, LayerScanned(nr, SeenBy(col, rows, smp, n, |col|), feature), buf,
                       SeenBy(col, rows, smp, n, |col|), rows, n)
  {
    var s := SeenBy(col, rows, smp, n, |col|);
    var b := Best(nr, s);
    BestBound(nr, s);
    assert cur == LayerScanned(nr, s, feature);
    assert cur.begin == nr.begin && cur.grow == nr.begin + |s|;
    assert cur.split == if b.found then nr.begin + b.k else nr.begin;
    PlacedRowsOwned(buf, cur.begin, col, rows, smp, n);
  }

  /** The slots filled with the rows node `n` has seen hold rows of `n`. */
  lemma PlacedRowsOwned(buf: seq<int>, begin: int, col: seq<SortedIndex>, rows: seq<ItemInfo>, smp: Sampling, n: int)
    requires RowsIn(col, |rows|)
    requires Placed(buf, begin, SeenBy(col, rows, smp, n, |col|))
    ensures forall p :: begin <= p < begin + |SeenBy(col, rows, smp, n, |col|)| ==>
      0 <= buf[p] < |rows| && rows[buf[p]].node == n
  {
    var s := SeenBy(col, rows, smp, n, |col|);
    SeenFacts(col, rows, smp, n, |col|);
    forall p | begin <= p < begin + |s|
      ensures 0 <= buf[p] < |rows| && rows[buf[p]].node == n
    {
      assert buf[p] == s[p - begin].row;
      assert OwnedAt(col, rows, smp, n, s[p - begin].pos);
    }
  }

  /** The turn the commit loop leaves on row `r` of a winning node `nd`
      whose slots from `nd.begin` hold the rows of `s` is the job's turn. */
  lemma TurnMatches(nd: TreeNode, buf: seq<int>, s: seq<Seen>, r: int)
    requires Placed(buf, nd.begin, s) && nd.grow == nd.begin + |s|
    requires CutInBuffer(nd, |buf|)
    requires Distinct(RowsOf(s))
    ensures var k := nd.split - nd.begin;
      && (r in buf[nd.split..nd.grow] <==> r in RowsOf(s) && r !in RowsOf(s[..k]))
      && (r in buf[nd.begin..nd.split] <==> r in RowsOf(s[..k]))
  {
    var k := nd.split - nd.begin;
    var rs := RowsOf(s);
    assert buf[nd.begin..nd.grow] == rs;
    assert buf[nd.split..nd.grow] == rs[k..];
    assert buf[nd.begin..nd.split] == rs[..k] == RowsOf(s[..k]);
    if r in rs[k..] {
      var i :| k <= i < |rs| && rs[i] == r;
      assert r !in rs[..k];
    }
    if r in rs && r !in rs[..k] {
      var i :| 0 <= i < |rs| && rs[i] == r;
      assert r in rs[k..];
    }
  }
}
