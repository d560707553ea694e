/** The older revision of the gradient-boosted tree learner (models/gbdt.h):
    the sample bitmap, the per-layer choice of the best job node and the
    move of the rows into the children, prediction by a walk over the full
    nodes, and the model file. The worker's column scan is in LegacyScan;
    threshold recovery is the same loop as in the current revision
    (GbdtModel.RecoverThresholds). */
module LegacyGbdt {
  import opened Wrappers
  import opened GbdtNode
  import opened Instances
  import opened GbdtModel

  // ---------------------------------------------------------------------
  // The sample bitmap: `SET_1` and `IS_1`.

  /** `____1`: the byte with only bit `k` set. */
  const Masks: seq<bv8> := [0x1, 0x2, 0x4, 0x8, 0x10, 0x20, 0x40, 0x80]

  /** `IS_1(buf, idx)`: bit `idx & 7` of byte `idx >> 3`. */
  predicate IsSet(buf: seq<bv8>, idx: int)
    requires 0 <= idx && idx / 8 < |buf|
  {
    buf[idx / 8] & Masks[idx % 8] != 0
  }

  /** The bitmap after `SET_1(buf, idx)`. */
  function SetBit(buf: seq<bv8>, idx: int): (r: seq<bv8>)
    requires 0 <= idx && idx / 8 < |buf|
    ensures |r| == |buf|
  {
    buf[idx / 8 := buf[idx / 8] | Masks[idx % 8]]
  }

  lemma MaskBits(b: bv8, k: int, m: int)
    requires 0 <= k < 8 && 0 <= m < 8
    ensures (b | Masks[k]) & Masks[m] != 0 <==> k == m || b & Masks[m] != 0
  {
  }

  /** After `SET_1(buf, idx)` bit `idx` is set and every other bit is as
      it was. */
  lemma SetBitSpec(buf: seq<bv8>, idx: int, j: int)
    requires 0 <= idx && idx / 8 < |buf| && 0 <= j && j / 8 < |buf|
    ensures IsSet(SetBit(buf, idx), j) <==> j == idx || IsSet(buf, j)
  {
    if j / 8 == idx / 8 {
      MaskBits(buf[j / 8], idx % 8, j % 8);
      assert j == idx <==> j % 8 == idx % 8;
    }
  }

  /** `SET_1`. */
  method Set1(buf: array<bv8>, idx: int)
    requires 0 <= idx && idx / 8 < buf.Length
    modifies buf
    ensures buf[..] == SetBit(old(buf[..]), idx)
  {
    buf[idx / 8] := buf[idx / 8] | Masks[idx % 8];
  }

  // ---------------------------------------------------------------------
  // The root of a tree and the sample of rows.

  /** `ItemInfo_t` of this revision: residual and node (a `short`). */
  datatype LegacyItem = LegacyItem(residual: real, node: int)

  /** The sum of the residuals of the first `n` rows whose draw came out
      true. */
  function DrawnSum(items: seq<LegacyItem>, draws: seq<bool>, n: nat): real
    requires n <= |items| && n <= |draws|
  {
    if n == 0 then 0.0
    else DrawnSum(items, draws, n - 1) + (if draws[n - 1] then items[n - 1].residual else 0.0)
  }

  /** The same for the squared residuals. */
  function DrawnSumSq(items: seq<LegacyItem>, draws: seq<bool>, n: nat): real
    requires n <= |items| && n <= |draws|
  {
    if n == 0 then 0.0
    else DrawnSumSq(items, draws, n - 1) + (if draws[n - 1] then Square(items[n - 1].residual) else 0.0)
  }

  /** How many of the first `n` draws came out true. */
  function DrawnCount(draws: seq<bool>, n: nat): nat
    requires n <= |draws|
  {
    if n == 0 then 0 else DrawnCount(draws, n - 1) + (if draws[n - 1] then 1 else 0)
  }

  /** The sample loop at the start of a tree in `train`: the bitmap is
      cleared, every row goes to the root, and a row whose draw
      (`_sample(_sample_instance)`) came out true is marked in the bitmap
      and counted, and its residual goes into the root's sums. */
  method SampleRows(iinfo: array<LegacyItem>, draws: seq<bool>, buf: array<bv8>)
    returns (count: nat, sum: real, squareSum: real)
    requires |draws| == iinfo.Length && iinfo.Length / 8 < buf.Length && iinfo as object != buf
    modifies iinfo, buf
    ensures forall i :: 0 <= i < iinfo.Length ==> iinfo[i] == old(iinfo[i]).(node := 0)
    ensures forall i :: 0 <= i < 8 * buf.Length ==> (IsSet(buf[..], i) <==> i < |draws| && draws[i])
    ensures count == DrawnCount(draws, |draws|)
    ensures sum == DrawnSum(old(iinfo[..]), draws, |draws|)
    ensures squareSum == DrawnSumSq(old(iinfo[..]), draws, |draws|)
  {
    ghost var items := iinfo[..];
    forall b | 0 <= b < buf.Length {
      buf[b] := 0;
    }
    assert iinfo[..] == items;
    count, sum, squareSum := 0, 0.0, 0.0;
    for i := 0 to iinfo.Length
      invariant forall k :: 0 <= k < iinfo.Length ==> iinfo[k] == if k < i then items[k].(node := 0) else items[k]
      invariant forall k :: 0 <= k < 8 * buf.Length ==> (IsSet(buf[..], k) <==> k < i && draws[k])
      invariant count == DrawnCount(draws, i)
      invariant sum == DrawnSum(items, draws, i) && squareSum == DrawnSumSq(items, draws, i)
    {
      iinfo[i] := iinfo[i].(node := 0);
      if draws[i] {
        ghost var before := buf[..];
        Set1(buf, i);
        forall k | 0 <= k < 8 * buf.Length
          ensures IsSet(buf[..], k) <==> k == i || IsSet(before, k)
        {
          SetBitSpec(before, i, k);
        }
        count := count + 1;
        sum := sum + iinfo[i].residual;
        squareSum := squareSum + Square(iinfo[i].residual);
      }
    }
  }

  // ---------------------------------------------------------------------
  // Choosing the best node of a layer.

  /** Node `i` of every job tree. */
  function Column(jobs: seq<seq<TreeNode>>, i: int): (c: seq<TreeNode>)
    requires 0 <= i && forall d :: 0 <= d < |jobs| ==> i < |jobs[d]|
    ensures |c| == |jobs| && forall d :: 0 <= d < |jobs| ==> c[d] == jobs[d][i]
  {
    seq(|jobs|, d requires 0 <= d < |jobs| => jobs[d][i])
  }

  /** The master node after the selected job nodes `cands[..d]` were
      compared with it in order, each replacing it when it beats it. */
  function BestOf(m: TreeNode, cands: seq<TreeNode>, sel: seq<bool>, d: nat): TreeNode
    requires d <= |cands| && d <= |sel|
  {
    if d == 0 then m
    else
      var r := BestOf(m, cands, sel, d - 1);
      if sel[d - 1] && Less(r, cands[d - 1]) then cands[d - 1] else r
  }

  /** The node kept is the master or a selected job's node; no selected
      job's node beats it; and a replaced master is beaten by the node
      that replaced it. */
  lemma {:induction false} BestOfWins(m: TreeNode, cands: seq<TreeNode>, sel: seq<bool>, d: nat)
    requires d <= |cands| && d <= |sel|
    ensures var r := BestOf(m, cands, sel, d);
      && (r == m || exists k :: 0 <= k < d && sel[k] && r == cands[k])
      && (forall k :: 0 <= k < d && sel[k] ==> !Less(r, cands[k]))
      && (r != m ==> Less(m, r))
  {
    if d > 0 {
      BestOfWins(m, cands, sel, d - 1);
      var p := BestOf(m, cands, sel, d - 1);
      var r := BestOf(m, cands, sel, d);
      if sel[d - 1] && Less(p, cands[d - 1]) {
        LessIsStrictOrder(p, r, r);
        forall k | 0 <= k < d - 1 && sel[k]
          ensures !Less(r, cands[k])
        {
          LessIsStrictOrder(p, r, cands[k]);
        }
        if p != m {
          LessIsStrictOrder(m, p, r);
        }
      } else if sel[d - 1] {
        assert !Less(r, cands[d - 1]);
      }
    }
  }

  /** The position of the job node that replaced the master last, or -1
      when the master was never replaced. */
  function Winner(m: TreeNode, cands: seq<TreeNode>, sel: seq<bool>, d: nat): (w: int)
    requires d <= |cands| && d <= |sel|
    ensures -1 <= w < d
  {
    if d == 0 then -1
    else if sel[d - 1] && Less(BestOf(m, cands, sel, d - 1), cands[d - 1]) then d - 1
    else Winner(m, cands, sel, d - 1)
  }

  /** The earliest best node wins: the node kept is the master when no
      job replaced it, and otherwise the winning job's node, which beats
      every earlier selected job's node that carries a feature and a
      score other than NaN; later job nodes only tie or lose. */
  lemma {:induction false} WinnerIsEarliest(m: TreeNode, cands: seq<TreeNode>, sel: seq<bool>, d: nat)
    requires d <= |cands| && d <= |sel|
    ensures var w := Winner(m, cands, sel, d);
      var r := BestOf(m, cands, sel, d);
      && (w == -1 ==> r == m)
      && (w >= 0 ==> sel[w] && r == cands[w])
      && (w >= 0 ==> forall k :: 0 <= k < w && sel[k] && cands[k].fidx != -1 && !cands[k].score.NaN? ==> Less(cands[k], r))
      && (forall k :: w < k < d && sel[k] ==> !Less(r, cands[k]))
  {
    if d > 0 {
      WinnerIsEarliest(m, cands, sel, d - 1);
      var p := BestOf(m, cands, sel, d - 1);
      if sel[d - 1] && Less(p, cands[d - 1]) {
        var r := cands[d - 1];
        BestOfWins(m, cands, sel, d - 1);
        forall k | 0 <= k < d - 1 && sel[k] && cands[k].fidx != -1 && !cands[k].score.NaN?
          ensures Less(cands[k], r)
        {
          assert !Less(p, cands[k]);
          NotBelowBeats(p.score, cands[k].score, r.score);
        }
      } else {
        BestOfWins(m, cands, sel, d);
      }
    }
  }

  /** A score that `a` does not exceed, and that is not NaN, exceeds
      whatever `a` exceeds. */
  lemma NotBelowBeats(a: Score, b: Score, c: Score)
    requires Greater(a, c) && !Greater(a, b) && !b.NaN?
    ensures Greater(b, c)
  {
  }

  /** The "find best node" loop of `train`: every node of the layer
      [beg, end) is compared with node `i` of each selected job tree in
      feature order. */
  method PickBest(tree: array<TreeNode>, jobs: seq<seq<TreeNode>>, sel: seq<bool>, beg: int, end: int)
    requires 0 <= beg <= end <= tree.Length && |sel| == |jobs|
    requires forall d :: 0 <= d < |jobs| ==> end <= |jobs[d]|
    modifies tree
    ensures forall i :: beg <= i < end ==> tree[i] == BestOf(old(tree[i]), Column(jobs, i), sel, |jobs|)
    ensures forall i :: 0 <= i < tree.Length && !(beg <= i < end) ==> tree[i] == old(tree[i])
  {
    for i := beg to end
      invariant forall k :: beg <= k < i ==> tree[k] == BestOf(old(tree[k]), Column(jobs, k), sel, |jobs|)
      invariant forall k :: 0 <= k < tree.Length && !(beg <= k < i) ==> tree[k] == old(tree[k])
    {
      ghost var cands := Column(jobs, i);
      for d := 0 to |jobs|
        invariant tree[i] == BestOf(old(tree[i]), cands, sel, d)
        invariant forall k :: 0 <= k < tree.Length && k != i ==> tree[k] == old(tree[k]) || (beg <= k < i)
        invariant forall k :: beg <= k < i ==> tree[k] == BestOf(old(tree[k]), Column(jobs, k), sel, |jobs|)
        invariant forall k :: 0 <= k < tree.Length && !(beg <= k <= i) ==> tree[k] == old(tree[k])
      {
        if sel[d] && Less(tree[i], jobs[d][i]) {
          tree[i] := jobs[d][i];
        }
      }
    }
  }

  // ---------------------------------------------------------------------
  // The children of the layer's split nodes.

  /** The residuals of the rows listed at positions [lo, hi) of `list`. */
  function ListSum(items: seq<LegacyItem>, list: seq<SortedIndex>, lo: int, hi: int): real
    requires 0 <= lo <= hi <= |list|
    requires forall i :: lo <= i < hi ==> 0 <= list[i].index < |items|
    decreases hi - lo
  {
    if lo == hi then 0.0 else ListSum(items, list, lo, hi - 1) + items[list[hi - 1].index].residual
  }

  function ListSumSq(items: seq<LegacyItem>, list: seq<SortedIndex>, lo: int, hi: int): real
    requires 0 <= lo <= hi <= |list|
    requires forall i :: lo <= i < hi ==> 0 <= list[i].index < |items|
    decreases hi - lo
  {
    if lo == hi then 0.0 else ListSumSq(items, list, lo, hi - 1) + Square(items[list[hi - 1].index].residual)
  }

  /** Row `r` is listed at a position in [lo, hi) of `list`. */
  predicate ListsRow(list: seq<SortedIndex>, lo: int, hi: int, r: int)
    requires 0 <= lo <= hi <= |list|
  {
    exists i :: lo <= i < hi && list[i].index == r
  }

  /** Rows listed at positions [lo, hi) of `list` are rows of `items`. */
  predicate ListedIn(list: seq<SortedIndex>, lo: int, hi: int, n: int) {
    0 <= lo <= hi <= |list| && forall i :: lo <= i < hi ==> 0 <= list[i].index < n
  }

  /** One child loop: every row listed at [lo, hi) of `list` moves to node
      `c` (stored in a `short`), and its residual and squared residual go
      into the node's sums. */
  method MoveRange(tree: array<TreeNode>, iinfo: array<LegacyItem>, c: int, list: seq<SortedIndex>, lo: int, hi: int)
    requires 0 <= c < tree.Length && ListedIn(list, lo, hi, iinfo.Length)
    modifies tree, iinfo
    ensures tree[c] == old(tree[c]).(sum := old(tree[c]).sum + ListSum(old(iinfo[..]), list, lo, hi),
                                     squareSum := old(tree[c]).squareSum + ListSumSq(old(iinfo[..]), list, lo, hi))
    ensures forall k :: 0 <= k < tree.Length && k != c ==> tree[k] == old(tree[k])
    ensures forall r :: 0 <= r < iinfo.Length ==>
      iinfo[r].residual == old(iinfo[r].residual) &&
      iinfo[r].node == if ListsRow(list, lo, hi, r) then ShortOf(c) else old(iinfo[r].node)
  {
    ghost var items := iinfo[..];
    ghost var start := tree[c];
    for i := lo to hi
      invariant forall k :: 0 <= k < tree.Length && k != c ==> tree[k] == old(tree[k])
      invariant tree[c] == start.(sum := start.sum + ListSum(items, list, lo, i),
                                  squareSum := start.squareSum + ListSumSq(items, list, lo, i))
      invariant forall r :: 0 <= r < iinfo.Length ==>
        iinfo[r].residual == items[r].residual &&
        iinfo[r].node == if ListsRow(list, lo, i, r) then ShortOf(c) else items[r].node
    {
      var id := list[i].index;
      var d := iinfo[id].residual;
      iinfo[id] := iinfo[id].(node := ShortOf(c));
      tree[c] := tree[c].(sum := tree[c].sum + d, squareSum := tree[c].squareSum + Square(d));
      forall r | 0 <= r < iinfo.Length
        ensures ListsRow(list, lo, i + 1, r) <==> ListsRow(list, lo, i, r) || r == id
      {
        if ListsRow(list, lo, i + 1, r) && r != id {
          var j :| lo <= j < i + 1 && list[j].index == r;
          assert j < i;
        }
      }
    }
  }

  /** The layer's nodes [beg, end) have their children past the layer and
      within the tree, and every split node names a job whose list covers
      its range with rows of the table. */
  predicate SplitReady(tree: seq<TreeNode>, lists: seq<seq<SortedIndex>>, n: int, beg: int, end: int) {
    && 0 <= beg <= end && end <= Left(beg) && (beg < end ==> Right(end - 1) < |tree|)
    && forall i :: beg <= i < end && tree[i].fidx != -1 ==>
         && 0 <= tree[i].fidx < |lists|
         && tree[i].begin <= tree[i].split <= tree[i].end
         && ListedIn(lists[tree[i].fidx], tree[i].begin, tree[i].end, n)
  }

  /** What the child loops give child slot `slot` of a split node: a fresh
      range [b, e) with the sums of the rows listed there. */
  function Child(slot: TreeNode, items: seq<LegacyItem>, list: seq<SortedIndex>, b: int, e: int): TreeNode
    requires ListedIn(list, b, e, |items|)
  {
    InitAsWritten(slot, b, e).(sum := ListSum(items, list, b, e), squareSum := ListSumSq(items, list, b, e))
  }

  /** Row `r` is listed in the left (`side` 1) or right (`side` 2) range of
      split node `n` in its job's list. */
  predicate ListedBy(tree: seq<TreeNode>, lists: seq<seq<SortedIndex>>, n: int, side: int, r: int)
    requires 0 <= n < |tree|
  {
    var nd := tree[n];
    && nd.fidx != -1 && 0 <= nd.fidx < |lists| && 0 <= nd.begin <= nd.split <= nd.end <= |lists[nd.fidx]|
    && (if side == 1 then ListsRow(lists[nd.fidx], nd.begin, nd.split, r)
        else side == 2 && ListsRow(lists[nd.fidx], nd.split, nd.end, r))
  }

  /** The child reassignment loop of `train` for the layer [beg, end): each
      split node's children get [begin, split) and [split, end) with the
      sums of the rows its job listed there, and those rows move to the
      child. A row listed by no split node keeps its node; a row listed by
      several ends in one of the children listing it. */
  method SplitLayer(tree: array<TreeNode>, iinfo: array<LegacyItem>, lists: seq<seq<SortedIndex>>, beg: int, end: int)
    requires SplitReady(tree[..], lists, iinfo.Length, beg, end)
    modifies tree, iinfo
    ensures forall n :: beg <= n < end ==> tree[n] == old(tree[n])
    ensures forall n :: beg <= n < end && old(tree[n]).fidx != -1 ==>
      var nd := old(tree[n]); var l := lists[nd.fidx];
      tree[Left(n)] == Child(old(tree[Left(n)]), old(iinfo[..]), l, nd.begin, nd.split) &&
      tree[Right(n)] == Child(old(tree[Right(n)]), old(iinfo[..]), l, nd.split, nd.end)
    ensures forall k :: 0 <= k < tree.Length && !(end <= k && 1 <= k && beg <= Parent(k) < end && old(tree[Parent(k)]).fidx != -1) ==>
      tree[k] == old(tree[k])
    ensures forall r :: 0 <= r < iinfo.Length ==> iinfo[r].residual == old(iinfo[r].residual)
    ensures forall r :: 0 <= r < iinfo.Length ==> Reassigned(old(tree[..]), lists, beg, end, r, old(iinfo[r].node), iinfo[r].node)
  {
    ghost var items := iinfo[..];
    ghost var t0 := tree[..];
    var n := beg;
    while n < end
      invariant beg <= n <= end
      invariant TreeSplitUpTo(tree[..], t0, items, lists, beg, end, n)
      invariant RowsSplitUpTo(iinfo[..], items, t0, lists, beg, n)
    {
      n := SplitAt(tree, iinfo, lists, beg, end, n, t0, items);
    }
  }

  /** The child loops of node `n`, when it was split. */
  method SplitAt(tree: array<TreeNode>, iinfo: array<LegacyItem>, lists: seq<seq<SortedIndex>>, beg: int, end: int, n: int,
                 ghost t0: seq<TreeNode>, ghost items: seq<LegacyItem>) returns (next: int)
    requires SplitReady(t0, lists, |items|, beg, end) && beg <= n < end
    requires tree.Length == |t0| && iinfo.Length == |items|
    requires TreeSplitUpTo(tree[..], t0, items, lists, beg, end, n)
    requires RowsSplitUpTo(iinfo[..], items, t0, lists, beg, n)
    modifies tree, iinfo
    ensures next == n + 1
    ensures TreeSplitUpTo(tree[..], t0, items, lists, beg, end, next)
    ensures RowsSplitUpTo(iinfo[..], items, t0, lists, beg, next)
  {
    next := n + 1;
    ghost var t1 := tree[..];
    ghost var i1 := iinfo[..];
    var nd := tree[n];
    if nd.fidx != -1 {
      var l := lists[nd.fidx];
      ChildrenOfNode(n);
      SplitNode(tree, iinfo, l, n, nd.begin, nd.split, nd.end);
      ListSumResiduals(items, i1, l, nd.begin, nd.split);
      ListSumResiduals(items, i1, l, nd.split, nd.end);
      assert tree[..] == t1[Left(n) := Child(t0[Left(n)], items, l, nd.begin, nd.split)]
                           [Right(n) := Child(t0[Right(n)], items, l, nd.split, nd.end)];
    }
    TreeSplitStep(t1, tree[..], t0, items, lists, beg, end, n, next);
    RowsSplitStep(i1, iinfo[..], items, t0, lists, beg, end, n, next);
  }

  /** The tree after the child loops of the split nodes in [beg, n): their
      children are set, every other node is as it was. */
  ghost predicate TreeSplitUpTo(t: seq<TreeNode>, t0: seq<TreeNode>, items: seq<LegacyItem>, lists: seq<seq<SortedIndex>>,
                                beg: int, end: int, n: int)
    requires SplitReady(t0, lists, |items|, beg, end) && beg <= n <= end
  {
    && |t| == |t0|
    && (forall m :: beg <= m < n && t0[m].fidx != -1 ==>
          t[Left(m)] == Child(t0[Left(m)], items, lists[t0[m].fidx], t0[m].begin, t0[m].split) &&
          t[Right(m)] == Child(t0[Right(m)], items, lists[t0[m].fidx], t0[m].split, t0[m].end))
    && (forall k :: 0 <= k < |t| && !(end <= k && 1 <= k && beg <= Parent(k) < n && t0[Parent(k)].fidx != -1) ==>
          t[k] == t0[k])
  }

  lemma TreeSplitStep(t: seq<TreeNode>, t': seq<TreeNode>, t0: seq<TreeNode>, items: seq<LegacyItem>,
                      lists: seq<seq<SortedIndex>>, beg: int, end: int, n: int, next: int)
    requires SplitReady(t0, lists, |items|, beg, end) && beg <= n < end && next == n + 1
    requires TreeSplitUpTo(t, t0, items, lists, beg, end, n)
    requires t0[n].fidx == -1 ==> t' == t
    requires t0[n].fidx != -1 ==>
      var nd := t0[n]; var l := lists[nd.fidx];
      t' == t[Left(n) := Child(t0[Left(n)], items, l, nd.begin, nd.split)][Right(n) := Child(t0[Right(n)], items, l, nd.split, nd.end)]
    ensures TreeSplitUpTo(t', t0, items, lists, beg, end, next)
  {
    ChildrenOfNode(n);
    TreeSplitFrame(t, t', t0, items, lists, beg, end, n, next);
    TreeSplitKids(t, t', t0, items, lists, beg, end, n, next);
  }

  lemma TreeSplitFrame(t: seq<TreeNode>, t': seq<TreeNode>, t0: seq<TreeNode>, items: seq<LegacyItem>,
                       lists: seq<seq<SortedIndex>>, beg: int, end: int, n: int, next: int)
    requires SplitReady(t0, lists, |items|, beg, end) && beg <= n < end && next == n + 1
    requires TreeSplitUpTo(t, t0, items, lists, beg, end, n)
    requires |t'| == |t| && forall k :: 0 <= k < |t| && k != Left(n) && k != Right(n) ==> t'[k] == t[k]
    requires t0[n].fidx == -1 ==> t' == t
    ensures |t'| == |t0|
    ensures forall k :: 0 <= k < |t'| && !(end <= k && 1 <= k && beg <= Parent(k) < next && t0[Parent(k)].fidx != -1) ==>
          t'[k] == t0[k]
  {
    ChildrenOfNode(n);
    forall k | 0 <= k < |t'| && !(end <= k && 1 <= k && beg <= Parent(k) < next && t0[Parent(k)].fidx != -1)
      ensures t'[k] == t0[k]
    {
      if k == Left(n) || k == Right(n) {
        assert Parent(k) == n;
      }
    }
  }

  lemma TreeSplitKids(t: seq<TreeNode>, t': seq<TreeNode>, t0: seq<TreeNode>, items: seq<LegacyItem>,
                      lists: seq<seq<SortedIndex>>, beg: int, end: int, n: int, next: int)
    requires SplitReady(t0, lists, |items|, beg, end) && beg <= n < end && next == n + 1
    requires TreeSplitUpTo(t, t0, items, lists, beg, end, n)
    requires t0[n].fidx == -1 ==> t' == t
    requires t0[n].fidx != -1 ==>
      var nd := t0[n]; var l := lists[nd.fidx];
      t' == t[Left(n) := Child(t0[Left(n)], items, l, nd.begin, nd.split)][Right(n) := Child(t0[Right(n)], items, l, nd.split, nd.end)]
    ensures forall m :: beg <= m < next && t0[m].fidx != -1 ==>
          t'[Left(m)] == Child(t0[Left(m)], items, lists[t0[m].fidx], t0[m].begin, t0[m].split) &&
          t'[Right(m)] == Child(t0[Right(m)], items, lists[t0[m].fidx], t0[m].split, t0[m].end)
  {
    if t0[n].fidx != -1 {
      ChildrenOfNode(n);
      forall m | beg <= m < n && t0[m].fidx != -1
        ensures t'[Left(m)] == t[Left(m)] && t'[Right(m)] == t[Right(m)]
      {
        assert Left(m) != Left(n) && Left(m) != Right(n) && Right(m) != Left(n) && Right(m) != Right(n);
      }
    }
  }

  /** The rows after the child loops of the split nodes in [beg, n). */
  ghost predicate RowsSplitUpTo(it: seq<LegacyItem>, items: seq<LegacyItem>, t0: seq<TreeNode>, lists: seq<seq<SortedIndex>>,
                                beg: int, n: int)
  {
    |it| == |items| &&
    forall r :: 0 <= r < |it| ==> it[r].residual == items[r].residual && Reassigned(t0, lists, beg, n, r, items[r].node, it[r].node)
  }

  lemma RowsSplitStep(it: seq<LegacyItem>, it': seq<LegacyItem>, items: seq<LegacyItem>, t0: seq<TreeNode>,
                      lists: seq<seq<SortedIndex>>, beg: int, end: int, n: int, next: int)
    requires SplitReady(t0, lists, |items|, beg, end) && beg <= n < end && next == n + 1
    requires RowsSplitUpTo(it, items, t0, lists, beg, n)
    requires t0[n].fidx == -1 ==> it' == it
    requires t0[n].fidx != -1 ==>
      var nd := t0[n]; var l := lists[nd.fidx];
      |it'| == |it| &&
      forall r :: 0 <= r < |it| ==>
        it'[r].residual == it[r].residual &&
        it'[r].node == if ListsRow(l, nd.split, nd.end, r) then ShortOf(Right(n))
                       else if ListsRow(l, nd.begin, nd.split, r) then ShortOf(Left(n))
                       else it[r].node
    ensures RowsSplitUpTo(it', items, t0, lists, beg, next)
  {
    forall r | 0 <= r < |it'|
      ensures Reassigned(t0, lists, beg, n + 1, r, items[r].node, it'[r].node)
    {
      if t0[n].fidx != -1 {
        ReassignedStep(t0, lists, beg, n, r, items[r].node, it[r].node, it'[r].node);
      } else {
        ReassignedSkip(t0, lists, beg, n, r, items[r].node, it'[r].node);
      }
    }
  }

  /** The two child loops of split node `n` whose job listed its rows at
      [b, e) of `l`, cut at `s`. */
  method SplitNode(tree: array<TreeNode>, iinfo: array<LegacyItem>, l: seq<SortedIndex>, n: int, b: int, s: int, e: int)
    requires 0 <= n && Right(n) < tree.Length && b <= s <= e && ListedIn(l, b, e, iinfo.Length)
    modifies tree, iinfo
    ensures tree[Left(n)] == Child(old(tree[Left(n)]), old(iinfo[..]), l, b, s)
    ensures tree[Right(n)] == Child(old(tree[Right(n)]), old(iinfo[..]), l, s, e)
    ensures forall k :: 0 <= k < tree.Length && k != Left(n) && k != Right(n) ==> tree[k] == old(tree[k])
    ensures forall r :: 0 <= r < iinfo.Length ==>
      iinfo[r].residual == old(iinfo[r].residual) &&
      iinfo[r].node == if ListsRow(l, s, e, r) then ShortOf(Right(n))
                       else if ListsRow(l, b, s, r) then ShortOf(Left(n))
                       else old(iinfo[r].node)
  {
    ghost var i0 := iinfo[..];
    tree[Left(n)] := InitAsWritten(tree[Left(n)], b, s);
    MoveRange(tree, iinfo, Left(n), l, b, s);
    ghost var i1 := iinfo[..];
    tree[Right(n)] := InitAsWritten(tree[Right(n)], s, e);
    MoveRange(tree, iinfo, Right(n), l, s, e);
    ListSumResiduals(i0, i1, l, s, e);
  }

  /** Row `r`, in node `before` ahead of the layer's child loops over the
      split nodes in [beg, n), sits in node `after`: listed by none of them
      it stays; otherwise it is in a child of one listing it. */
  ghost predicate Reassigned(tree: seq<TreeNode>, lists: seq<seq<SortedIndex>>, beg: int, n: int, r: int, before: int, after: int) {
    || ((forall m, side :: 0 <= beg <= m < n && m < |tree| ==> !ListedBy(tree, lists, m, side, r)) && after == before)
    || (exists m, side :: 0 <= beg <= m < n && m < |tree| && ListedBy(tree, lists, m, side, r) &&
          after == ShortOf(if side == 1 then Left(m) else Right(m)))
  }

  lemma ReassignedSkip(tree: seq<TreeNode>, lists: seq<seq<SortedIndex>>, beg: int, n: int, r: int, before: int, after: int)
    requires 0 <= beg <= n < |tree| && tree[n].fidx == -1
    requires Reassigned(tree, lists, beg, n, r, before, after)
    ensures Reassigned(tree, lists, beg, n + 1, r, before, after)
  {
    if forall m, side :: 0 <= beg <= m < n && m < |tree| ==> !ListedBy(tree, lists, m, side, r) {
      forall m, side | 0 <= beg <= m < n + 1 && m < |tree|
        ensures !ListedBy(tree, lists, m, side, r)
      {
        if m == n {
          assert tree[m].fidx == -1;
        }
      }
    } else {
      var m, side :| 0 <= beg <= m < n && m < |tree| && ListedBy(tree, lists, m, side, r) &&
          after == ShortOf(if side == 1 then Left(m) else Right(m));
      assert beg <= m < n + 1;
    }
  }

  lemma ReassignedStep(tree: seq<TreeNode>, lists: seq<seq<SortedIndex>>, beg: int, n: int, r: int,
                       before: int, mid: int, after: int)
    requires 0 <= beg <= n < |tree| && tree[n].fidx != -1
    requires var nd := tree[n]; 0 <= nd.fidx < |lists| && 0 <= nd.begin <= nd.split <= nd.end <= |lists[nd.fidx]|
    requires Reassigned(tree, lists, beg, n, r, before, mid)
    requires var nd := tree[n]; var l := lists[nd.fidx];
      after == if ListsRow(l, nd.split, nd.end, r) then ShortOf(Right(n))
               else if ListsRow(l, nd.begin, nd.split, r) then ShortOf(Left(n))
               else mid
    ensures Reassigned(tree, lists, beg, n + 1, r, before, after)
  {
    var nd := tree[n];
    var l := lists[nd.fidx];
    if ListsRow(l, nd.split, nd.end, r) {
      assert ListedBy(tree, lists, n, 2, r);
    } else if ListsRow(l, nd.begin, nd.split, r) {
      assert ListedBy(tree, lists, n, 1, r);
    } else {
      forall side
        ensures !ListedBy(tree, lists, n, side, r)
      {
      }
      ReassignedKeep(tree, lists, beg, n, r, before, mid);
    }
  }

  lemma ReassignedKeep(tree: seq<TreeNode>, lists: seq<seq<SortedIndex>>, beg: int, n: int, r: int, before: int, after: int)
    requires 0 <= beg <= n < |tree|
    requires forall side :: !ListedBy(tree, lists, n, side, r)
    requires Reassigned(tree, lists, beg, n, r, before, after)
    ensures Reassigned(tree, lists, beg, n + 1, r, before, after)
  {
    if forall m, side :: 0 <= beg <= m < n && m < |tree| ==> !ListedBy(tree, lists, m, side, r) {
      assert forall m, side :: 0 <= beg <= m < n + 1 && m < |tree| ==> !ListedBy(tree, lists, m, side, r);
    } else {
      var m, side :| 0 <= beg <= m < n && m < |tree| && ListedBy(tree, lists, m, side, r) &&
          after == ShortOf(if side == 1 then Left(m) else Right(m));
      assert beg <= m < n + 1;
    }
  }

  /** The sums of a list range depend on the residuals only. */
  lemma {:induction false} ListSumResiduals(a: seq<LegacyItem>, b: seq<LegacyItem>, list: seq<SortedIndex>, lo: int, hi: int)
    requires |a| == |b| && forall r :: 0 <= r < |a| ==> a[r].residual == b[r].residual
    requires ListedIn(list, lo, hi, |a|)
    ensures ListSum(a, list, lo, hi) == ListSum(b, list, lo, hi)
    ensures ListSumSq(a, list, lo, hi) == ListSumSq(b, list, lo, hi)
    decreases hi - lo
  {
    if lo < hi {
      ListSumResiduals(a, b, list, lo, hi - 1);
    }
  }

  /** The node count after the layer [beg, end): past the right child of
      every node carrying a feature, and no further than needed. */
  method GrowNodeCount(tree: seq<TreeNode>, beg: int, end: int, count: int) returns (c: int)
    requires 0 <= beg <= end <= |tree|
    ensures c >= count
    ensures forall i :: beg <= i < end && tree[i].fidx >= 0 ==> Right(i) < c
    ensures c == count || exists i :: beg <= i < end && tree[i].fidx >= 0 && c == Right(i) + 1
  {
    c := count;
    for i := beg to end
      invariant c >= count
      invariant forall k :: beg <= k < i && tree[k].fidx >= 0 ==> Right(k) < c
      invariant c == count || exists k :: beg <= k < i && tree[k].fidx >= 0 && c == Right(k) + 1
    {
      if tree[i].fidx >= 0 && c <= Right(i) {
        c := Right(i) + 1;
      }
    }
  }

  /** The mean `_trees[T][id].mean` reads: the node's own mean for an id
      inside the table. A `short` id that wrapped to a negative value reads
      memory before the table; `stray(id)` is whatever that memory holds. */
  function MeanAt(tree: seq<TreeNode>, id: int, stray: int -> real): real {
    if 0 <= id < |tree| then tree[id].mean else stray(id)
  }

  /** The residual update at the end of a tree: a row marked in the
      bitmap loses the shrinkage times the mean its node id reads; the
      others keep their residual. */
  method UpdateResiduals(tree: array<TreeNode>, iinfo: array<LegacyItem>, buf: array<bv8>, sr: real, stray: int -> real)
    requires iinfo as object != buf && iinfo as object != tree && iinfo.Length / 8 < buf.Length
    modifies iinfo
    ensures forall r :: 0 <= r < iinfo.Length ==>
      iinfo[r] == if IsSet(buf[..], r) then old(iinfo[r]).(residual := ShrinkBy(old(iinfo[r].residual), sr, MeanAt(tree[..], old(iinfo[r].node), stray)))
                  else old(iinfo[r])
  {
    for i := 0 to iinfo.Length
      invariant forall r :: 0 <= r < i ==>
        iinfo[r] == if IsSet(buf[..], r) then old(iinfo[r]).(residual := ShrinkBy(old(iinfo[r].residual), sr, MeanAt(tree[..], old(iinfo[r].node), stray)))
                    else old(iinfo[r])
      invariant forall r :: i <= r < iinfo.Length ==> iinfo[r] == old(iinfo[r])
    {
      if !IsSet(buf[..], i) {
        continue;
      }
      var id := iinfo[i].node;
      var predictValue := if 0 <= id < tree.Length then tree[id].mean else stray(id);
      iinfo[i] := iinfo[i].(residual := ShrinkBy(iinfo[i].residual, sr, predictValue));
    }
  }

  /** `in_which_node` is a `short`. With `layer_num >= 15` the layer loop
      splits node 16383 of layer 14, whose right child 32768 lies in the
      table of `1 << 17` nodes but is stored as -32768; the residual update
      then reads before the table. */
  lemma ShortNodeWrapsAtLayer15(tree: seq<TreeNode>, stray: int -> real)
    requires |tree| == Pow2(15 + 2)
    ensures InLayer(16383, 14) && Right(16383) < |tree|
    ensures ShortOf(Right(16383)) == -32768
    ensures MeanAt(tree, ShortOf(Right(16383)), stray) == stray(-32768)
  {
    assert Pow2(14) == 16384 && Pow2(15) == 32768 && Pow2(17) == 131072 by {
      assert Pow2(1) == 2 && Pow2(2) == 4 && Pow2(3) == 8 && Pow2(4) == 16 && Pow2(5) == 32;
      assert Pow2(6) == 64 && Pow2(7) == 128 && Pow2(8) == 256 && Pow2(9) == 512 && Pow2(10) == 1024;
      assert Pow2(11) == 2048 && Pow2(12) == 4096 && Pow2(13) == 8192 && Pow2(16) == 65536;
    }
  }

  // ---------------------------------------------------------------------
  // Prediction over the full nodes.

  /** A tree `predict` can walk: every node carrying a feature has its
      children inside the tree. C++ does not check it. */
  predicate LegacyWalkable(tree: seq<TreeNode>) {
    forall i :: 0 <= i < |tree| && tree[i].fidx != -1 ==> Right(i) < |tree|
  }

  /** `train` clears every node's feature and then splits only the
      nodes of its `layer_num` layers, whose children lie in the layer
      below; such a tree of `1 << (layer_num + 2)` nodes can be walked. */
  lemma GrownTreeWalkable(tree: seq<TreeNode>, layerNum: nat)
    requires |tree| == Pow2(layerNum + 2)
    requires forall i :: Pow2(layerNum) - 1 <= i < |tree| ==> tree[i].fidx == -1
    ensures LegacyWalkable(tree)
  {
    assert Pow2(layerNum + 2) == 4 * Pow2(layerNum);
  }

  /** The node where the walk from `x` stops: left while the row's first
      value for the node's feature (0 when absent) is below the threshold,
      right otherwise, until a node without feature. */
  function LegacyLeaf(tree: seq<TreeNode>, fs: seq<IndValue>, x: int): (leaf: int)
    requires LegacyWalkable(tree) && 0 <= x < |tree|
    ensures x <= leaf < |tree| && tree[leaf].fidx == -1
    decreases |tree| - x
  {
    if tree[x].fidx == -1 then x
    else if FirstValue(fs, tree[x].fidx) < tree[x].threshold then LegacyLeaf(tree, fs, Left(x))
    else LegacyLeaf(tree, fs, Right(x))
  }

  /** The score of the first `n` trees: the shrinkage times the mean of the
      leaf each of them reaches. */
  function LegacyScore(trees: seq<seq<TreeNode>>, fs: seq<IndValue>, sr: real, n: nat): real
    requires n <= |trees| && forall t :: 0 <= t < |trees| ==> 0 < |trees[t]| && LegacyWalkable(trees[t])
  {
    if n == 0 then 0.0
    else LegacyScore(trees, fs, sr, n - 1) + sr * trees[n - 1][LegacyLeaf(trees[n - 1], fs, 0)].mean
  }

  /** The inner loop of `predict`: walk one tree, remembering the mean of
      the last node visited. */
  method WalkTree(tree: seq<TreeNode>, fs: seq<IndValue>) returns (leafMean: real)
    requires LegacyWalkable(tree) && |tree| > 0
    ensures leafMean == tree[LegacyLeaf(tree, fs, 0)].mean
  {
    var nid := 0;
    while true
      invariant 0 <= nid < |tree| && LegacyLeaf(tree, fs, nid) == LegacyLeaf(tree, fs, 0)
      decreases |tree| - nid
    {
      var node := tree[nid];
      leafMean := node.mean;
      if node.fidx != -1 {
        var value := FindThreshold(fs, node.fidx);
        if value < node.threshold {
          nid := Left(nid);
        } else {
          nid := Right(nid);
        }
      } else {
        break;
      }
    }
  }

  /** Where both revisions can walk the same tree, they agree: when no
      index repeats in the row and every feature of the tree is below
      `dim`, the full-node walk ends at the leaf the compact walk over the
      dense buffer reaches. */
  lemma {:induction false} LegacyAgreesWithCompact(tree: seq<TreeNode>, fs: seq<IndValue>, dim: nat, x: int)
    requires LegacyWalkable(tree) && DistinctIndices(fs) && 0 <= x < |tree|
    requires Walkable(CompactTree(tree), dim)
    ensures LegacyLeaf(tree, fs, x) == LeafOf(CompactTree(tree), Dense(fs, dim), x)
    decreases |tree| - x
  {
    var c := CompactTree(tree);
    if tree[x].fidx != -1 {
      DenseIsFeatureValue(fs, dim, tree[x].fidx);
      assert Step(c[x], Dense(fs, dim), x) == (if FirstValue(fs, tree[x].fidx) < tree[x].threshold then Left(x) else Right(x));
      LegacyAgreesWithCompact(tree, fs, dim, Step(c[x], Dense(fs, dim), x));
    }
  }

  /** The compact copy of one tree. */
  function CompactTree(tree: seq<TreeNode>): (c: seq<SmallNode>)
    ensures |c| == |tree| && forall i :: 0 <= i < |tree| ==> c[i] == SmallNode(tree[i].fidx, tree[i].threshold)
  {
    seq(|tree|, i requires 0 <= i < |tree| => Compact(RecordOf(tree[i])))
  }

  // ---------------------------------------------------------------------
  // The model file.

  /** What the older `read_model` loads: the counts, the shrinkage and
      the records of the nodes; no layer count and no dimension. */
  datatype LegacyImage = LegacyImage(treeCount: int, treeSize: int, sr: real, recs: seq<seq<Record>>)

  /** The older `read_model` on a stream. */
  function LegacyLoad(s: seq<Field>): Option<LegacyImage> {
    if |s| < 3 || !s[0].IntField? || !s[1].IntField? || !s[2].RealField? then None
    else if s[0].i < 0 || s[1].i < 0 then None
    else match ReadForest(s[3..], s[0].i, s[1].i)
      case None => None
      case Some(rs) => Some(LegacyImage(s[0].i, s[1].i, s[2].r, rs))
  }

  /** `read_model` after `write_model` gives back the counts, the
      shrinkage and every node's feature, threshold and mean, for trees of
      any size. */
  lemma LegacyLoadInvertsWrite(treeCount: nat, treeSize: nat, sr: real, rs: seq<seq<Record>>)
    requires Shaped(rs, treeCount, treeSize)
    ensures LegacyLoad(ModelFile(treeCount, treeSize, sr, rs)) == Some(LegacyImage(treeCount, treeSize, sr, rs))
  {
    assert ModelFile(treeCount, treeSize, sr, rs)[3..] == ForestFields(rs);
    ReadForestOfFields(rs, treeSize);
  }

  /** A node `TreeNode_t::read` fills: the three stored fields from the
      record, the rest whatever the fresh array held. */
  function ReadInto(fill: TreeNode, r: Record): (n: TreeNode)
    ensures RecordOf(n) == r
  {
    fill.(fidx := r.fidx, threshold := r.threshold, mean := r.mean)
  }

  /** The older model object. A fresh `new TreeNode_t[]` is uninitialised
      memory; its contents are the parameter `fill`. */
  class LegacyModel {
    var treeCount: int
    var maxLayer: int
    var treeSize: int
    var sr: real
    var trees: seq<seq<TreeNode>>

    /** The settings `tree_num`, `layer_num` and `shrinkage`; each tree
        gets `1 << (layer_num + 2)` nodes. */
    constructor (treeNum: nat, layerNum: nat, shrinkage: real, fill: TreeNode)
      ensures treeCount == treeNum && maxLayer == layerNum && sr == shrinkage
      ensures treeSize == Pow2(layerNum + 2)
      ensures |trees| == treeNum && forall t :: 0 <= t < treeNum ==> trees[t] == seq(Pow2(layerNum + 2), _ => fill)
    {
      treeCount := treeNum;
      maxLayer := layerNum;
      sr := shrinkage;
      treeSize := Pow2(layerNum + 2);
      trees := seq(treeNum, _ => seq(Pow2(layerNum + 2), _ => fill));
    }

    /** Every tree has `treeSize` nodes. */
    ghost predicate Valid()
      reads this
    {
      treeCount >= 0 && treeSize >= 0 && |trees| == treeCount &&
      forall t :: 0 <= t < treeCount ==> |trees[t]| == treeSize
    }

    /** Every tree can be walked. */
    ghost predicate Walkable()
      reads this
    {
      Valid() && treeSize > 0 && forall t :: 0 <= t < treeCount ==> LegacyWalkable(trees[t])
    }

    /** `predict`: the shrinkage times the mean of the leaf of every tree,
        summed. */
    method Predict(ins: Instance) returns (score: real)
      requires Walkable()
      ensures score == LegacyScore(trees, ins.features, sr, treeCount)
    {
      score := 0.0;
      for i := 0 to treeCount
        invariant score == LegacyScore(trees, ins.features, sr, i)
      {
        var leafMean := WalkTree(trees[i], ins.features);
        score := score + sr * leafMean;
      }
    }

    /** `write_model`. */
    method WriteModel() returns (s: seq<Field>)
      requires Valid()
      ensures s == ModelFile(treeCount, treeSize, sr, Records(trees))
    {
      var rs := Records(trees);
      s := [IntField(treeCount), IntField(treeSize), RealField(sr)];
      for t := 0 to treeCount
        invariant s == ModelFile(treeCount, treeSize, sr, rs[..t])
      {
        ghost var before := s;
        for i := 0 to treeSize
          invariant s == before + TreeFields(rs[t][..i])
        {
          assert rs[t][..i + 1][..i] == rs[t][..i];
          s := s + NodeFields(RecordOf(trees[t][i]));
        }
        assert rs[..t + 1][..t] == rs[..t];
        assert rs[t][..treeSize] == rs[t];
      }
      assert rs[..treeCount] == rs;
    }

    /** `read_model`: a stream `LegacyLoad` accepts replaces the counts,
        the shrinkage and the trees, whose nodes carry the stored records;
        `_max_layer` keeps its value. Any other stream changes nothing. */
    method ReadModel(s: seq<Field>, fill: TreeNode) returns (ok: bool)
      modifies this
      ensures ok == LegacyLoad(s).Some?
      ensures ok ==> var im := LegacyLoad(s).value;
        treeCount == im.treeCount && treeSize == im.treeSize && sr == im.sr && Valid() &&
        Records(trees) == im.recs && maxLayer == old(maxLayer)
      ensures !ok ==> unchanged(this)
    {
      if |s| < 3 || !s[0].IntField? || !s[1].IntField? || !s[2].RealField? || s[0].i < 0 || s[1].i < 0 {
        return false;
      }
      var recs;
      ok, recs := ReadForestFields(s[3..], s[0].i, s[1].i);
      if !ok {
        return;
      }
      ReadForestShaped(s[3..], s[0].i, s[1].i);
      var tc, ts := s[0].i, s[1].i;
      var built := seq(tc, t requires 0 <= t < tc =>
        seq(ts, i requires 0 <= i < ts => ReadInto(fill, recs[t][i])));
      assert forall t :: 0 <= t < tc ==> Records(built)[t] == recs[t];
      treeCount, treeSize, sr, trees := tc, ts, s[2].r, built;
    }
  }

  /** The forest `ReadForest` returns has the shape it was asked for. */
  lemma {:induction false} ReadForestShaped(s: seq<Field>, count: nat, size: nat)
    requires ReadForest(s, count, size).Some?
    ensures Shaped(ReadForest(s, count, size).value, count, size)
  {
    if count > 0 {
      ReadTreeLength(s, size);
      ReadForestShaped(s[3 * size..], count - 1, size);
    }
  }

  lemma {:induction false} ReadTreeLength(s: seq<Field>, n: nat)
    requires ReadTree(s, n).Some?
    ensures |ReadTree(s, n).value| == n
  {
    if n > 0 {
      ReadTreeLength(s[3..], n - 1);
    }
  }

  /** What `write_model` emits, `read_model` loads back: the counts, the
      shrinkage and every node's stored fields. */
  lemma LegacyModelRoundTrip(treeCount: nat, treeSize: nat, sr: real, trees: seq<seq<TreeNode>>)
    requires |trees| == treeCount && forall t :: 0 <= t < treeCount ==> |trees[t]| == treeSize
    ensures var s := ModelFile(treeCount, treeSize, sr, Records(trees));
      LegacyLoad(s).Some? && LegacyLoad(s).value.treeCount == treeCount && LegacyLoad(s).value.treeSize == treeSize &&
      LegacyLoad(s).value.sr == sr && LegacyLoad(s).value.recs == Records(trees)
  {
    LegacyLoadInvertsWrite(treeCount, treeSize, sr, Records(trees));
  }
}
