/** The worker of the older trainer (`__worker_layer_processor` in
    models/gbdt.h): reset the cursors, run once through a feature's sorted
    column, skipping rows outside the sample bitmap, writing every sampled
    row into its node's next slot of the job's output column and scoring a
    cut only at entries that start a run of equal values; the process stops
    when a node runs out of room. */
module LegacyScan {
  import opened GbdtNode
  import opened GbdtScan
  import opened GbdtWorker
  import opened GbdtColumn
  import opened LegacyGbdt

  // ---------------------------------------------------------------------
  // What the scan sees of each node.

  /** Every column entry names a row, and the bitmap covers it. */
  predicate ColumnIn(col: seq<SortedIndex>, items: seq<LegacyItem>, buf: seq<bv8>) {
    forall j :: 0 <= j < |col| ==> 0 <= col[j].index < |items| && col[j].index / 8 < |buf|
  }

  /** Column entry `j` is a row of the sample sitting in node `n`. */
  predicate Owns(col: seq<SortedIndex>, items: seq<LegacyItem>, buf: seq<bv8>, n: int, j: int)
    requires ColumnIn(col, items, buf) && 0 <= j < |col|
  {
    IsSet(buf, col[j].index) && items[col[j].index].node == n
  }

  /** The column positions, among the first `i`, of the entries node `n`
      owns, in column order. */
  function Positions(col: seq<SortedIndex>, items: seq<LegacyItem>, buf: seq<bv8>, n: int, i: nat): (p: seq<int>)
    requires ColumnIn(col, items, buf) && i <= |col|
    ensures |p| <= i
    ensures forall k :: 0 <= k < |p| ==> 0 <= p[k] < i && Owns(col, items, buf, n, p[k])
    ensures forall k1, k2 :: 0 <= k1 < k2 < |p| ==> p[k1] < p[k2]
  {
    if i == 0 then []
    else Positions(col, items, buf, n, i - 1) + (if Owns(col, items, buf, n, i - 1) then [i - 1] else [])
  }

  /** Seeing more of the column never removes a position. */
  lemma {:induction false} PositionsGrow(col: seq<SortedIndex>, items: seq<LegacyItem>, buf: seq<bv8>, n: int, i: nat, j: nat)
    requires ColumnIn(col, items, buf) && i <= j <= |col|
    ensures |Positions(col, items, buf, n, i)| <= |Positions(col, items, buf, n, j)|
    decreases j - i
  {
    if i < j {
      PositionsGrow(col, items, buf, n, i, j - 1);
    }
  }

  /** The residuals of node `n`'s entries among the first `i`. */
  function ResidualSum(col: seq<SortedIndex>, items: seq<LegacyItem>, buf: seq<bv8>, n: int, i: nat): real
    requires ColumnIn(col, items, buf) && i <= |col|
  {
    if i == 0 then 0.0
    else
      var r := if Owns(col, items, buf, n, i - 1) then items[col[i - 1].index].residual else 0.0;
      ResidualSum(col, items, buf, n, i - 1) + r
  }

  /** Node `n` owns at least one entry of the column. */
  predicate Owner(col: seq<SortedIndex>, items: seq<LegacyItem>, buf: seq<bv8>, n: int)
    requires ColumnIn(col, items, buf)
  {
    |Positions(col, items, buf, n, |col|)| > 0
  }

  /** What the scan needs of the job's tree after the reset: the sampled
      rows sit in the first `all` nodes, whose cursors are at their
      beginnings, whose ranges lie in the output column, and whose ranges
      are apart when both nodes own rows. A negative id, which a wrapped
      `short` gives from layer 15 on, would make C++ touch memory before
      the tree; it is refused. */
  predicate ScanReady(t: seq<TreeNode>, col: seq<SortedIndex>, items: seq<LegacyItem>, buf: seq<bv8>, all: int, outLen: int) {
    && ColumnIn(col, items, buf)
    && 0 <= all <= |t|
    && (forall j :: 0 <= j < |col| && IsSet(buf, col[j].index) ==> 0 <= items[col[j].index].node < all)
    && (forall n :: 0 <= n < all ==>
          0 <= t[n].begin <= t[n].end <= outLen && t[n].grow == t[n].begin && t[n].sameKey == InvalidSameKey)
    && (forall n1, n2 ::
          (0 <= n1 < all && 0 <= n2 < all && n1 != n2 && Owner(col, items, buf, n1) && Owner(col, items, buf, n2)) ==>
          Apart(t[n1], t[n2]))
  }

  /** Node `n`, which held `nd` when the scan started, after the first `i`
      entries: its range and sums are untouched and its cursor has moved
      past exactly its entries, which sit in its slots in column order;
      its running sum holds their residuals; and either its feature and
      cut are as before or they record the job's feature and a cut in its
      slots at an entry that starts a run, and its score has only grown. */
  ghost predicate NodeAt(cur: TreeNode, nd: TreeNode, o: seq<SortedIndex>, col: seq<SortedIndex>, items: seq<LegacyItem>,
                         buf: seq<bv8>, n: int, i: nat, feature: int)
    requires ColumnIn(col, items, buf) && i <= |col|
  {
    var p := Positions(col, items, buf, n, i);
    && NodeFrame(cur, nd)
    && 0 <= nd.begin && cur.grow == nd.begin + |p| <= nd.end <= |o|
    && SlotsHold(o, col, p, nd.begin)
    && cur.tempSum == nd.tempSum + ResidualSum(col, items, buf, n, i)
    && (cur.score == nd.score || Greater(cur.score, nd.score))
    && CutRecorded(cur, nd, col, p, feature)
  }

  /** Only the cursor, the running sum, the score and the cut fields have
      moved, and the node's run key is the invalid one. */
  predicate NodeFrame(cur: TreeNode, nd: TreeNode) {
    && cur.sameKey == InvalidSameKey
    && cur == nd.(grow := cur.grow, tempSum := cur.tempSum, score := cur.score, fidx := cur.fidx,
                  split := cur.split, splitId := cur.splitId)
  }

  /** Slot `begin + k` holds the entry at position `p[k]`. */
  predicate SlotsHold(o: seq<SortedIndex>, col: seq<SortedIndex>, p: seq<int>, begin: int) {
    forall k :: 0 <= k < |p| ==> 0 <= begin + k < |o| && 0 <= p[k] < |col| && o[begin + k] == col[p[k]]
  }

  /** The feature and cut are as before, or they record the job's feature
      and a cut at one of the node's entries that starts a run. */
  predicate CutRecorded(cur: TreeNode, nd: TreeNode, col: seq<SortedIndex>, p: seq<int>, feature: int) {
    (cur.fidx == nd.fidx && cur.split == nd.split && cur.splitId == nd.splitId) ||
    (cur.fidx == feature && nd.begin <= cur.split < nd.begin + |p| && 0 <= p[cur.split - nd.begin] < |col| &&
     !col[p[cur.split - nd.begin]].same && cur.splitId == col[p[cur.split - nd.begin]].index)
  }

  /** The scan state after the first `i` entries. */
  ghost predicate ScanInv(t0: seq<TreeNode>, t: seq<TreeNode>, o: seq<SortedIndex>, col: seq<SortedIndex>,
                          items: seq<LegacyItem>, buf: seq<bv8>, all: int, feature: int, i: nat)
    requires ColumnIn(col, items, buf) && i <= |col|
  {
    && |t| == |t0| && 0 <= all <= |t|
    && (forall n :: 0 <= n < all ==> NodeAt(t[n], t0[n], o, col, items, buf, n, i, feature))
    && (forall n :: all <= n < |t| ==> t[n] == t0[n])
  }

  /** Every node has room for all of its entries. */
  predicate AllFit(t0: seq<TreeNode>, col: seq<SortedIndex>, items: seq<LegacyItem>, buf: seq<bv8>, all: int)
    requires ColumnIn(col, items, buf) && 0 <= all <= |t0|
  {
    forall n :: 0 <= n < all ==> t0[n].begin + |Positions(col, items, buf, n, |col|)| <= t0[n].end
  }

  // ---------------------------------------------------------------------
  // One entry.

  /** The state of the entry's node after it: the cut is scored when the
      entry starts a run, the residual is added, and the cursor moves on. */
  function Stepped(nod: TreeNode, e: SortedIndex, r: real, feature: int): TreeNode {
    var ts := Mid(nod.tempSum, nod.grow - nod.begin, nod.sum - nod.tempSum, nod.end - nod.grow);
    var scored := if !e.same && Greater(Finite(ts), nod.score)
      then nod.(fidx := feature, score := Finite(ts), split := nod.grow, splitId := e.index)
      else nod;
    scored.(tempSum := scored.tempSum + r, grow := scored.grow + 1)
  }

  /** The body of the scan loop for entry `i`. The run key stays
      `INVALID_SAME_KEY`, as does every node's, so the branch that would
      re-mark an entry never runs. A node whose cursor has reached its end
      stops the process (ok = false). */
  method ScanEntry(tree: array<TreeNode>, out: array<SortedIndex>, col: seq<SortedIndex>, items: seq<LegacyItem>,
                   buf: seq<bv8>, all: int, feature: int, i: nat, sameKey: int) returns (ok: bool)
    requires tree as object != out
    requires ColumnIn(col, items, buf) && i < |col| && sameKey == InvalidSameKey
    requires IsSet(buf, col[i].index) ==> 0 <= items[col[i].index].node < tree.Length
    requires IsSet(buf, col[i].index) ==> var nd := tree[items[col[i].index].node];
      nd.sameKey == InvalidSameKey && 0 <= nd.grow && nd.end <= out.Length
    modifies tree, out
    ensures !IsSet(buf, col[i].index) ==> ok && tree[..] == old(tree[..]) && out[..] == old(out[..])
    ensures IsSet(buf, col[i].index) ==> var nid := items[col[i].index].node; var nd := old(tree[nid]);
      (ok <==> nd.grow < nd.end) &&
      (ok ==> tree[..] == old(tree[..])[nid := Stepped(nd, col[i], items[col[i].index].residual, feature)] &&
              out[..] == old(out[..])[nd.grow := col[i]])
  {
    var si := col[i];
    var nid := items[si.index].node;
    if !IsSet(buf, si.index) {
      return true;
    }
    var nod := tree[nid];
    if si.same {
      if nod.sameKey != sameKey {
        nod := nod.(sameKey := sameKey);
        si := si.(same := false);
      }
    } else {
      var tempScore := Mid(nod.tempSum, nod.grow - nod.begin, nod.sum - nod.tempSum, nod.end - nod.grow);
      if Greater(Finite(tempScore), nod.score) {
        nod := nod.(fidx := feature, score := Finite(tempScore), split := nod.grow, splitId := si.index);
      }
    }
    nod := nod.(tempSum := nod.tempSum + items[si.index].residual);
    if nod.grow >= nod.end {
      return false;
    }
    out[nod.grow] := si;
    nod := nod.(grow := nod.grow + 1);
    tree[nid] := nod;
    ok := true;
  }

  // ---------------------------------------------------------------------
  // The loop.

  /** Node `nid` after its own entry `i`. */
  lemma ScanStepOwner(cur: TreeNode, nd: TreeNode, o: seq<SortedIndex>, col: seq<SortedIndex>, items: seq<LegacyItem>,
                      buf: seq<bv8>, nid: int, i: nat, feature: int)
    requires ColumnIn(col, items, buf) && i < |col| && Owns(col, items, buf, nid, i)
    requires NodeAt(cur, nd, o, col, items, buf, nid, i, feature) && cur.grow < cur.end
    ensures NodeAt(Stepped(cur, col[i], items[col[i].index].residual, feature), nd, o[cur.grow := col[i]],
                   col, items, buf, nid, i + 1, feature)
  {
    var p := Positions(col, items, buf, nid, i);
    assert Positions(col, items, buf, nid, i + 1) == p + [i];
    var next := Stepped(cur, col[i], items[col[i].index].residual, feature);
    SlotsStep(o, col, p, nd.begin, i);
    GreaterIsStrictOrder(next.score, cur.score, nd.score);
    CutStep(cur, nd, col, p, feature, i, items[col[i].index].residual);
  }

  /** Writing entry `i` into the next slot extends the node's slots by
      it. */
  lemma SlotsStep(o: seq<SortedIndex>, col: seq<SortedIndex>, p: seq<int>, begin: int, i: int)
    requires 0 <= begin && begin + |p| < |o| && 0 <= i < |col|
    requires SlotsHold(o, col, p, begin)
    ensures SlotsHold(o[begin + |p| := col[i]], col, p + [i], begin)
  {
  }

  /** Scoring entry `i` keeps the cut recorded. */
  lemma CutStep(cur: TreeNode, nd: TreeNode, col: seq<SortedIndex>, p: seq<int>, feature: int, i: int, r: real)
    requires 0 <= i < |col| && cur.grow == nd.begin + |p|
    requires CutRecorded(cur, nd, col, p, feature)
    ensures CutRecorded(Stepped(cur, col[i], r, feature), nd, col, p + [i], feature)
  {
    var next := Stepped(cur, col[i], r, feature);
    if next.fidx == cur.fidx && next.split == cur.split && next.splitId == cur.splitId {
      if cur.fidx == feature && nd.begin <= cur.split < nd.begin + |p| {
        assert (p + [i])[cur.split - nd.begin] == p[cur.split - nd.begin];
      }
    } else {
      assert next.split == cur.grow && (p + [i])[next.split - nd.begin] == i;
    }
  }

  /** Any other node keeps its state through entry `i`, which writes
      outside its filled slots. */
  lemma ScanStepOther(cur: TreeNode, nd: TreeNode, o: seq<SortedIndex>, col: seq<SortedIndex>, items: seq<LegacyItem>,
                      buf: seq<bv8>, m: int, i: nat, feature: int, o': seq<SortedIndex>)
    requires ColumnIn(col, items, buf) && i < |col| && !Owns(col, items, buf, m, i)
    requires NodeAt(cur, nd, o, col, items, buf, m, i, feature)
    requires |o'| == |o| && forall x :: nd.begin <= x < cur.grow ==> o'[x] == o[x]
    ensures NodeAt(cur, nd, o', col, items, buf, m, i + 1, feature)
  {
    assert Positions(col, items, buf, m, i + 1) == Positions(col, items, buf, m, i);
  }

  /** An entry outside the sample keeps the scan state. */
  lemma ScanStepSkip(t0: seq<TreeNode>, t: seq<TreeNode>, o: seq<SortedIndex>, col: seq<SortedIndex>, items: seq<LegacyItem>,
                     buf: seq<bv8>, all: int, feature: int, i: nat)
    requires ColumnIn(col, items, buf) && i < |col| && !IsSet(buf, col[i].index)
    requires ScanInv(t0, t, o, col, items, buf, all, feature, i)
    ensures ScanInv(t0, t, o, col, items, buf, all, feature, i + 1)
  {
    forall n | 0 <= n < all
      ensures NodeAt(t[n], t0[n], o, col, items, buf, n, i + 1, feature)
    {
      ScanStepOther(t[n], t0[n], o, col, items, buf, n, i, feature, o);
    }
  }

  /** A sampled entry whose node has room keeps the scan state. */
  lemma ScanStepTake(t0: seq<TreeNode>, t: seq<TreeNode>, o: seq<SortedIndex>, col: seq<SortedIndex>, items: seq<LegacyItem>,
                     buf: seq<bv8>, all: int, feature: int, i: nat, nid: int)
    requires ScanReady(t0, col, items, buf, all, |o|) && i < |col|
    requires IsSet(buf, col[i].index) && nid == items[col[i].index].node
    requires ScanInv(t0, t, o, col, items, buf, all, feature, i) && t[nid].grow < t[nid].end
    ensures ScanInv(t0, t[nid := Stepped(t[nid], col[i], items[col[i].index].residual, feature)],
                    o[t[nid].grow := col[i]], col, items, buf, all, feature, i + 1)
  {
    var g := t[nid].grow;
    var next := Stepped(t[nid], col[i], items[col[i].index].residual, feature);
    var o' := o[g := col[i]];
    assert NodeAt(t[nid], t0[nid], o, col, items, buf, nid, i, feature);
    ScanStepOwner(t[nid], t0[nid], o, col, items, buf, nid, i, feature);
    assert i in Positions(col, items, buf, nid, i + 1);
    PositionsGrow(col, items, buf, nid, i + 1, |col|);
    OthersStep(t0, t, o, col, items, buf, all, feature, i, nid, g, col[i]);
    ScanInvUpdate(t0, t, o', col, items, buf, all, feature, i + 1, nid, next);
  }

  /** Every node other than `nid` keeps its state through entry `i`. */
  lemma OthersStep(t0: seq<TreeNode>, t: seq<TreeNode>, o: seq<SortedIndex>, col: seq<SortedIndex>, items: seq<LegacyItem>,
                   buf: seq<bv8>, all: int, feature: int, i: nat, nid: int, g: int, e: SortedIndex)
    requires ScanReady(t0, col, items, buf, all, |o|) && i < |col|
    requires ScanInv(t0, t, o, col, items, buf, all, feature, i)
    requires 0 <= nid < all && Owner(col, items, buf, nid)
    requires IsSet(buf, col[i].index) && items[col[i].index].node == nid
    requires t0[nid].begin <= g < t0[nid].end
    ensures forall m :: 0 <= m < all && m != nid ==> NodeAt(t[m], t0[m], o[g := e], col, items, buf, m, i + 1, feature)
  {
    forall m | 0 <= m < all && m != nid
      ensures NodeAt(t[m], t0[m], o[g := e], col, items, buf, m, i + 1, feature)
    {
      OtherKept(t0, t, o, col, items, buf, all, feature, i, nid, m, g);
      ScanStepOther(t[m], t0[m], o, col, items, buf, m, i, feature, o[g := e]);
    }
  }

  /** The scan state with node `nid` replaced by a node in its step. */
  lemma ScanInvUpdate(t0: seq<TreeNode>, t: seq<TreeNode>, o: seq<SortedIndex>, col: seq<SortedIndex>, items: seq<LegacyItem>,
                      buf: seq<bv8>, all: int, feature: int, i: nat, nid: int, next: TreeNode)
    requires ColumnIn(col, items, buf) && i <= |col| && |t| == |t0| && 0 <= nid < all <= |t|
    requires forall m :: 0 <= m < all && m != nid ==> NodeAt(t[m], t0[m], o, col, items, buf, m, i, feature)
    requires NodeAt(next, t0[nid], o, col, items, buf, nid, i, feature)
    requires forall n :: all <= n < |t| ==> t[n] == t0[n]
    ensures ScanInv(t0, t[nid := next], o, col, items, buf, all, feature, i)
  {
  }

  /** The slot entry `i` goes to lies outside the filled slots of every
      other node. */
  lemma OtherKept(t0: seq<TreeNode>, t: seq<TreeNode>, o: seq<SortedIndex>, col: seq<SortedIndex>, items: seq<LegacyItem>,
                  buf: seq<bv8>, all: int, feature: int, i: nat, nid: int, m: int, g: int)
    requires ScanReady(t0, col, items, buf, all, |o|) && i < |col|
    requires ScanInv(t0, t, o, col, items, buf, all, feature, i)
    requires 0 <= nid < all && 0 <= m < all && m != nid && Owner(col, items, buf, nid)
    requires IsSet(buf, col[i].index) && items[col[i].index].node == nid
    requires t0[nid].begin <= g < t0[nid].end
    ensures !Owns(col, items, buf, m, i) && !(t0[m].begin <= g < t[m].grow)
  {
    assert NodeAt(t[m], t0[m], o, col, items, buf, m, i, feature);
    if t[m].grow > t0[m].begin {
      PositionsGrow(col, items, buf, m, i, |col|);
      assert Owner(col, items, buf, m);
      assert Apart(t0[m], t0[nid]);
    }
  }

  /** A node without room for entry `i` has more rows than room. */
  lemma Overflow(t0: seq<TreeNode>, t: seq<TreeNode>, o: seq<SortedIndex>, col: seq<SortedIndex>, items: seq<LegacyItem>,
                 buf: seq<bv8>, all: int, feature: int, i: nat, nid: int)
    requires ColumnIn(col, items, buf) && i < |col| && 0 <= nid < all
    requires IsSet(buf, col[i].index) && nid == items[col[i].index].node
    requires ScanInv(t0, t, o, col, items, buf, all, feature, i) && t[nid].grow >= t[nid].end
    ensures !AllFit(t0, col, items, buf, all)
  {
    assert NodeAt(t[nid], t0[nid], o, col, items, buf, nid, i, feature);
    assert |Positions(col, items, buf, nid, i + 1)| == |Positions(col, items, buf, nid, i)| + 1;
    PositionsGrow(col, items, buf, nid, i + 1, |col|);
  }

  /** A scan that ran to the end found room for every row. */
  lemma Fitted(t0: seq<TreeNode>, t: seq<TreeNode>, o: seq<SortedIndex>, col: seq<SortedIndex>, items: seq<LegacyItem>,
               buf: seq<bv8>, all: int, feature: int)
    requires ColumnIn(col, items, buf)
    requires ScanInv(t0, t, o, col, items, buf, all, feature, |col|)
    ensures AllFit(t0, col, items, buf, all)
  {
    forall n | 0 <= n < all
      ensures t0[n].begin + |Positions(col, items, buf, n, |col|)| <= t0[n].end
    {
      assert NodeAt(t[n], t0[n], o, col, items, buf, n, |col|, feature);
    }
  }

  /** Entry `i` of the loop, with the proof that it keeps the scan state. */
  method ScanStepAt(tree: array<TreeNode>, out: array<SortedIndex>, col: seq<SortedIndex>, items: seq<LegacyItem>,
                    buf: seq<bv8>, all: int, feature: int, i: nat, sameKey: int, ghost t0: seq<TreeNode>) returns (ok: bool, next: nat)
    requires tree as object != out && sameKey == InvalidSameKey
    requires ScanReady(t0, col, items, buf, all, out.Length) && i < |col|
    requires ScanInv(t0, tree[..], out[..], col, items, buf, all, feature, i)
    modifies tree, out
    ensures next == i + 1
    ensures ok ==> ScanInv(t0, tree[..], out[..], col, items, buf, all, feature, next)
    ensures !ok ==> !AllFit(t0, col, items, buf, all)
  {
    next := i + 1;
    if !IsSet(buf, col[i].index) {
      ScanStepSkip(t0, tree[..], out[..], col, items, buf, all, feature, i);
    } else {
      var nid := items[col[i].index].node;
      assert NodeAt(tree[nid], t0[nid], out[..], col, items, buf, nid, i, feature);
      if tree[nid].grow < tree[nid].end {
        ScanStepTake(t0, tree[..], out[..], col, items, buf, all, feature, i, nid);
      } else {
        Overflow(t0, tree[..], out[..], col, items, buf, all, feature, i, nid);
      }
    }
    ok := ScanEntry(tree, out, col, items, buf, all, feature, i, sameKey);
  }

  /** Before the first entry every node is as the reset left it. */
  lemma ScanStart(t0: seq<TreeNode>, o: seq<SortedIndex>, col: seq<SortedIndex>, items: seq<LegacyItem>,
                  buf: seq<bv8>, all: int, feature: int)
    requires ScanReady(t0, col, items, buf, all, |o|)
    ensures ScanInv(t0, t0, o, col, items, buf, all, feature, 0)
  {
  }

  /** The scan loop of the older worker over one feature's column, from
      the state the reset left. It stops the process (ok = false) exactly
      when some node has more sampled rows than room; otherwise every node
      holds its rows in its slots in column order, and a node whose cut
      changed records the job's feature at an entry starting a run. */
  method ScanColumn(tree: array<TreeNode>, out: array<SortedIndex>, col: seq<SortedIndex>, items: seq<LegacyItem>,
                    buf: seq<bv8>, all: int, feature: int) returns (ok: bool)
    requires tree as object != out
    requires ScanReady(tree[..], col, items, buf, all, out.Length)
    modifies tree, out
    ensures ok <==> AllFit(old(tree[..]), col, items, buf, all)
    ensures ok ==> ScanInv(old(tree[..]), tree[..], out[..], col, items, buf, all, feature, |col|)
  {
    ghost var t0 := tree[..];
    var sameKey := InvalidSameKey;
    ScanStart(t0, out[..], col, items, buf, all, feature);
    var i := 0;
    while i < |col|
      invariant 0 <= i <= |col| && sameKey == InvalidSameKey
      invariant ScanInv(t0, tree[..], out[..], col, items, buf, all, feature, i)
    {
      if !col[i].same {
        sameKey := InvalidSameKey;
      }
      var next;
      ok, next := ScanStepAt(tree, out, col, items, buf, all, feature, i, sameKey, t0);
      if !ok {
        return;
      }
      i := next;
    }
    Fitted(t0, tree[..], out[..], col, items, buf, all, feature);
    ok := true;
  }

  // ---------------------------------------------------------------------
  // The whole job.

  /** What the job needs of the tree it copied: the scan's needs, except
      that the cursors are reset by the job itself. */
  predicate JobReady(t: seq<TreeNode>, col: seq<SortedIndex>, items: seq<LegacyItem>, buf: seq<bv8>, all: int, outLen: int) {
    && ColumnIn(col, items, buf)
    && 0 <= all <= |t|
    && (forall j :: 0 <= j < |col| && IsSet(buf, col[j].index) ==> 0 <= items[col[j].index].node < all)
    && (forall n :: 0 <= n < all ==> 0 <= t[n].begin <= t[n].end <= outLen)
    && (forall n1, n2 ::
          (0 <= n1 < all && 0 <= n2 < all && n1 != n2 && Owner(col, items, buf, n1) && Owner(col, items, buf, n2)) ==>
          Apart(t[n1], t[n2]))
  }

  /** The tree after the two reset loops. */
  function ResetAll(t: seq<TreeNode>, all: int, beg: int, end: int): (r: seq<TreeNode>)
    ensures |r| == |t|
  {
    seq(|t|, n requires 0 <= n < |t| => if n < all then ResetNode(t[n], beg <= n < end) else t[n])
  }

  lemma ResetIsReady(t: seq<TreeNode>, col: seq<SortedIndex>, items: seq<LegacyItem>, buf: seq<bv8>,
                     all: int, beg: int, end: int, outLen: int)
    requires JobReady(t, col, items, buf, all, outLen)
    ensures ScanReady(ResetAll(t, all, beg, end), col, items, buf, all, outLen)
    ensures forall n :: 0 <= n < all ==>
      ResetAll(t, all, beg, end)[n].begin == t[n].begin && ResetAll(t, all, beg, end)[n].end == t[n].end
  {
    var r := ResetAll(t, all, beg, end);
    forall n | 0 <= n < all
      ensures r[n].begin == t[n].begin && r[n].end == t[n].end && r[n].grow == r[n].begin && r[n].sameKey == InvalidSameKey
    {
      ResetNodeFacts(t[n], beg <= n < end);
    }
  }

  /** A layer node after the scan: the end moves to the cursor and the
      score becomes the mean squared error; the feature is left as the
      scan left it. */
  function LegacyFinal(nd: TreeNode): TreeNode {
    nd.(end := nd.grow, score := Mse(nd.squareSum, nd.score, nd.cnt))
  }

  /** The last loop of the worker. */
  method FinishLayer(tree: array<TreeNode>, beg: int, end: int)
    requires 0 <= beg <= end <= tree.Length
    modifies tree
    ensures forall n :: 0 <= n < tree.Length ==>
      tree[n] == if beg <= n < end then LegacyFinal(old(tree[n])) else old(tree[n])
  {
    for n := beg to end
      invariant forall k :: 0 <= k < tree.Length ==>
        tree[k] == if beg <= k < n then LegacyFinal(old(tree[k])) else old(tree[k])
    {
      tree[n] := tree[n].(end := tree[n].grow, score := Mse(tree[n].squareSum, tree[n].score, tree[n].cnt));
    }
  }

  /** The tree after the last loop. */
  function FinishAll(t: seq<TreeNode>, beg: int, end: int): (r: seq<TreeNode>)
    ensures |r| == |t|
  {
    seq(|t|, n requires 0 <= n < |t| => if beg <= n < end then LegacyFinal(t[n]) else t[n])
  }

  /** `__worker_layer_processor` of the older trainer. An unselected job
      does nothing. A selected one resets the cursors, scans the column
      and finishes the layer nodes; it stops the process (ok = false)
      exactly when a node has more sampled rows than room. `scanned` is
      the tree between the scan and the last loop. */
  method Worker(tree: array<TreeNode>, out: array<SortedIndex>, col: seq<SortedIndex>, items: seq<LegacyItem>,
                buf: seq<bv8>, selected: bool, feature: int, beg: int, end: int, all: int)
    returns (ok: bool, ghost scanned: seq<TreeNode>)
    requires tree as object != out
    requires 0 <= beg <= end <= all
    requires selected ==> JobReady(tree[..], col, items, buf, all, out.Length)
    modifies tree, out
    ensures !selected ==> ok && unchanged(tree) && unchanged(out)
    ensures selected ==> (ok <==> AllFit(old(tree[..]), col, items, buf, all))
    ensures selected && ok ==>
      ScanInv(ResetAll(old(tree[..]), all, beg, end), scanned, out[..], col, items, buf, all, feature, |col|) &&
      tree[..] == FinishAll(scanned, beg, end)
  {
    scanned := tree[..];
    if !selected {
      return true, scanned;
    }
    ghost var t := tree[..];
    ResetIsReady(t, col, items, buf, all, beg, end, out.Length);
    ResetCursors(tree, all, beg, end);
    assert tree[..] == ResetAll(t, all, beg, end);
    ok := ScanColumn(tree, out, col, items, buf, all, feature);
    assert AllFit(ResetAll(t, all, beg, end), col, items, buf, all) <==> AllFit(t, col, items, buf, all);
    if !ok {
      return;
    }
    scanned := tree[..];
    FinishLayer(tree, beg, end);
    assert tree[..] == FinishAll(scanned, beg, end);
  }

  // ---------------------------------------------------------------------
  // What a recorded cut means.

  /** A cut the older scan records never splits equal values within its
      node: on a column built from sorted pairs, every row the node placed
      before the cut has a strictly smaller value for the feature than
      every row at or after it. */
  lemma RecordedCutSeparates(cur: TreeNode, nd: TreeNode, o: seq<SortedIndex>, col: seq<SortedIndex>, items: seq<LegacyItem>,
                             buf: seq<bv8>, n: int, feature: int, ps: seq<FeatureInfo>)
    requires ColumnIn(col, items, buf) && SortedByValue(ps) && MarkedFrom(col, ps)
    requires NodeAt(cur, nd, o, col, items, buf, n, |col|, feature) && cur.fidx == feature != nd.fidx
    ensures var p := Positions(col, items, buf, n, |col|);
      && nd.begin <= cur.split < cur.grow == nd.begin + |p|
      && (forall a :: 0 <= a < |p| ==> o[nd.begin + a].index == ps[p[a]].index)
      && (forall a, b :: 0 <= a < cur.split - nd.begin <= b < |p| ==> ps[p[a]].value < ps[p[b]].value)
  {
    var p := Positions(col, items, buf, n, |col|);
    assert SlotsHold(o, col, p, nd.begin) && CutRecorded(cur, nd, col, p, feature);
    var k := cur.split - nd.begin;
    assert 0 <= k < |p| && !col[p[k]].same;
    CutOnPositions(ps, col, p, k);
    forall a | 0 <= a < |p|
      ensures o[nd.begin + a].index == ps[p[a]].index
    {
      assert o[nd.begin + a] == col[p[a]];
    }
  }

  /** The same on any increasing positions of the column, cut at an
      unmarked entry. */
  lemma CutOnPositions(ps: seq<FeatureInfo>, col: seq<SortedIndex>, p: seq<int>, k: int)
    requires SortedByValue(ps) && MarkedFrom(col, ps)
    requires forall a :: 0 <= a < |p| ==> 0 <= p[a] < |col|
    requires forall a, b :: 0 <= a < b < |p| ==> p[a] < p[b]
    requires 0 <= k < |p| && !col[p[k]].same
    ensures forall a, b :: 0 <= a < k <= b < |p| ==> ps[p[a]].value < ps[p[b]].value
  {
    UnmarkedSeparates(ps, col, p[k]);
    forall a, b | 0 <= a < k <= b < |p|
      ensures ps[p[a]].value < ps[p[b]].value
    {
      assert p[a] < p[k];
      assert p[k] <= p[b];
    }
  }
}
