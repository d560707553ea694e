/** The training loops of the gradient-boosted trees (`train` in
    src/models/gbdt.h): per layer, the feature jobs are selected and run and
    the rows move down; per tree, the root takes the sampled rows, the
    layers grow, every node gets its mean and the sampled rows' residuals
    shrink by the mean of their leaf. */
module GbdtGrow {
  import opened GbdtNode
  import opened GbdtScan
  import opened GbdtWorker
  import opened GbdtRows
  import opened GbdtTrain

  // ---------------------------------------------------------------------
  // Feature selection.

  /** How many of the flags in `s` are set. */
  function CountTrue(s: seq<bool>): (c: nat)
    ensures c <= |s|
  {
    if s == [] then 0 else CountTrue(s[..|s| - 1]) + (if s[|s| - 1] then 1 else 0)
  }

  /** The selection of one layer over `|draws|` features with the cap
      `cap` (`_dim_count * _sample_feature`): a feature is selected when it
      is not masked, its random draw (`_sample(_sample_feature)`) came out
      true, and fewer than `cap` features before it were selected. */
  predicate Selection(sel: seq<bool>, mask: set<int>, draws: seq<bool>, cap: real) {
    |sel| == |draws| && SelectedUpTo(sel, mask, draws, cap)
  }

  /** The flags in `sel` follow the selection rule. */
  predicate SelectedUpTo(sel: seq<bool>, mask: set<int>, draws: seq<bool>, cap: real)
    requires |sel| <= |draws|
  {
    forall d :: 0 <= d < |sel| ==>
      (sel[d] <==> d !in mask && draws[d] && (CountTrue(sel[..d]) as real) < cap)
  }

  /** Deciding one more feature by the rule keeps the flags following it. */
  lemma {:induction false} SelectedStep(sel: seq<bool>, s: bool, mask: set<int>, draws: seq<bool>, cap: real)
    requires |sel| < |draws| && SelectedUpTo(sel, mask, draws, cap)
    requires s <==> |sel| !in mask && draws[|sel|] && (CountTrue(sel) as real) < cap
    ensures SelectedUpTo(sel + [s], mask, draws, cap)
    ensures CountTrue(sel + [s]) == CountTrue(sel) + (if s then 1 else 0)
  {
    var t := sel + [s];
    assert t[..|sel|] == sel;
    forall d | 0 <= d < |sel|
      ensures t[..d] == sel[..d]
    {
    }
  }

  /** Some feature job of the layer is selected. */
  predicate AnySelected(sel: seq<bool>) {
    exists e :: 0 <= e < |sel| && sel[e]
  }

  /** The job trees: one per feature, each as long as the master tree, no
      two the same array and none the master itself. */
  predicate JobTrees(jobs: array<array<TreeNode>>, master: array<TreeNode>)
    reads jobs
  {
    && (forall d :: 0 <= d < jobs.Length ==> jobs[d] != master && jobs[d].Length == master.Length)
    && (forall d, e :: 0 <= d < e < jobs.Length ==> jobs[d] != jobs[e])
  }

  /** `memcpy` of a whole tree. */
  method CopyTree(dst: array<TreeNode>, src: array<TreeNode>)
    requires dst != src && dst.Length == src.Length
    modifies dst
    ensures dst[..] == src[..]
  {
    for i := 0 to dst.Length
      invariant forall k :: 0 <= k < i ==> dst[k] == src[k]
    {
      dst[i] := src[i];
    }
  }

  /** The selection loop of a layer: it draws for every unmasked feature,
      selects within the cap, and copies the master tree into the job tree
      of each selected feature. */
  method SelectJobs(jobs: array<array<TreeNode>>, master: array<TreeNode>, mask: set<int>, draws: seq<bool>,
                    sampleFeature: real) returns (sel: seq<bool>)
    requires JobTrees(jobs, master) && |draws| == jobs.Length
    modifies set d | 0 <= d < jobs.Length :: jobs[d]
    ensures Selection(sel, mask, draws, (jobs.Length as real) * sampleFeature)
    ensures forall d :: 0 <= d < jobs.Length && sel[d] ==> jobs[d][..] == master[..]
    ensures forall d :: 0 <= d < jobs.Length && !sel[d] ==> jobs[d][..] == old(jobs[d][..])
  {
    sel := [];
    var count := 0;
    var cap := (jobs.Length as real) * sampleFeature;
    for d := 0 to jobs.Length
      invariant |sel| == d && count == CountTrue(sel)
      invariant SelectedUpTo(sel, mask, draws, cap)
      invariant forall e :: 0 <= e < d && sel[e] ==> jobs[e][..] == master[..]
      invariant forall e :: 0 <= e < jobs.Length && (d <= e || !sel[e]) ==> jobs[e][..] == old(jobs[e][..])
    {
      // A masked feature is skipped before its draw.
      var s := d !in mask && draws[d] && (count as real) < cap;
      SelectedStep(sel, s, mask, draws, cap);
      if s {
        CopyTree(jobs[d], master);
        count := count + 1;
      }
      sel := sel + [s];
    }
  }

  /** Counting the flags of a prefix one more entry in. */
  lemma {:induction false} CountTrueStep(s: seq<bool>, d: int)
    requires 0 <= d < |s|
    ensures CountTrue(s[..d + 1]) == CountTrue(s[..d]) + (if s[d] then 1 else 0)
  {
    assert s[..d + 1][..d] == s[..d];
  }

  /** The cap holds: when the last selected feature was taken, fewer than
      `cap` features were selected before it. */
  lemma {:induction false} SelectionCap(sel: seq<bool>, mask: set<int>, draws: seq<bool>, cap: real)
    requires Selection(sel, mask, draws, cap)
    ensures CountTrue(sel) == 0 || ((CountTrue(sel) - 1) as real) < cap
  {
    var d := |sel|;
    assert sel[..d] == sel;
    while d > 0 && !sel[d - 1]
      invariant 0 <= d <= |sel|
      invariant CountTrue(sel[..d]) == CountTrue(sel)
      decreases d
    {
      CountTrueStep(sel, d - 1);
      d := d - 1;
    }
    if d > 0 {
      CountTrueStep(sel, d - 1);
    }
  }

  /** The selection is determined by the draws: two selections from the
      same mask, draws and rate agree. */
  lemma {:induction false} SelectionUnique(s1: seq<bool>, s2: seq<bool>, mask: set<int>, draws: seq<bool>, cap: real)
    requires Selection(s1, mask, draws, cap) && Selection(s2, mask, draws, cap)
    ensures s1 == s2
  {
    var dim := |draws|;
    var d := 0;
    while d < dim
      invariant 0 <= d <= dim && s1[..d] == s2[..d]
    {
      assert s1[..d + 1] == s1[..d] + [s1[d]];
      assert s2[..d + 1] == s2[..d] + [s2[d]];
      d := d + 1;
    }
    assert s1 == s1[..dim] && s2 == s2[..dim];
  }

  // ---------------------------------------------------------------------
  // One layer.

  /** The rows of `rows` carrying the sides the committed master `m` gives
      them, as the layer's jobs tag them. */
  ghost function Tagged(m: seq<TreeNode>, rows: seq<ItemInfo>, cols: seq<seq<SortedIndex>>, smp: Sampling,
                        beg: int, end: int): (t: seq<ItemInfo>)
    requires ColumnsCover(cols, |rows|)
    ensures |t| == |rows|
  {
    seq(|rows|, r requires 0 <= r < |rows| => rows[r].(turn := TurnOf(m, rows, cols, smp, beg, end, r)))
  }

  /** After the jobs of a layer the row table is the tagged one. */
  lemma {:induction false} InfoIsTagged(m: seq<TreeNode>, info: seq<ItemInfo>, snap: seq<TreeNode>, rows: seq<ItemInfo>,
                                        cols: seq<seq<SortedIndex>>, sel: seq<bool>, smp: Sampling,
                                        layer: nat, beg: int, end: int, any: bool)
    requires TreeInv(snap, rows, smp, layer, beg, end)
    requires ColumnsCover(cols, |rows|) && |sel| == |cols|
    requires beg < end ==> Right(end - 1) < |snap|
    requires LayerJobs(m, info, snap, rows, cols, sel, smp, beg, end, any, |cols|)
    ensures info == Tagged(m, rows, cols, smp, beg, end)
  {
    var t := Tagged(m, rows, cols, smp, beg, end);
    forall r | 0 <= r < |rows|
      ensures info[r] == t[r]
    {
      if !any {
        var n := rows[r].node;
        if beg <= n < end && 0 <= n < |m| {
          assert Fresh(snap[n]);
        }
      }
    }
  }

  /** Job `d` of a layer on its tree `tree`: a selected job runs the
      worker and keeps the job-loop invariant with a selected job behind
      it; an unselected one changes nothing. */
  method RunJob(tree: array<TreeNode>, master: array<TreeNode>, iinfo: array<ItemInfo>,
                cols: seq<seq<SortedIndex>>, sel: seq<bool>, smp: Sampling, layer: nat, beg: int, end: int,
                d: int, ghost any: bool, ghost snap: seq<TreeNode>, ghost rows: seq<ItemInfo>)
      returns (next: int)
    requires tree != master && tree.Length == master.Length
    requires TreeInv(snap, rows, smp, layer, beg, end)
    requires ColumnsCover(cols, |rows|) && |rows| < InvalidSameKey && |sel| == |cols| && 0 <= d < |cols|
    requires beg < end ==> Right(end - 1) < |snap|
    requires sel[d] ==> tree[..] == snap
    requires LayerJobs(master[..], iinfo[..], snap, rows, cols, sel, smp, beg, end, any, d)
    modifies tree, master, iinfo
    ensures next == d + 1
    ensures LayerJobs(master[..], iinfo[..], snap, rows, cols, sel, smp, beg, end, any || sel[d], next)
  {
    next := d + 1;
    ghost var m := master[..];
    ghost var info := iinfo[..];
    if sel[d] {
      ReadyFromInv(snap, rows, info, smp, layer, beg, end, cols[d]);
    }
    Worker(tree, master, iinfo, cols[d], smp, d, sel[d], end, beg, end);
    if sel[d] {
      JobStep(m, info, master[..], iinfo[..], snap, rows, cols, sel, smp, layer, beg, end, any, d);
    } else {
      assert master[..] == m && iinfo[..] == info;
      JobSkipped(m, info, snap, rows, cols, sel, smp, beg, end, any, d);
    }
  }

  /** One more job looked at: some job so far is selected when one was
      before or this one is. */
  lemma AnySelectedStep(sel: seq<bool>, d: int, next: int)
    requires 0 <= d < |sel| && next == d + 1
    ensures AnySelected(sel[..next]) == (AnySelected(sel[..d]) || sel[d])
  {
    if sel[d] {
      assert sel[..next][d];
    }
    if AnySelected(sel[..d]) {
      var e :| 0 <= e < d && sel[..d][e];
      assert sel[..next][e];
    }
  }

  /** The jobs of a layer, run one after the other in feature order (the
      thread pool runs them in parallel; the master's node locks make each
      commit atomic). Every selected job's tree starts as the snapshot
      `snap` of the master. */
  method RunJobs(master: array<TreeNode>, iinfo: array<ItemInfo>, jobs: array<array<TreeNode>>,
                 cols: seq<seq<SortedIndex>>, sel: seq<bool>, smp: Sampling, layer: nat, beg: int, end: int,
                 ghost snap: seq<TreeNode>, ghost rows: seq<ItemInfo>)
    requires JobTrees(jobs, master) && jobs.Length == |cols| == |sel|
    requires TreeInv(snap, rows, smp, layer, beg, end)
    requires master[..] == snap && iinfo[..] == rows
    requires forall e :: 0 <= e < jobs.Length && sel[e] ==> jobs[e][..] == snap
    requires ColumnsCover(cols, |rows|) && |rows| < InvalidSameKey
    requires beg < end ==> Right(end - 1) < |snap|
    modifies master, iinfo, set d | 0 <= d < jobs.Length :: jobs[d]
    ensures LayerJobs(master[..], iinfo[..], snap, rows, cols, sel, smp, beg, end, AnySelected(sel), |cols|)
  {
    var d := 0;
    while d < jobs.Length
      invariant 0 <= d <= jobs.Length
      invariant forall e :: d <= e < jobs.Length && sel[e] ==> jobs[e][..] == snap
      invariant LayerJobs(master[..], iinfo[..], snap, rows, cols, sel, smp, beg, end, AnySelected(sel[..d]), d)
    {
      AnySelectedStep(sel, d, d + 1);
      d := RunJob(jobs[d], master, iinfo, cols, sel, smp, layer, beg, end, d, AnySelected(sel[..d]), snap, rows);
    }
    assert sel[..|sel|] == sel;
  }

  /** The post loop's node count: starting from `allNodeCount`, the count
      grows past the right child of every layer node that was split. */
  method CountNodes(master: array<TreeNode>, beg: int, end: int) returns (allNodeCount: int)
    requires 0 <= beg <= end <= master.Length && end <= Left(beg)
    ensures (forall n :: beg <= n < end ==> master[n].fidx >= 0) && beg < end ==> allNodeCount == Right(end - 1) + 1
    ensures (forall n :: beg <= n < end ==> master[n].fidx < 0) ==> allNodeCount == end
  {
    allNodeCount := end;
    for i := beg to end
      invariant (forall n :: beg <= n < i ==> master[n].fidx >= 0) && beg < i ==> allNodeCount == Right(i - 1) + 1
      invariant (forall n :: beg <= n < i ==> master[n].fidx < 0) ==> allNodeCount == end
      invariant end <= allNodeCount
    {
      if master[i].fidx >= 0 {
        if allNodeCount <= Right(i) {
          allNodeCount := Right(i) + 1;
        }
      }
    }
  }

  /** The row update of the post loop: every row moves to the child its
      turn names, and the turn clears. */
  method MoveRows(iinfo: array<ItemInfo>)
    modifies iinfo
    ensures forall r :: 0 <= r < iinfo.Length ==> iinfo[r] == Moved(old(iinfo[r]))
  {
    for i := 0 to iinfo.Length
      invariant forall r :: 0 <= r < i ==> iinfo[r] == Moved(old(iinfo[r]))
      invariant forall r :: i <= r < iinfo.Length ==> iinfo[r] == old(iinfo[r])
    {
      var x := iinfo[i];
      if x.turn == 1 {
        x := x.(node := Left(x.node));
      } else if x.turn == 2 {
        x := x.(node := Right(x.node));
      }
      iinfo[i] := x.(turn := 0);
    }
  }

  /** The split layer nodes after the jobs: all of them when some job was
      selected, none otherwise. */
  lemma {:induction false} LayerSplit(m: seq<TreeNode>, info: seq<ItemInfo>, snap: seq<TreeNode>, rows: seq<ItemInfo>,
                                      cols: seq<seq<SortedIndex>>, sel: seq<bool>, smp: Sampling,
                                      layer: nat, beg: int, end: int, any: bool)
    requires TreeInv(snap, rows, smp, layer, beg, end)
    requires ColumnsCover(cols, |rows|) && |sel| == |cols|
    requires beg < end ==> Right(end - 1) < |snap|
    requires LayerJobs(m, info, snap, rows, cols, sel, smp, beg, end, any, |cols|)
    ensures any ==> forall n :: beg <= n < end ==> m[n].fidx >= 0
    ensures !any ==> forall n :: beg <= n < end ==> m[n].fidx < 0
  {
    forall n | beg <= n < end
      ensures any ==> m[n].fidx >= 0
      ensures !any ==> m[n].fidx < 0
    {
      if any {
        assert NodeChosen(m, snap, rows, cols, sel, smp, n, |cols|);
      } else {
        assert Fresh(snap[n]);
      }
    }
  }

  /** Only the nodes below `top` are split, each on a feature below
      `dim`. */
  predicate SplitsBelow(m: seq<TreeNode>, top: int, dim: int) {
    forall n :: 0 <= n < |m| && m[n].fidx != -1 ==> n < top && 0 <= m[n].fidx < dim
  }

  /** After the jobs of a layer only the nodes above the next layer are
      split: a layer node takes a selected feature, its children are
      initialised without one, and every other node is as before. */
  lemma {:induction false} LayerSplits(m: seq<TreeNode>, info: seq<ItemInfo>, snap: seq<TreeNode>, rows: seq<ItemInfo>,
                                       cols: seq<seq<SortedIndex>>, sel: seq<bool>, smp: Sampling,
                                       layer: nat, beg: int, end: int, any: bool)
    requires TreeInv(snap, rows, smp, layer, beg, end)
    requires ColumnsCover(cols, |rows|) && |sel| == |cols|
    requires beg < end ==> Right(end - 1) < |snap|
    requires LayerJobs(m, info, snap, rows, cols, sel, smp, beg, end, any, |cols|)
    requires SplitsBelow(snap, beg, |cols|)
    ensures SplitsBelow(m, end, |cols|)
  {
    if any {
      forall k | 0 <= k < |m|
        ensures m[k].fidx != -1 ==> k < end && 0 <= m[k].fidx < |cols|
      {
        if beg <= k < end {
          assert NodeChosen(m, snap, rows, cols, sel, smp, k, |cols|);
        } else if k >= 1 && beg <= Parent(k) < end {
          var p := Parent(k);
          ParentIsInverse(k);
          assert NodeChosen(m, snap, rows, cols, sel, smp, p, |cols|);
          assert m[k].fidx == -1;
        } else {
          assert Untouched(k, beg, end);
          assert m[k] == snap[k];
        }
      }
    }
  }

  /** One layer of `train`: select the feature jobs and copy the master into
      their trees, run them, count the nodes of the next layer and move
      every row to the child its node's split sends it to. The master's
      layer nodes carry the best selected feature's split, the rows move as
      that split orders them, and the tree is ready for the next layer,
      which has nodes exactly when some job was selected. */
  method TrainLayer(master: array<TreeNode>, iinfo: array<ItemInfo>, jobs: array<array<TreeNode>>,
                    cols: seq<seq<SortedIndex>>, mask: set<int>, draws: seq<bool>, sampleFeature: real,
                    smp: Sampling, layer: nat, beg: int, end: int)
    returns (sel: seq<bool>, allNodeCount: int)
    requires JobTrees(jobs, master) && jobs.Length == |cols| == |draws|
    requires TreeInv(master[..], iinfo[..], smp, layer, beg, end) && Pow2(layer + 3) <= master.Length
    requires ColumnsCover(cols, iinfo.Length) && iinfo.Length < InvalidSameKey
    modifies master, iinfo, set d | 0 <= d < jobs.Length :: jobs[d]
    ensures Selection(sel, mask, draws, (jobs.Length as real) * sampleFeature)
    ensures allNodeCount == if AnySelected(sel) && beg < end then 2 * end + 1 else end
    ensures beg < end ==> Right(end - 1) < master.Length
    ensures LayerJobs(master[..], Tagged(master[..], old(iinfo[..]), cols, smp, beg, end), old(master[..]), old(iinfo[..]),
                      cols, sel, smp, beg, end, AnySelected(sel), |cols|)
    ensures forall r :: 0 <= r < iinfo.Length ==>
              iinfo[r] == Moved(Tagged(master[..], old(iinfo[..]), cols, smp, beg, end)[r])
    ensures TreeInv(master[..], iinfo[..], smp, layer + 1, end, allNodeCount)
  {
    ghost var snap := master[..];
    ghost var rows := iinfo[..];
    LayerFits(snap, rows, smp, layer, beg, end);
    sel := SelectJobs(jobs, master, mask, draws, sampleFeature);
    RunJobs(master, iinfo, jobs, cols, sel, smp, layer, beg, end, snap, rows);
    ghost var m := master[..];
    ghost var info := iinfo[..];
    ghost var any := AnySelected(sel);
    InfoIsTagged(m, info, snap, rows, cols, sel, smp, layer, beg, end, any);
    LayerSplit(m, info, snap, rows, cols, sel, smp, layer, beg, end, any);
    allNodeCount := CountNodes(master, beg, end);
    MoveRows(iinfo);
    if any && beg < end {
      LayerAdvance(m, info, snap, rows, iinfo[..], cols, sel, smp, layer, beg, end);
    } else {
      LayerStays(m, info, snap, rows, iinfo[..], cols, sel, smp, layer, beg, end, any);
    }
  }

  // ---------------------------------------------------------------------
  // One tree.

  lemma {:induction false} Pow2Mono(a: nat, b: nat)
    requires a <= b
    ensures Pow2(a) <= Pow2(b)
    decreases b
  {
    if a < b {
      Pow2Mono(a, b - 1);
    }
  }

  lemma {:induction false} OwnRowsLength(rows: seq<ItemInfo>, smp: Sampling, n: int, k: nat)
    requires k <= |rows|
    ensures |OwnRows(rows, smp, n, k)| <= k
  {
    if k > 0 {
      OwnRowsLength(rows, smp, n, k - 1);
    }
  }

  /** The table of rows the root loop leaves: every row in the root with no
      pending turn. */
  function AtRoot(rows: seq<ItemInfo>): (t: seq<ItemInfo>)
    ensures |t| == |rows|
  {
    seq(|rows|, r requires 0 <= r < |rows| => rows[r].(node := 0, turn := 0))
  }

  /** The root after the sampling loop starts the first layer. */
  lemma {:induction false} RootInv(m: seq<TreeNode>, rows: seq<ItemInfo>, smp: Sampling)
    requires Pow2(2) <= |m|
    requires forall r :: 0 <= r < |rows| ==> rows[r].node == 0 && rows[r].turn == 0
    requires var o := OwnRows(rows, smp, 0, |rows|);
      && InTable(rows, o)
      && Fresh(m[0]) && m[0].begin == 0 && m[0].end == m[0].cnt == |o| && m[0].sum == SumOver(rows, o)
    ensures TreeInv(m, rows, smp, 0, 0, 1)
  {
    OwnRowsLength(rows, smp, 0, |rows|);
    assert Pow2(1) == 2 by {
      assert Pow2(0) == 1;
    }
    assert Accounted(m[0], rows, smp, 0);
    OneNodeInv(m, rows, smp);
  }

  /** A tree whose only node is the root, holding every sampled row. */
  lemma OneNodeInv(m: seq<TreeNode>, rows: seq<ItemInfo>, smp: Sampling)
    requires Pow2(1) == 2 && Pow2(2) <= |m|
    requires forall r :: 0 <= r < |rows| ==> rows[r].node == 0 && rows[r].turn == 0
    requires 0 <= m[0].begin <= m[0].end <= |rows| && Fresh(m[0]) && Accounted(m[0], rows, smp, 0)
    ensures TreeInv(m, rows, smp, 0, 0, 1)
  {
    assert LayerRange(0, 0, 1);
  }

  /** One more row in the row-order count of node `n`. */
  lemma {:induction false} OwnRowsStep(rows: seq<ItemInfo>, smp: Sampling, n: int, i: nat, next: nat)
    requires i < |rows| && next == i + 1
    ensures var o := OwnRows(rows, smp, n, i);
      var o' := OwnRows(rows, smp, n, next);
      && InTable(rows, o) && InTable(rows, o')
      && (Sampled(smp, i) && rows[i].node == n ==>
            && o' == o + [i]
            && SumOver(rows, o') == SumOver(rows, o) + rows[i].residual
            && SumSqOver(rows, o') == SumSqOver(rows, o) + Square(rows[i].residual))
      && (!(Sampled(smp, i) && rows[i].node == n) ==> o' == o)
  {
    var o := OwnRows(rows, smp, n, i);
    OwnRowsMembers(rows, smp, n, i);
    OwnRowsMembers(rows, smp, n, next);
    if Sampled(smp, i) && rows[i].node == n {
      assert (o + [i])[..|o|] == o;
    } else {
      assert o + [] == o;
    }
  }

  /** The root loop of `train`: the root counts and sums the sampled rows,
      every row moves to the root with no pending turn, and the root's
      range becomes [0, sampled count). */
  method SampleRoot(master: array<TreeNode>, iinfo: array<ItemInfo>, smp: Sampling)
    requires 1 <= master.Length
    modifies master, iinfo
    ensures iinfo[..] == AtRoot(old(iinfo[..]))
    ensures var o := OwnRows(iinfo[..], smp, 0, iinfo.Length);
      && InTable(iinfo[..], o)
      && master[0] == Init(old(master[0]), 0, iinfo.Length).(end := |o|, cnt := |o|, sum := SumOver(iinfo[..], o),
                                                             squareSum := SumSqOver(iinfo[..], o))
    ensures forall k :: 1 <= k < master.Length ==> master[k] == old(master[k])
  {
    ghost var rows := AtRoot(iinfo[..]);
    master[0] := Init(master[0], 0, iinfo.Length);
    ghost var root := master[0];
    var count := 0;
    ghost var sum, squareSum := root.sum, root.squareSum;
    var i := 0;
    while i < iinfo.Length
      invariant 0 <= i <= iinfo.Length
      invariant forall r :: 0 <= r < iinfo.Length ==> iinfo[r] == if r < i then rows[r] else old(iinfo[r])
      invariant forall k :: 1 <= k < master.Length ==> master[k] == old(master[k])
      invariant var o := OwnRows(rows, smp, 0, i);
        && InTable(rows, o) && count == |o| && sum == SumOver(rows, o) && squareSum == SumSqOver(rows, o)
      invariant master[0] == root.(sum := sum, squareSum := squareSum)
    {
      var next := i + 1;
      OwnRowsStep(rows, smp, 0, i, next);
      iinfo[i] := iinfo[i].(node := 0, turn := 0);
      if Sampled(smp, i) {
        count := count + 1;
        var res := iinfo[i].residual;
        master[0] := master[0].(sum := master[0].sum + res, squareSum := master[0].squareSum + Square(res));
        sum, squareSum := sum + res, squareSum + Square(res);
      }
      i := next;
    }
    assert iinfo[..] == rows;
    master[0] := master[0].(cnt := count);
    master[0] := master[0].(end := master[0].cnt);
  }

  /** Every slot of the tree loses its feature before the first layer. */
  method ClearFeatures(master: array<TreeNode>)
    modifies master
    ensures forall k :: 0 <= k < master.Length ==> master[k] == old(master[k]).(fidx := -1)
  {
    for i := 0 to master.Length
      invariant forall k :: 0 <= k < i ==> master[k] == old(master[k]).(fidx := -1)
      invariant forall k :: i <= k < master.Length ==> master[k] == old(master[k])
    {
      master[i] := master[i].(fidx := -1);
    }
  }

  /** A node after the finalising loop: the mean of its sum over its count
      when it has rows, untouched otherwise. */
  function WithMean(nd: TreeNode): (r: TreeNode)
    ensures nd.cnt > 0 ==> r.mean == Average(nd.sum, nd.cnt)
    ensures r.(mean := nd.mean) == nd
  {
    if nd.cnt > 0 then nd.(mean := Average(nd.sum, nd.cnt)) else nd
  }

  /** The finalising loop of a tree. */
  method FinalizeMeans(master: array<TreeNode>)
    modifies master
    ensures forall k :: 0 <= k < master.Length ==> master[k] == WithMean(old(master[k]))
  {
    for i := 0 to master.Length
      invariant forall k :: 0 <= k < i ==> master[k] == WithMean(old(master[k]))
      invariant forall k :: i <= k < master.Length ==> master[k] == old(master[k])
    {
      if master[i].cnt > 0 {
        master[i] := master[i].(mean := Average(master[i].sum, master[i].cnt));
      }
    }
  }

  /** The residual update of a tree: every sampled row's residual shrinks by
      the shrinkage `sr` times the mean of its node; other rows keep theirs. */
  method UpdateResiduals(master: array<TreeNode>, iinfo: array<ItemInfo>, smp: Sampling, sr: real)
    requires forall r :: 0 <= r < iinfo.Length && Sampled(smp, r) ==> 0 <= iinfo[r].node < master.Length
    modifies iinfo
    ensures forall r :: 0 <= r < iinfo.Length ==>
      iinfo[r] == if Sampled(smp, r) then old(iinfo[r]).(residual := ShrinkBy(old(iinfo[r].residual), sr, master[old(iinfo[r].node)].mean))
                  else old(iinfo[r])
  {
    for i := 0 to iinfo.Length
      invariant forall r :: 0 <= r < i ==>
        iinfo[r] == if Sampled(smp, r) then old(iinfo[r]).(residual := ShrinkBy(old(iinfo[r].residual), sr, master[old(iinfo[r].node)].mean))
                    else old(iinfo[r])
      invariant forall r :: i <= r < iinfo.Length ==> iinfo[r] == old(iinfo[r])
    {
      if !Sampled(smp, i) {
        continue;
      }
      var predictValue := master[iinfo[i].node].mean;
      iinfo[i] := iinfo[i].(residual := ShrinkBy(iinfo[i].residual, sr, predictValue));
    }
  }

  /** Where the grown tree leaves a sampled row: in a node below `end` that
      holds it among its rows, whose count and sum are those of its rows. */
  lemma {:induction false} LeafOfRow(m: seq<TreeNode>, rows: seq<ItemInfo>, smp: Sampling, layer: nat, beg: int, end: int,
                                     r: int)
    requires TreeInv(m, rows, smp, layer, beg, end)
    requires 0 <= r < |rows| && Sampled(smp, r)
    ensures var n := rows[r].node;
      var o := OwnRows(rows, smp, n, |rows|);
      && 0 <= n < end < |m| && r in o
      && InTable(rows, o) && m[n].cnt == |o| > 0 && m[n].sum == SumOver(rows, o)
  {
    var n := rows[r].node;
    LayerFits(m, rows, smp, layer, beg, end);
    OwnRowsMembers(rows, smp, n, |rows|);
    assert Owns(rows, smp, n);
  }

  /** What a node of a grown tree holds for sampled row `r` of `rows`:
      the node counts the sampled rows it holds and sums their residuals in
      `start`. */
  ghost predicate HoldsRow(m: seq<TreeNode>, rows: seq<ItemInfo>, start: seq<ItemInfo>, smp: Sampling, r: int)
    requires 0 <= r < |rows|
  {
    var n := rows[r].node;
    var o := OwnRows(rows, smp, n, |rows|);
    && 0 <= n < |m| && r in o && InTable(start, o)
    && m[n].cnt == |o| > 0 && m[n].sum == SumOver(start, o)
  }

  /** What the finished tree holds for sampled row `r`: the node's mean is
      the average residual of its sampled rows, and the row's residual
      dropped by `sr` times that mean. */
  ghost predicate Finished(m: seq<TreeNode>, rows: seq<ItemInfo>, start: seq<ItemInfo>, smp: Sampling, sr: real, r: int)
    requires 0 <= r < |rows| && |start| == |rows|
  {
    var n := rows[r].node;
    var o := OwnRows(rows, smp, n, |rows|);
    && 0 <= n < |m| && r in o && InTable(start, o)
    && m[n].cnt == |o|
    && m[n].mean == Average(SumOver(start, o), |o|)
    && rows[r].residual == ShrinkBy(start[r].residual, sr, m[n].mean)
  }

  /** The means and the residual update finish a grown tree. */
  lemma {:induction false} FinishFacts(m0: seq<TreeNode>, m: seq<TreeNode>, rows: seq<ItemInfo>, rows': seq<ItemInfo>,
                                       start: seq<ItemInfo>, smp: Sampling, sr: real)
    requires |m| == |m0| && forall k :: 0 <= k < |m| ==> m[k] == WithMean(m0[k])
    requires |start| == |rows| == |rows'|
    requires forall r :: 0 <= r < |rows| ==> rows[r].residual == start[r].residual
    requires forall r :: 0 <= r < |rows| && Sampled(smp, r) ==> HoldsRow(m0, rows, start, smp, r)
    requires forall r :: 0 <= r < |rows| && Sampled(smp, r) ==> 0 <= rows[r].node < |m|
    requires forall r :: 0 <= r < |rows| ==>
      rows'[r] == if Sampled(smp, r) then rows[r].(residual := ShrinkBy(rows[r].residual, sr, m[rows[r].node].mean)) else rows[r]
    ensures forall r :: 0 <= r < |rows| && Sampled(smp, r) ==> Finished(m, rows', start, smp, sr, r)
  {
    forall r | 0 <= r < |rows| && Sampled(smp, r)
      ensures Finished(m, rows', start, smp, sr, r)
    {
      assert HoldsRow(m0, rows, start, smp, r);
      var n := rows[r].node;
      forall q | 0 <= q < |rows|
        ensures rows[q].node == rows'[q].node
      {
      }
      OwnRowsPrefix(rows, rows', smp, n, |rows|);
    }
  }

  /** The end of a tree: the means, then the residual update. Every
      sampled row's node counts and sums (over the residuals `start` the
      tree began with) the node's sampled rows. */
  method FinishTree(master: array<TreeNode>, iinfo: array<ItemInfo>, smp: Sampling, sr: real, ghost start: seq<ItemInfo>)
    requires |start| == iinfo.Length
    requires forall r :: 0 <= r < iinfo.Length ==> iinfo[r].residual == start[r].residual
    requires forall r :: 0 <= r < iinfo.Length && Sampled(smp, r) ==> HoldsRow(master[..], iinfo[..], start, smp, r)
    modifies master, iinfo
    ensures forall r :: 0 <= r < iinfo.Length ==> iinfo[r].node == old(iinfo[r].node) && iinfo[r].turn == old(iinfo[r].turn)
    ensures forall r :: 0 <= r < iinfo.Length && !Sampled(smp, r) ==> iinfo[r].residual == start[r].residual
    ensures forall r :: 0 <= r < iinfo.Length && Sampled(smp, r) ==> Finished(master[..], iinfo[..], start, smp, sr, r)
    ensures forall k :: 0 <= k < master.Length ==> master[k].fidx == old(master[k].fidx)
  {
    ghost var m0 := master[..];
    ghost var rows := iinfo[..];
    FinalizeMeans(master);
    forall r | 0 <= r < iinfo.Length && Sampled(smp, r)
      ensures 0 <= iinfo[r].node < master.Length
    {
      assert HoldsRow(m0, rows, start, smp, r);
    }
    UpdateResiduals(master, iinfo, smp, sr);
    FinishFacts(m0, master[..], rows, iinfo[..], start, smp, sr);
  }

  /** The layers of a tree, from the root's layer on. */
  method GrowLayers(master: array<TreeNode>, iinfo: array<ItemInfo>, jobs: array<array<TreeNode>>,
                    cols: seq<seq<SortedIndex>>, mask: set<int>, draws: seq<seq<bool>>, sampleFeature: real,
                    smp: Sampling, maxLayer: nat)
    returns (beg: int, end: int)
    requires JobTrees(jobs, master) && jobs.Length == |cols|
    requires master.Length == Pow2(maxLayer + 2)
    requires |draws| == maxLayer && forall l :: 0 <= l < maxLayer ==> |draws[l]| == jobs.Length
    requires ColumnsCover(cols, iinfo.Length) && iinfo.Length < InvalidSameKey
    requires TreeInv(master[..], iinfo[..], smp, 0, 0, 1)
    requires SplitsBelow(master[..], 0, |cols|)
    modifies master, iinfo, set d | 0 <= d < jobs.Length :: jobs[d]
    ensures TreeInv(master[..], iinfo[..], smp, maxLayer, beg, end)
    ensures SplitsBelow(master[..], beg, |cols|)
    ensures forall r :: 0 <= r < iinfo.Length ==> iinfo[r].residual == old(iinfo[r].residual)
  {
    beg, end := 0, 1;
    for l := 0 to maxLayer
      invariant TreeInv(master[..], iinfo[..], smp, l, beg, end)
      invariant SplitsBelow(master[..], beg, |cols|)
      invariant forall r :: 0 <= r < iinfo.Length ==> iinfo[r].residual == old(iinfo[r].residual)
    {
      Pow2Mono(l + 3, maxLayer + 2);
      var allNodeCount := GrowLayer(master, iinfo, jobs, cols, mask, draws[l], sampleFeature, smp, l, beg, end);
      beg, end := end, allNodeCount;
    }
  }

  /** One turn of the layer loop of `train`: the layer is trained, the
      tree invariant moves to the next layer, the residuals stay, and
      every split node lies before the layer's end. */
  method GrowLayer(master: array<TreeNode>, iinfo: array<ItemInfo>, jobs: array<array<TreeNode>>,
                   cols: seq<seq<SortedIndex>>, mask: set<int>, draws: seq<bool>, sampleFeature: real,
                   smp: Sampling, layer: nat, beg: int, end: int)
    returns (allNodeCount: int)
    requires JobTrees(jobs, master) && jobs.Length == |cols| == |draws|
    requires TreeInv(master[..], iinfo[..], smp, layer, beg, end) && Pow2(layer + 3) <= master.Length
    requires ColumnsCover(cols, iinfo.Length) && iinfo.Length < InvalidSameKey
    requires SplitsBelow(master[..], beg, |cols|)
    modifies master, iinfo, set d | 0 <= d < jobs.Length :: jobs[d]
    ensures TreeInv(master[..], iinfo[..], smp, layer + 1, end, allNodeCount)
    ensures SplitsBelow(master[..], end, |cols|)
    ensures forall r :: 0 <= r < iinfo.Length ==> iinfo[r].residual == old(iinfo[r].residual)
  {
    ghost var snap, rows := master[..], iinfo[..];
    LayerFits(snap, rows, smp, layer, beg, end);
    var sel;
    sel, allNodeCount := TrainLayer(master, iinfo, jobs, cols, mask, draws, sampleFeature, smp, layer, beg, end);
    LayerSplits(master[..], Tagged(master[..], rows, cols, smp, beg, end), snap, rows, cols, sel, smp,
                layer, beg, end, AnySelected(sel));
  }

  /** What a grown tree holds for every sampled row, with the residuals
      `start` the tree began with. */
  lemma {:induction false} GrownFacts(m: seq<TreeNode>, rows: seq<ItemInfo>, start: seq<ItemInfo>, smp: Sampling,
                                      layer: nat, beg: int, end: int)
    requires TreeInv(m, rows, smp, layer, beg, end)
    requires |start| == |rows| && forall r :: 0 <= r < |rows| ==> rows[r].residual == start[r].residual
    ensures forall r :: 0 <= r < |rows| && Sampled(smp, r) ==> HoldsRow(m, rows, start, smp, r)
  {
    forall r | 0 <= r < |rows| && Sampled(smp, r)
      ensures HoldsRow(m, rows, start, smp, r)
    {
      LeafOfRow(m, rows, smp, layer, beg, end, r);
      var o := OwnRows(rows, smp, rows[r].node, |rows|);
      SumOverSameResiduals(rows, start, o);
    }
  }

  /** No row has a pending turn at the start of a layer. */
  lemma {:induction false} LayerTurns(m: seq<TreeNode>, rows: seq<ItemInfo>, smp: Sampling, layer: nat, beg: int, end: int)
    requires TreeInv(m, rows, smp, layer, beg, end)
    ensures forall r :: 0 <= r < |rows| ==> rows[r].turn == 0
  {
  }

  /** One tree of `train`: the root takes the sampled rows, the features
      are cleared, `maxLayer` layers grow, every node with rows gets its
      mean, and every sampled row's residual shrinks by `sr` times the mean
      of the node it ends in, which is the average residual of that node's
      sampled rows. */
  method TrainTree(master: array<TreeNode>, iinfo: array<ItemInfo>, jobs: array<array<TreeNode>>,
                   cols: seq<seq<SortedIndex>>, mask: set<int>, draws: seq<seq<bool>>, sampleFeature: real,
                   smp: Sampling, maxLayer: nat, sr: real)
    requires JobTrees(jobs, master) && jobs.Length == |cols|
    requires master.Length == Pow2(maxLayer + 2)
    requires |draws| == maxLayer && forall l :: 0 <= l < maxLayer ==> |draws[l]| == jobs.Length
    requires ColumnsCover(cols, iinfo.Length) && iinfo.Length < InvalidSameKey
    modifies master, iinfo, set d | 0 <= d < jobs.Length :: jobs[d]
    ensures forall r :: 0 <= r < iinfo.Length ==> iinfo[r].turn == 0
    ensures forall r :: 0 <= r < iinfo.Length && !Sampled(smp, r) ==> iinfo[r].residual == old(iinfo[r].residual)
    ensures forall r :: 0 <= r < iinfo.Length && Sampled(smp, r) ==> Finished(master[..], iinfo[..], old(iinfo[..]), smp, sr, r)
    ensures SplitsFit(master[..], |cols|)
  {
    ghost var start := iinfo[..];
    Pow2Mono(2, maxLayer + 2);
    SampleRoot(master, iinfo, smp);
    ClearFeatures(master);
    RootInv(master[..], iinfo[..], smp);
    var beg, end := GrowLayers(master, iinfo, jobs, cols, mask, draws, sampleFeature, smp, maxLayer);
    GrownFacts(master[..], iinfo[..], start, smp, maxLayer, beg, end);
    LayerTurns(master[..], iinfo[..], smp, maxLayer, beg, end);
    GrownSplitsFit(master[..], iinfo[..], smp, maxLayer, beg, end, |cols|);
    FinishTree(master, iinfo, smp, sr, start);
  }

  /** In a tree grown through `layer` layers, every split node has its
      children inside the tree. */
  lemma {:induction false} GrownSplitsFit(m: seq<TreeNode>, rows: seq<ItemInfo>, smp: Sampling, layer: nat,
                                          beg: int, end: int, dim: int)
    requires TreeInv(m, rows, smp, layer, beg, end) && |m| == Pow2(layer + 2)
    requires SplitsBelow(m, beg, dim)
    ensures SplitsFit(m, dim)
  {
    Pow2Step(layer + 1);
  }

  // ---------------------------------------------------------------------
  // The ensemble.

  /** The residuals of a row table. */
  function Residuals(rows: seq<ItemInfo>): (res: seq<real>)
    ensures |res| == |rows| && forall r :: 0 <= r < |rows| ==> res[r] == rows[r].residual
  {
    seq(|rows|, r requires 0 <= r < |rows| => rows[r].residual)
  }

  /** The nodes of a row table. */
  function Nodes(rows: seq<ItemInfo>): (nodes: seq<int>)
    ensures |nodes| == |rows| && forall r :: 0 <= r < |rows| ==> nodes[r] == rows[r].node
  {
    seq(|rows|, r requires 0 <= r < |rows| => rows[r].node)
  }

  /** The row table with residuals `res` and nodes `nodes`. */
  function Table(res: seq<real>, nodes: seq<int>): (t: seq<ItemInfo>)
    requires |res| == |nodes|
    ensures |t| == |res| && forall r :: 0 <= r < |t| ==> t[r].residual == res[r] && t[r].node == nodes[r]
  {
    seq(|res|, r requires 0 <= r < |res| => ItemInfo(res[r], nodes[r], 0))
  }

  /** Tree `tree`, trained with sampling `smp` on residuals `res`, leaves
      every sampled row `r` in node `nodes[r]`, whose mean is the average
      residual of the sampled rows it holds, and the residuals become
      `res'`: a sampled row loses `sr` times its node's mean, other rows
      keep theirs. */
  ghost predicate TreeFit(tree: seq<TreeNode>, res: seq<real>, res': seq<real>, nodes: seq<int>, smp: Sampling, sr: real) {
    && |res| == |res'| == |nodes|
    && forall r :: 0 <= r < |res| ==>
      if Sampled(smp, r) then
        var t := Table(res, nodes);
        var n := nodes[r];
        var o := OwnRows(t, smp, n, |t|);
        && 0 <= n < |tree| && r in o && InTable(t, o)
        && tree[n].mean == Average(SumOver(t, o), |o|)
        && res'[r] == ShrinkBy(res[r], sr, tree[n].mean)
      else res'[r] == res[r]
  }

  /** What `TrainTree` promises, restated as a fit of the tree. */
  lemma {:induction false} TreeFitOf(tree: seq<TreeNode>, before: seq<ItemInfo>, after: seq<ItemInfo>, smp: Sampling, sr: real)
    requires |before| == |after|
    requires forall r :: 0 <= r < |after| && !Sampled(smp, r) ==> after[r].residual == before[r].residual
    requires forall r :: 0 <= r < |after| && Sampled(smp, r) ==> Finished(tree, after, before, smp, sr, r)
    ensures TreeFit(tree, Residuals(before), Residuals(after), Nodes(after), smp, sr)
  {
    var res := Residuals(before);
    var nodes := Nodes(after);
    var t := Table(res, nodes);
    forall r | 0 <= r < |res| && Sampled(smp, r)
      ensures var n := nodes[r];
        var o := OwnRows(t, smp, n, |t|);
        && 0 <= n < |tree| && r in o && InTable(t, o)
        && tree[n].mean == Average(SumOver(t, o), |o|)
    {
      assert Finished(tree, after, before, smp, sr, r);
      var n := nodes[r];
      OwnRowsPrefix(t, after, smp, n, |t|);
      var o := OwnRows(t, smp, n, |t|);
      SumOverSameResiduals(before, t, o);
    }
  }

  /** `count` new node arrays of `size` slots holding `uninit`, none of
      them one of the arrays `others`. */
  method NewTrees(count: nat, size: nat, uninit: TreeNode, others: seq<array<TreeNode>>)
    returns (ts: seq<array<TreeNode>>)
    ensures |ts| == count
    ensures forall i :: 0 <= i < count ==> fresh(ts[i]) && ts[i].Length == size
    ensures forall i, j :: 0 <= i < j < count ==> ts[i] != ts[j]
    ensures forall i, k :: 0 <= i < count && 0 <= k < |others| ==> ts[i] != others[k]
  {
    ts := [];
    for t := 0 to count
      invariant |ts| == t
      invariant forall i :: 0 <= i < t ==> fresh(ts[i]) && ts[i].Length == size
      invariant forall i, j :: 0 <= i < j < t ==> ts[i] != ts[j]
      invariant forall i, k :: 0 <= i < t && 0 <= k < |others| ==> ts[i] != others[k]
    {
      var a := new TreeNode[size](_ => uninit);
      ts := ts + [a];
    }
  }

  /** The tree loop of `train` over the node arrays `trees`, with the
      job trees `jobs` and the rows `iinfo`: tree `t` is grown with the
      sampling of tree `t` on the residuals the trees before it left.
      `hist[t]` are the residuals tree `t` starts from and `leaves[t]` the
      nodes it leaves the rows in. */
  method Boost(trees: array<array<TreeNode>>, jobs: array<array<TreeNode>>, iinfo: array<ItemInfo>,
               cols: seq<seq<SortedIndex>>, mask: set<int>, draws: seq<seq<seq<bool>>>,
               sampleFeature: real, sampleInstance: real, maxLayer: nat, sr: real)
    returns (ghost hist: seq<seq<real>>, ghost leaves: seq<seq<int>>)
    requires forall t :: 0 <= t < trees.Length ==> trees[t].Length == Pow2(maxLayer + 2) && JobTrees(jobs, trees[t])
    requires forall t, u :: 0 <= t < u < trees.Length ==> trees[t] != trees[u]
    requires jobs.Length == |cols| && ColumnsCover(cols, iinfo.Length) && iinfo.Length < InvalidSameKey
    requires |draws| == trees.Length
    requires forall t :: 0 <= t < trees.Length ==>
      |draws[t]| == maxLayer && forall l :: 0 <= l < maxLayer ==> |draws[t][l]| == |cols|
    modifies iinfo, set t | 0 <= t < trees.Length :: trees[t], set d | 0 <= d < jobs.Length :: jobs[d]
    ensures |hist| == trees.Length + 1 && |leaves| == trees.Length && hist[0] == Residuals(old(iinfo[..]))
    ensures forall t :: 0 <= t <= trees.Length ==> |hist[t]| == iinfo.Length
    ensures forall t :: 0 <= t < trees.Length ==>
      TreeFit(trees[t][..], hist[t], hist[t + 1], leaves[t], TreeSampling(t, sampleInstance), sr)
    ensures Residuals(iinfo[..]) == hist[trees.Length]
    ensures forall t :: 0 <= t < trees.Length ==> SplitsFit(trees[t][..], |cols|)
  {
    hist := [Residuals(iinfo[..])];
    leaves := [];
    ghost var snaps: seq<seq<TreeNode>> := [];
    for t := 0 to trees.Length
      invariant |hist| == t + 1 && |leaves| == t && |snaps| == t && hist[0] == Residuals(old(iinfo[..]))
      invariant forall i :: 0 <= i <= t ==> |hist[i]| == iinfo.Length
      invariant forall i :: 0 <= i < t ==> trees[i][..] == snaps[i]
      invariant forall i :: 0 <= i < t ==>
        TreeFit(snaps[i], hist[i], hist[i + 1], leaves[i], TreeSampling(i, sampleInstance), sr)
      invariant forall i :: 0 <= i < t ==> SplitsFit(snaps[i], |cols|)
      invariant Residuals(iinfo[..]) == hist[t]
    {
      ghost var before := iinfo[..];
      var smp := TreeSampling(t, sampleInstance);
      TrainTree(trees[t], iinfo, jobs, cols, mask, draws[t], sampleFeature, smp, maxLayer, sr);
      TreeFitOf(trees[t][..], before, iinfo[..], smp, sr);
      hist := hist + [Residuals(iinfo[..])];
      leaves := leaves + [Nodes(iinfo[..])];
      snaps := snaps + [trees[t][..]];
    }
  }

  /** `train`: the rows start with their labels as residuals and the trees
      are grown one after the other (`Boost`). Fresh node arrays hold
      `uninit` in every slot, standing for the memory `new` leaves
      uninitialised. */
  method Train(labels: seq<real>, cols: seq<seq<SortedIndex>>, mask: set<int>, draws: seq<seq<seq<bool>>>,
               sampleFeature: real, sampleInstance: real, treeCount: nat, maxLayer: nat, sr: real, uninit: TreeNode)
    returns (trees: array<array<TreeNode>>, iinfo: array<ItemInfo>,
             ghost hist: seq<seq<real>>, ghost leaves: seq<seq<int>>)
    requires ColumnsCover(cols, |labels|) && |labels| < InvalidSameKey
    requires |draws| == treeCount
    requires forall t :: 0 <= t < treeCount ==>
      |draws[t]| == maxLayer && forall l :: 0 <= l < maxLayer ==> |draws[t][l]| == |cols|
    ensures trees.Length == treeCount && iinfo.Length == |labels|
    ensures forall t :: 0 <= t < treeCount ==> trees[t].Length == Pow2(maxLayer + 2)
    ensures |hist| == treeCount + 1 && |leaves| == treeCount && hist[0] == labels
    ensures forall t :: 0 <= t <= treeCount ==> |hist[t]| == |labels|
    ensures forall t :: 0 <= t < treeCount ==>
      TreeFit(trees[t][..], hist[t], hist[t + 1], leaves[t], TreeSampling(t, sampleInstance), sr)
    ensures forall r :: 0 <= r < iinfo.Length ==> iinfo[r].residual == hist[treeCount][r]
    ensures forall t :: 0 <= t < treeCount ==> SplitsFit(trees[t][..], |cols|)
  {
    var size := Pow2(maxLayer + 2);
    var ts := NewTrees(treeCount, size, uninit, []);
    var js := NewTrees(|cols|, size, uninit, ts);
    trees := new array<TreeNode>[treeCount](t requires 0 <= t < treeCount => ts[t]);
    var jobs := new array<TreeNode>[|cols|](d requires 0 <= d < |cols| => js[d]);
    iinfo := new ItemInfo[|labels|](r requires 0 <= r < |labels| => ItemInfo(labels[r], 0, 0));
    assert Residuals(iinfo[..]) == labels;
    hist, leaves := Boost(trees, jobs, iinfo, cols, mask, draws, sampleFeature, sampleInstance, maxLayer, sr);
    assert Residuals(iinfo[..]) == hist[treeCount];
  }
}
