/** The sampled rows of a node counted in row order, as the trainer's root
    loop and final residual update see them, and why a node's scan in any
    feature's column order sees exactly the same rows with the same sums. */
module GbdtRows {
  import opened GbdtNode
  import opened GbdtScan
  import opened GbdtWorker

  /** The sampled rows below `k` sitting in node `n`, in increasing order. */
  ghost function OwnRows(rows: seq<ItemInfo>, smp: Sampling, n: int, k: nat): seq<int>
    requires k <= |rows|
  {
    if k == 0 then []
    else OwnRows(rows, smp, n, k - 1) + (if Sampled(smp, k - 1) && rows[k - 1].node == n then [k - 1] else [])
  }

  /** The rows of node `n` are the sampled rows below `k` whose node is `n`,
      each listed once. */
  lemma {:induction false} OwnRowsMembers(rows: seq<ItemInfo>, smp: Sampling, n: int, k: nat)
    requires k <= |rows|
    ensures var o := OwnRows(rows, smp, n, k);
      && Distinct(o)
      && (forall t :: 0 <= t < |o| ==> 0 <= o[t] < k)
      && (forall r :: r in o <==> 0 <= r < k && Sampled(smp, r) && rows[r].node == n)
  {
    if k > 0 {
      OwnRowsMembers(rows, smp, n, k - 1);
    }
  }

  /** `OwnRows` looks only at the sampling and the nodes of rows below `k`. */
  lemma {:induction false} OwnRowsPrefix(rows: seq<ItemInfo>, rows': seq<ItemInfo>, smp: Sampling, n: int, k: nat)
    requires k <= |rows| && k <= |rows'|
    requires forall r :: 0 <= r < k ==> rows[r].node == rows'[r].node
    ensures OwnRows(rows, smp, n, k) == OwnRows(rows', smp, n, k)
  {
    if k > 0 {
      OwnRowsPrefix(rows, rows', smp, n, k - 1);
    }
  }

  /** The residuals of the rows `rs`, added in list order. */
  ghost function SumOver(rows: seq<ItemInfo>, rs: seq<int>): real
    requires forall t :: 0 <= t < |rs| ==> 0 <= rs[t] < |rows|
  {
    if rs == [] then 0.0 else SumOver(rows, rs[..|rs| - 1]) + rows[rs[|rs| - 1]].residual
  }

  /** The squared residuals of the rows `rs`. */
  ghost function SumSqOver(rows: seq<ItemInfo>, rs: seq<int>): real
    requires forall t :: 0 <= t < |rs| ==> 0 <= rs[t] < |rows|
  {
    if rs == [] then 0.0 else SumSqOver(rows, rs[..|rs| - 1]) + Square(rows[rs[|rs| - 1]].residual)
  }

  /** Rows `rs` that all lie in the table. */
  ghost predicate InTable(rows: seq<ItemInfo>, rs: seq<int>) {
    forall t :: 0 <= t < |rs| ==> 0 <= rs[t] < |rows|
  }

  lemma {:induction false} SumOverAppend(rows: seq<ItemInfo>, a: seq<int>, b: seq<int>)
    requires InTable(rows, a) && InTable(rows, b)
    ensures InTable(rows, a + b)
    ensures SumOver(rows, a + b) == SumOver(rows, a) + SumOver(rows, b)
    ensures SumSqOver(rows, a + b) == SumSqOver(rows, a) + SumSqOver(rows, b)
    decreases |b|
  {
    if b == [] {
      assert a + b == a;
    } else {
      var b' := b[..|b| - 1];
      assert (a + b)[..|a + b| - 1] == a + b';
      assert (a + b)[|a + b| - 1] == b[|b| - 1];
      SumOverAppend(rows, a, b');
    }
  }

  /** Taking row `ys[i]` out of a list takes its residual out of the sums. */
  lemma SumOverRemove(rows: seq<ItemInfo>, ys: seq<int>, i: int)
    requires InTable(rows, ys) && 0 <= i < |ys|
    ensures InTable(rows, ys[..i] + ys[i + 1..])
    ensures SumOver(rows, ys) == SumOver(rows, ys[..i] + ys[i + 1..]) + rows[ys[i]].residual
    ensures SumSqOver(rows, ys) == SumSqOver(rows, ys[..i] + ys[i + 1..]) + Square(rows[ys[i]].residual)
  {
    var x := ys[i];
    assert ys == (ys[..i] + [x]) + ys[i + 1..];
    SumOverAppend(rows, ys[..i], [x]);
    SumOverAppend(rows, ys[..i] + [x], ys[i + 1..]);
    SumOverAppend(rows, ys[..i], ys[i + 1..]);
    assert [x][..0] == [];
  }

  /** Removing the same row from two lists with the same rows and no
      repeats leaves two such lists. */
  lemma RemoveKeepsMembers(xs: seq<int>, ys: seq<int>, i: int, xs': seq<int>, ys': seq<int>)
    requires Distinct(xs) && Distinct(ys) && xs != []
    requires forall r :: r in xs <==> r in ys
    requires 0 <= i < |ys| && ys[i] == xs[|xs| - 1]
    requires xs' == xs[..|xs| - 1] && ys' == ys[..i] + ys[i + 1..]
    ensures Distinct(xs') && Distinct(ys')
    ensures forall r :: r in xs' <==> r in ys'
  {
    var x := xs[|xs| - 1];
    forall a, b | 0 <= a < b < |ys'|
      ensures ys'[a] != ys'[b]
    {
      var a' := if a < i then a else a + 1;
      var b' := if b < i then b else b + 1;
      assert ys'[a] == ys[a'] && ys'[b] == ys[b'];
    }
    forall r
      ensures r in xs' <==> r in ys'
    {
      if r in xs' {
        var a :| 0 <= a < |xs'| && xs'[a] == r;
        assert xs[a] == r && r != x;
        assert r in ys;
        var c :| 0 <= c < |ys| && ys[c] == r;
        assert c != i;
        if c < i {
          assert ys'[c] == r;
        } else {
          assert ys'[c - 1] == r;
        }
      }
      if r in ys' {
        var c :| 0 <= c < |ys'| && ys'[c] == r;
        var c' := if c < i then c else c + 1;
        assert ys[c'] == r && c' != i;
        assert r != x;
        assert r in xs;
        var a :| 0 <= a < |xs| && xs[a] == r;
        assert a != |xs| - 1;
        assert xs'[a] == r;
      }
    }
  }

  /** Two lists of the same rows, each without repeats, have the same
      length and the same sums whatever their order. */
  lemma {:induction false} SumOverPermutation(rows: seq<ItemInfo>, xs: seq<int>, ys: seq<int>)
    requires InTable(rows, xs) && InTable(rows, ys)
    requires Distinct(xs) && Distinct(ys)
    requires forall r :: r in xs <==> r in ys
    ensures |xs| == |ys|
    ensures SumOver(rows, xs) == SumOver(rows, ys)
    ensures SumSqOver(rows, xs) == SumSqOver(rows, ys)
    decreases |xs|
  {
    if xs == [] {
      assert forall t :: 0 <= t < |ys| ==> ys[t] in xs;
    } else {
      var x := xs[|xs| - 1];
      assert x in xs;
      var i :| 0 <= i < |ys| && ys[i] == x;
      RemoveKeepsMembers(xs, ys, i, xs[..|xs| - 1], ys[..i] + ys[i + 1..]);
      SumOverRemove(rows, ys, i);
      SumOverPermutation(rows, xs[..|xs| - 1], ys[..i] + ys[i + 1..]);
    }
  }

  /** A list of seen entries whose residuals are the residuals of their
      rows. */
  ghost predicate ResOfRows(s: seq<Seen>, rows: seq<ItemInfo>) {
    forall t :: 0 <= t < |s| ==> 0 <= s[t].row < |rows| && s[t].res == rows[s[t].row].residual
  }

  /** The running sums of the scan are the sums over the rows it saw. */
  lemma {:induction false} SumResIsSumOver(s: seq<Seen>, rows: seq<ItemInfo>)
    requires ResOfRows(s, rows)
    ensures InTable(rows, RowsOf(s))
    ensures SumRes(s) == SumOver(rows, RowsOf(s))
    ensures SumSq(s) == SumSqOver(rows, RowsOf(s))
    decreases |s|
  {
    if s != [] {
      var s' := s[..|s| - 1];
      assert RowsOf(s)[..|s| - 1] == RowsOf(s');
      SumResIsSumOver(s', rows);
    }
  }

  /** The sums over two stretches of entries, one after the other, add
      up. */
  lemma {:induction false} SumsConcat(u: seq<Seen>, w: seq<Seen>)
    ensures SumRes(u + w) == SumRes(u) + SumRes(w)
    ensures SumSq(u + w) == SumSq(u) + SumSq(w)
    decreases |w|
  {
    if w == [] {
      assert u + w == u;
    } else {
      var w' := w[..|w| - 1];
      assert (u + w)[..|u + w| - 1] == u + w';
      SumsConcat(u, w');
    }
  }

  /** Cutting the entries at `k` splits the sums. */
  lemma SumResSplit(s: seq<Seen>, k: nat)
    requires k <= |s|
    ensures SumRes(s) == SumRes(s[..k]) + SumRes(s[k..])
    ensures SumSq(s) == SumSq(s[..k]) + SumSq(s[k..])
  {
    assert s == s[..k] + s[k..];
    SumsConcat(s[..k], s[k..]);
  }

  // ---------------------------------------------------------------------
  // A sorted column lists every row once.

  /** The rows of a column in column order. */
  function ColumnRows(col: seq<SortedIndex>): (rs: seq<int>)
    ensures |rs| == |col| && forall j :: 0 <= j < |col| ==> rs[j] == col[j].index
  {
    seq(|col|, j requires 0 <= j < |col| => col[j].index)
  }

  /** The column of one feature holds each of the `n` rows exactly once,
      as the pre-sorting step writes it. */
  ghost predicate Covers(col: seq<SortedIndex>, n: int) {
    && |col| == n
    && RowsIn(col, n)
    && ColumnRowsDistinct(col)
    && forall r :: 0 <= r < n ==> r in ColumnRows(col)
  }

  /** Every owned entry before `i` has been seen by its node. */
  lemma {:induction false} SeenComplete(col: seq<SortedIndex>, rows: seq<ItemInfo>, smp: Sampling, n: int, i: nat, j: int)
    requires RowsIn(col, |rows|) && i <= |col|
    requires 0 <= j < i && OwnedAt(col, rows, smp, n, j)
    ensures col[j].index in RowsOf(SeenBy(col, rows, smp, n, i))
  {
    var s := SeenBy(col, rows, smp, n, i);
    if j == i - 1 {
      assert s[|s| - 1].row == col[j].index;
    } else {
      SeenComplete(col, rows, smp, n, i - 1, j);
      var s' := SeenBy(col, rows, smp, n, i - 1);
      SeenPrefix(col, rows, smp, n, i - 1, i);
      var t :| 0 <= t < |s'| && RowsOf(s')[t] == col[j].index;
      assert RowsOf(s)[t] == col[j].index;
    }
  }

  /** Over a covering column a node sees exactly its own sampled rows: the
      same rows, the same count and the same sums as `OwnRows` lists. */
  lemma SeenAreOwn(col: seq<SortedIndex>, rows: seq<ItemInfo>, smp: Sampling, n: int)
    requires Covers(col, |rows|)
    ensures var s := SeenBy(col, rows, smp, n, |col|);
      var o := OwnRows(rows, smp, n, |rows|);
      && ResOfRows(s, rows)
      && Distinct(RowsOf(s))
      && (forall r :: r in RowsOf(s) <==> 0 <= r < |rows| && Sampled(smp, r) && rows[r].node == n)
      && InTable(rows, o)
      && |s| == |o|
      && SumRes(s) == SumOver(rows, o)
      && SumSq(s) == SumSqOver(rows, o)
  {
    var s := SeenBy(col, rows, smp, n, |col|);
    var o := OwnRows(rows, smp, n, |rows|);
    SeenFacts(col, rows, smp, n, |col|);
    SeenRowsDistinct(col, rows, smp, n);
    OwnRowsMembers(rows, smp, n, |rows|);
    forall r
      ensures r in RowsOf(s) <==> 0 <= r < |rows| && Sampled(smp, r) && rows[r].node == n
    {
      if r in RowsOf(s) {
        var t :| 0 <= t < |s| && RowsOf(s)[t] == r;
        assert OwnedAt(col, rows, smp, n, s[t].pos);
      }
      if 0 <= r < |rows| && Sampled(smp, r) && rows[r].node == n {
        assert r in ColumnRows(col);
        var j :| 0 <= j < |col| && ColumnRows(col)[j] == r;
        SeenComplete(col, rows, smp, n, |col|, j);
      }
    }
    SumResIsSumOver(s, rows);
    SumOverPermutation(rows, RowsOf(s), o);
  }
}
