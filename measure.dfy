/** The evaluation measures of fly_measure.h (the area under the ROC curve
    and the confusion matrix) and the result-file reader of auc.cc. */
module Measure {
  import opened Wrappers
  import opened GbdtNode

  /** `ResultPair_t`: the true label and the model's score. */
  datatype ResultPair = ResultPair(target: real, output: real)

  /** `cmp_output_desc`: `a` sorts before `b` when its score is higher. */
  predicate OutputDesc(a: ResultPair, b: ResultPair) {
    a.output > b.output
  }

  /** Scores never increase along the sequence. */
  ghost predicate SortedDesc(s: seq<ResultPair>) {
    forall i, j {:trigger OutputDesc(s[j], s[i])} :: 0 <= i < j < |s| ==> !OutputDesc(s[j], s[i])
  }

  /** `sort(result, result+num, cmp_output_desc)`, here an insertion sort:
      the array ends up a permutation of itself with the scores in
      descending order (fly_measure.h:59). */
  method SortByOutput(a: array<ResultPair>)
    modifies a
    ensures SortedDesc(a[..])
    ensures multiset(a[..]) == multiset(old(a[..]))
  {
    var i := 0;
    while i < a.Length
      invariant i <= a.Length
      invariant SortedDesc(a[..i])
      invariant multiset(a[..]) == multiset(old(a[..]))
    {
      Insert(a, i);
      i := i + 1;
    }
  }

  /** Moves `a[i]` left past every lower score before it. */
  method Insert(a: array<ResultPair>, i: nat)
    requires i < a.Length && SortedDesc(a[..i])
    modifies a
    ensures SortedDesc(a[..i + 1])
    ensures multiset(a[..]) == multiset(old(a[..]))
  {
    var j := i;
    forall k, l | 0 <= k < l < i
      ensures a[k].output >= a[l].output
    {
      assert !OutputDesc(a[..i][l], a[..i][k]);
    }
    while j > 0 && a[j - 1].output < a[j].output
      invariant j <= i
      invariant forall k, l :: 0 <= k < l <= i && l != j ==> a[k].output >= a[l].output
      invariant multiset(a[..]) == multiset(old(a[..]))
    {
      SwapDown(a, i, j);
      j := j - 1;
    }
    ghost var t := a[..i + 1];
    forall k, l | 0 <= k < l < |t|
      ensures !OutputDesc(t[l], t[k])
    {
      if l == j && k < j - 1 {
        assert a[k].output >= a[j - 1].output;
      }
    }
  }

  /** One step of the insertion: the entry at `j`, higher than the one
      before it, trades places with it; the first `i + 1` entries stay in
      order except around the entry being moved. */
  method SwapDown(a: array<ResultPair>, i: nat, j: nat)
    requires 0 < j <= i < a.Length && a[j - 1].output < a[j].output
    requires forall k, l :: 0 <= k < l <= i && l != j ==> a[k].output >= a[l].output
    modifies a
    ensures forall k, l :: 0 <= k < l <= i && l != j - 1 ==> a[k].output >= a[l].output
    ensures multiset(a[..]) == multiset(old(a[..]))
  {
    a[j - 1], a[j] := a[j], a[j - 1];
  }

  /** A row is positive when `int(target + 0.5) == 1`. */
  predicate Positive(r: ResultPair) {
    TruncToInt(r.target + 0.5) == 1
  }

  /** The positive rows. */
  function Pos(s: seq<ResultPair>): nat
    decreases |s|
  {
    if s == [] then 0 else Pos(s[..|s| - 1]) + if Positive(s[|s| - 1]) then 1 else 0
  }

  /** The other rows. */
  function Neg(s: seq<ResultPair>): nat
    decreases |s|
  {
    if s == [] then 0 else Neg(s[..|s| - 1]) + if Positive(s[|s| - 1]) then 0 else 1
  }

  /** The positive rows scored above `v`. */
  function PosAbove(s: seq<ResultPair>, v: real): nat
    decreases |s|
  {
    if s == [] then 0 else PosAbove(s[..|s| - 1], v) + if Positive(s[|s| - 1]) && s[|s| - 1].output > v then 1 else 0
  }

  /** The positive rows scored exactly `v`. */
  function PosAt(s: seq<ResultPair>, v: real): nat
    decreases |s|
  {
    if s == [] then 0 else PosAt(s[..|s| - 1], v) + if Positive(s[|s| - 1]) && s[|s| - 1].output == v then 1 else 0
  }

  /** What a row of `t` scores against the rows `s`: nothing for a
      positive row; for a negative one, the positives scored above it plus
      half of those scored the same. */
  function Beaten(s: seq<ResultPair>, r: ResultPair): real {
    if Positive(r) then 0.0 else PosAbove(s, r.output) as real + 0.5 * PosAt(s, r.output) as real
  }

  /** The Mann-Whitney count of the rows `t` against the rows `s`. */
  function Score(s: seq<ResultPair>, t: seq<ResultPair>): real
    decreases |t|
  {
    if t == [] then 0.0 else Score(s, t[..|t| - 1]) + Beaten(s, t[|t| - 1])
  }

  /** Every row is positive or negative, never both. */
  lemma {:induction false} PosPlusNeg(s: seq<ResultPair>)
    ensures Pos(s) + Neg(s) == |s|
    decreases |s|
  {
    if s != [] {
      PosPlusNeg(s[..|s| - 1]);
    }
  }

  /** The counts add up over a concatenation. */
  lemma {:induction false} CountsAppend(x: seq<ResultPair>, y: seq<ResultPair>, v: real)
    ensures Pos(x + y) == Pos(x) + Pos(y) && Neg(x + y) == Neg(x) + Neg(y)
    ensures PosAbove(x + y, v) == PosAbove(x, v) + PosAbove(y, v)
    ensures PosAt(x + y, v) == PosAt(x, v) + PosAt(y, v)
    decreases |y|
  {
    if y == [] {
      assert x + y == x;
    } else {
      var n := |y| - 1;
      assert (x + y)[..|x + y| - 1] == x + y[..n];
      assert (x + y)[|x + y| - 1] == y[n];
      CountsAppend(x, y[..n], v);
    }
  }

  /** Rows all scored above `v`: every positive is above it. */
  lemma {:induction false} AllAbove(s: seq<ResultPair>, v: real)
    requires forall k :: 0 <= k < |s| ==> s[k].output > v
    ensures PosAbove(s, v) == Pos(s) && PosAt(s, v) == 0
    decreases |s|
  {
    if s != [] {
      AllAbove(s[..|s| - 1], v);
    }
  }

  /** Rows all scored `v`: every positive is at it. */
  lemma {:induction false} AllAt(s: seq<ResultPair>, v: real)
    requires forall k :: 0 <= k < |s| ==> s[k].output == v
    ensures PosAbove(s, v) == 0 && PosAt(s, v) == Pos(s)
    decreases |s|
  {
    if s != [] {
      AllAt(s[..|s| - 1], v);
    }
  }

  /** Rows all scored below `v`: no positive is above or at it. */
  lemma {:induction false} AllBelow(s: seq<ResultPair>, v: real)
    requires forall k :: 0 <= k < |s| ==> s[k].output < v
    ensures PosAbove(s, v) == 0 && PosAt(s, v) == 0
    decreases |s|
  {
    if s != [] {
      AllBelow(s[..|s| - 1], v);
    }
  }

  /** `n` rows worth `c` each. */
  const Times: (nat, real) -> real := (n: nat, c: real) => n as real * c

  lemma OneMore(n: nat, c: real)
    ensures Times(n + 1, c) == Times(n, c) + c
  {
  }

  /** A segment of rows sharing one score `v` adds the same amount `c`
      for each negative row in it. */
  lemma {:induction false} ScoreAppendSegment(s: seq<ResultPair>, t: seq<ResultPair>, seg: seq<ResultPair>, v: real, c: real)
    requires forall k :: 0 <= k < |seg| ==> seg[k].output == v
    requires c == PosAbove(s, v) as real + 0.5 * PosAt(s, v) as real
    ensures Score(s, t + seg) == Score(s, t) + Times(Neg(seg), c)
    decreases |seg|
  {
    if seg == [] {
      assert t + seg == t;
    } else {
      var n := |seg| - 1;
      assert (t + seg)[..|t + seg| - 1] == t + seg[..n];
      assert (t + seg)[|t + seg| - 1] == seg[n];
      ScoreAppendSegment(s, t, seg[..n], v, c);
      assert Beaten(s, seg[n]) == if Positive(seg[n]) then 0.0 else c;
      OneMore(Neg(seg[..n]), c);
    }
  }

  /** In a sorted sequence, the rows before a segment that starts on a
      drop score higher than it and the rows after one that ends on a
      change score lower. */
  lemma SortedSides(s: seq<ResultPair>, b: nat, e: nat)
    requires SortedDesc(s) && b < e <= |s|
    requires b > 0 ==> s[b - 1].output > s[b].output
    requires e < |s| ==> s[e].output != s[e - 1].output
    requires s[e - 1].output == s[b].output
    ensures forall k :: 0 <= k < b ==> s[k].output > s[b].output
    ensures forall k :: e <= k < |s| ==> s[k].output < s[b].output
  {
    forall k | 0 <= k < b
      ensures s[k].output > s[b].output
    {
      assert !OutputDesc(s[b - 1], s[k]);
    }
    forall k | e <= k < |s|
      ensures s[k].output < s[b].output
    {
      assert !OutputDesc(s[k], s[e]) && !OutputDesc(s[e], s[e - 1]);
    }
  }

  /** Against the score `v` of a segment `s[b..e]` with higher scores
      before it and lower after it, the positives above are those before
      the segment and the positives at `v` those inside it. */
  lemma SegmentCounts(s: seq<ResultPair>, b: nat, e: nat, v: real)
    requires b <= e <= |s|
    requires forall k :: 0 <= k < b ==> s[k].output > v
    requires forall k :: b <= k < e ==> s[k].output == v
    requires forall k :: e <= k < |s| ==> s[k].output < v
    ensures PosAbove(s, v) == Pos(s[..b]) && PosAt(s, v) == Pos(s[b..e])
  {
    var x, y, z := s[..b], s[b..e], s[e..];
    assert s == x + y + z;
    CountsAppend(x, y, v);
    CountsAppend(x + y, z, v);
    AllAbove(x, v);
    AllAt(y, v);
    AllBelow(z, v);
  }

  /** The score of a segment `s[b..e]` of rows scored `v`, with higher
      scores before it and lower after it: each negative row in it is
      beaten by every positive before the segment and ties with every
      positive inside it. */
  lemma SegmentScore(s: seq<ResultPair>, b: nat, e: nat, v: real)
    requires b <= e <= |s|
    requires forall k :: 0 <= k < b ==> s[k].output > v
    requires forall k :: b <= k < e ==> s[k].output == v
    requires forall k :: e <= k < |s| ==> s[k].output < v
    ensures Score(s, s[..e]) == Score(s, s[..b]) + Times(Neg(s[b..e]), Pos(s[..b]) as real + Pos(s[b..e]) as real * 0.5)
  {
    SegmentCounts(s, b, e, v);
    SegmentScoreAt(s, b, e, v);
  }

  /** `SegmentScore` once the positives above and at `v` are known. */
  lemma SegmentScoreAt(s: seq<ResultPair>, b: nat, e: nat, v: real)
    requires b <= e <= |s|
    requires forall k :: b <= k < e ==> s[k].output == v
    requires PosAbove(s, v) == Pos(s[..b]) && PosAt(s, v) == Pos(s[b..e])
    ensures Score(s, s[..e]) == Score(s, s[..b]) + Times(Neg(s[b..e]), Pos(s[..b]) as real + Pos(s[b..e]) as real * 0.5)
  {
    var x, y := s[..b], s[b..e];
    var c := Pos(x) as real + Pos(y) as real * 0.5;
    calc {
      Score(s, s[..e]);
      { assert s[..e] == x + y; }
      Score(s, x + y);
      { ScoreAppendSegment(s, x, y, v, c); }
      Score(s, x) + Times(Neg(y), c);
    }
  }

  /** Counting positives and negatives (fly_measure.h:61-69). */
  method CountClasses(a: array<ResultPair>) returns (pos: nat, neg: nat)
    ensures pos == Pos(a[..]) && neg == Neg(a[..])
  {
    pos, neg := 0, 0;
    for i := 0 to a.Length
      invariant pos == Pos(a[..i]) && neg == Neg(a[..i])
    {
      assert a[..i + 1][..i] == a[..i];
      if TruncToInt(a[i].target + 0.5) == 1 {
        pos := pos + 1;
      } else {
        neg := neg + 1;
      }
    }
    assert a[..a.Length] == a[..];
  }

  /** One more row in the open segment. */
  lemma GrowSegment(s: seq<ResultPair>, b: nat, i: nat, e: nat)
    requires b <= i < |s| && e == i + 1
    ensures Pos(s[b..e]) == Pos(s[b..i]) + (if Positive(s[i]) then 1 else 0)
    ensures Neg(s[b..e]) == Neg(s[b..i]) + (if Positive(s[i]) then 0 else 1)
  {
    assert s[b..e][..i - b] == s[b..i];
  }

  /** Closing the segment `s[b..i+1]` of a sorted sequence adds its count
      to the rows closed so far. */
  lemma CloseScore(s: seq<ResultPair>, b: nat, e: nat)
    requires SortedDesc(s) && b < e <= |s|
    requires forall k :: b <= k < e ==> s[k].output == s[b].output
    requires b > 0 ==> s[b - 1].output > s[b].output
    requires e < |s| ==> s[e].output != s[e - 1].output
    ensures Score(s, s[..e]) == Score(s, s[..b]) + Times(Neg(s[b..e]), Pos(s[..b]) as real + Pos(s[b..e]) as real * 0.5)
    ensures e < |s| ==> s[e - 1].output > s[e].output
  {
    SortedSides(s, b, e);
    SegmentScore(s, b, e, s[b].output);
  }

  /** ... and moves its rows into the closed counts. */
  lemma CloseCounts(s: seq<ResultPair>, b: nat, e: nat)
    requires b <= e <= |s|
    ensures Pos(s[..b]) + Pos(s[b..e]) == Pos(s[..e]) && Neg(s[..b]) + Neg(s[b..e]) == Neg(s[..e])
  {
    assert s[..e] == s[..b] + s[b..e];
    CountsAppend(s[..b], s[b..e], 0.0);
  }

  /** What one segment adds in C: `(cur_pos + seg_pos*0.5)/pos * seg_neg`. */
  const Gain: (nat, nat, nat, nat) -> real :=
    (curPos: nat, segPos: nat, pos: nat, segNeg: nat) =>
      if pos == 0 then 0.0 else (curPos as real + segPos as real * 0.5) / pos as real * segNeg as real

  /** A sum scaled back by `pos`. */
  const Scaled: (real, nat) -> real := (x: real, pos: nat) => x * pos as real

  /** One segment's gain keeps the sum, scaled back by `pos`, equal to
      the count of the rows closed so far. */
  lemma Accumulate(ret: real, curPos: nat, segPos: nat, pos: nat, segNeg: nat)
    requires pos > 0
    ensures Scaled(ret + Gain(curPos, segPos, pos, segNeg), pos) == Scaled(ret, pos) + Times(segNeg, curPos as real + segPos as real * 0.5)
  {
  }

  /** Closing the segment `s[b..e]` in the loop of `calc_auc`: the
      running sum and the closed counts move past it. */
  lemma CloseSegment(s: seq<ResultPair>, b: nat, e: nat, ret: real, curPos: nat, curNeg: nat, segPos: nat, segNeg: nat, pos: nat)
    requires SortedDesc(s) && b < e <= |s| && pos > 0
    requires curPos == Pos(s[..b]) && curNeg == Neg(s[..b])
    requires segPos == Pos(s[b..e]) && segNeg == Neg(s[b..e])
    requires forall k :: b <= k < e ==> s[k].output == s[b].output
    requires b > 0 ==> s[b - 1].output > s[b].output
    requires e < |s| ==> s[e].output != s[e - 1].output
    requires Scaled(ret, pos) == Score(s, s[..b])
    ensures curPos + segPos == Pos(s[..e]) && curNeg + segNeg == Neg(s[..e])
    ensures e < |s| ==> s[e - 1].output > s[e].output
    ensures Scaled(ret + Gain(curPos, segPos, pos, segNeg), pos) == Score(s, s[..e])
  {
    CloseScore(s, b, e);
    CloseCounts(s, b, e);
    Accumulate(ret, curPos, segPos, pos, segNeg);
  }

  /** The final division by `neg`, undone. */
  lemma DivideByNeg(ret: real, p: nat, n: nat)
    requires n != 0
    ensures (ret / n as real) * (p * n) as real == Scaled(ret, p)
  {
  }

  /** One row of the segment pass: it joins the open run of equal scores,
      and when the next row scores differently, or there is none, the run
      is closed and its gain added (fly_measure.h:75-93). */
  method SegmentRow(a: array<ResultPair>, ghost s: seq<ResultPair>, pos: nat, i: int, ghost b: int,
                    ret: real, curPos: int, curNeg: int, segPos: int, segNeg: int)
    returns (ret': real, curPos': int, curNeg': int, segPos': int, segNeg': int, ghost b': int, next: int)
    requires s == a[..] && SortedDesc(s) && pos > 0
    requires 0 <= b <= i < |s|
    requires curPos == Pos(s[..b]) && curNeg == Neg(s[..b])
    requires segPos == Pos(s[b..i]) && segNeg == Neg(s[b..i])
    requires forall k :: b <= k <= i && k < |s| ==> s[k].output == s[b].output
    requires 0 < b < |s| ==> s[b - 1].output > s[b].output
    requires Scaled(ret, pos) == Score(s, s[..b])
    ensures next == i + 1
    ensures 0 <= b' <= next && (next < |s| || b' == next)
    ensures curPos' == Pos(s[..b']) && curNeg' == Neg(s[..b'])
    ensures segPos' == Pos(s[b'..next]) && segNeg' == Neg(s[b'..next])
    ensures forall k :: b' <= k <= next && k < |s| ==> s[k].output == s[b'].output
    ensures 0 < b' < |s| ==> s[b' - 1].output > s[b'].output
    ensures Scaled(ret', pos) == Score(s, s[..b'])
  {
    next := i + 1;
    GrowSegment(s, b, i, next);
    ret', curPos', curNeg', segPos', segNeg', b' := ret, curPos, curNeg, segPos, segNeg, b;
    if TruncToInt(a[i].target + 0.5) == 1 {
      segPos' := segPos + 1;
    } else {
      segNeg' := segNeg + 1;
    }
    if i == a.Length - 1 || a[i].output != a[i + 1].output {
      CloseSegment(s, b, next, ret, curPos, curNeg, segPos', segNeg', pos);
      ret' := ret + Gain(curPos, segPos', pos, segNeg');
      curPos' := curPos + segPos';
      curNeg' := curNeg + segNeg';
      segPos' := 0;
      segNeg' := 0;
      b' := next;
    }
  }

  /** The segment loop of `calc_auc` over sorted rows: every run of equal
      scores adds `(cur_pos + seg_pos*0.5)/pos * seg_neg`; the sum times
      `pos` is the Mann-Whitney count (fly_measure.h:71-97). */
  method SumSegments(a: array<ResultPair>, pos: nat) returns (ret: real)
    requires SortedDesc(a[..]) && pos > 0
    ensures Scaled(ret, pos) == Score(a[..], a[..])
  {
    ghost var s := a[..];
    ret := 0.0;
    var curPos, curNeg, segPos, segNeg := 0, 0, 0, 0;
    ghost var b := 0;
    var i := 0;
    while i < a.Length
      invariant i <= |s| && b <= i && (i < |s| || b == i)
      invariant curPos == Pos(s[..b]) && curNeg == Neg(s[..b])
      invariant segPos == Pos(s[b..i]) && segNeg == Neg(s[b..i])
      invariant forall k :: b <= k <= i && k < |s| ==> s[k].output == s[b].output
      invariant 0 < b < |s| ==> s[b - 1].output > s[b].output
      invariant Scaled(ret, pos) == Score(s, s[..b])
    {
      ret, curPos, curNeg, segPos, segNeg, b, i := SegmentRow(a, s, pos, i, b, ret, curPos, curNeg, segPos, segNeg);
    }
    assert s[..a.Length] == s;
  }

  /** `calc_auc`: sort by score, count the classes, sum the segments and
      divide by `neg` (fly_measure.h:57-100).  With no positive or no
      negative row the C division gives NaN, here `None`.  Otherwise the
      result is the Mann-Whitney count over `pos * neg`. */
  method CalcAuc(a: array<ResultPair>) returns (r: Option<real>)
    modifies a
    ensures SortedDesc(a[..]) && multiset(a[..]) == multiset(old(a[..]))
    ensures r.Some? <==> Pos(a[..]) > 0 && Neg(a[..]) > 0
    ensures r.Some? ==> r.value * (Pos(a[..]) * Neg(a[..])) as real == Score(a[..], a[..])
  {
    SortByOutput(a);
    var pos, neg := CountClasses(a);
    if pos == 0 || neg == 0 {
      return None;
    }
    var ret := SumSegments(a, pos);
    r := Some(ret / neg as real);
    DivideByNeg(ret, pos, neg);
  }

  /** The count lies between 0 and `pos * neg`. */
  lemma {:induction false} ScoreBounds(s: seq<ResultPair>, t: seq<ResultPair>)
    ensures 0.0 <= Score(s, t) <= Times(Neg(t), Pos(s) as real)
    decreases |t|
  {
    if t != [] {
      var n := |t| - 1;
      ScoreBounds(s, t[..n]);
      AboveAndAtBounded(s, t[n].output);
      OneMore(Neg(t[..n]), Pos(s) as real);
    }
  }

  /** No positive row is both above and at a score. */
  lemma {:induction false} AboveAndAtBounded(s: seq<ResultPair>, v: real)
    ensures PosAbove(s, v) + PosAt(s, v) <= Pos(s)
    decreases |s|
  {
    if s != [] {
      AboveAndAtBounded(s[..|s| - 1], v);
    }
  }

  /** The area `calc_auc` returns lies in [0, 1]. */
  lemma AucInUnitInterval(s: seq<ResultPair>, auc: real)
    requires Pos(s) > 0 && Neg(s) > 0
    requires auc * (Pos(s) * Neg(s)) as real == Score(s, s)
    ensures 0.0 <= auc <= 1.0
  {
    ScoreBounds(s, s);
    var p, q := Pos(s), Neg(s);
    assert Times(q, p as real) == (p * q) as real;
    FractionOfWhole(auc, (p * q) as real, Score(s, s));
  }

  lemma FractionOfWhole(x: real, n: real, part: real)
    requires n > 0.0 && 0.0 <= part <= n && x * n == part
    ensures 0.0 <= x <= 1.0
  {
    assert x == part / n;
  }

  /** `ConfusionMatrix_t`. */
  datatype Confusion = Confusion(tp: nat, tn: nat, fp: nat, fn: nat)

  /** The cell a row falls in: a target of at least 0.5 is positive, and
      so is a score of at least 0.5. */
  function Cell(r: ResultPair): Confusion {
    if r.target >= 0.5 then
      (if r.output >= 0.5 then Confusion(1, 0, 0, 0) else Confusion(0, 0, 0, 1))
    else
      (if r.output < 0.5 then Confusion(0, 1, 0, 0) else Confusion(0, 0, 1, 0))
  }

  function Add(x: Confusion, y: Confusion): Confusion {
    Confusion(x.tp + y.tp, x.tn + y.tn, x.fp + y.fp, x.fn + y.fn)
  }

  /** The cells of all rows, added up. */
  function Tally(rs: seq<ResultPair>): Confusion
    decreases |rs|
  {
    if rs == [] then Confusion(0, 0, 0, 0) else Add(Tally(rs[..|rs| - 1]), Cell(rs[|rs| - 1]))
  }

  lemma TallyStep(rs: seq<ResultPair>, i: nat)
    requires i < |rs|
    ensures Tally(rs[..i + 1]) == Add(Tally(rs[..i]), Cell(rs[i]))
  {
    assert rs[..i + 1][..i] == rs[..i];
  }

  /** The body of the loop of `calc_confussion_matrix`: exactly one
      counter of the row's cell goes up (fly_measure.h:123-135). */
  method CountRow(m0: Confusion, r: ResultPair) returns (m: Confusion)
    ensures m == Add(m0, Cell(r))
  {
    m := m0;
    if r.target >= 0.5 {
      if r.output >= 0.5 {
        m := m.(tp := m.tp + 1);
      } else {
        m := m.(fn := m.fn + 1);
      }
    } else {
      if r.output < 0.5 {
        m := m.(tn := m.tn + 1);
      } else {
        m := m.(fp := m.fp + 1);
      }
    }
  }

  /** `calc_confussion_matrix`: the counters of all rows
      (fly_measure.h:119-137). */
  method CalcConfusion(rs: seq<ResultPair>) returns (m: Confusion)
    ensures m == Tally(rs)
  {
    m := Confusion(0, 0, 0, 0);
    for i := 0 to |rs|
      invariant m == Tally(rs[..i])
    {
      TallyStep(rs, i);
      m := CountRow(m, rs[i]);
    }
    assert rs[..|rs|] == rs;
  }

  /** The rows with a positive target. */
  function Positives(rs: seq<ResultPair>): set<int> {
    set k | 0 <= k < |rs| && rs[k].target >= 0.5
  }

  /** One more row adds its position to the positives when its target is
      positive. */
  lemma PositivesStep(rs: seq<ResultPair>)
    requires rs != []
    ensures var n := |rs| - 1;
      |Positives(rs)| == |Positives(rs[..n])| + (if rs[n].target >= 0.5 then 1 else 0)
  {
    var n := |rs| - 1;
    var before := Positives(rs[..n]);
    assert before == set k | 0 <= k < n && rs[k].target >= 0.5;
    if rs[n].target >= 0.5 {
      assert Positives(rs) == before + {n};
      assert n !in before;
    } else {
      assert Positives(rs) == before;
    }
  }

  /** Every row lands in exactly one cell, so the cells add up to the row
      count; the actual positives are the true positives and the false
      negatives. */
  lemma {:induction false} TallyPartitions(rs: seq<ResultPair>)
    ensures var m := Tally(rs); m.tp + m.tn + m.fp + m.fn == |rs|
    ensures var m := Tally(rs); m.tp + m.fn == |Positives(rs)|
    decreases |rs|
  {
    if rs != [] {
      TallyPartitions(rs[..|rs| - 1]);
      PositivesStep(rs);
    }
  }

  // ---------------------------------------------------------------------
  // auc.cc: reading `target<sep>output` lines.

  /** A field separator of a result line. */
  predicate IsSep(c: char) {
    c == '\t' || c == ' '
  }

  /** The first index at or after `i` where `p` holds, or the end. */
  function FirstSep(line: string, i: nat): (k: nat)
    requires i <= |line|
    ensures i <= k <= |line| && (k < |line| ==> IsSep(line[k]))
    ensures forall j :: i <= j < k ==> !IsSep(line[j])
    decreases |line| - i
  {
    if i == |line| || IsSep(line[i]) then i else FirstSep(line, i + 1)
  }

  function FirstColon(line: string, i: nat): (k: nat)
    requires i <= |line|
    ensures i <= k <= |line| && (k < |line| ==> line[k] == ':')
    ensures forall j :: i <= j < k ==> line[j] != ':'
    decreases |line| - i
  {
    if i == |line| || line[i] == ':' then i else FirstColon(line, i + 1)
  }

  /** Where the score is read: after the first separator, or after the
      first `:` following it; `None` when the line has no separator. */
  function OutputStart(line: string): Option<nat> {
    var i := FirstSep(line, 0);
    if i == |line| then None
    else
      var c := FirstColon(line, i + 1);
      Some(if c < |line| then c + 1 else i + 1)
  }

  /** The pair a line gives: the target from the start of the line and
      the score from `OutputStart`; without a separator the score is left
      unset. */
  function LineResult(line: string, atof: string -> real): (real, Option<real>) {
    (atof(line), match OutputStart(line) case None => None case Some(k) => Some(atof(line[k..])))
  }

  /** The scanning loops of auc.cc:16-31. */
  method ExtractResult(line: string, atof: string -> real) returns (target: real, output: Option<real>)
    ensures (target, output) == LineResult(line, atof)
  {
    target := atof(line);
    output := None;
    var i := 0;
    while i < |line|
      invariant i <= |line| && FirstSep(line, i) == FirstSep(line, 0)
      invariant output.None?
    {
      if line[i] == '\t' || line[i] == ' ' {
        var idx := i + 1;
        var j := i + 1;
        while j < |line|
          invariant i + 1 <= j <= |line| && FirstColon(line, j) == FirstColon(line, i + 1)
        {
          if line[j] == ':' {
            idx := j + 1;
            break;
          }
          j := j + 1;
        }
        output := Some(atof(line[idx..]));
        return;
      }
      i := i + 1;
    }
  }

  /** `main`'s loop: exactly one pair per line, in order. */
  method ReadResults(lines: seq<string>, atof: string -> real) returns (res: seq<(real, Option<real>)>)
    ensures |res| == |lines|
    ensures forall k :: 0 <= k < |lines| ==> res[k] == LineResult(lines[k], atof)
  {
    res := [];
    for i := 0 to |lines|
      invariant |res| == i && forall k :: 0 <= k < i ==> res[k] == LineResult(lines[k], atof)
    {
      var t, o := ExtractResult(lines[i], atof);
      res := res + [(t, o)];
    }
  }

  /** Only the first separator counts: with no `:` after it, the score is
      read from the character after it. */
  lemma ScoreAfterSeparator(a: string, c: char, b: string)
    requires forall j :: 0 <= j < |a| ==> !IsSep(a[j])
    requires IsSep(c) && ':' !in b
    ensures OutputStart(a + [c] + b) == Some(|a| + 1)
  {
    var line := a + [c] + b;
    assert FirstSep(line, 0) == |a| by {
      assert forall j :: 0 <= j < |a| ==> line[j] == a[j];
      FirstSepIs(line, 0, |a|);
    }
    assert forall j :: |a| + 1 <= j < |line| ==> line[j] == b[j - |a| - 1];
  }

  /** With a `:` after the first separator, the score is read after the
      first such `:`. */
  lemma ScoreAfterColon(a: string, c: char, b: string, d: string)
    requires forall j :: 0 <= j < |a| ==> !IsSep(a[j])
    requires IsSep(c) && ':' !in b
    ensures OutputStart(a + [c] + b + ":" + d) == Some(|a| + |b| + 2)
  {
    var line := a + [c] + b + ":" + d;
    assert FirstSep(line, 0) == |a| by {
      assert forall j :: 0 <= j < |a| ==> line[j] == a[j];
      FirstSepIs(line, 0, |a|);
    }
    assert FirstColon(line, |a| + 1) == |a| + |b| + 1 by {
      assert forall j :: |a| + 1 <= j < |a| + 1 + |b| ==> line[j] == b[j - |a| - 1];
      assert line[|a| + |b| + 1] == ':';
      FirstColonIs(line, |a| + 1, |a| + |b| + 1);
    }
  }

  lemma {:induction false} FirstSepIs(line: string, i: nat, k: nat)
    requires i <= k < |line| && IsSep(line[k]) && forall j :: i <= j < k ==> !IsSep(line[j])
    ensures FirstSep(line, i) == k
    decreases k - i
  {
    if i < k {
      FirstSepIs(line, i + 1, k);
    }
  }

  lemma {:induction false} FirstColonIs(line: string, i: nat, k: nat)
    requires i <= k < |line| && line[k] == ':' && forall j :: i <= j < k ==> line[j] != ':'
    ensures FirstColon(line, i) == k
    decreases k - i
  {
    if i < k {
      FirstColonIs(line, i + 1, k);
    }
  }
}
