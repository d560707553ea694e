/** The pre-sorted column of one feature, as `init` builds it in both
    revisions of the trainer (src/models/gbdt.h and models/gbdt.h): the rows
    sorted by their value for the feature, each entry marked when its value
    equals the previous entry's, so that the scan never cuts between equal
    values. */
module GbdtColumn {
  import opened GbdtNode

  /** `FeatureInfo_t`: a row id and the row's value for the feature.  A row
      without the feature leaves its entry's value as the memory held it
      (models/gbdt.h:399-405), so the column is an input here, not built. */
  datatype FeatureInfo = FeatureInfo(index: int, value: real)

  /** What `sort` on `FeatureInfo_t::operator<` leaves: values ascending,
      equal values in any order. */
  predicate SortedByValue(ps: seq<FeatureInfo>) {
    forall i, j :: 0 <= i < j < |ps| ==> ps[i].value <= ps[j].value
  }

  /** Entry `i` starts a run of equal values. */
  predicate RunStart(ps: seq<FeatureInfo>, i: int)
    requires 0 <= i < |ps|
  {
    i == 0 || ps[i].value != ps[i - 1].value
  }

  /** The number of runs among the first `n` entries (`diff_value`). */
  function RunCount(ps: seq<FeatureInfo>, n: nat): nat
    requires n <= |ps|
  {
    if n == 0 then 0 else RunCount(ps, n - 1) + (if RunStart(ps, n - 1) then 1 else 0)
  }

  /** The values occurring among the first `n` entries. */
  function ValuesOf(ps: seq<FeatureInfo>, n: nat): set<real>
    requires n <= |ps|
  {
    set i | 0 <= i < n :: ps[i].value
  }

  /** The flag loop of `init` (src/models/gbdt.h and models/gbdt.h): entry i
      of `idx` takes row id i of the sorted column and is marked `same`
      exactly when it is not the first entry and its value equals the
      previous one's; returns the number of unmarked entries. */
  method MarkRuns(ps: seq<FeatureInfo>, idx: array<SortedIndex>) returns (diff: nat)
    requires |ps| <= idx.Length
    modifies idx
    ensures forall i :: 0 <= i < |ps| ==> idx[i].index == ps[i].index && (idx[i].same <==> !RunStart(ps, i))
    ensures forall i :: |ps| <= i < idx.Length ==> idx[i] == old(idx[i])
    ensures diff == RunCount(ps, |ps|)
    ensures MarkedFrom(idx[..|ps|], ps)
  {
    diff := 0;
    for i := 0 to |ps|
      invariant forall k :: 0 <= k < i ==> idx[k].index == ps[k].index && (idx[k].same <==> !RunStart(ps, k))
      invariant forall k :: i <= k < idx.Length ==> idx[k] == old(idx[k])
      invariant diff == RunCount(ps, i)
    {
      if i > 0 && ps[i].value == ps[i - 1].value {
        idx[i] := SortedIndex(true, ps[i].index);
      } else {
        idx[i] := SortedIndex(false, ps[i].index);
        diff := diff + 1;
      }
    }
  }

  /** On a sorted column an entry starts a run exactly when its value is
      larger than every value before it. */
  lemma RunStartIsNewValue(ps: seq<FeatureInfo>, i: int)
    requires SortedByValue(ps) && 0 <= i < |ps|
    ensures RunStart(ps, i) <==> forall k :: 0 <= k < i ==> ps[k].value < ps[i].value
  {
    if RunStart(ps, i) && i > 0 {
      assert ps[i - 1].value < ps[i].value;
    }
  }

  /** One more entry adds its value to the values seen. */
  lemma ValuesOfStep(ps: seq<FeatureInfo>, n: nat)
    requires 0 < n <= |ps|
    ensures ValuesOf(ps, n) == ValuesOf(ps, n - 1) + {ps[n - 1].value}
  {
  }

  /** On a sorted column an entry starts a run exactly when its value has
      not been seen before it. */
  lemma RunStartIsUnseen(ps: seq<FeatureInfo>, n: nat)
    requires SortedByValue(ps) && 0 < n <= |ps|
    ensures RunStart(ps, n - 1) <==> ps[n - 1].value !in ValuesOf(ps, n - 1)
  {
    RunStartIsNewValue(ps, n - 1);
    if !RunStart(ps, n - 1) {
      assert ps[n - 2].value in ValuesOf(ps, n - 1);
    }
  }

  /** On a sorted column the number of runs is the number of distinct
      values. */
  lemma {:induction false} RunCountIsDistinctValues(ps: seq<FeatureInfo>, n: nat)
    requires SortedByValue(ps) && n <= |ps|
    ensures RunCount(ps, n) == |ValuesOf(ps, n)|
  {
    if n > 0 {
      RunCountIsDistinctValues(ps, n - 1);
      ValuesOfStep(ps, n);
      RunStartIsUnseen(ps, n);
      var seen, v := ValuesOf(ps, n - 1), ps[n - 1].value;
      if v in seen {
        assert seen + {v} == seen;
      } else {
        assert |seen + {v}| == |seen| + 1;
      }
    }
  }

  /** On a sorted column two entries hold equal values exactly when no run
      starts after the first of them up to the second: a cut before an
      unmarked entry always separates different values. */
  lemma {:induction false} SameRunIffEqual(ps: seq<FeatureInfo>, i: int, j: int)
    requires SortedByValue(ps) && 0 <= i <= j < |ps|
    ensures ps[i].value == ps[j].value <==> forall k :: i < k <= j ==> !RunStart(ps, k)
    decreases j - i
  {
    if i < j {
      SameRunIffEqual(ps, i, j - 1);
      if ps[i].value == ps[j].value {
        assert ps[i].value <= ps[j - 1].value <= ps[j].value;
      } else if forall k :: i < k <= j - 1 ==> !RunStart(ps, k) {
        assert ps[i].value == ps[j - 1].value;
        assert RunStart(ps, j);
      }
    }
  }

  /** The column the flag loop built from the sorted pairs `ps`: same rows,
      and an entry is marked exactly when it does not start a run. */
  predicate MarkedFrom(col: seq<SortedIndex>, ps: seq<FeatureInfo>) {
    |col| == |ps| && forall j {:trigger col[j]} :: 0 <= j < |col| ==> col[j].index == ps[j].index && (col[j].same <==> !RunStart(ps, j))
  }

  /** In a sorted column, an unmarked entry at position `q` separates
      values: every entry before it has a smaller value, and every entry
      from it on at least its value. */
  lemma UnmarkedSeparates(ps: seq<FeatureInfo>, col: seq<SortedIndex>, q: int)
    requires SortedByValue(ps) && MarkedFrom(col, ps) && 0 <= q < |col| && !col[q].same
    ensures forall a :: 0 <= a < q ==> ps[a].value < ps[q].value
    ensures forall b :: q <= b < |ps| ==> ps[q].value <= ps[b].value
  {
    RunStartIsNewValue(ps, q);
  }
}
