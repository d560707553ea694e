/** Records as the readers hand them to the models: `IndValue_t` and
    `Instance_t` (src/include/fly_core.h). */
module Instances {

  /** One `index:value` pair of a record. */
  datatype IndValue = IndValue(index: int, value: real)

  /** The label (`target`; `label` is a Dafny keyword) and the pairs, in
      the order they were parsed. */
  datatype Instance = Instance(target: real, features: seq<IndValue>)

  /** A default-constructed `Instance_t` as far as the models look at it:
      no pairs. */
  const EmptyInstance: Instance := Instance(0.0, [])

  /** The value of the first pair with index `f`, or 0 when there is none:
      how a split's threshold is read back from its row. */
  function FirstValue(fs: seq<IndValue>, f: int): (v: real)
    ensures (forall k :: 0 <= k < |fs| ==> fs[k].index != f) ==> v == 0.0
    ensures forall k :: 0 <= k < |fs| && fs[k].index == f && (forall j :: 0 <= j < k ==> fs[j].index != f) ==> v == fs[k].value
  {
    if |fs| == 0 then 0.0
    else if fs[0].index == f then fs[0].value
    else FirstValue(fs[1..], f)
  }

  /** The value of the last pair with index `f`, or 0 when there is none:
      what a dense buffer filled pair by pair ends up holding. */
  function LastValue(fs: seq<IndValue>, f: int): real {
    if |fs| == 0 then 0.0
    else if fs[|fs| - 1].index == f then fs[|fs| - 1].value
    else LastValue(fs[..|fs| - 1], f)
  }

  lemma {:induction false} LastValueAbsent(fs: seq<IndValue>, f: int)
    requires forall k :: 0 <= k < |fs| ==> fs[k].index != f
    ensures LastValue(fs, f) == 0.0
  {
    if |fs| > 0 {
      var p := fs[..|fs| - 1];
      assert forall k :: 0 <= k < |p| ==> p[k] == fs[k];
      LastValueAbsent(p, f);
    }
  }

  lemma {:induction false} LastValueAt(fs: seq<IndValue>, f: int, k: int)
    requires 0 <= k < |fs| && fs[k].index == f && forall j :: k < j < |fs| ==> fs[j].index != f
    ensures LastValue(fs, f) == fs[k].value
  {
    if k < |fs| - 1 {
      var p := fs[..|fs| - 1];
      assert forall j :: k < j < |p| ==> p[j] == fs[j];
      LastValueAt(p, f, k);
    }
  }

  /** No index occurs twice. */
  predicate DistinctIndices(fs: seq<IndValue>) {
    forall j, k :: 0 <= j < k < |fs| ==> fs[j].index != fs[k].index
  }

  /** When no index repeats, the first and the last pair with an index are
      the same pair, so reading a threshold and filling a buffer agree. */
  lemma FirstIsLastWhenDistinct(fs: seq<IndValue>, f: int)
    requires DistinctIndices(fs)
    ensures FirstValue(fs, f) == LastValue(fs, f)
  {
    if k :| 0 <= k < |fs| && fs[k].index == f {
      LastValueAt(fs, f, k);
    } else {
      LastValueAbsent(fs, f);
    }
  }
}
