/** Min-max scaling of feature values, `MeanStdvar_Uniform` of
    src/models/uniform.h: `stat` records, per dimension, the smallest and
    largest value seen (both starting at 0), and `uniform`/`self_uniform`
    map a value into [0, 1] by those bounds. */
module Uniform {
  import opened Wrappers
  import opened Instances

  /** The pairs of all records, record by record, in order. */
  function Flatten(rs: seq<Instance>): seq<IndValue>
    decreases |rs|
  {
    if rs == [] then [] else Flatten(rs[..|rs| - 1]) + rs[|rs| - 1].features
  }

  function Min(a: real, b: real): real {
    if a <= b then a else b
  }

  function Max(a: real, b: real): real {
    if a >= b then a else b
  }

  /** The smallest value of index `f` among the pairs, starting from 0. */
  function Lo(ps: seq<IndValue>, f: int): real
    decreases |ps|
  {
    if ps == [] then 0.0
    else
      var p := ps[|ps| - 1];
      if p.index == f then Min(Lo(ps[..|ps| - 1], f), p.value) else Lo(ps[..|ps| - 1], f)
  }

  /** The largest value of index `f` among the pairs, starting from 0. */
  function Hi(ps: seq<IndValue>, f: int): real
    decreases |ps|
  {
    if ps == [] then 0.0
    else
      var p := ps[|ps| - 1];
      if p.index == f then Max(Hi(ps[..|ps| - 1], f), p.value) else Hi(ps[..|ps| - 1], f)
  }

  /** The bounds bracket 0 and every value of their index, and each is 0
      or one of those values. */
  lemma {:induction false} BoundsBracket(ps: seq<IndValue>, f: int)
    ensures Lo(ps, f) <= 0.0 <= Hi(ps, f)
    ensures forall k :: 0 <= k < |ps| && ps[k].index == f ==> Lo(ps, f) <= ps[k].value <= Hi(ps, f)
    ensures Lo(ps, f) == 0.0 || exists k :: 0 <= k < |ps| && ps[k].index == f && ps[k].value == Lo(ps, f)
    ensures Hi(ps, f) == 0.0 || exists k :: 0 <= k < |ps| && ps[k].index == f && ps[k].value == Hi(ps, f)
    decreases |ps|
  {
    if ps != [] {
      var n := |ps| - 1;
      var q := ps[..n];
      BoundsBracket(q, f);
      assert forall k :: 0 <= k < n ==> q[k] == ps[k];
    }
  }

  lemma BoundsStep(ps: seq<IndValue>, p: IndValue, f: int)
    ensures Lo(ps + [p], f) == if p.index == f then Min(Lo(ps, f), p.value) else Lo(ps, f)
    ensures Hi(ps + [p], f) == if p.index == f then Max(Hi(ps, f), p.value) else Hi(ps, f)
  {
    assert (ps + [p])[..|ps|] == ps;
  }

  /** `v` clamped to `[mn, mx]` and mapped onto [0, 1]. */
  function Scale(v: real, mn: real, mx: real): real
    requires mx > mn
  {
    var c := if v > mx then mx else if v < mn then mn else v;
    (c - mn) / (mx - mn)
  }

  /** A scaled value lies in [0, 1]; the lower bound maps to 0 and the
      upper to 1. */
  lemma ScaleInUnit(v: real, mn: real, mx: real)
    requires mx > mn
    ensures 0.0 <= Scale(v, mn, mx) <= 1.0
    ensures Scale(mn, mn, mx) == 0.0 && Scale(mx, mn, mx) == 1.0
  {
    var c := if v > mx then mx else if v < mn then mn else v;
    var d := mx - mn;
    assert 0.0 <= c - mn <= d;
    QuotientInUnit(c - mn, d);
    assert (mx - mn) / d == 1.0 by { QuotientInUnit(d, d); }
  }

  /** A part of a positive whole, divided by the whole, lies in [0, 1]. */
  lemma QuotientInUnit(x: real, d: real)
    requires 0.0 <= x <= d && d > 0.0
    ensures 0.0 <= x / d <= 1.0
    ensures x == d ==> x / d == 1.0
  {
    var q := x / d;
    assert q * d == x;
    assert (q - 1.0) * d <= 0.0;
  }

  /** One pair after scaling: an index in `[0, dim)` whose bounds differ
      gets its value scaled; every other pair is kept. */
  function ScalePair(p: IndValue, mins: seq<real>, maxs: seq<real>): (r: IndValue)
    requires |mins| == |maxs|
    ensures r.index == p.index
  {
    if 0 <= p.index < |mins| && maxs[p.index] > mins[p.index]
    then IndValue(p.index, Scale(p.value, mins[p.index], maxs[p.index]))
    else p
  }

  /** A record after scaling: the label and the pairs' order and indices
      kept, each pair through `ScalePair`. */
  function Scaled(ins: Instance, mins: seq<real>, maxs: seq<real>): (r: Instance)
    requires |mins| == |maxs|
  {
    Instance(ins.target, seq(|ins.features|, i requires 0 <= i < |ins.features| => ScalePair(ins.features[i], mins, maxs)))
  }

  /** Scaling keeps the label, the pairs' count, order and indices,
      leaves out-of-range and flat dimensions alone, and maps every other
      value into [0, 1]. */
  lemma ScaledShape(ins: Instance, mins: seq<real>, maxs: seq<real>)
    requires |mins| == |maxs|
    ensures var r := Scaled(ins, mins, maxs);
      r.target == ins.target && |r.features| == |ins.features| &&
      forall i :: 0 <= i < |ins.features| ==> r.features[i].index == ins.features[i].index
    ensures var r := Scaled(ins, mins, maxs);
      forall i :: 0 <= i < |ins.features| ==>
        var f := ins.features[i].index;
        if 0 <= f < |mins| && maxs[f] > mins[f] then 0.0 <= r.features[i].value <= 1.0
        else r.features[i].value == ins.features[i].value
  {
    var r := Scaled(ins, mins, maxs);
    forall i | 0 <= i < |ins.features|
      ensures var f := ins.features[i].index;
        if 0 <= f < |mins| && maxs[f] > mins[f] then 0.0 <= r.features[i].value <= 1.0
        else r.features[i].value == ins.features[i].value
    {
      var p := ins.features[i];
      if 0 <= p.index < |mins| && maxs[p.index] > mins[p.index] {
        ScaleInUnit(p.value, mins[p.index], maxs[p.index]);
      }
    }
  }

  /** `uniform` with the guard as written, `index < dim`: a negative index
      passes it and reads before the bounds, which C leaves undefined
      (`None`) (src/models/uniform.h:145-168). */
  function ScaledAsWritten(ins: Instance, mins: seq<real>, maxs: seq<real>): Option<Instance>
    requires |mins| == |maxs|
  {
    if exists k :: 0 <= k < |ins.features| && ins.features[k].index < 0 then None
    else Some(Scaled(ins, mins, maxs))
  }

  /** As written, the pair `-1:5` passes the guard of a one-dimension
      scaler and reads outside its bounds; with the lower bound checked it
      is kept as it is. */
  lemma NegativeIndexScaled()
    ensures ScaledAsWritten(Instance(0.0, [IndValue(-1, 5.0)]), [0.0], [1.0]).None?
    ensures Scaled(Instance(0.0, [IndValue(-1, 5.0)]), [0.0], [1.0]) == Instance(0.0, [IndValue(-1, 5.0)])
  {
    var ins := Instance(0.0, [IndValue(-1, 5.0)]);
    assert ins.features[0].index < 0;
    assert Scaled(ins, [0.0], [1.0]).features == [IndValue(-1, 5.0)];
  }

  /** `MeanStdvar_Uniform`: the dimension count and the per-dimension
      lower and upper bounds. */
  class MeanStdvarUniform {
    var dim: nat
    var mins: array<real>
    var maxs: array<real>

    ghost predicate Valid()
      reads this
    {
      mins.Length == dim && maxs.Length == dim && mins != maxs
    }

    /** The constructor: no dimension (src/models/uniform.h:22-29). */
    constructor()
      ensures Valid() && dim == 0
    {
      dim := 0;
      mins := new real[0];
      maxs := new real[0];
    }

    /** `stat(reader)`: the dimension is the reader's, both bounds start
        at 0 and only widen, and pairs with an index outside `[0, dim)`
        are skipped; the records are the reader's, in order
        (src/models/uniform.h:50-76). */
    method Stat(records: seq<Instance>, d: nat)
      modifies this
      ensures Valid() && dim == d && fresh(mins) && fresh(maxs)
      ensures forall f :: 0 <= f < d ==> mins[f] == Lo(Flatten(records), f) && maxs[f] == Hi(Flatten(records), f)
    {
      dim := d;
      var lo := new real[d](_ => 0.0);
      var hi := new real[d](_ => 0.0);
      for r := 0 to |records|
        modifies lo, hi
        invariant forall f :: 0 <= f < d ==> lo[f] == Lo(Flatten(records[..r]), f) && hi[f] == Hi(Flatten(records[..r]), f)
      {
        var fs := records[r].features;
        ghost var before := Flatten(records[..r]);
        assert before + fs[..0] == before;
        for k := 0 to |fs|
          modifies lo, hi
          invariant forall f :: 0 <= f < d ==> lo[f] == Lo(before + fs[..k], f) && hi[f] == Hi(before + fs[..k], f)
        {
          var fid := fs[k].index;
          var value := fs[k].value;
          assert before + fs[..k + 1] == (before + fs[..k]) + [fs[k]];
          forall f | 0 <= f < d
            ensures Lo(before + fs[..k + 1], f) == if fid == f then Min(Lo(before + fs[..k], f), value) else Lo(before + fs[..k], f)
            ensures Hi(before + fs[..k + 1], f) == if fid == f then Max(Hi(before + fs[..k], f), value) else Hi(before + fs[..k], f)
          {
            BoundsStep(before + fs[..k], fs[k], f);
          }
          if 0 <= fid < d {
            lo[fid] := Min(lo[fid], value);
            hi[fid] := Max(hi[fid], value);
          }
        }
        assert records[..r + 1][..r] == records[..r];
        assert fs[..|fs|] == fs;
      }
      assert records[..|records|] == records;
      mins := lo;
      maxs := hi;
    }

    /** `uniform(out, in)`: a copy of the record with every pair in range
        scaled, the lower bound checked (src/models/uniform.h:145-168);
        `self_uniform` (170-185) runs the same loop on the record itself,
        which for a record held as a value is the same result. */
    method Apply(ins: Instance) returns (out: Instance)
      requires Valid()
      ensures out == Scaled(ins, mins[..], maxs[..])
    {
      out := ins;
      var fs := ins.features;
      for i := 0 to |fs|
        invariant |fs| == |ins.features|
        invariant forall k :: 0 <= k < i ==> fs[k] == ScalePair(ins.features[k], mins[..], maxs[..])
        invariant forall k :: i <= k < |fs| ==> fs[k] == ins.features[k]
      {
        var iv := fs[i];
        if 0 <= iv.index < dim {
          var mn := mins[iv.index];
          var mx := maxs[iv.index];
          if mx > mn {
            var v := iv.value;
            if v > mx {
              v := mx;
            } else if v < mn {
              v := mn;
            }
            fs := fs[i := IndValue(iv.index, (v - mn) / (mx - mn))];
          }
        }
      }
      out := Instance(ins.target, fs);
    }
  }
}
