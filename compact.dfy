/** `CompactInstance_t` of src/include/fly_data.h, a record held as a dense
    vector of values, and `TextReader_t::auto_detect_mode` of
    src/fly_data.cc, which decides from a line whether a text file holds
    `index:value` pairs, dense values or bare indices. */
module Compact {
  import opened Wrappers
  import opened Instances
  import opened Split
  import opened GbdtNode
  import opened TextItems

  /** `TextFeatureMode_t`. */
  datatype Mode = AutoDetected | IndValueMode | ValuesMode | Ind1Mode

  /** The mode a line calls for: pairs when it holds a `:`, otherwise dense
      values when it holds a `.`, an `e` or a `-`, otherwise bare indices. */
  function DetectMode(line: string): (m: Mode)
    ensures m != AutoDetected
    ensures m == IndValueMode <==> ':' in line
  {
    if ':' in line then IndValueMode
    else if '.' in line || 'e' in line || '-' in line then ValuesMode
    else Ind1Mode
  }

  /** The flag-setting scan of `auto_detect_mode` (src/fly_data.cc:250-282). */
  method AutoDetectMode(line: string) returns (m: Mode)
    ensures m == DetectMode(line)
  {
    var isIndValue := false;
    var isValues := false;
    for i := 0 to |line|
      invariant isIndValue <==> ':' in line[..i]
      invariant isValues <==> exists j :: 0 <= j < i && line[j] != ':' && line[j] in {'.', 'e', '-'}
    {
      assert line[..i + 1] == line[..i] + [line[i]];
      if line[i] == ':' {
        isIndValue := true;
      } else if line[i] == '.' || line[i] == 'e' || line[i] == '-' {
        isValues := true;
      }
    }
    assert line[..|line|] == line;
    if isIndValue {
      m := IndValueMode;
    } else if isValues {
      m := ValuesMode;
    } else {
      m := Ind1Mode;
    }
  }

  /** `d` zeroes: what `malloc` followed by `memset` leaves. */
  function Zeros(d: nat): (z: seq<real>)
    ensures |z| == d && forall i :: 0 <= i < d ==> z[i] == 0.0
  {
    seq(d, _ => 0.0)
  }

  /** The buffer `set_dim(d)` and the constructor leave: none for 0. */
  function Buffer(d: nat): Option<seq<real>> {
    if d == 0 then None else Some(Zeros(d))
  }

  /** The pairs `convert_to_instance` produces from dense values: value `i`
      at index `i`. */
  function DensePairs(vs: seq<real>): (r: seq<IndValue>)
    ensures |r| == |vs| && forall i :: 0 <= i < |vs| ==> r[i] == IndValue(i, vs[i])
  {
    seq(|vs|, i requires 0 <= i < |vs| => IndValue(i, vs[i]))
  }

  /** The dense pairs have distinct indices and give every value back by
      its index, 0 past the end: looking a feature up in the converted
      record agrees with the dense vector. */
  lemma DensePairsReadBack(vs: seq<real>, f: int)
    ensures DistinctIndices(DensePairs(vs))
    ensures FirstValue(DensePairs(vs), f) == if 0 <= f < |vs| then vs[f] else 0.0
  {
    var r := DensePairs(vs);
    if 0 <= f < |vs| {
      assert r[f].index == f && forall j :: 0 <= j < f ==> r[j].index != f;
    }
  }

  /** The values of the fields after the label, each read with `strtod`
      (an unparseable field gives whatever `strtod` returns, 0 in C). */
  function FieldValues(flds: seq<string>, strtod: string -> Scan<real>): (vs: seq<real>)
    ensures |vs| == |flds| && forall i :: 0 <= i < |flds| ==> vs[i] == strtod(flds[i]).value
  {
    seq(|flds|, i requires 0 <= i < |flds| => strtod(flds[i]).value)
  }

  /** The label `int(f+0.5)` of a dense line: the value rounded half up,
      then truncated toward zero. */
  function DenseLabel(f: real): real {
    TruncToInt(f + 0.5) as real
  }

  const MismatchError := "CompactValue parse failed! values not match in one line."
  const RawError := "Want to convert raw CompactInstance_t to Instance_t"

  /** A line made only of separators has no field. */
  lemma {:induction false} FieldExists(s: string, delims: set<char>)
    requires exists k :: 0 <= k < |s| && s[k] !in delims
    ensures |Tokens(s, delims)| > 0
    decreases |s|
  {
    var n := |s| - 1;
    if s[n] in delims {
      var k :| 0 <= k < |s| && s[k] !in delims;
      assert s[..n][k] == s[k];
      FieldExists(s[..n], delims);
    }
  }

  /** The record `CompactInstance_t(d)` holds after `parse_item(line)`, with
      the value returned; a failure carries the exception's text.  Only a
      line whose field count disagrees with a non-zero `d` fails. */
  function DenseOf(d: nat, line: string, sep: set<char>, strtod: string -> Scan<real>): (r: Result<(real, Option<seq<real>>, nat)>)
    requires line == [] || |Tokens(line, sep)| > 0
    ensures r.Failure? <==> line != [] && d > 0 && |Tokens(line, sep)| - 1 != d
    ensures r.Failure? ==> r.error == MismatchError
    ensures r.Success? && line != [] ==> r.value.2 == |Tokens(line, sep)| - 1 && (r.value.1.Some? <==> r.value.2 > 0)
  {
    if line == [] then Success((0.0, Buffer(d), 0))
    else
      var flds := Tokens(line, sep);
      var dd := |flds| - 1;
      if d > 0 && dd != d then Failure(MismatchError)
      else Success((DenseLabel(strtod(flds[0]).value), if dd == 0 then None else Some(FieldValues(flds[1..], strtod)), dd))
  }

  /** `CompactInstance_t`: the label, the value buffer (`None` for a NULL
      `values`) and its dimension. */
  class CompactInstance {
    var target: real
    var values: Option<seq<real>>
    var dim: nat

    /** A buffer exists exactly when the dimension is not 0, and then it
        holds `dim` values. */
    ghost predicate Valid()
      reads this
    {
      (values.None? <==> dim == 0) && (values.Some? ==> |values.value| == dim)
    }

    /** `CompactInstance_t(d)` (src/include/fly_data.h:130-139). */
    constructor(d: nat)
      ensures Valid() && target == 0.0 && dim == d && values == Buffer(d)
    {
      target := 0.0;
      dim := d;
      values := Buffer(d);
    }

    /** `set_dim(d)`: the old buffer is freed and a zeroed one of `d`
        values allocated, none for 0 (src/include/fly_data.h:177-188). */
    method SetDim(d: nat)
      modifies this
      ensures Valid() && target == old(target) && dim == d && values == Buffer(d)
    {
      dim := d;
      values := Buffer(d);
    }

    /** `clear` (src/include/fly_data.h:169-175). */
    method Clear()
      modifies this
      ensures Valid() && target == old(target) && dim == 0 && values.None?
    {
      values := None;
      dim := 0;
    }

    /** `convert_to_instance`: the label and one pair per value, in index
        order; without a buffer it throws (src/include/fly_data.h:190-200). */
    method ConvertToInstance() returns (r: Result<Instance>)
      requires Valid()
      ensures r.Success? <==> values.Some?
      ensures r.Success? ==> r.value.target == target && |r.value.features| == dim &&
                             forall i :: 0 <= i < dim ==> r.value.features[i] == IndValue(i, values.value[i])
      ensures r.Failure? ==> r.error == RawError
    {
      if values.None? {
        return Failure(RawError);
      }
      var vs := values.value;
      var fs: seq<IndValue> := [];
      for i := 0 to dim
        invariant |fs| == i && forall j :: 0 <= j < i ==> fs[j] == IndValue(j, vs[j])
      {
        fs := fs + [IndValue(i, vs[i])];
      }
      r := Success(Instance(target, fs));
    }

    /** `parse_item(line, sep)`: an empty line returns 0 untouched.
        Otherwise the label is `int(f+0.5)` of the first field; a field
        count other than a non-zero `dim` throws, after the label is set;
        a missing buffer is allocated for the field count; then the fields
        fill the buffer and the dimension is returned
        (src/include/fly_data.h:202-224).  The first field is read without
        a check, so the line must hold one. */
    method ParseItem(line: string, sep: set<char>, strtod: string -> Scan<real>) returns (r: Result<nat>)
      requires Valid()
      requires line == [] || |Tokens(line, sep)| > 0
      modifies this
      ensures Valid()
      ensures line == [] ==> r == Success(0) && target == old(target) && values == old(values) && dim == old(dim)
      ensures line != [] ==> target == DenseLabel(strtod(Tokens(line, sep)[0]).value)
      ensures r.Failure? <==> line != [] && old(dim) > 0 && |Tokens(line, sep)| - 1 != old(dim)
      ensures r.Failure? ==> r.error == MismatchError && values == old(values) && dim == old(dim)
      ensures r.Success? && line != [] ==>
        r.value == dim == |Tokens(line, sep)| - 1 &&
        values == if dim == 0 then None else Some(FieldValues(Tokens(line, sep)[1..], strtod))
    {
      if line == [] {
        return Success(0);
      }
      var flds := SplitLine(line, sep);
      var f := strtod(flds[0]).value;
      target := DenseLabel(f);
      var d := |flds| - 1;
      if dim > 0 && d != dim {
        return Failure(MismatchError);
      }
      if values.None? {
        SetDim(d);
      }
      for i := 1 to |flds|
        invariant target == DenseLabel(f)
        invariant dim == d && values.Some? == (d > 0) && (values.Some? ==> |values.value| == d)
        invariant values.Some? ==> forall j :: 0 <= j < i - 1 ==> values.value[j] == strtod(flds[j + 1]).value
      {
        values := Some(values.value[i - 1 := strtod(flds[i]).value]);
      }
      if d > 0 {
        assert values.value == FieldValues(flds[1..], strtod);
      }
      r := Success(dim);
    }
  }

  /** Parsing a line into a fresh `CompactInstance_t(d)` leaves exactly the
      record `DenseOf` describes. */
  method ParseFresh(d: nat, line: string, sep: set<char>, strtod: string -> Scan<real>) returns (r: Result<(real, Option<seq<real>>, nat)>)
    requires line == [] || |Tokens(line, sep)| > 0
    ensures r == DenseOf(d, line, sep, strtod)
  {
    var c := new CompactInstance(d);
    var n := c.ParseItem(line, sep, strtod);
    if n.Failure? {
      return Failure(n.error);
    }
    r := Success((c.target, c.values, n.value));
  }
}
