/** The text and binary record formats of `Instance_t`: the line parser
    `parse_item` in its three revisions (src/include/fly_data.h,
    src/include/fly_core.h and fly_core.h), the writer `write` whose output
    it reads, and the binary pair `write_binary`/`read_binary`.

    The C library conversions are parameters.  `strtod` and `strtol` are
    given as functions from the text at the conversion's start to a
    `Scan`: the value and how many characters the conversion consumed, 0
    meaning no conversion.  `atof` and `atoi` of the oldest revision give
    only the value.  A line is the C string up to its terminator, so it
    holds no NUL character. */
module TextItems {
  import opened Wrappers
  import opened Instances

  /** What `strtod`/`strtol` report through `end_ptr`. */
  datatype Scan<T> = Scan(value: T, len: nat)

  /** The characters the parser treats as separators. */
  predicate IsSpace(c: char) {
    c == ' ' || c == '\t' || c == '\n' || c == '\r'
  }

  // ---------------------------------------------------------------------
  // The parser of src/include/fly_data.h and src/include/fly_core.h.
  // ---------------------------------------------------------------------

  /** The loop state: where the current token begins, the index read at
      the last `:` (`iv.index`), whether one is pending (`index_illegal`)
      and the pairs pushed so far. */
  datatype Cursor = Cursor(begin: nat, index: int, pending: bool, pairs: seq<IndValue>)

  const Start: Cursor := Cursor(0, -1, false, [])

  /** One character of the loop; `None` when the call fails there.  At
      `:` the index is read from the token start; at a separator a pending
      index takes the value read from the token start, which must end at a
      separator (the terminator does not count). */
  function Step(line: string, i: nat, st: Cursor, strtod: string -> Scan<real>, strtol: string -> Scan<int>): (r: Option<Cursor>)
    requires i < |line| && st.begin <= |line|
    ensures r.Some? ==> r.value.begin <= i + 1 || r.value.begin == st.begin
    ensures line[i] != ':' && !IsSpace(line[i]) ==> r == Some(st)
  {
    var c := line[i];
    if c == ':' then
      var sc := strtol(line[st.begin..]);
      if sc.len == 0 then None else Some(Cursor(i + 1, sc.value, true, st.pairs))
    else if IsSpace(c) then
      if !st.pending then Some(st.(begin := i + 1))
      else
        var sc := strtod(line[st.begin..]);
        var e := st.begin + sc.len;
        if sc.len == 0 || e >= |line| || !IsSpace(line[e]) then None
        else
          Some(Cursor(i + 1, -1, false, st.pairs + [IndValue(st.index, sc.value)]))
    else Some(st)
  }

  /** The loop from position `i` to the end: whether it got through and
      the pairs pushed (up to the failure, if any). */
  function Run(line: string, i: nat, st: Cursor, strtod: string -> Scan<real>, strtol: string -> Scan<int>): (bool, seq<IndValue>)
    requires i <= |line| && st.begin <= i
    decreases |line| - i
  {
    if i == |line| then (true, st.pairs)
    else match Step(line, i, st, strtod, strtol)
      case None => (false, st.pairs)
      case Some(next) => Run(line, i + 1, next, strtod, strtol)
  }

  /** `parse_item` of src/include/fly_core.h: the label is the leading
      number, and a line without one fails with the features untouched;
      otherwise the features are replaced by the pairs the loop pushes. */
  function ParseCore(line: string, prior: Instance, strtod: string -> Scan<real>, strtol: string -> Scan<int>): (r: (bool, Instance))
    ensures r.1.target == strtod(line).value
    ensures strtod(line).len == 0 ==> !r.0 && r.1.features == prior.features
    ensures strtod(line).len > 0 ==> r == (Run(line, 0, Start, strtod, strtol).0, Instance(strtod(line).value, Run(line, 0, Start, strtod, strtol).1))
  {
    var lead := strtod(line);
    if lead.len == 0 then (false, Instance(lead.value, prior.features))
    else
      var (ok, pairs) := Run(line, 0, Start, strtod, strtol);
      (ok, Instance(lead.value, pairs))
  }

  /** `parse_item` of src/include/fly_data.h: as above, except that an
      empty line fails before the label is touched. */
  function ParseData(line: string, prior: Instance, strtod: string -> Scan<real>, strtol: string -> Scan<int>): (r: (bool, Instance))
    ensures line == [] ==> r == (false, prior)
    ensures line != [] ==> r == ParseCore(line, prior, strtod, strtol)
  {
    if line == [] then (false, prior) else ParseCore(line, prior, strtod, strtol)
  }

  /** The character loop shared by both revisions
      (src/include/fly_data.h:66-98, src/include/fly_core.h:58-89). */
  method ScanPairs(line: string, strtod: string -> Scan<real>, strtol: string -> Scan<int>) returns (ok: bool, pairs: seq<IndValue>)
    ensures (ok, pairs) == Run(line, 0, Start, strtod, strtol)
  {
    var begin: nat := 0;
    var index := -1;
    var pending := false;
    pairs := [];
    var i := 0;
    while i < |line|
      invariant i <= |line| && begin <= i
      invariant Run(line, i, Cursor(begin, index, pending, pairs), strtod, strtol) == Run(line, 0, Start, strtod, strtol)
      decreases |line| - i
    {
      if line[i] == ':' {
        var sc := strtol(line[begin..]);
        if sc.len == 0 {
          return false, pairs;
        }
        index := sc.value;
        begin := i + 1;
        pending := true;
      }
      if IsSpace(line[i]) {
        if !pending {
          begin := i + 1;
        } else {
          var sc := strtod(line[begin..]);
          var e := begin + sc.len;
          if sc.len == 0 || e >= |line| || !IsSpace(line[e]) {
            return false, pairs;
          }
          pairs := pairs + [IndValue(index, sc.value)];
          index := -1;
          pending := false;
          begin := i + 1;
        }
      }
      i := i + 1;
    }
    return true, pairs;
  }

  /** `Instance_t::parse_item` of src/include/fly_data.h:53-100. */
  method ParseItem(line: string, prior: Instance, strtod: string -> Scan<real>, strtol: string -> Scan<int>) returns (ok: bool, ins: Instance)
    ensures (ok, ins) == ParseData(line, prior, strtod, strtol)
  {
    if line == [] {
      return false, prior;
    }
    ok, ins := ParseItemCore(line, prior, strtod, strtol);
  }

  /** `Instance_t::parse_item` of src/include/fly_core.h:49-90. */
  method ParseItemCore(line: string, prior: Instance, strtod: string -> Scan<real>, strtol: string -> Scan<int>) returns (ok: bool, ins: Instance)
    ensures (ok, ins) == ParseCore(line, prior, strtod, strtol)
  {
    var lead := strtod(line);
    if lead.len == 0 {
      return false, Instance(lead.value, prior.features);
    }
    var pairs;
    ok, pairs := ScanPairs(line, strtod, strtol);
    ins := Instance(lead.value, pairs);
  }

  // ---------------------------------------------------------------------
  // Properties of the loop.
  // ---------------------------------------------------------------------

  /** A stretch of text holding no `:` and no separator leaves the loop
      state as it is. */
  predicate Plain(s: string) {
    forall k :: 0 <= k < |s| ==> s[k] != ':' && !IsSpace(s[k])
  }

  lemma {:induction false} RunSkipsPlain(line: string, i: nat, j: nat, st: Cursor, strtod: string -> Scan<real>, strtol: string -> Scan<int>)
    requires i <= j <= |line| && st.begin <= i && Plain(line[i..j])
    ensures Run(line, i, st, strtod, strtol) == Run(line, j, st, strtod, strtol)
    decreases j - i
  {
    if i < j {
      assert line[i..j][0] == line[i];
      assert line[i + 1..j] == line[i..j][1..];
      RunSkipsPlain(line, i + 1, j, st, strtod, strtol);
    }
  }

  /** A line whose pairs part has no `:` yields no pairs and does not fail:
      tokens without an index produce nothing. */
  lemma {:induction false} NoColonNoPairs(line: string, i: nat, st: Cursor, strtod: string -> Scan<real>, strtol: string -> Scan<int>)
    requires i <= |line| && st.begin <= i && !st.pending
    requires forall k :: i <= k < |line| ==> line[k] != ':'
    ensures Run(line, i, st, strtod, strtol) == (true, st.pairs)
    decreases |line| - i
  {
    if i < |line| {
      var next := Step(line, i, st, strtod, strtol);
      assert next.Some? && !next.value.pending && next.value.pairs == st.pairs;
      NoColonNoPairs(line, i + 1, next.value, strtod, strtol);
    }
  }

  /** A tail with no separator adds no pair: a last pair not followed by a
      separator is not pushed (the call may still fail on a bad index). */
  lemma {:induction false} UnterminatedTailAddsNothing(line: string, i: nat, st: Cursor, strtod: string -> Scan<real>, strtol: string -> Scan<int>)
    requires i <= |line| && st.begin <= i
    requires forall k :: i <= k < |line| ==> !IsSpace(line[k])
    ensures Run(line, i, st, strtod, strtol).1 == st.pairs
    decreases |line| - i
  {
    if i < |line| {
      var next := Step(line, i, st, strtod, strtol);
      if next.Some? {
        assert next.value.pairs == st.pairs;
        UnterminatedTailAddsNothing(line, i + 1, next.value, strtod, strtol);
      }
    }
  }

  // ---------------------------------------------------------------------
  // The writer and the round trip.
  // ---------------------------------------------------------------------

  /** A printed number: not empty, no separator, no `:`. */
  predicate Token(s: string) {
    |s| > 0 && Plain(s)
  }

  /** The text `write` prints after the label: ` %d:%f` for each pair,
      then the newline. */
  function PairsText(fs: seq<IndValue>, showInt: int -> string, showReal: real -> string): (t: string)
    ensures |t| > 0 && IsSpace(t[0])
    decreases |fs|
  {
    if fs == [] then "\n"
    else " " + (showInt(fs[0].index) + (":" + (showReal(fs[0].value) + PairsText(fs[1..], showInt, showReal))))
  }

  /** The line `write` prints: `%f` of the label, the pairs, a newline
      (src/include/fly_data.h:45-51, src/include/fly_core.h:40-46). */
  function Text(ins: Instance, showInt: int -> string, showReal: real -> string): string {
    showReal(ins.target) + PairsText(ins.features, showInt, showReal)
  }

  /** The values as `%f` rounds them. */
  function Rounded(fs: seq<IndValue>, round: real -> real): (r: seq<IndValue>)
    ensures |r| == |fs| && forall k :: 0 <= k < |fs| ==> r[k] == IndValue(fs[k].index, round(fs[k].value))
  {
    seq(|fs|, k requires 0 <= k < |fs| => IndValue(fs[k].index, round(fs[k].value)))
  }

  /** What the round trip needs of the C library: printed numbers are
      tokens, and the conversions read a printed number back whole (a real
      as its rounded value) when a separator, respectively a `:`, follows. */
  ghost predicate Faithful(showInt: int -> string, showReal: real -> string, round: real -> real,
                           strtod: string -> Scan<real>, strtol: string -> Scan<int>) {
    (forall k :: Token(showInt(k))) && (forall v :: Token(showReal(v))) &&
    (forall v, rest {:trigger RealReadBack(showReal, round, strtod, v, rest)} :: RealReadBack(showReal, round, strtod, v, rest)) &&
    (forall k, rest {:trigger IntReadBack(showInt, strtol, k, rest)} :: IntReadBack(showInt, strtol, k, rest))
  }

  /** `strtod` reads a printed real back whole, as its rounded value, when a
      separator follows it. */
  predicate RealReadBack(showReal: real -> string, round: real -> real, strtod: string -> Scan<real>, v: real, rest: string) {
    |rest| > 0 && IsSpace(rest[0]) ==> strtod(showReal(v) + rest) == Scan(round(v), |showReal(v)|)
  }

  /** `strtol` reads a printed integer back whole when a `:` follows it. */
  predicate IntReadBack(showInt: int -> string, strtol: string -> Scan<int>, k: int, rest: string) {
    |rest| > 0 && rest[0] == ':' ==> strtol(showInt(k) + rest) == Scan(k, |showInt(k)|)
  }

  /** Where the parts of a printed pair `k:v` followed by `more` lie, the
      text starting at position `j`. */
  lemma PairLayout(line: string, j: nat, ki: string, vi: string, more: string)
    requires j <= |line| && line[j..] == ki + (":" + (vi + more))
    ensures var c := j + |ki|; var e := c + 1 + |vi|;
      e <= |line| && line[j..c] == ki && line[c] == ':' && line[c + 1..e] == vi &&
      line[e..] == more && line[c + 1..] == vi + more
  {
    var c := j + |ki|;
    var e := c + 1 + |vi|;
    var t := line[j..];
    assert t[..|ki|] == ki && t[|ki|] == ':' && t[|ki| + 1..|ki| + 1 + |vi|] == vi;
    assert t[|ki| + 1 + |vi|..] == more && t[|ki| + 1..] == vi + more;
  }

  /** The printed pairs seen from just after the separator before the
      first one: that pair's index, `:`, its value, then the rest. */
  lemma PairsTextHead(line: string, j: nat, fs: seq<IndValue>, showInt: int -> string, showReal: real -> string)
    requires 1 <= j <= |line| && fs != [] && line[j - 1..] == PairsText(fs, showInt, showReal)
    ensures line[j..] == showInt(fs[0].index) + (":" + (showReal(fs[0].value) + PairsText(fs[1..], showInt, showReal)))
  {
    assert line[j..] == line[j - 1..][1..];
  }

  /** A separator with no index pending only moves the token start. */
  lemma SpaceMovesStart(line: string, i: nat, st: Cursor, strtod: string -> Scan<real>, strtol: string -> Scan<int>)
    requires i < |line| && st.begin <= i && !st.pending && IsSpace(line[i])
    ensures Run(line, i, st, strtod, strtol) == Run(line, i + 1, st.(begin := i + 1), strtod, strtol)
  {
  }

  /** One printed pair `k:v` read from the start of its token, followed
      by a separator at `e`: the index is read at the `:`, and the pair is
      pushed at the separator. */
  lemma RunOnePair(line: string, j: nat, e: nat, st: Cursor, ki: string, vi: string, more: string, k: int, v: real,
                   strtod: string -> Scan<real>, strtol: string -> Scan<int>)
    requires Token(ki) && Token(vi) && |more| > 0 && IsSpace(more[0])
    requires j <= |line| && st.begin == j && !st.pending && line[j..] == ki + (":" + (vi + more))
    requires e == j + 1 + |ki| + |vi|
    requires strtol(ki + (":" + (vi + more))) == Scan(k, |ki|) && strtod(vi + more) == Scan(v, |vi|)
    ensures e < |line| && line[e..] == more
    ensures Run(line, j, st, strtod, strtol) == Run(line, e + 1, Cursor(e + 1, -1, false, st.pairs + [IndValue(k, v)]), strtod, strtol)
  {
    PairLayout(line, j, ki, vi, more);
    var c := j + |ki|;
    RunSkipsPlain(line, j, c, st, strtod, strtol);
    var s2 := Cursor(c + 1, k, true, st.pairs);
    assert Step(line, c, st, strtod, strtol) == Some(s2);
    RunSkipsPlain(line, c + 1, e, s2, strtod, strtol);
    assert line[e] == more[0];
    assert Step(line, e, s2, strtod, strtol) == Some(Cursor(e + 1, -1, false, st.pairs + [IndValue(k, v)]));
  }

  /** The first printed pair, read from just after the separator before
      it, up to the separator after it. */
  lemma RunPairsHead(line: string, j: nat, e: nat, st: Cursor, fs: seq<IndValue>, p: seq<IndValue>,
                     showInt: int -> string, showReal: real -> string, round: real -> real,
                     strtod: string -> Scan<real>, strtol: string -> Scan<int>)
    requires Faithful(showInt, showReal, round, strtod, strtol)
    requires 1 <= j <= |line| && st.begin == j && !st.pending
    requires fs != [] && line[j - 1..] == PairsText(fs, showInt, showReal)
    requires e == j + 1 + |showInt(fs[0].index)| + |showReal(fs[0].value)|
    requires p == st.pairs + [IndValue(fs[0].index, round(fs[0].value))]
    ensures e < |line| && line[e..] == PairsText(fs[1..], showInt, showReal)
    ensures Run(line, j, st, strtod, strtol) == Run(line, e + 1, Cursor(e + 1, -1, false, p), strtod, strtol)
  {
    var ki, vi := showInt(fs[0].index), showReal(fs[0].value);
    var more := PairsText(fs[1..], showInt, showReal);
    PairsTextHead(line, j, fs, showInt, showReal);
    assert Token(ki) && Token(vi);
    assert IntReadBack(showInt, strtol, fs[0].index, ":" + (vi + more));
    assert RealReadBack(showReal, round, strtod, fs[0].value, more);
    RunOnePair(line, j, e, st, ki, vi, more, fs[0].index, round(fs[0].value), strtod, strtol);
  }

  /** Rounding a non-empty sequence after `prev`: the head's pair, then
      the tail's. */
  lemma RoundedCons(prev: seq<IndValue>, fs: seq<IndValue>, round: real -> real)
    requires fs != []
    ensures prev + [IndValue(fs[0].index, round(fs[0].value))] + Rounded(fs[1..], round) == prev + Rounded(fs, round)
  {
    var r := Rounded(fs, round);
    assert r == [r[0]] + r[1..];
    assert r[1..] == Rounded(fs[1..], round);
  }

  /** The final newline ends the loop: nothing is left to read. */
  lemma RunNewline(line: string, j: nat, st: Cursor, strtod: string -> Scan<real>, strtol: string -> Scan<int>)
    requires 1 <= j <= |line| && st.begin <= j && line[j - 1..] == "\n"
    ensures Run(line, j, st, strtod, strtol) == (true, st.pairs)
  {
    assert |line[j - 1..]| == 1;
  }

  /** The loop over the printed pairs and the final newline, from just
      after the separator that precedes them. */
  lemma {:induction false} RunPairsText(line: string, j: nat, st: Cursor, fs: seq<IndValue>,
                                        showInt: int -> string, showReal: real -> string, round: real -> real,
                                        strtod: string -> Scan<real>, strtol: string -> Scan<int>)
    requires Faithful(showInt, showReal, round, strtod, strtol)
    requires 1 <= j <= |line| && st.begin == j && !st.pending
    requires line[j - 1..] == PairsText(fs, showInt, showReal)
    ensures Run(line, j, st, strtod, strtol) == (true, st.pairs + Rounded(fs, round))
    decreases |fs|
  {
    if fs == [] {
      RunNewline(line, j, st, strtod, strtol);
      assert st.pairs + Rounded(fs, round) == st.pairs;
    } else {
      var e := j + 1 + |showInt(fs[0].index)| + |showReal(fs[0].value)|;
      var p := st.pairs + [IndValue(fs[0].index, round(fs[0].value))];
      RunPairsHead(line, j, e, st, fs, p, showInt, showReal, round, strtod, strtol);
      RunPairsText(line, e + 1, Cursor(e + 1, -1, false, p), fs[1..], showInt, showReal, round, strtod, strtol);
      RoundedCons(st.pairs, fs, round);
    }
  }

  /** Printing a record and parsing the line back gives the record with its
      values as `%f` rounds them: indices, order and duplicates are kept
      (src/include/fly_data.h:45-100, src/include/fly_core.h:40-90). */
  lemma TextRoundTrip(ins: Instance, prior: Instance, showInt: int -> string, showReal: real -> string, round: real -> real,
                      strtod: string -> Scan<real>, strtol: string -> Scan<int>)
    requires Faithful(showInt, showReal, round, strtod, strtol)
    ensures ParseData(Text(ins, showInt, showReal), prior, strtod, strtol) ==
            (true, Instance(round(ins.target), Rounded(ins.features, round)))
  {
    var line := Text(ins, showInt, showReal);
    var lt := showReal(ins.target);
    var rest := PairsText(ins.features, showInt, showReal);
    assert line == lt + rest;
    assert RealReadBack(showReal, round, strtod, ins.target, rest);
    assert strtod(line) == Scan(round(ins.target), |lt|);
    assert Token(lt);
    assert line[0..|lt|] == lt && line[|lt|..] == rest;
    RunSkipsPlain(line, 0, |lt|, Start, strtod, strtol);
    assert line[|lt|] == rest[0];
    SpaceMovesStart(line, |lt|, Start, strtod, strtol);
    RunPairsText(line, |lt| + 1, Start.(begin := |lt| + 1), ins.features, showInt, showReal, round, strtod, strtol);
    assert Start.pairs + Rounded(ins.features, round) == Rounded(ins.features, round);
  }

  // ---------------------------------------------------------------------
  // The parser of fly_core.h (oldest revision).
  // ---------------------------------------------------------------------

  /** The loop state: token start, index read at the last `:` (-1 when
      none) and the pairs pushed. */
  datatype LegacyCursor = LegacyCursor(begin: nat, index: int, pairs: seq<IndValue>)

  /** One character: `:` reads the index with `atoi`; a separator reads the
      value with `atof`, pushes the pair when the index is not negative,
      and forgets the index. */
  function LegacyStep(line: string, i: nat, st: LegacyCursor, atof: string -> real, atoi: string -> int): (r: LegacyCursor)
    requires i < |line| && st.begin <= i
    ensures r.begin <= i + 1
  {
    var c := line[i];
    if c == ':' then LegacyCursor(i + 1, atoi(line[st.begin..]), st.pairs)
    else if IsSpace(c) then
      LegacyCursor(i + 1, -1, if st.index >= 0 then st.pairs + [IndValue(st.index, atof(line[st.begin..]))] else st.pairs)
    else st
  }

  function LegacyRun(line: string, i: nat, st: LegacyCursor, atof: string -> real, atoi: string -> int): seq<IndValue>
    requires i <= |line| && st.begin <= i
    decreases |line| - i
  {
    if i == |line| then st.pairs else LegacyRun(line, i + 1, LegacyStep(line, i, st, atof, atoi), atof, atoi)
  }

  /** `parse_item` of fly_core.h: the label is `atof` of the line and the
      features are what the loop pushes; the call cannot fail. */
  function LegacyParse(line: string, atof: string -> real, atoi: string -> int): Instance {
    Instance(atof(line), LegacyRun(line, 0, LegacyCursor(0, -1, []), atof, atoi))
  }

  /** `Instance_t::parse_item` of fly_core.h:51-73. */
  method LegacyParseItem(line: string, atof: string -> real, atoi: string -> int) returns (ins: Instance)
    ensures ins == LegacyParse(line, atof, atoi)
  {
    var begin: nat := 0;
    var index := -1;
    var pairs: seq<IndValue> := [];
    for i := 0 to |line|
      invariant begin <= i
      invariant LegacyRun(line, i, LegacyCursor(begin, index, pairs), atof, atoi) == LegacyRun(line, 0, LegacyCursor(0, -1, []), atof, atoi)
    {
      if line[i] == ':' {
        index := atoi(line[begin..]);
        begin := i + 1;
      }
      if IsSpace(line[i]) {
        var value := atof(line[begin..]);
        if index >= 0 {
          pairs := pairs + [IndValue(index, value)];
        }
        index := -1;
        begin := i + 1;
      }
    }
    ins := Instance(atof(line), pairs);
  }

  /** Every pushed pair has an index that is not negative. */
  lemma {:induction false} LegacyIndicesNotNegative(line: string, i: nat, st: LegacyCursor, atof: string -> real, atoi: string -> int)
    requires i <= |line| && st.begin <= i
    requires forall k :: 0 <= k < |st.pairs| ==> st.pairs[k].index >= 0
    ensures forall k :: 0 <= k < |LegacyRun(line, i, st, atof, atoi)| ==> LegacyRun(line, i, st, atof, atoi)[k].index >= 0
    decreases |line| - i
  {
    if i < |line| {
      LegacyIndicesNotNegative(line, i + 1, LegacyStep(line, i, st, atof, atoi), atof, atoi);
    }
  }

  /** A tail with no separator adds no pair: a last pair not followed by a
      separator is dropped (fly_core.h:58-72). */
  lemma {:induction false} LegacyDropsUnterminated(line: string, i: nat, st: LegacyCursor, atof: string -> real, atoi: string -> int)
    requires i <= |line| && st.begin <= i
    requires forall k :: i <= k < |line| ==> !IsSpace(line[k])
    ensures LegacyRun(line, i, st, atof, atoi) == st.pairs
    decreases |line| - i
  {
    if i < |line| {
      LegacyDropsUnterminated(line, i + 1, LegacyStep(line, i, st, atof, atoi), atof, atoi);
    }
  }

  /** The pairs with an index that is not negative, in order. */
  function NonNegative(fs: seq<IndValue>): (r: seq<IndValue>)
    ensures forall k :: 0 <= k < |r| ==> r[k].index >= 0
    ensures |r| <= |fs|
    decreases |fs|
  {
    if fs == [] then [] else (if fs[0].index >= 0 then [fs[0]] else []) + NonNegative(fs[1..])
  }

  /** What the oldest revision needs of `atof`/`atoi` for the round trip. */
  ghost predicate LegacyFaithful(showInt: int -> string, showReal: real -> string, round: real -> real,
                                 atof: string -> real, atoi: string -> int) {
    (forall k :: Token(showInt(k))) && (forall v :: Token(showReal(v))) &&
    (forall v, rest {:trigger LegacyRealReadBack(showReal, round, atof, v, rest)} :: LegacyRealReadBack(showReal, round, atof, v, rest)) &&
    (forall k, rest {:trigger LegacyIntReadBack(showInt, atoi, k, rest)} :: LegacyIntReadBack(showInt, atoi, k, rest))
  }

  /** `atof` reads a printed real back as its rounded value when a
      separator follows it. */
  predicate LegacyRealReadBack(showReal: real -> string, round: real -> real, atof: string -> real, v: real, rest: string) {
    |rest| > 0 && IsSpace(rest[0]) ==> atof(showReal(v) + rest) == round(v)
  }

  /** `atoi` reads a printed integer back when a `:` follows it. */
  predicate LegacyIntReadBack(showInt: int -> string, atoi: string -> int, k: int, rest: string) {
    |rest| > 0 && rest[0] == ':' ==> atoi(showInt(k) + rest) == k
  }

  lemma {:induction false} LegacySkipsPlain(line: string, i: nat, j: nat, st: LegacyCursor, atof: string -> real, atoi: string -> int)
    requires i <= j <= |line| && st.begin <= i && Plain(line[i..j])
    ensures LegacyRun(line, i, st, atof, atoi) == LegacyRun(line, j, st, atof, atoi)
    decreases j - i
  {
    if i < j {
      assert line[i..j][0] == line[i];
      assert line[i + 1..j] == line[i..j][1..];
      LegacySkipsPlain(line, i + 1, j, st, atof, atoi);
    }
  }

  /** A separator with no index pending pushes nothing and moves the token
      start. */
  lemma LegacySpaceMovesStart(line: string, i: nat, st: LegacyCursor, atof: string -> real, atoi: string -> int)
    requires i < |line| && st.begin <= i && st.index < 0 && IsSpace(line[i])
    ensures LegacyRun(line, i, st, atof, atoi) == LegacyRun(line, i + 1, LegacyCursor(i + 1, -1, st.pairs), atof, atoi)
  {
  }

  /** One printed pair `k:v` read from the start of its token, followed
      by a separator at `e`: the pair is pushed at that separator when `k`
      is not negative. */
  lemma LegacyOnePair(line: string, j: nat, e: nat, st: LegacyCursor, ki: string, vi: string, more: string, k: int, v: real,
                      atof: string -> real, atoi: string -> int)
    requires Token(ki) && Token(vi) && |more| > 0 && IsSpace(more[0])
    requires j <= |line| && st.begin == j && st.index < 0 && line[j..] == ki + (":" + (vi + more))
    requires e == j + 1 + |ki| + |vi|
    requires atoi(ki + (":" + (vi + more))) == k && atof(vi + more) == v
    ensures e < |line| && line[e..] == more
    ensures LegacyRun(line, j, st, atof, atoi) ==
      LegacyRun(line, e + 1, LegacyCursor(e + 1, -1, st.pairs + (if k >= 0 then [IndValue(k, v)] else [])), atof, atoi)
  {
    PairLayout(line, j, ki, vi, more);
    var c := j + |ki|;
    LegacySkipsPlain(line, j, c, st, atof, atoi);
    var s2 := LegacyCursor(c + 1, k, st.pairs);
    assert LegacyStep(line, c, st, atof, atoi) == s2;
    LegacySkipsPlain(line, c + 1, e, s2, atof, atoi);
    assert line[e] == more[0];
    assert LegacyStep(line, e, s2, atof, atoi) == LegacyCursor(e + 1, -1, st.pairs + (if k >= 0 then [IndValue(k, v)] else []));
  }

  /** The kept rounded pairs of a non-empty sequence after `prev`: the
      head's, if its index is not negative, then the tail's. */
  lemma KeptRoundedCons(prev: seq<IndValue>, fs: seq<IndValue>, round: real -> real)
    requires fs != []
    ensures prev + (if fs[0].index >= 0 then [IndValue(fs[0].index, round(fs[0].value))] else []) + NonNegative(Rounded(fs[1..], round)) ==
      prev + NonNegative(Rounded(fs, round))
  {
    var r := Rounded(fs, round);
    assert r[0] == IndValue(fs[0].index, round(fs[0].value)) && r[1..] == Rounded(fs[1..], round);
    assert NonNegative(r) == (if fs[0].index >= 0 then [r[0]] else []) + NonNegative(r[1..]);
  }

  /** The final newline ends the oldest loop: nothing is left to read. */
  lemma LegacyNewline(line: string, j: nat, st: LegacyCursor, atof: string -> real, atoi: string -> int)
    requires 1 <= j <= |line| && st.begin <= j && line[j - 1..] == "\n"
    ensures LegacyRun(line, j, st, atof, atoi) == st.pairs
  {
    assert |line[j - 1..]| == 1;
  }

  /** The first printed pair, read by the oldest loop from just after the
      separator before it, up to the separator after it. */
  lemma LegacyPairsHead(line: string, j: nat, e: nat, st: LegacyCursor, fs: seq<IndValue>, p: seq<IndValue>,
                        showInt: int -> string, showReal: real -> string, round: real -> real,
                        atof: string -> real, atoi: string -> int)
    requires LegacyFaithful(showInt, showReal, round, atof, atoi)
    requires 1 <= j <= |line| && st.begin == j && st.index < 0
    requires fs != [] && line[j - 1..] == PairsText(fs, showInt, showReal)
    requires e == j + 1 + |showInt(fs[0].index)| + |showReal(fs[0].value)|
    requires p == st.pairs + (if fs[0].index >= 0 then [IndValue(fs[0].index, round(fs[0].value))] else [])
    ensures e < |line| && line[e..] == PairsText(fs[1..], showInt, showReal)
    ensures LegacyRun(line, j, st, atof, atoi) == LegacyRun(line, e + 1, LegacyCursor(e + 1, -1, p), atof, atoi)
  {
    var ki, vi := showInt(fs[0].index), showReal(fs[0].value);
    var more := PairsText(fs[1..], showInt, showReal);
    PairsTextHead(line, j, fs, showInt, showReal);
    assert Token(ki) && Token(vi);
    assert LegacyIntReadBack(showInt, atoi, fs[0].index, ":" + (vi + more));
    assert (":" + (vi + more))[0] == ':';
    assert LegacyRealReadBack(showReal, round, atof, fs[0].value, more);
    LegacyOnePair(line, j, e, st, ki, vi, more, fs[0].index, round(fs[0].value), atof, atoi);
  }

  /** The oldest loop over the printed pairs and the final newline, from
      just after the separator that precedes them. */
  lemma {:induction false} LegacyRunPairsText(line: string, j: nat, st: LegacyCursor, fs: seq<IndValue>,
                                              showInt: int -> string, showReal: real -> string, round: real -> real,
                                              atof: string -> real, atoi: string -> int)
    requires LegacyFaithful(showInt, showReal, round, atof, atoi)
    requires 1 <= j <= |line| && st.begin == j && st.index < 0
    requires line[j - 1..] == PairsText(fs, showInt, showReal)
    ensures LegacyRun(line, j, st, atof, atoi) == st.pairs + NonNegative(Rounded(fs, round))
    decreases |fs|
  {
    if fs == [] {
      LegacyNewline(line, j, st, atof, atoi);
      assert st.pairs + NonNegative(Rounded(fs, round)) == st.pairs;
    } else {
      var e := j + 1 + |showInt(fs[0].index)| + |showReal(fs[0].value)|;
      var p := st.pairs + (if fs[0].index >= 0 then [IndValue(fs[0].index, round(fs[0].value))] else []);
      LegacyPairsHead(line, j, e, st, fs, p, showInt, showReal, round, atof, atoi);
      LegacyRunPairsText(line, e + 1, LegacyCursor(e + 1, -1, p), fs[1..], showInt, showReal, round, atof, atoi);
      KeptRoundedCons(st.pairs, fs, round);
    }
  }

  /** Printing a record and parsing it with the oldest parser keeps the
      pairs with an index that is not negative, in order, with values as
      `%f` rounds them; pairs with a negative index are dropped
      (fly_core.h:42-73). */
  lemma LegacyTextRoundTrip(ins: Instance, showInt: int -> string, showReal: real -> string, round: real -> real,
                            atof: string -> real, atoi: string -> int)
    requires LegacyFaithful(showInt, showReal, round, atof, atoi)
    ensures LegacyParse(Text(ins, showInt, showReal), atof, atoi) ==
            Instance(round(ins.target), NonNegative(Rounded(ins.features, round)))
  {
    var line := Text(ins, showInt, showReal);
    var lt := showReal(ins.target);
    var rest := PairsText(ins.features, showInt, showReal);
    assert line == lt + rest;
    assert LegacyRealReadBack(showReal, round, atof, ins.target, rest);
    assert atof(line) == round(ins.target);
    assert Token(lt);
    assert line[0..|lt|] == lt && line[|lt|..] == rest;
    var st := LegacyCursor(0, -1, []);
    LegacySkipsPlain(line, 0, |lt|, st, atof, atoi);
    assert line[|lt|] == rest[0];
    LegacySpaceMovesStart(line, |lt|, st, atof, atoi);
    LegacyRunPairsText(line, |lt| + 1, LegacyCursor(|lt| + 1, -1, []), ins.features, showInt, showReal, round, atof, atoi);
    assert st.pairs + NonNegative(Rounded(ins.features, round)) == NonNegative(Rounded(ins.features, round));
  }

  // ---------------------------------------------------------------------
  // The binary record.
  // ---------------------------------------------------------------------

  /** One field of a binary stream: a `float`, a `size_t` count or one
      packed `IndValue_t`. */
  datatype Field = Float(v: real) | Size(n: nat) | Pair(iv: IndValue)

  /** `write_binary`: the label, then the features as `FArray_t::write`
      lays them out, the count followed by the pairs. */
  function WriteBinary(ins: Instance): (s: seq<Field>)
    ensures |s| == |ins.features| + 2 && s[0] == Float(ins.target) && s[1] == Size(|ins.features|)
    ensures forall k :: 0 <= k < |ins.features| ==> s[k + 2] == Pair(ins.features[k])
  {
    [Float(ins.target), Size(|ins.features|)] + seq(|ins.features|, k requires 0 <= k < |ins.features| => Pair(ins.features[k]))
  }

  /** `read_binary`: the record at the head of the stream and the rest;
      `None` when the stream does not hold a label, a count and that many
      pairs. */
  function ReadBinary(s: seq<Field>): (r: Option<(Instance, seq<Field>)>)
    ensures r.Some? <==> |s| >= 2 && s[0].Float? && s[1].Size? && s[1].n + 2 <= |s| &&
                         forall k :: 2 <= k < s[1].n + 2 ==> s[k].Pair?
    ensures r.Some? ==> |r.value.1| < |s|
  {
    if |s| >= 2 && s[0].Float? && s[1].Size? && s[1].n + 2 <= |s| && forall k :: 2 <= k < s[1].n + 2 ==> s[k].Pair? then
      var n := s[1].n;
      Some((Instance(s[0].v, seq(n, k requires 0 <= k < n => s[k + 2].iv)), s[n + 2..]))
    else None
  }

  /** Reading back what `write_binary` wrote restores the record and leaves
      the rest of the stream (src/include/fly_core.h:96-109,
      fly_core.h:79-90). */
  lemma BinaryRoundTrip(ins: Instance, tail: seq<Field>)
    ensures ReadBinary(WriteBinary(ins) + tail) == Some((ins, tail))
  {
    var s := WriteBinary(ins) + tail;
    var n := |ins.features|;
    assert forall k :: 2 <= k < n + 2 ==> s[k] == Pair(ins.features[k - 2]);
    var r := ReadBinary(s);
    assert r.value.0.features == ins.features;
    assert s[n + 2..] == tail;
  }

  /** A file of records written one after another. */
  function WriteAll(rs: seq<Instance>): seq<Field>
    decreases |rs|
  {
    if rs == [] then [] else WriteBinary(rs[0]) + WriteAll(rs[1..])
  }

  /** Reading records until the stream is used up; `None` when it ends in
      the middle of a record. */
  function ReadAll(s: seq<Field>): Option<seq<Instance>>
    decreases |s|
  {
    if s == [] then Some([])
    else match ReadBinary(s)
      case None => None
      case Some((r, rest)) =>
        match ReadAll(rest)
        case None => None
        case Some(more) => Some([r] + more)
  }

  /** A written file reads back as the same records in the same order. */
  lemma {:induction false} ReadAllInvertsWriteAll(rs: seq<Instance>)
    ensures ReadAll(WriteAll(rs)) == Some(rs)
    decreases |rs|
  {
    if rs != [] {
      BinaryRoundTrip(rs[0], WriteAll(rs[1..]));
      ReadAllInvertsWriteAll(rs[1..]);
      assert [rs[0]] + rs[1..] == rs;
    }
  }
}
