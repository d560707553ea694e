/** The record readers: `TextReader_t` and `BinaryReader_t` of
    src/fly_data.cc, `BinaryFeatureReader_t` and `FeatureReader_t` of
    src/include/fly_core.h, and the older `FeatureReader_t` of fly_core.h.
    A file is the sequence of its lines (text) or of its records (binary);
    opening, seeking and the progress output are not modelled. */
module Readers {
  import opened Wrappers
  import opened Instances
  import opened Split
  import opened GbdtNode
  import opened TextItems
  import opened Compact

  // ---------------------------------------------------------------------
  // Dimension counting and progress.

  /** The `_theta_num` update over one record's pairs: an index at or
      above the count raises it to the index plus one. */
  function Widen(theta: int, fs: seq<IndValue>): (r: int)
    ensures r >= theta
    decreases |fs|
  {
    if fs == [] then theta
    else Widen(if fs[0].index >= theta then fs[0].index + 1 else theta, fs[1..])
  }

  /** `_theta_num` after a pass over records `rs`, starting from `theta`. */
  function ThetaOf(theta: int, rs: seq<Instance>): (r: int)
    ensures r >= theta
    decreases |rs|
  {
    if rs == [] then theta else ThetaOf(Widen(theta, rs[0].features), rs[1..])
  }

  /** The count is one more than the largest index, or the starting value
      when that is larger: it bounds every index, and it is reached. */
  lemma {:induction false} WidenIsMax(theta: int, fs: seq<IndValue>)
    ensures forall k :: 0 <= k < |fs| ==> fs[k].index < Widen(theta, fs)
    ensures Widen(theta, fs) == theta || exists k :: 0 <= k < |fs| && fs[k].index + 1 == Widen(theta, fs)
    decreases |fs|
  {
    if fs != [] {
      var t := if fs[0].index >= theta then fs[0].index + 1 else theta;
      WidenIsMax(t, fs[1..]);
      var w := Widen(theta, fs);
      assert forall k :: 1 <= k < |fs| ==> fs[k] == fs[1..][k - 1];
      if w != t {
        var k :| 0 <= k < |fs[1..]| && fs[1..][k].index + 1 == w;
        assert fs[k + 1].index + 1 == w;
      } else if t != theta {
        assert fs[0].index + 1 == w;
      }
    }
  }

  /** The reader's dimension is one more than the largest index over all
      records, and 0 when there is no pair (or only negative indices). */
  lemma {:induction false} ThetaIsMax(theta: int, rs: seq<Instance>)
    ensures forall r, k :: 0 <= r < |rs| && 0 <= k < |rs[r].features| ==> rs[r].features[k].index < ThetaOf(theta, rs)
    ensures ThetaOf(theta, rs) == theta ||
            exists r, k :: 0 <= r < |rs| && 0 <= k < |rs[r].features| && rs[r].features[k].index + 1 == ThetaOf(theta, rs)
    decreases |rs|
  {
    if rs != [] {
      var t := Widen(theta, rs[0].features);
      WidenIsMax(theta, rs[0].features);
      ThetaIsMax(t, rs[1..]);
      var d := ThetaOf(theta, rs);
      assert forall r :: 1 <= r < |rs| ==> rs[r] == rs[1..][r - 1];
      if d != t {
        var r, k :| 0 <= r < |rs[1..]| && 0 <= k < |rs[1..][r].features| && rs[1..][r].features[k].index + 1 == d;
        assert rs[r + 1].features[k].index + 1 == d;
      }
    }
  }

  /** The inner loop of every reader's dimension count. */
  method WidenBy(theta: int, fs: seq<IndValue>) returns (w: int)
    ensures w == Widen(theta, fs)
  {
    w := theta;
    for i := 0 to |fs|
      invariant Widen(w, fs[i..]) == Widen(theta, fs)
    {
      assert fs[i..][1..] == fs[i + 1..];
      if fs[i].index >= w {
        w := fs[i].index + 1;
      }
    }
  }

  /** `int(_cur_id * 100.0f / size)`; a size of 0 divides by zero, which
      is `None` here. */
  function Percent(cur: nat, size: nat): Option<int> {
    if size == 0 then None else Some(TruncToInt(cur as real * 100.0 / size as real))
  }

  /** With the cursor inside the records, the percentage lies in [0, 100]
      and is 100 exactly at the end. */
  lemma PercentInRange(cur: nat, size: nat)
    requires 0 < size && cur <= size
    ensures Percent(cur, size).Some?
    ensures 0 <= Percent(cur, size).value <= 100
    ensures cur == size ==> Percent(cur, size).value == 100
  {
    var c, n := cur as real, size as real;
    DivideKeepsOrder(0.0, c * 100.0, n);
    DivideKeepsOrder(c * 100.0, n * 100.0, n);
    CancelFactor(n, 100.0);
  }

  /** A factor divided out again. */
  lemma CancelFactor(n: real, k: real)
    requires n > 0.0
    ensures n * k / n == k
  {
    var q := n * k / n;
    assert n * q == n * k;
    assert n * (q - k) == 0.0;
  }

  /** Dividing by a positive number keeps the order. */
  lemma DivideKeepsOrder(a: real, b: real, n: real)
    requires a <= b && n > 0.0
    ensures a / n <= b / n
  {
    assert b / n - a / n == (b - a) / n;
  }

  /** The error `size` and `dim` throw before `stat`. */
  const StatError := "Access size or dim before stat."

  // ---------------------------------------------------------------------
  // BinaryReader_t (src/fly_data.cc) = BinaryFeatureReader_t
  // (src/include/fly_core.h).

  /** The binary reader over the records of its file: `pos` is the record
      the stream is at, `cur` the count `_cur_id`. */
  class BinaryReader {
    var records: seq<Instance>
    var pos: nat
    var cur: nat
    var size: nat
    var theta: int
    var isStat: bool

    /** The stream never runs past the file. */
    ghost predicate Valid()
      reads this
    {
      pos <= |records|
    }

    /** The constructor with a file name: the counters start at 0 and the
        file is opened with `set` (src/fly_data.cc:10-18). */
    constructor(file: seq<Instance>, isStdin: bool)
      ensures Valid() && records == file && pos == 0
      ensures isStat == !isStdin
      ensures !isStdin ==> size == |file| && theta == ThetaOf(0, file) && cur == 0
      ensures isStdin ==> size == 0 && theta == 0 && cur == 0
    {
      records := file;
      pos := 0;
      cur := 0;
      size := 0;
      theta := 0;
      isStat := false;
      new;
      if !isStdin {
        Stat();
      }
    }

    /** `set`: the stat flag is cleared and, unless the file is standard
        input, `stat` runs at once (src/fly_data.cc:50-63,
        src/include/fly_core.h:228-241). */
    method Set(file: seq<Instance>, isStdin: bool)
      modifies this
      ensures Valid() && records == file && pos == 0
      ensures isStat == !isStdin
      ensures !isStdin ==> size == |file| && theta == ThetaOf(0, file) && cur == 0
      ensures isStdin ==> size == old(size) && theta == old(theta) && cur == old(cur)
    {
      isStat := false;
      records := file;
      pos := 0;
      if !isStdin {
        Stat();
      }
    }

    /** `stat` runs at most once: a second call changes nothing.  The first
        counts the records and the dimension, then rewinds
        (src/fly_data.cc:65-112, src/include/fly_core.h:243-283). */
    method Stat()
      requires Valid()
      modifies this
      ensures Valid() && records == old(records) && isStat
      ensures old(isStat) ==> pos == old(pos) && cur == old(cur) && size == old(size) && theta == old(theta)
      ensures !old(isStat) ==> pos == 0 && cur == 0 && size == |records| && theta == ThetaOf(0, records)
    {
      if isStat {
        return;
      }
      isStat := true;
      cur, size, theta := 0, 0, 0;
      while size < |records|
        invariant size <= |records| && records == old(records) && isStat
        invariant ThetaOf(theta, records[size..]) == ThetaOf(0, records)
      {
        assert records[size..][1..] == records[size + 1..];
        theta := WidenBy(theta, records[size].features);
        size := size + 1;
      }
      Reset();
    }

    /** `size`: throws before `stat`. */
    function Size(): (r: Result<nat>)
      reads this
      ensures r.Success? <==> isStat
      ensures r.Success? ==> r.value == size
      ensures r.Failure? ==> r.error == StatError
    {
      if !isStat then Failure(StatError) else Success(size)
    }

    /** `dim`: throws before `stat`. */
    function Dim(): (r: Result<int>)
      reads this
      ensures r.Success? <==> isStat
      ensures r.Success? ==> r.value == theta
      ensures r.Failure? ==> r.error == StatError
    {
      if !isStat then Failure(StatError) else Success(theta)
    }

    /** `percentage`. */
    function Percentage(): Option<int>
      reads this
    {
      Percent(cur, size)
    }

    /** `reset`: back to the first record (src/fly_data.cc:114-118). */
    method Reset()
      modifies this
      ensures pos == 0 && cur == 0
      ensures records == old(records) && size == old(size) && theta == old(theta) && isStat == old(isStat)
    {
      pos := 0;
      cur := 0;
    }

    /** `read`: the next record, counted, or none at the end of the file
        (src/fly_data.cc:120-123, src/include/fly_core.h:290-298). */
    method Read() returns (r: Option<Instance>)
      requires Valid()
      modifies this
      ensures Valid() && records == old(records) && size == old(size) && theta == old(theta) && isStat == old(isStat)
      ensures r.Some? <==> old(pos) < |records|
      ensures r.Some? ==> r.value == records[old(pos)] && pos == old(pos) + 1 && cur == old(cur) + 1
      ensures r.None? ==> pos == old(pos) && cur == old(cur)
    {
      if pos < |records| {
        r := Some(records[pos]);
        pos := pos + 1;
        cur := cur + 1;
      } else {
        r := None;
      }
    }
  }

  /** Draining a reader from its start yields the file's records in order:
      the loop every model runs over a reader. */
  method Drain(reader: BinaryReader) returns (out: seq<Instance>)
    requires reader.Valid()
    modifies reader
    ensures out == reader.records
  {
    reader.Reset();
    out := [];
    while true
      invariant reader.Valid() && reader.records == old(reader.records)
      invariant out == reader.records[..reader.pos]
      decreases |reader.records| - reader.pos
    {
      var r := reader.Read();
      if r.None? {
        break;
      }
      out := out + [r.value];
    }
  }

  // ---------------------------------------------------------------------
  // TextReader_t (src/fly_data.cc).

  /** A dense record as the compact buffer holds it: label and values. */
  type DenseRecord = (real, Option<seq<real>>)

  /** A line the dense parser can read: empty, or with a field. */
  predicate Readable(line: string) {
    line == [] || |Tokens(line, {' '})| > 0
  }

  /** The mode a line is loaded in: the reader's, or the line's own while
      the reader's is still AutoDetected. */
  function LineMode(mode: Mode, line: string): Mode {
    if mode == AutoDetected then DetectMode(line) else mode
  }

  /** The mode every line of a load is read in: the first line decides
      while the reader's mode is AutoDetected, and it never changes after. */
  function LoadMode(mode: Mode, lines: seq<string>): Mode {
    if mode == AutoDetected && lines != [] then DetectMode(lines[0]) else mode
  }

  /** Only the dense parser needs a field on every non-empty line. */
  predicate Loadable(mode: Mode, lines: seq<string>) {
    LoadMode(mode, lines) == ValuesMode ==> forall k :: 0 <= k < |lines| ==> Readable(lines[k])
  }

  /** What `set` builds: the mode, both buffers and `_theta_num`. */
  datatype Loaded = Loaded(mode: Mode, buffer: seq<Instance>, compact: seq<DenseRecord>, theta: nat)

  /** One line of `set`'s loop.  The mode is decided by the line while it
      is still AutoDetected.  A pair line is parsed (a failed parse is
      kept) and widens the dimension; a dense line is parsed into a
      `CompactInstance_t(_theta_num)` and, while the dimension is 0, sets
      it; a bare-index line is dropped.  The error is the exception a dense
      line with a wrong field count throws, after the mode is set
      (src/fly_data.cc:163-188). */
  function LoadLine(st: Loaded, line: string, strtod: string -> Scan<real>, strtol: string -> Scan<int>): (r: (Loaded, Option<string>))
    requires LineMode(st.mode, line) == ValuesMode ==> Readable(line)
    ensures r.0.mode == LineMode(st.mode, line)
  {
    var m := if st.mode == AutoDetected then DetectMode(line) else st.mode;
    if m == IndValueMode then
      var ins := ParseData(line, EmptyInstance, strtod, strtol).1;
      (Loaded(m, st.buffer + [ins], st.compact, Widen(st.theta, ins.features)), None)
    else if m == ValuesMode then
      match DenseOf(st.theta, line, {' '}, strtod)
      case Failure(e) => (st.(mode := m), Some(e))
      case Success((lead, vals, s)) =>
        (Loaded(m, st.buffer, st.compact + [(lead, vals)], if st.theta == 0 then s else st.theta), None)
    else
      (st.(mode := m), None)
  }

  /** `set`'s loop over the lines, stopping at the first exception. */
  function LoadLines(st: Loaded, lines: seq<string>, strtod: string -> Scan<real>, strtol: string -> Scan<int>): (Loaded, Option<string>)
    requires Loadable(st.mode, lines)
    decreases |lines|
  {
    if lines == [] then (st, None)
    else
      var (st1, err) := LoadLine(st, lines[0], strtod, strtol);
      if err.Some? then (st1, err) else LoadLines(st1, lines[1..], strtod, strtol)
  }

  /** The mode is taken from the first line, and only when it was still
      AutoDetected; once set it never changes. */
  lemma {:induction false} ModeFromFirstLine(st: Loaded, lines: seq<string>, strtod: string -> Scan<real>, strtol: string -> Scan<int>)
    requires Loadable(st.mode, lines)
    ensures LoadLines(st, lines, strtod, strtol).0.mode ==
            if st.mode == AutoDetected && lines != [] then DetectMode(lines[0]) else st.mode
    decreases |lines|
  {
    if lines != [] {
      var (st1, err) := LoadLine(st, lines[0], strtod, strtol);
      if err.None? {
        ModeFromFirstLine(st1, lines[1..], strtod, strtol);
      }
    }
  }

  /** The records a pair file gives: one per line, failed parses
      included. */
  function PairRecords(lines: seq<string>, strtod: string -> Scan<real>, strtol: string -> Scan<int>): (r: seq<Instance>)
    ensures |r| == |lines|
    ensures forall k :: 0 <= k < |lines| ==> r[k] == ParseData(lines[k], EmptyInstance, strtod, strtol).1
  {
    seq(|lines|, k requires 0 <= k < |lines| => ParseData(lines[k], EmptyInstance, strtod, strtol).1)
  }

  /** In pair mode every line is kept, in order, nothing fails, and the
      dimension is one more than the largest index seen. */
  lemma {:induction false} PairModeLoad(st: Loaded, lines: seq<string>, strtod: string -> Scan<real>, strtol: string -> Scan<int>)
    requires st.mode == IndValueMode
    ensures var rs := PairRecords(lines, strtod, strtol);
            LoadLines(st, lines, strtod, strtol) ==
            (Loaded(IndValueMode, st.buffer + rs, st.compact, ThetaOf(st.theta, rs)), None)
    decreases |lines|
  {
    if lines != [] {
      var rs := PairRecords(lines, strtod, strtol);
      var st1 := Loaded(IndValueMode, st.buffer + [rs[0]], st.compact, Widen(st.theta, rs[0].features));
      PairModeHead(st, lines, rs, st1, strtod, strtol);
      PairRecordsTail(lines, rs, strtod, strtol);
      PairModeLoad(st1, lines[1..], strtod, strtol);
      assert ThetaOf(st1.theta, rs[1..]) == ThetaOf(st.theta, rs);
      assert st.buffer + [rs[0]] + rs[1..] == st.buffer + rs;
    } else {
      assert st.buffer + PairRecords(lines, strtod, strtol) == st.buffer;
    }
  }

  /** The first line of a pair-mode load, and what is left after it. */
  lemma PairModeHead(st: Loaded, lines: seq<string>, rs: seq<Instance>, st1: Loaded,
                     strtod: string -> Scan<real>, strtol: string -> Scan<int>)
    requires st.mode == IndValueMode && lines != []
    requires rs == PairRecords(lines, strtod, strtol)
    requires st1 == Loaded(IndValueMode, st.buffer + [rs[0]], st.compact, Widen(st.theta, rs[0].features))
    ensures LoadLines(st, lines, strtod, strtol) == LoadLines(st1, lines[1..], strtod, strtol)
  {
    PairLine(st, lines[0], strtod, strtol);
  }

  /** The records of all lines but the first are the records after the
      first. */
  lemma PairRecordsTail(lines: seq<string>, rs: seq<Instance>, strtod: string -> Scan<real>, strtol: string -> Scan<int>)
    requires lines != [] && rs == PairRecords(lines, strtod, strtol)
    ensures PairRecords(lines[1..], strtod, strtol) == rs[1..]
  {
  }

  /** One line in pair mode: parsed and kept, widening the dimension. */
  lemma PairLine(st: Loaded, line: string, strtod: string -> Scan<real>, strtol: string -> Scan<int>)
    requires st.mode == IndValueMode
    ensures var ins := ParseData(line, EmptyInstance, strtod, strtol).1;
            LoadLine(st, line, strtod, strtol) ==
            (Loaded(IndValueMode, st.buffer + [ins], st.compact, Widen(st.theta, ins.features)), None)
  {
  }

  /** In bare-index mode nothing is loaded and nothing fails. */
  lemma {:induction false} IndexModeLoadsNothing(st: Loaded, lines: seq<string>, strtod: string -> Scan<real>, strtol: string -> Scan<int>)
    requires st.mode == Ind1Mode
    ensures LoadLines(st, lines, strtod, strtol) == (st, None)
    decreases |lines|
  {
    if lines != [] {
      IndexModeLoadsNothing(st, lines[1..], strtod, strtol);
    }
  }

  /** A line with the field count the dimension calls for. */
  predicate Fits(line: string, theta: nat)
    requires Readable(line)
  {
    line == [] || |Tokens(line, {' '})| - 1 == theta
  }

  /** Once the dense dimension is set, loading succeeds exactly when every
      line fits it, and then the dimension stays and every record loaded
      holds that many values; otherwise the error is the field-count
      mismatch. */
  lemma {:induction false} DenseModeLoad(st: Loaded, lines: seq<string>, strtod: string -> Scan<real>, strtol: string -> Scan<int>)
    requires st.mode == ValuesMode && st.theta > 0
    requires forall k :: 0 <= k < |lines| ==> Readable(lines[k])
    ensures var (r, err) := LoadLines(st, lines, strtod, strtol);
            (err.None? <==> forall k :: 0 <= k < |lines| ==> Fits(lines[k], st.theta)) &&
            (err.Some? ==> err.value == MismatchError) &&
            r.mode == ValuesMode && r.buffer == st.buffer && r.theta == st.theta &&
            |st.compact| <= |r.compact| && r.compact[..|st.compact|] == st.compact &&
            (err.None? ==> |r.compact| == |st.compact| + |lines|) &&
            forall j :: |st.compact| <= j < |r.compact| ==> r.compact[j].1.Some? && |r.compact[j].1.value| == st.theta
    decreases |lines|
  {
    if lines != [] {
      var (st1, err) := LoadLine(st, lines[0], strtod, strtol);
      if err.None? {
        DenseModeLoad(st1, lines[1..], strtod, strtol);
        assert forall k :: 1 <= k < |lines| ==> lines[k] == lines[1..][k - 1];
        assert st1.compact[..|st.compact|] == st.compact;
      }
    }
  }

  /** The first dense line sets the dimension to its value count. */
  lemma DenseFirstLine(st: Loaded, line: string, strtod: string -> Scan<real>, strtol: string -> Scan<int>)
    requires st.mode == ValuesMode && st.theta == 0
    requires line != [] && Readable(line)
    ensures LoadLine(st, line, strtod, strtol).1.None?
    ensures LoadLine(st, line, strtod, strtol).0.theta == |Tokens(line, {' '})| - 1
  {
  }

  /** The text reader: the mode, the pair buffer, the dense buffer, the
      dimension and the cursor. */
  class TextReader {
    var mode: Mode
    var buffer: seq<Instance>
    var compact: seq<DenseRecord>
    var theta: nat
    var cur: nat

    /** The constructor without a file: mode AutoDetected, empty buffers
        (src/fly_data.cc:126-137). */
    constructor()
      ensures mode == AutoDetected && buffer == [] && compact == [] && theta == 0 && cur == 0
    {
      mode := AutoDetected;
      buffer := [];
      compact := [];
      theta := 0;
      cur := 0;
    }

    /** `set_feature_mode`. */
    method SetFeatureMode(m: Mode)
      modifies this
      ensures mode == m && buffer == old(buffer) && compact == old(compact) && theta == old(theta) && cur == old(cur)
    {
      mode := m;
    }

    /** `set`: the cursor, both buffers and the dimension are cleared, the
        mode is kept, and the lines are loaded one by one; an exception
        leaves what was loaded before it (src/fly_data.cc:142-204). */
    method Set(lines: seq<string>, strtod: string -> Scan<real>, strtol: string -> Scan<int>) returns (err: Option<string>)
      requires Loadable(mode, lines)
      modifies this
      ensures (Loaded(mode, buffer, compact, theta), err) == LoadLines(Loaded(old(mode), [], [], 0), lines, strtod, strtol)
      ensures cur == 0
    {
      cur := 0;
      buffer := [];
      compact := [];
      theta := 0;
      err := None;
      var i := 0;
      while i < |lines|
        invariant i <= |lines| && cur == 0
        invariant Loadable(mode, lines[i..])
        invariant LoadLines(Loaded(mode, buffer, compact, theta), lines[i..], strtod, strtol) ==
                  LoadLines(Loaded(old(mode), [], [], 0), lines, strtod, strtol)
      {
        assert lines[i..][0] == lines[i] && lines[i..][1..] == lines[i + 1..];
        var e := LoadOne(lines[i], strtod, strtol);
        if e.Some? {
          return e;
        }
        i := i + 1;
      }
    }

    /** One line of `set`'s loop (src/fly_data.cc:163-188). */
    method LoadOne(line: string, strtod: string -> Scan<real>, strtol: string -> Scan<int>) returns (err: Option<string>)
      requires LineMode(mode, line) == ValuesMode ==> Readable(line)
      modifies this
      ensures (Loaded(mode, buffer, compact, theta), err) ==
              LoadLine(old(Loaded(mode, buffer, compact, theta)), line, strtod, strtol)
      ensures cur == old(cur)
    {
      err := None;
      if mode == AutoDetected {
        mode := AutoDetectMode(line);
      }
      if mode == IndValueMode {
        var ok, ins := TextItems.ParseItem(line, EmptyInstance, strtod, strtol);
        buffer := buffer + [ins];
        theta := WidenBy(theta, ins.features);
      } else if mode == ValuesMode {
        var r := ParseFresh(theta, line, {' '}, strtod);
        if r.Failure? {
          return Some(r.error);
        }
        var (lead, vals, s) := r.value;
        if theta == 0 {
          theta := s;
        }
        compact := compact + [(lead, vals)];
      }
    }

    /** Which buffer `size`, `percentage` and `read` use: the pair buffer
        in every mode but Values. */
    predicate UseBuffer()
      reads this
    {
      mode != ValuesMode
    }

    /** `size` (src/fly_data.cc:221-228). */
    function Size(): (r: nat)
      reads this
      ensures r == if mode != ValuesMode then |buffer| else |compact|
    {
      if UseBuffer() then |buffer| else |compact|
    }

    /** `percentage` (src/fly_data.cc:212-219). */
    function Percentage(): Option<int>
      reads this
    {
      Percent(cur, Size())
    }

    /** `dim`. */
    function Dim(): nat
      reads this
    {
      theta
    }

    /** `reset`: the cursor goes back to 0; nothing is reloaded
        (src/fly_data.cc:206-210). */
    method Reset()
      modifies this
      ensures cur == 0 && mode == old(mode) && buffer == old(buffer) && compact == old(compact) && theta == old(theta)
    {
      cur := 0;
    }

    /** `read`: nothing at the end; otherwise the record at the cursor,
        which moves on.  A dense record without values throws, after the
        cursor has moved (src/fly_data.cc:230-248). */
    method Read() returns (r: Result<Option<Instance>>)
      modifies this
      ensures mode == old(mode) && buffer == old(buffer) && compact == old(compact) && theta == old(theta)
      ensures r == Success(None) <==> old(cur) >= Size()
      ensures r == Success(None) ==> cur == old(cur)
      ensures old(cur) < Size() ==> cur == old(cur) + 1
      ensures old(cur) < Size() && mode != ValuesMode ==> r == Success(Some(buffer[old(cur)]))
      ensures old(cur) < Size() && mode == ValuesMode ==>
        match compact[old(cur)].1
        case None => r == Failure(RawError)
        case Some(vs) => r == Success(Some(Instance(compact[old(cur)].0, DensePairs(vs))))
    {
      if UseBuffer() {
        if cur >= |buffer| {
          return Success(None);
        }
        r := Success(Some(buffer[cur]));
        cur := cur + 1;
      } else {
        if cur >= |compact| {
          return Success(None);
        }
        var (lead, vals) := compact[cur];
        cur := cur + 1;
        if vals.None? {
          return Failure(RawError);
        }
        r := Success(Some(Instance(lead, DensePairs(vals.value))));
      }
    }
  }

  // ---------------------------------------------------------------------
  // FeatureReader_t (src/include/fly_core.h).

  /** The records a pair file gives with the parser of
      src/include/fly_core.h: one per line, failed parses included. */
  function CoreRecords(lines: seq<string>, strtod: string -> Scan<real>, strtol: string -> Scan<int>): (r: seq<Instance>)
    ensures |r| == |lines|
    ensures forall k :: 0 <= k < |lines| ==> r[k] == ParseCore(lines[k], EmptyInstance, strtod, strtol).1
  {
    seq(|lines|, k requires 0 <= k < |lines| => ParseCore(lines[k], EmptyInstance, strtod, strtol).1)
  }

  /** The buffered pair reader: every line is parsed and kept. */
  class FeatureReader {
    var buffer: seq<Instance>
    var theta: int
    var cur: nat

    constructor()
      ensures buffer == [] && theta == 0 && cur == 0
    {
      buffer := [];
      theta := 0;
      cur := 0;
    }

    /** `set`: one record per line, failed parses included, and the
        dimension one more than the largest index
        (src/include/fly_core.h:339-384). */
    method Set(lines: seq<string>, strtod: string -> Scan<real>, strtol: string -> Scan<int>)
      modifies this
      ensures buffer == CoreRecords(lines, strtod, strtol)
      ensures theta == ThetaOf(0, buffer) && cur == 0
    {
      cur := 0;
      buffer := [];
      theta := 0;
      for i := 0 to |lines|
        invariant cur == 0
        invariant buffer == CoreRecords(lines[..i], strtod, strtol)
        invariant ThetaOf(theta, CoreRecords(lines[i..], strtod, strtol)) == ThetaOf(0, CoreRecords(lines, strtod, strtol))
      {
        var ok, ins := ParseItemCore(lines[i], EmptyInstance, strtod, strtol);
        assert CoreRecords(lines[i..], strtod, strtol) == [ins] + CoreRecords(lines[i + 1..], strtod, strtol);
        buffer := buffer + [ins];
        theta := WidenBy(theta, ins.features);
        assert CoreRecords(lines[..i + 1], strtod, strtol) == buffer;
      }
      assert lines[..|lines|] == lines && CoreRecords(lines[|lines|..], strtod, strtol) == [];
    }

    /** `size`. */
    function Size(): nat
      reads this
    {
      |buffer|
    }

    /** `percentage`. */
    function Percentage(): Option<int>
      reads this
    {
      Percent(cur, |buffer|)
    }

    /** `reset` (src/include/fly_core.h:386-389). */
    method Reset()
      modifies this
      ensures cur == 0 && buffer == old(buffer) && theta == old(theta)
    {
      cur := 0;
    }

    /** `read`: nothing at the end, else the buffered record at the cursor
        (src/include/fly_core.h:391-399). */
    method Read() returns (r: Option<Instance>)
      modifies this
      ensures buffer == old(buffer) && theta == old(theta)
      ensures r.Some? <==> old(cur) < |buffer|
      ensures r.Some? ==> r.value == buffer[old(cur)] && cur == old(cur) + 1
      ensures r.None? ==> cur == old(cur)
    {
      if cur >= |buffer| {
        return None;
      }
      r := Some(buffer[cur]);
      cur := cur + 1;
    }
  }

  // ---------------------------------------------------------------------
  // The older FeatureReader_t (fly_core.h).

  /** The records the older reader gives: one per line. */
  function LegacyRecords(lines: seq<string>, atof: string -> real, atoi: string -> int): (r: seq<Instance>)
    ensures |r| == |lines|
    ensures forall k :: 0 <= k < |lines| ==> r[k] == LegacyParse(lines[k], atof, atoi)
  {
    seq(|lines|, k requires 0 <= k < |lines| => LegacyParse(lines[k], atof, atoi))
  }

  /** Standardisation of a record: each value less the mean of its
      dimension, over that dimension's deviation. */
  function Standardize(ins: Instance, offset: int -> real, weight: int -> real): (r: Instance)
    requires forall i :: weight(i) != 0.0
    ensures r.target == ins.target && |r.features| == |ins.features|
    ensures forall k :: 0 <= k < |ins.features| ==>
      r.features[k].index == ins.features[k].index &&
      r.features[k].value * weight(ins.features[k].index) == ins.features[k].value - offset(ins.features[k].index)
  {
    Instance(ins.target, seq(|ins.features|, k requires 0 <= k < |ins.features| =>
      var iv := ins.features[k];
      IndValue(iv.index, (iv.value - offset(iv.index)) / weight(iv.index))))
  }

  // The standardisation statistics of the older reader's `set`.

  /** Every slot at 0, as the `memset` leaves the tables. */
  function Zero(j: int): real {
    0.0
  }

  /** The running-mean rule: after `c` values, the value `v` moves the
      mean to `mean * (c / (c + 1)) + v / (c + 1)`. */
  function MeanMove(mean: real, v: real, c: nat): real {
    mean * (c as real / (c as real + 1.0)) + v / (c as real + 1.0)
  }

  /** One pair moves the running mean of its slot; the other slots keep
      theirs. */
  function MeanUpdate(m: int -> real, f: IndValue, c: nat): int -> real {
    j => if j == f.index then MeanMove(m(j), f.value, c) else m(j)
  }

  /** The pairs of record number `c`, in order, moving the means. */
  function MeanStep(m: int -> real, fs: seq<IndValue>, c: nat): int -> real
    decreases |fs|
  {
    if fs == [] then m else MeanStep(MeanUpdate(m, fs[0], c), fs[1..], c)
  }

  /** `_offset` after the mean pass over the records `rs`
      (fly_core.h:447-457). */
  function Means(rs: seq<Instance>): int -> real
    decreases |rs|
  {
    if rs == [] then Zero else MeanStep(Means(rs[..|rs| - 1]), rs[|rs| - 1].features, |rs| - 1)
  }

  /** One record's pairs adding their squared distance from the mean to
      their slot. */
  function SquareStep(sq: int -> real, m: int -> real, fs: seq<IndValue>): int -> real
    decreases |fs|
  {
    if fs == [] then sq
    else
      var f := fs[0];
      SquareStep(j => if j == f.index then sq(j) + (f.value - m(j)) * (f.value - m(j)) else sq(j), m, fs[1..])
  }

  /** `_weight` after the pass that sums the squares (fly_core.h:458-468). */
  function Squares(rs: seq<Instance>, m: int -> real): int -> real
    decreases |rs|
  {
    if rs == [] then Zero else SquareStep(Squares(rs[..|rs| - 1], m), m, rs[|rs| - 1].features)
  }

  /** The bound under which a mean or a deviation counts as 0. */
  const Tiny: real := 0.0000001

  predicate Small(x: real) {
    -Tiny < x < Tiny
  }

  /** The deviation of slot `j`: the root of the mean square over all `c`
      records. */
  function Deviation(sq: int -> real, c: nat, sqrt: real -> real, j: int): real
    requires c > 0
  {
    sqrt(sq(j) / c as real)
  }

  /** A slot whose mean or deviation is below 1e-7 in magnitude gets
      mean and deviation 1.0 (fly_core.h:469-475). */
  predicate Replaced(m: int -> real, sq: int -> real, c: nat, sqrt: real -> real, j: int)
    requires c > 0
  {
    Small(m(j)) || Small(Deviation(sq, c, sqrt, j))
  }

  /** The means kept for the slots below the dimension; the others are
      never read and are 0 here. */
  function Offsets(theta: int, m: int -> real, sq: int -> real, c: nat, sqrt: real -> real): int -> real
    requires theta > 0 ==> c > 0
  {
    j => if 0 <= j < theta then (if Replaced(m, sq, c, sqrt, j) then 1.0 else m(j)) else 0.0
  }

  /** The deviations kept for the slots below the dimension; the others
      are never read and are 1.0 here. */
  function Weights(theta: int, m: int -> real, sq: int -> real, c: nat, sqrt: real -> real): int -> real
    requires theta > 0 ==> c > 0
  {
    j => if 0 <= j < theta then (if Replaced(m, sq, c, sqrt, j) then 1.0 else Deviation(sq, c, sqrt, j)) else 1.0
  }

  /** The replacement makes every deviation usable as a divisor, and it
      replaces mean and deviation together: a slot keeps both statistics
      or gets 1.0 for both. */
  lemma WeightsNonZero(theta: int, m: int -> real, sq: int -> real, c: nat, sqrt: real -> real)
    requires theta > 0 ==> c > 0
    ensures forall j :: Weights(theta, m, sq, c, sqrt)(j) != 0.0
    ensures forall j :: 0 <= j < theta ==>
      (Offsets(theta, m, sq, c, sqrt)(j) == m(j) && Weights(theta, m, sq, c, sqrt)(j) == Deviation(sq, c, sqrt, j)) ||
      (Offsets(theta, m, sq, c, sqrt)(j) == 1.0 && Weights(theta, m, sq, c, sqrt)(j) == 1.0)
  {
  }

  /** How many pairs of `fs` have index `j`, and the sum of their values. */
  function CountAt(fs: seq<IndValue>, j: int): nat
    decreases |fs|
  {
    if fs == [] then 0 else (if fs[0].index == j then 1 else 0) + CountAt(fs[1..], j)
  }

  function SumAt(fs: seq<IndValue>, j: int): real
    decreases |fs|
  {
    if fs == [] then 0.0 else (if fs[0].index == j then fs[0].value else 0.0) + SumAt(fs[1..], j)
  }

  /** The values slot `j` takes, record by record. */
  function Column(rs: seq<Instance>, j: int): (r: seq<real>)
    ensures |r| == |rs| && forall k :: 0 <= k < |rs| ==> r[k] == SumAt(rs[k].features, j)
  {
    seq(|rs|, k requires 0 <= k < |rs| => SumAt(rs[k].features, j))
  }

  function Sum(vs: seq<real>): real
    decreases |vs|
  {
    if vs == [] then 0.0 else Sum(vs[..|vs| - 1]) + vs[|vs| - 1]
  }

  /** The running mean of a sequence of values. */
  function RunningMean(vs: seq<real>): real
    decreases |vs|
  {
    if vs == [] then 0.0 else MeanMove(RunningMean(vs[..|vs| - 1]), vs[|vs| - 1], |vs| - 1)
  }

  /** A record without slot `j` leaves its mean; a record carrying it
      once moves it by the running-mean rule. */
  lemma {:induction false} MeanStepAt(m: int -> real, fs: seq<IndValue>, c: nat, j: int)
    ensures CountAt(fs, j) == 0 ==> MeanStep(m, fs, c)(j) == m(j)
    ensures CountAt(fs, j) == 1 ==> MeanStep(m, fs, c)(j) == MeanMove(m(j), SumAt(fs, j), c)
    decreases |fs|
  {
    if fs != [] {
      var m' := MeanUpdate(m, fs[0], c);
      MeanStepAt(m', fs[1..], c, j);
      if fs[0].index == j {
        assert SumAt(fs, j) == fs[0].value + SumAt(fs[1..], j);
        if CountAt(fs, j) == 1 {
          MeanStepAt(m', fs[1..], c, j);
          assert CountAt(fs[1..], j) == 0;
          SumAbsent(fs[1..], j);
        }
      }
    }
  }

  /** No pair with index `j`: nothing to sum. */
  lemma {:induction false} SumAbsent(fs: seq<IndValue>, j: int)
    requires CountAt(fs, j) == 0
    ensures SumAt(fs, j) == 0.0
    decreases |fs|
  {
    if fs != [] {
      SumAbsent(fs[1..], j);
    }
  }

  /** For a slot every record carries exactly once, the offset the mean
      pass leaves is the running mean of the slot's values. */
  lemma {:induction false} MeansFollowColumn(rs: seq<Instance>, j: int)
    requires forall r :: 0 <= r < |rs| ==> CountAt(rs[r].features, j) == 1
    ensures Means(rs)(j) == RunningMean(Column(rs, j))
    decreases |rs|
  {
    if rs != [] {
      var c: nat := |rs| - 1;
      var init := rs[..c];
      assert forall r :: 0 <= r < |init| ==> init[r] == rs[r];
      MeansFollowColumn(init, j);
      MeanStepAt(Means(init), rs[c].features, c, j);
      assert Column(rs, j)[..c] == Column(init, j);
    }
  }

  /** Scaled by the count, the rule adds the value to `c` times the old
      mean. */
  lemma MoveScaled(mean: real, v: real, c: nat)
    ensures MeanMove(mean, v, c) * (c + 1) as real == mean * c as real + v
  {
    var d := c as real + 1.0;
    assert (mean * (c as real / d)) * d == mean * c as real;
    assert (v / d) * d == v;
  }

  /** The running mean times the number of values is their sum: it is
      their mean. */
  lemma {:induction false} RunningMeanIsMean(vs: seq<real>)
    ensures RunningMean(vs) * |vs| as real == Sum(vs)
    decreases |vs|
  {
    if vs != [] {
      var c := |vs| - 1;
      RunningMeanIsMean(vs[..c]);
      MoveScaled(RunningMean(vs[..c]), vs[c], c);
    }
  }

  /** For a slot every record carries exactly once, the offset the mean
      pass leaves is the mean of the slot's values over the records. */
  lemma MeansOfCarriedSlot(rs: seq<Instance>, j: int)
    requires forall r :: 0 <= r < |rs| ==> CountAt(rs[r].features, j) == 1
    ensures Means(rs)(j) * |rs| as real == Sum(Column(rs, j))
  {
    MeansFollowColumn(rs, j);
    RunningMeanIsMean(Column(rs, j));
  }

  /** The older buffered reader with optional standardisation: `set`
      computes each slot's running mean and deviation, taking the square
      root `sqrt` as given. */
  class LegacyFeatureReader {
    var buffer: seq<Instance>
    var theta: int
    var cur: nat
    var preprocess: bool
    var offset: int -> real
    var weight: int -> real

    ghost predicate Valid()
      reads this
    {
      forall i :: weight(i) != 0.0
    }

    constructor()
      ensures Valid() && buffer == [] && theta == 0 && cur == 0 && !preprocess
    {
      buffer := [];
      theta := 0;
      cur := 0;
      preprocess := false;
      offset := _ => 0.0;
      weight := _ => 1.0;
    }

    /** `percentage`: the share of the buffer read so far, in whole
        percent; an empty buffer divides by zero, which has no value here
        (fly_core.h:390-392). */
    function Percentage(): (r: Option<int>)
      reads this
      ensures r.None? <==> |buffer| == 0
      ensures r.Some? && cur <= |buffer| ==> 0 <= r.value <= 100
      ensures r.Some? ==> r.value * |buffer| <= cur * 100 < (r.value + 1) * |buffer|
    {
      if |buffer| == 0 then None else Some(cur * 100 / |buffer|)
    }

    /** `set`: one record per line and the dimension one more than the
        largest index; when standardisation is asked for, every slot below
        the dimension gets its running mean and its deviation, both 1.0
        when either is below 1e-7; otherwise the statistics held before are
        left (fly_core.h:395-480). */
    method Set(lines: seq<string>, atof: string -> real, atoi: string -> int, pre: bool, sqrt: real -> real)
      requires Valid()
      modifies this
      ensures Valid()
      ensures buffer == LegacyRecords(lines, atof, atoi) && theta == ThetaOf(0, buffer) && cur == 0
      ensures preprocess == pre
      ensures pre ==> var m := Means(buffer);
        offset == Offsets(theta, m, Squares(buffer, m), |buffer|, sqrt) &&
        weight == Weights(theta, m, Squares(buffer, m), |buffer|, sqrt)
      ensures !pre ==> offset == old(offset) && weight == old(weight)
    {
      preprocess := pre;
      cur := 0;
      buffer := [];
      theta := 0;
      for i := 0 to |lines|
        invariant preprocess == pre && cur == 0 && offset == old(offset) && weight == old(weight)
        invariant buffer == LegacyRecords(lines[..i], atof, atoi)
        invariant ThetaOf(theta, LegacyRecords(lines[i..], atof, atoi)) == ThetaOf(0, LegacyRecords(lines, atof, atoi))
      {
        var ins := LegacyParseItem(lines[i], atof, atoi);
        assert LegacyRecords(lines[i..], atof, atoi) == [ins] + LegacyRecords(lines[i + 1..], atof, atoi);
        buffer := buffer + [ins];
        theta := WidenBy(theta, ins.features);
        assert LegacyRecords(lines[..i + 1], atof, atoi) == buffer;
      }
      assert lines[..|lines|] == lines && LegacyRecords(lines[|lines|..], atof, atoi) == [];
      if !pre {
        return;
      }
      var m, sq := Statistics(buffer);
      assert buffer == [] ==> theta == 0;
      WeightsNonZero(theta, m, sq, |buffer|, sqrt);
      offset := Offsets(theta, m, sq, |buffer|, sqrt);
      weight := Weights(theta, m, sq, |buffer|, sqrt);
    }

    /** The two passes of `set` over the buffer: the running means, then
        the squared distances from them (fly_core.h:447-468). */
    static method Statistics(rs: seq<Instance>) returns (m: int -> real, sq: int -> real)
      ensures m == Means(rs) && sq == Squares(rs, m)
    {
      m := Zero;
      for u := 0 to |rs|
        invariant m == Means(rs[..u])
      {
        assert rs[..u + 1][..u] == rs[..u];
        m := MeanStep(m, rs[u].features, u);
      }
      assert rs[..|rs|] == rs;
      sq := Zero;
      for u := 0 to |rs|
        invariant sq == Squares(rs[..u], m)
      {
        assert rs[..u + 1][..u] == rs[..u];
        sq := SquareStep(sq, m, rs[u].features);
      }
    }

    /** `reset` (fly_core.h:482-485). */
    method Reset()
      modifies this
      ensures cur == 0 && buffer == old(buffer) && theta == old(theta)
      ensures preprocess == old(preprocess) && offset == old(offset) && weight == old(weight)
    {
      cur := 0;
    }

    /** `read`: nothing at the end; otherwise the record at the cursor,
        standardised unless `original` is set or no preprocessing was asked
        for (fly_core.h:487-501). */
    method Read(original: bool) returns (r: Option<Instance>)
      requires Valid()
      modifies this
      ensures Valid() && buffer == old(buffer) && theta == old(theta)
      ensures preprocess == old(preprocess) && offset == old(offset) && weight == old(weight)
      ensures r.Some? <==> old(cur) < |buffer|
      ensures r.None? ==> cur == old(cur)
      ensures r.Some? ==> cur == old(cur) + 1
      ensures r.Some? ==>
        r.value == (if original || !preprocess then buffer[old(cur)] else Standardize(buffer[old(cur)], offset, weight))
    {
      if cur >= |buffer| {
        return None;
      }
      var item := buffer[cur];
      cur := cur + 1;
      if !original && preprocess {
        item := Standardize(item, offset, weight);
      }
      r := Some(item);
    }
  }

  /** Every index the older reader buffers is a valid slot of the
      per-dimension arrays: not negative, below the dimension. */
  lemma LegacyIndicesInDim(lines: seq<string>, atof: string -> real, atoi: string -> int)
    ensures var rs := LegacyRecords(lines, atof, atoi);
      forall r, k :: 0 <= r < |rs| && 0 <= k < |rs[r].features| ==>
        0 <= rs[r].features[k].index < ThetaOf(0, rs)
  {
    var rs := LegacyRecords(lines, atof, atoi);
    ThetaIsMax(0, rs);
    forall r | 0 <= r < |rs|
      ensures forall k :: 0 <= k < |rs[r].features| ==> rs[r].features[k].index >= 0
    {
      LegacyIndicesNotNegative(lines[r], 0, LegacyCursor(0, -1, []), atof, atoi);
    }
  }
}
