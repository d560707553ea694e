/** The one-vs-rest classifier of models/meta.h: `MultiClassFakeReader_t`
    shows a base classifier the records of a reader with every label
    turned into "this class or not", and `MetaModel_t` holds one classifier
    per class, predicts the class whose classifier scores highest, and
    writes and reads the class count followed by every classifier. */
module Meta {
  import opened Wrappers
  import opened Config
  import opened Instances
  import opened Readers

  function Abs(x: real): real {
    if x < 0.0 then -x else x
  }

  /** The label `read` gives a record for class `classId`: 1 when the
      label lies within 0.5 of the class, 0 otherwise
      (models/meta.h:60-64). */
  function Relabel(y: real, classId: int): real {
    if Abs(y - classId as real) <= 0.5 then 1.0 else 0.0
  }

  /** For a record labelled with a class number, the relabelled record is
      positive exactly for its own class. */
  lemma OneVsRest(y: int, classId: int)
    ensures Relabel(y as real, classId) == 1.0 <==> y == classId
    ensures Relabel(y as real, classId) == 0.0 <==> y != classId
  {
    if y < classId {
      assert y as real - classId as real <= -1.0;
    } else if y > classId {
      assert y as real - classId as real >= 1.0;
    }
  }

  /** Two different classes both claim a label only when they are
      neighbours and the label lies exactly halfway between them, since
      the window is closed on both sides. */
  lemma ClaimsOverlapAtMidpoints(y: real, c1: int, c2: int)
    requires c1 < c2
    ensures Relabel(y, c1) == 1.0 && Relabel(y, c2) == 1.0 <==>
      c2 == c1 + 1 && y == c1 as real + 0.5
  {
    if Relabel(y, c1) == 1.0 && Relabel(y, c2) == 1.0 {
      assert y <= c1 as real + 0.5 && c2 as real - 0.5 <= y;
      assert c2 as real <= c1 as real + 1.0;
    }
  }

  /** `MultiClassFakeReader_t`: the wrapped reader (the buffered reader of
      fly_core.h) and the class id. */
  class FakeReader {
    const reader: LegacyFeatureReader
    const classId: int

    /** The constructor (models/meta.h:21-24). */
    constructor(reader: LegacyFeatureReader, classId: int)
      ensures this.reader == reader && this.classId == classId
    {
      this.reader := reader;
      this.classId := classId;
    }

    /** `size` is the wrapped reader's record count (models/meta.h:26-28,
        fly_core.h:387). */
    function Size(): (r: nat)
      reads reader
      ensures r == |reader.buffer|
    {
      |reader.buffer|
    }

    /** `processed_num` is the wrapped reader's cursor
        (models/meta.h:29-31, fly_core.h:388). */
    function ProcessedNum(): (r: nat)
      reads reader
      ensures r == reader.cur
    {
      reader.cur
    }

    /** `dim` is the wrapped reader's (models/meta.h:32-34,
        fly_core.h:389). */
    function Dim(): (r: int)
      reads reader
      ensures r == reader.theta
    {
      reader.theta
    }

    /** `percentage` is the wrapped reader's (models/meta.h:35-37). */
    function Percentage(): (r: Option<int>)
      reads reader
      ensures r == reader.Percentage()
    {
      reader.Percentage()
    }

    /** `set(filename, preprocess)` loads the file into the wrapped reader,
        asking for standardisation when `pre` holds (models/meta.h:38-40). */
    method SetFile(lines: seq<string>, atof: string -> real, atoi: string -> int, pre: bool, sqrt: real -> real)
      requires reader.Valid()
      modifies reader
      ensures reader.Valid()
      ensures reader.buffer == LegacyRecords(lines, atof, atoi) && reader.theta == ThetaOf(0, reader.buffer) && reader.cur == 0
      ensures reader.preprocess == pre
      ensures pre ==> var m := Means(reader.buffer);
        reader.offset == Offsets(reader.theta, m, Squares(reader.buffer, m), |reader.buffer|, sqrt) &&
        reader.weight == Weights(reader.theta, m, Squares(reader.buffer, m), |reader.buffer|, sqrt)
      ensures !pre ==> reader.offset == old(reader.offset) && reader.weight == old(reader.weight)
    {
      reader.Set(lines, atof, atoi, pre, sqrt);
    }

    /** `reset` rewinds the wrapped reader (models/meta.h:45-47). */
    method Reset()
      modifies reader
      ensures reader.cur == 0 && reader.buffer == old(reader.buffer) && reader.theta == old(reader.theta)
      ensures reader.preprocess == old(reader.preprocess) && reader.offset == old(reader.offset) && reader.weight == old(reader.weight)
    {
      reader.Reset();
    }

    /** `read(item, original)`: the wrapped reader's next record, read with
        the same `original` flag, or the caller's record left as it was at
        the end of the buffer, in either case relabelled for the class; the
        flag returned is the wrapped reader's (models/meta.h:57-67). */
    method Read(item: Instance, original: bool) returns (ok: bool, out: Instance)
      requires reader.Valid()
      modifies reader
      ensures reader.Valid() && reader.buffer == old(reader.buffer) && reader.theta == old(reader.theta)
      ensures reader.preprocess == old(reader.preprocess) && reader.offset == old(reader.offset) && reader.weight == old(reader.weight)
      ensures ok <==> old(reader.cur) < |reader.buffer|
      ensures ok ==> reader.cur == old(reader.cur) + 1
      ensures !ok ==> reader.cur == old(reader.cur)
      ensures var got := if !ok then item
                         else if original || !reader.preprocess then reader.buffer[old(reader.cur)]
                         else Standardize(reader.buffer[old(reader.cur)], reader.offset, reader.weight);
        out == Instance(Relabel(got.target, classId), got.features)
    {
      var r := reader.Read(original);
      var got := item;
      ok := r.Some?;
      if ok {
        got := r.value;
      }
      out := Instance(Relabel(got.target, classId), got.features);
    }
  }

  /** The base classifiers `MetaModel_t` can build. */
  datatype Kind = Lr | Gbdt

  /** The classifier `meta_model` names: `lr`, `gbdt`, or neither, in
      which case the slots are left unset (models/meta.h:96-102). */
  function KindOf(name: string): (k: Option<Kind>)
    ensures k == Some(Lr) <==> name == "lr"
    ensures k == Some(Gbdt) <==> name == "gbdt"
    ensures k.None? <==> name != "lr" && name != "gbdt"
  {
    if name == "lr" then Some(Lr) else if name == "gbdt" then Some(Gbdt) else None
  }

  /** What the constructor settles: the class count, the kind every slot
      gets, and the section the classifiers read their settings from. */
  datatype Setup = Setup(classNum: nat, kind: Option<Kind>, subSection: string)

  const NoClassNum: string := "Meta model needs config: <class_num>"
  const NoMetaModel: string := "Meta model needs config: <meta_model>"
  const NoMetaSection: string := "Meta model needs config: <meta_section>"
  /** A negative `class_num` makes the allocation of the classifier table
      throw. */
  const BadClassNum: string := "std::bad_array_new_length"

  /** The checks of the `MetaModel_t` constructor, in their order
      (models/meta.h:81-103). */
  function MetaSetup(conf: Config, section: string, atoi: string -> int): (r: Result<Setup>)
    reads conf
  {
    match conf.ConfInt(section, "class_num", atoi)
    case None => Failure(NoClassNum)
    case Some(n) =>
      match conf.ConfStr(section, "meta_model")
      case None => Failure(NoMetaModel)
      case Some(s) =>
        match conf.ConfStr(section, "meta_section")
        case None => Failure(NoMetaSection)
        case Some(sub) =>
          if n < 0 then Failure(BadClassNum) else Success(Setup(n, KindOf(s), sub))
  }

  /** The constructor fails exactly when one of the three keys is
      missing or the count is negative, naming the first missing key;
      otherwise every setting is the configured one. */
  lemma MetaSetupChecks(conf: Config, section: string, atoi: string -> int)
    ensures var r := MetaSetup(conf, section, atoi);
      (r.Success? <==>
        section + "/class_num" in conf.entries && section + "/meta_model" in conf.entries &&
        section + "/meta_section" in conf.entries && atoi(conf.entries[section + "/class_num"]) >= 0) &&
      (section + "/class_num" !in conf.entries ==> r == Failure(NoClassNum)) &&
      (section + "/class_num" in conf.entries && section + "/meta_model" !in conf.entries ==> r == Failure(NoMetaModel)) &&
      (r.Success? ==>
        r.value.classNum == atoi(conf.entries[section + "/class_num"]) &&
        r.value.kind == KindOf(conf.entries[section + "/meta_model"]) &&
        r.value.subSection == conf.entries[section + "/meta_section"])
  {
    assert section + "/" + "class_num" == section + "/class_num";
    assert section + "/" + "meta_model" == section + "/meta_model";
    assert section + "/" + "meta_section" == section + "/meta_section";
  }

  /** One part of a written model: the class count, or one classifier's
      own written state. */
  datatype Chunk = ClassCount(n: int) | Model(state: seq<real>)

  /** `write_model`: the class count, then every classifier in order
      (models/meta.h:135-140). */
  function Written(classNum: int, states: seq<seq<real>>): (r: seq<Chunk>)
    requires classNum <= |states|
  {
    [ClassCount(classNum)] + seq(if classNum < 0 then 0 else classNum, i requires 0 <= i < classNum => Model(states[i]))
  }

  /** A class count and the states of the classifiers in use. */
  datatype ReadResult = ReadResult(count: int, states: seq<seq<real>>)

  /** `read_model` on a stream: the count it starts with and the states
      of that many classifiers, which must be built; `None` when the
      stream does not have that form or names more classifiers than
      there are. */
  function ReadBack(stream: seq<Chunk>, built: nat): (r: Option<ReadResult>)
    ensures r.Some? ==> r.value.count <= built && |r.value.states| == (if r.value.count < 0 then 0 else r.value.count)
  {
    if stream == [] || !stream[0].ClassCount? then None
    else
      var n := stream[0].n;
      var m := if n < 0 then 0 else n;
      if n > built || |stream| != m + 1 || exists i :: 1 <= i <= m && !stream[i].Model? then None
      else Some(ReadResult(n, seq(m, i requires 0 <= i < m => stream[i + 1].state)))
  }

  /** Reading back what was written gives the class count and the states
      of the classifiers in use. */
  lemma WriteReadRoundTrip(classNum: int, states: seq<seq<real>>)
    requires classNum <= |states|
    ensures var m := if classNum < 0 then 0 else classNum;
      ReadBack(Written(classNum, states), |states|) == Some(ReadResult(classNum, states[..m]))
  {
    var m := if classNum < 0 then 0 else classNum;
    var w := Written(classNum, states);
    assert forall i :: 1 <= i <= m ==> w[i] == Model(states[i - 1]);
    assert seq(m, i requires 0 <= i < m => w[i + 1].state) == states[..m];
  }

  /** `MetaModel_t`: one classifier per class, each represented by its
      kind and by the state it writes and reads. */
  class MetaModel {
    var classNum: int
    var kinds: seq<Option<Kind>>
    var subSection: string
    var states: seq<seq<real>>

    ghost predicate Valid()
      reads this
    {
      classNum <= |kinds| == |states|
    }

    /** The constructor on the checked settings: `class_num` slots, all
        of the configured kind (models/meta.h:95-102). */
    constructor(s: Setup)
      ensures Valid() && classNum == s.classNum && subSection == s.subSection
      ensures |kinds| == s.classNum && forall i :: 0 <= i < s.classNum ==> kinds[i] == s.kind
      ensures |states| == s.classNum
    {
      classNum := s.classNum;
      kinds := seq(s.classNum, _ => s.kind);
      subSection := s.subSection;
      states := seq(s.classNum, _ => []);
    }

    /** `predict`: the first class whose classifier gives the highest
        score, `score(c)` being classifier `c`'s prediction; -1 when there
        is no class (models/meta.h:105-117). */
    method Predict(score: nat -> real) returns (best: int)
      ensures best == -1 <==> classNum <= 0
      ensures best != -1 ==> 0 <= best < classNum
      ensures best != -1 ==> forall c :: 0 <= c < classNum ==> score(c) <= score(best as nat)
      ensures best != -1 ==> forall c :: 0 <= c < best ==> score(c) < score(best as nat)
    {
      var bestScore := 0.0;
      best := -1;
      var c := 0;
      while c < classNum
        invariant 0 <= c && (c == 0 || c <= classNum)
        invariant best == -1 <==> c == 0
        invariant best != -1 ==> 0 <= best < c && bestScore == score(best as nat)
        invariant best != -1 ==> forall k :: 0 <= k < c ==> score(k) <= bestScore
        invariant best != -1 ==> forall k :: 0 <= k < best ==> score(k) < bestScore
      {
        var s := score(c);
        if best == -1 || bestScore < s {
          bestScore := s;
          best := c;
        }
        c := c + 1;
      }
    }

    /** `write_model` (models/meta.h:135-140). */
    function WriteModel(): (r: seq<Chunk>)
      requires Valid()
      reads this
      ensures ReadBack(r, |states|).Some?
    {
      WriteReadRoundTrip(classNum, states);
      Written(classNum, states)
    }

    /** `read_model`: the count from the stream replaces the class count
        and each classifier in use reads its state in turn; a stream
        naming more classifiers than were built, or of another form, is
        refused and changes nothing (models/meta.h:142-147). */
    method ReadModel(stream: seq<Chunk>) returns (ok: bool)
      requires Valid()
      modifies this
      ensures Valid() && kinds == old(kinds) && subSection == old(subSection)
      ensures ok <==> ReadBack(stream, |old(states)|).Some?
      ensures ok ==> var got := ReadBack(stream, |old(states)|).value;
        classNum == got.count && states == got.states + old(states)[|got.states|..]
      ensures !ok ==> classNum == old(classNum) && states == old(states)
    {
      var r := ReadBack(stream, |states|);
      if r.None? {
        return false;
      }
      var n := r.value.count;
      classNum := n;
      var i := 0;
      while i < n
        invariant 0 <= i && (i == 0 || i <= n) && n <= |states| == |old(states)|
        invariant |r.value.states| == (if n < 0 then 0 else n)
        invariant states == r.value.states[..i] + old(states)[i..]
        invariant classNum == n && kinds == old(kinds) && subSection == old(subSection)
      {
        assert r.value.states[i] == stream[i + 1].state;
        states := states[i := stream[i + 1].state];
        i := i + 1;
      }
      return true;
    }
  }
}
