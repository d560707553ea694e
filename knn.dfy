/** The nearest-neighbour classifier `KNNModel_t` of models/knn.h:
    `predict` walks the training reader, keeps the `k` records nearest to
    the query in a max-heap on distance, and returns the label most of
    them carry, the smallest such label on a tie. */
module Knn {
  import opened Wrappers
  import opened Config
  import opened Instances
  import opened Readers

  /** The number of slots of the dense buffer `_calc_dist` uses. */
  const Slots: int := 1000

  /** `(size_t)k`: the conversion is modulo 2^64, so a negative `k`
      wraps around to a huge bound. */
  function Cap(k: int): nat {
    k % 0x1_0000_0000_0000_0000
  }

  /** The constructor needs `k` (models/knn.h:42-46). */
  function KSetting(conf: Config, section: string, atoi: string -> int): (r: Result<int>)
    reads conf
    ensures r.Success? <==> section + "/k" in conf.entries
    ensures r.Success? ==> r.value == atoi(conf.entries[section + "/k"])
    ensures r.Failure? ==> r.error == "Meta model needs config: <k>"
  {
    assert section + "/" + "k" == section + "/k";
    match conf.ConfInt(section, "k", atoi)
    case None => Failure("Meta model needs config: <k>")
    case Some(k) => Success(k)
  }

  // ---------------------------------------------------------------
  // Distance
  // ---------------------------------------------------------------

  const Sq: real -> real := x => x * x

  /** The sum of the values a record gives slot `i`. */
  function Dense(fs: seq<IndValue>, i: int): real
    decreases |fs|
  {
    if fs == [] then 0.0
    else Dense(fs[..|fs| - 1], i) + (if fs[|fs| - 1].index == i then fs[|fs| - 1].value else 0.0)
  }

  /** Every index of the record falls inside the buffer. */
  predicate InSlots(fs: seq<IndValue>) {
    forall j :: 0 <= j < |fs| ==> 0 <= fs[j].index < Slots
  }

  /** The squared L2 distance over the first `n` slots. */
  function SqDist(a: seq<IndValue>, b: seq<IndValue>, n: nat): real {
    if n == 0 then 0.0 else SqDist(a, b, n - 1) + Sq(Dense(a, n - 1) - Dense(b, n - 1))
  }

  /** `_calc_dist` on records whose indices fall inside its 1000 slots:
      the squared L2 distance over the slots.  An index outside them makes
      the C++ write past its buffer, which is undefined behaviour; the
      model gives `None` there instead. */
  function Distance(a: Instance, b: Instance): Option<real> {
    if InSlots(a.features) && InSlots(b.features) then Some(SqDist(a.features, b.features, Slots)) else None
  }

  lemma SqSymmetric(x: real, y: real)
    ensures Sq(x - y) == Sq(y - x) && Sq(x - y) >= 0.0
  {
    var d := x - y;
    assert y - x == -d;
    assert (-d) * (-d) == d * d;
    if d < 0.0 {
      assert (-d) * (-d) >= 0.0;
    }
  }

  /** The distance is symmetric, never negative, and zero from a record
      to itself. */
  lemma {:induction false} SqDistMetric(a: seq<IndValue>, b: seq<IndValue>, n: nat)
    ensures SqDist(a, b, n) == SqDist(b, a, n)
    ensures SqDist(a, b, n) >= 0.0
    ensures SqDist(a, a, n) == 0.0
  {
    if n > 0 {
      SqDistMetric(a, b, n - 1);
      SqSymmetric(Dense(a, n - 1), Dense(b, n - 1));
      assert Sq(Dense(a, n - 1) - Dense(a, n - 1)) == 0.0;
    }
  }

  lemma DenseStep(fs: seq<IndValue>, k: nat, i: int)
    requires k < |fs|
    ensures Dense(fs[..k + 1], i) == Dense(fs[..k], i) + (if fs[k].index == i then fs[k].value else 0.0)
  {
    assert fs[..k + 1][..k] == fs[..k];
  }

  /** The first loop of `_calc_dist`: the values of `fs` added into the
      buffer, slot by slot. */
  method AddInto(buf: array<real>, fs: seq<IndValue>)
    requires buf.Length == Slots && InSlots(fs)
    modifies buf
    ensures forall j :: 0 <= j < Slots ==> buf[j] == old(buf[j]) + Dense(fs, j)
  {
    for i := 0 to |fs|
      invariant forall j :: 0 <= j < Slots ==> buf[j] == old(buf[j]) + Dense(fs[..i], j)
    {
      forall j | 0 <= j < Slots
        ensures Dense(fs[..i + 1], j) == Dense(fs[..i], j) + (if fs[i].index == j then fs[i].value else 0.0)
      {
        DenseStep(fs, i, j);
      }
      buf[fs[i].index] := buf[fs[i].index] + fs[i].value;
    }
    assert fs[..|fs|] == fs;
  }

  /** The second loop of `_calc_dist`: the values of `fs` subtracted from
      the buffer, slot by slot. */
  method SubtractFrom(buf: array<real>, fs: seq<IndValue>)
    requires buf.Length == Slots && InSlots(fs)
    modifies buf
    ensures forall j :: 0 <= j < Slots ==> buf[j] == old(buf[j]) - Dense(fs, j)
  {
    for i := 0 to |fs|
      invariant forall j :: 0 <= j < Slots ==> buf[j] == old(buf[j]) - Dense(fs[..i], j)
    {
      forall j | 0 <= j < Slots
        ensures Dense(fs[..i + 1], j) == Dense(fs[..i], j) + (if fs[i].index == j then fs[i].value else 0.0)
      {
        DenseStep(fs, i, j);
      }
      buf[fs[i].index] := buf[fs[i].index] - fs[i].value;
    }
    assert fs[..|fs|] == fs;
  }

  /** `_calc_dist(a, b)`: `a` is added into a zeroed buffer of 1000 slots,
      `b` subtracted, and the squares summed (models/knn.h:119-136).  The
      C++ does not check the indices; the model refuses, with `None`, the
      records it would write past the buffer for. */
  method CalcDist(a: Instance, b: Instance) returns (r: Option<real>)
    ensures r == Distance(a, b)
  {
    if !(InSlots(a.features) && InSlots(b.features)) {
      return None;
    }
    var buf := new real[Slots](_ => 0.0);
    AddInto(buf, a.features);
    SubtractFrom(buf, b.features);
    var sum := 0.0;
    for i := 0 to Slots
      invariant sum == SqDist(a.features, b.features, i)
    {
      var v := buf[i];
      var m := if v < 0.0 then -v else v;
      assert m * m == Sq(v);
      sum := sum + m * m;
    }
    r := Some(sum);
  }

  // ---------------------------------------------------------------
  // The heap of nearest records
  // ---------------------------------------------------------------

  /** `Info_t`: a record's label and its distance to the query. */
  datatype Info = Info(tag: real, dist: real)

  /** The first entry of greatest distance: the one `pop` removes from
      the max-heap (which of several equally distant entries goes is the
      heap's choice in the C++). */
  function MaxAt(h: seq<Info>): (j: nat)
    requires h != []
    ensures j < |h| && forall i :: 0 <= i < |h| ==> h[i].dist <= h[j].dist
    decreases |h|
  {
    if |h| == 1 then 0
    else
      var j := MaxAt(h[..|h| - 1]);
      if h[|h| - 1].dist > h[j].dist then |h| - 1 else j
  }

  /** The entries kept in the heap and those popped from it. */
  datatype Heap = Heap(kept: seq<Info>, dropped: seq<Info>)

  /** The heap after every entry is pushed in turn and, whenever it
      holds more than `cap`, its farthest entry popped
      (models/knn.h:53-64). */
  function Nearest(infos: seq<Info>, cap: nat): Heap
    decreases |infos|
  {
    if infos == [] then Heap([], [])
    else
      var prev := Nearest(infos[..|infos| - 1], cap);
      Pushed(prev, infos[|infos| - 1], cap)
  }

  /** One `push` and the `pop` that follows when the heap is over `cap`. */
  function Pushed(prev: Heap, x: Info, cap: nat): Heap {
    var h := prev.kept + [x];
    if |h| > cap then
      var j := MaxAt(h);
      Heap(h[..j] + h[j + 1..], prev.dropped + [h[j]])
    else Heap(h, prev.dropped)
  }

  function Min(a: nat, b: nat): nat {
    if a <= b then a else b
  }

  /** What the heap holds after the entries `infos` were pushed: no more
      than `cap` entries, exactly `cap` once that many were pushed; every
      entry pushed is either kept or dropped; and every kept entry is at
      least as near as every dropped one. */
  ghost predicate HoldsNearest(h: Heap, infos: seq<Info>, cap: nat) {
    |h.kept| == Min(cap, |infos|) &&
    multiset(h.kept) + multiset(h.dropped) == multiset(infos) &&
    (forall x, y :: x in h.kept && y in h.dropped ==> x.dist <= y.dist)
  }

  /** The pop after a push removes the farthest entry, so every entry
      left is at least as near as every entry dropped, old or new. */
  lemma PopKeepsOrder(prev: Heap, a: Info, j: nat)
    requires j < |prev.kept| + 1
    requires forall i :: 0 <= i < |prev.kept| + 1 ==> (prev.kept + [a])[i].dist <= (prev.kept + [a])[j].dist
    requires forall x, y :: x in prev.kept && y in prev.dropped ==> x.dist <= y.dist
    ensures var h := prev.kept + [a];
      forall x, y :: x in h[..j] + h[j + 1..] && y in prev.dropped + [h[j]] ==> x.dist <= y.dist
  {
    var h := prev.kept + [a];
    forall x, y | x in h[..j] + h[j + 1..] && y in prev.dropped + [h[j]]
      ensures x.dist <= y.dist
    {
      var xi :| 0 <= xi < |h| && xi != j && h[xi] == x;
      if y != h[j] {
        assert y in prev.dropped;
        if xi < |prev.kept| {
          assert x in prev.kept;
        } else {
          // the new entry stayed, so the one popped was an older entry,
          // itself no farther than anything dropped before
          assert j < |prev.kept|;
          assert h[j] in prev.kept;
        }
      }
    }
  }

  /** Taking out entry `j` leaves the others. */
  lemma RemoveAt(h: seq<Info>, j: nat)
    requires j < |h|
    ensures multiset(h) == multiset(h[..j] + h[j + 1..]) + multiset{h[j]}
  {
    assert h == h[..j] + [h[j]] + h[j + 1..];
  }

  /** A push that overflows the heap, and the pop of its farthest entry,
      keep the heap holding the nearest entries. */
  lemma PopKeepsNearest(prev: Heap, seen: seq<Info>, a: Info, cap: nat, j: nat)
    requires HoldsNearest(prev, seen, cap) && |prev.kept| + 1 > cap
    requires j == MaxAt(prev.kept + [a])
    ensures var h := prev.kept + [a];
      HoldsNearest(Heap(h[..j] + h[j + 1..], prev.dropped + [h[j]]), seen + [a], cap)
  {
    var h := prev.kept + [a];
    var kept, dropped := h[..j] + h[j + 1..], prev.dropped + [h[j]];
    assert |kept| == Min(cap, |seen| + 1);
    calc {
      multiset(kept) + multiset(dropped);
      multiset(kept) + (multiset(prev.dropped) + multiset{h[j]});
      (multiset(kept) + multiset{h[j]}) + multiset(prev.dropped);
      { RemoveAt(h, j); }
      multiset(h) + multiset(prev.dropped);
      (multiset(prev.kept) + multiset{a}) + multiset(prev.dropped);
      (multiset(prev.kept) + multiset(prev.dropped)) + multiset{a};
      multiset(seen) + multiset{a};
      multiset(seen + [a]);
    }
    PopKeepsOrder(prev, a, j);
  }

  /** A push that does not overflow the heap keeps it holding the nearest
      entries: nothing was dropped before it. */
  lemma PushKeepsNearest(prev: Heap, seen: seq<Info>, a: Info, cap: nat)
    requires HoldsNearest(prev, seen, cap) && |prev.kept| + 1 <= cap
    ensures HoldsNearest(Heap(prev.kept + [a], prev.dropped), seen + [a], cap)
  {
    assert |prev.dropped| == 0 by {
      assert |multiset(prev.kept) + multiset(prev.dropped)| == |multiset(seen)|;
      assert |multiset(prev.dropped)| == |prev.dropped|;
    }
    assert multiset(seen + [a]) == multiset(seen) + multiset{a};
  }

  /** One push and the pop after it keep the heap holding the nearest
      entries. */
  lemma PushedKeepsNearest(prev: Heap, seen: seq<Info>, a: Info, cap: nat)
    requires HoldsNearest(prev, seen, cap)
    ensures HoldsNearest(Pushed(prev, a, cap), seen + [a], cap)
  {
    if |prev.kept| + 1 > cap {
      PopKeepsNearest(prev, seen, a, cap, MaxAt(prev.kept + [a]));
    } else {
      PushKeepsNearest(prev, seen, a, cap);
    }
  }

  /** The heap holds the `Min(cap, |infos|)` nearest of the entries
      pushed. */
  lemma {:induction false} NearestKeepsNearest(infos: seq<Info>, cap: nat)
    ensures HoldsNearest(Nearest(infos, cap), infos, cap)
    decreases |infos|
  {
    if infos != [] {
      var n := |infos| - 1;
      NearestKeepsNearest(infos[..n], cap);
      PushedKeepsNearest(Nearest(infos[..n], cap), infos[..n], infos[n], cap);
      assert infos == infos[..n] + [infos[n]];
    }
  }

  // ---------------------------------------------------------------
  // The vote
  // ---------------------------------------------------------------

  /** How many of the labels equal `l`. */
  function Count(labels: seq<real>, l: real): nat
    decreases |labels|
  {
    if labels == [] then 0
    else Count(labels[..|labels| - 1], l) + (if labels[|labels| - 1] == l then 1 else 0)
  }

  lemma {:induction false} CountPositive(labels: seq<real>, l: real)
    ensures Count(labels, l) > 0 <==> l in labels
    decreases |labels|
  {
    if labels != [] {
      var n := |labels| - 1;
      CountPositive(labels[..n], l);
      assert labels == labels[..n] + [labels[n]];
    }
  }

  /** The label the vote gives: 0 when there are none; otherwise a label
      no other label outnumbers, and which every smaller label falls
      short of. */
  ghost predicate IsVote(labels: seq<real>, best: real) {
    (labels == [] ==> best == 0.0) &&
    (labels != [] ==>
      best in labels &&
      (forall l :: l in labels ==> Count(labels, l) <= Count(labels, best)) &&
      (forall l :: l in labels && l < best ==> Count(labels, l) < Count(labels, best)))
  }

  /** The vote is a function of the labels: at most one label wins. */
  lemma VoteUnique(labels: seq<real>, a: real, b: real)
    requires IsVote(labels, a) && IsVote(labels, b)
    ensures a == b
  {
  }

  /** The smallest of the labels. */
  function Least(s: seq<real>): (m: real)
    requires s != []
    ensures m in s && forall i :: 0 <= i < |s| ==> m <= s[i]
    decreases |s|
  {
    if |s| == 1 then s[0]
    else
      var m := Least(s[1..]);
      if s[0] < m then s[0] else m
  }

  /** The labels other than `m`. */
  function Without(s: seq<real>, m: real): (r: seq<real>)
    ensures forall x :: x in r <==> x in s && x != m
    ensures |r| <= |s| && (m in s ==> |r| < |s|)
    decreases |s|
  {
    if s == [] then []
    else
      var r := Without(s[..|s| - 1], m);
      assert s == s[..|s| - 1] + [s[|s| - 1]];
      if s[|s| - 1] == m then r else r + [s[|s| - 1]]
  }

  /** `counter[label]++` over the heap's labels: every label seen, with
      the number of times it was seen (models/knn.h:68-81). */
  method Tally(labels: seq<real>) returns (counter: map<real, nat>)
    ensures forall l :: l in counter <==> l in labels
    ensures forall l :: l in counter ==> counter[l] == Count(labels, l)
  {
    counter := map[];
    for i := 0 to |labels|
      invariant forall l :: l in counter <==> l in labels[..i]
      invariant forall l :: l in counter ==> counter[l] == Count(labels[..i], l)
    {
      var l := labels[i];
      var c := if l in counter then counter[l] else 0;
      assert labels[..i + 1] == labels[..i] + [l];
      assert labels[..i + 1][..i] == labels[..i];
      CountPositive(labels[..i], l);
      counter := counter[l := c + 1];
    }
    assert labels[..|labels|] == labels;
  }

  /** The walk over `counter` in ascending label order, keeping a label
      only when its count beats the best so far (models/knn.h:83-90). */
  method Vote(labels: seq<real>) returns (best: real)
    ensures IsVote(labels, best)
  {
    var counter := Tally(labels);
    best := 0.0;
    var bestCount := 0;
    var rest := labels;
    while rest != []
      invariant forall r :: r in rest ==> r in labels
      invariant forall d, r :: d in labels && d !in rest && r in rest ==> d < r
      invariant bestCount == 0 <==> |rest| == |labels|
      invariant |rest| == |labels| ==> best == 0.0 && rest == labels
      invariant |rest| != |labels| ==>
        best in labels && best !in rest && bestCount == Count(labels, best) &&
        (forall d :: d in labels && d !in rest ==> Count(labels, d) <= bestCount) &&
        (forall d :: d in labels && d !in rest && d < best ==> Count(labels, d) < bestCount)
      decreases |rest|
    {
      var m := Least(rest);
      CountPositive(labels, m);
      if bestCount < counter[m] {
        best := m;
        bestCount := counter[m];
      }
      rest := Without(rest, m);
    }
  }

  // ---------------------------------------------------------------
  // Prediction
  // ---------------------------------------------------------------

  /** The labels and distances of the records, in order, or `None` when
      some distance cannot be taken. */
  function Infos(rs: seq<Instance>, q: Instance): Option<seq<Info>>
    decreases |rs|
  {
    if rs == [] then Some([])
    else
      match Infos(rs[..|rs| - 1], q)
      case None => None
      case Some(prev) =>
        match Distance(rs[|rs| - 1], q)
        case None => None
        case Some(d) => Some(prev + [Info(rs[|rs| - 1].target, d)])
  }

  function Labels(h: seq<Info>): (r: seq<real>)
    ensures |r| == |h| && forall i :: 0 <= i < |h| ==> r[i] == h[i].tag
  {
    seq(|h|, i requires 0 <= i < |h| => h[i].tag)
  }

  /** `KNNModel_t`: `k` and the training reader `init` hands it. */
  class KnnModel {
    var k: int
    var reader: BinaryReader?

    /** The constructor on the checked setting (models/knn.h:42-46). */
    constructor(k: int)
      ensures this.k == k && reader == null
    {
      this.k := k;
      reader := null;
    }

    /** `init` keeps the reader (models/knn.h:102-104).  models/knn.h
        belongs to the older revision and takes any `FlyReader_t*`; the
        model hands it the binary reader of the current revision, the one
        reader whose records it can rewind and walk. */
    method Init(r: BinaryReader)
      modifies this
      ensures reader == r && k == old(k)
    {
      reader := r;
    }

    /** `predict(ins)`: the reader is rewound and read to its end, the
        records nearest to `ins` kept, and their labels put to the vote
        (models/knn.h:48-100).  A record or query with an index outside the
        1000 slots is undefined behaviour in the C++; the model fails
        there. */
    method Predict(ins: Instance) returns (r: Result<real>)
      requires reader != null && reader.Valid()
      modifies reader
      ensures reader.records == old(reader.records)
      ensures r.Failure? <==> Infos(reader.records, ins).None?
      ensures r.Success? ==> IsVote(Labels(Nearest(Infos(reader.records, ins).value, Cap(k)).kept), r.value)
    {
      var heap := Scan(reader, ins, Cap(k));
      if heap.None? {
        return Failure("index outside the distance buffer");
      }
      var best := Vote(Labels(heap.value.kept));
      r := Success(best);
    }
  }

  /** The reading loop of `predict`: every record is pushed into the heap
      with its distance to `ins`, and the farthest popped once the heap
      holds more than `cap` (models/knn.h:50-64). */
  method Scan(rd: BinaryReader, ins: Instance, cap: nat) returns (heap: Option<Heap>)
    requires rd.Valid()
    modifies rd
    ensures rd.records == old(rd.records)
    ensures heap.None? <==> Infos(rd.records, ins).None?
    ensures heap.Some? ==> heap.value == Nearest(Infos(rd.records, ins).value, cap)
  {
    rd.Reset();
    var h := Heap([], []);
    while true
      invariant rd.Valid() && rd.records == old(rd.records)
      invariant Infos(rd.records[..rd.pos], ins).Some?
      invariant h == Nearest(Infos(rd.records[..rd.pos], ins).value, cap)
      decreases |rd.records| - rd.pos
    {
      ghost var p := rd.pos;
      var item := rd.Read();
      if item.None? {
        assert rd.records[..rd.pos] == rd.records;
        return Some(h);
      }
      var d := CalcDist(item.value, ins);
      ScanStep(rd.records, p, ins, d, h, cap);
      if d.None? {
        return None;
      }
      h := Pushed(h, Info(item.value.target, d.value), cap);
    }
  }

  /** One record of the scan: its distance list extends the distance
      lists of the records before it, or the whole scan has none. */
  lemma ScanStep(rs: seq<Instance>, p: nat, q: Instance, d: Option<real>, h: Heap, cap: nat)
    requires p < |rs| && Infos(rs[..p], q).Some? && d == Distance(rs[p], q)
    requires h == Nearest(Infos(rs[..p], q).value, cap)
    ensures d.None? ==> Infos(rs, q).None?
    ensures d.Some? ==>
      && Infos(rs[..p + 1], q).Some?
      && Pushed(h, Info(rs[p].target, d.value), cap) == Nearest(Infos(rs[..p + 1], q).value, cap)
  {
    var prev := Infos(rs[..p], q).value;
    assert rs[..p + 1][..p] == rs[..p];
    if d.None? {
      InfosFail(rs, p + 1, q);
    } else {
      var next := prev + [Info(rs[p].target, d.value)];
      assert Infos(rs[..p + 1], q) == Some(next);
      assert next[..|next| - 1] == prev;
    }
  }

  /** Once a prefix of the records has no distance list, neither has
      any longer prefix. */
  lemma {:induction false} InfosFail(rs: seq<Instance>, n: nat, q: Instance)
    requires n <= |rs| && Infos(rs[..n], q).None?
    ensures Infos(rs, q).None?
    decreases |rs| - n
  {
    if n < |rs| {
      assert rs[..n + 1][..n] == rs[..n];
      InfosFail(rs, n + 1, q);
    } else {
      assert rs[..n] == rs;
    }
  }
}
