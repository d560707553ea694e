/** Tree nodes, node indexing, row sampling and split scoring of the
    gradient-boosted tree trainer (src/models/gbdt.h). */
module GbdtNode {

  /** Marks "no run of equal values seen yet" (INVALID_SAME_KEY). */
  const InvalidSameKey: int := 0xffff_ffff

  // ---------------------------------------------------------------------
  // Complete-binary-tree indexing.

  function Left(x: int): int { 2 * x + 1 }
  function Right(x: int): int { 2 * x + 2 }

  /** The parent step `l = (l-1)/2` used when emitting path features; for
      the non-negative ids involved C's truncating division agrees with
      Dafny's. */
  function Parent(x: int): int
    requires x >= 1
  {
    (x - 1) / 2
  }

  /** Every split node of the tree `m` has both children inside the
      tree and splits on one of the first `dim` features. */
  predicate SplitsFit(m: seq<TreeNode>, dim: int) {
    forall n :: 0 <= n < |m| && m[n].fidx != -1 ==> Right(n) < |m| && 0 <= m[n].fidx < dim
  }

  lemma ChildrenOfNode(x: nat)
    ensures Left(x) >= 1 && Parent(Left(x)) == x
    ensures Right(x) >= 1 && Parent(Right(x)) == x
    ensures Right(x) == Left(x) + 1
  {
  }

  /** Every node id >= 1 is a child of its parent, so walking parents
      always retraces a downward walk. */
  lemma ParentIsInverse(x: int)
    requires x >= 1
    ensures Parent(x) >= 0
    ensures x == Left(Parent(x)) || x == Right(Parent(x))
  {
  }

  function Pow2(k: nat): (r: nat)
    ensures r >= 1
  {
    if k == 0 then 1 else 2 * Pow2(k - 1)
  }

  /** Layer `l` of a complete binary tree holds the ids
      [2^l - 1, 2^(l+1) - 1). */
  predicate InLayer(x: int, l: nat) {
    Pow2(l) - 1 <= x < Pow2(l + 1) - 1
  }

  lemma ChildrenInNextLayer(x: int, l: nat)
    requires InLayer(x, l)
    ensures InLayer(Left(x), l + 1) && InLayer(Right(x), l + 1)
  {
    assert Pow2(l + 1) == 2 * Pow2(l);
    assert Pow2(l + 2) == 2 * Pow2(l + 1);
  }

  // ---------------------------------------------------------------------
  // Scores. Float comparisons are modelled with the IEEE outcomes that a
  // division by a zero count can produce.

  datatype Score = Finite(v: real) | PosInf | NegInf | NaN

  /** IEEE `a > b`. */
  predicate Greater(a: Score, b: Score) {
    match a
    case NaN => false
    case NegInf => false
    case PosInf => b.Finite? || b.NegInf?
    case Finite(x) =>
      match b
      case Finite(y) => x > y
      case NegInf => true
      case _ => false
  }

  /** `>` on scores is a strict order: irreflexive and transitive. */
  lemma GreaterIsStrictOrder(a: Score, b: Score, c: Score)
    ensures !Greater(a, a)
    ensures Greater(a, b) ==> !Greater(b, a)
    ensures Greater(a, b) && Greater(b, c) ==> Greater(a, c)
  {
  }

  /** IEEE quotient of a finite value by an integer count. */
  function Quotient(x: real, cnt: int): (q: Score)
    ensures cnt != 0 ==> q == Finite(x / cnt as real)
    ensures cnt == 0 ==> (q == PosInf <==> x > 0.0) && (q == NegInf <==> x < 0.0) && (q == NaN <==> x == 0.0)
  {
    if cnt != 0 then Finite(x / cnt as real)
    else if x > 0.0 then PosInf
    else if x < 0.0 then NegInf
    else NaN
  }

  /** `__mid_mse_score(la, lc, ra, rc)`: the part of the post-split squared
      error that depends on the cut, la^2/lc + ra^2/rc, where an empty side
      contributes nothing. */
  function Mid(la: real, lc: int, ra: real, rc: int): real {
    SquareOver(la, lc) + SquareOver(ra, rc)
  }

  // The two nonlinear terms of the trainer are function values, so that
  // proofs about the scan handle them as opaque numbers and only the
  // lemmas about scores look inside.

  /** `a/c*a` when the count is positive, otherwise nothing. */
  const SquareOver: (real, int) -> real := (a: real, c: int) => if c > 0 then a / c as real * a else 0.0

  /** `r*r`, the square accumulated into the sums of squares. */
  const Square: real -> real := (x: real) => x * x

  /** `sum/cnt`, the mean a node with rows takes when its tree is
      finalised. */
  const Average: (real, int) -> real := (sum: real, cnt: int) => if cnt > 0 then sum / cnt as real else 0.0

  /** `residual - sr*mean`: a sampled row's residual after a tree whose
      node it ends in has mean `mean`, with shrinkage `sr`. */
  const ShrinkBy: (real, real, real) -> real := (residual: real, sr: real, mean: real) => residual - sr * mean

  /** The average times the count gives back the sum. */
  lemma AverageTimesCount(sum: real, cnt: int)
    requires cnt > 0
    ensures Average(sum, cnt) * (cnt as real) == sum
  {
  }

  lemma MidNonNegative(la: real, lc: int, ra: real, rc: int)
    ensures Mid(la, lc, ra, rc) >= 0.0
  {
    if lc > 0 {
      assert la / lc as real * la == (la * la) / lc as real;
    }
    if rc > 0 {
      assert ra / rc as real * ra == (ra * ra) / rc as real;
    }
  }

  /** The "no split" score of a node: everything on the right. */
  lemma MidOfNoSplit(sum: real, cnt: int)
    ensures Mid(0.0, 0, sum, cnt) == (if cnt > 0 then sum * sum / cnt as real else 0.0)
  {
  }

  // ---------------------------------------------------------------------
  // Row sampling (ITEM_SAMPLE).

  /** The sampling parameters of one tree: `sample_const` and
      `sample_threshold`. */
  datatype Sampling = Sampling(sampleConst: int, threshold: int)

  /** `int(256 * sample_instance)`: C truncates toward zero. */
  function TruncToInt(x: real): int {
    if x >= 0.0 then x.Floor else -((-x).Floor)
  }

  /** The sampling of tree `t`: `sample_const = t*7` and
      `sample_threshold = int(256*sample_instance)`. */
  function TreeSampling(t: nat, sampleInstance: real): Sampling {
    Sampling(t * 7, TruncToInt(256.0 * sampleInstance))
  }

  /** The hash as C computes it on 32-bit unsigned values, before the
      `& 0xff` mask. It is a function value so that proofs about sampled
      rows treat it as an opaque number; only the lemmas below look
      inside. */
  const HashU32: (int, int) -> int := (idx: int, sampleConst: int) =>
    ((idx + 137) * (sampleConst + 1) + 79) % 0x1_0000_0000

  /** The masked hash: the low eight bits of the 32-bit result. */
  function SampleHash(idx: nat, sampleConst: nat): (h: nat)
    ensures h < 256
  {
    HashU32(idx, sampleConst) % 256
  }

  predicate Sampled(s: Sampling, idx: int) {
    idx >= 0 && s.sampleConst >= 0 && SampleHash(idx, s.sampleConst) <= s.threshold
  }

  /** The low eight bits of a number are those of its low 32 bits. */
  lemma LowByteOfWord(x: nat)
    ensures (x % 0x1_0000_0000) % 256 == x % 256
  {
    var q, r := x / 0x1_0000_0000, x % 0x1_0000_0000;
    assert x == (q * 0x100_0000) * 256 + r;
  }

  /** Wrap-around at 2^32 (or 2^64 for the size_t loop in `train`) never
      changes the low eight bits, so the mask sees the unbounded value. */
  lemma HashIgnoresWordSize(idx: nat, sampleConst: nat)
    ensures SampleHash(idx, sampleConst) == ((idx + 137) * (sampleConst + 1) + 79) % 256
  {
    var p := (idx + 137) * (sampleConst + 1);
    assert p >= 0;
    LowByteOfWord(p + 79);
  }

  /** A threshold of 255 or more keeps every row, which is the case for the
      default `sample_instance = 1.0`. */
  lemma FullSampleKeepsEveryRow(t: nat, sampleInstance: real, idx: nat)
    requires sampleInstance >= 1.0
    ensures Sampled(TreeSampling(t, sampleInstance), idx)
  {
    assert 256.0 * sampleInstance >= 256.0;
    assert TruncToInt(256.0 * sampleInstance) >= 256;
  }

  // ---------------------------------------------------------------------
  // Tree nodes.

  datatype TreeNode = TreeNode(
    fidx: int, threshold: real, mean: real,
    score: Score, begin: int, end: int, cnt: int,
    split: int, splitId: int, splitSum: real, splitSsum: real,
    grow: int, sameKey: int,
    sum: real, squareSum: real, tempSum: real, tempSsum: real)

  /** Contents of a freshly allocated node slot; C++ leaves it
      uninitialised, the model zeroes it. */
  const BlankNode: TreeNode := TreeNode(-1, 0.0, 0.0, Finite(0.0), 0, 0, 0, 0, 0, 0.0, 0.0, 0, InvalidSameKey, 0.0, 0.0, 0.0, 0.0)

  /** `TreeNode_t::init(b, e)` as written: fields it does not assign
      (split_sum, split_ssum, temp_sum, temp_ssum) keep their old values. */
  function InitAsWritten(n: TreeNode, b: int, e: int): (r: TreeNode)
    ensures r.fidx == -1 && r.begin == b && r.end == e && r.cnt == e - b
    ensures r.split == b && r.grow == b && r.sum == 0.0 && r.squareSum == 0.0
    ensures r.splitSum == n.splitSum && r.tempSsum == n.tempSsum
  {
    n.(fidx := -1, mean := 0.0, threshold := 0.0, score := Finite(0.0),
       begin := b, end := e, cnt := e - b, split := b, splitId := 0,
       grow := b, sameKey := InvalidSameKey, sum := 0.0, squareSum := 0.0)
  }

  /** `init` with `split_sum` reset as well, so that a node that is split at
      its own beginning hands its whole sum to the right child. */
  function Init(n: TreeNode, b: int, e: int): (r: TreeNode)
    ensures r.fidx == -1 && r.begin == b && r.end == e && r.cnt == e - b
    ensures r.split == b && r.grow == b && r.sum == 0.0 && r.squareSum == 0.0
    ensures r.splitSum == 0.0 && r.tempSsum == n.tempSsum
  {
    InitAsWritten(n, b, e).(splitSum := 0.0)
  }

  /** `TreeNode_t::operator<`: `o` beats `n` when `o` has a feature and `n`
      has none or a strictly larger score. */
  predicate Less(n: TreeNode, o: TreeNode) {
    o.fidx != -1 && (n.fidx == -1 || Greater(n.score, o.score))
  }

  /** A node never beats itself, and beating is transitive among nodes that
      carry a feature; so a sequence of strict-improvement commits keeps the
      first node of least score. */
  lemma LessIsStrictOrder(a: TreeNode, b: TreeNode, c: TreeNode)
    ensures !Less(a, a)
    ensures Less(a, b) ==> !Less(b, a)
    ensures Less(a, b) && Less(b, c) ==> Less(a, c)
  {
    GreaterIsStrictOrder(a.score, b.score, c.score);
  }

  /** A node without a feature is beaten by every node with one, and beats
      nothing. */
  lemma LessOnUnsplit(n: TreeNode, o: TreeNode)
    requires n.fidx == -1
    ensures Less(n, o) <==> o.fidx != -1
    ensures !Less(o, n)
  {
  }

  // ---------------------------------------------------------------------
  // Rows.

  /** `SortedIndex_t`: a row id and the "same value as the previous entry"
      bit. */
  datatype SortedIndex = SortedIndex(same: bool, index: int)

  /** `ItemInfo_t`: residual, the node the row sits in, and the pending
      move (0 none, 1 left, 2 right). */
  datatype ItemInfo = ItemInfo(residual: real, node: int, turn: int)
}
