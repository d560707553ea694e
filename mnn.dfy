/** The layered network `MultiNN_t` of models/mnn.h as far as its
    structure and its epoch control go: the shape of every layer, where a
    weight lives in a layer's buffer, the backup `_save_state` takes and
    `_recover_state` restores, and `_epoch_end`, which keeps an epoch that
    lowered the loss and otherwise rolls it back and halves the rate.
    Forward and backward passes (sigmoid, log loss, gradients) are not
    modelled. */
module Mnn {
  import opened Wrappers
  import opened Config

  /** The smallest rate training goes on with: 1e-6. */
  const MinRate: real := 0.000001

  /** One layer: how many inputs feed it and how many outputs it has. */
  datatype Shape = Shape(inputs: nat, outputs: nat)

  /** The number of weights of a layer: one per input and output. */
  function Area(s: Shape): nat {
    s.inputs * s.outputs
  }

  /** Layer `i` of `_init_net`: the first takes the reader's dimension,
      the last has one output, and every other size is the layer width
      (models/mnn.h:207-233). */
  function LayerShape(inputNum: nat, layerNum: nat, width: nat, i: nat): Shape {
    Shape(if i == 0 then inputNum else width, if i + 1 == layerNum then 1 else width)
  }

  /** The layers of a network, one after the other, connect: each layer
      takes as many inputs as the one before has outputs, the first takes
      the input dimension and the last yields one value. */
  lemma LayersConnect(inputNum: nat, layerNum: nat, width: nat)
    requires layerNum >= 1
    ensures LayerShape(inputNum, layerNum, width, 0).inputs == inputNum
    ensures LayerShape(inputNum, layerNum, width, layerNum - 1).outputs == 1
    ensures forall i :: 0 <= i < layerNum - 1 ==>
      LayerShape(inputNum, layerNum, width, i).outputs == LayerShape(inputNum, layerNum, width, i + 1).inputs
  {
  }

  /** `_ref_theta(layer, out, in)`: the weight from input `in` to output
      `out` sits at `in * out_num + out` (models/mnn.h:236-242). */
  function RefSlot(outNum: nat, out: nat, inp: nat): nat {
    inp * outNum + out
  }

  lemma SlotBelowNextRow(outNum: nat, out: nat, inp: nat)
    requires out < outNum
    ensures RefSlot(outNum, out, inp) < (inp + 1) * outNum
  {
    assert (inp + 1) * outNum == inp * outNum + outNum;
  }

  lemma RowsGrow(outNum: nat, a: nat, b: nat)
    requires a < b
    ensures (a + 1) * outNum <= b * outNum
  {
    assert b * outNum == (a + 1) * outNum + (b - a - 1) * outNum;
  }

  /** Every weight of a layer has a slot of its own inside the layer's
      `in * out` buffer. */
  lemma {:induction false} RefSlotsDistinct(inNum: nat, outNum: nat, o1: nat, i1: nat, o2: nat, i2: nat)
    requires o1 < outNum && o2 < outNum && i1 < inNum && i2 < inNum
    ensures RefSlot(outNum, o1, i1) < inNum * outNum
    ensures RefSlot(outNum, o1, i1) == RefSlot(outNum, o2, i2) ==> o1 == o2 && i1 == i2
  {
    SlotBelowNextRow(outNum, o1, i1);
    if i1 + 1 < inNum {
      RowsGrow(outNum, i1, inNum);
    }
    if i1 < i2 {
      SlotBelowNextRow(outNum, o1, i1);
      RowsGrow(outNum, i1, i2);
    } else if i2 < i1 {
      SlotBelowNextRow(outNum, o2, i2);
      RowsGrow(outNum, i2, i1);
    }
  }

  /** The slot `predict` reads for output `out` and input `in`: both
      `sparse_dot` over `_theta[0]` and `vec_dot` over `_theta[l]` start
      at the buffer's first element for every output, so they read slot
      `in` (models/mnn.h:37-46). */
  function PredictSlotAsWritten(outNum: nat, out: nat, inp: nat): nat {
    inp
  }

  /** With two outputs, both read the same slot for input 0 in `predict`,
      and output 1 reads the weight `_ref_theta` keeps for output 0, while
      the update moves output 1's own weight. */
  lemma OutputsShareWeights()
    ensures PredictSlotAsWritten(2, 0, 0) == PredictSlotAsWritten(2, 1, 0)
    ensures PredictSlotAsWritten(2, 1, 0) == RefSlot(2, 0, 0)
    ensures RefSlot(2, 1, 0) != RefSlot(2, 0, 0)
  {
  }

  /** The weighted sum of output `out` over the first `n` inputs, with
      each weight read through `_ref_theta`. */
  function UnitSum(theta: seq<real>, outNum: nat, out: nat, xs: seq<real>, n: nat): real
    requires out < outNum && n <= |xs| && |xs| * outNum <= |theta|
  {
    if n == 0 then 0.0
    else
      RefSlotsDistinct(|xs|, outNum, out, n - 1, out, n - 1);
      UnitSum(theta, outNum, out, xs, n - 1) + theta[RefSlot(outNum, out, n - 1)] * xs[n - 1]
  }

  /** Output `out`'s sum depends on its own weights only: buffers that
      agree on the slots of `out` give it the same sum, so changing any
      other output's weights leaves it alone. */
  lemma {:induction false} UnitSumReadsOwnWeights(theta: seq<real>, theta': seq<real>, outNum: nat, out: nat, xs: seq<real>, n: nat)
    requires out < outNum && n <= |xs| && |xs| * outNum <= |theta| && |theta| == |theta'|
    requires forall i :: 0 <= i < |xs| ==> RefSlot(outNum, out, i) < |theta| && theta[RefSlot(outNum, out, i)] == theta'[RefSlot(outNum, out, i)]
    ensures UnitSum(theta, outNum, out, xs, n) == UnitSum(theta', outNum, out, xs, n)
  {
    if n > 0 {
      UnitSumReadsOwnWeights(theta, theta', outNum, out, xs, n - 1);
    }
  }

  /** One layer's buffers: its weights (`_theta[i]`, one per input and
      output) and its biases (`_const[i]`, one per output). */
  datatype Buffers = Buffers(weights: seq<real>, biases: seq<real>)

  /** The buffers have the sizes of the shape. */
  predicate Fits(b: Buffers, s: Shape) {
    |b.weights| == Area(s) && |b.biases| == s.outputs
  }

  /** The layers in use and their backups (`_bak_theta`, `_bak_const`). */
  datatype Net = Net(layers: seq<Buffers>, backup: seq<Buffers>)

  /** `_save_state`: every layer's weights and biases copied to the
      backup (models/mnn.h:119-133). */
  function Saved(n: Net): Net {
    n.(backup := n.layers)
  }

  /** `_recover_state`: every layer copied back from the backup
      (models/mnn.h:135-149). */
  function Recovered(n: Net): Net {
    n.(layers := n.backup)
  }

  /** The epoch control `_epoch_end` keeps: the loss to beat, the rate in
      use and the stop flag. */
  datatype Pace = Pace(currentLoss: real, rateInUse: real, forceStop: bool)

  /** `_epoch_end`: an epoch that did not lower the loss is rolled back
      and halves the rate, stopping once it falls below 1e-6; one that
      did becomes the loss to beat and restores the configured rate
      (models/mnn.h:104-117). */
  function Judge(p: Pace, learnRate: real, loss: real): Pace {
    if loss >= p.currentLoss then
      Pace(p.currentLoss, p.rateInUse * 0.5, p.forceStop || p.rateInUse * 0.5 < MinRate)
    else Pace(loss, learnRate, p.forceStop)
  }

  /** The net `_epoch_end` leaves: the backup for a rejected epoch, the
      epoch's own weights for an accepted one. */
  function Settled(n: Net, p: Pace, loss: real): Net {
    if loss >= p.currentLoss then Recovered(n) else n
  }

  /** An epoch saves the net, changes its weights and biases, and ends:
      when rejected, the net is back where the epoch began, backup
      included; when accepted, it keeps the epoch's weights. */
  lemma EpochRollsBack(n: Net, trained: seq<Buffers>, p: Pace, loss: real)
    ensures var m := Settled(Saved(n).(layers := trained), p, loss);
      (loss >= p.currentLoss ==> m.layers == n.layers) &&
      (loss < p.currentLoss ==> m.layers == trained) &&
      m.backup == n.layers
  {
  }

  /** The loss to beat only falls, and falls exactly on an accepted
      epoch, which also restores the configured rate. */
  lemma LossToBeatFalls(p: Pace, learnRate: real, loss: real)
    ensures Judge(p, learnRate, loss).currentLoss <= p.currentLoss
    ensures Judge(p, learnRate, loss).currentLoss < p.currentLoss <==> loss < p.currentLoss
    ensures loss < p.currentLoss ==> Judge(p, learnRate, loss).rateInUse == learnRate
  {
  }

  /** One epoch of training as the net sees it: the weights and biases
      the epoch's updates reach, and the epoch's mean loss. */
  datatype Epoch = Epoch(trained: seq<Buffers>, loss: real)

  /** The net and the epoch control after the epochs `es`, each one
      saved by `_epoch_begin`, trained, and ended by `_epoch_end`
      (models/mnn.h:100-117). */
  function Epochs(n: Net, p: Pace, learnRate: real, es: seq<Epoch>): (Net, Pace)
    decreases |es|
  {
    if es == [] then (n, p)
    else Epochs(Settled(Saved(n).(layers := es[0].trained), p, es[0].loss),
                Judge(p, learnRate, es[0].loss), learnRate, es[1..])
  }

  /** The weights of the last accepted epoch, or `start` when no epoch
      was accepted. */
  function LastAccepted(start: seq<Buffers>, p: Pace, learnRate: real, es: seq<Epoch>): seq<Buffers>
    decreases |es|
  {
    if es == [] then start
    else LastAccepted(if es[0].loss < p.currentLoss then es[0].trained else start,
                      Judge(p, learnRate, es[0].loss), learnRate, es[1..])
  }

  /** Without a final recovery, training leaves the weights of the last
      epoch that lowered the loss to beat: rejected epochs are rolled
      back one by one. */
  lemma {:induction false} EpochsKeepLastAccepted(n: Net, p: Pace, learnRate: real, es: seq<Epoch>)
    ensures Epochs(n, p, learnRate, es).0.layers == LastAccepted(n.layers, p, learnRate, es)
    decreases |es|
  {
    if es != [] {
      var m := Settled(Saved(n).(layers := es[0].trained), p, es[0].loss);
      EpochRollsBack(n, es[0].trained, p, es[0].loss);
      EpochsKeepLastAccepted(m, Judge(p, learnRate, es[0].loss), learnRate, es[1..]);
    }
  }

  /** After at least one epoch the backup holds the net the last epoch
      started from, whether that epoch was accepted or not. */
  lemma {:induction false} BackupIsLastStart(n: Net, p: Pace, learnRate: real, es: seq<Epoch>)
    requires es != []
    ensures Epochs(n, p, learnRate, es).0.backup == Epochs(n, p, learnRate, es[..|es| - 1]).0.layers
    decreases |es|
  {
    var m := Settled(Saved(n).(layers := es[0].trained), p, es[0].loss);
    var q := Judge(p, learnRate, es[0].loss);
    EpochRollsBack(n, es[0].trained, p, es[0].loss);
    if |es| == 1 {
      assert es[..0] == [];
    } else {
      BackupIsLastStart(m, q, learnRate, es[1..]);
      var init := es[..|es| - 1];
      assert init[0] == es[0] && init[1..] == es[1..][..|es[1..]| - 1];
    }
  }

  /** As written, `_train_end` recovers the backup, so training ends on
      the net the last epoch started from and an accepted last epoch is
      thrown away (models/mnn.h:96-102). */
  lemma TrainEndRestoresLastStart(n: Net, p: Pace, learnRate: real, es: seq<Epoch>)
    requires es != []
    ensures Recovered(Epochs(n, p, learnRate, es).0).layers == Epochs(n, p, learnRate, es[..|es| - 1]).0.layers
  {
    BackupIsLastStart(n, p, learnRate, es);
  }

  /** One epoch that lowers the loss from 1.0 to 0.5 by moving a weight
      from 0.0 to 1.0: as written training ends with the weight at 0.0,
      while the accepted epoch's weight was 1.0. */
  lemma AcceptedLastEpochLost()
    ensures var n := Net([Buffers([0.0], [])], [Buffers([0.0], [])]);
      var p := Pace(1.0, 0.1, false);
      var es := [Epoch([Buffers([1.0], [])], 0.5)];
      Recovered(Epochs(n, p, 0.1, es).0).layers == [Buffers([0.0], [])] &&
      LastAccepted(n.layers, p, 0.1, es) == [Buffers([1.0], [])]
  {
    var n := Net([Buffers([0.0], [])], [Buffers([0.0], [])]);
    var p := Pace(1.0, 0.1, false);
    var es := [Epoch([Buffers([1.0], [])], 0.5)];
    TrainEndRestoresLastStart(n, p, 0.1, es);
    assert es[..0] == [];
  }

  /** `k` rejected epochs in a row. */
  function Rejected(p: Pace, learnRate: real, k: nat): Pace {
    if k == 0 then p else Judge(Rejected(p, learnRate, k - 1), learnRate, Rejected(p, learnRate, k - 1).currentLoss)
  }

  function Pow2(k: nat): nat {
    if k == 0 then 1 else 2 * Pow2(k - 1)
  }

  /** After `k` rejections in a row the loss to beat is unchanged and the
      rate is the starting rate halved `k` times; from a positive rate
      training is stopped exactly when that rate has fallen below 1e-6. */
  lemma {:induction false} RejectionsHalve(p: Pace, learnRate: real, k: nat)
    requires p.rateInUse > 0.0
    ensures Rejected(p, learnRate, k).currentLoss == p.currentLoss
    ensures Rejected(p, learnRate, k).rateInUse * Pow2(k) as real == p.rateInUse
    ensures Rejected(p, learnRate, k).rateInUse > 0.0
    ensures Rejected(p, learnRate, k).forceStop <==> p.forceStop || (k >= 1 && Rejected(p, learnRate, k).rateInUse < MinRate)
  {
    if k > 0 {
      RejectionsHalve(p, learnRate, k - 1);
      var q := Rejected(p, learnRate, k - 1);
      assert Rejected(p, learnRate, k) == Judge(q, learnRate, q.currentLoss);
      assert Pow2(k) as real == 2.0 * Pow2(k - 1) as real;
      assert Rejected(p, learnRate, k).rateInUse * Pow2(k) as real == q.rateInUse * Pow2(k - 1) as real;
    }
  }

  /** A layer's buffers as `_init_net` fills them: the weights drawn
      slot by slot, then the biases. */
  function Drawn(s: Shape, draw: (nat, nat) -> real, layer: nat): (r: Buffers)
    ensures Fits(r, s)
  {
    Buffers(seq(Area(s), j requires 0 <= j => draw(layer, j)),
            seq(s.outputs, j requires 0 <= j => draw(layer, Area(s) + j)))
  }

  /** Every layer of the tables has the output count and buffer sizes
      of its shape. */
  ghost predicate LayersFit(outNum: array<nat>, layers: array<Buffers>, backup: array<Buffers>,
                            inputNum: nat, layerNum: nat, width: nat)
    reads outNum, layers, backup
  {
    outNum.Length == layerNum && layers.Length == layerNum && backup.Length == layerNum &&
    forall i :: 0 <= i < layerNum ==>
      var s := LayerShape(inputNum, layerNum, width, i);
      outNum[i] == s.outputs && Fits(layers[i], s) && Fits(backup[i], s)
  }

  /** `MultiNN_t`: the configured sizes, the shapes, every layer's
      buffers with their backups, and the epoch control. */
  class MultiNN {
    var layerNum: int
    var layerWidth: int
    var inputNum: nat
    var learnRate: real
    var outNum: array<nat>
    var layers: array<Buffers>
    var backup: array<Buffers>
    var currentLoss: real
    var rateInUse: real
    var forceStop: bool

    /** Every layer has its shape's buffers, kept apart from the
        backups. */
    ghost predicate Valid()
      reads this, outNum, layers, backup
    {
      layerNum >= 1 && layerWidth >= 0 && layers != backup &&
      LayersFit(outNum, layers, backup, inputNum, layerNum, layerWidth)
    }

    function NetOf(): Net
      reads this, layers, backup
    {
      Net(layers[..], backup[..])
    }

    function PaceOf(): Pace
      reads this
    {
      Pace(currentLoss, rateInUse, forceStop)
    }

    /** The constructor: two layers of width 4 unless configured
        otherwise (models/mnn.h:19-26). */
    constructor(conf: Config, section: string, atoi: string -> int, atof: string -> real)
      ensures layerNum == conf.ConfIntDefault(section, "layer_num", 2, atoi)
      ensures layerWidth == conf.ConfIntDefault(section, "layer_width", 4, atoi)
      ensures learnRate == conf.ConfFloatDefault(section, "learn_rate", 0.1, atof)
    {
      layerNum := conf.ConfIntDefault(section, "layer_num", 2, atoi);
      layerWidth := conf.ConfIntDefault(section, "layer_width", 4, atoi);
      learnRate := conf.ConfFloatDefault(section, "learn_rate", 0.1, atof);
      inputNum := 0;
      outNum := new nat[0];
      layers := new Buffers[0];
      backup := new Buffers[0];
      currentLoss := 0.0;
      rateInUse := 0.0;
      forceStop := false;
    }

    /** The loop of `_init_net` over the layers, on values: each layer's
        shape and its drawn buffers. */
    static method BuildLayers(dim: nat, n: nat, w: nat, draw: (nat, nat) -> real)
      returns (shapes: seq<Shape>, bufs: seq<Buffers>)
      ensures |shapes| == n && |bufs| == n
      ensures forall k :: 0 <= k < n ==> shapes[k] == LayerShape(dim, n, w, k) && bufs[k] == Drawn(shapes[k], draw, k)
    {
      shapes := [];
      bufs := [];
      for i := 0 to n
        invariant |shapes| == i && |bufs| == i
        invariant forall k :: 0 <= k < i ==> shapes[k] == LayerShape(dim, n, w, k) && bufs[k] == Drawn(shapes[k], draw, k)
      {
        var inp := w;
        var out := w;
        if i == 0 {
          inp := dim;
        }
        if i + 1 == n {
          out := 1;
        }
        shapes := shapes + [Shape(inp, out)];
        bufs := bufs + [Drawn(Shape(inp, out), draw, i)];
      }
    }

    /** The tables `_init_net` allocates, one entry per layer: the output
        counts, the drawn buffers, and backups of the same sizes holding
        whatever the allocator left there, `junk(layer, slot)`. */
    static method NewTables(dim: nat, n: nat, w: nat, draw: (nat, nat) -> real, junk: (nat, nat) -> real)
      returns (on: array<nat>, ls: array<Buffers>, bs: array<Buffers>)
      ensures fresh(on) && fresh(ls) && fresh(bs) && ls != bs
      ensures LayersFit(on, ls, bs, dim, n, w)
      ensures forall i :: 0 <= i < n ==> ls[i] == Drawn(LayerShape(dim, n, w, i), draw, i)
      ensures forall i :: 0 <= i < n ==> bs[i] == Drawn(LayerShape(dim, n, w, i), junk, i)
    {
      var shapes, bufs := BuildLayers(dim, n, w, draw);
      var _, held := BuildLayers(dim, n, w, junk);
      on := new nat[n](k requires 0 <= k < n => shapes[k].outputs);
      ls := new Buffers[n](k requires 0 <= k < n => bufs[k]);
      bs := new Buffers[n](k requires 0 <= k < n => held[k]);
    }

    /** `init`: `_init_net` on the reader's dimension builds every layer
        with its shape and with weights and biases drawn by
        `draw(layer, slot)`, biases after the weights; the backups are
        left as allocated, `junk(layer, slot)`; the rate in use starts at
        the configured rate (models/mnn.h:28-33, 195-234). */
    method Init(dim: nat, draw: (nat, nat) -> real, junk: (nat, nat) -> real)
      requires layerNum >= 1 && layerWidth >= 0
      modifies this
      ensures Valid() && inputNum == dim && layerNum == old(layerNum) && layerWidth == old(layerWidth)
      ensures fresh(outNum) && fresh(layers) && fresh(backup)
      ensures forall i :: 0 <= i < layerNum ==> layers[i] == Drawn(LayerShape(dim, layerNum, layerWidth, i), draw, i)
      ensures forall i :: 0 <= i < layerNum ==> backup[i] == Drawn(LayerShape(dim, layerNum, layerWidth, i), junk, i)
      ensures rateInUse == learnRate && learnRate == old(learnRate)
    {
      var on, ls, bs := NewTables(dim, layerNum, layerWidth, draw, junk);
      inputNum, outNum, layers, backup, rateInUse := dim, on, ls, bs, learnRate;
    }

    /** `_save_state` (models/mnn.h:119-133). */
    method SaveState()
      requires Valid()
      modifies backup
      ensures Valid() && NetOf() == Saved(old(NetOf()))
    {
      for i := 0 to layerNum
        invariant forall k :: 0 <= k < i ==> backup[k] == layers[k]
        invariant forall k :: i <= k < layerNum ==> backup[k] == old(backup[k])
        invariant layers[..] == old(layers[..])
      {
        backup[i] := layers[i];
      }
    }

    /** `_recover_state` (models/mnn.h:135-149). */
    method RecoverState()
      requires Valid()
      modifies layers
      ensures Valid() && NetOf() == Recovered(old(NetOf()))
    {
      for i := 0 to layerNum
        invariant forall k :: 0 <= k < i ==> layers[k] == backup[k]
        invariant forall k :: i <= k < layerNum ==> layers[k] == old(layers[k])
        invariant backup[..] == old(backup[..])
      {
        layers[i] := backup[i];
      }
    }

    /** `_epoch_begin`: the net is saved before the epoch reads its
        first record (models/mnn.h:100-102). */
    method EpochBegin()
      requires Valid()
      modifies backup
      ensures Valid() && NetOf() == Saved(old(NetOf()))
    {
      SaveState();
    }

    /** `_train_end`: the net is recovered from the backup, the state
        saved when the last epoch began (models/mnn.h:96-98). */
    method TrainEnd()
      requires Valid()
      modifies layers
      ensures Valid() && NetOf() == Recovered(old(NetOf()))
    {
      RecoverState();
    }

    /** `_train_begin`: the loss to beat starts at 1.0
        (models/mnn.h:92-94). */
    method TrainBegin()
      modifies this
      ensures currentLoss == 1.0 && rateInUse == old(rateInUse) && forceStop == old(forceStop)
      ensures layerNum == old(layerNum) && layerWidth == old(layerWidth) && inputNum == old(inputNum) && learnRate == old(learnRate)
      ensures outNum == old(outNum) && layers == old(layers) && backup == old(backup)
    {
      currentLoss := 1.0;
    }

    /** `_epoch_end` on the loss of the epoch (models/mnn.h:104-117). */
    method EpochEnd(loss: real)
      requires Valid()
      modifies this, layers
      ensures Valid() && PaceOf() == Judge(old(PaceOf()), learnRate, loss)
      ensures NetOf() == Settled(old(NetOf()), old(PaceOf()), loss)
      ensures layerNum == old(layerNum) && layerWidth == old(layerWidth) && inputNum == old(inputNum) && learnRate == old(learnRate)
      ensures outNum == old(outNum) && layers == old(layers) && backup == old(backup)
    {
      if loss >= currentLoss {
        RecoverState();
        rateInUse := rateInUse * 0.5;
        if rateInUse < MinRate {
          forceStop := true;
        }
      } else {
        currentLoss := loss;
        rateInUse := learnRate;
      }
    }
  }
}
