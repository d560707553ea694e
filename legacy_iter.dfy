/** The older training driver `IterModel_t` of models/iter.h: besides a
    forced stop and the minimum loss, `train` also stops when the loss
    changed by too little since the last round, and `_epoch` runs the
    update over the reader's records itself, one after another. */
module LegacyIter {
  import opened Wrappers
  import opened Config
  import opened IterTrain

  /** The `last_loss` the first round is compared with: 1e10. */
  const InitialLastLoss: real := 10000000000.0

  /** The tolerance below which a loss increase counts as no change:
      1e-6. */
  const Flat: real := 0.000001

  /** `train` goes on after an epoch that neither forced a stop, nor got
      below `min_loss`, nor changed the loss from `last` by a difference in
      `(-1e-6, final_loss_diff)`. */
  predicate GoesOn(o: Outcome, last: real, minLoss: real, finalLossDiff: real) {
    var diff := last - o.loss;
    !o.forceStop && !(o.loss < minLoss) && !(diff > -Flat && diff < finalLossDiff)
  }

  /** The `last_loss` round `j` is compared with: 1e10 for the first
      round, and the loss of round `j - 1` after that, since `last_loss`
      only moves when training goes on. */
  function Previous(epoch: nat -> Outcome, j: nat): real {
    if j <= 1 then InitialLastLoss else epoch(j - 1).loss
  }

  /** Round `j` lets training go on. */
  predicate GoesOnAt(epoch: nat -> Outcome, j: nat, minLoss: real, finalLossDiff: real) {
    GoesOn(epoch(j), Previous(epoch, j), minLoss, finalLossDiff)
  }

  /** The number of epochs `train` runs once `i` rounds are behind it. */
  function LegacyRoundsFrom(epoch: nat -> Outcome, minLoss: real, finalLossDiff: real, iterNum: int, i: nat): nat
    decreases iterNum - i
  {
    if i >= iterNum then i
    else if !GoesOnAt(epoch, i + 1, minLoss, finalLossDiff) then i + 1
    else LegacyRoundsFrom(epoch, minLoss, finalLossDiff, iterNum, i + 1)
  }

  lemma {:induction false} LegacyRoundsFromBounds(epoch: nat -> Outcome, minLoss: real, finalLossDiff: real, iterNum: int, i: nat)
    requires i <= Max0(iterNum)
    ensures var r := LegacyRoundsFrom(epoch, minLoss, finalLossDiff, iterNum, i);
      i <= r <= Max0(iterNum) &&
      (forall j :: i < j < r ==> GoesOnAt(epoch, j, minLoss, finalLossDiff)) &&
      (r == Max0(iterNum) || (r > i && !GoesOnAt(epoch, r, minLoss, finalLossDiff)))
    decreases iterNum - i
  {
    if i < iterNum && GoesOnAt(epoch, i + 1, minLoss, finalLossDiff) {
      LegacyRoundsFromBounds(epoch, minLoss, finalLossDiff, iterNum, i + 1);
    }
  }

  /** `train` runs at most `iter_num` epochs; every round before the last
      went on against the loss of the round before it, and the last one
      stopped the loop unless the budget ran out (models/iter.h:45-70). */
  lemma LegacyRoundsRun(epoch: nat -> Outcome, minLoss: real, finalLossDiff: real, iterNum: int)
    ensures var r := LegacyRoundsFrom(epoch, minLoss, finalLossDiff, iterNum, 0);
      r <= Max0(iterNum) &&
      (forall j :: 0 < j < r ==> GoesOnAt(epoch, j, minLoss, finalLossDiff)) &&
      (r == Max0(iterNum) || (r > 0 && !GoesOnAt(epoch, r, minLoss, finalLossDiff)))
  {
    LegacyRoundsFromBounds(epoch, minLoss, finalLossDiff, iterNum, 0);
  }

  /** The older driver stops no later than the newer one of
      src/models/iter.h, and exactly when it does once
      `final_loss_diff <= -1e-6` leaves the small-change rule nothing to
      catch. */
  lemma {:induction false} LegacyStopsNoLater(epoch: nat -> Outcome, minLoss: real, finalLossDiff: real, iterNum: int, i: nat)
    ensures LegacyRoundsFrom(epoch, minLoss, finalLossDiff, iterNum, i) <= RoundsFrom(epoch, minLoss, iterNum, i)
    ensures finalLossDiff <= -Flat ==>
      LegacyRoundsFrom(epoch, minLoss, finalLossDiff, iterNum, i) == RoundsFrom(epoch, minLoss, iterNum, i)
    decreases iterNum - i
  {
    if i < iterNum {
      if GoesOnAt(epoch, i + 1, minLoss, finalLossDiff) {
        LegacyStopsNoLater(epoch, minLoss, finalLossDiff, iterNum, i + 1);
      } else if !Halts(epoch(i + 1), minLoss) {
        RoundsFromBounds(epoch, minLoss, iterNum, i + 1);
      }
    }
  }

  /** `IterModel_t` of models/iter.h. */
  class LegacyIterModel {
    var iterNum: int
    var learnRate: real
    var minLoss: real
    var finalLossDiff: real
    var forceStop: bool
    var iterRound: nat

    /** The constructor: every setting has a default
        (models/iter.h:20-35).  It never sets the stop flag or the round, which
        hold whatever memory held, `stop0` and `round0`. */
    constructor(conf: Config, section: string, atoi: string -> int, atof: string -> real, stop0: bool, round0: nat)
      ensures iterNum == conf.ConfIntDefault(section, "iter_num", 200, atoi)
      ensures learnRate == conf.ConfFloatDefault(section, "learn_rate", 0.1, atof)
      ensures minLoss == conf.ConfFloatDefault(section, "min_loss", 0.005, atof)
      ensures finalLossDiff == conf.ConfFloatDefault(section, "final_loss_diff", 0.01, atof)
      ensures forceStop == stop0 && iterRound == round0
    {
      iterNum := conf.ConfIntDefault(section, "iter_num", 200, atoi);
      learnRate := conf.ConfFloatDefault(section, "learn_rate", 0.1, atof);
      minLoss := conf.ConfFloatDefault(section, "min_loss", 0.005, atof);
      finalLossDiff := conf.ConfFloatDefault(section, "final_loss_diff", 0.01, atof);
      forceStop := stop0;
      iterRound := round0;
    }

    /** `train`: like the newer driver, and it also stops when the loss
        moved by a difference in `(-1e-6, final_loss_diff)` from
        `last_loss`, which is updated only when training goes on
        (models/iter.h:45-70). */
    method Train(epoch: nat -> Outcome) returns (rounds: nat, calls: seq<Hook>)
      modifies this
      ensures rounds == LegacyRoundsFrom(epoch, minLoss, finalLossDiff, iterNum, 0)
      ensures Bracketed(calls, rounds)
      ensures iterRound == (if rounds == 0 then old(iterRound) else rounds)
      ensures forceStop == (rounds > 0 && epoch(rounds).forceStop)
      ensures iterNum == old(iterNum) && learnRate == old(learnRate)
      ensures minLoss == old(minLoss) && finalLossDiff == old(finalLossDiff)
    {
      var lastLoss := InitialLastLoss;
      forceStop := false;
      calls := [TrainBeginHook];
      var i := 0;
      rounds := 0;
      var stopped := false;
      while i < iterNum && !stopped
        invariant i <= Max0(iterNum)
        invariant |calls| == (if stopped then rounds else i) + 1 && calls[0] == TrainBeginHook
        invariant forall k :: 1 <= k < |calls| ==> calls[k] == RoundHook(k)
        invariant lastLoss == Previous(epoch, i + 1)
        invariant LegacyRoundsFrom(epoch, minLoss, finalLossDiff, iterNum, 0) ==
          (if stopped then rounds else LegacyRoundsFrom(epoch, minLoss, finalLossDiff, iterNum, i))
        invariant stopped ==> rounds > 0 && iterRound == rounds && forceStop == epoch(rounds).forceStop
        invariant !stopped ==> !forceStop && iterRound == (if i == 0 then old(iterRound) else i)
        invariant !stopped && i > 0 ==> !epoch(i).forceStop
        invariant iterNum == old(iterNum) && learnRate == old(learnRate)
        invariant minLoss == old(minLoss) && finalLossDiff == old(finalLossDiff)
        decreases iterNum - i, if stopped then 0 else 1
      {
        iterRound := i + 1;
        var o := epoch(i + 1);
        calls := calls + [RoundHook(i + 1)];
        forceStop := o.forceStop;
        var diffLoss := lastLoss - o.loss;
        if forceStop || o.loss < minLoss || (diffLoss > -Flat && diffLoss < finalLossDiff) {
          rounds := i + 1;
          stopped := true;
        } else {
          lastLoss := o.loss;
          i := i + 1;
        }
      }
      if !stopped {
        rounds := i;
      }
      calls := calls + [TrainEndHook];
    }

    /** `_epoch`: the update's loss summed over the reader's records, one
        per record in order, and divided by the reader's size; `_epoch_end`
        (`epochEnd`, from the loss it finds in `_epoch_loss` to the loss it
        leaves there) has the last word on what is returned.  An empty
        reader divides by zero, which is `None` here (models/iter.h:95-119). */
    method Epoch(losses: seq<real>, epochEnd: real -> real) returns (mean: Option<real>, loss: Option<real>)
      ensures losses == [] <==> mean.None?
      ensures mean.Some? ==> mean.value * |losses| as real == Sum(losses)
      ensures loss == if mean.Some? then Some(epochEnd(mean.value)) else None
    {
      var total := 0.0;
      for i := 0 to |losses|
        invariant total == Sum(losses[..i])
      {
        assert losses[..i + 1][..i] == losses[..i];
        total := total + losses[i];
      }
      assert losses[..|losses|] == losses;
      if |losses| == 0 {
        mean, loss := None, None;
      } else {
        mean := Some(total / |losses| as real);
        loss := Some(epochEnd(mean.value));
      }
    }
  }
}
