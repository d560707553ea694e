/** The learning-rate bookkeeping of `LogisticRegression_t`
    (src/models/logit.h): how the configured adjust method is chosen, how
    `_update` counts updates and picks the rate each weight moves by, and
    the `_epoch_end` state machine that keeps the best weights, shrinks
    the rate and stops training.  The gradient step itself and the
    sigmoid are not modelled: `_update` here yields the rates, and the
    weights an epoch ends with are given to `_epoch_end`. */
module Logit {
  import opened Wrappers
  import opened Config
  import opened Instances

  /** `LearnRateAdjustMethod_t`. */
  datatype AdjustMethod = FeatureDecay | Decay | Constant | Shrink

  /** The adjust method a configured name selects: the four known names
      choose their method and anything else falls back to FeatureDecay
      (src/models/logit.h:45-60). */
  function MethodOf(name: string): (m: AdjustMethod)
    ensures m == Decay <==> name == "decay"
    ensures m == Constant <==> name == "constant"
    ensures m == Shrink <==> name == "shrink"
    ensures m == FeatureDecay <==> name !in {"decay", "constant", "shrink"}
  {
    if name == "decay" then Decay
    else if name == "constant" then Constant
    else if name == "shrink" then Shrink
    else FeatureDecay
  }

  /** The configuration name of each method. */
  function MethodName(m: AdjustMethod): string {
    match m
    case FeatureDecay => "feature_decay"
    case Decay => "decay"
    case Constant => "constant"
    case Shrink => "shrink"
  }

  /** Every method is selected by its own name, and the default name
      `feature_decay` selects the default method. */
  lemma MethodNameSelects(m: AdjustMethod)
    ensures MethodOf(MethodName(m)) == m
  {
    match m
    case FeatureDecay => assert MethodName(m) != "decay" && MethodName(m) != "constant" && MethodName(m) != "shrink";
    case Decay =>
    case Constant =>
    case Shrink =>
  }

  /** A square-root oracle that is positive on every positive count. */
  ghost predicate PositiveRoot(sqrt: nat -> real) {
    forall n: nat :: n >= 1 ==> sqrt(n) > 0.0
  }

  /** `learn_rate / sqrt(n)`. */
  function Decayed(learnRate: real, n: nat, sqrt: nat -> real): real
    requires n >= 1 && sqrt(n) > 0.0
  {
    learnRate / sqrt(n)
  }

  /** The rate `_update` starts from: decayed by the update count in Decay
      and FeatureDecay, the plain rate in Constant and Shrink. */
  function UpdateRate(m: AdjustMethod, learnRate: real, updates: nat, sqrt: nat -> real): real
    requires updates >= 1 && sqrt(updates) > 0.0
  {
    if m == Decay || m == FeatureDecay then Decayed(learnRate, updates, sqrt) else learnRate
  }

  /** The guard as written, `!(index >= theta_num)`: it lets a negative
      index through, and `_theta_update_times[index]` then writes before
      the counters (src/models/logit.h:226). */
  predicate AdmitsAsWritten(index: int, thetaNum: nat) {
    !(index >= thetaNum)
  }

  /** The guard with the lower bound checked: an index names a weight. */
  predicate Admits(index: int, thetaNum: nat) {
    0 <= index < thetaNum
  }

  /** The pair `-1:x` passes the written guard but names no weight. */
  lemma NegativeIndexAdmitted()
    ensures AdmitsAsWritten(-1, 1) && !Admits(-1, 1)
  {
  }

  /** How often index `f` occurs among the first `n` pairs. */
  function Occurrences(fs: seq<IndValue>, f: int, n: nat): nat
    requires n <= |fs|
  {
    if n == 0 then 0 else Occurrences(fs, f, n - 1) + (if fs[n - 1].index == f then 1 else 0)
  }

  /** The pair count never exceeds the number of pairs looked at, and
      counts only pairs with that index. */
  lemma {:induction false} OccurrencesBound(fs: seq<IndValue>, f: int, n: nat)
    requires n <= |fs|
    ensures Occurrences(fs, f, n) <= n
    ensures Occurrences(fs, f, n) == 0 <==> forall k :: 0 <= k < n ==> fs[k].index != f
  {
    if n > 0 {
      OccurrencesBound(fs, f, n - 1);
    }
  }

  /** The rate the weight of pair `i` moves by in `_update`: FeatureDecay
      decays by that feature's own count, now including this pair; the
      other methods use the rate of the whole update. */
  function PairRate(m: AdjustMethod, learnRate: real, base: real, times: nat, fs: seq<IndValue>, i: nat, sqrt: nat -> real): real
    requires i < |fs| && PositiveRoot(sqrt)
  {
    if m == FeatureDecay then Decayed(learnRate, times + Occurrences(fs, fs[i].index, i + 1), sqrt) else base
  }

  /** The settings `_epoch_end` reads. */
  datatype Settings = Settings(adjust: AdjustMethod, minLossDiff: real, shrinkN: int, shrinkLimit: int, earlyStopN: int)

  /** What `_epoch_end` keeps from epoch to epoch. */
  datatype Progress = Progress(bestLoss: real, bestTheta: seq<real>, bestRound: int, learnRate: real, shrinkTimes: int, forceStop: bool)

  /** The epoch improved on the best loss by more than `min_loss_diff`. */
  predicate Improved(s: Settings, p: Progress, loss: real) {
    loss < p.bestLoss - s.minLossDiff
  }

  /** An improvement by more than `learn_rate * epoch_loss`. */
  predicate BigImprovement(s: Settings, p: Progress, loss: real) {
    Improved(s, p, loss) && loss < p.bestLoss - p.learnRate * loss
  }

  /** Rounds since the best one, or -1 after an improvement. */
  function NoProgress(s: Settings, p: Progress, loss: real, round: int): int {
    if Improved(s, p, loss) then -1 else round - p.bestRound
  }

  /** `_epoch_end`: in Shrink mode only a big improvement is kept, and a
      stall of at least `shrink_N` rounds halves the rate and counts a
      shrink, stopping once the count passes `shrink_limit`; the other
      modes keep every improvement and stop after more than
      `early_stop_N` rounds without one, when that limit is set
      (src/models/logit.h:271-323). */
  function AfterEpoch(s: Settings, p: Progress, loss: real, round: int, theta: seq<real>): Progress {
    var noProgress := NoProgress(s, p, loss, round);
    if s.adjust == Shrink then
      if BigImprovement(s, p, loss) then p.(bestLoss := loss, bestTheta := theta, bestRound := round)
      else if noProgress >= s.shrinkN then
        p.(shrinkTimes := p.shrinkTimes + 1, learnRate := p.learnRate * 0.5,
           forceStop := p.forceStop || p.shrinkTimes + 1 > s.shrinkLimit)
      else p
    else if Improved(s, p, loss) then p.(bestLoss := loss, bestTheta := theta, bestRound := round)
    else if s.earlyStopN >= 0 && noProgress > s.earlyStopN then p.(forceStop := true)
    else p
  }

  /** The best loss only falls, each time by more than `min_loss_diff`,
      and the weights and round recorded with it are the epoch's. */
  lemma BestOnlyImproves(s: Settings, p: Progress, loss: real, round: int, theta: seq<real>)
    ensures var q := AfterEpoch(s, p, loss, round, theta);
      (q.bestLoss == p.bestLoss && q.bestTheta == p.bestTheta && q.bestRound == p.bestRound) ||
      (q.bestLoss == loss && loss < p.bestLoss - s.minLossDiff && q.bestTheta == theta && q.bestRound == round)
  {
  }

  /** In Shrink mode a kept epoch is a big improvement. */
  lemma ShrinkKeepsOnlyBigImprovements(s: Settings, p: Progress, loss: real, round: int, theta: seq<real>)
    requires s.adjust == Shrink
    ensures AfterEpoch(s, p, loss, round, theta).bestRound != p.bestRound ==> BigImprovement(s, p, loss)
  {
  }

  /** In Shrink mode, with `shrink_N >= 0`, an improvement too small to be
      big is neither kept nor counted as a stall: nothing changes. */
  lemma SmallGainChangesNothing(s: Settings, p: Progress, loss: real, round: int, theta: seq<real>)
    requires s.adjust == Shrink && s.shrinkN >= 0
    requires Improved(s, p, loss) && !BigImprovement(s, p, loss)
    ensures AfterEpoch(s, p, loss, round, theta) == p
  {
  }

  /** The rate is either kept or, in Shrink mode with one more shrink
      counted, halved; the stop flag is never cleared. */
  lemma RateOnlyHalves(s: Settings, p: Progress, loss: real, round: int, theta: seq<real>)
    ensures var q := AfterEpoch(s, p, loss, round, theta);
      (q.learnRate == p.learnRate && q.shrinkTimes == p.shrinkTimes) ||
      (s.adjust == Shrink && q.learnRate == p.learnRate * 0.5 && q.shrinkTimes == p.shrinkTimes + 1)
    ensures p.forceStop ==> AfterEpoch(s, p, loss, round, theta).forceStop
  {
  }

  /** A running training stops in Shrink mode exactly at a shrink that
      takes the count past `shrink_limit`, and in the other modes exactly
      when `early_stop_N` is set and more rounds than it passed without an
      improvement (src/models/logit.h:292-323). */
  lemma StopRule(s: Settings, p: Progress, loss: real, round: int, theta: seq<real>)
    requires !p.forceStop
    ensures var q := AfterEpoch(s, p, loss, round, theta);
      s.adjust == Shrink ==>
        (q.forceStop <==> q.shrinkTimes == p.shrinkTimes + 1 && p.shrinkTimes + 1 > s.shrinkLimit)
    ensures var q := AfterEpoch(s, p, loss, round, theta);
      s.adjust != Shrink ==>
        (q.forceStop <==> !Improved(s, p, loss) && s.earlyStopN >= 0 && round - p.bestRound > s.earlyStopN)
  {
  }

  /** `_shrink_times` is never set before training, so it starts with
      whatever the object's memory held: a count of 7 with
      `shrink_limit` 3 stops training at the first shrink, where a count
      started at 0 would allow three more shrinks. */
  lemma StaleShrinkCountStops()
    ensures var s := Settings(Shrink, 0.000001, 0, 3, -1);
      var stale := Progress(1.0, [], 0, 0.1, 7, false);
      var reset := stale.(shrinkTimes := 0);
      AfterEpoch(s, stale, 2.0, 1, []).forceStop &&
      !AfterEpoch(s, reset, 2.0, 1, []).forceStop
  {
  }

  /** One pair of `_update`: a pair whose index names no weight gets rate
      0; in FeatureDecay any other pair counts once more for its feature
      (src/models/logit.h:226-238). */
  method RatePair(counts: array<nat>, ghost before: seq<nat>, fs: seq<IndValue>, i: nat,
                  adjust: AdjustMethod, learnRate: real, biasRate: real, sqrt: nat -> real)
      returns (rate: real, next: nat)
    requires i < |fs| && PositiveRoot(sqrt) && counts.Length == |before|
    requires forall f :: 0 <= f < counts.Length ==>
      counts[f] == before[f] + (if adjust == FeatureDecay then Occurrences(fs, f, i) else 0)
    modifies counts
    ensures next == i + 1
    ensures forall f :: 0 <= f < counts.Length ==>
      counts[f] == before[f] + (if adjust == FeatureDecay then Occurrences(fs, f, next) else 0)
    ensures rate == if Admits(fs[i].index, counts.Length)
      then PairRate(adjust, learnRate, biasRate, before[fs[i].index], fs, i, sqrt)
      else 0.0
  {
    next := i + 1;
    var index := fs[i].index;
    if index < 0 || index >= counts.Length {
      rate := 0.0;
    } else {
      rate := biasRate;
      if adjust == FeatureDecay {
        counts[index] := counts[index] + 1;
        rate := learnRate / sqrt(counts[index]);
      }
    }
  }

  /** One finished epoch as `_epoch_end` sees it. */
  datatype Epoch = Epoch(loss: real, round: int, theta: seq<real>)

  /** The progress after a run of epochs, one `_epoch_end` each. */
  function AfterEpochs(s: Settings, p: Progress, es: seq<Epoch>): Progress
    decreases |es|
  {
    if es == [] then p
    else AfterEpochs(s, AfterEpoch(s, p, es[0].loss, es[0].round, es[0].theta), es[1..])
  }

  /** In Shrink mode the stop flag is set exactly when more than
      `shrink_limit` shrinks were counted. */
  predicate StopMatchesCount(s: Settings, p: Progress) {
    p.forceStop <==> p.shrinkTimes > s.shrinkLimit
  }

  /** With the shrink count started at 0, Shrink mode stops exactly when
      the shrinks of this run pass `shrink_limit`, however many epochs
      run: the promise `_train_begin` keeps only when it resets the
      count. */
  lemma {:induction false} ResetCountStopsAtLimit(s: Settings, p: Progress, es: seq<Epoch>)
    requires s.adjust == Shrink && s.shrinkLimit >= 0
    requires p.shrinkTimes == 0 && !p.forceStop
    ensures StopMatchesCount(s, AfterEpochs(s, p, es))
  {
    StopMatchesCountKept(s, p, es);
  }

  lemma {:induction false} StopMatchesCountKept(s: Settings, p: Progress, es: seq<Epoch>)
    requires s.adjust == Shrink && StopMatchesCount(s, p)
    ensures StopMatchesCount(s, AfterEpochs(s, p, es))
    decreases |es|
  {
    if es != [] {
      StopMatchesCountKept(s, AfterEpoch(s, p, es[0].loss, es[0].round, es[0].theta), es[1..]);
    }
  }

  /** `LogisticRegression_t`'s learning-rate state, the members of
      `IterModel_t` it shares (the rate and the stop flag) included. */
  class LogisticRegression {
    var adjust: AdjustMethod
    var learnRate: real
    var forceStop: bool
    var thetaNum: nat
    var updateTimes: nat
    var featureTimes: array<nat>
    var bestLoss: real
    var bestTheta: seq<real>
    var bestRound: int
    var earlyStopN: int
    var shrinkN: int
    var shrinkTimes: int
    var shrinkLimit: int
    var originalRate: real
    var minLossDiff: real
    var useMomentum: bool
    var momentumRatio: real

    ghost predicate Valid()
      reads this
    {
      featureTimes.Length == thetaNum
    }

    function SettingsOf(): Settings
      reads this
    {
      Settings(adjust, minLossDiff, shrinkN, shrinkLimit, earlyStopN)
    }

    function ProgressOf(): Progress
      reads this
    {
      Progress(bestLoss, bestTheta, bestRound, learnRate, shrinkTimes, forceStop)
    }

    /** The constructor: no weights yet, a best loss of 1.0, momentum only
        when a ratio is configured, and defaults for the rest.  The best
        round and the shrink count are left as the memory held them
        (src/models/logit.h:33-70). */
    constructor(conf: Config, section: string, atoi: string -> int, atof: string -> real, staleRound: int, staleShrinks: int)
      ensures Valid() && thetaNum == 0 && bestLoss == 1.0 && bestTheta == []
      ensures adjust == MethodOf(conf.ConfStrDefault(section, "learn_rate_adjust_method", "feature_decay"))
      ensures useMomentum == conf.ConfFloat(section, "momentum_ratio", atof).Some?
      ensures momentumRatio == (if useMomentum then conf.ConfFloat(section, "momentum_ratio", atof).value else 0.0)
      ensures learnRate == conf.ConfFloatDefault(section, "learn_rate", 0.1, atof)
      ensures earlyStopN == conf.ConfIntDefault(section, "early_stop_n", -1, atoi)
      ensures shrinkLimit == conf.ConfIntDefault(section, "shrink_limit", 0, atoi)
      ensures minLossDiff == conf.ConfFloatDefault(section, "min_loss_diff", 0.000001, atof)
      ensures bestRound == staleRound && shrinkTimes == staleShrinks && !forceStop
    {
      thetaNum := 0;
      featureTimes := new nat[0];
      bestLoss := 1.0;
      bestTheta := [];
      learnRate := conf.ConfFloatDefault(section, "learn_rate", 0.1, atof);
      momentumRatio := 0.0;
      useMomentum := false;
      var ratio := conf.ConfFloat(section, "momentum_ratio", atof);
      if ratio.Some? {
        momentumRatio := ratio.value;
        useMomentum := true;
      }
      adjust := MethodOf(conf.ConfStrDefault(section, "learn_rate_adjust_method", "feature_decay"));
      earlyStopN := conf.ConfIntDefault(section, "early_stop_n", -1, atoi);
      shrinkLimit := conf.ConfIntDefault(section, "shrink_limit", 0, atoi);
      minLossDiff := conf.ConfFloatDefault(section, "min_loss_diff", 0.000001, atof);
      bestRound := staleRound;
      shrinkTimes := staleShrinks;
      shrinkN := 0;
      updateTimes := 0;
      originalRate := 0.0;
      forceStop := false;
    }

    /** `init`'s counters: one weight per dimension of the reader, every
        per-feature count 0 (src/models/logit.h:107-120). */
    method Init(dim: nat)
      modifies this
      ensures Valid() && thetaNum == dim && fresh(featureTimes)
      ensures forall f :: 0 <= f < dim ==> featureTimes[f] == 0
      ensures adjust == old(adjust) && learnRate == old(learnRate) && updateTimes == old(updateTimes)
      ensures SettingsOf() == old(SettingsOf()) && ProgressOf() == old(ProgressOf())
    {
      thetaNum := dim;
      featureTimes := new nat[dim](_ => 0);
    }

    /** `_update`'s bookkeeping: the update count goes up by one and sets
        the rate of the bias; a pair whose index names no weight is
        skipped (rate 0 here), and in FeatureDecay every other pair counts
        once more for its feature and moves by the rate decayed by that
        count (src/models/logit.h:206-245). */
    method Update(fs: seq<IndValue>, sqrt: nat -> real) returns (biasRate: real, rates: seq<real>)
      requires Valid() && PositiveRoot(sqrt)
      modifies this, featureTimes
      ensures Valid() && featureTimes == old(featureTimes) && thetaNum == old(thetaNum)
      ensures updateTimes == old(updateTimes) + 1
      ensures biasRate == UpdateRate(adjust, learnRate, updateTimes, sqrt)
      ensures forall f :: 0 <= f < thetaNum ==>
        featureTimes[f] == old(featureTimes[f]) + (if adjust == FeatureDecay then Occurrences(fs, f, |fs|) else 0)
      ensures |rates| == |fs|
      ensures forall i :: 0 <= i < |fs| ==>
        rates[i] == if Admits(fs[i].index, thetaNum)
          then PairRate(adjust, learnRate, biasRate, old(featureTimes[fs[i].index]), fs, i, sqrt)
          else 0.0
      ensures adjust == old(adjust) && learnRate == old(learnRate)
      ensures SettingsOf() == old(SettingsOf()) && ProgressOf() == old(ProgressOf())
    {
      updateTimes := updateTimes + 1;
      biasRate := learnRate;
      if adjust == Decay || adjust == FeatureDecay {
        biasRate := learnRate / sqrt(updateTimes);
      }
      var counts := featureTimes;
      ghost var before := counts[..];
      rates := [];
      var i := 0;
      while i < |fs|
        modifies counts
        invariant 0 <= i <= |fs| && |rates| == i
        invariant forall f :: 0 <= f < thetaNum ==>
          counts[f] == before[f] + (if adjust == FeatureDecay then Occurrences(fs, f, i) else 0)
        invariant forall k :: 0 <= k < i ==>
          rates[k] == if Admits(fs[k].index, thetaNum)
            then PairRate(adjust, learnRate, biasRate, before[fs[k].index], fs, k, sqrt)
            else 0.0
      {
        var rate, next := RatePair(counts, before, fs, i, adjust, learnRate, biasRate, sqrt);
        rates := rates + [rate];
        i := next;
      }
    }

    /** `_epoch_end` on the loss and round `IterModel_t` recorded and the
        weights the epoch ended with (src/models/logit.h:271-323). */
    method EpochEnd(loss: real, round: int, theta: seq<real>)
      modifies this
      ensures ProgressOf() == AfterEpoch(old(SettingsOf()), old(ProgressOf()), loss, round, theta)
      ensures SettingsOf() == old(SettingsOf()) && thetaNum == old(thetaNum) && featureTimes == old(featureTimes)
      ensures updateTimes == old(updateTimes) && originalRate == old(originalRate)
    {
      var expectLossInc := learnRate * loss;
      var improvement := false;
      var bigImprovement := false;
      var noProgress := -1;
      if loss < bestLoss - minLossDiff {
        improvement := true;
        if loss < bestLoss - expectLossInc {
          bigImprovement := true;
        }
      } else {
        noProgress := round - bestRound;
      }
      if adjust == Shrink {
        if bigImprovement {
          bestLoss := loss;
          bestTheta := theta;
          bestRound := round;
        } else if noProgress >= shrinkN {
          shrinkTimes := shrinkTimes + 1;
          learnRate := learnRate * 0.5;
          if shrinkTimes > shrinkLimit {
            forceStop := true;
          }
        }
      } else {
        if improvement {
          bestLoss := loss;
          bestTheta := theta;
          bestRound := round;
        } else if earlyStopN >= 0 && noProgress > earlyStopN {
          forceStop := true;
        }
      }
    }

    /** `_train_begin`: the update count and `shrink_N` start at 0 and the
        configured rate is remembered; the shrink count keeps whatever it
        held before (src/models/logit.h:331-335). */
    method TrainBegin()
      modifies this
      ensures updateTimes == 0 && shrinkN == 0 && originalRate == old(learnRate)
      ensures shrinkTimes == old(shrinkTimes)
      ensures adjust == old(adjust) && learnRate == old(learnRate) && forceStop == old(forceStop)
      ensures bestLoss == old(bestLoss) && bestTheta == old(bestTheta) && bestRound == old(bestRound)
      ensures earlyStopN == old(earlyStopN) && shrinkLimit == old(shrinkLimit) && minLossDiff == old(minLossDiff)
      ensures thetaNum == old(thetaNum) && featureTimes == old(featureTimes)
    {
      updateTimes := 0;
      originalRate := learnRate;
      shrinkN := 0;
    }

    /** `_train_begin` as evidently intended: the same resets, and the
        shrink count starts at 0 as well, so `shrink_limit` counts the
        shrinks of this training run only. */
    method TrainBeginReset()
      modifies this
      ensures updateTimes == 0 && shrinkN == 0 && shrinkTimes == 0 && originalRate == old(learnRate)
      ensures adjust == old(adjust) && learnRate == old(learnRate) && forceStop == old(forceStop)
      ensures bestLoss == old(bestLoss) && bestTheta == old(bestTheta) && bestRound == old(bestRound)
      ensures earlyStopN == old(earlyStopN) && shrinkLimit == old(shrinkLimit) && minLossDiff == old(minLossDiff)
      ensures thetaNum == old(thetaNum) && featureTimes == old(featureTimes)
    {
      TrainBegin();
      shrinkTimes := 0;
    }

    /** `_train_end`: the weights become the best ones recorded
        (src/models/logit.h:326-329). */
    method TrainEnd() returns (theta: seq<real>)
      ensures theta == bestTheta
    {
      theta := bestTheta;
    }
  }
}
