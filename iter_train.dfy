/** The iterative training driver `IterModel_t` of src/models/iter.h:
    `train` runs epochs until a stop rule fires, and `_epoch` hands the
    reader to job 0 and one updatable object to every other job, then
    averages the jobs' losses over the reader's records.  What an epoch
    computes is the subclass's business; `train` sees it as the outcome
    each round reports. */
module IterTrain {
  import opened Wrappers
  import opened Config

  /** What one `_epoch` reports to `train`: its loss, as `_epoch_end` left
      it, and whether `_epoch_end` asked for a stop. */
  datatype Outcome = Outcome(loss: real, forceStop: bool)

  /** The virtual hooks `train` calls, in the order it calls them:
      `_train_begin`, one `_epoch` per numbered round, `_train_end`. */
  datatype Hook = TrainBeginHook | RoundHook(round: nat) | TrainEndHook

  /** `calls` opens with `_train_begin`, closes with `_train_end`, and
      runs the rounds 1 to `rounds` in order between them. */
  predicate Bracketed(calls: seq<Hook>, rounds: nat) {
    && |calls| == rounds + 2
    && calls[0] == TrainBeginHook && calls[rounds + 1] == TrainEndHook
    && forall k :: 1 <= k <= rounds ==> calls[k] == RoundHook(k)
  }

  /** `train` leaves its loop after an epoch that forced a stop or got
      below the minimum loss. */
  predicate Halts(o: Outcome, minLoss: real) {
    o.forceStop || o.loss < minLoss
  }

  function Max0(n: int): nat {
    if n < 0 then 0 else n
  }

  /** The number of epochs `train` runs once `i` rounds are behind it. */
  function RoundsFrom(epoch: nat -> Outcome, minLoss: real, iterNum: int, i: nat): nat
    decreases iterNum - i
  {
    if i >= iterNum then i
    else if Halts(epoch(i + 1), minLoss) then i + 1
    else RoundsFrom(epoch, minLoss, iterNum, i + 1)
  }

  /** The rounds counted from `i` on: never more than `iterNum`, none of
      the rounds before the last halts, and the last one halts unless the
      budget ran out. */
  lemma {:induction false} RoundsFromBounds(epoch: nat -> Outcome, minLoss: real, iterNum: int, i: nat)
    requires i <= Max0(iterNum)
    ensures var r := RoundsFrom(epoch, minLoss, iterNum, i);
      i <= r <= Max0(iterNum) &&
      (forall j :: i < j < r ==> !Halts(epoch(j), minLoss)) &&
      (r == Max0(iterNum) || (r > i && Halts(epoch(r), minLoss)))
    decreases iterNum - i
  {
    if i < iterNum && !Halts(epoch(i + 1), minLoss) {
      RoundsFromBounds(epoch, minLoss, iterNum, i + 1);
    }
  }

  /** `train` runs at most `iter_num` epochs; every epoch but the last
      went on, and the last one stopped the loop unless the budget ran out
      (src/models/iter.h:69-92). */
  lemma RoundsRun(epoch: nat -> Outcome, minLoss: real, iterNum: int)
    ensures var r := RoundsFrom(epoch, minLoss, iterNum, 0);
      r <= Max0(iterNum) &&
      (forall j :: 0 < j < r ==> !Halts(epoch(j), minLoss)) &&
      (r == Max0(iterNum) || (r > 0 && Halts(epoch(r), minLoss)))
  {
    RoundsFromBounds(epoch, minLoss, iterNum, 0);
  }

  /** The round count is determined by those properties: a count that
      stops at the first halting round, or at the budget, is the one
      `train` runs. */
  lemma {:induction false} RoundsUnique(epoch: nat -> Outcome, minLoss: real, iterNum: int, i: nat, r: nat)
    requires i <= r <= Max0(iterNum)
    requires forall j :: i < j < r ==> !Halts(epoch(j), minLoss)
    requires r == Max0(iterNum) || (r > i && Halts(epoch(r), minLoss))
    ensures RoundsFrom(epoch, minLoss, iterNum, i) == r
    decreases r - i
  {
    if i < iterNum && !Halts(epoch(i + 1), minLoss) {
      RoundsUnique(epoch, minLoss, iterNum, i + 1, r);
    }
  }

  /** One job of `_epoch`: its number, whether it holds the reader, the
      updatable it works on (by creation order), and its loss. */
  datatype Job = Job(id: int, reader: bool, updatable: Option<nat>, totalLoss: real)

  /** The sum of the losses of jobs `lo` up to `hi`. */
  function LossBetween(jobs: seq<Job>, lo: nat, hi: nat): real
    requires hi <= |jobs|
    decreases hi
  {
    if hi <= lo then 0.0 else LossBetween(jobs, lo, hi - 1) + jobs[hi - 1].totalLoss
  }

  /** The epoch loss: the slave jobs' losses over the reader's size; a
      size of 0 divides by zero, which is `None` here. */
  function EpochLoss(total: real, size: nat): Option<real> {
    if size == 0 then None else Some(total / size as real)
  }

  /** The per-record losses `ls` and, for each record, the job that took
      it from the pool: the loss job `j` accumulates. */
  function JobTotal(ls: seq<real>, owner: seq<nat>, j: nat): real
    requires |ls| == |owner|
    decreases |ls|
  {
    if ls == [] then 0.0
    else
      var n := |ls| - 1;
      JobTotal(ls[..n], owner[..n], j) + (if owner[n] == j then ls[n] else 0.0)
  }

  /** The losses of jobs `lo` up to `hi`. */
  function TotalsBetween(ls: seq<real>, owner: seq<nat>, lo: nat, hi: nat): real
    requires |ls| == |owner|
    decreases hi
  {
    if hi <= lo then 0.0 else TotalsBetween(ls, owner, lo, hi - 1) + JobTotal(ls, owner, hi - 1)
  }

  function Sum(xs: seq<real>): real
    decreases |xs|
  {
    if xs == [] then 0.0 else Sum(xs[..|xs| - 1]) + xs[|xs| - 1]
  }

  /** One more record adds its loss to the total of jobs `[lo, hi)` exactly
      when its job is among them. */
  lemma {:induction false} TotalsBetweenStep(ls: seq<real>, owner: seq<nat>, x: real, o: nat, lo: nat, hi: nat)
    requires |ls| == |owner|
    ensures TotalsBetween(ls + [x], owner + [o], lo, hi) ==
      TotalsBetween(ls, owner, lo, hi) + (if lo <= o < hi then x else 0.0)
    decreases hi
  {
    var ls', owner' := ls + [x], owner + [o];
    assert ls'[..|ls|] == ls && owner'[..|ls|] == owner;
    if lo < hi {
      TotalsBetweenStep(ls, owner, x, o, lo, hi - 1);
    }
  }

  lemma {:induction false} NoRecordsNoLoss(lo: nat, hi: nat)
    ensures TotalsBetween([], [], lo, hi) == 0.0
    decreases hi
  {
    if lo < hi {
      NoRecordsNoLoss(lo, hi - 1);
    }
  }

  /** However the pool hands the records to the slave jobs `1..n-1`, their
      losses add up to the loss of every record once: the epoch loss is
      the mean loss per record (src/models/iter.h:146-157). */
  lemma {:induction false} SlavesCoverRecords(ls: seq<real>, owner: seq<nat>, n: nat)
    requires |ls| == |owner|
    requires forall k :: 0 <= k < |owner| ==> 1 <= owner[k] < n
    ensures TotalsBetween(ls, owner, 1, n) == Sum(ls)
    decreases |ls|
  {
    if ls == [] {
      NoRecordsNoLoss(1, n);
    } else {
      var m := |ls| - 1;
      assert ls == ls[..m] + [ls[m]] && owner == owner[..m] + [owner[m]];
      SlavesCoverRecords(ls[..m], owner[..m], n);
      TotalsBetweenStep(ls[..m], owner[..m], ls[m], owner[m], 1, n);
    }
  }

  /** The slave jobs' totals, each the loss of the records that job took,
      sum to the loss of every record once. */
  lemma {:induction false} JobLossesAreTotals(jobs: seq<Job>, ls: seq<real>, owner: seq<nat>, hi: nat)
    requires |ls| == |owner| && hi <= |jobs|
    requires forall j :: 1 <= j < hi ==> jobs[j].totalLoss == JobTotal(ls, owner, j)
    ensures LossBetween(jobs, 1, hi) == TotalsBetween(ls, owner, 1, hi)
    decreases hi
  {
    if hi > 1 {
      JobLossesAreTotals(jobs, ls, owner, hi - 1);
    }
  }

  /** When every slave job's loss is the sum over the records it took, the
      epoch loss is the mean loss per record. */
  lemma EpochLossIsMean(jobs: seq<Job>, ls: seq<real>, owner: seq<nat>)
    requires |ls| == |owner| && |jobs| >= 1
    requires forall k :: 0 <= k < |owner| ==> 1 <= owner[k] < |jobs|
    requires forall j :: 1 <= j < |jobs| ==> jobs[j].totalLoss == JobTotal(ls, owner, j)
    ensures EpochLoss(LossBetween(jobs, 1, |jobs|), |ls|) == if ls == [] then None else Some(Sum(ls) / |ls| as real)
  {
    JobLossesAreTotals(jobs, ls, owner, |jobs|);
    SlavesCoverRecords(ls, owner, |jobs|);
  }

  /** `IterModel_t`: the settings read from the configuration and the
      per-training flags. */
  class IterModel {
    var iterNum: int
    var learnRate: real
    var minLoss: real
    var cacheSize: int
    var threadNum: int
    var forceStop: bool
    var iterRound: nat

    /** The constructor: every setting has a default
        (src/models/iter.h:41-59).  It never sets the stop flag or the round, which
        hold whatever memory held, `stop0` and `round0`. */
    constructor(conf: Config, section: string, atoi: string -> int, atof: string -> real, stop0: bool, round0: nat)
      ensures iterNum == conf.ConfIntDefault(section, "iter_num", 200, atoi)
      ensures learnRate == conf.ConfFloatDefault(section, "learn_rate", 0.1, atof)
      ensures minLoss == conf.ConfFloatDefault(section, "min_loss", 0.005, atof)
      ensures cacheSize == conf.ConfIntDefault(section, "cache_size", 2000000, atoi)
      ensures threadNum == conf.ConfIntDefault(section, "thread_num", 11, atoi)
      ensures forceStop == stop0 && iterRound == round0
    {
      iterNum := conf.ConfIntDefault(section, "iter_num", 200, atoi);
      learnRate := conf.ConfFloatDefault(section, "learn_rate", 0.1, atof);
      minLoss := conf.ConfFloatDefault(section, "min_loss", 0.005, atof);
      cacheSize := conf.ConfIntDefault(section, "cache_size", 2000000, atoi);
      threadNum := conf.ConfIntDefault(section, "thread_num", 11, atoi);
      forceStop := stop0;
      iterRound := round0;
    }

    /** `train`: the stop flag is cleared, then round `i + 1` is numbered
        before its epoch runs; the loop ends on a forced stop, on a loss
        below `min_loss`, or after `iter_num` rounds.  `epoch(i)` is what
        round `i` reports (src/models/iter.h:69-92). */
    method Train(epoch: nat -> Outcome) returns (rounds: nat, calls: seq<Hook>)
      modifies this
      ensures rounds == RoundsFrom(epoch, minLoss, iterNum, 0)
      ensures Bracketed(calls, rounds)
      ensures iterRound == (if rounds == 0 then old(iterRound) else rounds)
      ensures forceStop == (rounds > 0 && epoch(rounds).forceStop)
      ensures iterNum == old(iterNum) && learnRate == old(learnRate) && minLoss == old(minLoss)
      ensures cacheSize == old(cacheSize) && threadNum == old(threadNum)
    {
      forceStop := false;
      calls := [TrainBeginHook];
      var i := 0;
      rounds := 0;
      var stopped := false;
      while i < iterNum && !stopped
        invariant i <= Max0(iterNum)
        invariant RoundsFrom(epoch, minLoss, iterNum, 0) == (if stopped then rounds else RoundsFrom(epoch, minLoss, iterNum, i))
        invariant |calls| == (if stopped then rounds else i) + 1 && calls[0] == TrainBeginHook
        invariant forall k :: 1 <= k < |calls| ==> calls[k] == RoundHook(k)
        invariant stopped ==> rounds > 0 && iterRound == rounds && forceStop == epoch(rounds).forceStop
        invariant !stopped ==> !forceStop && iterRound == (if i == 0 then old(iterRound) else i)
        invariant !stopped && i > 0 ==> !Halts(epoch(i), minLoss)
        invariant iterNum == old(iterNum) && learnRate == old(learnRate) && minLoss == old(minLoss)
        invariant cacheSize == old(cacheSize) && threadNum == old(threadNum)
        decreases iterNum - i, if stopped then 0 else 1
      {
        iterRound := i + 1;
        var o := epoch(i + 1);
        calls := calls + [RoundHook(i + 1)];
        forceStop := o.forceStop;
        if forceStop || o.loss < minLoss {
          rounds := i + 1;
          stopped := true;
        } else {
          i := i + 1;
        }
      }
      if !stopped {
        rounds := i;
      }
      calls := calls + [TrainEndHook];
    }

    /** The job table of `_epoch`: job 0 reads, every other job gets an
        updatable of its own, created in job order, and every loss starts
        at 0 (src/models/iter.h:120-139). */
    method SetupJobs() returns (jobs: array<Job>, updatables: array<nat>)
      requires threadNum >= 1
      ensures jobs.Length == threadNum && updatables.Length == threadNum - 1
      ensures forall i :: 0 <= i < jobs.Length ==>
        jobs[i].id == i && jobs[i].totalLoss == 0.0 && (jobs[i].reader <==> i == 0) && (jobs[i].updatable.None? <==> i == 0)
      ensures forall i :: 1 <= i < jobs.Length ==> jobs[i].updatable == Some(updatables[i - 1])
      ensures forall i, j :: 0 <= i < j < updatables.Length ==> updatables[i] != updatables[j]
    {
      jobs := new Job[threadNum];
      updatables := new nat[threadNum - 1];
      var created := 0;
      for i := 0 to threadNum
        invariant created == (if i == 0 then 0 else i - 1)
        invariant forall k :: 0 <= k < i ==>
          jobs[k].id == k && jobs[k].totalLoss == 0.0 && (jobs[k].reader <==> k == 0) && (jobs[k].updatable.None? <==> k == 0)
        invariant forall k :: 1 <= k < i ==> jobs[k].updatable == Some(updatables[k - 1])
        invariant forall k :: 0 <= k < created ==> updatables[k] == k
      {
        var u: Option<nat> := None;
        if i != 0 {
          u := Some(created);
          updatables[i - 1] := created;
          created := created + 1;
        }
        jobs[i] := Job(i, i == 0, u, 0.0);
      }
    }

    /** The loss `_epoch` returns before `_epoch_end` sees it: the slave
        jobs' losses summed and divided by the reader's size
        (src/models/iter.h:146-157). */
    method SumLosses(jobs: array<Job>, size: nat) returns (loss: Option<real>)
      requires jobs.Length == threadNum >= 1
      ensures loss == EpochLoss(LossBetween(jobs[..], 1, jobs.Length), size)
    {
      var total := 0.0;
      for i := 1 to jobs.Length
        invariant total == LossBetween(jobs[..], 1, i)
      {
        total := total + jobs[i].totalLoss;
      }
      if size == 0 {
        loss := None;
      } else {
        loss := Some(total / size as real);
      }
    }
  }
}
