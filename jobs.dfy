/** `multi_thread_jobs` of src/include/helper.h and helper.h (the two are
    the same): start `job_num` jobs on at most `thread_num` threads, reusing
    a slot once its thread is found finished, then join every thread.
    Threads are not modelled; the calls the dispatcher makes are recorded
    as events, and the liveness probe `pthread_kill(tid, 0) == ESRCH` is an
    oracle: a sequence of answers, consumed one per probe. */
module Jobs {

  /** `pthread_create` of a job into a slot, or `pthread_join` of a slot. */
  datatype Event = Start(job: nat, slot: nat) | Join(slot: nat)

  /** After `log`, slot `s` holds a thread that was started and not joined. */
  function Busy(log: seq<Event>, s: nat): bool
    decreases |log|
  {
    if log == [] then false
    else
      match log[|log| - 1]
      case Start(_, t) => t == s || Busy(log[..|log| - 1], s)
      case Join(t) => t != s && Busy(log[..|log| - 1], s)
  }

  /** Every thread is started into a free slot and every join is of a
      running thread, so no thread is lost or joined twice. */
  predicate Orderly(log: seq<Event>)
    decreases |log|
  {
    log == [] ||
    (Orderly(log[..|log| - 1]) &&
     match log[|log| - 1]
     case Start(_, s) => !Busy(log[..|log| - 1], s)
     case Join(s) => Busy(log[..|log| - 1], s))
  }

  /** The jobs started, in order. */
  function Launched(log: seq<Event>): seq<nat>
    decreases |log|
  {
    if log == [] then []
    else
      match log[|log| - 1]
      case Start(j, _) => Launched(log[..|log| - 1]) + [j]
      case Join(_) => Launched(log[..|log| - 1])
  }

  /** The jobs 0, 1, ..., n - 1. */
  function Upto(n: nat): (r: seq<nat>)
    ensures |r| == n && forall j :: 0 <= j < n ==> r[j] == j
  {
    seq(n, j => j)
  }

  /** The effect of appending one event on the three summaries. */
  lemma Append(log: seq<Event>, e: Event)
    ensures (log + [e])[..|log|] == log
    ensures Launched(log + [e]) == if e.Start? then Launched(log) + [e.job] else Launched(log)
    ensures forall s: nat :: Busy(log + [e], s) == if e.Start? then e.slot == s || Busy(log, s) else e.slot != s && Busy(log, s)
    ensures Orderly(log + [e]) <==> Orderly(log) && (if e.Start? then !Busy(log, e.slot) else Busy(log, e.slot))
  {
    assert (log + [e])[..|log|] == log;
  }

  /** The slots first used are always the lowest ones: slots below `width`
      are running, the others never used. */
  ghost predicate Packed(log: seq<Event>, run: seq<bool>, width: nat) {
    width <= |run| &&
    (forall s :: 0 <= s < |run| ==> (run[s] <==> s < width)) &&
    (forall s: nat :: Busy(log, s) <==> s < width)
  }

  /** Every start goes into a slot below the thread count and no higher
      than its job index, hence below `job_num`: `tids`, allocated with
      `job_num` entries but indexed by slot, is never overrun. */
  predicate StartsInBounds(log: seq<Event>, threadNum: nat) {
    forall e :: e in log && e.Start? ==> e.slot < threadNum && e.slot <= e.job
  }

  /** What holds between two sweeps of the dispatcher: `launched` jobs
      started in order, the used slots packed below `width` and all
      running, and every start in bounds. */
  ghost predicate Between(log: seq<Event>, run: seq<bool>, width: nat, launched: nat, jobNum: nat, threadNum: nat) {
    |run| == threadNum && launched <= jobNum && width <= launched &&
    Packed(log, run, width) && Launched(log) == Upto(launched) &&
    Orderly(log) && StartsInBounds(log, threadNum) &&
    (forall e :: e in log ==> e.slot < jobNum)
  }

  /** Starting the next job in the lowest never-used slot. */
  lemma StartFresh(log: seq<Event>, run: seq<bool>, width: nat, launched: nat, jobNum: nat, threadNum: nat)
    requires Between(log, run, width, launched, jobNum, threadNum)
    requires launched < jobNum && width < threadNum
    ensures Between(log + [Start(launched, width)], run[width := true], width + 1, launched + 1, jobNum, threadNum)
  {
    var e := Start(launched, width);
    Append(log, e);
    assert Upto(launched + 1) == Upto(launched) + [launched];
    forall x | x in log + [e] && x.Start?
      ensures x.slot < threadNum && x.slot <= x.job
    {
      if x !in log {
        assert x == e;
      }
    }
  }

  /** Joining a finished thread and starting the next job in its slot. */
  lemma Reuse(log: seq<Event>, run: seq<bool>, width: nat, launched: nat, jobNum: nat, threadNum: nat, i: nat)
    requires Between(log, run, width, launched, jobNum, threadNum)
    requires launched < jobNum && i < width
    ensures Between(log + [Join(i)] + [Start(launched, i)], run, width, launched + 1, jobNum, threadNum)
  {
    var log1 := log + [Join(i)];
    Append(log, Join(i));
    Append(log1, Start(launched, i));
    assert Upto(launched + 1) == Upto(launched) + [launched];
    forall x | x in log1 + [Start(launched, i)] && x.Start?
      ensures x.slot < threadNum && x.slot <= x.job
    {
      if x !in log {
        assert x == Start(launched, i);
      }
    }
  }

  /** One sweep of the dispatcher over the slots for job `launched0`: it
      ends with that job started, with every slot probed busy, or stopped
      with the probe answers used up. */
  method Sweep(run: array<bool>, log0: seq<Event>, ghost width0: nat, launched0: nat, used0: nat,
               jobNum: nat, threadNum: nat, probes: seq<bool>)
      returns (log: seq<Event>, ghost width: nat, launched: nat, used: nat, stopped: bool)
    requires used0 <= |probes| && launched0 < jobNum
    requires Between(log0, run[..], width0, launched0, jobNum, threadNum)
    modifies run
    ensures used0 <= used <= |probes|
    ensures Between(log, run[..], width, launched, jobNum, threadNum)
    ensures stopped ==> launched == launched0 && used == |probes|
    ensures !stopped ==> launched == launched0 + 1 || (launched == launched0 && used == used0 + threadNum)
  {
    log, width, launched, used, stopped := log0, width0, launched0, used0, false;
    var i := 0;
    var found := false;
    while i < threadNum && !found
      invariant 0 <= i <= threadNum && used0 <= used <= |probes|
      invariant Between(log, run[..], width, launched, jobNum, threadNum)
      invariant !found ==> launched == launched0 && used == used0 + i && i <= width
      invariant found ==> launched == launched0 + 1
      decreases threadNum - i, if found then 0 else 1
    {
      if !run[i] {
        StartFresh(log, run[..], width, launched, jobNum, threadNum);
        log := log + [Start(launched, i)];
        run[i] := true;
        width := width + 1;
        launched := launched + 1;
        found := true;
      } else {
        if used == |probes| {
          stopped := true;
          return;
        }
        var finished := probes[used];
        used := used + 1;
        if finished {
          Reuse(log, run[..], width, launched, jobNum, threadNum, i);
          log := log + [Join(i)] + [Start(launched, i)];
          launched := launched + 1;
          found := true;
        } else {
          i := i + 1;
        }
      }
    }
  }

  /** The dispatcher.  The outer loop sweeps the slots until a job starts:
      a slot never used is taken at once; a used slot is probed, and when
      its thread has finished it is joined and reused.  When the probe
      answers run out while a sweep still needs one, the C++ loop would go
      on probing; the model stops there with `used == |probes|`.  With no
      thread slot and a job to start, the sweep finds no slot and the C++
      loop spins forever without probing; the model reports `spins` and
      starts nothing.  Otherwise every job is started and every used slot
      is joined (src/include/helper.h:383-423, helper.h:187-227). */
  method Dispatch(jobNum: nat, threadNum: nat, probes: seq<bool>) returns (log: seq<Event>, launched: nat, used: nat, spins: bool)
    ensures spins <==> threadNum == 0 && jobNum > 0
    ensures spins ==> log == [] && launched == 0 && used == 0
    ensures used <= |probes| && launched <= jobNum
    ensures Launched(log) == Upto(launched)
    ensures Orderly(log) && StartsInBounds(log, threadNum)
    ensures forall e :: e in log ==> e.slot < jobNum
    ensures launched < jobNum && !spins ==> used == |probes|
    ensures launched == jobNum ==> forall s: nat :: !Busy(log, s)
  {
    log, launched, used, spins := [], 0, 0, false;
    if threadNum == 0 && jobNum > 0 {
      spins := true;
      return;
    }
    var run := new bool[threadNum](_ => false);
    ghost var width: nat := 0;
    while launched < jobNum
      invariant run.Length == threadNum && used <= |probes|
      invariant Between(log, run[..], width, launched, jobNum, threadNum)
      invariant threadNum > 0 || launched == jobNum
      decreases jobNum - launched + |probes| - used
    {
      var stopped;
      log, width, launched, used, stopped := Sweep(run, log, width, launched, used, jobNum, threadNum, probes);
      if stopped {
        return;
      }
    }
    for i := 0 to threadNum
      invariant width <= launched <= jobNum && width <= threadNum
      invariant forall s :: 0 <= s < threadNum ==> (run[s] <==> s < width)
      invariant forall s: nat :: Busy(log, s) <==> i <= s < width
      invariant Launched(log) == Upto(launched)
      invariant Orderly(log) && StartsInBounds(log, threadNum)
      invariant forall e :: e in log ==> e.slot < jobNum
    {
      if run[i] {
        Append(log, Join(i));
        log := log + [Join(i)];
      }
    }
  }
}
