/** What every interleaving of the worker queues guarantees. */
module WorkerTheorems {
  import opened Basics
  import opened WorkerQueues

  ghost predicate Reachable(cfg: Config, steps: seq<Step>, s: State)
    requires cfg.Valid()
  {
    Run(cfg, Start(cfg), steps, s)
  }

  lemma ReachableInv(cfg: Config, steps: seq<Step>, s: State)
    requires cfg.Valid() && Reachable(cfg, steps, s)
    ensures Inv(cfg, s)
  {
    StartInv(cfg);
    RunInv(cfg, Start(cfg), steps, s);
  }

  // ---------- no lost wake-up ----------

  /** A worker asleep has nothing to do, or its stop notification is on the way; a flusher asleep has
      a worker that is awake, alive and will notify; so the two never sleep together. */
  lemma NoLostWakeup(cfg: Config, steps: seq<Step>, s: State, w: nat)
    requires cfg.Valid() && Reachable(cfg, steps, s) && w < cfg.shards
    ensures |s.workers| == cfg.shards
    ensures s.workers[w].pc == Waiting ==>
              s.workers[w].queue == [] && !s.workers[w].busy && (s.workers[w].stopping ==> s.stop == Announcing(w))
    ensures forall f :: f in s.flushers && s.flushers[f].asleep && s.flushers[f].at == w ==>
              && (s.workers[w].queue != [] || s.workers[w].busy || s.workers[w].pc == Notifying)
              && s.workers[w].pc != Waiting && s.workers[w].pc != Exited
              && (s.workers[w].stopping ==> s.stop == Announcing(w))
  {
    ReachableInv(cfg, steps, s);
    assert WorkerOk(s.workers[w], w, s.stop, s.late, cfg.capacity);
    forall f | f in s.flushers && s.flushers[f].asleep && s.flushers[f].at == w
      ensures SleepOk(s.flushers[f], s.workers, s.stop)
    {
      assert FlusherOk(cfg, s.flushers[f], s.workers, s.stop, s.log);
    }
  }

  /** Work left at a worker, counted in steps of its own thread. */
  function Work(worker: Worker): nat {
    4 * |worker.queue| +
    match worker.pc
    case Running(_) => 3
    case Ran => 2
    case Notifying => 1
    case _ => 0
  }

  predicate IsWork(step: Step, w: nat) {
    match step
    case WorkerCheck(v) => v == w
    case WorkerProcess(v) => v == w
    case WorkerClear(v) => v == w
    case WorkerNotify(v) => v == w
    case _ => false
  }

  predicate NoSubmit(steps: seq<Step>) {
    forall i :: 0 <= i < |steps| ==> !steps[i].Submit?
  }

  function CountWork(steps: seq<Step>, w: nat): nat {
    if steps == [] then 0 else (if IsWork(steps[0], w) then 1 else 0) + CountWork(steps[1..], w)
  }

  /** Where work is left, the worker's own next step is enabled. */
  lemma WorkEnabled(cfg: Config, s: State, w: nat)
    requires cfg.Valid() && Inv(cfg, s) && w < cfg.shards && s.stop != Stopped
    requires Work(s.workers[w]) > 0 && !s.late
    ensures exists step :: IsWork(step, w) && Enabled(cfg, s, step)
  {
    assert WorkerOk(s.workers[w], w, s.stop, s.late, cfg.capacity);
    var step := match s.workers[w].pc
      case Running(_) => WorkerProcess(w)
      case Ran => WorkerClear(w)
      case Notifying => WorkerNotify(w)
      case _ => WorkerCheck(w);
    assert IsWork(step, w) && Enabled(cfg, s, step);
  }

  lemma StepWorks(cfg: Config, s: State, step: Step, w: nat)
    requires cfg.Valid() && Inv(cfg, s) && Enabled(cfg, s, step) && w < cfg.shards && !step.Submit?
    ensures var t := Apply(cfg, s, step);
            && |t.workers| == cfg.shards && t.late == s.late
            && Work(t.workers[w]) <= (if IsWork(step, w) && Work(s.workers[w]) > 0 then Work(s.workers[w]) - 1 else Work(s.workers[w]))
  {
    hide FlusherOk, OfShard, FlushAt, Enqueue, Wakeable;
    assert WorkerOk(s.workers[w], w, s.stop, s.late, cfg.capacity);
  }

  lemma {:induction false} RunWorks(cfg: Config, s: State, steps: seq<Step>, t: State, w: nat)
    requires cfg.Valid() && Inv(cfg, s) && Run(cfg, s, steps, t) && NoSubmit(steps) && w < cfg.shards
    ensures |t.workers| == cfg.shards && t.late == s.late
    ensures Work(t.workers[w]) <= if CountWork(steps, w) >= Work(s.workers[w]) then 0 else Work(s.workers[w]) - CountWork(steps, w)
    decreases |steps|
  {
    if steps != [] {
      StepWorks(cfg, s, steps[0], w);
      StepInv(cfg, s, steps[0]);
      RunWorks(cfg, Apply(cfg, s, steps[0]), steps[1..], t, w);
    }
  }

  /** Without new submissions, once a worker's thread has taken as many of its own steps as there was
      work, its queue is drained, nobody sleeps in flush() there and any flush() moves on. */
  lemma FlushProgress(cfg: Config, before: seq<Step>, s: State, steps: seq<Step>, t: State, w: nat)
    requires cfg.Valid() && Reachable(cfg, before, s) && Run(cfg, s, steps, t) && NoSubmit(steps) && w < cfg.shards
    requires |s.workers| == cfg.shards && CountWork(steps, w) >= Work(s.workers[w])
    ensures |t.workers| == cfg.shards && t.workers[w].queue == [] && !t.workers[w].busy
    ensures forall f :: f in t.flushers && t.flushers[f].at == w ==>
              && !t.flushers[f].asleep
              && FlushAt(t.flushers[f], t.workers[w]).at == w + 1
  {
    ReachableInv(cfg, before, s);
    RunWorks(cfg, s, steps, t, w);
    RunInv(cfg, s, steps, t);
    assert WorkerOk(t.workers[w], w, t.stop, t.late, cfg.capacity);
    forall f | f in t.flushers && t.flushers[f].at == w
      ensures !t.flushers[f].asleep
    {
      assert FlusherOk(cfg, t.flushers[f], t.workers, t.stop, t.log);
    }
  }

  function CountChecks(steps: seq<Step>, f: nat): nat {
    if steps == [] then 0 else (if steps[0] == FlushCheck(f) then 1 else 0) + CountChecks(steps[1..], f)
  }

  ghost predicate AllIdle(cfg: Config, s: State) {
    |s.workers| == cfg.shards && forall w :: 0 <= w < cfg.shards ==> Work(s.workers[w]) == 0
  }

  lemma IdleStays(cfg: Config, s: State, step: Step)
    requires cfg.Valid() && Inv(cfg, s) && Enabled(cfg, s, step) && !step.Submit? && AllIdle(cfg, s)
    ensures AllIdle(cfg, Apply(cfg, s, step))
  {
    hide Inv, Work, Apply, Enabled;
    var t := Apply(cfg, s, step);
    forall w | 0 <= w < cfg.shards
      ensures |t.workers| == cfg.shards && Work(t.workers[w]) == 0
    {
      StepWorks(cfg, s, step, w);
    }
    StepWorks(cfg, s, step, 0);
  }

  /** With no work left each check of a flusher takes it one worker further. */
  lemma CheckAdvances(cfg: Config, s: State, step: Step, f: nat)
    requires cfg.Valid() && Inv(cfg, s) && Enabled(cfg, s, step) && !step.Submit? && AllIdle(cfg, s) && f in s.flushers
    ensures var t := Apply(cfg, s, step);
            f in t.flushers && t.flushers[f].at == s.flushers[f].at + if step == FlushCheck(f) then 1 else 0
  {
    hide OfShard, FlusherOk, Wakeable;
    if step == FlushCheck(f) {
      var w := s.flushers[f].at;
      assert WorkerOk(s.workers[w], w, s.stop, s.late, cfg.capacity);
      assert Work(s.workers[w]) == 0;
    }
  }

  lemma {:induction false} IdleRun(cfg: Config, s: State, steps: seq<Step>, t: State, f: nat)
    requires cfg.Valid() && Inv(cfg, s) && Run(cfg, s, steps, t) && NoSubmit(steps) && AllIdle(cfg, s) && f in s.flushers
    ensures Inv(cfg, t) && AllIdle(cfg, t) && f in t.flushers && t.flushers[f].at == s.flushers[f].at + CountChecks(steps, f)
    decreases |steps|
  {
    hide Inv, AllIdle, Apply, Enabled;
    if steps != [] {
      StepInv(cfg, s, steps[0]);
      IdleStays(cfg, s, steps[0]);
      CheckAdvances(cfg, s, steps[0], f);
      IdleRun(cfg, Apply(cfg, s, steps[0]), steps[1..], t, f);
    }
  }

  /** A whole flush() without new submissions: after every worker has taken as many of its own steps
      as it had work, each check of the flusher takes it one worker further, a check is possible
      until it is past the last, and after as many checks as workers were left it has returned. */
  lemma FlushCompletes(cfg: Config, before: seq<Step>, s: State, steps: seq<Step>, t: State, more: seq<Step>, u: State, f: nat)
    requires cfg.Valid() && Reachable(cfg, before, s) && |s.workers| == cfg.shards && f in s.flushers
    requires Run(cfg, s, steps, t) && NoSubmit(steps) && Run(cfg, t, more, u) && NoSubmit(more)
    requires forall w :: 0 <= w < cfg.shards ==> CountWork(steps, w) >= Work(s.workers[w])
    ensures f in t.flushers && f in u.flushers && u.flushers[f].at == t.flushers[f].at + CountChecks(more, f) <= cfg.shards
    ensures |u.workers| == cfg.shards
    ensures u.flushers[f].at < cfg.shards && u.stop != Stopped ==> Enabled(cfg, u, FlushCheck(f))
    ensures CountChecks(more, f) >= cfg.shards - t.flushers[f].at ==> u.flushers[f].at == cfg.shards
  {
    hide Inv, Work, Enabled, Run, AllIdle;
    ReachableInv(cfg, before, s);
    RunInv(cfg, s, steps, t);
    RunKeepsFlusher(cfg, s, steps, t, f);
    WorksOff(cfg, s, steps, t);
    IdleRun(cfg, t, more, u, f);
    CheckPossible(cfg, u, f);
  }

  lemma WorksOff(cfg: Config, s: State, steps: seq<Step>, t: State)
    requires cfg.Valid() && Inv(cfg, s) && |s.workers| == cfg.shards && Run(cfg, s, steps, t) && NoSubmit(steps)
    requires forall w :: 0 <= w < cfg.shards ==> CountWork(steps, w) >= Work(s.workers[w])
    ensures AllIdle(cfg, t)
  {
    hide Inv, Work, Run;
    RunWorks(cfg, s, steps, t, 0);
    forall w | 0 <= w < cfg.shards
      ensures Work(t.workers[w]) == 0
    {
      RunWorks(cfg, s, steps, t, w);
    }
  }

  /** With no work left a flusher is past the last worker or awake at one. */
  lemma CheckPossible(cfg: Config, s: State, f: nat)
    requires cfg.Valid() && Inv(cfg, s) && AllIdle(cfg, s) && f in s.flushers
    ensures |s.workers| == cfg.shards && s.flushers[f].at <= cfg.shards
    ensures s.flushers[f].at < cfg.shards && s.stop != Stopped ==> Enabled(cfg, s, FlushCheck(f))
  {
    assert FlusherOk(cfg, s.flushers[f], s.workers, s.stop, s.log);
    var at := s.flushers[f].at;
    if at < cfg.shards {
      assert WorkerOk(s.workers[at], at, s.stop, s.late, cfg.capacity) && Work(s.workers[at]) == 0;
    }
  }

  // ---------- stopping terminates ----------

  /** A worker's own steps until it has left, once its flag is set and nothing is submitted. */
  function Left(worker: Worker): nat {
    Work(worker) + if worker.pc == Exited then 0 else 1
  }

  /** While workers are being joined none of them sleeps, and one that has not left can take a step;
      the stopper itself waits for nothing but the worker it is joining. */
  lemma StopEnabled(cfg: Config, s: State, w: nat)
    requires cfg.Valid() && Inv(cfg, s) && w < cfg.shards
    ensures s.stop.Joining? ==> s.workers[w].pc != Waiting
    ensures s.stop.Joining? && s.workers[w].pc != Exited ==> exists step :: IsWork(step, w) && Enabled(cfg, s, step)
    ensures s.stop.Setting? && s.stop.i <= cfg.shards ==> Enabled(cfg, s, StopNext)
    ensures s.stop == Announcing(w) ==> Enabled(cfg, s, StopNext)
    ensures s.stop == Joining(w) && s.workers[w].pc == Exited ==> Enabled(cfg, s, StopNext)
  {
    assert WorkerOk(s.workers[w], w, s.stop, s.late, cfg.capacity);
    var step := match s.workers[w].pc
      case Running(_) => WorkerProcess(w)
      case Ran => WorkerClear(w)
      case Notifying => WorkerNotify(w)
      case _ => WorkerCheck(w);
    assert IsWork(step, w);
  }

  /** Each own step of a worker being joined brings it closer to its exit. */
  lemma StepLeaves(cfg: Config, s: State, step: Step, w: nat)
    requires cfg.Valid() && Inv(cfg, s) && Enabled(cfg, s, step) && w < cfg.shards && !step.Submit? && s.stop.Joining?
    ensures var t := Apply(cfg, s, step);
            && |t.workers| == cfg.shards && (t.stop.Joining? || t.stop == Stopped)
            && Left(t.workers[w]) + (if IsWork(step, w) then 1 else 0) <= Left(s.workers[w])
  {
    hide FlusherOk, OfShard, FlushAt, Enqueue, Wakeable;
    assert WorkerOk(s.workers[w], w, s.stop, s.late, cfg.capacity);
  }

  lemma {:induction false} RunLeaves(cfg: Config, s: State, steps: seq<Step>, t: State, w: nat)
    requires cfg.Valid() && Inv(cfg, s) && Run(cfg, s, steps, t) && NoSubmit(steps) && w < cfg.shards
    requires s.stop.Joining? || s.stop == Stopped
    ensures |t.workers| == cfg.shards && Left(t.workers[w]) + CountWork(steps, w) <= Left(s.workers[w])
    decreases |steps|
  {
    hide Inv, Apply, Left;
    if steps != [] {
      StepLeaves(cfg, s, steps[0], w);
      StepInv(cfg, s, steps[0]);
      RunLeaves(cfg, Apply(cfg, s, steps[0]), steps[1..], t, w);
    }
  }

  /** stop_workers terminates: with no new submissions a worker being joined takes at most Left steps,
      can take one as long as it has not left, and after that many it has. */
  lemma StopTerminates(cfg: Config, before: seq<Step>, s: State, steps: seq<Step>, t: State, w: nat)
    requires cfg.Valid() && Reachable(cfg, before, s) && s.stop.Joining? && Run(cfg, s, steps, t) && NoSubmit(steps) && w < cfg.shards
    ensures |s.workers| == |t.workers| == cfg.shards && CountWork(steps, w) <= Left(s.workers[w])
    ensures CountWork(steps, w) == Left(s.workers[w]) ==> t.workers[w].pc == Exited
    ensures t.workers[w].pc != Exited && t.stop != Stopped ==> exists step :: IsWork(step, w) && Enabled(cfg, t, step)
  {
    ReachableInv(cfg, before, s);
    RunInv(cfg, s, steps, t);
    RunLeaves(cfg, s, steps, t, w);
    RunKeepsJoining(cfg, s, steps, t);
    StopEnabled(cfg, t, w);
  }

  lemma {:induction false} RunKeepsJoining(cfg: Config, s: State, steps: seq<Step>, t: State)
    requires cfg.Valid() && Run(cfg, s, steps, t) && (s.stop.Joining? || s.stop == Stopped)
    ensures t.stop.Joining? || t.stop == Stopped
    decreases |steps|
  {
    if steps != [] { RunKeepsJoining(cfg, Apply(cfg, s, steps[0]), steps[1..], t); }
  }

  // ---------- order and conservation ----------

  function OfSource(jobs: seq<Job>, source: string): seq<Job> {
    if jobs == [] then []
    else OfSource(jobs[..|jobs| - 1], source) + if jobs[|jobs| - 1].source == source then [jobs[|jobs| - 1]] else []
  }

  lemma OfSourceLast(jobs: seq<Job>, job: Job, source: string)
    ensures OfSource(jobs + [job], source) == OfSource(jobs, source) + if job.source == source then [job] else []
  {
    assert (jobs + [job])[..|jobs|] == jobs;
  }

  lemma {:induction false} OfSourceConcat(a: seq<Job>, b: seq<Job>, source: string)
    ensures OfSource(a + b, source) == OfSource(a, source) + OfSource(b, source)
  {
    if b == [] {
      NoneOfSource(source);
      hide OfSource;
      assert a + b == a;
    } else {
      var rest, last := b[..|b| - 1], b[|b| - 1];
      OfSourceConcat(a, rest, source);
      hide OfSource;
      ConcatLast(a, b);
      OfSourceLast(a + rest, last, source);
      OfSourceLast(rest, last, source);
      ConcatAssociative(OfSource(a, source), OfSource(rest, source), if last.source == source then [last] else []);
    }
  }

  lemma NoneOfSource(source: string)
    ensures OfSource([], source) == []
  {
  }

  lemma {:induction false} ShardKeepsSource(cfg: Config, log: seq<Job>, source: string)
    requires 0 < cfg.shards
    ensures OfSource(OfShard(cfg, log, Shard(cfg, source)), source) == OfSource(log, source)
  {
    if log != [] {
      var rest, last, w := log[..|log| - 1], log[|log| - 1], Shard(cfg, source);
      ShardKeepsSource(cfg, rest, source);
      assert log == rest + [last];
      OfShardAppend(cfg, rest, last, w);
      hide OfSource, OfShard;
      OfSourceLast(rest, last, source);
      if Shard(cfg, last.source) == w {
        OfSourceLast(OfShard(cfg, rest, w), last, source);
      } else {
        assert OfShard(cfg, rest, w) + [] == OfShard(cfg, rest, w);
      }
    }
  }

  /** The jobs that the Submit steps of a run got accepted, in order. */
  ghost function Accepted(cfg: Config, s: State, steps: seq<Step>): seq<Job>
    requires cfg.Valid()
    decreases |steps|
  {
    if steps == [] || |s.workers| != cfg.shards || !Enabled(cfg, s, steps[0]) then []
    else
      (match steps[0]
       case Submit(job, _) => if |s.workers[Shard(cfg, job.source)].queue| >= cfg.capacity then [] else [job]
       case _ => [])
      + Accepted(cfg, Apply(cfg, s, steps[0]), steps[1..])
  }

  lemma StepLog(cfg: Config, s: State, step: Step)
    requires cfg.Valid() && |s.workers| == cfg.shards && Enabled(cfg, s, step)
    ensures var t := Apply(cfg, s, step);
            t.log == s.log + match step
                             case Submit(job, _) => if |s.workers[Shard(cfg, job.source)].queue| >= cfg.capacity then [] else [job]
                             case _ => []
  {
  }

  lemma {:induction false} LogIsAccepted(cfg: Config, s: State, steps: seq<Step>, t: State)
    requires cfg.Valid() && Run(cfg, s, steps, t)
    ensures t.log == s.log + Accepted(cfg, s, steps)
    decreases |steps|
  {
    hide Apply, Enabled;
    if steps == [] {
      assert s.log + [] == s.log;
    } else {
      StepLog(cfg, s, steps[0]);
      LogIsAccepted(cfg, Apply(cfg, s, steps[0]), steps[1..], t);
      var now := match steps[0]
        case Submit(job, _) => if |s.workers[Shard(cfg, job.source)].queue| >= cfg.capacity then [] else [job]
        case _ => [];
      ConcatAssociative(s.log, now, Accepted(cfg, Apply(cfg, s, steps[0]), steps[1..]));
    }
  }

  /** Every source's lines are processed in submission order: what is processed, then in flight, then
      queued is exactly what was accepted from it. */
  lemma SourceOrder(cfg: Config, steps: seq<Step>, s: State, source: string)
    requires cfg.Valid() && Reachable(cfg, steps, s)
    ensures |s.workers| == cfg.shards
    ensures var worker := s.workers[Shard(cfg, source)];
            OfSource(worker.processed, source) + OfSource(InFlight(worker), source) + OfSource(worker.queue, source)
              == OfSource(Accepted(cfg, Start(cfg), steps), source)
  {
    ReachableInv(cfg, steps, s);
    LogIsAccepted(cfg, Start(cfg), steps, s);
    assert s.log == Accepted(cfg, Start(cfg), steps);
    var w := Shard(cfg, source);
    var worker := s.workers[w];
    assert WorkerOk(worker, w, s.stop, s.late, cfg.capacity);
    ShardKeepsSource(cfg, s.log, source);
    OfSourceConcat(worker.processed + InFlight(worker), worker.queue, source);
    OfSourceConcat(worker.processed, InFlight(worker), source);
  }

  function Held(workers: seq<Worker>): nat {
    if workers == [] then 0
    else Held(workers[..|workers| - 1]) +
         var last := workers[|workers| - 1];
         |last.processed| + |InFlight(last)| + |last.queue|
  }

  /** How much of the log the first n shards have. */
  function ShardsLength(cfg: Config, log: seq<Job>, n: nat): nat
    requires 0 < cfg.shards
  {
    if n == 0 then 0 else ShardsLength(cfg, log, n - 1) + |OfShard(cfg, log, n - 1)|
  }

  lemma {:induction false} ShardsAppend(cfg: Config, log: seq<Job>, job: Job, n: nat)
    requires 0 < cfg.shards
    ensures ShardsLength(cfg, log + [job], n) == ShardsLength(cfg, log, n) + if Shard(cfg, job.source) < n then 1 else 0
  {
    if n != 0 {
      ShardsAppend(cfg, log, job, n - 1);
      OfShardAppend(cfg, log, job, n - 1);
    }
  }

  lemma {:induction false} ShardsEmpty(cfg: Config, n: nat)
    requires 0 < cfg.shards
    ensures ShardsLength(cfg, [], n) == 0
  {
    if n != 0 { ShardsEmpty(cfg, n - 1); }
  }

  lemma {:induction false} ShardsCoverLog(cfg: Config, log: seq<Job>)
    requires 0 < cfg.shards
    ensures ShardsLength(cfg, log, cfg.shards) == |log|
  {
    if log == [] {
      ShardsEmpty(cfg, cfg.shards);
    } else {
      var rest := log[..|log| - 1];
      ShardsCoverLog(cfg, rest);
      ShardsAppend(cfg, rest, log[|log| - 1], cfg.shards);
      assert log == rest + [log[|log| - 1]];
    }
  }

  lemma {:induction false} HeldIsShards(cfg: Config, workers: seq<Worker>, log: seq<Job>)
    requires 0 < cfg.shards
    requires forall w :: 0 <= w < |workers| ==> HoldsShard(cfg, workers[w], log, w)
    ensures Held(workers) == ShardsLength(cfg, log, |workers|)
  {
    hide OfShard;
    if workers != [] {
      var n := |workers| - 1;
      HeldIsShards(cfg, workers[..n], log);
      assert HoldsShard(cfg, workers[n], log, n);
    }
  }

  /** A worker has had exactly its shard of the log, and accounts for it. */
  ghost predicate HoldsShard(cfg: Config, worker: Worker, log: seq<Job>, w: nat)
    requires 0 < cfg.shards
  {
    worker.accepted == OfShard(cfg, log, w) && worker.accepted == worker.processed + InFlight(worker) + worker.queue
  }

  /** No line is lost or duplicated, and no queue grows past its capacity. */
  lemma Conservation(cfg: Config, steps: seq<Step>, s: State)
    requires cfg.Valid() && Reachable(cfg, steps, s)
    ensures s.submitted == s.dropped + Held(s.workers)
    ensures forall w :: 0 <= w < |s.workers| ==> |s.workers[w].queue| <= cfg.capacity
  {
    ReachableInv(cfg, steps, s);
    assert forall w :: 0 <= w < cfg.shards ==> WorkerOk(s.workers[w], w, s.stop, s.late, cfg.capacity);
    assert forall w :: 0 <= w < cfg.shards ==> HoldsShard(cfg, s.workers[w], s.log, w);
    HeldIsShards(cfg, s.workers, s.log);
    ShardsCoverLog(cfg, s.log);
  }

  // ---------- flush and stop ----------

  lemma {:induction false} RunKeepsFlusher(cfg: Config, s: State, steps: seq<Step>, t: State, f: nat)
    requires cfg.Valid() && Run(cfg, s, steps, t) && f in s.flushers
    ensures f in t.flushers && t.flushers[f].mark == s.flushers[f].mark && s.log <= t.log
    decreases |steps|
  {
    if steps != [] {
      StepLog(cfg, s, steps[0]);
      RunKeepsFlusher(cfg, Apply(cfg, s, steps[0]), steps[1..], t, f);
    }
  }

  /** When a flush() that no stop cut short has returned, every line accepted before it began is
      processed, however many more came in meanwhile. */
  lemma FlushCovers(cfg: Config, before: seq<Step>, s: State, f: nat, steps: seq<Step>, t: State, w: nat)
    requires cfg.Valid() && Reachable(cfg, before, s) && |s.workers| == cfg.shards
    requires Enabled(cfg, s, FlushStart(f)) && Run(cfg, Apply(cfg, s, FlushStart(f)), steps, t)
    requires f in t.flushers && t.flushers[f].at == cfg.shards && (t.stop == NotStopping || !t.flushers[f].sawStop)
    requires w < cfg.shards
    ensures |t.workers| == cfg.shards
    ensures OfShard(cfg, s.log, w) <= t.workers[w].processed
  {
    ReachableInv(cfg, before, s);
    var s' := Apply(cfg, s, FlushStart(f));
    StepInv(cfg, s, FlushStart(f));
    RunInv(cfg, s', steps, t);
    RunKeepsFlusher(cfg, s', steps, t, f);
    assert FlusherOk(cfg, t.flushers[f], t.workers, t.stop, t.log);
    assert t.log[..|s.log|] == s.log;
  }

  lemma {:induction false} LateOnlyAfterStop(cfg: Config, s: State, steps: seq<Step>, t: State)
    requires cfg.Valid() && Run(cfg, s, steps, t) && (s.late ==> s.stop != NotStopping)
    ensures t.late ==> t.stop != NotStopping
    decreases |steps|
  {
    if steps != [] { LateOnlyAfterStop(cfg, Apply(cfg, s, steps[0]), steps[1..], t); }
  }

  /** With the producers quiesced before the stop, once all workers have left nothing accepted is
      unprocessed. */
  lemma StopDrains(cfg: Config, before: seq<Step>, s: State, steps: seq<Step>, t: State, w: nat)
    requires cfg.Valid() && Reachable(cfg, before, s) && s.stop == NotStopping
    requires Run(cfg, s, steps, t) && NoSubmit(steps)
    requires |t.workers| == cfg.shards && forall v :: 0 <= v < cfg.shards ==> t.workers[v].pc == Exited
    requires w < cfg.shards
    ensures t.workers[w].processed == t.workers[w].accepted == OfShard(cfg, s.log, w)
  {
    ReachableInv(cfg, before, s);
    LateOnlyAfterStop(cfg, Start(cfg), before, s);
    RunInv(cfg, s, steps, t);
    RunWorks(cfg, s, steps, t, w);
    NoSubmitKeepsLog(cfg, s, steps, t);
    assert WorkerOk(t.workers[w], w, t.stop, t.late, cfg.capacity);
  }

  lemma {:induction false} NoSubmitKeepsLog(cfg: Config, s: State, steps: seq<Step>, t: State)
    requires cfg.Valid() && Run(cfg, s, steps, t) && NoSubmit(steps)
    ensures t.log == s.log
    decreases |steps|
  {
    if steps != [] {
      StepLog(cfg, s, steps[0]);
      NoSubmitKeepsLog(cfg, Apply(cfg, s, steps[0]), steps[1..], t);
    }
  }
}
