/** The asynchronous pipeline: sharded bounded queues, one worker per shard, any number of producers
    and flushers, one stopper. A step is what one thread does atomically: one critical section, or
    one notification outside the lock. Each worker has one condition variable, on which the worker
    itself and the flushers sleep. */
module WorkerQueues {
  import opened Basics

  datatype Job = Job(source: string, line: string)

  /** hash stands for std::hash. */
  datatype Config = Config(shards: nat, capacity: nat, hash: string -> nat) {
    ghost predicate Valid() {
      0 < shards && 0 < capacity
    }
  }

  /** Checking: about to lock and evaluate the wait predicate, on entry or after a wake-up.
      Waiting: in the wait set. Running: processing a job. Ran: processed, busy not yet cleared.
      Notifying: busy cleared and unlocked, notify_all still to come. */
  datatype Pc = Checking | Waiting | Running(job: Job) | Ran | Notifying | Exited

  /** accepted and processed are histories: what was ever queued, and what was ever completed. */
  datatype Worker = Worker(queue: seq<Job>, busy: bool, stopping: bool, pc: Pc, accepted: seq<Job>, processed: seq<Job>)

  /** A flush() call: the worker it is at, whether it sleeps there, the length of the acceptance log
      when it began, and whether it passed some worker because of a stop. */
  datatype Flusher = Flusher(at: nat, asleep: bool, mark: nat, sawStop: bool)

  /** stop_workers(): about to set worker i's flag, about to notify it, joining it, finished. */
  datatype Stop = NotStopping | Setting(i: nat) | Announcing(i: nat) | Joining(i: nat) | Stopped

  /** log lists every accepted job in order; late says that a job was queued after the stop began. */
  datatype State = State(workers: seq<Worker>, flushers: map<nat, Flusher>, stop: Stop,
                         submitted: nat, dropped: nat, log: seq<Job>, late: bool)

  datatype Waiter = TheWorker | TheFlusher(id: nat)

  /** The waiter carried by Submit is the scheduler's choice for notify_one. */
  datatype Step =
    | Submit(job: Job, wake: Option<Waiter>)
    | WorkerCheck(w: nat) | WorkerProcess(w: nat) | WorkerClear(w: nat) | WorkerNotify(w: nat) | WorkerSpurious(w: nat)
    | FlushStart(f: nat) | FlushCheck(f: nat) | FlushSpurious(f: nat)
    | StopBegin | StopNext

  // ---------- the transition system ----------

  /** start_workers: no threads, no asynchronous mode; capacity 0 means 1. */
  function StartWorkers(threads: nat, capacity: nat, hash: string -> nat): (r: Option<Config>)
    ensures r == None <==> threads == 0
    ensures r.Some? ==> r.value.Valid() && Inv(r.value, Start(r.value))
    ensures r.Some? ==> r.value.shards == threads && r.value.hash == hash && (capacity > 0 ==> r.value.capacity == capacity)
  {
    if threads == 0 then None else Some(Config(threads, if capacity == 0 then 1 else capacity, hash))
  }

  function Start(cfg: Config): State {
    State(seq(cfg.shards, _ => Worker([], false, false, Checking, [], [])), map[], NotStopping, 0, 0, [], false)
  }

  function Shard(cfg: Config, source: string): (w: nat)
    requires 0 < cfg.shards
    ensures w < cfg.shards
  {
    cfg.hash(source) % cfg.shards
  }

  ghost predicate Sleeping(s: State, w: nat, waiter: Waiter)
    requires w < |s.workers|
  {
    match waiter
    case TheWorker => s.workers[w].pc == Waiting
    case TheFlusher(f) => f in s.flushers && s.flushers[f].asleep && s.flushers[f].at == w
  }

  /** notify_one wakes one sleeper if there is any. */
  ghost predicate Wakeable(s: State, w: nat, wake: Option<Waiter>)
    requires w < |s.workers|
  {
    match wake
    case None => forall waiter :: !Sleeping(s, w, waiter)
    case Some(waiter) => Sleeping(s, w, waiter)
  }

  function WithWorker(s: State, w: nat, worker: Worker): State
    requires w < |s.workers|
  {
    s.(workers := s.workers[w := worker])
  }

  function WakeOne(s: State, w: nat, wake: Option<Waiter>): State
    requires w < |s.workers|
  {
    match wake
    case None => s
    case Some(TheWorker) => WithWorker(s, w, s.workers[w].(pc := Checking))
    case Some(TheFlusher(f)) => if f in s.flushers then s.(flushers := s.flushers[f := s.flushers[f].(asleep := false)]) else s
  }

  /** notify_all empties the wait set of worker w's condition variable. */
  function WakeAll(s: State, w: nat): State
    requires w < |s.workers|
  {
    var worker := s.workers[w];
    var awake := if worker.pc == Waiting then worker.(pc := Checking) else worker;
    WithWorker(s, w, awake).(flushers := map f | f in s.flushers ::
      if s.flushers[f].at == w then s.flushers[f].(asleep := false) else s.flushers[f])
  }

  ghost predicate Enabled(cfg: Config, s: State, step: Step)
    requires cfg.Valid() && |s.workers| == cfg.shards
  {
    && s.stop != Stopped
    && match step
       case Submit(job, wake) =>
         var w := Shard(cfg, job.source);
         if |s.workers[w].queue| >= cfg.capacity then wake == None else Wakeable(s, w, wake)
       case WorkerCheck(w) => w < cfg.shards && s.workers[w].pc == Checking
       case WorkerProcess(w) => w < cfg.shards && s.workers[w].pc.Running?
       case WorkerClear(w) => w < cfg.shards && s.workers[w].pc == Ran
       case WorkerNotify(w) => w < cfg.shards && s.workers[w].pc == Notifying
       case WorkerSpurious(w) => w < cfg.shards && s.workers[w].pc == Waiting
       case FlushStart(f) => f !in s.flushers
       case FlushCheck(f) => f in s.flushers && !s.flushers[f].asleep && s.flushers[f].at < cfg.shards
       case FlushSpurious(f) => f in s.flushers && s.flushers[f].asleep
       case StopBegin => s.stop == NotStopping
       case StopNext =>
         match s.stop
         case NotStopping => false
         case Setting(i) => i <= cfg.shards
         case Announcing(i) => i < cfg.shards
         case Joining(i) => i <= cfg.shards && (i < cfg.shards ==> s.workers[i].pc == Exited)
         case Stopped => false
  }

  /** The critical section of process_raw: drop when full, else queue and notify one. */
  function Enqueue(cfg: Config, s: State, job: Job, wake: Option<Waiter>): State
    requires cfg.Valid() && |s.workers| == cfg.shards
  {
    var w := Shard(cfg, job.source);
    var worker := s.workers[w];
    if |worker.queue| >= cfg.capacity then s.(submitted := s.submitted + 1, dropped := s.dropped + 1)
    else
      var queued := worker.(queue := worker.queue + [job], accepted := worker.accepted + [job]);
      WakeOne(WithWorker(s, w, queued).(submitted := s.submitted + 1, log := s.log + [job],
                                        late := s.late || s.stop != NotStopping), w, wake)
  }

  /** The first critical section of worker_loop: pop, leave, or sleep. */
  function Check(worker: Worker): Worker {
    if worker.queue != [] then worker.(queue := worker.queue[1..], busy := true, pc := Running(worker.queue[0]))
    else if worker.stopping then worker.(pc := Exited)
    else worker.(pc := Waiting)
  }

  predicate FlushDone(worker: Worker) {
    (worker.queue == [] && !worker.busy) || worker.stopping
  }

  function FlushAt(flusher: Flusher, worker: Worker): Flusher {
    if FlushDone(worker) then flusher.(at := flusher.at + 1, sawStop := flusher.sawStop || worker.stopping)
    else flusher.(asleep := true)
  }

  ghost function Apply(cfg: Config, s: State, step: Step): State
    requires cfg.Valid() && |s.workers| == cfg.shards && Enabled(cfg, s, step)
  {
    match step
    case Submit(job, wake) => Enqueue(cfg, s, job, wake)
    case WorkerCheck(w) => WithWorker(s, w, Check(s.workers[w]))
    case WorkerProcess(w) =>
      var worker := s.workers[w];
      WithWorker(s, w, worker.(pc := Ran, processed := worker.processed + [worker.pc.job]))
    case WorkerClear(w) => WithWorker(s, w, s.workers[w].(pc := Notifying, busy := false))
    case WorkerNotify(w) => WakeAll(WithWorker(s, w, s.workers[w].(pc := Checking)), w)
    case WorkerSpurious(w) => WithWorker(s, w, s.workers[w].(pc := Checking))
    case FlushStart(f) => s.(flushers := s.flushers[f := Flusher(0, false, |s.log|, false)])
    case FlushCheck(f) => s.(flushers := s.flushers[f := FlushAt(s.flushers[f], s.workers[s.flushers[f].at])])
    case FlushSpurious(f) => s.(flushers := s.flushers[f := s.flushers[f].(asleep := false)])
    case StopBegin => s.(stop := Setting(0))
    case StopNext =>
      match s.stop
      case Setting(i) =>
        if i < cfg.shards then WithWorker(s, i, s.workers[i].(stopping := true)).(stop := Announcing(i))
        else s.(stop := Joining(0))
      case Announcing(i) => WakeAll(s, i).(stop := Setting(i + 1))
      case Joining(i) => s.(stop := if i < cfg.shards then Joining(i + 1) else Stopped)
      case _ => s
  }

  /** The states of a run: each step was enabled. */
  ghost predicate Run(cfg: Config, s: State, steps: seq<Step>, t: State)
    requires cfg.Valid()
    decreases |steps|
  {
    |s.workers| == cfg.shards &&
    if steps == [] then s == t
    else Enabled(cfg, s, steps[0]) && Run(cfg, Apply(cfg, s, steps[0]), steps[1..], t)
  }

  // ---------- the invariant ----------

  function InFlight(worker: Worker): seq<Job> {
    if worker.pc.Running? then [worker.pc.job] else []
  }

  predicate FlagSet(stop: Stop, w: nat) {
    match stop
    case NotStopping => false
    case Setting(i) => w < i
    case Announcing(i) => w <= i
    case _ => true
  }

  ghost predicate WorkerOk(worker: Worker, w: nat, stop: Stop, late: bool, capacity: nat) {
    && |worker.queue| <= capacity
    && worker.accepted == worker.processed + InFlight(worker) + worker.queue
    && (worker.busy <==> worker.pc.Running? || worker.pc == Ran)
    && (worker.stopping <==> FlagSet(stop, w))
    && (worker.pc == Waiting ==> worker.queue == [] && (worker.stopping ==> stop == Announcing(w)))
    && (worker.pc == Exited ==> worker.stopping && (late || worker.queue == []))
  }

  /** The jobs of a log that belong to one shard. */
  function OfShard(cfg: Config, log: seq<Job>, w: nat): (r: seq<Job>)
    requires 0 < cfg.shards
  {
    if log == [] then []
    else OfShard(cfg, log[..|log| - 1], w) +
         if Shard(cfg, log[|log| - 1].source) == w then [log[|log| - 1]] else []
  }

  /** A sleeping flusher has a reason to be woken: work queued or running or a notify_all to come. */
  ghost predicate SleepOk(flusher: Flusher, workers: seq<Worker>, stop: Stop) {
    flusher.asleep ==>
      && flusher.at < |workers|
      && var worker := workers[flusher.at];
      && (worker.queue != [] || worker.busy || worker.pc == Notifying)
      && worker.pc != Waiting && worker.pc != Exited
      && (worker.stopping ==> stop == Announcing(flusher.at))
  }

  /** Unless it passed on a stop, everything accepted before the flush began on the shards it has
      passed is processed. */
  ghost predicate Accounted(cfg: Config, flusher: Flusher, workers: seq<Worker>, log: seq<Job>)
    requires cfg.Valid()
  {
    && flusher.at <= cfg.shards == |workers| && flusher.mark <= |log|
    && (!flusher.sawStop ==> forall w :: 0 <= w < flusher.at ==> OfShard(cfg, log[..flusher.mark], w) <= workers[w].processed)
  }

  ghost predicate FlusherOk(cfg: Config, flusher: Flusher, workers: seq<Worker>, stop: Stop, log: seq<Job>)
    requires cfg.Valid()
  {
    && SleepOk(flusher, workers, stop) && Accounted(cfg, flusher, workers, log)
    && (flusher.sawStop ==> stop != NotStopping)
  }

  ghost predicate ProcessedGrows(before: seq<Worker>, after: seq<Worker>) {
    |before| == |after| && forall w :: 0 <= w < |before| ==> before[w].processed <= after[w].processed
  }

  lemma AccountedKept(cfg: Config, flusher: Flusher, awake: bool, before: seq<Worker>, after: seq<Worker>, log: seq<Job>, more: seq<Job>)
    requires cfg.Valid() && Accounted(cfg, flusher, before, log) && ProcessedGrows(before, after)
    ensures Accounted(cfg, flusher.(asleep := awake), after, log + more)
  {
    assert (log + more)[..flusher.mark] == log[..flusher.mark];
    forall w | 0 <= w < flusher.at && !flusher.sawStop
      ensures OfShard(cfg, log[..flusher.mark], w) <= after[w].processed
    {
      assert OfShard(cfg, log[..flusher.mark], w) <= before[w].processed <= after[w].processed;
    }
  }

  ghost predicate Inv(cfg: Config, s: State)
    requires cfg.Valid()
  {
    && |s.workers| == cfg.shards
    && (forall w :: 0 <= w < cfg.shards ==>
          WorkerOk(s.workers[w], w, s.stop, s.late, cfg.capacity) && s.workers[w].accepted == OfShard(cfg, s.log, w))
    && (forall f :: f in s.flushers ==> FlusherOk(cfg, s.flushers[f], s.workers, s.stop, s.log))
    && s.submitted == s.dropped + |s.log|
  }

  lemma {:induction false} OfShardGrows(cfg: Config, log: seq<Job>, n: nat, w: nat)
    requires 0 < cfg.shards && n <= |log|
    ensures OfShard(cfg, log[..n], w) <= OfShard(cfg, log, w)
    decreases |log|
  {
    if n < |log| {
      OfShardGrows(cfg, log[..|log| - 1], n, w);
      assert log[..|log| - 1][..n] == log[..n];
    } else {
      assert log[..n] == log;
    }
  }

  lemma OfShardAppend(cfg: Config, log: seq<Job>, job: Job, w: nat)
    requires 0 < cfg.shards
    ensures OfShard(cfg, log + [job], w) == OfShard(cfg, log, w) + if Shard(cfg, job.source) == w then [job] else []
  {
    assert (log + [job])[..|log|] == log;
  }

  lemma StartInv(cfg: Config)
    requires cfg.Valid()
    ensures Inv(cfg, Start(cfg))
  {
  }

  /** A sleeping flusher keeps its reason when its worker keeps one. */
  ghost predicate KeepsFlushers(before: Worker, after: Worker) {
    && before.processed <= after.processed
    && (before.queue != [] || before.busy || before.pc == Notifying ==> after.queue != [] || after.busy || after.pc == Notifying)
    && (before.pc != Waiting && before.pc != Exited && (before.queue != [] || before.busy || before.pc == Notifying) ==>
          after.pc != Waiting && after.pc != Exited)
    && (after.stopping ==> before.stopping)
  }

  /** Changing one worker alone. */
  lemma ChangeWorker(cfg: Config, s: State, w: nat, worker: Worker)
    requires cfg.Valid() && Inv(cfg, s) && w < cfg.shards
    requires WorkerOk(worker, w, s.stop, s.late, cfg.capacity) && worker.accepted == s.workers[w].accepted
    requires KeepsFlushers(s.workers[w], worker)
    ensures Inv(cfg, WithWorker(s, w, worker))
  {
    hide OfShard, Accounted;
    var t := WithWorker(s, w, worker);
    forall f | f in t.flushers
      ensures FlusherOk(cfg, t.flushers[f], t.workers, t.stop, t.log)
    {
      var flusher := s.flushers[f];
      assert FlusherOk(cfg, flusher, s.workers, s.stop, s.log);
      AccountedKept(cfg, flusher, flusher.asleep, s.workers, t.workers, s.log, []);
      assert s.log + [] == s.log;
    }
  }

  /** Changing one flusher alone. */
  lemma ChangeFlusher(cfg: Config, s: State, f: nat, flusher: Flusher)
    requires cfg.Valid() && Inv(cfg, s)
    requires FlusherOk(cfg, flusher, s.workers, s.stop, s.log)
    ensures Inv(cfg, s.(flushers := s.flushers[f := flusher]))
  {
  }

  lemma CheckInv(cfg: Config, s: State, w: nat)
    requires cfg.Valid() && Inv(cfg, s) && Enabled(cfg, s, WorkerCheck(w))
    ensures Inv(cfg, Apply(cfg, s, WorkerCheck(w)))
  {
    var worker := s.workers[w];
    assert WorkerOk(worker, w, s.stop, s.late, cfg.capacity);
    if worker.queue != [] { assert worker.queue == [worker.queue[0]] + worker.queue[1..]; }
    ChangeWorker(cfg, s, w, Check(worker));
  }

  lemma OtherWorkerStepsInv(cfg: Config, s: State, step: Step)
    requires cfg.Valid() && Inv(cfg, s) && Enabled(cfg, s, step)
    requires step.WorkerProcess? || step.WorkerClear? || step.WorkerSpurious?
    ensures Inv(cfg, Apply(cfg, s, step))
  {
    assert WorkerOk(s.workers[step.w], step.w, s.stop, s.late, cfg.capacity);
    ChangeWorker(cfg, s, step.w, Apply(cfg, s, step).workers[step.w]);
  }

  /** Emptying the wait set of a worker, its own pc and the stopper moving on as they may. */
  lemma WakeAllInv(cfg: Config, s: State, w: nat, pc: Pc, stop: Stop)
    requires cfg.Valid() && Inv(cfg, s) && w < cfg.shards
    requires pc == s.workers[w].pc || (s.workers[w].pc == Notifying && pc == Checking)
    requires stop == s.stop || (s.stop == Announcing(w) && stop == Setting(w + 1))
    ensures Inv(cfg, WakeAll(WithWorker(s, w, s.workers[w].(pc := pc)), w).(stop := stop))
  {
    hide OfShard, Accounted, WorkerOk, SleepOk;
    var t := WakeAll(WithWorker(s, w, s.workers[w].(pc := pc)), w).(stop := stop);
    forall v | 0 <= v < cfg.shards
      ensures WorkerOk(t.workers[v], v, t.stop, t.late, cfg.capacity) && t.workers[v].accepted == OfShard(cfg, t.log, v)
    {
      WokenWorkerOk(s.workers[v], v, t.workers[v].pc, w, s.stop, stop, s.late, cfg.capacity);
    }
    forall f | f in t.flushers
      ensures FlusherOk(cfg, t.flushers[f], t.workers, t.stop, t.log)
    {
      var flusher := s.flushers[f];
      assert FlusherOk(cfg, flusher, s.workers, s.stop, s.log);
      AccountedKept(cfg, flusher, t.flushers[f].asleep, s.workers, t.workers, s.log, []);
      assert s.log + [] == s.log;
      OthersSleepOn(flusher, s.workers, t.workers, w, s.stop, stop);
    }
  }

  lemma WokenWorkerOk(worker: Worker, v: nat, pc: Pc, w: nat, before: Stop, after: Stop, late: bool, capacity: nat)
    requires WorkerOk(worker, v, before, late, capacity)
    requires if v == w then pc != Waiting && (pc == worker.pc || (worker.pc == Notifying && pc == Checking) || (worker.pc == Waiting && pc == Checking))
             else pc == worker.pc
    requires after == before || (before == Announcing(w) && after == Setting(w + 1))
    ensures WorkerOk(worker.(pc := pc), v, after, late, capacity)
  {
  }

  lemma OthersSleepOn(flusher: Flusher, before: seq<Worker>, after: seq<Worker>, w: nat, stop: Stop, next: Stop)
    requires SleepOk(flusher, before, stop) && |after| == |before|
    requires forall v :: 0 <= v < |before| && v != w ==> after[v] == before[v]
    requires next == stop || (stop == Announcing(w) && next == Setting(w + 1))
    ensures SleepOk(if flusher.at == w then flusher.(asleep := false) else flusher, after, next)
  {
  }

  /** The stopper sets a flag, moves between phases or joins. */
  lemma StopInv(cfg: Config, s: State, step: Step)
    requires cfg.Valid() && Inv(cfg, s) && Enabled(cfg, s, step)
    requires step.StopBegin? || (step.StopNext? && !s.stop.Announcing?)
    ensures Inv(cfg, Apply(cfg, s, step))
  {
    hide OfShard, Accounted, FlushAt, Check, WakeOne, WakeAll, Enqueue, Wakeable, Sleeping;
    var t := Apply(cfg, s, step);
    forall v | 0 <= v < cfg.shards
      ensures WorkerOk(t.workers[v], v, t.stop, t.late, cfg.capacity) && t.workers[v].accepted == OfShard(cfg, t.log, v)
      ensures SleepKept(v, s.workers[v], t.workers[v], s.stop, t.stop)
    {
      assert WorkerOk(s.workers[v], v, s.stop, s.late, cfg.capacity);
    }
    hide WorkerOk;
    forall f | f in t.flushers
      ensures FlusherOk(cfg, t.flushers[f], t.workers, t.stop, t.log)
    {
      var flusher := s.flushers[f];
      assert FlusherOk(cfg, flusher, s.workers, s.stop, s.log);
      AccountedKept(cfg, flusher, flusher.asleep, s.workers, t.workers, s.log, []);
      assert s.log + [] == s.log;
      assert flusher.asleep ==> SleepKept(flusher.at, s.workers[flusher.at], t.workers[flusher.at], s.stop, t.stop);
    }
  }

  /** The stopper does not take away a sleeper's reason. */
  ghost predicate SleepKept(v: nat, before: Worker, after: Worker, stop: Stop, next: Stop) {
    && before.queue == after.queue && before.busy == after.busy && before.pc == after.pc && before.processed == after.processed
    && ((before.stopping ==> stop == Announcing(v)) ==> (after.stopping ==> next == Announcing(v)))
  }

  lemma FlushInv(cfg: Config, s: State, step: Step)
    requires cfg.Valid() && Inv(cfg, s) && Enabled(cfg, s, step)
    requires step.FlushStart? || step.FlushCheck? || step.FlushSpurious?
    ensures Inv(cfg, Apply(cfg, s, step))
  {
    hide WorkerOk, OfShard, Wakeable;
    match step
    case FlushStart(f) => ChangeFlusher(cfg, s, f, Flusher(0, false, |s.log|, false));
    case FlushSpurious(f) =>
      assert FlusherOk(cfg, s.flushers[f], s.workers, s.stop, s.log);
      ChangeFlusher(cfg, s, f, s.flushers[f].(asleep := false));
    case FlushCheck(f) => FlushCheckInv(cfg, s, f);
    case _ =>
  }

  lemma FlushCheckInv(cfg: Config, s: State, f: nat)
    requires cfg.Valid() && Inv(cfg, s) && Enabled(cfg, s, FlushCheck(f))
    ensures Inv(cfg, Apply(cfg, s, FlushCheck(f)))
  {
    hide Wakeable, OfShard;
    var flusher := s.flushers[f];
    var w := flusher.at;
    assert FlusherOk(cfg, flusher, s.workers, s.stop, s.log);
    assert WorkerOk(s.workers[w], w, s.stop, s.late, cfg.capacity);
    if FlushDone(s.workers[w]) && !s.workers[w].stopping {
      OfShardGrows(cfg, s.log, flusher.mark, w);
      assert s.workers[w].accepted == s.workers[w].processed;
    }
    ChangeFlusher(cfg, s, f, FlushAt(flusher, s.workers[w]));
  }

  /** The heart of the matter: when a job arrives at a sleeping worker, no flusher sleeps on the same
      condition variable, so notify_one cannot go to the wrong thread. */
  lemma NotifyReachesWorker(cfg: Config, s: State, w: nat, wake: Option<Waiter>)
    requires cfg.Valid() && Inv(cfg, s) && w < cfg.shards && s.workers[w].pc == Waiting && Wakeable(s, w, wake)
    ensures wake == Some(TheWorker)
  {
    assert Sleeping(s, w, TheWorker);
    assert WorkerOk(s.workers[w], w, s.stop, s.late, cfg.capacity);
    forall f | f in s.flushers
      ensures !Sleeping(s, w, TheFlusher(f))
    {
      assert FlusherOk(cfg, s.flushers[f], s.workers, s.stop, s.log);
    }
    assert wake.Some? && wake.value == TheWorker;
  }

  lemma QueuedOk(worker: Worker, w: nat, job: Job, pc: Pc, stop: Stop, late: bool, capacity: nat)
    requires WorkerOk(worker, w, stop, late, capacity) && |worker.queue| < capacity
    requires pc == if worker.pc == Waiting then Checking else worker.pc
    ensures WorkerOk(worker.(queue := worker.queue + [job], accepted := worker.accepted + [job], pc := pc), w, stop,
                     late || stop != NotStopping, capacity)
  {
  }

  lemma LateOk(worker: Worker, w: nat, stop: Stop, late: bool, later: bool, capacity: nat)
    requires WorkerOk(worker, w, stop, late, capacity) && (late ==> later)
    ensures WorkerOk(worker, w, stop, later, capacity)
  {
  }

  /** A flusher, woken or not, when its worker's queue has grown and the worker is awake. */
  lemma SleepOnQueue(flusher: Flusher, awake: Flusher, before: seq<Worker>, after: seq<Worker>, w: nat, job: Job, stop: Stop)
    requires SleepOk(flusher, before, stop) && w < |before| == |after|
    requires awake == flusher || awake == flusher.(asleep := false)
    requires forall v :: 0 <= v < |before| && v != w ==> after[v] == before[v]
    requires after[w].queue == before[w].queue + [job] && after[w].busy == before[w].busy && after[w].stopping == before[w].stopping
    requires before[w].pc != Waiting ==> after[w].pc == before[w].pc
    ensures SleepOk(awake, after, stop)
  {
  }

  lemma SubmitInv(cfg: Config, s: State, job: Job, wake: Option<Waiter>)
    requires cfg.Valid() && Inv(cfg, s) && Enabled(cfg, s, Submit(job, wake))
    ensures Inv(cfg, Enqueue(cfg, s, job, wake))
  {
    hide OfShard, Accounted, WorkerOk, SleepOk;
    var w := Shard(cfg, job.source);
    var worker := s.workers[w];
    if |worker.queue| >= cfg.capacity { return; }
    QueuedShape(cfg, s, job, wake);
    hide Enqueue, Wakeable;
    var t := Enqueue(cfg, s, job, wake);
    forall v | 0 <= v < cfg.shards
      ensures WorkerOk(t.workers[v], v, t.stop, t.late, cfg.capacity) && t.workers[v].accepted == OfShard(cfg, t.log, v)
    {
      OfShardAppend(cfg, s.log, job, v);
      if v == w { QueuedOk(worker, w, job, t.workers[w].pc, s.stop, s.late, cfg.capacity); }
      else { LateOk(s.workers[v], v, s.stop, s.late, t.late, cfg.capacity); }
    }
    forall f | f in t.flushers
      ensures FlusherOk(cfg, t.flushers[f], t.workers, t.stop, t.log)
    {
      var flusher := s.flushers[f];
      assert FlusherOk(cfg, flusher, s.workers, s.stop, s.log);
      AccountedKept(cfg, flusher, t.flushers[f].asleep, s.workers, t.workers, s.log, [job]);
      SleepOnQueue(flusher, t.flushers[f], s.workers, t.workers, w, job, s.stop);
    }
  }

  /** What queueing changes; in particular the worker never sleeps on. */
  lemma QueuedShape(cfg: Config, s: State, job: Job, wake: Option<Waiter>)
    requires cfg.Valid() && Inv(cfg, s) && Enabled(cfg, s, Submit(job, wake))
    requires |s.workers[Shard(cfg, job.source)].queue| < cfg.capacity
    ensures var t, w := Enqueue(cfg, s, job, wake), Shard(cfg, job.source);
            var worker := s.workers[w];
            && t.workers == s.workers[w := worker.(queue := worker.queue + [job], accepted := worker.accepted + [job],
                                                   pc := if worker.pc == Waiting then Checking else worker.pc)]
            && t.flushers.Keys == s.flushers.Keys
            && (forall f :: f in t.flushers ==> t.flushers[f] == s.flushers[f] || t.flushers[f] == s.flushers[f].(asleep := false))
            && t.stop == s.stop && t.log == s.log + [job] && t.late == (s.late || s.stop != NotStopping)
            && t.submitted == s.submitted + 1 && t.dropped == s.dropped
  {
    hide WorkerOk, FlusherOk, OfShard;
    var w := Shard(cfg, job.source);
    if s.workers[w].pc == Waiting { NotifyReachesWorker(cfg, s, w, wake); }
  }

  lemma SameWorker(s: State, w: nat)
    requires w < |s.workers|
    ensures WithWorker(s, w, s.workers[w].(pc := s.workers[w].pc)) == s
  {
  }

  lemma StepInv(cfg: Config, s: State, step: Step)
    requires cfg.Valid() && Inv(cfg, s) && Enabled(cfg, s, step)
    ensures Inv(cfg, Apply(cfg, s, step))
  {
    hide Wakeable, WorkerOk, FlusherOk, OfShard;
    match step
    case Submit(job, wake) => SubmitInv(cfg, s, job, wake);
    case WorkerCheck(w) => CheckInv(cfg, s, w);
    case WorkerNotify(w) => WakeAllInv(cfg, s, w, Checking, s.stop);
    case StopNext =>
      if s.stop.Announcing? { SameWorker(s, s.stop.i); WakeAllInv(cfg, s, s.stop.i, s.workers[s.stop.i].pc, Setting(s.stop.i + 1)); }
      else { StopInv(cfg, s, step); }
    case StopBegin => StopInv(cfg, s, step);
    case FlushStart(_) => FlushInv(cfg, s, step);
    case FlushCheck(_) => FlushInv(cfg, s, step);
    case FlushSpurious(_) => FlushInv(cfg, s, step);
    case _ => OtherWorkerStepsInv(cfg, s, step);
  }

  lemma {:induction false} RunInv(cfg: Config, s: State, steps: seq<Step>, t: State)
    requires cfg.Valid() && Inv(cfg, s) && Run(cfg, s, steps, t)
    ensures Inv(cfg, t)
    decreases |steps|
  {
    if steps != [] {
      StepInv(cfg, s, steps[0]);
      RunInv(cfg, Apply(cfg, s, steps[0]), steps[1..], t);
    }
  }

  /** What submitting a line does, in the terms of start_workers: it goes to the end of the queue that
      its source hashes to, if that is below the capacity given (or one), and is counted as dropped
      otherwise; no other queue changes. */
  lemma SubmitQueues(cfg: Config, threads: nat, capacity: nat, hash: string -> nat, s: State, job: Job, wake: Option<Waiter>)
    requires StartWorkers(threads, capacity, hash) == Some(cfg) && Inv(cfg, s) && Enabled(cfg, s, Submit(job, wake))
    ensures threads > 0
    ensures var t, w := Apply(cfg, s, Submit(job, wake)), hash(job.source) % threads;
            && |s.workers| == |t.workers| == threads && t.submitted == s.submitted + 1
            && (forall v :: 0 <= v < threads && v != w ==> t.workers[v] == s.workers[v])
            && (if |s.workers[w].queue| < (if capacity > 0 then capacity else 1)
                then t.workers[w].queue == s.workers[w].queue + [job] && t.log == s.log + [job] && t.dropped == s.dropped
                else t.workers == s.workers && t.log == s.log && t.dropped == s.dropped + 1)
  {
    if |s.workers[Shard(cfg, job.source)].queue| < cfg.capacity { QueuedShape(cfg, s, job, wake); }
    hide Inv, Wakeable;
  }
}
