/** The thread pool as a system of interleaved steps. */
module ThreadPool {
  // Workers and flushing clients wait on one condition variable.  A change of the queue is made under
  // its lock, but the notification that goes with it is sent after the lock has been released, so
  // other steps may come between.

  type Task = nat

  datatype Worker =
    | Head                  // before taking the queue lock
    | Blocked               // waiting on the condition variable
    | Woken                 // notified, must take the lock again and re-check
    | Running(task: Task)
    | Done                  // task counted as finished, notification to all still to be sent
    | Exited

  datatype Client =
    | Ready
    | Pushed                // task is in the queue, notification to one still to be sent
    | Flushing              // inside flushQueue, waiting on the condition variable
    | Recheck               // inside flushQueue, notified

  datatype Stopper = Up | Closing | Joining | Stopped

  /** `scheduled` counts the tasks ever scheduled; task k is the k-th of them.  `started` and `finished`
      are history. */
  datatype Pool = Pool(workers: seq<Worker>, clients: seq<Client>, queue: seq<Task>, runningTasks: int,
                       online: bool, stopper: Stopper,
                       scheduled: nat, started: seq<Task>, finished: set<Task>)

  datatype Step =
    | Take(w: nat)               // worker at the head or woken takes the lock
    | Finish(w: nat)             // the task returns and is counted
    | NotifyAll(w: nat)
    | Exit(w: nat)
    | Schedule(c: nat)
    | NotifyWorker(c: nat, w: nat)
    | NotifyFlusher(c: nat, f: nat)
    | NotifyNobody(c: nat)
    | Flush(c: nat)              // client enters flushQueue or re-checks
    | SpuriousWorker(w: nat)
    | SpuriousClient(c: nat)
    | Shutdown
    | StopNotify                 // stop wakes everybody waiting on the queue
    | StopWoken                  // a worker has exited
    | StopDone

  predicate NobodyWaits(s: Pool) {
    && (forall w :: 0 <= w < |s.workers| ==> !s.workers[w].Blocked?)
    && (forall c :: 0 <= c < |s.clients| ==> !s.clients[c].Flushing?)
  }

  function WakeWorkers(ws: seq<Worker>): seq<Worker> {
    seq(|ws|, i requires 0 <= i < |ws| => if ws[i].Blocked? then Woken else ws[i])
  }

  function WakeClients(cs: seq<Client>): seq<Client> {
    seq(|cs|, i requires 0 <= i < |cs| => if cs[i].Flushing? then Recheck else cs[i])
  }

  predicate Enabled(s: Pool, e: Step) {
    match e
    case Take(w) => w < |s.workers| && (s.workers[w].Head? || s.workers[w].Woken?)
    case Finish(w) => w < |s.workers| && s.workers[w].Running?
    case NotifyAll(w) => w < |s.workers| && s.workers[w].Done?
    case Exit(w) => w < |s.workers| && s.workers[w].Head? && !s.online
    case Schedule(c) => c < |s.clients| && s.clients[c].Ready?
    case NotifyWorker(c, w) => c < |s.clients| && s.clients[c].Pushed? && w < |s.workers| && s.workers[w].Blocked?
    case NotifyFlusher(c, f) => c < |s.clients| && s.clients[c].Pushed? && f < |s.clients| && s.clients[f].Flushing?
    case NotifyNobody(c) => c < |s.clients| && s.clients[c].Pushed? && NobodyWaits(s)
    case Flush(c) => c < |s.clients| && (s.clients[c].Ready? || s.clients[c].Recheck?)
    case SpuriousWorker(w) => w < |s.workers| && s.workers[w].Blocked?
    case SpuriousClient(c) => c < |s.clients| && s.clients[c].Flushing?
    case Shutdown => s.stopper.Up?
    case StopNotify => s.stopper.Closing?
    case StopWoken => s.stopper.Joining? && exists w :: 0 <= w < |s.workers| && s.workers[w].Exited?
    case StopDone => s.stopper.Joining? && forall w :: 0 <= w < |s.workers| ==> s.workers[w].Exited?
  }

  /** A worker with the queue lock: it waits on an empty queue unless it has just been woken, leaves an
      offline or empty queue alone, and otherwise takes the oldest task. */
  function TakeTask(s: Pool, w: nat): Pool
    requires w < |s.workers|
  {
    if s.workers[w].Head? && s.online && s.queue == [] then s.(workers := s.workers[w := Blocked])
    else if !s.online || s.queue == [] then s.(workers := s.workers[w := Head])
    else s.(workers := s.workers[w := Running(s.queue[0])], queue := s.queue[1..],
            runningTasks := s.runningTasks + 1, started := s.started + [s.queue[0]])
  }

  function Next(s: Pool, e: Step): Pool
    requires Enabled(s, e)
  {
    match e
    case Take(w) => TakeTask(s, w)
    case Finish(w) =>
      s.(workers := s.workers[w := Done], runningTasks := s.runningTasks - 1,
         finished := s.finished + {s.workers[w].task})
    case NotifyAll(w) => s.(workers := WakeWorkers(s.workers[w := Head]), clients := WakeClients(s.clients))
    case Exit(w) => s.(workers := s.workers[w := Exited])
    case Schedule(c) =>
      s.(clients := s.clients[c := Pushed], queue := s.queue + [s.scheduled], scheduled := s.scheduled + 1)
    case NotifyWorker(c, w) => s.(clients := s.clients[c := Ready], workers := s.workers[w := Woken])
    case NotifyFlusher(c, f) => s.(clients := s.clients[f := Recheck][c := Ready])
    case NotifyNobody(c) => s.(clients := s.clients[c := Ready])
    case Flush(c) =>
      if s.queue != [] || s.runningTasks > 0 then s.(clients := s.clients[c := Flushing])
      else s.(clients := s.clients[c := Ready])
    case SpuriousWorker(w) => s.(workers := s.workers[w := Woken])
    case SpuriousClient(c) => s.(clients := s.clients[c := Recheck])
    case Shutdown => s.(online := false, stopper := Closing)
    case StopNotify => s.(workers := WakeWorkers(s.workers), clients := WakeClients(s.clients), stopper := Joining)
    case StopWoken => s.(stopper := Closing)
    case StopDone => s.(stopper := Stopped)
  }

  function Started(workers: nat, clients: nat): Pool {
    Pool(seq(workers, _ => Head), seq(clients, _ => Ready), [], 0, true, Up, 0, [], {})
  }

  function After(s: Pool, run: seq<Step>): Pool
    requires IsRun(s, run)
    decreases run
  {
    if run == [] then s else After(Next(s, run[0]), run[1..])
  }

  predicate IsRun(s: Pool, run: seq<Step>)
    decreases run
  {
    run == [] || (Enabled(s, run[0]) && IsRun(Next(s, run[0]), run[1..]))
  }

  // ---- accounting ---------------------------------------------------------------------------

  function CountRunning(ws: seq<Worker>): nat {
    if ws == [] then 0 else (if ws[0].Running? then 1 else 0) + CountRunning(ws[1..])
  }

  function Numbers(from: nat, to: nat): seq<Task>
    requires from <= to
  {
    seq(to - from, i requires 0 <= i => from + i)
  }

  ghost predicate InProgress(s: Pool, t: Task) {
    exists w :: 0 <= w < |s.workers| && s.workers[w] == Running(t)
  }

  /** Tasks start in the order in which they were scheduled, each once; every started task is in
      progress or finished, and no task is in progress twice. */
  ghost predicate Accounted(s: Pool) {
    && |s.started| <= s.scheduled
    && s.started == Numbers(0, |s.started|)
    && s.queue == Numbers(|s.started|, s.scheduled)
    && s.runningTasks == CountRunning(s.workers)
    && (forall t :: t in s.finished ==> t < |s.started|)
    && (forall w :: 0 <= w < |s.workers| && s.workers[w].Running? ==>
          s.workers[w].task < |s.started| && s.workers[w].task !in s.finished)
    && (forall v, w :: 0 <= v < w < |s.workers| && s.workers[v].Running? && s.workers[w].Running? ==>
          s.workers[v].task != s.workers[w].task)
    && (forall t: Task :: t < |s.started| ==> t in s.finished || InProgress(s, t))
  }

  lemma {:induction false} CountUpdate(ws: seq<Worker>, w: nat, x: Worker)
    requires w < |ws|
    ensures CountRunning(ws[w := x])
            == CountRunning(ws) - (if ws[w].Running? then 1 else 0) + (if x.Running? then 1 else 0)
  {
    if w == 0 {
      assert ws[w := x][1..] == ws[1..];
    } else {
      assert ws[w := x][1..] == ws[1..][w - 1 := x];
      CountUpdate(ws[1..], w - 1, x);
    }
  }

  lemma {:induction false} CountWoken(ws: seq<Worker>)
    ensures CountRunning(WakeWorkers(ws)) == CountRunning(ws)
  {
    if ws != [] {
      assert WakeWorkers(ws)[1..] == WakeWorkers(ws[1..]);
      CountWoken(ws[1..]);
    }
  }

  lemma {:induction false} NoneRunning(ws: seq<Worker>)
    ensures CountRunning(ws) == 0 <==> forall w :: 0 <= w < |ws| ==> !ws[w].Running?
  {
    if ws != [] {
      NoneRunning(ws[1..]);
      assert forall w :: 1 <= w < |ws| ==> ws[w] == ws[1..][w - 1];
    }
  }

  /** Workers that do not run a task before or after a step do not matter. */
  lemma SameTasks(s: Pool, s2: Pool)
    requires Accounted(s) && |s2.workers| == |s.workers|
    requires forall w :: 0 <= w < |s.workers| ==>
               s2.workers[w] == s.workers[w] || (!s.workers[w].Running? && !s2.workers[w].Running?)
    requires CountRunning(s2.workers) == CountRunning(s.workers)
    requires s2.runningTasks == s.runningTasks && s2.queue == s.queue
    requires s2.scheduled == s.scheduled && s2.started == s.started && s2.finished == s.finished
    ensures Accounted(s2)
  {
    forall t: Task | t < |s.started| && t !in s.finished ensures InProgress(s2, t) {
      var w :| 0 <= w < |s.workers| && s.workers[w] == Running(t);
      assert s2.workers[w] == Running(t);
    }
  }

  lemma TakeKeepsAccount(s: Pool, w: nat)
    requires Accounted(s) && Enabled(s, Take(w))
    ensures Accounted(Next(s, Take(w)))
  {
    var s2 := Next(s, Take(w));
    CountUpdate(s.workers, w, s2.workers[w]);
    if s2.started == s.started {
      SameTasks(s, s2);
    } else {
      forall t: Task | t < |s2.started| ensures t in s2.finished || InProgress(s2, t) {
        if t < |s.started| && t !in s.finished {
          var v :| 0 <= v < |s.workers| && s.workers[v] == Running(t);
          assert s2.workers[v] == Running(t);
        } else if t == |s.started| {
          assert s2.workers[w] == Running(t);
        }
      }
    }
  }

  lemma FinishKeepsAccount(s: Pool, w: nat)
    requires Accounted(s) && Enabled(s, Finish(w))
    ensures Accounted(Next(s, Finish(w)))
  {
    var s2 := Next(s, Finish(w));
    CountUpdate(s.workers, w, Done);
    forall t: Task | t < |s2.started| && t !in s2.finished ensures InProgress(s2, t) {
      var v :| 0 <= v < |s.workers| && s.workers[v] == Running(t);
      assert s2.workers[v] == Running(t);
    }
  }

  lemma ScheduleKeepsAccount(s: Pool, c: nat)
    requires Accounted(s) && Enabled(s, Schedule(c))
    ensures Accounted(Next(s, Schedule(c)))
  {
    var s2 := Next(s, Schedule(c));
    assert forall t :: InProgress(s, t) ==> InProgress(s2, t);
  }

  /** Steps that neither schedule nor start nor finish a task. */
  lemma OthersKeepAccount(s: Pool, e: Step)
    requires Accounted(s) && Enabled(s, e) && !e.Take? && !e.Finish? && !e.Schedule?
    ensures Accounted(Next(s, e))
  {
    match e {
      case NotifyAll(w) =>
        CountUpdate(s.workers, w, Head);
        CountWoken(s.workers[w := Head]);
      case StopNotify => CountWoken(s.workers);
      case Exit(w) => CountUpdate(s.workers, w, Exited);
      case NotifyWorker(_, w) => CountUpdate(s.workers, w, Woken);
      case SpuriousWorker(w) => CountUpdate(s.workers, w, Woken);
      case _ =>
    }
    SameTasks(s, Next(s, e));
  }

  lemma StepKeepsAccount(s: Pool, e: Step)
    requires Accounted(s) && Enabled(s, e)
    ensures Accounted(Next(s, e))
  {
    match e
    case Take(w) => TakeKeepsAccount(s, w);
    case Finish(w) => FinishKeepsAccount(s, w);
    case Schedule(c) => ScheduleKeepsAccount(s, c);
    case _ => OthersKeepAccount(s, e);
  }

  /** flushQueue returns exactly when every task scheduled so far is finished. */
  lemma FlushReturns(s: Pool, c: nat)
    requires Accounted(s) && Enabled(s, Flush(c))
    ensures Next(s, Flush(c)).clients[c].Ready? <==> forall t: Task :: t < s.scheduled ==> t in s.finished
  {
    NoneRunning(s.workers);
    if s.queue == [] && s.runningTasks == 0 {
      assert |Numbers(|s.started|, s.scheduled)| == s.scheduled - |s.started|;
    } else if s.queue != [] {
      assert |s.started| < s.scheduled && |s.started| !in s.finished;
    } else {
      var w :| 0 <= w < |s.workers| && s.workers[w].Running?;
      assert s.workers[w].task !in s.finished;
    }
  }

  ghost predicate InFlush(c: Client) {
    c.Flushing? || c.Recheck?
  }

  /** No step lets a client out of flushQueue before that. */
  lemma FlushHolds(s: Pool, e: Step, c: nat)
    requires Accounted(s) && Enabled(s, e) && c < |s.clients| && InFlush(s.clients[c]) && !InFlush(Next(s, e).clients[c])
    ensures forall t: Task :: t < s.scheduled ==> t in s.finished
  {
    FlushReturns(s, c);
  }

  // ---- wake-ups -----------------------------------------------------------------------------

  ghost predicate AllBlocked(s: Pool) {
    forall w :: 0 <= w < |s.workers| ==> s.workers[w].Blocked?
  }

  ghost predicate OnlyPushed(s: Pool, c: nat) {
    forall d :: 0 <= d < |s.clients| && s.clients[d].Pushed? ==> d == c
  }

  /** Tasks are queued, every worker sleeps, and no notification is under way. */
  ghost predicate Lost(s: Pool) {
    && s.online && s.queue != [] && AllBlocked(s)
    && forall c :: 0 <= c < |s.clients| ==> !s.clients[c].Pushed?
  }

  /** A flusher is only asleep while there is work or a notification to all is under way; and once stop
      waits for the workers, none of them sleeps. */
  ghost predicate Awake(s: Pool) {
    && (s.online <==> s.stopper.Up?)
    && (s.stopper.Joining? ==> forall w :: 0 <= w < |s.workers| ==> !s.workers[w].Blocked?)
    && ((exists c :: 0 <= c < |s.clients| && s.clients[c].Flushing?) ==>
          s.queue != [] || s.runningTasks > 0 || exists w :: 0 <= w < |s.workers| && s.workers[w].Done?)
  }

  lemma StepKeepsAwake(s: Pool, e: Step)
    requires Accounted(s) && Awake(s) && Enabled(s, e)
    ensures Awake(Next(s, e))
  {
    var s2 := Next(s, e);
    if c :| 0 <= c < |s2.clients| && s2.clients[c].Flushing? {
      if !e.Flush? {
        assert s.clients[c].Flushing?;
        match e
        case Finish(w) => assert s2.workers[w].Done?;
        case Take(w) => StepKeepsAccount(s, e); NoneRunning(s2.workers); NoneRunning(s.workers);
        case _ =>
      }
      if s.queue == [] && s.runningTasks <= 0 && s2.queue == [] && s2.runningTasks <= 0 && !e.Flush? && !e.Finish? {
        var w :| 0 <= w < |s.workers| && s.workers[w].Done?;
        assert s2.workers[w].Done?;
      }
    }
  }

  /** While stop waits, every worker that has not exited can move on by itself. */
  lemma StopProgress(s: Pool, w: nat)
    requires Awake(s) && s.stopper.Joining? && w < |s.workers| && !s.workers[w].Exited?
    ensures exists e :: Enabled(s, e) && !e.SpuriousWorker? && !e.SpuriousClient?
                        && Next(s, e).workers[w] != s.workers[w] && !Next(s, e).workers[w].Blocked?
  {
    var e := match s.workers[w]
      case Head => Exit(w)
      case Running(_) => Finish(w)
      case Done => NotifyAll(w)
      case _ => Take(w);
    assert Enabled(s, e);
  }

  /** One step loses a task only by notifying a flusher when that was the last notification under way. */
  lemma LosingStep(s: Pool, e: Step)
    requires |s.workers| > 0 && !Lost(s) && Enabled(s, e)
    ensures Lost(Next(s, e)) <==>
            e.NotifyFlusher? && s.online && s.queue != [] && AllBlocked(s) && OnlyPushed(s, e.c)
  {
    var s2 := Next(s, e);
    match e
    case NotifyFlusher(c, f) =>
      assert s2.workers == s.workers && s2.queue == s.queue;
      assert forall d :: 0 <= d < |s.clients| && d != c ==> (s2.clients[d].Pushed? <==> s.clients[d].Pushed?);
    case NotifyWorker(_, w) => assert !s2.workers[w].Blocked?;
    case NotifyNobody(_) => assert !s.workers[0].Blocked?;
    case Schedule(c) => assert s2.clients[c].Pushed?;
    case Take(w) => assert s2.queue != [] ==> !s2.workers[w].Blocked?;
    case Finish(w) => assert !s2.workers[w].Blocked?;
    case NotifyAll(w) => assert !s2.workers[w].Blocked?;
    case Exit(w) => assert !s2.workers[w].Blocked?;
    case SpuriousWorker(w) => assert !s2.workers[w].Blocked?;
    case StopNotify => assert !s2.workers[0].Blocked?;
    case Flush(c) => assert forall d :: 0 <= d < |s.clients| && s.clients[d].Pushed? ==> s2.clients[d].Pushed?;
    case SpuriousClient(c) => assert forall d :: 0 <= d < |s.clients| && s.clients[d].Pushed? ==> s2.clients[d].Pushed?;
    case _ =>
  }

  /** A notification to all leaves nobody waiting. */
  lemma AllAreNotified(s: Pool, e: Step)
    requires Enabled(s, e) && (e.NotifyAll? || e.StopNotify?)
    ensures forall w :: 0 <= w < |s.workers| ==> !Next(s, e).workers[w].Blocked?
    ensures forall c :: 0 <= c < |s.clients| ==> !Next(s, e).clients[c].Flushing?
  {
  }

  /** A worker falls asleep only on its way from the head of its loop, and when there is nothing to do. */
  lemma FallsAsleep(s: Pool, e: Step, w: nat)
    requires Enabled(s, e) && w < |s.workers| && !s.workers[w].Blocked? && Next(s, e).workers[w].Blocked?
    ensures e == Take(w) && s.workers[w].Head? && s.online && s.queue == []
  {
  }

  // ---- who is there to work -----------------------------------------------------------------

  /** No worker leaves before the pool goes offline, and stop returns when all have left. */
  ghost predicate Staffed(s: Pool) {
    && (s.online ==> forall w :: 0 <= w < |s.workers| ==> !s.workers[w].Exited?)
    && (s.stopper.Stopped? ==> forall w :: 0 <= w < |s.workers| ==> s.workers[w].Exited?)
  }

  lemma StepKeepsStaff(s: Pool, e: Step)
    requires Staffed(s) && Enabled(s, e)
    ensures Staffed(Next(s, e))
    ensures forall w :: 0 <= w < |s.workers| && s.workers[w].Exited? ==> Next(s, e).workers[w].Exited?
    ensures s.stopper.Stopped? ==> Next(s, e).stopper.Stopped?
  {
  }

  /** A task only starts while the pool is online, and it is the one that has waited longest. */
  lemma OldestIsStarted(s: Pool, e: Step)
    requires Enabled(s, e) && Next(s, e).started != s.started
    ensures s.online && s.queue != [] && e.Take?
    ensures var s2 := Next(s, e);
            s.queue == [s2.workers[e.w].task] + s2.queue && s2.started == s.started + [s2.workers[e.w].task]
  {
  }

  /** Everything that holds in every run. */
  lemma {:induction false} RunInvariant(s: Pool, run: seq<Step>)
    requires Accounted(s) && Awake(s) && Staffed(s) && IsRun(s, run)
    ensures Accounted(After(s, run)) && Awake(After(s, run)) && Staffed(After(s, run))
    decreases run
  {
    if run != [] {
      StepKeepsAccount(s, run[0]);
      StepKeepsAwake(s, run[0]);
      StepKeepsStaff(s, run[0]);
      RunInvariant(Next(s, run[0]), run[1..]);
    }
  }

  lemma StartedOk(workers: nat, clients: nat)
    ensures Accounted(Started(workers, clients)) && Awake(Started(workers, clients)) && Staffed(Started(workers, clients))
  {
    NoneRunning(Started(workers, clients).workers);
  }

  /** With at most one client thread nothing is ever lost. */
  lemma {:induction false} OneClientIsSafe(s: Pool, run: seq<Step>)
    requires |s.workers| > 0 && |s.clients| <= 1 && !Lost(s) && IsRun(s, run)
    ensures !Lost(After(s, run))
    decreases run
  {
    if run != [] {
      LosingStep(s, run[0]);
      OneClientIsSafe(Next(s, run[0]), run[1..]);
    }
  }

  /** Step e brings the oldest queued task forward: it starts, a worker becomes free for it, or somebody
      is told of it. */
  ghost predicate Forward(s: Pool, e: Step) {
    && Enabled(s, e)
    && match e
       case Take(_) => s.queue != [] && Next(s, e).started == s.started + [s.queue[0]]
       case Finish(w) => Next(s, e).workers[w].Done?
       case NotifyAll(w) => Next(s, e).workers[w].Head?
       case NotifyWorker(c, w) => Next(s, e).workers[w].Woken?
       case _ => false
  }

  /** After any run of a new pool: while it is online and a task is queued, some worker is awake or some
      notification is under way, unless the task is lost.  The task is then brought forward by a worker, or by
      the thread that owes the notification, with no help from others. */
  lemma QueueIsServed(workers: nat, clients: nat, run: seq<Step>)
    requires workers > 0 && IsRun(Started(workers, clients), run)
    ensures var s := After(Started(workers, clients), run);
            s.online && s.queue != [] && !Lost(s) ==>
              && (|| (exists w :: 0 <= w < |s.workers|
                        && (s.workers[w].Head? || s.workers[w].Woken? || s.workers[w].Running? || s.workers[w].Done?))
                  || exists c :: 0 <= c < |s.clients| && s.clients[c].Pushed?)
              && exists e :: Forward(s, e)
  {
    StartedOk(workers, clients);
    RunInvariant(Started(workers, clients), run);
    SameSize(Started(workers, clients), run);
    var s := After(Started(workers, clients), run);
    if s.online && s.queue != [] && !Lost(s) {
      if w: nat :| w < |s.workers| && !s.workers[w].Blocked? {
        var e := if s.workers[w].Running? then Finish(w) else if s.workers[w].Done? then NotifyAll(w) else Take(w);
        assert Forward(s, e);
      } else {
        var c: nat :| c < |s.clients| && s.clients[c].Pushed?;
        assert s.workers[0].Blocked? && Forward(s, NotifyWorker(c, 0));
      }
    }
  }

  lemma {:induction false} SameSize(s: Pool, run: seq<Step>)
    requires IsRun(s, run)
    ensures |After(s, run).workers| == |s.workers| && |After(s, run).clients| == |s.clients|
    decreases run
  {
    if run != [] {
      SameSize(Next(s, run[0]), run[1..]);
    }
  }

  /** With at most one client thread that holds of every run, without exception. */
  lemma OneClientIsServed(workers: nat, clients: nat, run: seq<Step>)
    requires workers > 0 && clients <= 1 && IsRun(Started(workers, clients), run)
    ensures var s := After(Started(workers, clients), run);
            s.online ==>
              && (forall w :: 0 <= w < |s.workers| ==> !s.workers[w].Exited?)
              && (s.queue != [] ==> exists e :: Forward(s, e))
  {
    StartedOk(workers, clients);
    RunInvariant(Started(workers, clients), run);
    OneClientIsSafe(Started(workers, clients), run);
    QueueIsServed(workers, clients, run);
  }

  /** Nobody can move any more, although tasks are queued and the pool is online. */
  ghost predicate Deadlock(s: Pool) {
    && Lost(s) && s.stopper.Up?
    && forall c :: 0 <= c < |s.clients| ==> s.clients[c].Flushing?
  }

  lemma DeadlockIsFinal(s: Pool, e: Step)
    requires Deadlock(s) && Enabled(s, e)
    ensures e.SpuriousWorker? || e.SpuriousClient? || e.Shutdown?
  {
  }

  lemma {:induction false} RunThen(s: Pool, a: seq<Step>, e: Step)
    requires IsRun(s, a) && Enabled(After(s, a), e)
    ensures IsRun(s, a + [e]) && After(s, a + [e]) == Next(After(s, a), e)
    decreases a
  {
    if a == [] {
      assert a + [e] == [e] && [e][1..] == [];
    } else {
      assert (a + [e])[0] == a[0] && (a + [e])[1..] == a[1..] + [e];
      RunThen(Next(s, a[0]), a[1..], e);
    }
  }

  /** The state in which the first k workers of an idle pool have gone to sleep. */
  function Asleep(workers: nat, clients: nat, k: nat): Pool {
    Started(workers, clients).(workers := seq(workers, i requires 0 <= i => if i < k then Blocked else Head))
  }

  lemma {:induction false} AllFallAsleep(workers: nat, clients: nat, k: nat) returns (run: seq<Step>)
    requires k <= workers
    ensures IsRun(Started(workers, clients), run) && After(Started(workers, clients), run) == Asleep(workers, clients, k)
  {
    if k == 0 {
      run := [];
      assert Asleep(workers, clients, 0).workers == Started(workers, clients).workers;
    } else {
      run := AllFallAsleep(workers, clients, k - 1);
      RunThen(Started(workers, clients), run, Take(k - 1));
      assert Next(Asleep(workers, clients, k - 1), Take(k - 1)).workers == Asleep(workers, clients, k).workers;
      run := run + [Take(k - 1)];
    }
  }

  /** All workers asleep, one task queued, the first k clients flushing and the others ready. */
  function LostPool(workers: nat, clients: nat, k: nat): Pool {
    Pool(seq(workers, _ => Blocked), seq(clients, i requires 0 <= i => if i < k then Flushing else Ready),
         [0], 0, true, Up, 1, [], {})
  }

  lemma {:induction false} AllFlush(s0: Pool, run: seq<Step>, workers: nat, clients: nat, k: nat) returns (run2: seq<Step>)
    requires k <= clients && IsRun(s0, run) && After(s0, run) == LostPool(workers, clients, k)
    ensures IsRun(s0, run2) && After(s0, run2) == LostPool(workers, clients, clients)
    decreases clients - k
  {
    if k == clients {
      run2 := run;
    } else {
      RunThen(s0, run, Flush(k));
      assert Next(LostPool(workers, clients, k), Flush(k)).clients == LostPool(workers, clients, k + 1).clients;
      run2 := AllFlush(s0, run + [Flush(k)], workers, clients, k + 1);
    }
  }

  /** A client pushes a task; before it notifies, a second client enters flushQueue and sees the task; the
      one notification goes to that flusher. */
  lemma LosingRun(workers: nat, clients: nat) returns (run: seq<Step>)
    requires clients >= 2
    ensures IsRun(Started(workers, clients), run) && Deadlock(After(Started(workers, clients), run))
  {
    var s0 := Started(workers, clients);
    run := AllFallAsleep(workers, clients, workers);
    var s1 := Asleep(workers, clients, workers);
    RunThen(s0, run, Schedule(1));
    var s2 := Next(s1, Schedule(1));
    assert s2.queue == [0] && s2.clients[1].Pushed? && s2.clients[0].Ready?;
    RunThen(s0, run + [Schedule(1)], Flush(0));
    var s3 := Next(s2, Flush(0));
    assert s3.clients[0].Flushing? && s3.clients[1].Pushed?;
    RunThen(s0, run + [Schedule(1)] + [Flush(0)], NotifyFlusher(1, 0));
    var s4 := Next(s3, NotifyFlusher(1, 0));
    assert s4.clients[0].Recheck?;
    RunThen(s0, run + [Schedule(1)] + [Flush(0)] + [NotifyFlusher(1, 0)], Flush(0));
    var s5 := Next(s4, Flush(0));
    assert s5.workers == LostPool(workers, clients, 1).workers && s5.clients == LostPool(workers, clients, 1).clients;
    run := AllFlush(s0, run + [Schedule(1)] + [Flush(0)] + [NotifyFlusher(1, 0)] + [Flush(0)], workers, clients, 1);
  }

  ghost predicate Deadlocks(workers: nat, clients: nat, run: seq<Step>) {
    IsRun(Started(workers, clients), run) && Deadlock(After(Started(workers, clients), run))
  }

  /** A pool can deadlock with queued tasks exactly when at least two threads use it. */
  lemma DeadlockIff(workers: nat, clients: nat)
    requires workers > 0
    ensures (exists run :: Deadlocks(workers, clients, run)) <==> clients >= 2
  {
    var s0 := Started(workers, clients);
    if clients >= 2 {
      var run := LosingRun(workers, clients);
      assert Deadlocks(workers, clients, run);
    } else {
      forall run | IsRun(s0, run) ensures !Deadlocks(workers, clients, run) {
        OneClientIsSafe(s0, run);
      }
    }
  }
}
