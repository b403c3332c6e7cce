/** The protocol of `ThreadPool` (httplib.h:660-739): every critical section, notification and wake-up is a
    step, and the steps of the workers and of the callers interleave in any order. */
module ThreadPools {
  import opened ByteStrings

  type Job = nat

  /** `Ready` workers are about to take the lock: new, woken, or done with a job. */
  datatype Worker = Ready | Waiting | Running(job: Job) | Exited

  /** `notifies` counts callers of `enqueue` that have left the critical section but have not notified yet,
      and `broadcast` says that `shutdown` has not either. `accepted`, `started` and `finished` record what
      happened; `late` that a job was accepted after the shutdown. */
  datatype Pool = Pool(
    limit: nat,
    jobs: seq<Job>,
    shutdown: bool,
    workers: seq<Worker>,
    notifies: nat,
    broadcast: bool,
    accepted: seq<Job>,
    started: seq<Job>,
    finished: seq<Job>,
    late: bool
  )

  datatype Event =
    | Enqueue(job: Job)
    | NotifyOne(woken: Option<nat>)
    | Shutdown
    | NotifyAll
    | Turn(worker: nat)  // takes the lock and looks at the queue
    | Spurious(worker: nat)  // a wake-up without a notification
    | Finish(worker: nat)

  function Initial(n: nat, limit: nat): (s: Pool)
  {
    Pool(limit, [], false, Repeat(Ready, n), 0, false, [], [], [], false)
  }

  predicate AnyWaiting(ws: seq<Worker>) { exists i :: 0 <= i < |ws| && ws[i].Waiting? }
  predicate AnyExited(ws: seq<Worker>) { exists i :: 0 <= i < |ws| && ws[i].Exited? }

  /** `shutdown` has joined all workers. */
  predicate AllExited(ws: seq<Worker>) { forall i :: 0 <= i < |ws| ==> ws[i].Exited? }

  function WakeAll(ws: seq<Worker>): (r: seq<Worker>)
    ensures |r| == |ws| && forall i :: 0 <= i < |ws| ==> r[i] == if ws[i].Waiting? then Ready else ws[i]
  {
    seq(|ws|, i requires 0 <= i < |ws| => if ws[i].Waiting? then Ready else ws[i])
  }

  predicate Full(s: Pool) { s.limit > 0 && |s.jobs| >= s.limit }

  predicate Enabled(s: Pool, e: Event)
  {
    match e
    case Enqueue(_) => true
    case NotifyOne(None) => s.notifies > 0 && !AnyWaiting(s.workers)
    case NotifyOne(Some(w)) => s.notifies > 0 && w < |s.workers| && s.workers[w].Waiting?
    case Shutdown => true
    case NotifyAll => s.broadcast
    case Turn(w) => w < |s.workers| && s.workers[w].Ready?
    case Spurious(w) => w < |s.workers| && s.workers[w].Waiting?
    case Finish(w) => w < |s.workers| && s.workers[w].Running?
  }

  /** A worker that holds the lock: waits, leaves, or takes the first job. */
  function AfterTurn(s: Pool, w: nat): (s': Pool)
    requires w < |s.workers|
  {
    if s.jobs == [] then s.(workers := s.workers[w := if s.shutdown then Exited else Waiting])
    else
      s.(jobs := s.jobs[1..], workers := s.workers[w := Running(s.jobs[0])], started := s.started + [s.jobs[0]])
  }

  function Next(s: Pool, e: Event): (s': Pool)
    requires Enabled(s, e)
  {
    match e
    case Enqueue(job) =>
      if Full(s) then s
      else
        s.(jobs := s.jobs + [job], accepted := s.accepted + [job], notifies := s.notifies + 1,
           late := s.late || s.shutdown)
    case NotifyOne(None) => s.(notifies := s.notifies - 1)
    case NotifyOne(Some(w)) => s.(notifies := s.notifies - 1, workers := s.workers[w := Ready])
    case Shutdown => s.(shutdown := true, broadcast := true)
    case NotifyAll => s.(broadcast := false, workers := WakeAll(s.workers))
    case Turn(w) => AfterTurn(s, w)
    case Spurious(w) => s.(workers := s.workers[w := Ready])
    case Finish(w) => s.(workers := s.workers[w := Ready], finished := s.finished + [s.workers[w].job])
  }

  /** A job is accepted exactly when the queue is unlimited or shorter than its limit, during a shutdown as well; a
      job that is refused leaves no trace. */
  lemma AcceptedExactly(s: Pool, job: Job)
    ensures
      var s' := Next(s, Enqueue(job));
      && (s'.accepted == s.accepted + [job] <==> s.limit == 0 || |s.jobs| < s.limit)
      && (s'.jobs == s.jobs + [job] <==> s.limit == 0 || |s.jobs| < s.limit)
      && (s.limit > 0 && |s.jobs| >= s.limit <==> s' == s)
  {
    assert |s.accepted + [job]| != |s.accepted| && |s.jobs + [job]| != |s.jobs|;
  }

  // ---- counting over the workers --------------------------------------------------------

  type Weight = Worker -> nat

  function Total(ws: seq<Worker>, f: Weight): (n: nat)
  {
    if ws == [] then 0 else Total(ws[..|ws| - 1], f) + f(ws[|ws| - 1])
  }

  lemma {:induction false} TotalUpdate(ws: seq<Worker>, i: nat, w: Worker, f: Weight)
    requires i < |ws|
    ensures Total(ws[i := w], f) + f(ws[i]) == Total(ws, f) + f(w)
  {
    var m := |ws| - 1;
    if i < m {
      TotalUpdate(ws[..m], i, w, f);
      assert ws[i := w][..m] == ws[..m][i := w];
    } else {
      assert ws[i := w][..m] == ws[..m];
    }
  }

  lemma {:induction false} TotalBound(ws: seq<Worker>, vs: seq<Worker>, f: Weight)
    requires |ws| == |vs| && forall i :: 0 <= i < |ws| ==> f(ws[i]) <= f(vs[i])
    ensures Total(ws, f) <= Total(vs, f)
  {
    if ws != [] { TotalBound(ws[..|ws| - 1], vs[..|vs| - 1], f); }
  }

  lemma {:induction false} NoneCounted(ws: seq<Worker>, f: Weight)
    requires forall i :: 0 <= i < |ws| ==> f(ws[i]) == 0
    ensures Total(ws, f) == 0
  {
    if ws != [] { NoneCounted(ws[..|ws| - 1], f); }
  }

  /** Workers that will look at the queue without being woken. */
  function Awake(ws: seq<Worker>): (n: nat)
  {
    Total(ws, AwakeWeight)
  }

  function AwakeWeight(w: Worker): nat { if w.Ready? || w.Running? then 1 else 0 }

  lemma {:induction false} SomeoneAwake(ws: seq<Worker>) returns (i: nat)
    requires Awake(ws) > 0
    ensures i < |ws| && (ws[i].Ready? || ws[i].Running?)
  {
    var m := |ws| - 1;
    if AwakeWeight(ws[m]) > 0 { i := m; } else { i := SomeoneAwake(ws[..m]); }
  }

  /** How often `job` is being run. */
  function Runs(job: Job): (f: Weight)
  {
    w => if w == Running(job) then 1 else 0
  }

  function Count(xs: seq<Job>, job: Job): (n: nat)
  {
    if xs == [] then 0 else Count(xs[..|xs| - 1], job) + if xs[|xs| - 1] == job then 1 else 0
  }

  lemma CountSnoc(xs: seq<Job>, x: Job, job: Job)
    ensures Count(xs + [x], job) == Count(xs, job) + if x == job then 1 else 0
  {
    assert (xs + [x])[..|xs|] == xs;
  }

  lemma {:induction false} CountSplit(xs: seq<Job>, ys: seq<Job>, job: Job)
    ensures Count(xs + ys, job) == Count(xs, job) + Count(ys, job)
  {
    if ys == [] {
      assert xs + ys == xs;
    } else {
      var front, last := ys[..|ys| - 1], ys[|ys| - 1];
      CountSplit(xs, front, job);
      CountSnoc(xs + front, last, job);
      assert xs + ys == xs + front + [last];
    }
  }

  // ---- what every step keeps ---------------------------------------------------------------

  /** Jobs are started in the order of acceptance, each one once; the queue respects its limit. */
  ghost predicate Ordered(s: Pool)
  {
    && s.accepted == s.started + s.jobs
    && (s.limit > 0 ==> |s.jobs| <= s.limit)
    && forall job :: Balanced(s, job)
  }

  predicate Balanced(s: Pool, job: Job)
  {
    Count(s.started, job) == Count(s.finished, job) + Total(s.workers, Runs(job))
  }

  /** While a worker sleeps, every job in the queue has a notification under way or a worker awake. */
  predicate Covered(s: Pool)
  {
    AnyWaiting(s.workers) ==> |s.jobs| <= s.notifies + Awake(s.workers)
  }

  predicate ShutsDown(s: Pool)
  {
    && (s.shutdown && !s.broadcast ==> !AnyWaiting(s.workers))
    && (AnyExited(s.workers) ==> s.shutdown && (s.late || s.jobs == []))
    && (s.broadcast ==> s.shutdown)
  }

  ghost predicate Inv(s: Pool) { Ordered(s) && Covered(s) && ShutsDown(s) }

  lemma StepKeepsBalance(s: Pool, e: Event, job: Job)
    requires Balanced(s, job) && Enabled(s, e)
    ensures Balanced(Next(s, e), job)
  {
    match e {
      case Enqueue(_) =>
      case NotifyOne(None) =>
      case NotifyOne(Some(w)) => TotalUpdate(s.workers, w, Ready, Runs(job));
      case Shutdown =>
      case NotifyAll =>
        TotalBound(s.workers, WakeAll(s.workers), Runs(job));
        TotalBound(WakeAll(s.workers), s.workers, Runs(job));
      case Turn(w) => TurnKeepsBalance(s, w, job);
      case Spurious(w) => TotalUpdate(s.workers, w, Ready, Runs(job));
      case Finish(w) =>
        TotalUpdate(s.workers, w, Ready, Runs(job));
        CountSnoc(s.finished, s.workers[w].job, job);
    }
  }

  lemma TurnKeepsBalance(s: Pool, w: nat, job: Job)
    requires Balanced(s, job) && w < |s.workers| && s.workers[w].Ready?
    ensures Balanced(AfterTurn(s, w), job)
  {
    if s.jobs != [] {
      TotalUpdate(s.workers, w, Running(s.jobs[0]), Runs(job));
      CountSnoc(s.started, s.jobs[0], job);
    } else {
      TotalUpdate(s.workers, w, if s.shutdown then Exited else Waiting, Runs(job));
    }
  }

  lemma StepKeepsOrder(s: Pool, e: Event)
    requires Ordered(s) && Enabled(s, e)
    ensures Ordered(Next(s, e))
  {
    forall job ensures Balanced(Next(s, e), job) {
      StepKeepsBalance(s, e, job);
    }
    if e.Turn? && s.jobs != [] {
      assert s.jobs == [s.jobs[0]] + s.jobs[1..];
    }
  }

  lemma StepKeepsCovered(s: Pool, e: Event)
    requires Covered(s) && Enabled(s, e)
    ensures Covered(Next(s, e))
  {
    match e {
      case Enqueue(_) =>
      case NotifyOne(None) =>
      case NotifyOne(Some(w)) => TotalUpdate(s.workers, w, Ready, AwakeWeight);
      case Shutdown =>
      case NotifyAll => TotalBound(s.workers, WakeAll(s.workers), AwakeWeight);
      case Turn(w) =>
        if s.jobs != [] { TotalUpdate(s.workers, w, Running(s.jobs[0]), AwakeWeight); }
      case Spurious(w) => TotalUpdate(s.workers, w, Ready, AwakeWeight);
      case Finish(w) => TotalUpdate(s.workers, w, Ready, AwakeWeight);
    }
  }

  lemma StepKeepsShutdown(s: Pool, e: Event)
    requires ShutsDown(s) && Enabled(s, e)
    ensures ShutsDown(Next(s, e))
  {
  }

  lemma StepKeepsInv(s: Pool, e: Event)
    requires Inv(s) && Enabled(s, e)
    ensures Inv(Next(s, e))
  {
    StepKeepsOrder(s, e);
    StepKeepsCovered(s, e);
    StepKeepsShutdown(s, e);
  }

  // ---- runs ------------------------------------------------------------------------------

  predicate Possible(s: Pool, events: seq<Event>)
    decreases |events|
  {
    events != [] ==> Enabled(s, events[0]) && Possible(Next(s, events[0]), events[1..])
  }

  function After(s: Pool, events: seq<Event>): (s': Pool)
    requires Possible(s, events)
    decreases |events|
  {
    if events == [] then s else After(Next(s, events[0]), events[1..])
  }

  lemma {:induction false} RunKeepsInv(s: Pool, events: seq<Event>)
    requires Inv(s) && Possible(s, events)
    ensures Inv(After(s, events)) && |After(s, events).workers| == |s.workers|
    decreases |events|
  {
    if events != [] {
      StepKeepsInv(s, events[0]);
      RunKeepsInv(Next(s, events[0]), events[1..]);
    }
  }

  lemma InitiallyInv(n: nat, limit: nat)
    ensures Inv(Initial(n, limit))
  {
    var s := Initial(n, limit);
    forall job ensures Balanced(s, job) {
      NoneCounted(s.workers, Runs(job));
    }
  }

  /** In every state that can be reached the started jobs are the first ones accepted, in order; each job
      is queued, running or finished as often as it was accepted; and the queue respects its limit. */
  lemma EveryReachableState(n: nat, limit: nat, events: seq<Event>, job: Job)
    requires Possible(Initial(n, limit), events)
    ensures
      var s := After(Initial(n, limit), events);
      && s.started <= s.accepted && (limit > 0 ==> |s.jobs| <= limit)
      && Count(s.accepted, job) == Count(s.jobs, job) + Total(s.workers, Runs(job)) + Count(s.finished, job)
      && Inv(s) && |s.workers| == n
  {
    var s := Initial(n, limit);
    InitiallyInv(n, limit);
    RunKeepsInv(s, events);
    LimitStays(s, events);
    var end := After(s, events);
    CountSplit(end.started, end.jobs, job);
    assert Balanced(end, job);
  }

  lemma {:induction false} LimitStays(s: Pool, events: seq<Event>)
    requires Possible(s, events)
    ensures After(s, events).limit == s.limit
    decreases |events|
  {
    if events != [] { LimitStays(Next(s, events[0]), events[1..]); }
  }

  /** A step of the pool itself: not one of a caller, and not a spurious wake-up. */
  predicate Internal(e: Event) { e.NotifyOne? || e.NotifyAll? || e.Turn? || e.Finish? }

  /** No lost wake-up: as long as jobs are queued and a worker is left, or the pool is shutting down and a
      worker is left, some worker or notifier can go on. */
  lemma NeverStuck(s: Pool) returns (e: Event)
    requires Inv(s) && !AllExited(s.workers) && (s.jobs != [] || s.shutdown)
    ensures Internal(e) && Enabled(s, e)
  {
    if AnyWaiting(s.workers) {
      if s.notifies > 0 {
        var i :| 0 <= i < |s.workers| && s.workers[i].Waiting?;
        e := NotifyOne(Some(i));
      } else if s.broadcast {
        e := NotifyAll;
      } else {
        var i := SomeoneAwake(s.workers);
        e := if s.workers[i].Ready? then Turn(i) else Finish(i);
      }
    } else {
      var i :| 0 <= i < |s.workers| && !s.workers[i].Exited?;
      e := if s.workers[i].Ready? then Turn(i) else Finish(i);
    }
  }

  /** Once all workers are joined every accepted job has run exactly if the queue is empty, and it is empty
      unless a job was accepted after the shutdown. */
  lemma JoinedMeansDone(s: Pool)
    requires Inv(s) && s.workers != [] && AllExited(s.workers)
    ensures (forall job :: Count(s.finished, job) == Count(s.accepted, job)) <==> s.jobs == []
    ensures !s.late ==> s.jobs == [] && s.started == s.accepted
  {
    assert s.workers[0].Exited? && AnyExited(s.workers);
    forall job ensures Count(s.accepted, job) == Count(s.finished, job) + Count(s.jobs, job) {
      NoneCounted(s.workers, Runs(job));
      assert Balanced(s, job);
      CountSplit(s.started, s.jobs, job);
    }
    if s.jobs == [] {
      assert s.started + [] == s.started;
    } else {
      var job := s.jobs[|s.jobs| - 1];
      assert Count(s.jobs, job) > 0 && Count(s.accepted, job) != Count(s.finished, job);
    }
  }

  // ---- the shutdown comes to an end -----------------------------------------------------------

  function Load(w: Worker): nat
  {
    match w
    case Waiting => 2
    case Running(_) => 2
    case Ready => 1
    case Exited => 0
  }

  /** Steps that the pool can still take after a shutdown. */
  function Remaining(s: Pool): (n: nat)
  {
    3 * |s.jobs| + Total(s.workers, Load) + s.notifies + if s.broadcast then 1 else 0
  }

  lemma EveryStepCounts(s: Pool, e: Event)
    requires s.shutdown && Enabled(s, e) && !e.Enqueue? && !e.Shutdown?
    ensures Remaining(Next(s, e)) < Remaining(s) && Next(s, e).shutdown
  {
    match e {
      case NotifyOne(None) =>
      case NotifyOne(Some(w)) => TotalUpdate(s.workers, w, Ready, Load);
      case NotifyAll => TotalBound(WakeAll(s.workers), s.workers, Load);
      case Turn(w) => TotalUpdate(s.workers, w, if s.jobs == [] then Exited else Running(s.jobs[0]), Load);
      case Spurious(w) => TotalUpdate(s.workers, w, Ready, Load);
      case Finish(w) => TotalUpdate(s.workers, w, Ready, Load);
    }
  }

  /** Once shut down and left alone, the pool comes to rest whatever the schedule, spurious wake-ups
      included; and it rests only when all workers can be joined. */
  lemma {:induction false} ShutdownEnds(s: Pool, events: seq<Event>)
    requires Inv(s) && s.shutdown && Possible(s, events)
    requires forall i :: 0 <= i < |events| ==> !events[i].Enqueue? && !events[i].Shutdown?
    ensures |events| <= Remaining(s)
    ensures
      var end := After(s, events);
      AllExited(end.workers) || exists e :: Internal(e) && Enabled(end, e)
    decreases |events|
  {
    if events != [] {
      StepKeepsInv(s, events[0]);
      EveryStepCounts(s, events[0]);
      ShutdownEnds(Next(s, events[0]), events[1..]);
    } else if !AllExited(s.workers) {
      var e := NeverStuck(s);
    }
  }

  // ---- the queue drains -----------------------------------------------------------------------

  function Effort(w: Worker): nat
  {
    match w
    case Waiting => 1
    case Ready => 2
    case Running(_) => 3
    case Exited => 0
  }

  /** Steps of its own that the pool can take before a shutdown. */
  function Work(s: Pool): (n: nat)
  {
    4 * |s.jobs| + Total(s.workers, Effort) + 2 * s.notifies
  }

  lemma EveryStepWorks(s: Pool, e: Event)
    requires Inv(s) && !s.shutdown && Enabled(s, e) && Internal(e)
    ensures Work(Next(s, e)) < Work(s) && !Next(s, e).shutdown && Next(s, e).accepted == s.accepted
  {
    match e {
      case NotifyOne(None) =>
      case NotifyOne(Some(w)) => TotalUpdate(s.workers, w, Ready, Effort);
      case Turn(w) => TotalUpdate(s.workers, w, if s.jobs == [] then Waiting else Running(s.jobs[0]), Effort);
      case Finish(w) => TotalUpdate(s.workers, w, Ready, Effort);
    }
  }

  /** A pool with workers that is left alone comes to rest, whatever the schedule, and rests only when every
      job accepted has run. */
  lemma {:induction false} QueueDrains(s: Pool, events: seq<Event>)
    requires Inv(s) && !s.shutdown && s.workers != [] && Possible(s, events)
    requires forall i :: 0 <= i < |events| ==> Internal(events[i])
    ensures |events| <= Work(s)
    ensures AllRan(After(s, events), s.accepted) || exists e :: Internal(e) && Enabled(After(s, events), e)
    decreases |events|
  {
    if events != [] {
      StepKeepsInv(s, events[0]);
      EveryStepWorks(s, events[0]);
      QueueDrains(Next(s, events[0]), events[1..]);
    } else {
      var resting := RestsOnlyWhenDone(s);
    }
  }

  ghost predicate AllRan(s: Pool, accepted: seq<Job>)
  {
    s.jobs == [] && s.started == accepted && forall job :: Count(s.finished, job) == Count(accepted, job)
  }

  lemma RestsOnlyWhenDone(s: Pool) returns (e: Event)
    requires Inv(s) && !s.shutdown && s.workers != []
    ensures AllRan(s, s.accepted) || (Internal(e) && Enabled(s, e))
  {
    e := NotifyAll;
    assert !s.workers[0].Exited?;
    if s.jobs != [] {
      e := NeverStuck(s);
    } else if i :| 0 <= i < |s.workers| && s.workers[i].Running? {
      e := Finish(i);
    } else {
      assert s.started + [] == s.started;
      forall job ensures Count(s.finished, job) == Count(s.accepted, job) {
        NoneCounted(s.workers, Runs(job));
        assert Balanced(s, job);
      }
    }
  }

  // ---- where the promises end ---------------------------------------------------------------

  /** Once the last worker has left, nothing is ever started again. */
  lemma {:induction false} NothingStartsAfterExit(s: Pool, events: seq<Event>)
    requires AllExited(s.workers) && Possible(s, events)
    ensures After(s, events).started == s.started && After(s, events).finished == s.finished
    decreases |events|
  {
    if events != [] { NothingStartsAfterExit(Next(s, events[0]), events[1..]); }
  }

  /** The worker of a pool leaves on a shutdown; then a job is accepted. */
  function TooLate(job: Job): (events: seq<Event>) { [Shutdown, NotifyAll, Turn(0), Enqueue(job)] }

  lemma AcceptedTooLate(job: Job)
    ensures Possible(Initial(1, 0), TooLate(job))
    ensures
      var s := After(Initial(1, 0), TooLate(job));
      AllExited(s.workers) && s.accepted == [job] && s.started == s.finished == [] && s.late
  {
    var s0 := Initial(1, 0);
    var s1 := Next(s0, Shutdown);
    var s2 := Next(s1, NotifyAll);
    var s3 := Next(s2, Turn(0));
    var s4 := Next(s3, Enqueue(job));
    assert Possible(s4, []) && After(s4, []) == s4;
    OneMore(s3, Enqueue(job), []);
    assert [Enqueue(job)] + [] == [Enqueue(job)];
    OneMore(s2, Turn(0), [Enqueue(job)]);
    assert [Turn(0)] + [Enqueue(job)] == [Turn(0), Enqueue(job)];
    OneMore(s1, NotifyAll, [Turn(0), Enqueue(job)]);
    assert [NotifyAll] + [Turn(0), Enqueue(job)] == [NotifyAll, Turn(0), Enqueue(job)];
    OneMore(s0, Shutdown, [NotifyAll, Turn(0), Enqueue(job)]);
    assert [Shutdown] + [NotifyAll, Turn(0), Enqueue(job)] == TooLate(job);
  }

  lemma OneMore(s: Pool, e: Event, events: seq<Event>)
    requires Enabled(s, e) && Possible(Next(s, e), events)
    ensures Possible(s, [e] + events) && After(s, [e] + events) == After(Next(s, e), events)
  {
    assert ([e] + events)[1..] == events;
  }

  /** That job is never run, whatever happens next. */
  lemma LateJobIsLost(job: Job, events: seq<Event>)
    requires Possible(Initial(1, 0), TooLate(job)) && Possible(After(Initial(1, 0), TooLate(job)), events)
    ensures
      var s, end := After(Initial(1, 0), TooLate(job)), After(After(Initial(1, 0), TooLate(job)), events);
      s.accepted == [job] && end.started == [] && end.finished == []
  {
    AcceptedTooLate(job);
    NothingStartsAfterExit(After(Initial(1, 0), TooLate(job)), events);
  }

  /** A pool without workers accepts jobs, and no step of its own ever starts one. */
  lemma NoWorkersNoWork(events: seq<Event>, limit: nat)
    requires Possible(Initial(0, limit), events)
    ensures After(Initial(0, limit), events).started == []
  {
    NobodyStarts(Initial(0, limit), events);
  }

  lemma {:induction false} NobodyStarts(s: Pool, events: seq<Event>)
    requires s.workers == [] && Possible(s, events)
    ensures After(s, events).started == s.started
    decreases |events|
  {
    if events != [] { NobodyStarts(Next(s, events[0]), events[1..]); }
  }

  // ---- the class ------------------------------------------------------------------------------

  /** The shared state. Each method is one step that no other can interrupt: a critical section, a
      notification, or the start or end of a job outside the lock. */
  class ThreadPool {
    const maxQueuedRequests: nat
    var jobs: seq<Job>
    var shutdown: bool
    var threads: seq<Worker>
    var notifies: nat
    var broadcast: bool
    ghost var accepted: seq<Job>
    ghost var started: seq<Job>
    ghost var finished: seq<Job>
    ghost var late: bool

    ghost function View(): Pool
      reads this
    {
      Pool(maxQueuedRequests, jobs, shutdown, threads, notifies, broadcast, accepted, started, finished, late)
    }

    ghost predicate Valid()
      reads this
    {
      Inv(View())
    }

    constructor (n: nat, mqr: nat)
      ensures Valid() && View() == Initial(n, mqr)
    {
      maxQueuedRequests := mqr;
      jobs, shutdown, threads, notifies, broadcast := [], false, [], 0, false;
      accepted, started, finished, late := [], [], [], false;
      new;
      var left := n;
      while left > 0
        invariant 0 <= left <= n && View() == Initial(n - left, mqr)
      {
        threads := threads + [Ready];
        left := left - 1;
      }
      InitiallyInv(n, mqr);
    }

    /** The critical section of `enqueue`; `notify_one` follows when the job was accepted. */
    method Enqueue(fn: Job) returns (ok: bool)
      requires Valid()
      modifies this
      ensures Valid() && View() == Next(old(View()), Event.Enqueue(fn))
      ensures ok <==> maxQueuedRequests == 0 || |old(jobs)| < maxQueuedRequests
      ensures if ok then jobs == old(jobs) + [fn] && accepted == old(accepted) + [fn] && notifies == old(notifies) + 1
              else View() == old(View())
    {
      StepKeepsInv(View(), Event.Enqueue(fn));
      if maxQueuedRequests > 0 && |jobs| >= maxQueuedRequests {
        return false;
      }
      jobs := jobs + [fn];
      notifies := notifies + 1;
      accepted, late := accepted + [fn], late || shutdown;
      return true;
    }

    method NotifyOne() returns (woken: Option<nat>)
      requires Valid() && notifies > 0
      modifies this
      ensures Enabled(old(View()), Event.NotifyOne(woken)) && Valid()
      ensures View() == Next(old(View()), Event.NotifyOne(woken))
    {
      if AnyWaiting(threads) {
        var w :| 0 <= w < |threads| && threads[w].Waiting?;
        woken := Some(w);
      } else {
        woken := None;
      }
      StepKeepsInv(View(), Event.NotifyOne(woken));
      notifies := notifies - 1;
      if woken.Some? {
        threads := threads[woken.value := Ready];
      }
    }

    /** The critical section of `shutdown`; `notify_all` follows. */
    method Shutdown()
      requires Valid()
      modifies this
      ensures Valid() && View() == Next(old(View()), Event.Shutdown)
    {
      StepKeepsInv(View(), Event.Shutdown);
      shutdown, broadcast := true, true;
    }

    method NotifyAll()
      requires Valid() && broadcast
      modifies this
      ensures Valid() && View() == Next(old(View()), Event.NotifyAll)
    {
      StepKeepsInv(View(), Event.NotifyAll);
      broadcast, threads := false, WakeAll(threads);
    }

    /** The critical section of a worker: `wait` blocks when its predicate is false. */
    method Turn(w: nat) returns (fn: Option<Job>)
      requires Valid() && w < |threads| && threads[w].Ready?
      modifies this
      ensures Valid() && View() == Next(old(View()), Event.Turn(w))
      ensures fn == if old(jobs) == [] then None else Some(old(jobs)[0])
      ensures jobs == old(jobs)[if fn.Some? then 1 else 0..]
      ensures threads == old(threads)[w := if fn.Some? then Running(fn.value) else if shutdown then Exited else Waiting]
      ensures shutdown == old(shutdown) && started == old(started) + if fn.Some? then [fn.value] else []
    {
      StepKeepsInv(View(), Event.Turn(w));
      if jobs == [] && !shutdown {
        threads := threads[w := Waiting];
        return None;
      }
      if shutdown && jobs == [] {
        threads := threads[w := Exited];
        return None;
      }
      var job := jobs[0];
      jobs := jobs[1..];
      threads := threads[w := Running(job)];
      started := started + [job];
      return Some(job);
    }

    /** `fn()` has returned. */
    method Finish(w: nat)
      requires Valid() && w < |threads| && threads[w].Running?
      modifies this
      ensures Valid() && View() == Next(old(View()), Event.Finish(w))
    {
      StepKeepsInv(View(), Event.Finish(w));
      finished := finished + [threads[w].job];
      threads := threads[w := Ready];
    }
  }
}
