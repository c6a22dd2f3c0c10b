/** The scheduler: public entry points over any adapter with the three
    operations of the adapter interface, plus the drain loop that hands every
    due job to the job manager. The adapter's store is a value threaded through
    the calls; the event manager and the job manager are observed through a log
    of the calls made to them. */
module Scheduler {
  import opened Jobs

  /** The status the job manager records for a job handed over for execution. */
  const StatusScheduled: int := 63

  /** The event triggered after an at-job is scheduled. */
  const AfterSchedule: string := "afterSchedule"

  /** The adapter interface: `getNextJob`, `enqueueAt` and `enqueueCron`, each a
      step on the adapter's store `S`. */
  datatype Adapter<!S> = Adapter(
    getNextJob: S -> Reply<S>,
    enqueueAt: (S, int, Job) -> S,
    enqueueCron: (S, string, Job) -> Ack<S>)

  /** Every call the scheduler makes, in order. */
  datatype Action =
    | CallGetNextJob
    | CallEnqueueAt(at: int, job: Job)
    | CallEnqueueCron(cron: string, job: Job)
    | Trigger(event: string, target: Job, at: int)     // event manager: name, target, ['at' => at]
    | ManagerEnqueue(job: Job)                         // job manager `enqueue`
    | ManagerUpdateStatus(job: Job, status: int)       // job manager `updateStatus`

  /** The adapter's store together with the log of calls so far. */
  datatype World<S> = World(store: S, log: seq<Action>)

  /** The events in a log. */
  function Triggers(log: seq<Action>): (r: seq<Action>)
    ensures forall i :: 0 <= i < |r| ==> r[i].Trigger?
    ensures |r| <= |log|
  {
    if log == [] then []
    else Triggers(log[..|log| - 1]) + (if log[|log| - 1].Trigger? then [log[|log| - 1]] else [])
  }

  lemma {:induction false} TriggersAppend(a: seq<Action>, b: seq<Action>)
    ensures Triggers(a + b) == Triggers(a) + Triggers(b)
    decreases |b|
  {
    if b == [] {
      assert a + b == a;
    } else {
      var b' := b[..|b| - 1];
      assert (a + b)[..|a + b| - 1] == a + b';
      TriggersAppend(a, b');
    }
  }

  /** `enqueueAt`: one adapter write, then one `afterSchedule` event. */
  function EnqueueAt<S>(a: Adapter<S>, w: World<S>, at: int, job: Job): (r: World<S>)
    ensures r.store == a.enqueueAt(w.store, at, job)
    ensures r.log == w.log + [CallEnqueueAt(at, job), Trigger(AfterSchedule, job, at)]
  {
    var stored := World(a.enqueueAt(w.store, at, job), w.log + [CallEnqueueAt(at, job)]);
    stored.(log := stored.log + [Trigger(AfterSchedule, job, at)])
  }

  /** `enqueueIn`: `enqueueAt` at `now + seconds`. */
  function EnqueueIn<S>(a: Adapter<S>, w: World<S>, now: int, seconds: int, job: Job): (r: World<S>)
    ensures r.store == a.enqueueAt(w.store, now + seconds, job)
    ensures r.log == w.log + [CallEnqueueAt(now + seconds, job), Trigger(AfterSchedule, job, now + seconds)]
  {
    EnqueueAt(a, w, now + seconds, job)
  }

  /** `enqueueCron`: forwards to the adapter and passes on its exception. */
  function EnqueueCron<S>(a: Adapter<S>, w: World<S>, cron: string, job: Job): (r: (World<S>, Option<Error>))
    ensures r.0.store == a.enqueueCron(w.store, cron, job).store
    ensures r.1 == a.enqueueCron(w.store, cron, job).raised
    ensures r.0.log == w.log + [CallEnqueueCron(cron, job)]
  {
    var ack := a.enqueueCron(w.store, cron, job);
    (World(ack.store, w.log + [CallEnqueueCron(cron, job)]), ack.raised)
  }

  /** The private `getNextJob`: one adapter call. */
  function GetNextJob<S>(a: Adapter<S>, w: World<S>): (r: (World<S>, Fetch))
    ensures r.0.store == a.getNextJob(w.store).store
    ensures r.1 == a.getNextJob(w.store).fetch
    ensures r.0.log == w.log + [CallGetNextJob]
  {
    var reply := a.getNextJob(w.store);
    (World(reply.store, w.log + [CallGetNextJob]), reply.fetch)
  }

  /** Scheduling at an absolute time triggers exactly one event, carrying the
      job and the time; registering a cron job triggers none. */
  lemma EventsOfEnqueues<S>(a: Adapter<S>, w: World<S>, at: int, cron: string, job: Job)
    ensures Triggers(EnqueueAt(a, w, at, job).log) == Triggers(w.log) + [Trigger(AfterSchedule, job, at)]
    ensures Triggers(EnqueueCron(a, w, cron, job).0.log) == Triggers(w.log)
  {
    TriggersAppend(w.log, [CallEnqueueAt(at, job), Trigger(AfterSchedule, job, at)]);
    assert Triggers([CallEnqueueAt(at, job)]) == [];
    assert [CallEnqueueAt(at, job), Trigger(AfterSchedule, job, at)][..1] == [CallEnqueueAt(at, job)];
    TriggersAppend(w.log, [CallEnqueueCron(cron, job)]);
  }

  // ---------------------------------------------------------------------------
  // The drain loop

  /** The calls one drain pass makes for the jobs it hands over, in order:
      for each, the adapter call that yielded it, `enqueue`, `updateStatus`. */
  function HandOffs(jobs: seq<Job>): (r: seq<Action>)
    ensures |r| == 3 * |jobs|
  {
    if jobs == [] then []
    else
      var j := jobs[|jobs| - 1];
      HandOffs(jobs[..|jobs| - 1]) + [CallGetNextJob, ManagerEnqueue(j), ManagerUpdateStatus(j, StatusScheduled)]
  }

  /** The store reached from `s` when the adapter yields exactly `jobs`, one
      per call, or None when it yields anything else. */
  function Run<S>(a: Adapter<S>, s: S, jobs: seq<Job>): Option<S>
  {
    if jobs == [] then Some(s)
    else
      match Run(a, s, jobs[..|jobs| - 1])
      case None => None
      case Some(before) =>
        var reply := a.getNextJob(before);
        if reply.fetch == Got(jobs[|jobs| - 1]) then Some(reply.store) else None
  }

  /** `measure` decreases, lexicographically, with every job the adapter yields. */
  ghost predicate Progress<S(!new)>(a: Adapter<S>, measure: S -> (nat, nat))
  {
    forall s :: a.getNextJob(s).fetch.Got? ==> Below(measure(a.getNextJob(s).store), measure(s))
  }

  predicate Below(x: (nat, nat), y: (nat, nat))
  {
    x.0 < y.0 || (x.0 == y.0 && x.1 < y.1)
  }

  /** `schedule`: pulls due jobs until the adapter yields null (or raises),
      handing each job to the job manager and marking it scheduled. */
  method Schedule<S(!new)>(a: Adapter<S>, w: World<S>, ghost measure: S -> (nat, nat))
    returns (r: World<S>, jobs: seq<Job>, last: Fetch)
    requires Progress(a, measure)
    ensures !last.Got?
    ensures Run(a, w.store, jobs).Some?
    ensures a.getNextJob(Run(a, w.store, jobs).value) == Reply(r.store, last)
    ensures r.log == w.log + HandOffs(jobs) + [CallGetNextJob]
  {
    jobs := [];
    var before := w.store;
    var step := GetNextJob(a, w);
    while step.1.Got?
      invariant Run(a, w.store, jobs) == Some(before)
      invariant a.getNextJob(before) == Reply(step.0.store, step.1)
      invariant step.0.log == w.log + HandOffs(jobs) + [CallGetNextJob]
      decreases measure(before).0, measure(before).1
    {
      var job := step.1.job;
      var handed := step.0.(log := step.0.log + [ManagerEnqueue(job), ManagerUpdateStatus(job, StatusScheduled)]);
      jobs := jobs + [job];
      before := step.0.store;
      step := GetNextJob(a, handed);
    }
    r := step.0;
    last := step.1;
  }

  /** A run that reaches a store also reaches it along every prefix. */
  lemma {:induction false} RunPrefix<S>(a: Adapter<S>, s: S, jobs: seq<Job>, n: nat)
    requires n <= |jobs|
    requires Run(a, s, jobs).Some?
    ensures Run(a, s, jobs[..n]).Some?
    decreases |jobs|
  {
    if n < |jobs| {
      var shorter := jobs[..|jobs| - 1];
      assert shorter[..n] == jobs[..n];
      RunPrefix(a, s, shorter, n);
    } else {
      assert jobs[..n] == jobs;
    }
  }

  /** The adapter is a function of its store, so two runs from one store agree
      on their common length. */
  lemma {:induction false} RunsAgree<S>(a: Adapter<S>, s: S, xs: seq<Job>, ys: seq<Job>)
    requires |xs| <= |ys|
    requires Run(a, s, xs).Some? && Run(a, s, ys).Some?
    ensures ys[..|xs|] == xs
    ensures Run(a, s, ys[..|xs|]) == Run(a, s, xs)
    decreases |xs|
  {
    RunPrefix(a, s, ys, |xs|);
    if xs == [] {
    } else {
      var n := |xs| - 1;
      var xs' := xs[..n];
      RunPrefix(a, s, xs, n);
      RunPrefix(a, s, ys, n);
      assert ys[..n][..n] == ys[..n];
      assert ys[..|xs|][..n] == ys[..n];
      RunsAgree(a, s, xs', ys[..n]);
      assert xs == xs' + [xs[n]];
      assert ys[..|xs|] == ys[..n] + [ys[n]];
    }
  }

  /** A run that ends on a call yielding no job has no longer continuation. */
  lemma Overrun<S>(a: Adapter<S>, s: S, xs: seq<Job>, ys: seq<Job>)
    requires |xs| < |ys|
    requires Run(a, s, xs).Some? && !a.getNextJob(Run(a, s, xs).value).fetch.Got?
    ensures Run(a, s, ys).None?
  {
    if Run(a, s, ys).Some? {
      RunsAgree(a, s, xs, ys);
      RunPrefix(a, s, ys, |xs| + 1);
      assert false;
    }
  }

  /** A drain pass is determined by the adapter and the starting store: two
      runs that both end on a call yielding no job hand over the same jobs. */
  lemma DrainDeterminate<S>(a: Adapter<S>, s: S, xs: seq<Job>, ys: seq<Job>)
    requires Run(a, s, xs).Some? && !a.getNextJob(Run(a, s, xs).value).fetch.Got?
    requires Run(a, s, ys).Some? && !a.getNextJob(Run(a, s, ys).value).fetch.Got?
    ensures xs == ys
  {
    if |xs| < |ys| {
      Overrun(a, s, xs, ys);
    } else if |ys| < |xs| {
      Overrun(a, s, ys, xs);
    } else {
      RunsAgree(a, s, xs, ys);
    }
  }
}
