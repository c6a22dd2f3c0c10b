/** The scheduler wired to the Redis adapter (as written, and corrected) at one
    instant `now`, and why its drain loop ends: every job handed over lowers
    the count of due entries, or else the length of the earliest due list. */
module Drain {
  import opened Jobs
  import opened Ordering
  import Redis = RedisAdapter
  import Corrected
  import Scheduler

  /** The UUID `enqueueCron` draws: an id the store has not used. */
  function NewCronId(s: Redis.Store): (id: CronId)
    ensures id !in s.cronIndex && id !in s.cronRecords
  {
    FreshId(s.cronIndex.Keys + s.cronRecords.Keys)
  }

  /** The Redis adapter as written, at time `now`. */
  function RedisOps(now: int, nextRun: NextRun): Scheduler.Adapter<Redis.Store>
  {
    Scheduler.Adapter(
      (s: Redis.Store) => Redis.GetNextJob(s, now, nextRun),
      (s: Redis.Store, at: int, job: Job) => Redis.EnqueueAt(s, at, job, now),
      (s: Redis.Store, cron: string, job: Job) => Redis.EnqueueCron(s, cron, job, NewCronId(s), now, nextRun))
  }

  /** The corrected adapter, at time `now`. */
  function CorrectedOps(now: int, nextRun: NextRun): Scheduler.Adapter<Redis.Store>
  {
    Scheduler.Adapter(
      (s: Redis.Store) => Corrected.GetNextJob(s, now, nextRun),
      (s: Redis.Store, at: int, job: Job) => Redis.EnqueueAt(s, at, job, now),
      (s: Redis.Store, cron: string, job: Job) => Redis.EnqueueCron(s, cron, job, NewCronId(s), now, nextRun))
  }

  /** The cron evaluator's promise: a next fire time lies after the reference time. */
  ghost predicate FiresLater(nextRun: NextRun, now: int)
  {
    forall cron :: nextRun(cron, now).Some? ==> nextRun(cron, now).value > now
  }

  /** Due entries of both queues, then the length of the earliest due list. */
  function DueMeasure(s: Redis.Store, now: int): (nat, nat)
  {
    var due := Redis.DueAt(s, now);
    (|due| + |Redis.DueCron(s, now)|, if due == {} then 0 else |Redis.AtList(s, Least(due))|)
  }

  /** Firing the first due cron id moves it past `now` and leaves the rest. */
  lemma CronFireShrinksDue(s: Redis.Store, now: int, nextRun: NextRun)
    requires FiresLater(nextRun, now)
    requires Redis.GetNextCronJob(s, now, nextRun).fetch.Got?
    ensures Scheduler.Below(DueMeasure(Redis.GetNextCronJob(s, now, nextRun).store, now), DueMeasure(s, now))
  {
    var r := Redis.GetNextCronJob(s, now, nextRun).store;
    var id := First(s.cronIndex, Redis.DueCron(s, now));
    assert r.cronIndex[id] > now;
    assert Redis.DueCron(r, now) == Redis.DueCron(s, now) - {id};
    assert Redis.DueAt(r, now) == Redis.DueAt(s, now);
  }

  /** The as-written pop either drops the timestamp from the index or empties
      its list, which stays the earliest due one. */
  lemma AtPopShrinks(s: Redis.Store, now: int)
    requires Redis.DueAt(s, now) != {}
    requires Redis.GetNextJobAtTimestamp(s, Least(Redis.DueAt(s, now))).fetch.Got?
    ensures Scheduler.Below(DueMeasure(Redis.GetNextJobAtTimestamp(s, Least(Redis.DueAt(s, now))).store, now), DueMeasure(s, now))
  {
    var t := Least(Redis.DueAt(s, now));
    var r := Redis.GetNextJobAtTimestamp(s, t).store;
    assert Redis.DueCron(r, now) == Redis.DueCron(s, now);
    if |Redis.AtList(s, t)| == 1 {
      assert Redis.DueAt(r, now) == Redis.DueAt(s, now);
    } else {
      assert Redis.DueAt(r, now) == Redis.DueAt(s, now) - {t};
    }
  }

  /** The corrected pop either drops the timestamp from the index or shortens
      its list, which stays the earliest due one. */
  lemma CorrectedAtPopShrinks(s: Redis.Store, now: int)
    requires Redis.DueAt(s, now) != {}
    requires Corrected.GetNextJobAtTimestamp(s, Least(Redis.DueAt(s, now))).fetch.Got?
    ensures Scheduler.Below(DueMeasure(Corrected.GetNextJobAtTimestamp(s, Least(Redis.DueAt(s, now))).store, now), DueMeasure(s, now))
  {
    var t := Least(Redis.DueAt(s, now));
    var r := Corrected.GetNextJobAtTimestamp(s, t).store;
    assert Redis.DueCron(r, now) == Redis.DueCron(s, now);
    if |Redis.AtList(s, t)| == 1 {
      assert Redis.DueAt(r, now) == Redis.DueAt(s, now) - {t};
    } else {
      assert Redis.DueAt(r, now) == Redis.DueAt(s, now);
    }
  }

  /** Every job the as-written adapter yields lowers the measure. */
  lemma RedisProgress(now: int, nextRun: NextRun)
    requires FiresLater(nextRun, now)
    ensures Scheduler.Progress(RedisOps(now, nextRun), (s: Redis.Store) => DueMeasure(s, now))
  {
    forall s: Redis.Store | Redis.GetNextJob(s, now, nextRun).fetch.Got?
      ensures Scheduler.Below(DueMeasure(Redis.GetNextJob(s, now, nextRun).store, now), DueMeasure(s, now))
    {
      if Redis.DueAt(s, now) == {} {
        Redis.CronOnlyFiresFirstId(s, now, nextRun);
        CronFireShrinksDue(s, now, nextRun);
      } else if Redis.DueCron(s, now) == {} {
        Redis.AtOnlyPopsLowestTimestamp(s, now, nextRun);
        AtPopShrinks(s, now);
      } else {
        Redis.ChoiceWhenBothDue(s, now, nextRun);
        if Redis.GetNextJob(s, now, nextRun) == Redis.GetNextCronJob(s, now, nextRun) {
          CronFireShrinksDue(s, now, nextRun);
        } else {
          AtPopShrinks(s, now);
        }
      }
    }
  }

  /** Every job the corrected adapter yields lowers the measure. */
  lemma CorrectedProgress(now: int, nextRun: NextRun)
    requires FiresLater(nextRun, now)
    ensures Scheduler.Progress(CorrectedOps(now, nextRun), (s: Redis.Store) => DueMeasure(s, now))
  {
    forall s: Redis.Store | Corrected.GetNextJob(s, now, nextRun).fetch.Got?
      ensures Scheduler.Below(DueMeasure(Corrected.GetNextJob(s, now, nextRun).store, now), DueMeasure(s, now))
    {
      var r := Corrected.GetNextJob(s, now, nextRun);
      if r == Redis.GetNextCronJob(s, now, nextRun) {
        CronFireShrinksDue(s, now, nextRun);
      } else {
        assert r == Corrected.GetNextAtJob(s, now);
        CorrectedAtPopShrinks(s, now);
      }
    }
  }

  /** `schedule` over the adapter as written, at one instant. */
  method ScheduleAsWritten(w: Scheduler.World<Redis.Store>, now: int, nextRun: NextRun)
    returns (r: Scheduler.World<Redis.Store>, jobs: seq<Job>, last: Fetch)
    requires FiresLater(nextRun, now)
    ensures !last.Got?
    ensures Scheduler.Run(RedisOps(now, nextRun), w.store, jobs).Some?
    ensures Redis.GetNextJob(Scheduler.Run(RedisOps(now, nextRun), w.store, jobs).value, now, nextRun) == Reply(r.store, last)
    ensures r.log == w.log + Scheduler.HandOffs(jobs) + [Scheduler.CallGetNextJob]
  {
    RedisProgress(now, nextRun);
    r, jobs, last := Scheduler.Schedule(RedisOps(now, nextRun), w, (s: Redis.Store) => DueMeasure(s, now));
  }

  /** `schedule` over the corrected adapter, at one instant. */
  method ScheduleCorrected(w: Scheduler.World<Redis.Store>, now: int, nextRun: NextRun)
    returns (r: Scheduler.World<Redis.Store>, jobs: seq<Job>, last: Fetch)
    requires FiresLater(nextRun, now)
    ensures !last.Got?
    ensures Scheduler.Run(CorrectedOps(now, nextRun), w.store, jobs).Some?
    ensures Corrected.GetNextJob(Scheduler.Run(CorrectedOps(now, nextRun), w.store, jobs).value, now, nextRun) == Reply(r.store, last)
    ensures r.log == w.log + Scheduler.HandOffs(jobs) + [Scheduler.CallGetNextJob]
  {
    CorrectedProgress(now, nextRun);
    r, jobs, last := Scheduler.Schedule(CorrectedOps(now, nextRun), w, (s: Redis.Store) => DueMeasure(s, now));
  }
}
