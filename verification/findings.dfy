/** Concrete runs that show where the adapter as written departs from what its
    method names and docblocks promise, each beside the corrected selector's run. */
module Findings {
  import opened Jobs
  import opened Ordering
  import Php
  import Redis = RedisAdapter
  import Corrected
  import Scheduler
  import Drain

  // ---------------------------------------------------------------------------
  // The cleanup after a pop tests for a non-empty list where it means an empty one.

  /** Two jobs queued under one due timestamp: the adapter as written returns
      the first, deletes the second unseen, and then reports nothing due. */
  lemma SecondJobLost(a: Job, b: Job, t: int, n1: int, n2: int, now: int, nextRun: NextRun)
    requires t <= now
    ensures
      var s := Redis.EnqueueAt(Redis.EnqueueAt(Redis.EmptyStore, t, a, n1), t, b, n2);
      var r1 := Redis.GetNextJob(s, now, nextRun);
      && r1 == Reply(Redis.EmptyStore, Got(a))
      && Redis.GetNextJob(r1.store, now, nextRun) == Reply(Redis.EmptyStore, Nothing)
  {
    var s := Redis.EnqueueAt(Redis.EnqueueAt(Redis.EmptyStore, t, a, n1), t, b, n2);
    assert Redis.DueAt(s, now) == {t};
    assert Redis.DueCron(s, now) == {};
    Redis.AtOnlyPopsLowestTimestamp(s, now, nextRun);
    assert Redis.AtList(s, t) == [AtEntry(a, n1), AtEntry(b, n2)];
    var r1 := Redis.GetNextJob(s, now, nextRun);
    assert r1.store.atLists == map[];
    assert Redis.DueAt(Redis.EmptyStore, now) == {};
  }

  /** The corrected selector returns both jobs, in the order they were queued,
      and only then reports nothing due. */
  lemma CorrectedReturnsBoth(a: Job, b: Job, t: int, n1: int, n2: int, now: int, nextRun: NextRun)
    requires t <= now
    ensures
      var s := Redis.EnqueueAt(Redis.EnqueueAt(Redis.EmptyStore, t, a, n1), t, b, n2);
      var r1 := Corrected.GetNextJob(s, now, nextRun);
      var r2 := Corrected.GetNextJob(r1.store, now, nextRun);
      && r1.fetch == Got(a)
      && r2 == Reply(Redis.EmptyStore, Got(b))
      && Corrected.GetNextJob(r2.store, now, nextRun) == Reply(Redis.EmptyStore, Nothing)
  {
    var s0 := Redis.EnqueueAt(Redis.EmptyStore, t, a, n1);
    Corrected.EnqueueKeepsConsistent(Redis.EmptyStore, t, a, n1);
    Corrected.EnqueueKeepsConsistent(s0, t, b, n2);
    var s := Redis.EnqueueAt(s0, t, b, n2);
    assert Redis.AtList(s, t) == [AtEntry(a, n1), AtEntry(b, n2)];
    Corrected.FifoWithinTimestamp(s, now, nextRun, t);
    var r1 := Corrected.GetNextJob(s, now, nextRun);
    Corrected.EarliestAtFirst(s, now, nextRun, t);
    assert Redis.AtList(r1.store, t) == [AtEntry(b, n2)];
    assert r1.store.atIndex == {t};
    Corrected.EarliestAtFirst(r1.store, now, nextRun, t);
    var r2 := Corrected.GetNextJob(r1.store, now, nextRun);
    assert r2.store.atLists == map[];
    assert r2.store.atIndex == {};
    assert Redis.DueAt(Redis.EmptyStore, now) == {};
  }

  /** One job queued under a due timestamp: the adapter as written returns it,
      keeps the emptied timestamp indexed, and the drain pass then ends in an
      exception; every later pass raises the same one. */
  lemma SingleJobDrainFails(a: Job, t: int, n1: int, now: int, nextRun: NextRun)
    requires t <= now
    ensures
      var s := Redis.EnqueueAt(Redis.EmptyStore, t, a, n1);
      var stale := Redis.Store({t}, map[], map[], map[]);
      var ops := Drain.RedisOps(now, nextRun);
      && Scheduler.Run(ops, s, [a]) == Some(stale)
      && ops.getNextJob(stale) == Reply(stale, Failed(EmptyAtList(t)))
  {
    var s := Redis.EnqueueAt(Redis.EmptyStore, t, a, n1);
    var stale := Redis.Store({t}, map[], map[], map[]);
    assert Redis.DueAt(s, now) == {t};
    assert Redis.DueCron(s, now) == {};
    Redis.AtOnlyPopsLowestTimestamp(s, now, nextRun);
    assert Least({t}) == t;
    assert Redis.AtList(s, t) == [AtEntry(a, n1)];
    assert s.atIndex == {t};
    assert (s.atLists - {t}).Keys == {};
    assert Redis.LPop(s, t) == (stale, Some(AtEntry(a, n1)));
    assert Redis.CleanupTimestamp(stale, t) == stale;
    assert Redis.AtJob(AtEntry(a, n1)) == a;
    assert Redis.GetNextJobAtTimestamp(s, t) == Reply(stale, Got(a));
    assert [a][..0] == [];
    assert Redis.DueAt(stale, now) == {t};
    assert Redis.DueCron(stale, now) == {};
    Redis.StaleTimestampFails(stale, now, nextRun);
  }

  /** The corrected selector drains the same store cleanly. */
  lemma CorrectedSingleJobDrains(a: Job, t: int, n1: int, now: int, nextRun: NextRun)
    requires t <= now
    ensures
      var s := Redis.EnqueueAt(Redis.EmptyStore, t, a, n1);
      var ops := Drain.CorrectedOps(now, nextRun);
      && Scheduler.Run(ops, s, [a]) == Some(Redis.EmptyStore)
      && ops.getNextJob(Redis.EmptyStore) == Reply(Redis.EmptyStore, Nothing)
  {
    var s := Redis.EnqueueAt(Redis.EmptyStore, t, a, n1);
    Corrected.EnqueueKeepsConsistent(Redis.EmptyStore, t, a, n1);
    Corrected.EarliestAtFirst(s, now, nextRun, t);
    var r := Corrected.GetNextJob(s, now, nextRun);
    assert r.store.atLists == map[];
    assert r.store.atIndex == {};
    assert [a][..0] == [];
    assert Redis.DueAt(Redis.EmptyStore, now) == {};
  }

  /** A stale lowest due timestamp (indexed, list gone) with no cron id due
      blocks the at-queue: every drain pass from that store raises at once and
      hands over nothing, however long it would run. */
  lemma {:induction false} StaleBlocksLaterJobs(s: Redis.Store, now: int, nextRun: NextRun, jobs: seq<Job>)
    requires Redis.DueAt(s, now) != {} && Redis.DueCron(s, now) == {}
    requires Redis.AtList(s, Least(Redis.DueAt(s, now))) == []
    ensures Scheduler.Run(Drain.RedisOps(now, nextRun), s, jobs) == if jobs == [] then Some(s) else None
    decreases |jobs|
  {
    if jobs != [] {
      StaleBlocksLaterJobs(s, now, nextRun, jobs[..|jobs| - 1]);
      Redis.StaleTimestampFails(s, now, nextRun);
    }
  }

  /** Queueing more at-jobs behind a stale timestamp does not help: the stale
      timestamp stays the lowest due one, so the new jobs are never reached. */
  lemma StaleSurvivesEnqueue(s: Redis.Store, now: int, nextRun: NextRun, u: int, job: Job)
    requires Redis.DueAt(s, now) != {} && Redis.DueCron(s, now) == {}
    requires Redis.AtList(s, Least(Redis.DueAt(s, now))) == []
    requires u > Least(Redis.DueAt(s, now))
    ensures
      var e := Redis.EnqueueAt(s, u, job, now);
      Redis.GetNextJob(e, now, nextRun) == Reply(e, Failed(EmptyAtList(Least(Redis.DueAt(s, now)))))
  {
    var t := Least(Redis.DueAt(s, now));
    var e := Redis.EnqueueAt(s, u, job, now);
    assert Redis.DueAt(e, now) == Redis.DueAt(s, now) + (if u <= now then {u} else {});
    assert Redis.DueCron(e, now) == {};
    assert Least(Redis.DueAt(e, now)) == t;
    Redis.StaleTimestampFails(e, now, nextRun);
  }

  // ---------------------------------------------------------------------------
  // The cross-queue comparison reads only the first character of the cron score.

  /** An at-job due at 10 and a cron job due at 20, both due at 20: the adapter
      as written fires the later cron job, because 10 is compared with the
      score's leading digit 2. */
  lemma CronOvertakesEarlierAt(e: AtEntry, rec: CronRecord, nextRun: NextRun)
    requires nextRun(rec.cron, 20) == Some(80)
    ensures
      var s := Redis.Store({10}, map[10 := [e]], map[0 := 20], map[0 := rec]);
      Redis.GetNextJob(s, 20, nextRun) == Reply(s.(cronIndex := map[0 := 80]), Got(Redis.CronJob(rec)))
  {
    var s := Redis.Store({10}, map[10 := [e]], map[0 := 20], map[0 := rec]);
    assert Redis.DueAt(s, 20) == {10};
    assert Redis.DueCron(s, 20) == {0};
    assert Least({10}) == 10;
    assert First(s.cronIndex, {0}) == 0;
    Redis.ChoiceWhenBothDue(s, 20, nextRun);
    assert Php.LeadingDigit(20) == 2;
    var r := Redis.GetNextCronJob(s, 20, nextRun);
    assert r.store.cronIndex == map[0 := 80];
  }

  /** The corrected selector returns the earlier at-job. */
  lemma CorrectedEarlierAtFirst(e: AtEntry, rec: CronRecord, nextRun: NextRun)
    ensures
      var s := Redis.Store({10}, map[10 := [e]], map[0 := 20], map[0 := rec]);
      Corrected.GetNextJob(s, 20, nextRun) == Reply(s.(atIndex := {}, atLists := map[]), Got(e.payload))
  {
    var s := Redis.Store({10}, map[10 := [e]], map[0 := 20], map[0 := rec]);
    assert Corrected.Consistent(s);
    Corrected.EarliestAtFirst(s, 20, nextRun, 10);
    assert Least(Redis.DueAt(s, 20)) == 10;
    assert Redis.GetNextCronId(s, 20) == Some(0);
    assert Corrected.GetNextJob(s, 20, nextRun) == Corrected.GetNextJobAtTimestamp(s, 10);
    var popped := s.(atLists := map[]);
    assert Redis.LPop(s, 10) == (popped, Some(e));
    assert Corrected.CleanupTimestamp(popped, 10) == s.(atIndex := {}, atLists := map[]);
    assert Redis.AtJob(e) == e.payload;
  }

  /** Equal due times of ten or more go to the cron job in the adapter as
      written; at-jobs win ties only for timestamps up to 9 (at 0 the cron
      timestamp is null, below 0 it is 0, and both compare as `<=`). */
  lemma TiesGoToCronFromTen(s: Redis.Store, now: int, nextRun: NextRun)
    requires Redis.DueAt(s, now) != {} && Redis.DueCron(s, now) != {}
    requires Least(Redis.DueAt(s, now)) == s.cronIndex[First(s.cronIndex, Redis.DueCron(s, now))]
    ensures Least(Redis.DueAt(s, now)) >= 10 ==> Redis.GetNextJob(s, now, nextRun) == Redis.GetNextCronJob(s, now, nextRun)
    ensures Least(Redis.DueAt(s, now)) < 10 ==>
      Redis.GetNextJob(s, now, nextRun) == Redis.GetNextJobAtTimestamp(s, Least(Redis.DueAt(s, now)))
  {
    Redis.ChoiceWhenBothDue(s, now, nextRun);
    var c := Least(Redis.DueAt(s, now));
    if 0 < c < 10 {
      assert Php.LeadingDigit(c) == c;
    }
  }
}
