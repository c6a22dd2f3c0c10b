/** The selector as its method names and docblocks intend. Two steps differ from the
    adapter as written: the cleanup after a pop removes a timestamp once its
    list is EMPTY, and the cross-queue comparison uses the whole cron score.
    Every other step is the adapter's own. */
module Corrected {
  import opened Jobs
  import opened Ordering
  import Php
  import Redis = RedisAdapter

  /** The store's intended shape: a timestamp is indexed exactly when its list
      exists, no list is empty, and every indexed cron id has a record. */
  predicate Consistent(s: Redis.Store)
  {
    && (forall t :: t in s.atIndex ==> t in s.atLists)
    && (forall t :: t in s.atLists ==> t in s.atIndex && s.atLists[t] != [])
    && s.cronIndex.Keys <= s.cronRecords.Keys
  }

  /** The intended cleanup: forget `t` once its list is empty or missing. */
  function CleanupTimestamp(s: Redis.Store, t: int): (r: Redis.Store)
    ensures |Redis.AtList(s, t)| == 0 ==> t !in r.atIndex && t !in r.atLists && r.atIndex == s.atIndex - {t}
    ensures |Redis.AtList(s, t)| != 0 ==> r == s
    ensures forall u :: u != t ==> Redis.AtList(r, u) == Redis.AtList(s, u)
    ensures r.cronIndex == s.cronIndex && r.cronRecords == s.cronRecords
  {
    if |Redis.AtList(s, t)| == 0 then s.(atLists := s.atLists - {t}, atIndex := s.atIndex - {t})
    else s
  }

  /** Pops the head of the list of `t`; the rest of the list stays queued. */
  function GetNextJobAtTimestamp(s: Redis.Store, t: int): (r: Reply<Redis.Store>)
    ensures Redis.AtList(s, t) == [] ==> r == Reply(s, Failed(EmptyAtList(t)))
    ensures Redis.AtList(s, t) != [] ==>
      && r.fetch == Got(Redis.AtList(s, t)[0].payload)
      && Redis.AtList(r.store, t) == Redis.AtList(s, t)[1..]
    ensures |Redis.AtList(s, t)| == 1 ==> r.store.atIndex == s.atIndex - {t}
    ensures |Redis.AtList(s, t)| > 1 ==> r.store.atIndex == s.atIndex
    ensures forall u :: u != t ==> Redis.AtList(r.store, u) == Redis.AtList(s, u)
    ensures r.store.cronIndex == s.cronIndex && r.store.cronRecords == s.cronRecords
  {
    var (popped, item) := Redis.LPop(s, t);
    match item
    case None => Reply(s, Failed(EmptyAtList(t)))
    case Some(e) => Reply(CleanupTimestamp(popped, t), Got(Redis.AtJob(e)))
  }

  function GetNextAtJob(s: Redis.Store, now: int): (r: Reply<Redis.Store>)
    ensures Redis.DueAt(s, now) == {} ==> r == Reply(s, Nothing)
    ensures Redis.DueAt(s, now) != {} ==> r == GetNextJobAtTimestamp(s, Least(Redis.DueAt(s, now)))
  {
    match Redis.GetNextAtTimestamp(s, now)
    case None => Reply(s, Nothing)
    case Some(t) => GetNextJobAtTimestamp(s, t)
  }

  /** Both queues due: the at-job goes first when its timestamp is at most the
      cron id's whole score. */
  function FindNextJob(s: Redis.Store, now: int, nextRun: NextRun): (r: Reply<Redis.Store>)
    ensures Redis.DueCron(s, now) == {} ==> r == GetNextAtJob(s, now)
    ensures Redis.DueAt(s, now) == {} ==> r == Reply(s, Nothing)
    ensures Redis.DueAt(s, now) != {} && Redis.DueCron(s, now) != {} ==>
      var t := Least(Redis.DueAt(s, now));
      r == if t <= s.cronIndex[First(s.cronIndex, Redis.DueCron(s, now))]
           then GetNextJobAtTimestamp(s, t) else Redis.GetNextCronJob(s, now, nextRun)
  {
    var nextAt := Redis.GetNextAtTimestamp(s, now);
    match Redis.GetNextCronId(s, now)
    case None => GetNextAtJob(s, now)
    case Some(id) =>
      if Php.LessEq(nextAt, Some(s.cronIndex[id])) then GetNextAtJob(s, now)
      else Redis.GetNextCronJob(s, now, nextRun)
  }

  function GetNextJob(s: Redis.Store, now: int, nextRun: NextRun): (r: Reply<Redis.Store>)
    ensures r.fetch.Nothing? <==> Redis.DueAt(s, now) == {} && Redis.DueCron(s, now) == {}
    ensures !r.fetch.Got? ==> r.store == s
    ensures Consistent(s) ==> Consistent(r.store)
    ensures Consistent(s) && r.fetch.Failed? ==> r.fetch.error.InvalidCron?
    ensures r.store.cronRecords == s.cronRecords
    ensures r.store.cronIndex.Keys == s.cronIndex.Keys
  {
    var hasAt := Redis.GetNextAtTimestamp(s, now).Some?;
    var hasCron := Redis.GetNextCronId(s, now).Some?;
    if hasAt && hasCron then FindNextJob(s, now, nextRun)
    else if hasAt then GetNextAtJob(s, now)
    else Redis.GetNextCronJob(s, now, nextRun)
  }

  // ---------------------------------------------------------------------------
  // The intended guarantees

  /** Enqueueing keeps the store consistent. */
  lemma EnqueueKeepsConsistent(s: Redis.Store, at: int, job: Job, now: int)
    requires Consistent(s)
    ensures Consistent(Redis.EnqueueAt(s, at, job, now))
  {
    var r := Redis.EnqueueAt(s, at, job, now);
    forall t | t in r.atLists
      ensures r.atLists[t] != []
    {
      if t != at {
        assert Redis.AtList(r, t) == Redis.AtList(s, t);
      }
    }
  }

  /** Registering a cron job keeps the store consistent, whether or not its
      expression is accepted. */
  lemma EnqueueCronKeepsConsistent(s: Redis.Store, cron: string, job: Job, id: CronId, now: int, nextRun: NextRun)
    requires Consistent(s)
    requires id !in s.cronIndex && id !in s.cronRecords
    ensures Consistent(Redis.EnqueueCron(s, cron, job, id, now, nextRun).store)
  {
  }

  /** When the lowest due timestamp `t` is no later than every due cron score,
      the head of its list is returned and the rest of the list stays queued;
      the cron queue is untouched. At-jobs win ties. */
  lemma EarliestAtFirst(s: Redis.Store, now: int, nextRun: NextRun, t: int)
    requires Consistent(s)
    requires t in s.atIndex && t <= now
    requires forall u :: u in s.atIndex && u <= now ==> t <= u
    requires forall id :: id in s.cronIndex && s.cronIndex[id] <= now ==> t <= s.cronIndex[id]
    ensures
      var r := GetNextJob(s, now, nextRun);
      && r.fetch == Got(Redis.AtList(s, t)[0].payload)
      && Redis.AtList(r.store, t) == Redis.AtList(s, t)[1..]
      && (forall u :: u != t ==> Redis.AtList(r.store, u) == Redis.AtList(s, u))
      && r.store.cronIndex == s.cronIndex
  {
    assert t in Redis.DueAt(s, now);
    assert Least(Redis.DueAt(s, now)) == t;
    assert Redis.GetNextAtTimestamp(s, now) == Some(t);
    assert GetNextAtJob(s, now) == GetNextJobAtTimestamp(s, t);
  }

  /** When the first due cron id's score is earlier than every due timestamp,
      that cron job fires and the at-queue is untouched. */
  lemma EarliestCronFirst(s: Redis.Store, now: int, nextRun: NextRun, id: CronId)
    requires Consistent(s)
    requires id in s.cronIndex && s.cronIndex[id] <= now
    requires forall j :: j in s.cronIndex && s.cronIndex[j] <= now ==> RanksFirst(s.cronIndex, id, j)
    requires forall u :: u in s.atIndex && u <= now ==> s.cronIndex[id] < u
    ensures
      var r := GetNextJob(s, now, nextRun);
      var rec := s.cronRecords[id];
      && r.store.atIndex == s.atIndex && r.store.atLists == s.atLists
      && (nextRun(rec.cron, now).None? ==> r == Reply(s, Failed(InvalidCron(rec.cron))))
      && (nextRun(rec.cron, now).Some? ==>
            && r.fetch == Got(Redis.CronJob(rec))
            && r.store.cronIndex == s.cronIndex[id := nextRun(rec.cron, now).value])
  {
    assert id in Redis.DueCron(s, now);
    assert First(s.cronIndex, Redis.DueCron(s, now)) == id by {
      var f := First(s.cronIndex, Redis.DueCron(s, now));
      assert RanksFirst(s.cronIndex, f, id) && RanksFirst(s.cronIndex, id, f);
    }
    assert Redis.GetNextCronId(s, now) == Some(id);
    match Redis.GetNextAtTimestamp(s, now)
    case None =>
    case Some(t) =>
      assert s.cronIndex[id] < t;
  }

  /** Jobs queued under one timestamp come out in the order they were queued:
      while `t` stays the earliest due entry, two calls return the first two
      entries of its list. */
  lemma FifoWithinTimestamp(s: Redis.Store, now: int, nextRun: NextRun, t: int)
    requires Consistent(s)
    requires t in s.atIndex && t <= now
    requires forall u :: u in s.atIndex && u <= now ==> t <= u
    requires forall id :: id in s.cronIndex && s.cronIndex[id] <= now ==> t <= s.cronIndex[id]
    requires |Redis.AtList(s, t)| >= 2
    ensures
      var r1 := GetNextJob(s, now, nextRun);
      var r2 := GetNextJob(r1.store, now, nextRun);
      && r1.fetch == Got(Redis.AtList(s, t)[0].payload)
      && r2.fetch == Got(Redis.AtList(s, t)[1].payload)
  {
    EarliestAtFirst(s, now, nextRun, t);
    var r1 := GetNextJob(s, now, nextRun);
    var s1 := r1.store;
    assert Redis.AtList(s1, t) == Redis.AtList(s, t)[1..];
    assert t in s1.atLists;
    forall u | u in s1.atIndex && u <= now
      ensures t <= u
    {
      assert u in s1.atLists;
      if u != t {
        assert Redis.AtList(s1, u) == Redis.AtList(s, u);
        assert u in s.atLists;
      }
    }
    EarliestAtFirst(s1, now, nextRun, t);
  }
}
