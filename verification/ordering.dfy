/** Least elements of the sorted sets the store keeps: a set of timestamps
    scored by themselves, and cron ids ordered by score, then by id. */
module Ordering {
  import opened Jobs

  /** A non-empty set has a member. */
  lemma Inhabited(s: set<int>)
    requires s != {}
    ensures exists x :: x in s
  {
    if forall x :: x !in s {
      assert false;
    }
  }

  lemma InhabitedIds(s: set<CronId>)
    requires s != {}
    ensures exists x :: x in s
  {
    if forall x :: x !in s {
      assert false;
    }
  }

  predicate IsLeast(x: int, s: set<int>)
  {
    x in s && forall y :: y in s ==> x <= y
  }

  lemma {:induction false} LeastExists(s: set<int>)
    requires s != {}
    ensures exists x :: IsLeast(x, s)
    decreases |s|
  {
    Inhabited(s);
    var y :| y in s;
    if s == {y} {
      assert IsLeast(y, s);
    } else {
      var rest := s - {y};
      LeastExists(rest);
      var m :| IsLeast(m, rest);
      assert forall z :: z in s ==> z == y || z in rest;
      if y <= m {
        assert IsLeast(y, s);
      } else {
        assert IsLeast(m, s);
      }
    }
  }

  /** The smallest element of a non-empty set. */
  function Least(s: set<int>): (m: int)
    requires s != {}
    ensures m in s
    ensures forall y :: y in s ==> m <= y
  {
    LeastExists(s);
    var m :| IsLeast(m, s);
    m
  }

  /** `a` sorts no later than `b` in a sorted set with these scores:
      lower score first, equal scores by member. */
  predicate RanksFirst(scores: map<CronId, int>, a: CronId, b: CronId)
  {
    a in scores && b in scores &&
    (scores[a] < scores[b] || (scores[a] == scores[b] && a <= b))
  }

  predicate IsFirst(scores: map<CronId, int>, x: CronId, ids: set<CronId>)
  {
    x in ids && forall y :: y in ids ==> RanksFirst(scores, x, y)
  }

  lemma {:induction false} FirstExists(scores: map<CronId, int>, ids: set<CronId>)
    requires ids != {} && ids <= scores.Keys
    ensures exists x :: IsFirst(scores, x, ids)
    decreases |ids|
  {
    InhabitedIds(ids);
    var y :| y in ids;
    if ids == {y} {
      assert IsFirst(scores, y, ids);
    } else {
      var rest := ids - {y};
      FirstExists(scores, rest);
      var m :| IsFirst(scores, m, rest);
      assert forall z :: z in ids ==> z == y || z in rest;
      if RanksFirst(scores, y, m) {
        assert IsFirst(scores, y, ids);
      } else {
        assert IsFirst(scores, m, ids);
      }
    }
  }

  /** The member of `ids` a by-score range query lists first. */
  function First(scores: map<CronId, int>, ids: set<CronId>): (x: CronId)
    requires ids != {} && ids <= scores.Keys
    ensures x in ids
    ensures forall y :: y in ids ==> RanksFirst(scores, x, y)
  {
    FirstExists(scores, ids);
    var x :| IsFirst(scores, x, ids);
    x
  }

  /** An id outside `ids`: one more than the largest. */
  function FreshId(ids: set<CronId>): (id: CronId)
    ensures id !in ids
  {
    if ids == {} then 0
    else
      var negated := set x | x in ids :: -(x as int);
      InhabitedIds(ids);
      var some :| some in ids;
      assert -(some as int) in negated;
      var top := -Least(negated);
      assert forall y :: y in ids ==> -(y as int) in negated;
      assert top >= 0;
      (top + 1) as CronId
  }
}
