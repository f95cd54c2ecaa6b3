/** Which steps of a backwards step loop simplify. */
module Schedules {

  /** The steps `from, from - 1, ..., 0` that are multiples of `interval`, in
      the order the loop `for step in (0..nsteps).rev()` meets them. */
  function Schedule(from: int, interval: nat): (r: seq<int>)
    requires 0 < interval || from < 0
    ensures r == [] <==> from < 0
    ensures |r| <= if from < 0 then 0 else from + 1
    decreases if from < 0 then 0 else from + 1
  {
    if from < 0 then []
    else (if from % interval == 0 then [from] else []) + Schedule(from - 1, interval)
  }

  /** A step is scheduled exactly when it is run and a multiple of the
      interval; the schedule is strictly decreasing. */
  lemma {:induction false} ScheduleMembers(from: int, interval: nat)
    requires 0 < interval
    ensures forall x :: x in Schedule(from, interval) <==> 0 <= x <= from && x % interval == 0
    ensures forall i, j :: 0 <= i < j < |Schedule(from, interval)| ==> Schedule(from, interval)[i] > Schedule(from, interval)[j]
    decreases if from < 0 then 0 else from + 1
  {
    if 0 <= from {
      ScheduleMembers(from - 1, interval);
      var rest := Schedule(from - 1, interval);
      var s := Schedule(from, interval);
      forall i, j | 0 <= i < j < |s|
        ensures s[i] > s[j]
      {
        if from % interval == 0 {
          assert s == [from] + rest;
          assert s[j] == rest[j - 1] && s[j] in rest;
          if i > 0 {
            assert s[i] == rest[i - 1];
          }
        } else {
          assert s == rest;
        }
      }
    }
  }

  /** Whenever any step runs, the last one, step 0, simplifies. */
  lemma {:induction false} ScheduleEndsAtZero(from: int, interval: nat)
    requires 0 < interval && 0 <= from
    ensures |Schedule(from, interval)| > 0 && Schedule(from, interval)[|Schedule(from, interval)| - 1] == 0
    decreases from
  {
    if from > 0 {
      ScheduleEndsAtZero(from - 1, interval);
    }
  }

  /** Running one more step extends the schedule met so far. */
  lemma ScheduleStep(done: seq<int>, step: int, interval: nat, total: seq<int>)
    requires 0 < interval && 0 <= step
    requires done + Schedule(step, interval) == total
    ensures step % interval == 0 ==> (done + [step]) + Schedule(step - 1, interval) == total
    ensures step % interval != 0 ==> done + Schedule(step - 1, interval) == total
  {
    var rest := Schedule(step - 1, interval);
    if step % interval == 0 {
      assert Schedule(step, interval) == [step] + rest;
      assert done + ([step] + rest) == (done + [step]) + rest;
    } else {
      assert Schedule(step, interval) == [] + rest;
      assert [] + rest == rest;
    }
  }
}
