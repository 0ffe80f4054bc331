/**
 * The scheduler-driven query-id counter of the direct frame layer
 * (frame/direct/QueryIds.java). Ids up to 255 are issued at once and
 * (re)arm a 20-second reset timer; past 255 a call is deferred until the
 * pending reset notification completes, when the source calls it again.
 * The scheduler, its timers and the futures are represented by serial
 * numbers and by the log of calls made on the scheduler.
 */
module DirectQueryIds {

  const MaxImmediateId: int := 255

  const ResetDelaySeconds: nat := 20

  /** resetTimer: the completed placeholder set by reset(), or the timer with that serial. */
  datatype Timer = NoTimer | Scheduled(serial: nat)

  /** A call on the scheduler: cancel a timer, or schedule resetAndNotify after a delay. */
  datatype SchedulerCall = Cancel(timer: Timer) | Schedule(serial: nat, delaySeconds: nat)

  /** The future nextQueryId answers: completed with an id, or a retry once that reset notification completes. */
  datatype QueryAnswer = Issued(id: int) | Deferred(notify: nat)

  class QueryIds {
    var nextId: int
    /** Serial number of the pending resetNotify future. */
    var resetNotify: nat
    var resetTimer: Timer
    /** Serial numbers for the next notification future and the next timer. */
    var notifies: nat
    var timers: nat
    /** Calls made on the scheduler and its timers, in order. */
    var schedulerCalls: seq<SchedulerCall>
    /** Reset notifications completed so far, in order. */
    var completedNotifies: seq<nat>

    /** Serial numbers handed out so far stay below the counters. */
    ghost predicate Valid()
      reads this
    {
      resetNotify < notifies && (resetTimer.Scheduled? ==> resetTimer.serial < timers)
    }

    constructor()
      ensures Valid()
      ensures nextId == 0 && resetNotify == 0 && notifies == 1 && resetTimer == NoTimer && timers == 0
      ensures schedulerCalls == [] && completedNotifies == []
    {
      notifies := 0;
      timers := 0;
      schedulerCalls := [];
      completedNotifies := [];
      new;
      Reset();
    }

    /** reset: counter to 0, a new notification future, and no timer to cancel. */
    method Reset()
      modifies this
      ensures Valid()
      ensures nextId == 0 && resetNotify == old(notifies) && notifies == old(notifies) + 1 && resetTimer == NoTimer
      ensures timers == old(timers) && schedulerCalls == old(schedulerCalls) && completedNotifies == old(completedNotifies)
    {
      nextId := 0;
      resetNotify := notifies;
      notifies := notifies + 1;
      resetTimer := NoTimer;
    }

    /**
     * nextQueryId: takes the counter and increments it. Up to 255 the id is
     * issued at once and the reset timer is cancelled and scheduled anew;
     * past it the call waits for the pending reset notification.
     */
    method NextQueryId() returns (answer: QueryAnswer)
      requires Valid()
      modifies this
      ensures Valid()
      ensures nextId == old(nextId) + 1
      ensures old(nextId) <= MaxImmediateId ==> (
        && answer == Issued(old(nextId))
        && resetTimer == Scheduled(old(timers)) && timers == old(timers) + 1
        && schedulerCalls == old(schedulerCalls) + [Cancel(old(resetTimer)), Schedule(old(timers), ResetDelaySeconds)])
      ensures old(nextId) > MaxImmediateId ==> (
        && answer == Deferred(resetNotify)
        && resetTimer == old(resetTimer) && timers == old(timers) && schedulerCalls == old(schedulerCalls))
      ensures resetNotify == old(resetNotify) && notifies == old(notifies) && completedNotifies == old(completedNotifies)
    {
      var id := nextId;
      nextId := nextId + 1;
      if id <= MaxImmediateId {
        schedulerCalls := schedulerCalls + [Cancel(resetTimer), Schedule(timers, ResetDelaySeconds)];
        resetTimer := Scheduled(timers);
        timers := timers + 1;
        answer := Issued(id);
      } else {
        answer := Deferred(resetNotify);
      }
    }

    /**
     * resetAndNotify (run by the timer): resets first, then completes the
     * old notification, so the deferred calls it releases see counter 0.
     */
    method ResetAndNotify() returns (completed: nat)
      requires Valid()
      modifies this
      ensures Valid()
      ensures completed == old(resetNotify) && completedNotifies == old(completedNotifies) + [completed]
      ensures nextId == 0 && resetNotify == old(notifies) && resetNotify != completed && resetTimer == NoTimer
      ensures notifies == old(notifies) + 1 && timers == old(timers) && schedulerCalls == old(schedulerCalls)
    {
      var oldResetNotify := resetNotify;
      Reset();
      completedNotifies := completedNotifies + [oldResetNotify];
      completed := oldResetNotify;
    }
  }

  /**
   * A fresh counter issues 0, 1, ..., 255 at once, defers the next call on
   * the pending notification, and once the timer fires the retried call is
   * issued id 0.
   */
  method WindowScenario() returns (ids: seq<int>, deferred: QueryAnswer, retried: QueryAnswer)
    ensures ids == seq(256, i => i)
    ensures deferred == Deferred(0)
    ensures retried == Issued(0)
  {
    var q := new QueryIds();
    ids := [];
    while |ids| < 256
      invariant |ids| <= 256 && q.Valid()
      invariant q.nextId == |ids| && q.resetNotify == 0
      invariant ids == seq(|ids|, i => i)
    {
      var answer := q.NextQueryId();
      ids := ids + [answer.id];
    }
    deferred := q.NextQueryId();
    var completed := q.ResetAndNotify();
    assert completed == deferred.notify;
    retried := q.NextQueryId();
  }
}
