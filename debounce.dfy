/**
 * The two-flag debounce of the URL bar (`updateURLField`, `scheduleUpdate` and the
 * timer callback) as a value: whether a timer is running (`busy`), whether a request
 * arrived while it was (`updatePending`), and how many timers are outstanding. The
 * URL bar's methods are proved against these functions.
 */
module Debounce {

  datatype Scheduler = Scheduler(busy: bool, updatePending: bool, timers: nat)

  /** No timer, nothing pending: the state the URL bar starts in. */
  const Idle := Scheduler(false, false, 0)

  /** A timer is outstanding exactly while busy, never more than one, and a request is
      pending only while busy. */
  predicate Consistent(s: Scheduler) {
    s.timers == (if s.busy then 1 else 0) && (s.updatePending ==> s.busy)
  }

  /** `scheduleUpdate`: set `busy` and arm a timer. */
  function Arm(s: Scheduler): Scheduler {
    s.(busy := true, timers := s.timers + 1)
  }

  /** `updateURLField`: while busy only remember the request, otherwise arm a timer. */
  function Request(s: Scheduler): (r: Scheduler)
    ensures Consistent(s) ==> Consistent(r) && r.busy
  {
    if s.busy then s.(updatePending := true) else Arm(s)
  }

  /** The timer callback apart from its write: the timer is used up, `busy` cleared,
      and the timer re-armed once when a request was pending. */
  function Fire(s: Scheduler): (r: Scheduler)
    requires s.timers > 0
    ensures Consistent(s) ==> Consistent(r) && !r.updatePending && (r.busy <==> s.updatePending)
  {
    var done := s.(timers := s.timers - 1, busy := false);
    if done.updatePending then Arm(done.(updatePending := false)) else done
  }

  /** `n` requests in a row. */
  function Requests(s: Scheduler, n: nat): Scheduler {
    if n == 0 then s else Request(Requests(s, n - 1))
  }

  /** The number of writes made by letting the timers fire until none is outstanding. */
  function WritesUntilIdle(s: Scheduler): nat
    requires Consistent(s)
    decreases s.timers + (if s.updatePending then 1 else 0)
  {
    if s.timers == 0 then 0 else 1 + WritesUntilIdle(Fire(s))
  }

  /** The state reached by letting the timers fire until none is outstanding. */
  function Settle(s: Scheduler): Scheduler
    requires Consistent(s)
    decreases s.timers + (if s.updatePending then 1 else 0)
  {
    if s.timers == 0 then s else Settle(Fire(s))
  }

  /** A request arms a timer only when none is running. */
  lemma RequestArmsOnlyWhenIdle(s: Scheduler)
    requires Consistent(s)
    ensures Request(s).timers == s.timers + (if s.busy then 0 else 1)
    ensures Request(s).updatePending == s.busy
  {
  }

  /** Firing until idle writes once for the running timer and once more for a pending
      request, and ends in the idle state. */
  lemma WritesUntilIdleCount(s: Scheduler)
    requires Consistent(s)
    ensures WritesUntilIdle(s) == if !s.busy then 0 else if s.updatePending then 2 else 1
    ensures Settle(s) == Idle
  {
    if s.timers > 0 {
      var t := Fire(s);
      if t.timers > 0 {
        assert Fire(t).timers == 0;
      }
    }
  }

  /** Any number of requests while busy coalesce into the one pending flag. */
  lemma {:induction false} RequestsWhileBusyCoalesce(s: Scheduler, n: nat)
    requires Consistent(s) && s.busy && n >= 1
    ensures Requests(s, n) == s.(updatePending := true)
  {
    if n > 1 {
      RequestsWhileBusyCoalesce(s, n - 1);
    }
  }

  /** A burst of `n` requests from idle leads to one write when `n` is one and to two
      writes, the armed one and one trailing write, for any larger `n`. */
  lemma BurstFromIdle(n: nat)
    ensures Consistent(Requests(Idle, n))
    ensures WritesUntilIdle(Requests(Idle, n)) == if n == 0 then 0 else if n == 1 then 1 else 2
  {
    if n >= 2 {
      var armed := Requests(Idle, 1);
      assert armed == Scheduler(true, false, 1);
      RequestsFrom(Idle, 1, n - 1);
      RequestsWhileBusyCoalesce(armed, n - 1);
    }
    if n >= 1 {
      WritesUntilIdleCount(Requests(Idle, n));
    }
  }

  /** Requests compose. */
  lemma {:induction false} RequestsFrom(s: Scheduler, m: nat, n: nat)
    ensures Requests(s, m + n) == Requests(Requests(s, m), n)
  {
    if n > 0 {
      RequestsFrom(s, m, n - 1);
    }
  }

  /** Any burst of requests during a running window is served by exactly one further
      write after the one in progress. */
  lemma BurstDuringWindow(s: Scheduler, n: nat)
    requires Consistent(s) && s.busy && n >= 1
    ensures Consistent(Requests(s, n))
    ensures WritesUntilIdle(Requests(s, n)) == 2
  {
    RequestsWhileBusyCoalesce(s, n);
    WritesUntilIdleCount(Requests(s, n));
  }
}
