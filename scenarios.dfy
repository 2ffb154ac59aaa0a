/** Callers of `CrptApi.FairRateLimiter`: short schedules of calls whose results follow from the
    limiter's specification alone. Each call passes the clock readings it would have made. */
module Scenarios {
  import opened Admissions
  import opened CrptApi

  /** Three requests per second: three calls in quick succession are admitted at once, none sleeps. */
  method FastPath(t0: int, t1: int, t2: int) returns (a: Outcome, b: Outcome, c: Outcome, anySlept: bool)
    requires t0 <= t1 <= t2
    ensures a == Admitted(t0) && b == Admitted(t1) && c == Admitted(t2)
    ensures !anySlept
  {
    var limiter := new FairRateLimiter(Seconds, 3, t0);
    var s0, s1, s2;
    a, s0 := limiter.Acquire(t0, t0, false);
    b, s1 := limiter.Acquire(t1, t1, false);
    c, s2 := limiter.Acquire(t2, t2, false);
    anySlept := s0 || s1 || s2;
  }

  /** One request per millisecond: a second call within the millisecond sleeps, and it is admitted
      at the reading it wakes with, a millisecond or more after the first admission. */
  method BlockingPath(t0: int, t1: int, wake: int) returns (first: Outcome, second: Outcome, slept: bool)
    requires t0 <= t1 < t0 + 1_000_000 <= wake
    ensures first == Admitted(t0) && second == Admitted(wake)
    ensures slept && first.at + ToNanos(Milliseconds) <= second.at
  {
    var limiter := new FairRateLimiter(Milliseconds, 1, t0);
    var s0;
    first, s0 := limiter.Acquire(t0, t0, false);
    second, slept := limiter.Acquire(t1, wake, false);
  }

  /** Two requests per millisecond: once the first admission's deadline has come (the boundary
      included), a third call takes its slot without sleeping. */
  method ExpiryReuse(t0: int, t1: int, t2: int) returns (third: Outcome, slept: bool)
    requires t0 <= t1 <= t2 && t0 + 1_000_000 <= t2
    ensures third == Admitted(t2) && !slept
  {
    var limiter := new FairRateLimiter(Milliseconds, 2, t0);
    var o0, s0 := limiter.Acquire(t0, t0, false);
    var o1, s1 := limiter.Acquire(t1, t1, false);
    third, slept := limiter.Acquire(t2, t2, false);
  }

  /** The limit is never validated: with a limit of zero or less the first call fails unboxing the
      null that `pollLast` returns for the empty queue. */
  method NonPositiveLimit(requestLimit: int32, t: int) returns (outcome: Outcome)
    requires requestLimit <= 0
    ensures outcome == NullDeadline
  {
    var limiter := new FairRateLimiter(Seconds, requestLimit, t);
    var slept;
    outcome, slept := limiter.Acquire(t, t, false);
  }

  /** As written, an interrupted sleep loses the deadline it took: with one request per microsecond,
      the limiter's own history holds admissions at 0 and 2 ns, both in one microsecond window. */
  method InterruptedSleepFreesSlot() returns (limiter: FairRateLimiter, first: Outcome, second: Outcome, third: Outcome)
    ensures first == Admitted(0) && second == Interrupted && third == Admitted(2)
    ensures limiter.log.admitted == [0, 2]
    ensures AdmissionsIn(limiter.log.admitted, 0, ToNanos(Microseconds)) == 2
  {
    limiter := new FairRateLimiter(Microseconds, 1, 0);
    var s0, s1, s2;
    first, s0 := limiter.Acquire(0, 0, false);
    second, s1 := limiter.Acquire(1, 1, true);
    third, s2 := limiter.Acquire(2, 2, false);
  }

  /** With the corrected call the same schedule keeps the quota: the third call still sleeps until
      the first admission's deadline. */
  method RestoredSlotStillWaits(wake: int) returns (first: Outcome, second: Outcome, third: Outcome, slept: bool)
    requires 1_000 <= wake
    ensures first == Admitted(0) && second == Interrupted && third == Admitted(wake)
    ensures slept && first.at + ToNanos(Microseconds) <= third.at
  {
    var limiter := new FairRateLimiter(Microseconds, 1, 0);
    var s0, s1;
    first, s0 := limiter.AcquireRestoring(0, 0, false);
    second, s1 := limiter.AcquireRestoring(1, 1, true);
    third, slept := limiter.AcquireRestoring(2, wake, false);
  }
}
