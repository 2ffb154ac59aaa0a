/** The sliding-window admission gate `CrptApi.FairRateLimiter`.

    The limiter keeps a queue of deadlines: each entry is the clock reading at which a call was
    admitted plus `interval`. The newest deadline is at the front of the queue (index 0, where
    `addFirst` puts it) and the oldest at the back (where `pollLast` takes it). A call at capacity
    takes the oldest deadline off the back and, if that deadline is still in the future, sleeps until
    it; every call that is not interrupted then pushes a new deadline onto the front.

    The clock and the sleep are not part of the model: each call receives its clock readings as
    parameters (`now` before the deadline test, `wake` when the new deadline is computed) and whether
    the sleep was interrupted. Calls are taken one at a time, as the lock serialises them.
 */
module CrptApi {
  import opened Admissions

  /** Java's signed 32-bit `int`, the type of the request limit passed to the constructor. */
  newtype int32 = x: int | -0x8000_0000 <= x < 0x8000_0000

  /** The units of `java.util.concurrent.TimeUnit`. */
  datatype TimeUnit = Nanoseconds | Microseconds | Milliseconds | Seconds | Minutes | Hours | Days

  /** `unit.toNanos(1)`: the length of one unit in nanoseconds. It is positive and fits in a `long`. */
  function ToNanos(unit: TimeUnit): (nanos: int)
    ensures 1 <= nanos <= 86_400_000_000_000
  {
    match unit
    case Nanoseconds => 1
    case Microseconds => 1_000
    case Milliseconds => 1_000_000
    case Seconds => 1_000_000_000
    case Minutes => 60_000_000_000
    case Hours => 3_600_000_000_000
    case Days => 86_400_000_000_000
  }

  /** How a call to `acquire` ends. */
  datatype Outcome =
    | Admitted(at: int)  // returns normally; `at` is the clock reading the new deadline is computed from
    | Interrupted        // the sleep threw InterruptedException, rethrown as a RuntimeException
    | NullDeadline       // `pollLast` found the queue empty and unboxing its null result threw

  /** The oldest deadline, the one `pollLast` returns. */
  function Last(q: seq<int>): int
    requires q != []
  {
    q[|q| - 1]
  }

  /** The queue once `pollLast` has taken its oldest deadline. */
  function DropLast(q: seq<int>): seq<int>
    requires q != []
  {
    q[..|q| - 1]
  }

  /** `pollLast` splits the queue into the rest, one shorter and in the same order, and the
      oldest deadline at the back. */
  lemma PollLast(q: seq<int>)
    requires q != []
    ensures q == DropLast(q) + [Last(q)]
    ensures |DropLast(q)| == |q| - 1 && forall i :: 0 <= i < |q| - 1 ==> DropLast(q)[i] == q[i]
  {
  }

  function Min(a: int, b: int): int
  {
    if a <= b then a else b
  }

  /** `acquire` sleeps when the queue is full and the oldest deadline lies strictly after `now`;
      a deadline equal to `now` admits at once, and below capacity no call sleeps. */
  predicate MustWait(limit: int, queue: seq<int>, now: int)
    ensures |queue| < limit ==> !MustWait(limit, queue, now)
  {
    limit <= |queue| && queue != [] && now < Last(queue)
  }

  /** The wait boundary is strict: at capacity, a call whose clock has reached the oldest deadline
      does not sleep, and one a nanosecond earlier does. */
  lemma WaitBoundary(limit: int, queue: seq<int>)
    requires limit <= |queue| && queue != []
    ensures !MustWait(limit, queue, Last(queue))
    ensures MustWait(limit, queue, Last(queue) - 1)
  {
  }

  /** With the queue newest-first, a call sleeps exactly when the queue is full and every deadline
      in it is still in the future. */
  lemma WaitsWhileAllPending(limit: int, queue: seq<int>, now: int)
    requires forall i, j :: 0 <= i <= j < |queue| ==> queue[j] <= queue[i]
    ensures MustWait(limit, queue, now) <==>
              limit <= |queue| && queue != [] && forall i :: 0 <= i < |queue| ==> now < queue[i]
  {
  }

  /** How `acquire` ends, given the clock readings `now` (before the deadline test) and `wake`
      (after any sleep) and whether the sleep is interrupted. */
  function AcquireOutcome(limit: int, queue: seq<int>, now: int, wake: int, interrupted: bool): (r: Outcome)
    // the null unboxing happens exactly when the limit is not positive and nothing is queued
    ensures r == NullDeadline <==> limit <= 0 && queue == []
    // only a call that sleeps can be interrupted
    ensures r == Interrupted <==> MustWait(limit, queue, now) && interrupted
    ensures r.Admitted? ==> r.at == wake
  {
    if limit <= |queue| && queue == [] then NullDeadline
    else if MustWait(limit, queue, now) && interrupted then Interrupted
    else Admitted(wake)
  }

  /** The queue after `acquire`, as written: at capacity the oldest deadline is taken off the back,
      and unless the sleep is interrupted the new deadline `wake + interval` goes on the front. */
  function QueueAfter(interval: int, limit: int, queue: seq<int>, now: int, wake: int, interrupted: bool): (r: seq<int>)
    ensures 0 < limit && |queue| <= limit ==> |r| <= limit
    ensures AcquireOutcome(limit, queue, now, wake, interrupted).Admitted? && 0 < limit && |queue| <= limit ==>
              |r| == Min(|queue| + 1, limit)
    // below capacity nothing is removed
    ensures |queue| < limit ==> r == [wake + interval] + queue
    // at capacity exactly the oldest deadline goes; the others keep their order
    ensures limit <= |queue| && queue != [] && AcquireOutcome(limit, queue, now, wake, interrupted).Admitted? ==>
              r == [wake + interval] + DropLast(queue)
    ensures AcquireOutcome(limit, queue, now, wake, interrupted) == Interrupted ==> r == DropLast(queue)
    ensures AcquireOutcome(limit, queue, now, wake, interrupted) == NullDeadline ==> r == queue
  {
    if limit <= |queue| && queue == [] then queue
    else
      var rest := if limit <= |queue| then DropLast(queue) else queue;
      if MustWait(limit, queue, now) && interrupted then rest else [wake + interval] + rest
  }

  /** The queue after `acquire` when an interrupted sleep puts back the deadline it took. It differs
      from the as-written queue only for an interrupted call, which then leaves the queue as it was. */
  function QueueAfterRestoring(interval: int, limit: int, queue: seq<int>, now: int, wake: int, interrupted: bool): (r: seq<int>)
    ensures AcquireOutcome(limit, queue, now, wake, interrupted) == Interrupted ==> r == queue
    ensures AcquireOutcome(limit, queue, now, wake, interrupted) != Interrupted ==>
              r == QueueAfter(interval, limit, queue, now, wake, interrupted)
  {
    if MustWait(limit, queue, now) && interrupted then DropLast(queue) + [Last(queue)]
    else QueueAfter(interval, limit, queue, now, wake, interrupted)
  }

  /** The ghost history a limiter keeps beside its queue. */
  datatype Log = Log(
    clock: int,            // the latest clock reading any call has made (the clock is monotonic)
    admitted: seq<int>,    // every admission instant, oldest first
    stretch: seq<nat>,     // for each admission, how many deadlines had been lost before it
    lostDeadlines: nat,    // how many interrupted calls have lost the deadline they polled
    run: nat               // how many admissions were granted since the last lost deadline
  )

  /** Two admissions `limit` apart that no lost deadline separates are at least `interval` apart. */
  ghost predicate StretchSpaced(limit: int, interval: int, log: Log)
    requires |log.stretch| == |log.admitted|
  {
    0 < limit ==>
      forall i :: 0 <= i && i + limit < |log.admitted| && log.stretch[i] == log.stretch[i + limit] ==>
        log.admitted[i] + interval <= log.admitted[i + limit]
  }

  /** The queue holds at most `limit` deadlines, newest first, none later than the clock allows. */
  ghost predicate QueueShape(interval: int, limit: int, queue: seq<int>, clock: int)
  {
    && 1 <= interval
    && (limit <= 0 ==> queue == [])
    && (0 < limit ==> |queue| <= limit)
    && (forall j :: 0 <= j < |queue| - 1 ==> queue[j + 1] <= queue[j])
    && (queue != [] ==> queue[0] <= clock + interval)
  }

  /** Admissions go forward in time; the last `run` of them form the current stretch. */
  ghost predicate HistoryShape(limit: int, log: Log)
  {
    && (limit <= 0 ==> log.admitted == [])
    && Sorted(log.admitted)
    && (log.admitted != [] ==> log.admitted[|log.admitted| - 1] <= log.clock)
    && |log.stretch| == |log.admitted|
    && log.run <= |log.admitted|
    && (forall k :: 0 <= k < |log.stretch| ==> log.stretch[k] <= log.lostDeadlines)
    && (forall k :: 0 <= k < |log.stretch| && log.stretch[k] == log.lostDeadlines ==> |log.admitted| - log.run <= k)
    && (forall k :: |log.admitted| - log.run <= k < |log.stretch| ==> log.stretch[k] == log.lostDeadlines)
  }

  /** The front of the queue holds the deadlines of the current stretch's admissions, newest first,
      as many of them as the queue can hold. */
  ghost predicate Tracks(interval: int, limit: int, queue: seq<int>, log: Log)
  {
    && (log.run <= |queue| || limit <= |queue|)
    && (forall j :: 0 <= j < |queue| && j < log.run && j < |log.admitted| ==>
          queue[j] == log.admitted[|log.admitted| - 1 - j] + interval)
  }

  /** The limiter's invariant. */
  ghost predicate Ledger(interval: int, limit: int, queue: seq<int>, log: Log)
  {
    && QueueShape(interval, limit, queue, log.clock)
    && HistoryShape(limit, log)
    && Tracks(interval, limit, queue, log)
    && StretchSpaced(limit, interval, log)
  }

  /** A later clock reading keeps the invariant. */
  lemma LaterClock(interval: int, limit: int, queue: seq<int>, log: Log, now: int)
    requires Ledger(interval, limit, queue, log) && log.clock <= now
    ensures Ledger(interval, limit, queue, log.(clock := now))
  {
  }

  /** An interrupted sleep, as written: the oldest deadline is gone and a new stretch begins. */
  lemma InterruptKeeps(interval: int, limit: int, queue: seq<int>, log: Log, now: int)
    requires Ledger(interval, limit, queue, log) && log.clock <= now
    requires limit <= |queue| && queue != []
    ensures Ledger(interval, limit, DropLast(queue),
                   log.(clock := now, lostDeadlines := log.lostDeadlines + 1, run := 0))
  {
  }

  /** The history after an admission at `wake`. */
  ghost function AdmittedAt(log: Log, wake: int): Log
  {
    log.(clock := wake, admitted := log.admitted + [wake], stretch := log.stretch + [log.lostDeadlines], run := log.run + 1)
  }

  /** Pushing the deadline of an admission at `wake`, onto the queue as it stands after the
      oldest deadline was taken when the queue was full. */
  lemma AdmitKeeps(interval: int, limit: int, queue: seq<int>, log: Log, wake: int, rest: seq<int>)
    requires Ledger(interval, limit, queue, log) && log.clock <= wake
    requires || (|queue| < limit && rest == queue)
             || (limit <= |queue| && queue != [] && rest == DropLast(queue) && Last(queue) <= wake)
    ensures Ledger(interval, limit, [wake + interval] + rest, AdmittedAt(log, wake))
  {
    AdmitQueueShape(interval, limit, queue, log, wake, rest);
    AdmitHistory(limit, log, wake);
    AdmitTracks(interval, limit, queue, log, wake, rest);
    AdmitSpaced(interval, limit, queue, log, wake, rest);
  }

  /** The new deadline is no earlier than the old front, so the queue stays newest-first. */
  lemma AdmitQueueShape(interval: int, limit: int, queue: seq<int>, log: Log, wake: int, rest: seq<int>)
    requires QueueShape(interval, limit, queue, log.clock) && log.clock <= wake
    requires || (|queue| < limit && rest == queue)
             || (limit <= |queue| && queue != [] && rest == DropLast(queue))
    ensures QueueShape(interval, limit, [wake + interval] + rest, wake)
  {
    var queue' := [wake + interval] + rest;
    forall j | 0 <= j < |queue'| - 1 ensures queue'[j + 1] <= queue'[j] {
      if j > 0 {
        assert queue'[j + 1] == queue[j] && queue'[j] == queue[j - 1];
      } else {
        assert queue'[1] == queue[0];
      }
    }
  }

  /** The admission at `wake` comes no earlier than any before it and joins the current stretch. */
  lemma AdmitHistory(limit: int, log: Log, wake: int)
    requires HistoryShape(limit, log) && log.clock <= wake && 0 < limit
    ensures HistoryShape(limit, AdmittedAt(log, wake))
  {
    var log' := AdmittedAt(log, wake);
    var n := |log.admitted|;
    forall i, j | 0 <= i <= j < n + 1 ensures log'.admitted[i] <= log'.admitted[j] {
      if j == n && i < n {
        assert log.admitted[i] <= log.admitted[n - 1];
      }
    }
    forall k | 0 <= k < n + 1 && log'.stretch[k] == log'.lostDeadlines ensures n + 1 - log'.run <= k {
      if k < n {
        assert log.stretch[k] == log.lostDeadlines;
      }
    }
    forall k | n + 1 - log'.run <= k < n + 1 ensures log'.stretch[k] == log'.lostDeadlines {
      if k < n {
        assert log'.stretch[k] == log.stretch[k];
      }
    }
  }

  /** The new front is the new admission's deadline; the rest of the stretch moves one place back. */
  lemma AdmitTracks(interval: int, limit: int, queue: seq<int>, log: Log, wake: int, rest: seq<int>)
    requires Tracks(interval, limit, queue, log) && 0 < limit && |queue| <= limit
    requires || (|queue| < limit && rest == queue)
             || (limit <= |queue| && queue != [] && rest == DropLast(queue))
    ensures Tracks(interval, limit, [wake + interval] + rest, AdmittedAt(log, wake))
  {
    var log' := AdmittedAt(log, wake);
    var queue' := [wake + interval] + rest;
    var n := |log.admitted|;
    forall j | 0 <= j < |queue'| && j < log'.run && j < n + 1 ensures queue'[j] == log'.admitted[n - j] + interval {
      if j > 0 {
        assert queue'[j] == queue[j - 1];
        assert log'.admitted[n - j] == log.admitted[n - 1 - (j - 1)];
      }
    }
  }

  /** The new admission keeps the spacing of its stretch: when the queue was full and the whole
      queue belongs to the current stretch, the deadline taken off was that of the admission
      `limit` places back, and the call did not proceed before it. */
  lemma AdmitSpaced(interval: int, limit: int, queue: seq<int>, log: Log, wake: int, rest: seq<int>)
    requires Ledger(interval, limit, queue, log) && log.clock <= wake
    requires || (|queue| < limit && rest == queue)
             || (limit <= |queue| && queue != [] && rest == DropLast(queue) && Last(queue) <= wake)
    ensures StretchSpaced(limit, interval, AdmittedAt(log, wake))
  {
    var log' := AdmittedAt(log, wake);
    var n := |log.admitted|;
    if 0 < limit {
      forall i | 0 <= i && i + limit < n + 1 && log'.stretch[i] == log'.stretch[i + limit]
        ensures log'.admitted[i] + interval <= log'.admitted[i + limit]
      {
        if i + limit == n {
          assert log.stretch[i] == log.lostDeadlines;
          assert limit <= log.run;
          assert queue[limit - 1] == log.admitted[n - 1 - (limit - 1)] + interval;
        } else {
          assert log'.admitted[i] == log.admitted[i] && log'.admitted[i + limit] == log.admitted[i + limit];
        }
      }
    }
  }

  /** The history after a call that ends in `outcome`. An interrupted call starts a new stretch
      only when it has lost a deadline (`lost`). */
  ghost function Recorded(log: Log, outcome: Outcome, now: int, lost: bool): Log
  {
    match outcome
    case Admitted(at) => AdmittedAt(log, at)
    case Interrupted =>
      if lost then log.(clock := now, lostDeadlines := log.lostDeadlines + 1, run := 0) else log.(clock := now)
    case NullDeadline => log.(clock := now)
  }

  /** One call of `acquire`, as written, keeps the invariant. */
  lemma AcquireKeeps(interval: int, limit: int, queue: seq<int>, log: Log, now: int, wake: int, interrupted: bool)
    requires Ledger(interval, limit, queue, log)
    requires log.clock <= now <= wake
    requires MustWait(limit, queue, now) && !interrupted ==> Last(queue) <= wake
    ensures Ledger(interval, limit, QueueAfter(interval, limit, queue, now, wake, interrupted),
                   Recorded(log, AcquireOutcome(limit, queue, now, wake, interrupted), now, true))
  {
    var outcome := AcquireOutcome(limit, queue, now, wake, interrupted);
    var after := QueueAfter(interval, limit, queue, now, wake, interrupted);
    var log' := Recorded(log, outcome, now, true);
    if outcome == NullDeadline {
      assert after == queue && log' == log.(clock := now);
      LaterClock(interval, limit, queue, log, now);
    } else if outcome == Interrupted {
      assert after == DropLast(queue);
      assert log' == log.(clock := now, lostDeadlines := log.lostDeadlines + 1, run := 0);
      InterruptKeeps(interval, limit, queue, log, now);
    } else {
      var rest := if limit <= |queue| then DropLast(queue) else queue;
      assert after == [wake + interval] + rest;
      assert log' == AdmittedAt(log, wake);
      AdmitKeeps(interval, limit, queue, log, wake, rest);
    }
  }

  /** One call of the corrected `acquire` keeps the invariant, and never starts a new stretch. */
  lemma AcquireRestoringKeeps(interval: int, limit: int, queue: seq<int>, log: Log, now: int, wake: int, interrupted: bool)
    requires Ledger(interval, limit, queue, log)
    requires log.clock <= now <= wake
    requires MustWait(limit, queue, now) && !interrupted ==> Last(queue) <= wake
    ensures Ledger(interval, limit, QueueAfterRestoring(interval, limit, queue, now, wake, interrupted),
                   Recorded(log, AcquireOutcome(limit, queue, now, wake, interrupted), now, false))
  {
    var outcome := AcquireOutcome(limit, queue, now, wake, interrupted);
    if outcome == Interrupted {
      assert DropLast(queue) + [Last(queue)] == queue;
      LaterClock(interval, limit, queue, log, now);
    } else {
      AcquireKeeps(interval, limit, queue, log, now, wake, interrupted);
    }
  }

  /** The quota holds over the admissions granted since the last lost deadline (with the code as
      written, since the last interrupted call): no window of length `interval` holds more than
      `limit` of them. */
  lemma {:induction false} RecentQuota(interval: int, limit: int, queue: seq<int>, log: Log, t: int)
    requires Ledger(interval, limit, queue, log) && 0 < limit
    ensures AdmissionsIn(log.admitted[|log.admitted| - log.run..], t, interval) <= limit
  {
    var n := |log.admitted|;
    var recent := log.admitted[n - log.run..];
    assert Sorted(recent) by {
      forall i, j | 0 <= i <= j < |recent| ensures recent[i] <= recent[j] {
        assert recent[i] == log.admitted[n - log.run + i] && recent[j] == log.admitted[n - log.run + j];
      }
    }
    assert Spaced(recent, limit, interval) by {
      forall i | 0 <= i && i + limit < |recent| ensures recent[i] + interval <= recent[i + limit] {
        var k := n - log.run + i;
        assert log.stretch[k] == log.lostDeadlines == log.stretch[k + limit];
        assert recent[i] == log.admitted[k] && recent[i + limit] == log.admitted[k + limit];
      }
    }
    SpacedBoundsWindows(recent, limit, interval, t);
  }

  /** When no call has lost a deadline to an interrupted sleep (as with the corrected `acquire`,
      which never does), the quota holds over every admission ever granted. */
  lemma {:induction false} UninterruptedQuota(interval: int, limit: int, queue: seq<int>, log: Log, t: int)
    requires Ledger(interval, limit, queue, log) && 0 < limit && log.lostDeadlines == 0
    ensures AdmissionsIn(log.admitted, t, interval) <= limit
  {
    // every admission so far belongs to the one stretch, so the current run covers them all
    if log.admitted != [] {
      assert log.stretch[0] == log.lostDeadlines;
    }
    assert log.run == |log.admitted|;
    assert log.admitted[|log.admitted| - log.run..] == log.admitted;
    RecentQuota(interval, limit, queue, log, t);
  }

  class FairRateLimiter {
    /** Window length in nanoseconds. */
    const interval: int
    /** Admissions allowed per window; never validated. */
    const limit: int
    /** Deadlines, newest first. */
    var queue: seq<int>
    /** What the limiter has done so far. */
    ghost var log: Log

    ghost predicate Valid()
      reads this
    {
      Ledger(interval, limit, queue, log)
    }

    /** `new FairRateLimiter(unit, requestLimit)`; `createdAt` is the clock reading at construction. */
    constructor (unit: TimeUnit, requestLimit: int32, ghost createdAt: int)
      ensures Valid()
      ensures interval == ToNanos(unit) && limit == requestLimit as int && queue == []
      ensures log == Log(createdAt, [], [], 0, 0)
    {
      interval := ToNanos(unit);
      limit := requestLimit as int;
      queue := [];
      log := Log(createdAt, [], [], 0, 0);
    }

    /** `acquire()`, as written. `now` is the clock reading the deadline is compared with, `wake`
        the reading the new deadline is computed from, `interrupted` whether a sleep is interrupted;
        `slept` says whether the call went to sleep. */
    method Acquire(now: int, wake: int, interrupted: bool) returns (outcome: Outcome, slept: bool)
      requires Valid()
      requires log.clock <= now <= wake
      // a sleep that is not interrupted lasts until the deadline it waits for
      requires MustWait(limit, queue, now) && !interrupted ==> Last(queue) <= wake
      modifies this
      ensures Valid()
      ensures slept == MustWait(limit, old(queue), now)
      ensures outcome == AcquireOutcome(limit, old(queue), now, wake, interrupted)
      ensures queue == QueueAfter(interval, limit, old(queue), now, wake, interrupted)
      ensures log == Recorded(old(log), outcome, now, true)
    {
      AcquireKeeps(interval, limit, queue, log, now, wake, interrupted);
      ghost var log' := Recorded(log, AcquireOutcome(limit, queue, now, wake, interrupted), now, true);
      ghost var after := QueueAfter(interval, limit, queue, now, wake, interrupted);
      slept := false;
      if |queue| >= limit {
        if queue == [] {
          log := log';
          return NullDeadline, slept;
        }
        var availableAt := Last(queue);
        queue := DropLast(queue);
        if availableAt > now {
          slept := true;
          if interrupted {
            assert queue == after;
            log := log';
            return Interrupted, slept;
          }
        }
      }
      queue := [wake + interval] + queue;
      assert queue == after;
      log := log';
      outcome := Admitted(wake);
    }

    /** `acquire()` as evidently intended: an interrupted sleep puts back the deadline it took, so
        the admission that deadline stands for still counts against the window. */
    method AcquireRestoring(now: int, wake: int, interrupted: bool) returns (outcome: Outcome, slept: bool)
      requires Valid()
      requires log.clock <= now <= wake
      requires MustWait(limit, queue, now) && !interrupted ==> Last(queue) <= wake
      modifies this
      ensures Valid()
      ensures slept == MustWait(limit, old(queue), now)
      ensures outcome == AcquireOutcome(limit, old(queue), now, wake, interrupted)
      ensures queue == QueueAfterRestoring(interval, limit, old(queue), now, wake, interrupted)
      ensures log == Recorded(old(log), outcome, now, false)
    {
      AcquireRestoringKeeps(interval, limit, queue, log, now, wake, interrupted);
      ghost var log' := Recorded(log, AcquireOutcome(limit, queue, now, wake, interrupted), now, false);
      ghost var after := QueueAfterRestoring(interval, limit, queue, now, wake, interrupted);
      slept := false;
      if |queue| >= limit {
        if queue == [] {
          log := log';
          return NullDeadline, slept;
        }
        var availableAt := Last(queue);
        queue := DropLast(queue);
        if availableAt > now {
          slept := true;
          if interrupted {
            // the only departure from `Acquire`: put the polled deadline back before failing
            queue := queue + [availableAt];
            assert queue == after;
            log := log';
            return Interrupted, slept;
          }
        }
      }
      queue := [wake + interval] + queue;
      assert queue == after;
      log := log';
      outcome := Admitted(wake);
    }
  }
}
