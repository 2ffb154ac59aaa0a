# FairRateLimiter of crpt-api, modelled in Dafny

`CrptApi` is a client for a document-registration HTTP endpoint. Before every request it calls
`FairRateLimiter.acquire()`, a blocking sliding-window gate: at most `limit` admissions in any
window of `interval` nanoseconds, where `interval` is one unit of a `java.util.concurrent.TimeUnit`.

The limiter keeps a `LinkedList<Long>` of deadlines. A deadline is the clock reading at which a call
was admitted, plus `interval`. The newest deadline is at the front (`addFirst`); the oldest is at the
back (`pollLast`). One call of `acquire` does the following:

1. If the queue holds `limit` or more deadlines, it takes the oldest one off the back.
2. If that deadline is strictly later than the clock, it sleeps until the deadline.
3. It pushes `clock + interval` onto the front.

An interrupted sleep is rethrown as a `RuntimeException`. The fair lock serialises the calls.

The project has three files:

- `fair_rate_limiter.dfy`, module `CrptApi`. The class `FairRateLimiter` holds the fields
  `interval`, `limit` and `queue: seq<int>` (index 0 is the front). `Acquire` performs the `pollLast`
  and `addFirst` steps on `queue`. It is proved against pure step functions:
  - `MustWait` says whether the call sleeps;
  - `AcquireOutcome` says how the call ends;
  - `QueueAfter` gives the new queue.

  A ghost `log` records every admission and the number of lost deadlines: deadlines that an
  interrupted call polled and never put back. For each admission it also records how many deadlines
  had been lost before it. The admissions between two lost deadlines form a stretch. The invariant
  `Ledger` ties the queue to the log. It also states the quota: two admissions `limit` apart in the
  same stretch are at least `interval` apart in time.
- `admissions.dfy`, module `Admissions`. It states the rolling-window quota over a record of
  admission instants in two ways and proves they are equivalent. `Spaced` says admissions `limit`
  apart are `interval` apart. `AdmissionsIn(s, t, interval) <= limit` says that for every start
  `t`, the window holds at most `limit` admissions.
- `scenarios.dfy`, module `Scenarios`. Each method drives a limiter through a short schedule of calls and derives its
  results from the specifications alone. The schedules cover the fast path, blocking, reuse of an
  expired slot at the inclusive boundary, a non-positive limit, and the interrupted-sleep finding.

The clock is passed to each call as parameters:

- `now` is the reading that the oldest deadline is compared with (line 106);
- `wake` is the reading from which the new deadline is computed (line 114);
- `interrupted` says whether the sleep throws.

`Acquire` requires that the clock is monotonic (`log.clock <= now <= wake`). It also requires that a
sleep which is not interrupted lasts until its deadline. The constructor takes a ghost `createdAt`,
the clock reading at construction, which starts the monotonic clock.

Three behaviours of the code are worth noting:

- The constructor does not validate the limit. With `limit <= 0` the first `acquire` polls an
  empty queue, and unboxing the `null` it returns throws. The model returns `NullDeadline` in that
  case.
- The window is always one unit of the `TimeUnit`.
- An interrupted wait records no admission, but the oldest deadline has already been dropped
  (see Findings).

## Model

| member | source | states |
|---|---|---|
| `CrptApi.ToNanos` | src/main/java/org/sugrob/crptapiproject/CrptApi.java:93 | one unit of any `TimeUnit` is a positive number of nanoseconds that fits in a `long` |
| `CrptApi.FairRateLimiter.constructor` | src/main/java/org/sugrob/crptapiproject/CrptApi.java:92-97 | `interval` is one unit in nanoseconds, `limit` is the request limit unvalidated, the queue is empty, and the invariant holds |
| `CrptApi.MustWait` | src/main/java/org/sugrob/crptapiproject/CrptApi.java:103-106 | the sleep test: a call sleeps only when the queue holds `limit` or more deadlines and the oldest is strictly later than `now`; below capacity no call sleeps |
| `CrptApi.WaitBoundary` | src/main/java/org/sugrob/crptapiproject/CrptApi.java:103-106 | the boundary is strict: at capacity, a call whose clock equals the oldest deadline does not sleep, and one a nanosecond earlier does |
| `CrptApi.WaitsWhileAllPending` | src/main/java/org/sugrob/crptapiproject/CrptApi.java:103-106 | with the queue newest-first, a call sleeps exactly when the queue is full and every deadline in it is still in the future |
| `CrptApi.PollLast` | src/main/java/org/sugrob/crptapiproject/CrptApi.java:104 | `pollLast` splits the queue into the oldest deadline at the back (`Last`) and the rest (`DropLast`), which is one shorter and keeps its order |
| `CrptApi.AcquireOutcome` | src/main/java/org/sugrob/crptapiproject/CrptApi.java:103-119 | the null unboxing happens exactly when the limit is not positive and the queue is empty; a call ends interrupted exactly when it sleeps and the sleep is interrupted; an admitted call is admitted at the `wake` reading |
| `CrptApi.QueueAfter` | src/main/java/org/sugrob/crptapiproject/CrptApi.java:103-114 | at most `limit` deadlines before means at most `limit` after; an admission leaves `min(size + 1, limit)` deadlines; below capacity nothing is removed and `wake + interval` is prepended; at capacity exactly the oldest deadline is removed and the others keep their order; an interrupted call only removes the oldest |
| `CrptApi.QueueAfterRestoring` | src/main/java/org/sugrob/crptapiproject/CrptApi.java:104-119 | corrected queue update: an interrupted call leaves the queue as it was; every other call matches `QueueAfter` |
| `CrptApi.FairRateLimiter.Acquire` | src/main/java/org/sugrob/crptapiproject/CrptApi.java:99-121 | the call sleeps exactly when the queue is full and the oldest deadline is strictly later than `now`, so a deadline equal to `now` admits at once; the outcome and new queue are `AcquireOutcome` and `QueueAfter` of the old queue; the history records the admission or the interruption; the invariant is kept |
| `CrptApi.FairRateLimiter.AcquireRestoring` | src/main/java/org/sugrob/crptapiproject/CrptApi.java:99-121 | corrected `acquire`: same as `Acquire`, except that an interrupted sleep puts its deadline back, so it never loses a deadline |
| `CrptApi.AcquireKeeps` | src/main/java/org/sugrob/crptapiproject/CrptApi.java:99-121 | one call as written keeps the invariant: capacity, queue newest-first under a monotonic clock, the front entries, as many as the current stretch holds, are the deadlines of that stretch's latest admissions, and admissions `limit` apart in one stretch are `interval` apart |
| `CrptApi.AcquireRestoringKeeps` | src/main/java/org/sugrob/crptapiproject/CrptApi.java:99-121 | one corrected call keeps the same invariant without losing a deadline or starting a new stretch |
| `CrptApi.InterruptKeeps` | src/main/java/org/sugrob/crptapiproject/CrptApi.java:104-117 | an interrupted call drops the oldest deadline and keeps the invariant once a new stretch of admissions begins |
| `CrptApi.AdmitKeeps` | src/main/java/org/sugrob/crptapiproject/CrptApi.java:103-114 | prepending the deadline of an admission at `wake` keeps the invariant when the queue was below capacity or its oldest deadline was at most `wake` |
| `CrptApi.AdmitSpaced` | src/main/java/org/sugrob/crptapiproject/CrptApi.java:103-114 | the new admission is at least `interval` after the admission `limit` places back in its stretch, because that admission's deadline was the one taken off the queue |
| `CrptApi.RecentQuota` | src/main/java/org/sugrob/crptapiproject/CrptApi.java:99-121 | no window of length `interval` holds more than `limit` of the admissions granted since the last lost deadline, which as written is the last interrupted call |
| `CrptApi.UninterruptedQuota` | src/main/java/org/sugrob/crptapiproject/CrptApi.java:99-121 | with no lost deadline (always the case for the corrected call), no window of length `interval` holds more than `limit` admissions |
| `Admissions.AdmissionsIn` | src/main/java/org/sugrob/crptapiproject/CrptApi.java:99-121 | a window never holds more admissions than the record has |
| `Admissions.SpacedBoundsWindows` | src/main/java/org/sugrob/crptapiproject/CrptApi.java:99-121 | if admissions `limit` apart are `interval` apart in time, no window of length `interval` holds more than `limit` admissions |
| `Admissions.WindowsBoundSpacing` | src/main/java/org/sugrob/crptapiproject/CrptApi.java:99-121 | conversely, if no window of length `interval` holds more than `limit` admissions, then admissions `limit` apart are `interval` apart |
| `Admissions.AdmissionsInPrefix` | src/main/java/org/sugrob/crptapiproject/CrptApi.java:99-121 | dropping later admissions never raises a window's count |
| `Admissions.AdmissionsInAfterEarly` | src/main/java/org/sugrob/crptapiproject/CrptApi.java:99-121 | admissions before the window's start do not count |
| `Admissions.AdmissionsInAtLeast` | src/main/java/org/sugrob/crptapiproject/CrptApi.java:99-121 | admissions that lie in the window all count |
| `Scenarios.FastPath` | src/main/java/org/sugrob/crptapiproject/CrptApi.java:103-114 | three per second: three calls in quick succession are admitted at once and none sleeps |
| `Scenarios.BlockingPath` | src/main/java/org/sugrob/crptapiproject/CrptApi.java:103-114 | one per millisecond: a second call within the millisecond sleeps and is admitted at least a millisecond after the first |
| `Scenarios.ExpiryReuse` | src/main/java/org/sugrob/crptapiproject/CrptApi.java:103-114 | two per millisecond: once the first deadline has come, boundary included, a third call is admitted without sleeping |
| `Scenarios.NonPositiveLimit` | src/main/java/org/sugrob/crptapiproject/CrptApi.java:92-104 | with a limit of zero or less the first call fails on the null deadline |
| `Scenarios.InterruptedSleepFreesSlot` | src/main/java/org/sugrob/crptapiproject/CrptApi.java:104-117 | as written, with one request per microsecond, the limiter's own history of admissions becomes `[0, 2]` around an interrupted call, two admissions in one window |
| `Scenarios.RestoredSlotStillWaits` | src/main/java/org/sugrob/crptapiproject/CrptApi.java:104-117 | corrected, the same schedule makes the third call sleep until the first deadline |

## Left out

- The fair `ReentrantLock` and its first-come-first-served order (lines 90, 96, 101, 119). Calls are modelled one after another, as the lock serialises them. Fairness between threads is a scheduling property and is not modelled.
- `System.nanoTime()` and `TimeUnit.NANOSECONDS.sleep` (lines 106, 110, 114). Clock readings are parameters. The sleep becomes a precondition relating `wake` to the deadline: a sleep that is not interrupted never ends before its deadline. `TimeUnit.sleep` calls `Thread.sleep(ms, ns)`, which on JDKs before 21 rounds the sub-millisecond part to the nearest millisecond, so a wait can end up to about half a millisecond early. Neither `RecentQuota` nor `UninterruptedQuota` covers that case.
- The second clock reading at line 110, which sets the sleep's length. When the clock has reached the deadline by then, `sleep` returns at once and cannot be interrupted. The model lets `interrupted` take effect whenever the test at line 106 sends the call to sleep.
- `CrptApi.FairRateLimiter.Acquire`: deadlines and clock readings are unbounded integers. The `long` wrap-around of `nanoTime() + interval` and of the comparison at line 106 is not modelled, because `nanoTime` values stay far from the bound in practice.
- `CrptApi.CreateDocument` (lines 40-63), which calls `acquire` and then sends the document over HTTP. It logs I/O errors (lines 58-59) and non-200 statuses (line 56) and returns `null`. Exceptions thrown by `acquire` at line 41, the model's `Interrupted` and `NullDeadline` outcomes, reach its caller unlogged. It is I/O through Apache HttpClient and Jackson.
- `CrptApiHttpClientBuilder` (lines 65-84), the connection pool and timeout configuration.
- `CrptDocument`, `Description` and `CrptProduct` (lines 124-193), getter and setter records with no logic.
- `CrptApiProjectApplication`, the application entry point and a demo that calls `CreateDocument` from a parallel stream.

## Findings

| source | as written | input that shows it | evidently intended | confidence | as-written member | corrected member |
|---|---|---|---|---|---|---|
| src/main/java/org/sugrob/crptapiproject/CrptApi.java:104-117 | `pollLast` removes the oldest deadline before the sleep. When the sleep is interrupted the exception leaves `acquire`, and the deadline is never put back, although the admission it stands for is still inside its window. | `TimeUnit.MICROSECONDS`, limit 1: a call at 0 ns is admitted; a call at 1 ns sleeps and is interrupted; a call at 2 ns finds the queue empty and is admitted at once. That gives two admissions in one microsecond. | An interrupted call leaves the queue as it found it, so the next caller still waits for that deadline and the quota holds whatever the interruptions. | medium; not executed | `Scenarios.InterruptedSleepFreesSlot` | `CrptApi.FairRateLimiter.AcquireRestoring` |

The as-written `Acquire` keeps a weaker guarantee, which `RecentQuota` proves: the quota holds for
the current stretch of admissions (those since the last interrupted call), and so for each earlier
stretch at the moment it ended. The corrected `AcquireRestoring`
never starts a new stretch, so `UninterruptedQuota` covers all of its admissions.
`Scenarios.RestoredSlotStillWaits` runs the finding's schedule through the corrected call.
