/** Facts about a record of admission instants, independent of how the limiter keeps its queue.

    An admission record is the sequence of clock readings (in nanoseconds) at which calls were
    admitted, oldest first. The rolling-window quota "at most `limit` admissions in any window of
    length `interval`" is stated here in two equivalent ways, and the equivalence is proved:
      - `Spaced`: any two admissions `limit` places apart are at least `interval` apart in time;
      - `AdmissionsIn(s, t, interval) <= limit` for every window start `t`.
 */
module Admissions {

  /** Admission instants never go back in time (a monotonic clock). */
  predicate Sorted(s: seq<int>)
  {
    forall i, j :: 0 <= i <= j < |s| ==> s[i] <= s[j]
  }

  /** Admissions `limit` places apart in the record are at least `interval` apart in time. */
  predicate Spaced(s: seq<int>, limit: nat, interval: int)
  {
    forall i :: 0 <= i && i + limit < |s| ==> s[i] + interval <= s[i + limit]
  }

  /** The number of admissions that fall in the half-open window [t, t + width). */
  function AdmissionsIn(s: seq<int>, t: int, width: int): (n: nat)
    ensures n <= |s|
  {
    if s == [] then 0
    else AdmissionsIn(s[..|s| - 1], t, width) + (if t <= s[|s| - 1] < t + width then 1 else 0)
  }

  /** Dropping later admissions never adds to a window's count. */
  lemma {:induction false} AdmissionsInPrefix(s: seq<int>, t: int, width: int, k: nat)
    requires k <= |s|
    ensures AdmissionsIn(s[..k], t, width) <= AdmissionsIn(s, t, width)
  {
    if k < |s| {
      assert s[..k] == s[..|s| - 1][..k];
      AdmissionsInPrefix(s[..|s| - 1], t, width, k);
    } else {
      assert s[..k] == s;
    }
  }

  /** When the first `a` admissions all precede the window, only the rest can fall in it. */
  lemma {:induction false} AdmissionsInAfterEarly(s: seq<int>, t: int, width: int, a: nat)
    requires a <= |s|
    requires forall k :: 0 <= k < a ==> s[k] < t
    ensures AdmissionsIn(s, t, width) <= |s| - a
  {
    if s != [] {
      var p := s[..|s| - 1];
      if |s| > a {
        AdmissionsInAfterEarly(p, t, width, a);
      } else {
        AdmissionsInAfterEarly(p, t, width, a - 1);
      }
    }
  }

  /** When the admissions from index `a` on all fall in the window, the window holds at least that many. */
  lemma {:induction false} AdmissionsInAtLeast(s: seq<int>, t: int, width: int, a: nat)
    requires a <= |s|
    requires forall k :: a <= k < |s| ==> t <= s[k] < t + width
    ensures |s| - a <= AdmissionsIn(s, t, width)
  {
    if |s| > a {
      AdmissionsInAtLeast(s[..|s| - 1], t, width, a);
    }
  }

  /** Spacing bounds every window: with admissions `limit` apart at least `interval` apart in time,
      no window of length `interval` holds more than `limit` admissions. */
  lemma {:induction false} SpacedBoundsWindows(s: seq<int>, limit: nat, interval: int, t: int)
    requires 1 <= limit
    requires Sorted(s) && Spaced(s, limit, interval)
    ensures AdmissionsIn(s, t, interval) <= limit
  {
    if s != [] {
      var n := |s|;
      var p := s[..n - 1];
      if !(t <= s[n - 1] < t + interval) {
        assert Spaced(p, limit, interval) by {
          forall i | 0 <= i && i + limit < |p| ensures p[i] + interval <= p[i + limit] {
            assert p[i] == s[i] && p[i + limit] == s[i + limit];
          }
        }
        SpacedBoundsWindows(p, limit, interval, t);
      } else if limit < n {
        var j := n - 1 - limit;
        assert s[j] + interval <= s[j + limit];
        forall k | 0 <= k < j + 1 ensures p[k] < t {
          assert s[k] <= s[j];
        }
        AdmissionsInAfterEarly(p, t, interval, j + 1);
      }
    }
  }

  /** Windows bound spacing: if no window of length `interval` holds more than `limit` admissions,
      then admissions `limit` apart are at least `interval` apart in time. */
  lemma {:induction false} WindowsBoundSpacing(s: seq<int>, limit: nat, interval: int)
    requires Sorted(s)
    requires forall t :: AdmissionsIn(s, t, interval) <= limit
    ensures Spaced(s, limit, interval)
  {
    forall i | 0 <= i && i + limit < |s| ensures s[i] + interval <= s[i + limit] {
      if s[i + limit] < s[i] + interval {
        var t := s[i];
        var q := s[..i + limit + 1];
        forall k | i <= k < |q| ensures t <= q[k] < t + interval {
          assert s[i] <= s[k] <= s[i + limit];
        }
        AdmissionsInAtLeast(q, t, interval, i);
        AdmissionsInPrefix(s, t, interval, i + limit + 1);
        assert false;
      }
    }
  }
}
