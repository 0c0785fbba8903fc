/**
 * The per-client sliding-window rate limiter of main.py (class RateLimiter).
 *
 * Time is an integer number of microseconds, the resolution of Python's
 * datetime; the caller passes it in where the source calls datetime.now().
 * A client's history is the list of the timestamps of its admitted requests.
 */
module RateLimiting {

  /** Microseconds per second. */
  const TicksPerSecond: int := 1_000_000

  /** The length of the window, timedelta(minutes=1), in ticks. */
  const Window: int := 60 * TicksPerSecond

  /** Python's int() applied to a duration of `ticks` microseconds counted in seconds: truncation toward zero. */
  function TruncSeconds(ticks: int): (s: int)
    ensures ticks >= 0 ==> 0 <= s && s * TicksPerSecond <= ticks < (s + 1) * TicksPerSecond
    ensures ticks < 0 ==> s <= 0 && (s - 1) * TicksPerSecond < ticks <= s * TicksPerSecond
  {
    if ticks >= 0 then ticks / TicksPerSecond else -((-ticks) / TicksPerSecond)
  }

  ghost predicate Sorted(ts: seq<int>)
  {
    forall i, j :: 0 <= i < j < |ts| ==> ts[i] <= ts[j]
  }

  /** The entries of `ts` strictly later than `cutoff`, in their original order. */
  function Prune(ts: seq<int>, cutoff: int): (kept: seq<int>)
    ensures |kept| <= |ts|
    ensures forall t :: t in kept <==> t in ts && t > cutoff
  {
    if ts == [] then []
    else if ts[0] > cutoff then [ts[0]] + Prune(ts[1..], cutoff)
    else Prune(ts[1..], cutoff)
  }

  /**
   * The retry hint max(1, int(60 - (now - oldest).total_seconds())).
   * It is at least one second; it is at most 60 seconds when `oldest` is not in
   * the future; it is the whole number of seconds left until `oldest` leaves the
   * window, rounded down, and 1 when less than that is left; so waiting one
   * second more than the hint always suffices.
   */
  function WaitSeconds(now: int, oldest: int): (w: int)
    ensures 1 <= w
    ensures oldest <= now ==> w <= 60
    ensures oldest + Window - now < (w + 1) * TicksPerSecond
    ensures oldest + Window - now >= TicksPerSecond ==> w * TicksPerSecond <= oldest + Window - now
    ensures w == 1 || w * TicksPerSecond <= oldest + Window - now
  {
    var s := TruncSeconds(Window - (now - oldest));
    if s > 1 then s else 1
  }

  /** The contract of WaitSeconds leaves exactly one possible hint. */
  lemma WaitSecondsDetermined(now: int, oldest: int, w: int)
    requires 1 <= w
    requires oldest + Window - now < (w + 1) * TicksPerSecond
    requires w == 1 || w * TicksPerSecond <= oldest + Window - now
    ensures w == WaitSeconds(now, oldest)
  {
  }

  /**
   * What one call returns: Admitted is (False, 0), Limited(w) is (True, w), and
   * IndexError is the exception raised by `[0]` on an empty pruned list, which
   * happens only when the limit is not positive.
   */
  datatype Verdict = Admitted | Limited(waitSeconds: int) | IndexError

  /** The client's new history and the verdict of one call. */
  datatype Step = Step(history: seq<int>, verdict: Verdict)

  /** One call of is_rate_limited at time `now`, on the history `h` of the calling client. */
  function ClientStep(h: seq<int>, limit: int, now: int): Step
  {
    var kept := Prune(h, now - Window);
    if |kept| >= limit then
      Step(kept, if |kept| == 0 then IndexError else Limited(WaitSeconds(now, kept[0])))
    else
      Step(kept + [now], Admitted)
  }

  /** The history stored for `ip`; a client never seen has the empty list. */
  function HistoryOf(m: map<string, seq<int>>, ip: string): seq<int>
  {
    if ip in m then m[ip] else []
  }

  /**
   * The invariant every stored history keeps while the clock does not run
   * backwards: sorted, no entry later than the latest call, at most `limit` entries.
   */
  ghost predicate WellFormed(ts: seq<int>, limit: int, latest: int)
  {
    && Sorted(ts)
    && (forall i :: 0 <= i < |ts| ==> ts[i] <= latest)
    && (ts == [] || |ts| <= limit)
  }

  // ---------------------------------------------------------------------------
  // Pruning

  lemma {:induction false} PruneAllLater(ts: seq<int>, cutoff: int)
    requires forall i :: 0 <= i < |ts| ==> ts[i] > cutoff
    ensures Prune(ts, cutoff) == ts
  {
    if ts != [] {
      PruneAllLater(ts[1..], cutoff);
    }
  }

  /** On a sorted history pruning drops exactly the prefix of stale entries. */
  lemma {:induction false} PruneSortedIsSuffix(ts: seq<int>, cutoff: int)
    requires Sorted(ts)
    ensures Prune(ts, cutoff) == ts[|ts| - |Prune(ts, cutoff)|..]
    ensures forall i :: 0 <= i < |ts| - |Prune(ts, cutoff)| ==> ts[i] <= cutoff
    ensures Sorted(Prune(ts, cutoff))
  {
    if ts != [] {
      if ts[0] > cutoff {
        PruneAllLater(ts, cutoff);
      } else {
        PruneSortedIsSuffix(ts[1..], cutoff);
      }
    }
  }

  /** Pruning distributes over concatenation, so it keeps the original order. */
  lemma {:induction false} PruneAppend(a: seq<int>, b: seq<int>, cutoff: int)
    ensures Prune(a + b, cutoff) == Prune(a, cutoff) + Prune(b, cutoff)
  {
    if a == [] {
      assert a + b == b;
    } else {
      assert (a + b)[1..] == a[1..] + b;
      PruneAppend(a[1..], b, cutoff);
    }
  }

  /** Pruning twice is pruning once at the later cutoff. */
  lemma {:induction false} PruneTwice(ts: seq<int>, first: int, second: int)
    ensures Prune(Prune(ts, first), second) == Prune(ts, if first > second then first else second)
  {
    if ts != [] {
      PruneTwice(ts[1..], first, second);
    }
  }

  /** A later cutoff keeps no more entries. */
  lemma {:induction false} PruneShrinks(ts: seq<int>, early: int, late: int)
    requires early <= late
    ensures |Prune(ts, late)| <= |Prune(ts, early)|
  {
    if ts != [] {
      PruneShrinks(ts[1..], early, late);
    }
  }

  // ---------------------------------------------------------------------------
  // One call

  /** The three outcomes of one call, stated once in terms of the pruned history. */
  lemma ClientStepCases(h: seq<int>, limit: int, now: int)
    ensures var s := ClientStep(h, limit, now);
            var kept := Prune(h, now - Window);
            && (s.verdict.Admitted? <==> |kept| < limit)
            && (s.verdict.Admitted? ==> s.history == kept + [now])
            && (!s.verdict.Admitted? ==> s.history == kept)
            && (s.verdict.IndexError? <==> kept == [] && limit <= 0)
            && (s.verdict.Limited? ==> kept != [] && s.verdict == Limited(WaitSeconds(now, kept[0])))
  {
  }

  /** The retry hint lies between 1 and 60 seconds when no timestamp is in the future. */
  lemma {:induction false} LimitedHintBounds(h: seq<int>, limit: int, now: int)
    requires forall i :: 0 <= i < |h| ==> h[i] <= now
    requires ClientStep(h, limit, now).verdict.Limited?
    ensures 1 <= ClientStep(h, limit, now).verdict.waitSeconds <= 60
  {
    var kept := Prune(h, now - Window);
    assert kept[0] in kept;
  }

  /** One call keeps the history well formed when the clock has not run backwards. */
  lemma {:induction false} ClientStepKeepsWellFormed(h: seq<int>, limit: int, now: int)
    requires WellFormed(h, limit, now)
    ensures WellFormed(ClientStep(h, limit, now).history, limit, now)
  {
    var kept := Prune(h, now - Window);
    PruneSortedIsSuffix(h, now - Window);
    forall i | 0 <= i < |kept|
      ensures kept[i] <= now
    {
      assert kept[i] in kept;
    }
  }

  lemma WellFormedLater(ts: seq<int>, limit: int, latest: int, later: int)
    requires WellFormed(ts, limit, latest) && latest <= later
    ensures WellFormed(ts, limit, later)
  {
  }

  /**
   * Waiting one second more than the hint always gets the next request in:
   * by then the oldest entry has left the window and fewer than `limit` remain.
   */
  lemma HintPlusOneSecondSuffices(h: seq<int>, limit: int, now: int, later: int)
    requires WellFormed(h, limit, now)
    requires ClientStep(h, limit, now).verdict.Limited?
    requires later >= now + (ClientStep(h, limit, now).verdict.waitSeconds + 1) * TicksPerSecond
    ensures ClientStep(ClientStep(h, limit, now).history, limit, later).verdict == Admitted
  {
  }

  /**
   * Waiting exactly the hint is not always enough, because the hint is rounded
   * down: with a limit of 1 and a request at 0 s, a call at 58.5 s is told to
   * wait 1 s, and a call at 59.5 s is still rejected.
   */
  lemma WaitingExactlyTheHintCanBeTooShort()
    ensures ClientStep([0], 1, 58_500_000) == Step([0], Limited(1))
    ensures ClientStep([0], 1, 58_500_000 + 1 * TicksPerSecond).verdict.Limited?
  {
  }

  // ---------------------------------------------------------------------------
  // A sequence of calls from one client

  /** The history after calls at `times`, in order, starting from a client never seen. */
  function Replay(limit: int, times: seq<int>): seq<int>
  {
    if times == [] then []
    else ClientStep(Replay(limit, times[..|times| - 1]), limit, times[|times| - 1]).history
  }

  /** The timestamps of the calls among `times` that were admitted, in order. */
  function AdmittedTimes(limit: int, times: seq<int>): seq<int>
  {
    if times == [] then []
    else
      var prefix := times[..|times| - 1];
      var last := times[|times| - 1];
      AdmittedTimes(limit, prefix)
        + (if ClientStep(Replay(limit, prefix), limit, last).verdict.Admitted? then [last] else [])
  }

  lemma {:induction false} ClientStepCount(h: seq<int>, limit: int, now: int, cutoff: int)
    ensures |Prune(ClientStep(h, limit, now).history, cutoff)| <= |Prune(h, cutoff)| + |Prune([now], cutoff)|
  {
    var kept := Prune(h, now - Window);
    PruneTwice(h, now - Window, cutoff);
    PruneShrinks(h, cutoff, if now - Window > cutoff then now - Window else cutoff);
    PruneAppend(kept, [now], cutoff);
  }

  /** The history never holds more recent entries than there were recent calls. */
  lemma {:induction false} ReplayCount(limit: int, times: seq<int>, cutoff: int)
    ensures |Prune(Replay(limit, times), cutoff)| <= |Prune(times, cutoff)|
  {
    if times != [] {
      var prefix, last := times[..|times| - 1], times[|times| - 1];
      ReplayCount(limit, prefix, cutoff);
      ClientStepCount(Replay(limit, prefix), limit, last, cutoff);
      assert times == prefix + [last];
      PruneAppend(prefix, [last], cutoff);
    }
  }

  /** A call is admitted whenever fewer than `limit` earlier calls lie in its window. */
  lemma FewRecentCallsAdmitted(limit: int, times: seq<int>, now: int)
    requires |Prune(times, now - Window)| < limit
    ensures ClientStep(Replay(limit, times), limit, now).verdict == Admitted
  {
    ReplayCount(limit, times, now - Window);
  }

  /** With a non-decreasing clock the history is exactly the admitted calls still in the window. */
  lemma {:induction false} HistoryIsAdmittedCallsInWindow(limit: int, times: seq<int>)
    requires Sorted(times) && times != []
    ensures Replay(limit, times) == Prune(AdmittedTimes(limit, times), times[|times| - 1] - Window)
  {
    var prefix, last := times[..|times| - 1], times[|times| - 1];
    var adm := AdmittedTimes(limit, prefix);
    var kept := Prune(Replay(limit, prefix), last - Window);
    if prefix == [] {
      assert adm == [];
    } else {
      var previous := prefix[|prefix| - 1];
      assert Sorted(prefix);
      HistoryIsAdmittedCallsInWindow(limit, prefix);
      assert previous <= last;
      PruneTwice(adm, previous - Window, last - Window);
    }
    assert kept == Prune(adm, last - Window);
    PruneAppend(adm, [last], last - Window);
    assert Prune([last], last - Window) == [last];
    if ClientStep(Replay(limit, prefix), limit, last).verdict.Admitted? {
      assert AdmittedTimes(limit, times) == adm + [last];
      assert Replay(limit, times) == kept + [last];
    } else {
      assert AdmittedTimes(limit, times) == adm;
      assert Replay(limit, times) == kept;
    }
  }

  /**
   * The decision is the sliding-window rule: a call is admitted exactly when
   * fewer than `limit` earlier admitted calls lie strictly inside the minute before it.
   */
  lemma {:induction false} DecisionIsSlidingWindow(limit: int, times: seq<int>, now: int)
    requires Sorted(times)
    requires forall i :: 0 <= i < |times| ==> times[i] <= now
    ensures ClientStep(Replay(limit, times), limit, now).verdict.Admitted?
            <==> |Prune(AdmittedTimes(limit, times), now - Window)| < limit
  {
    if times != [] {
      var last := times[|times| - 1];
      HistoryIsAdmittedCallsInWindow(limit, times);
      PruneTwice(AdmittedTimes(limit, times), last - Window, now - Window);
    }
  }

  lemma {:induction false} ReplayWellFormed(limit: int, times: seq<int>)
    requires Sorted(times) && times != []
    ensures WellFormed(Replay(limit, times), limit, times[|times| - 1])
  {
    var prefix, last := times[..|times| - 1], times[|times| - 1];
    if prefix != [] {
      ReplayWellFormed(limit, prefix);
      WellFormedLater(Replay(limit, prefix), limit, prefix[|prefix| - 1], last);
    }
    ClientStepKeepsWellFormed(Replay(limit, prefix), limit, last);
  }

  /** No trailing minute ending at a call holds more than `limit` admitted calls. */
  lemma {:induction false} AtMostLimitAdmittedPerWindow(limit: int, times: seq<int>)
    requires Sorted(times) && times != []
    ensures |Prune(AdmittedTimes(limit, times), times[|times| - 1] - Window)| <= if limit > 0 then limit else 0
  {
    HistoryIsAdmittedCallsInWindow(limit, times);
    ReplayWellFormed(limit, times);
  }

  /** Up to `limit` calls in a row are all admitted, whatever their times. */
  lemma {:induction false} ShortRunsAllAdmitted(limit: int, times: seq<int>)
    requires |times| <= limit
    ensures AdmittedTimes(limit, times) == times
  {
    if times != [] {
      var prefix, last := times[..|times| - 1], times[|times| - 1];
      ShortRunsAllAdmitted(limit, prefix);
      FewRecentCallsAdmitted(limit, prefix, last);
      assert times == prefix + [last];
    }
  }

  /**
   * A burst of `limit` calls within one minute is admitted in full, and the
   * next call inside that minute is rejected with a hint of at least a second.
   */
  lemma {:induction false} BurstThenLimited(limit: int, times: seq<int>, now: int)
    requires 1 <= limit && |times| == limit && Sorted(times)
    requires forall i :: 0 <= i < |times| ==> now - Window < times[i] <= now
    ensures AdmittedTimes(limit, times) == times
    ensures ClientStep(Replay(limit, times), limit, now).verdict.Limited?
    ensures ClientStep(Replay(limit, times), limit, now).verdict.waitSeconds >= 1
  {
    ShortRunsAllAdmitted(limit, times);
    DecisionIsSlidingWindow(limit, times, now);
    PruneAllLater(times, now - Window);
  }

  // ---------------------------------------------------------------------------
  // The object

  class RateLimiter {
    const requestsPerMinute: int
    var history: map<string, seq<int>>

    /** Every stored history is well formed, no later than `latest`. */
    ghost predicate Ordered(latest: int)
      reads this
    {
      forall ip :: ip in history ==> WellFormed(history[ip], requestsPerMinute, latest)
    }

    /** RateLimiter(requests_per_minute), whose default in the source is 10. */
    constructor (requestsPerMinute: int)
      ensures this.requestsPerMinute == requestsPerMinute
      ensures history == map[]
      ensures forall latest :: Ordered(latest)
    {
      this.requestsPerMinute := requestsPerMinute;
      history := map[];
    }

    /**
     * is_rate_limited(client_ip) at time `now`: the caller's list becomes its
     * pruned list, with `now` appended when the call is admitted; every other
     * client's list is untouched.
     */
    method IsRateLimited(clientIp: string, now: int) returns (v: Verdict)
      modifies this
      ensures history.Keys == old(history).Keys + {clientIp}
      ensures history == old(history)[clientIp := ClientStep(HistoryOf(old(history), clientIp), requestsPerMinute, now).history]
      ensures v == ClientStep(HistoryOf(old(history), clientIp), requestsPerMinute, now).verdict
      ensures old(Ordered(now)) ==> Ordered(now)
    {
      if Ordered(now) {
        ClientStepKeepsWellFormed(HistoryOf(history, clientIp), requestsPerMinute, now);
      }
      if clientIp !in history {
        history := history[clientIp := []];
      }
      var kept := Prune(history[clientIp], now - Window);
      history := history[clientIp := kept];
      if |kept| >= requestsPerMinute {
        if |kept| == 0 {
          v := IndexError;
          return;
        }
        var oldest := kept[0];
        v := Limited(WaitSeconds(now, oldest));
        return;
      }
      history := history[clientIp := history[clientIp] + [now]];
      v := Admitted;
    }
  }
}
