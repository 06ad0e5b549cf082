/**
 * `RateLimiter`: a sliding-window admission guard over the timestamps of the
 * calls it let through. Before each check the timestamps at the head of the
 * queue that are at least `time_window` old are dropped; the call is refused
 * when `max_calls` remain, and otherwise its timestamp is appended.
 *
 * The clock reading is a parameter (`now`, whole seconds), and the lock the
 * wrapper takes makes each admission one atomic step: a method call here.
 */
module RateLimiting {

  /** The limits of the process-wide limiter the API wrapper uses. */
  const API_MAX_CALLS: int := 100
  const API_TIME_WINDOW: int := 60

  const RATE_LIMIT_MESSAGE: string := "Rate limit exceeded. Please try again later."

  datatype Admission = Admitted | Rejected(message: string)

  /** What the wrapped call gives back: the wrapped function's value, or the exception raised instead. */
  datatype Outcome<R> = Returned(value: R) | RateLimitExceeded(message: string)

  predicate Sorted(s: seq<int>) {
    forall i, j :: 0 <= i < j < |s| ==> s[i] <= s[j]
  }

  /** Every timestamp is less than `window` old at `now`. */
  predicate InWindow(s: seq<int>, now: int, window: int) {
    forall i :: 0 <= i < |s| ==> now - s[i] < window
  }

  // ---------------------------------------------------------------------------
  // The specification of one admission

  /**
   * The queue after the eviction loop: the head is dropped while it is at
   * least `window` old. What is left is a suffix of the queue, every dropped
   * entry was old, and the new head (if any) is recent.
   */
  function Evict(calls: seq<int>, now: int, window: int): (kept: seq<int>)
    ensures |kept| <= |calls|
  {
    if calls != [] && now - calls[0] >= window then Evict(calls[1..], now, window) else calls
  }

  /** What eviction drops: a prefix of old entries, up to the first recent one. */
  lemma {:induction false} EvictDropsOldPrefix(calls: seq<int>, now: int, window: int)
    ensures var kept := Evict(calls, now, window);
      kept == calls[|calls| - |kept|..] &&
      (forall i :: 0 <= i < |calls| - |kept| ==> now - calls[i] >= window) &&
      (kept == [] || now - kept[0] < window)
    decreases |calls|
  {
    if calls != [] && now - calls[0] >= window {
      EvictDropsOldPrefix(calls[1..], now, window);
      var kept := Evict(calls, now, window);
      assert calls[1..][|calls| - 1 - |kept|..] == calls[|calls| - |kept|..];
      forall i | 0 <= i < |calls| - |kept| ensures now - calls[i] >= window {
        if i > 0 {
          assert calls[i] == calls[1..][i - 1];
        }
      }
    }
  }

  /** The timestamps less than `window` old at `now`, wherever they sit in the queue. */
  function Recent(calls: seq<int>, now: int, window: int): (r: seq<int>)
  {
    if calls == [] then []
    else (if now - calls[0] < window then [calls[0]] else []) + Recent(calls[1..], now, window)
  }

  /** One admission: the queue it leaves and the answer. */
  function Admit(calls: seq<int>, now: int, maxCalls: int, window: int): (seq<int>, Admission)
  {
    var kept := Evict(calls, now, window);
    if |kept| >= maxCalls then (kept, Rejected(RATE_LIMIT_MESSAGE)) else (kept + [now], Admitted)
  }

  // ---------------------------------------------------------------------------
  // What one admission does

  /**
   * A refused call records nothing: the queue is only the evicted one, and it
   * was full. An admitted call found room and appended exactly its own time.
   */
  lemma AdmitOutcome(calls: seq<int>, now: int, maxCalls: int, window: int)
    ensures var (next, a) := Admit(calls, now, maxCalls, window);
      a.Rejected? <==> |Evict(calls, now, window)| >= maxCalls
    ensures var (next, a) := Admit(calls, now, maxCalls, window);
      a.Rejected? ==> a.message == RATE_LIMIT_MESSAGE && next == Evict(calls, now, window) && |next| <= |calls|
    ensures var (next, a) := Admit(calls, now, maxCalls, window);
      a.Admitted? ==> next == Evict(calls, now, window) + [now] && |next| <= maxCalls
  {
  }

  /** On a queue in time order, eviction keeps exactly the recent timestamps. */
  lemma {:induction false} EvictIsRecent(calls: seq<int>, now: int, window: int)
    requires Sorted(calls)
    ensures Evict(calls, now, window) == Recent(calls, now, window)
    decreases |calls|
  {
    if calls != [] {
      if now - calls[0] >= window {
        EvictIsRecent(calls[1..], now, window);
      } else {
        AllRecent(calls, now, window);
      }
    }
  }

  /** When the head of a queue in time order is recent, every entry is. */
  lemma {:induction false} AllRecent(calls: seq<int>, now: int, window: int)
    requires Sorted(calls) && calls != [] && now - calls[0] < window
    ensures Recent(calls, now, window) == calls
    decreases |calls|
  {
    if |calls| > 1 {
      AllRecent(calls[1..], now, window);
    }
    assert calls == [calls[0]] + calls[1..];
  }

  lemma SortedTail(s: seq<int>)
    requires Sorted(s) && s != []
    ensures Sorted(s[1..])
  {
    forall i, j | 0 <= i < j < |s| - 1 ensures s[1..][i] <= s[1..][j] {
      assert s[1..][i] == s[i + 1] && s[1..][j] == s[j + 1];
    }
  }

  /** After eviction, a queue in time order holds only timestamps inside the window. */
  lemma {:induction false} EvictInWindow(calls: seq<int>, now: int, window: int)
    requires Sorted(calls)
    ensures InWindow(Evict(calls, now, window), now, window)
    decreases |calls|
  {
    if calls != [] {
      if now - calls[0] >= window {
        SortedTail(calls);
        EvictInWindow(calls[1..], now, window);
      } else {
        forall i | 0 <= i < |calls| ensures now - calls[i] < window {
          assert calls[0] <= calls[i];
        }
      }
    }
  }

  /** Eviction keeps a queue in time order. */
  lemma {:induction false} EvictSorted(calls: seq<int>, now: int, window: int)
    requires Sorted(calls)
    ensures Sorted(Evict(calls, now, window))
    decreases |calls|
  {
    if calls != [] && now - calls[0] >= window {
      SortedTail(calls);
      EvictSorted(calls[1..], now, window);
    }
  }

  /**
   * On a queue in time order, a call is admitted exactly when fewer than
   * `maxCalls` calls were admitted in the last `window` seconds.
   */
  lemma AdmittedIff(calls: seq<int>, now: int, maxCalls: int, window: int)
    requires Sorted(calls)
    ensures Admit(calls, now, maxCalls, window).1.Admitted? <==> |Recent(calls, now, window)| < maxCalls
  {
    EvictIsRecent(calls, now, window);
  }

  /** The queue the limiter keeps between calls. */
  predicate SortedAndBounded(calls: seq<int>, maxCalls: int) {
    Sorted(calls) && (calls == [] || |calls| <= maxCalls)
  }

  /**
   * With a clock that does not run backwards, an admission keeps the queue in
   * time order and never longer than `maxCalls`.
   */
  lemma AdmitPreserves(calls: seq<int>, now: int, maxCalls: int, window: int)
    requires SortedAndBounded(calls, maxCalls) && (calls == [] || calls[|calls| - 1] <= now)
    ensures SortedAndBounded(Admit(calls, now, maxCalls, window).0, maxCalls)
  {
    AdmitSorted(calls, now, maxCalls, window);
    AdmitBounded(calls, now, maxCalls, window);
  }

  lemma AdmitSorted(calls: seq<int>, now: int, maxCalls: int, window: int)
    requires Sorted(calls) && (calls == [] || calls[|calls| - 1] <= now)
    ensures Sorted(Admit(calls, now, maxCalls, window).0)
  {
    var kept := Evict(calls, now, window);
    EvictSorted(calls, now, window);
    if |kept| < maxCalls {
      EvictKeepsLast(calls, now, window);
      AppendSorted(kept, now);
    }
  }

  lemma AdmitBounded(calls: seq<int>, now: int, maxCalls: int, window: int)
    requires calls == [] || |calls| <= maxCalls
    ensures var next := Admit(calls, now, maxCalls, window).0;
      next == [] || |next| <= maxCalls
  {
  }

  /** On a queue in time order, every timestamp left after an admission is inside the window. */
  lemma AdmitInWindow(calls: seq<int>, now: int, maxCalls: int, window: int)
    requires Sorted(calls) && window > 0
    ensures InWindow(Admit(calls, now, maxCalls, window).0, now, window)
  {
    var kept := Evict(calls, now, window);
    EvictInWindow(calls, now, window);
    if |kept| < maxCalls {
      var next := kept + [now];
      assert forall i :: 0 <= i < |kept| ==> next[i] == kept[i];
    }
  }

  /** Eviction never drops the newest timestamp unless it drops them all. */
  lemma {:induction false} EvictKeepsLast(calls: seq<int>, now: int, window: int)
    ensures var kept := Evict(calls, now, window);
      kept != [] ==> kept[|kept| - 1] == calls[|calls| - 1]
    decreases |calls|
  {
    if calls != [] && now - calls[0] >= window {
      EvictKeepsLast(calls[1..], now, window);
    }
  }

  /** A time no earlier than the last keeps the queue in order when appended. */
  lemma AppendSorted(s: seq<int>, x: int)
    requires Sorted(s) && (s == [] || s[|s| - 1] <= x)
    ensures Sorted(s + [x])
  {
    var t := s + [x];
    forall i, j | 0 <= i < j < |t| ensures t[i] <= t[j] {
      if j < |s| {
        assert t[i] == s[i] && t[j] == s[j];
      } else {
        assert t[i] == s[i] && s[i] <= s[|s| - 1];
      }
    }
  }

  // ---------------------------------------------------------------------------
  // The limiter object

  class RateLimiter {
    const maxCalls: int
    const timeWindow: int
    /** The `deque` of admitted call times, oldest first. */
    var calls: seq<int>

    /** `RateLimiter(max_calls, time_window)`: no call recorded yet. */
    constructor(maxCalls: int, timeWindow: int)
      ensures this.maxCalls == maxCalls && this.timeWindow == timeWindow && calls == []
      ensures Valid()
    {
      this.maxCalls := maxCalls;
      this.timeWindow := timeWindow;
      calls := [];
    }

    predicate Valid()
      reads this
    {
      SortedAndBounded(calls, maxCalls)
    }

    /**
     * The locked block of the wrapper at clock reading `now`: evict, then
     * refuse when full, else record `now`.
     */
    method TryAdmit(now: int) returns (a: Admission)
      modifies this
      ensures (calls, a) == Admit(old(calls), now, maxCalls, timeWindow)
      ensures old(Valid()) && (old(calls) == [] || old(calls)[|old(calls)| - 1] <= now) ==> Valid()
      ensures old(Sorted(calls)) && timeWindow > 0 ==> InWindow(calls, now, timeWindow)
    {
      ghost var before := calls;
      while calls != [] && now - calls[0] >= timeWindow
        invariant Evict(calls, now, timeWindow) == Evict(before, now, timeWindow)
        decreases |calls|
      {
        calls := calls[1..];
      }
      assert calls == Evict(before, now, timeWindow);
      if |calls| >= maxCalls {
        a := Rejected(RATE_LIMIT_MESSAGE);
      } else {
        calls := calls + [now];
        a := Admitted;
      }
      assert (calls, a) == Admit(before, now, maxCalls, timeWindow);
      if SortedAndBounded(before, maxCalls) && (before == [] || before[|before| - 1] <= now) {
        AdmitPreserves(before, now, maxCalls, timeWindow);
      }
      if Sorted(before) && timeWindow > 0 {
        AdmitInWindow(before, now, maxCalls, timeWindow);
      }
    }

    /**
     * The wrapper around `func`: the function runs only when the call is
     * admitted; otherwise the rate-limit exception is the outcome.
     */
    method Call<A, R>(func: A -> R, arg: A, now: int) returns (r: Outcome<R>)
      modifies this
      ensures (calls, if r.Returned? then Admitted else Rejected(r.message)) == Admit(old(calls), now, maxCalls, timeWindow)
      ensures r.Returned? ==> r.value == func(arg)
    {
      var a := TryAdmit(now);
      if a.Rejected? {
        return RateLimitExceeded(a.message);
      }
      return Returned(func(arg));
    }
  }

  /** The limiter the API wrapper uses: 100 calls per 60 seconds. */
  method ApiRateLimiter() returns (limiter: RateLimiter)
    ensures fresh(limiter) && limiter.Valid() && limiter.calls == []
    ensures limiter.maxCalls == API_MAX_CALLS && limiter.timeWindow == API_TIME_WINDOW
  {
    limiter := new RateLimiter(API_MAX_CALLS, API_TIME_WINDOW);
  }

  /**
   * Two calls a minute: calls at 0 and 10 get in, a third at 20 is refused,
   * and a call at 60, when the first is a full window old, gets in again.
   */
  method TwoPerMinute() returns (first: Admission, second: Admission, third: Admission, fourth: Admission)
    ensures first == Admitted && second == Admitted
    ensures third == Rejected(RATE_LIMIT_MESSAGE)
    ensures fourth == Admitted
  {
    var limiter := new RateLimiter(2, 60);
    first := limiter.TryAdmit(0);
    second := limiter.TryAdmit(10);
    third := limiter.TryAdmit(20);
    fourth := limiter.TryAdmit(60);
  }
}
