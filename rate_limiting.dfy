/**
 * The per-client sliding-window rate limiter of the user listing: at most
 * five requests whose timestamps lie within ten seconds of now (inclusive).
 * Timestamps are `DateTime` ticks of 100 ns; one reading of the clock,
 * `now`, stands for every reading the request makes.
 */
module RateLimiting {

  import opened Wrappers
  import Sequences

  /** `maxRequestsPer10Seconds`. */
  const MaxRequestsPerWindow: nat := 5

  /** `DateTime` ticks in one second. */
  const TicksPerSecond: nat := 10_000_000

  /** The window, ten seconds, in ticks. */
  const WindowTicks: nat := 10 * TicksPerSecond

  /** The `Retry-After` value, in seconds, sent with a rejection. */
  const RetryAfterSeconds: nat := 10

  /** `t` is at most ten seconds before `now`; a timestamp later than `now` also counts. */
  predicate InWindow(now: int, t: int)
  {
    now - t <= WindowTicks
  }

  /** The window test as a predicate on timestamps, for filtering the log. */
  function InWindowAt(now: int): int -> bool
  {
    t => InWindow(now, t)
  }

  /** The client's recent requests: the in-window timestamps, in logged order. */
  function Recent(log: seq<int>, now: int): seq<int>
  {
    Sequences.Filter(log, InWindowAt(now))
  }

  /** The client's log, or the empty log the source creates for a new client. */
  function LogOf(requestLog: map<string, seq<int>>, client: string): (log: seq<int>)
    ensures client in requestLog ==> log == requestLog[client]
    ensures client !in requestLog ==> log == []
  {
    if client in requestLog then requestLog[client] else []
  }

  /**
   * One admission check: `None` when the client already has five recent
   * requests (the log is then left as it was), otherwise the client's new
   * log, which keeps only the recent requests and ends with `now`.
   */
  function Admit(log: seq<int>, now: int): (r: Option<seq<int>>)
    ensures r.None? <==> |Recent(log, now)| >= MaxRequestsPerWindow
    ensures r.Some? ==> 1 <= |r.value| <= MaxRequestsPerWindow
    ensures r.Some? ==> r.value[|r.value| - 1] == now
    ensures r.Some? ==> forall t :: t in r.value ==> InWindow(now, t)
    ensures r.Some? ==> Sequences.IsSubsequence(r.value[..|r.value| - 1], log)
    ensures r.Some? ==> forall t :: multiset(r.value[..|r.value| - 1])[t] ==
                                    if InWindow(now, t) then multiset(log)[t] else 0
  {
    var recent := Recent(log, now);
    Sequences.FilterExact(log, InWindowAt(now));
    if |recent| >= MaxRequestsPerWindow then None
    else
      assert (recent + [now])[..|recent|] == recent;
      Some(recent + [now])
  }

  /**
   * Once every logged request is more than ten seconds old, the client is
   * admitted again and its log restarts with `now` alone.
   */
  lemma AdmissionResumesAfterWindow(log: seq<int>, now: int)
    requires forall t :: t in log ==> !InWindow(now, t)
    ensures Admit(log, now) == Some([now])
  {
    Sequences.FilterDropsAll(log, InWindowAt(now));
  }

  /** The decisions for requests from one client at the given times, in order. */
  function Replay(log: seq<int>, times: seq<int>): (decisions: seq<bool>)
    ensures |decisions| == |times|
    ensures |times| > 0 ==> (decisions[0] <==> |Recent(log, times[0])| < MaxRequestsPerWindow)
    decreases |times|
  {
    if times == [] then []
    else match Admit(log, times[0])
      case None => [false] + Replay(log, times[1..])
      case Some(next) => [true] + Replay(next, times[1..])
  }

  /** Every timestamp of `s` lies in the span `[lo, lo + WindowTicks]`. */
  ghost predicate WithinSpan(s: seq<int>, lo: int)
  {
    forall t :: t in s ==> lo <= t <= lo + WindowTicks
  }

  /**
   * Within one ten-second span no logged request ever leaves the window, so
   * a client holding `|log|` requests is admitted exactly `5 - |log|` more
   * times and rejected from then on.
   */
  lemma {:induction false} SpanAdmitsUpToLimit(log: seq<int>, times: seq<int>, lo: int)
    requires |log| <= MaxRequestsPerWindow
    requires WithinSpan(log, lo) && WithinSpan(times, lo)
    ensures forall i :: 0 <= i < |times| ==>
              (Replay(log, times)[i] <==> |log| + i < MaxRequestsPerWindow)
    decreases |times|
  {
    if times != [] {
      var now := times[0];
      assert now in times;
      Sequences.FilterKeepsAll(log, InWindowAt(now));
      assert Recent(log, now) == log;
      assert forall t :: t in times[1..] ==> t in times;
      var d := Replay(log, times);
      if |log| >= MaxRequestsPerWindow {
        SpanAdmitsUpToLimit(log, times[1..], lo);
        assert d == [false] + Replay(log, times[1..]);
      } else {
        var next := log + [now];
        assert Admit(log, now) == Some(next);
        SpanAdmitsUpToLimit(next, times[1..], lo);
        assert d == [true] + Replay(next, times[1..]);
      }
    }
  }

  /**
   * Starting from an empty log, requests at times inside one ten-second
   * span are admitted exactly five times: the first five pass and every
   * later one is rejected.
   */
  lemma FiveAdmittedPerSpan(times: seq<int>, lo: int)
    requires WithinSpan(times, lo)
    ensures forall i :: 0 <= i < |times| ==> (Replay([], times)[i] <==> i < MaxRequestsPerWindow)
  {
    SpanAdmitsUpToLimit([], times, lo);
  }

  /** The timestamps of the requests admitted by `Replay(log, times)`, in order. */
  function Admitted(log: seq<int>, times: seq<int>): seq<int>
    decreases |times|
  {
    if times == [] then []
    else match Admit(log, times[0])
      case None => Admitted(log, times[1..])
      case Some(next) => [times[0]] + Admitted(next, times[1..])
  }

  /** The timestamps whose decision is an admission, in order. */
  function Selected(times: seq<int>, decisions: seq<bool>): seq<int>
    requires |decisions| == |times|
    decreases |times|
  {
    if times == [] then []
    else (if decisions[0] then [times[0]] else []) + Selected(times[1..], decisions[1..])
  }

  /** The admitted timestamps are exactly those `Replay` decides to admit. */
  lemma {:induction false} AdmittedAreReplayed(log: seq<int>, times: seq<int>)
    ensures Admitted(log, times) == Selected(times, Replay(log, times))
    decreases |times|
  {
    if times != [] {
      match Admit(log, times[0])
      case None =>
        AdmittedAreReplayed(log, times[1..]);
      case Some(next) =>
        AdmittedAreReplayed(next, times[1..]);
    }
  }

  ghost predicate Nondecreasing(times: seq<int>)
  {
    forall i, j :: 0 <= i < j < |times| ==> times[i] <= times[j]
  }

  /** The window test on a concatenation looks at each part separately. */
  lemma {:induction false} RecentConcat(a: seq<int>, b: seq<int>, now: int)
    ensures Recent(a + b, now) == Recent(a, now) + Recent(b, now)
    decreases |a|
  {
    if a == [] {
      assert a + b == b;
    } else {
      assert (a + b)[0] == a[0];
      assert (a + b)[1..] == a[1..] + b;
      RecentConcat(a[1..], b, now);
    }
  }

  /**
   * Pruning at an earlier time loses nothing a later window needs: what is
   * recent at `later` was already recent at `earlier`.
   */
  lemma {:induction false} RecentOfRecent(log: seq<int>, earlier: int, later: int)
    requires earlier <= later
    ensures Recent(Recent(log, earlier), later) == Recent(log, later)
    decreases |log|
  {
    if log != [] {
      RecentOfRecent(log[1..], earlier, later);
      if InWindow(earlier, log[0]) {
        RecentConcat([log[0]], Recent(log[1..], earlier), later);
      }
    }
  }

  /**
   * The invariant of the sliding window: the client's log agrees with the
   * full history of its admitted requests on every window from `last` on.
   */
  ghost predicate AgreesFrom(log: seq<int>, history: seq<int>, last: int)
  {
    forall t :: t >= last ==> Recent(log, t) == Recent(history, t)
  }

  /** One admission check keeps the log in agreement with the history, from `now` on. */
  lemma AdmitKeepsAgreement(log: seq<int>, history: seq<int>, last: int, now: int)
    requires AgreesFrom(log, history, last) && last <= now
    ensures AgreesFrom(NextLog(log, now), history + Admitted(log, [now]), now)
  {
    if Admit(log, now).Some? {
      assert Admitted(log, [now]) == [now];
      forall t | t >= now
        ensures Recent(Recent(log, now) + [now], t) == Recent(history + [now], t)
      {
        RecentConcat(Recent(log, now), [now], t);
        RecentOfRecent(log, now, t);
        RecentConcat(history, [now], t);
      }
    } else {
      assert Admitted(log, [now]) == [];
      assert history + [] == history;
    }
  }

  /** The admitted requests of a non-empty prefix: the first decision, then the rest. */
  lemma AdmittedPrefix(log: seq<int>, times: seq<int>, j: nat)
    requires 1 <= j < |times|
    ensures Admitted(log, times[..j + 1])
              == Admitted(log, [times[0]]) + Admitted(NextLog(log, times[0]), times[1..][..j])
  {
    assert times[..j + 1][0] == times[0];
    assert times[..j + 1][1..] == times[1..][..j];
    assert [times[0]][1..] == [];
  }

  /**
   * Every request among `times` sees at most five requests of `history`
   * followed by the ones admitted so far (itself included) in its window.
   */
  ghost predicate WindowBound(history: seq<int>, log: seq<int>, times: seq<int>)
  {
    forall j :: 0 <= j < |times| ==>
      |Recent(history + Admitted(log, times[..j + 1]), times[j])| <= MaxRequestsPerWindow
  }

  /** The log after one admission check. */
  function NextLog(log: seq<int>, now: int): seq<int>
  {
    if Admit(log, now).Some? then Admit(log, now).value else log
  }

  /** The bound for the first request, given the agreement it leaves behind. */
  lemma FirstRequestBound(log: seq<int>, history: seq<int>, times: seq<int>)
    requires times != [] && |log| <= MaxRequestsPerWindow
    requires AgreesFrom(NextLog(log, times[0]), history + Admitted(log, [times[0]]), times[0])
    ensures |Recent(history + Admitted(log, times[..1]), times[0])| <= MaxRequestsPerWindow
  {
    var now := times[0];
    assert times[..1] == [now];
    assert Recent(history + Admitted(log, [now]), now) == Recent(NextLog(log, now), now);
  }

  /** The bound for the later requests follows from the bound on the rest. */
  lemma LaterRequestsBound(log: seq<int>, history: seq<int>, times: seq<int>)
    requires |times| > 1
    requires WindowBound(history + Admitted(log, [times[0]]), NextLog(log, times[0]), times[1..])
    ensures forall j :: 1 <= j < |times| ==>
              |Recent(history + Admitted(log, times[..j + 1]), times[j])| <= MaxRequestsPerWindow
  {
    var now := times[0];
    var next := NextLog(log, now);
    forall j | 1 <= j < |times|
      ensures |Recent(history + Admitted(log, times[..j + 1]), times[j])| <= MaxRequestsPerWindow
    {
      AdmittedPrefix(log, times, j);
      var first, rest := Admitted(log, [now]), Admitted(next, times[1..][..j]);
      assert history + (first + rest) == (history + first) + rest;
      assert times[1..][..j - 1 + 1] == times[1..][..j];
      assert times[1..][j - 1] == times[j];
    }
  }

  /** The tail of a time-ordered sequence is time-ordered. */
  lemma NondecreasingTail(times: seq<int>)
    requires times != [] && Nondecreasing(times)
    ensures Nondecreasing(times[1..])
  {
  }

  /**
   * While the log agrees with the history, every request sees at most five
   * admitted requests of the history, itself included, in its window.
   */
  lemma {:induction false} HistoryBound(log: seq<int>, history: seq<int>, times: seq<int>, last: int)
    requires |log| <= MaxRequestsPerWindow
    requires AgreesFrom(log, history, last)
    requires Nondecreasing(times)
    requires times != [] ==> last <= times[0]
    ensures WindowBound(history, log, times)
    decreases |times|
  {
    if times != [] {
      var now := times[0];
      AdmitKeepsAgreement(log, history, last, now);
      FirstRequestBound(log, history, times);
      if |times| > 1 {
        NondecreasingTail(times);
        assert now <= times[1..][0] by { assert times[1..][0] == times[1]; }
        HistoryBound(NextLog(log, now), history + Admitted(log, [now]), times[1..], now);
        LaterRequestsBound(log, history, times);
      }
    }
  }

  /**
   * The sliding-window guarantee: for requests arriving in time order, at
   * most five of those admitted up to any request lie in the ten seconds
   * before it, inclusive. Any ten-second window holds at most five admitted
   * requests, since it lies within the ten seconds before its last admitted one.
   */
  lemma AtMostFivePerWindow(times: seq<int>)
    requires Nondecreasing(times)
    ensures forall j :: 0 <= j < |times| ==>
              |Recent(Admitted([], times[..j + 1]), times[j])| <= MaxRequestsPerWindow
  {
    if times != [] {
      HistoryBound([], [], times, times[0]);
      forall j | 0 <= j < |times|
        ensures |Recent(Admitted([], times[..j + 1]), times[j])| <= MaxRequestsPerWindow
      {
        assert [] + Admitted([], times[..j + 1]) == Admitted([], times[..j + 1]);
      }
    }
  }
}
