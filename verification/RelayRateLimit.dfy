/** The rate limiter over whole concurrent runs.

    The relay keeps a pruned deque per pubkey and consults it in a step that is separate from the
    one that appends to it. These theorems relate the deque to the full list of recorded times and
    bound how many records any window can hold. */
module RelayRateLimit {
  import opened Basics
  import opened RelayStore
  import opened RelayProtocol

  // ---------------------------------------------------------------- counting times in a window

  /** How many of `times` lie in the closed window `[lo, lo + w]`. */
  function WindowCount(times: seq<uint64>, lo: int, w: int): nat {
    if times == [] then 0
    else
      var t := times[|times| - 1];
      WindowCount(times[..|times| - 1], lo, w) + Bit(lo <= t <= lo + w)
  }

  predicate Sorted(times: seq<uint64>) {
    forall i, j :: 0 <= i < j < |times| ==> times[i] <= times[j]
  }

  predicate UpTo(times: seq<uint64>, now: int) {
    forall i :: 0 <= i < |times| ==> times[i] <= now
  }

  lemma {:induction false} WindowCountSuffix(times: seq<uint64>, k: nat, lo: int, w: int)
    requires k <= |times|
    requires forall i :: 0 <= i < k ==> times[i] < lo
    requires forall i :: k <= i < |times| ==> lo <= times[i] <= lo + w
    ensures WindowCount(times, lo, w) == |times| - k
  {
    if times != [] {
      var n := |times| - 1;
      if k <= n {
        WindowCountSuffix(times[..n], k, lo, w);
      } else {
        WindowCountSuffix(times[..n], n, lo, w);
      }
    }
  }

  /** When nothing is newer than the end of a window, sliding it forwards only loses times. */
  lemma {:induction false} WindowCountSlides(times: seq<uint64>, lo: int, lo': int, w: int)
    requires lo <= lo' && UpTo(times, lo + w)
    ensures WindowCount(times, lo', w) <= WindowCount(times, lo, w)
  {
    if times != [] { WindowCountSlides(times[..|times| - 1], lo, lo', w); }
  }

  lemma WindowCountAppend(times: seq<uint64>, t: uint64, lo: int, w: int)
    ensures WindowCount(times + [t], lo, w) == WindowCount(times, lo, w) + Bit(lo <= t <= lo + w)
  {
    assert (times + [t])[..|times|] == times;
  }

  // ---------------------------------------------------------------- the deque against the history

  /** The first `m` times are all before `cutoff`. */
  ghost predicate Gone(times: seq<uint64>, m: nat, cutoff: int) {
    m <= |times| && forall i :: 0 <= i < m ==> times[i] < cutoff
  }

  ghost predicate IsSuffix(kept: seq<uint64>, times: seq<uint64>) {
    |kept| <= |times| && kept == times[|times| - |kept|..]
  }

  /** The deque `kept` is a suffix of the recorded `times`, and everything it lacks has already left
      the window at `now`. */
  ghost predicate Summarises(kept: seq<uint64>, times: seq<uint64>, w: int, now: int) {
    && Sorted(times) && UpTo(times, now)
    && IsSuffix(kept, times)
    && Gone(times, |times| - |kept|, now - w)
  }

  lemma {:induction false} PopOlderIsSuffix(times: seq<uint64>, cutoff: uint64) returns (k: nat)
    ensures k <= |times| && PopOlder(times, cutoff) == times[k..]
    ensures Gone(times, k, cutoff)
    ensures k < |times| ==> times[k] >= cutoff
  {
    if times != [] && times[0] < cutoff {
      var k' := PopOlderIsSuffix(times[1..], cutoff);
      k := k' + 1;
      assert forall i :: 0 < i < k ==> times[i] == times[1..][i - 1];
    } else {
      k := 0;
    }
  }

  lemma GoneExtends(times: seq<uint64>, kept: seq<uint64>, k: nat, cutoff: int)
    requires IsSuffix(kept, times) && Gone(times, |times| - |kept|, cutoff) && Gone(kept, k, cutoff)
    ensures kept[k..] == times[|times| - |kept| + k..]
    ensures Gone(times, |times| - |kept| + k, cutoff)
  {
    var d := |times| - |kept|;
    forall i | d <= i < d + k
      ensures times[i] < cutoff
    {
      assert times[i] == kept[i - d];
    }
  }

  lemma SortedWindowCount(times: seq<uint64>, m: nat, lo: int, w: int)
    requires Sorted(times) && UpTo(times, lo + w) && Gone(times, m, lo)
    requires m < |times| ==> lo <= times[m]
    ensures WindowCount(times, lo, w) == |times| - m
  {
    forall i | m <= i < |times|
      ensures lo <= times[i] <= lo + w
    {
      assert times[m] <= times[i];
    }
    WindowCountSuffix(times, m, lo, w);
  }

  /** Popping keeps the deque a faithful summary, and its length becomes the number of recorded
      times in `[now - w, now]`. */
  lemma {:induction false} PoppedLengthIsWindowCount(cfg: Config, kept: seq<uint64>, times: seq<uint64>, now: uint64)
    requires 0 <= cfg.rateWindow <= now
    requires Summarises(kept, times, cfg.rateWindow, now)
    ensures Summarises(PopOlder(kept, Cutoff(cfg, now)), times, cfg.rateWindow, now)
    ensures |PopOlder(kept, Cutoff(cfg, now))| == WindowCount(times, now - cfg.rateWindow, cfg.rateWindow)
  {
    var cutoff := now - cfg.rateWindow;
    assert Cutoff(cfg, now) == cutoff;
    var k := PopOlderIsSuffix(kept, cutoff);
    GoneExtends(times, kept, k, cutoff);
    var m := |times| - |kept| + k;
    assert m < |times| ==> times[m] == kept[k];
    SortedWindowCount(times, m, cutoff, cfg.rateWindow);
    assert PopOlder(kept, cutoff) == times[m..];
  }

  ghost predicate Faithful(sys: System, p: string) {
    Summarises(Times(sys.store.limiter, p), Times(sys.history.recorded, p), sys.store.cfg.rateWindow, sys.now)
  }

  /** What a step does to the times kept for pubkey `p`. */
  datatype Touch = Untouched | Checked | Recorded

  function TouchOf(sys: System, step: Step, p: string): Touch {
    if step.Advance? && step.session in sys.sessions then
      var pc := sys.sessions[step.session];
      if pc.KindAllowed? && pc.event.pubkey == p then Checked
      else if pc.Inserted? && pc.event.pubkey == p then Recorded
      else Untouched
    else Untouched
  }

  /** The effect of a step on the limiter's view of `p`: its deque, its history, the clock and the
      sessions in flight. */
  ghost predicate TouchEffect(sys: System, sys': System, touch: Touch, p: string) {
    var kept, kept' := Times(sys.store.limiter, p), Times(sys'.store.limiter, p);
    var times, times' := Times(sys.history.recorded, p), Times(sys'.history.recorded, p);
    var n, n' := InFlight(sys, FromRateCheckToRecord(p)), InFlight(sys', FromRateCheckToRecord(p));
    && SameLimits(sys'.store.cfg, sys.store.cfg)
    && sys.now <= sys'.now
    && match touch
       case Untouched => kept' == kept && times' == times && n' <= n
       case Checked =>
         && kept' == PopOlder(kept, Cutoff(sys.store.cfg, sys.now)) && times' == times && sys'.now == sys.now
         && n' == n + Bit(PassesRateCheck(sys.store, p, sys.now))
       case Recorded =>
         && kept' == kept + [sys.now] && times' == times + [sys.now] && sys'.now == sys.now
         && n' + 1 == n
  }

  lemma {:induction false} AdvanceHasTouchEffect(sys: System, s: nat, p: string)
    requires s in sys.sessions
    ensures TouchEffect(sys, AdvanceSession(sys, s), TouchOf(sys, Advance(s), p), p)
  {
    InFlightAfterMove(sys.sessions, s, AdvanceSession(sys, s).sessions[s], FromRateCheckToRecord(p));
    match sys.sessions[s]
    case KindAllowed(e) =>
    case Inserted(e) =>
    case _ =>
  }

  lemma {:induction false} StepHasTouchEffect(sys: System, step: Step, p: string)
    ensures TouchEffect(sys, Next(sys, step), TouchOf(sys, step, p), p)
  {
    var gap := FromRateCheckToRecord(p);
    match step
    case Open(s) => InFlightAfterMove(sys.sessions, s, Idle, gap);
    case Close(s) => if s in sys.sessions && sys.sessions[s].Idle? { InFlightAfterClose(sys.sessions, s, gap); }
    case Receive(s, e) => InFlightAfterMove(sys.sessions, s, NotBanned(e), gap);
    case Advance(s) => if s in sys.sessions { AdvanceHasTouchEffect(sys, s, p); }
    case _ =>
  }

  lemma SummaryAppend(kept: seq<uint64>, times: seq<uint64>, w: int, now: uint64)
    requires Summarises(kept, times, w, now)
    ensures Summarises(kept + [now], times + [now], w, now)
  {
    var d := |times| - |kept|;
    assert (times + [now])[d..] == times[d..] + [now];
  }

  lemma {:induction false} RunKeepsFaithful(cfg: Config, t0: uint64, steps: seq<Step>, p: string)
    requires 0 <= cfg.rateWindow <= t0
    ensures Faithful(Run(Start(cfg, t0), steps), p)
  {
    if steps != [] {
      var init := steps[..|steps| - 1];
      RunKeepsFaithful(cfg, t0, init, p);
      RunKeepsLimits(Start(cfg, t0), init);
      var sys, step := Run(Start(cfg, t0), init), steps[|steps| - 1];
      StepHasTouchEffect(sys, step, p);
      var kept, times := Times(sys.store.limiter, p), Times(sys.history.recorded, p);
      match TouchOf(sys, step, p) {
        case Untouched =>
        case Checked => PoppedLengthIsWindowCount(sys.store.cfg, kept, times, sys.now);
        case Recorded => SummaryAppend(kept, times, sys.store.cfg.rateWindow, sys.now);
      }
    }
  }

  /** How many recorded times of `p` lie in the window that ends now. */
  function Recent(sys: System, p: string): nat {
    WindowCount(Times(sys.history.recorded, p), sys.now - sys.store.cfg.rateWindow, sys.store.cfg.rateWindow)
  }

  lemma CheckCountsRecent(sys: System, p: string)
    requires 0 <= sys.store.cfg.rateWindow <= sys.now && Faithful(sys, p)
    requires Recent(sys, p) < 0x8000_0000
    ensures AnswersWindowCount(sys, p)
  {
    PoppedLengthIsWindowCount(sys.store.cfg, Times(sys.store.limiter, p), Times(sys.history.recorded, p), sys.now);
  }

  /** The rate check for `p` answers as a count over the full history would. */
  ghost predicate AnswersWindowCount(sys: System, p: string) {
    PassesRateCheck(sys.store, p, sys.now) <==> Recent(sys, p) < sys.store.cfg.rateLimitEvents
  }

  /** In every run, for every pubkey, the pruned deque is a sorted suffix of all recorded times that
      still holds everything in the window, so the rate check answers as a count over the full
      history would. (A window with 2^31 records or more would defeat the cast to `int`.) */
  lemma {:induction false} DequeRefinesHistory(cfg: Config, t0: uint64, steps: seq<Step>, p: string)
    requires 0 <= cfg.rateWindow <= t0
    ensures var sys := Run(Start(cfg, t0), steps);
            && Faithful(sys, p)
            && (Recent(sys, p) < 0x8000_0000 ==> AnswersWindowCount(sys, p))
  {
    var sys := Run(Start(cfg, t0), steps);
    RunKeepsLimits(Start(cfg, t0), steps);
    RunKeepsFaithful(cfg, t0, steps, p);
    if Recent(sys, p) < 0x8000_0000 {
      CheckCountsRecent(sys, p);
    }
  }

  // ---------------------------------------------------------------- the bound over concurrent runs

  /** No window of width `w`, wherever it starts, holds more than `bound` of `times`. */
  ghost predicate EveryWindow(times: seq<uint64>, w: int, bound: int) {
    forall lo: int :: WindowCount(times, lo, w) <= bound
  }

  /** The inductive invariant: the records in the current window and the sessions that still may add
      one together respect the bound, and so does every window of the past. */
  ghost predicate Bounded(sys: System, p: string, bound: int) {
    && Recent(sys, p) + InFlight(sys, FromRateCheckToRecord(p)) <= bound
    && EveryWindow(Times(sys.history.recorded, p), sys.store.cfg.rateWindow, bound)
  }

  lemma RecordKeepsWindows(times: seq<uint64>, now: uint64, w: nat, bound: int)
    requires UpTo(times, now) && EveryWindow(times, w, bound)
    requires WindowCount(times, now - w, w) + 1 <= bound
    ensures EveryWindow(times + [now], w, bound)
    ensures WindowCount(times + [now], now - w, w) == WindowCount(times, now - w, w) + 1
  {
    WindowCountAppend(times, now, now - w, w);
    forall lo: int
      ensures WindowCount(times + [now], lo, w) <= bound
    {
      WindowCountAppend(times, now, lo, w);
      if now - w <= lo { WindowCountSlides(times + [now], now - w, lo, w); }
    }
  }

  lemma {:induction false} UntouchedKeepsBound(sys: System, sys': System, p: string, bound: int)
    requires UpTo(Times(sys.history.recorded, p), sys.now)
    requires Bounded(sys, p, bound) && TouchEffect(sys, sys', Untouched, p)
    ensures Bounded(sys', p, bound)
  {
    var w := sys.store.cfg.rateWindow;
    WindowCountSlides(Times(sys.history.recorded, p), sys.now - w, sys'.now - w, w);
  }

  lemma {:induction false} CheckKeepsBound(sys: System, sys': System, p: string, t: nat)
    requires 0 <= sys.store.cfg.rateWindow <= sys.now && Faithful(sys, p)
    requires sys.store.cfg.rateLimitEvents + t <= 0x8000_0000
    requires Bounded(sys, p, sys.store.cfg.rateLimitEvents + t - 1)
    requires TouchEffect(sys, sys', Checked, p) && InFlight(sys', FromRateCheckToRecord(p)) <= t
    ensures Bounded(sys', p, sys.store.cfg.rateLimitEvents + t - 1)
  {
    CheckCountsRecent(sys, p);
  }

  lemma {:induction false} RecordKeepsBound(sys: System, sys': System, p: string, bound: int)
    requires 0 <= sys.store.cfg.rateWindow && UpTo(Times(sys.history.recorded, p), sys.now)
    requires Bounded(sys, p, bound) && TouchEffect(sys, sys', Recorded, p)
    ensures Bounded(sys', p, bound)
  {
    RecordKeepsWindows(Times(sys.history.recorded, p), sys.now, sys.store.cfg.rateWindow, bound);
  }

  lemma {:induction false} EffectKeepsBound(sys: System, sys': System, touch: Touch, p: string, t: nat)
    requires 0 <= sys.store.cfg.rateWindow <= sys.now && Faithful(sys, p)
    requires sys.store.cfg.rateLimitEvents + t <= 0x8000_0000
    requires Bounded(sys, p, sys.store.cfg.rateLimitEvents + t - 1)
    requires TouchEffect(sys, sys', touch, p)
    requires InFlight(sys', FromRateCheckToRecord(p)) <= t
    ensures Bounded(sys', p, sys.store.cfg.rateLimitEvents + t - 1)
  {
    match touch
    case Untouched => UntouchedKeepsBound(sys, sys', p, sys.store.cfg.rateLimitEvents + t - 1);
    case Checked => CheckKeepsBound(sys, sys', p, t);
    case Recorded => RecordKeepsBound(sys, sys', p, sys.store.cfg.rateLimitEvents + t - 1);
  }

  lemma {:induction false} RunKeepsBound(cfg: Config, t0: uint64, steps: seq<Step>, p: string, t: nat)
    requires 0 <= cfg.rateWindow <= t0
    requires 1 <= cfg.rateLimitEvents && 1 <= t && cfg.rateLimitEvents + t <= 0x8000_0000
    requires AtMostInFlight(Start(cfg, t0), steps, FromRateCheckToRecord(p), t)
    ensures Bounded(Run(Start(cfg, t0), steps), p, cfg.rateLimitEvents + t - 1)
  {
    var gap := FromRateCheckToRecord(p);
    if steps == [] {
      assert Holders(Start(cfg, t0).sessions, gap) == {};
    } else {
      var init := steps[..|steps| - 1];
      RunKeepsBound(cfg, t0, init, p, t);
      RunKeepsFaithful(cfg, t0, init, p);
      RunKeepsLimits(Start(cfg, t0), init);
      var sys, step := Run(Start(cfg, t0), init), steps[|steps| - 1];
      StepHasTouchEffect(sys, step, p);
      EffectKeepsBound(sys, Next(sys, step), TouchOf(sys, step, p), p, t);
    }
  }

  /** The rate limit over every interleaving: if never more than `t` sessions stand between the rate
      check and the record for pubkey `p`, no window `[lo, lo + W]` holds more than `N + t - 1` of
      its records. */
  lemma {:induction false} RateLimitOverRuns(cfg: Config, t0: uint64, steps: seq<Step>, p: string, t: nat, lo: int)
    requires 0 <= cfg.rateWindow <= t0
    requires 1 <= cfg.rateLimitEvents && 1 <= t && cfg.rateLimitEvents + t <= 0x8000_0000
    requires AtMostInFlight(Start(cfg, t0), steps, FromRateCheckToRecord(p), t)
    ensures WindowCount(Times(Run(Start(cfg, t0), steps).history.recorded, p), lo, cfg.rateWindow)
            <= cfg.rateLimitEvents + t - 1
  {
    RunKeepsBound(cfg, t0, steps, p, t);
    RunKeepsLimits(Start(cfg, t0), steps);
  }
}
