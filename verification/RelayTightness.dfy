/** When the rate limit holds, exactly: the bound of `RateLimitOverRuns` is reached by some interleaving, and
    a window that exceeds the clock limits nothing. */
module RelayTightness {
  import opened Basics
  import opened RelayStore
  import opened RelayProtocol
  import opened RelayRateLimit
  import opened RelayStorage
  import opened RelayRuns

  // ---------------------------------------------------------------- states of the run

  /** The deque has `n` entries of this instant, unless the window exceeds the clock: then every check
      empties it. */
  ghost predicate DequeOf(kept: seq<uint64>, cfg: Config, now: uint64, n: nat) {
    && (forall i :: 0 <= i < |kept| ==> kept[i] == now)
    && (cfg.rateWindow <= now ==> |kept| == n)
  }

  /** `n` events have been recorded, always at this instant, and deleted. */
  ghost predicate Held(sys: System, cfg: Config, p: string, now: uint64, n: nat) {
    && KeepsSettings(sys, cfg) && sys.now == now && sys.store.events == []
    && DequeOf(Times(sys.store.limiter, p), cfg, now, n)
    && Times(sys.history.recorded, p) == Same(n, now)
  }

  /** Sessions `lo` to `hi - 1` are past the rate check and the others idle. */
  ghost predicate PastRateCheck(sessions: map<nat, Pc>, e: StoredEvent, lo: nat, hi: nat) {
    && (forall s: nat :: s in sessions ==> sessions[s] == if lo <= s < hi then RateOk(e) else Idle)
    && (forall s: nat :: lo <= s < hi ==> s in sessions)
  }

  // ---------------------------------------------------------------- one session

  /** At the instant of all its entries the deque stays as it is, and passes while below the limit; a
      deque that every check empties always passes. */
  lemma {:induction false} CheckAtOneInstant(cfg: Config, kept: seq<uint64>, now: uint64, n: nat)
    requires 0 <= cfg.rateWindow && 1 <= cfg.rateLimitEvents && DequeOf(kept, cfg, now, n)
    requires n < cfg.rateLimitEvents || now < cfg.rateWindow
    ensures DequeOf(PopOlder(kept, Cutoff(cfg, now)), cfg, now, n)
    ensures UnderLimit(cfg, PopOlder(kept, Cutoff(cfg, now)))
  {
    var k := PopOlderIsSuffix(kept, Cutoff(cfg, now));
  }

  lemma {:induction false} PassHeld(sys: System, s: nat, cfg: Config, e: StoredEvent, now: uint64, n: nat)
    requires 0 <= cfg.rateWindow && 1 <= cfg.rateLimitEvents && Acceptable(cfg, e)
    requires n < cfg.rateLimitEvents || now < cfg.rateWindow
    requires Held(sys, cfg, e.pubkey, now, n) && (s in sys.sessions ==> sys.sessions[s].Idle?)
    ensures var next := Run(sys, PassSteps(s, e));
            Held(next, cfg, e.pubkey, now, n) && next.sessions == sys.sessions[s := RateOk(e)]
  {
    CheckAtOneInstant(cfg, Times(sys.store.limiter, e.pubkey), now, n);
    assert Cutoff(sys.store.cfg, now) == Cutoff(cfg, now);
    Pass(sys, s, e);
  }

  /** From the rate check to the record, and the operator deletes what was stored. */
  function FinishSteps(s: nat, p: string): seq<Step> {
    [Advance(s)] + [Advance(s), Advance(s)] + [DeleteByPubkey(p)]
  }

  lemma {:induction false} FinishActsIn(s: nat, p: string, a: set<nat>)
    requires s in a
    ensures AllActIn(FinishSteps(s, p), a)
  {
  }

  lemma {:induction false} DeleteTheOnly(sys: System, e: StoredEvent)
    requires sys.store.events == [e]
    ensures var next := Run(sys, [DeleteByPubkey(e.pubkey)]);
            && next.store == sys.store.(events := []) && next.now == sys.now && next.sessions == sys.sessions
            && next.history.recorded == sys.history.recorded
  {
    RunThree(sys, DeleteByPubkey(e.pubkey), Prune, Prune);
    assert [e][..0] == [];
    assert Part([e], ByPubkey(e.pubkey), false) == [];
  }

  lemma {:induction false} ApproveAndLand(sys: System, s: nat, e: StoredEvent)
    requires s in sys.sessions && sys.sessions[s] == RateOk(e) && sys.store.events == []
    requires Fits(sys.store, e)
    ensures Run(sys, [Advance(s)] + [Advance(s), Advance(s)])
            == Goto(Record(Insert(Goto(sys, s, Approved(e)), e), e.pubkey), s, Idle)
  {
    Approve(sys, s, e);
    RunConcat(sys, [Advance(s)], [Advance(s), Advance(s)]);
    Land(Goto(sys, s, Approved(e)), s, e);
  }

  lemma {:induction false} LandOnly(sys: System, s: nat, e: StoredEvent)
    requires s in sys.sessions && sys.sessions[s] == RateOk(e) && sys.store.events == []
    requires Fits(sys.store, e)
    ensures var next := Run(sys, FinishSteps(s, e.pubkey));
            && next.sessions == sys.sessions[s := Idle] && next.now == sys.now
            && next.store == AfterRecord(sys.store, e.pubkey, sys.now)
            && next.history.recorded
               == sys.history.recorded[e.pubkey := Times(sys.history.recorded, e.pubkey) + [sys.now]]
  {
    var landed := Goto(Record(Insert(Goto(sys, s, Approved(e)), e), e.pubkey), s, Idle);
    ApproveAndLand(sys, s, e);
    DeleteTheOnly(landed, e);
    RunConcat(sys, [Advance(s)] + [Advance(s), Advance(s)], [DeleteByPubkey(e.pubkey)]);
    assert sys.sessions[s := Approved(e)][s := Idle] == sys.sessions[s := Idle];
  }

  lemma {:induction false} FinishHeld(sys: System, s: nat, cfg: Config, e: StoredEvent, now: uint64, n: nat)
    requires AcceptsEvents(cfg) && Acceptable(cfg, e)
    requires Held(sys, cfg, e.pubkey, now, n) && s in sys.sessions && sys.sessions[s] == RateOk(e)
    ensures var next := Run(sys, FinishSteps(s, e.pubkey));
            Held(next, cfg, e.pubkey, now, n + 1) && next.sessions == sys.sessions[s := Idle]
  {
    LandOnly(sys, s, e);
    OneMore(n, now);
  }

  // ---------------------------------------------------------------- phases

  /** One session has one more event recorded. */
  lemma {:induction false} OneEvent(sys: System, cfg: Config, e: StoredEvent, now: uint64, n: nat)
    requires 0 <= cfg.rateWindow && AcceptsEvents(cfg) && Acceptable(cfg, e)
    requires n < cfg.rateLimitEvents || now < cfg.rateWindow
    requires Held(sys, cfg, e.pubkey, now, n) && PastRateCheck(sys.sessions, e, 0, 0)
    ensures AllActIn(PassSteps(0, e) + FinishSteps(0, e.pubkey), Between(0, 1))
    ensures var next := Run(sys, PassSteps(0, e) + FinishSteps(0, e.pubkey));
            Held(next, cfg, e.pubkey, now, n + 1) && PastRateCheck(next.sessions, e, 0, 0)
  {
    PassHeld(sys, 0, cfg, e, now, n);
    FinishHeld(Run(sys, PassSteps(0, e)), 0, cfg, e, now, n);
    RunConcat(sys, PassSteps(0, e), FinishSteps(0, e.pubkey));
    PassActsIn(0, e, Between(0, 1));
    FinishActsIn(0, e.pubkey, Between(0, 1));
  }

  /** Session 0 has `n` events recorded, one after the other. */
  lemma {:induction false} Fill(cfg: Config, e: StoredEvent, now: uint64, n: nat) returns (steps: seq<Step>)
    requires 0 <= cfg.rateWindow && AcceptsEvents(cfg) && Acceptable(cfg, e)
    requires n <= cfg.rateLimitEvents || now < cfg.rateWindow
    ensures AllActIn(steps, Between(0, 1))
    ensures var next := Run(Start(cfg, now), steps);
            Held(next, cfg, e.pubkey, now, n) && PastRateCheck(next.sessions, e, 0, 0)
  {
    if n == 0 {
      steps := [];
    } else {
      var init := Fill(cfg, e, now, n - 1);
      OneEvent(Run(Start(cfg, now), init), cfg, e, now, n - 1);
      RunConcat(Start(cfg, now), init, PassSteps(0, e) + FinishSteps(0, e.pubkey));
      steps := init + (PassSteps(0, e) + FinishSteps(0, e.pubkey));
    }
  }

  lemma {:induction false} OneMorePast(sessions: map<nat, Pc>, e: StoredEvent, lo: nat, hi: nat)
    requires PastRateCheck(sessions, e, lo, hi) && lo <= hi
    ensures PastRateCheck(sessions[hi := RateOk(e)], e, lo, hi + 1)
    ensures lo < hi ==> PastRateCheck(sessions[lo := Idle], e, lo + 1, hi)
  {
  }

  /** The first `k` sessions pass the rate check, none having recorded yet. */
  lemma {:induction false} PassAll(sys: System, cfg: Config, e: StoredEvent, now: uint64, n: nat, k: nat)
    returns (steps: seq<Step>)
    requires 0 <= cfg.rateWindow && Acceptable(cfg, e) && n < cfg.rateLimitEvents
    requires Held(sys, cfg, e.pubkey, now, n) && PastRateCheck(sys.sessions, e, 0, 0)
    ensures AllActIn(steps, Between(0, k))
    ensures var next := Run(sys, steps);
            Held(next, cfg, e.pubkey, now, n) && PastRateCheck(next.sessions, e, 0, k)
  {
    if k == 0 {
      steps := [];
    } else {
      var init := PassAll(sys, cfg, e, now, n, k - 1);
      var sessions := Run(sys, init).sessions;
      PassHeld(Run(sys, init), k - 1, cfg, e, now, n);
      OneMorePast(sessions, e, 0, k - 1);
      PassActsIn(k - 1, e, Between(0, k));
      ActInConcat(init, PassSteps(k - 1, e), Between(0, k - 1), Between(0, k));
      RunConcat(sys, init, PassSteps(k - 1, e));
      steps := init + PassSteps(k - 1, e);
    }
  }

  lemma {:induction false} FinishOneMore(
      sys: System, init: seq<Step>, cfg: Config, e: StoredEvent, now: uint64, t: nat, n: nat, k: nat)
    returns (steps: seq<Step>)
    requires AcceptsEvents(cfg) && Acceptable(cfg, e) && k < t && AllActIn(init, Between(0, k))
    requires Held(Run(sys, init), cfg, e.pubkey, now, n) && PastRateCheck(Run(sys, init).sessions, e, k, t)
    ensures AllActIn(steps, Between(0, k + 1))
    ensures Held(Run(sys, steps), cfg, e.pubkey, now, n + 1) && PastRateCheck(Run(sys, steps).sessions, e, k + 1, t)
  {
    var finish := FinishSteps(k, e.pubkey);
    FinishHeld(Run(sys, init), k, cfg, e, now, n);
    OneMorePast(Run(sys, init).sessions, e, k, t);
    FinishActsIn(k, e.pubkey, Between(0, k + 1));
    ActInConcat(init, finish, Between(0, k), Between(0, k + 1));
    RunConcat(sys, init, finish);
    steps := init + finish;
  }

  /** The first `k` of the `t` sessions past the rate check record. */
  lemma {:induction false} FinishAll(sys: System, cfg: Config, e: StoredEvent, now: uint64, t: nat, n: nat, k: nat)
    returns (steps: seq<Step>)
    requires AcceptsEvents(cfg) && Acceptable(cfg, e) && k <= t
    requires Held(sys, cfg, e.pubkey, now, n) && PastRateCheck(sys.sessions, e, 0, t)
    ensures AllActIn(steps, Between(0, k))
    ensures Held(Run(sys, steps), cfg, e.pubkey, now, n + k) && PastRateCheck(Run(sys, steps).sessions, e, k, t)
  {
    if k == 0 {
      steps := [];
    } else {
      steps := FinishAll(sys, cfg, e, now, t, n, k - 1);
      steps := FinishOneMore(sys, steps, cfg, e, now, t, n + k - 1, k - 1);
    }
  }

  // ---------------------------------------------------------------- the bound is reached

  lemma {:induction false} ActInLarger(steps: seq<Step>, k: nat, t: nat)
    requires AllActIn(steps, Between(0, k)) && k <= t
    ensures AllActIn(steps, Between(0, t))
  {
  }

  /** `n` records of this instant are `n` records in one window. */
  lemma {:induction false} HeldFillsWindow(cfg: Config, p: string, now: uint64, steps: seq<Step>, n: nat, t: nat)
    requires 0 <= cfg.rateWindow && AllActIn(steps, Between(0, t)) && Held(Run(Start(cfg, now), steps), cfg, p, now, n)
    ensures AtMostInFlight(Start(cfg, now), steps, FromRateCheckToRecord(p), t)
    ensures WindowCount(Recordings(cfg, now, steps, p), now - cfg.rateWindow, cfg.rateWindow) == n
  {
    FewInFlight(Start(cfg, now), steps, FromRateCheckToRecord(p), Between(0, t));
    WindowCountSuffix(Same(n, now), 0, now - cfg.rateWindow, cfg.rateWindow);
  }

  /** All recorded times of `p`, after a run. */
  function Recordings(cfg: Config, t0: uint64, steps: seq<Step>, p: string): seq<uint64> {
    Times(Run(Start(cfg, t0), steps).history.recorded, p)
  }

  /** The bound is reached: in every relay that accepts events, and for every event that only limits can
      refuse, some run with at most `t` sessions between check and record leaves `N + t - 1` records of one
      pubkey in one window. The last `t` sessions pass the rate check before any of them records. */
  lemma {:induction false} RateLimitIsTight(cfg: Config, now: uint64, e: StoredEvent, t: nat) returns (steps: seq<Step>)
    requires 0 <= cfg.rateWindow && AcceptsEvents(cfg) && Acceptable(cfg, e) && 1 <= t
    ensures AtMostInFlight(Start(cfg, now), steps, FromRateCheckToRecord(e.pubkey), t)
    ensures WindowCount(Recordings(cfg, now, steps, e.pubkey), now - cfg.rateWindow, cfg.rateWindow)
            == cfg.rateLimitEvents + t - 1
  {
    var n, start := cfg.rateLimitEvents - 1, Start(cfg, now);
    var a := Fill(cfg, e, now, n);
    var b := PassAll(Run(start, a), cfg, e, now, n, t);
    RunConcat(start, a, b);
    var c := FinishAll(Run(start, a + b), cfg, e, now, t, n, t);
    RunConcat(start, a + b, c);
    steps := a + b + c;
    ActInLarger(a, 1, t);
    HeldFillsWindow(cfg, e.pubkey, now, steps, n + t, t);
  }

  /** While the window exceeds the clock, one session alone records any number of events at one instant. */
  lemma {:induction false} WrappedWindowLimitsNothing(cfg: Config, now: uint64, e: StoredEvent, n: nat)
    returns (steps: seq<Step>)
    requires now < cfg.rateWindow && AcceptsEvents(cfg) && Acceptable(cfg, e)
    ensures AtMostInFlight(Start(cfg, now), steps, FromRateCheckToRecord(e.pubkey), 1)
    ensures WindowCount(Recordings(cfg, now, steps, e.pubkey), now - cfg.rateWindow, cfg.rateWindow) == n
  {
    steps := Fill(cfg, e, now, n);
    HeldFillsWindow(cfg, e.pubkey, now, steps, n, 1);
  }

  // ---------------------------------------------------------------- the unsigned window subtraction

  lemma {:induction false} OneSessionAnswers(cfg: Config, t0: uint64, steps: seq<Step>, p: string)
    requires 0 <= cfg.rateWindow <= t0 && 1 <= cfg.rateLimitEvents
    requires AtMostInFlight(Start(cfg, t0), steps, FromRateCheckToRecord(p), 1)
    ensures AnswersWindowCount(Run(Start(cfg, t0), steps), p)
  {
    RunKeepsLimits(Start(cfg, t0), steps);
    RunKeepsBound(cfg, t0, steps, p, 1);
    DequeRefinesHistory(cfg, t0, steps, p);
  }

  /** While the window exceeds the clock, a limit's worth of records at one instant does not stop the next. */
  lemma {:induction false} WrappedWindowAnswersWrong(cfg: Config, t0: uint64, e: StoredEvent) returns (steps: seq<Step>)
    requires t0 < cfg.rateWindow && AcceptsEvents(cfg) && Acceptable(cfg, e)
    ensures AtMostInFlight(Start(cfg, t0), steps, FromRateCheckToRecord(e.pubkey), 1)
    ensures !AnswersWindowCount(Run(Start(cfg, t0), steps), e.pubkey)
  {
    var n := cfg.rateLimitEvents;
    steps := Fill(cfg, e, t0, n);
    HeldFillsWindow(cfg, e.pubkey, t0, steps, n, 1);
    CheckAtOneInstant(cfg, Times(Run(Start(cfg, t0), steps).store.limiter, e.pubkey), t0, n);
  }

  /** `now - window` is computed in `uint64_t`. With one session at a time the check always answers by the
      window count if and only if the window does not reach back before the epoch when the relay starts;
      otherwise the cutoff wraps and every check empties the deque. */
  lemma {:induction false} WindowFitsClockIff(cfg: Config, t0: uint64, e: StoredEvent)
    requires 0 <= cfg.rateWindow && AcceptsEvents(cfg) && Acceptable(cfg, e)
    ensures cfg.rateWindow <= t0 <==>
            (forall steps :: AtMostInFlight(Start(cfg, t0), steps, FromRateCheckToRecord(e.pubkey), 1) ==>
               AnswersWindowCount(Run(Start(cfg, t0), steps), e.pubkey))
  {
    if cfg.rateWindow <= t0 {
      forall steps | AtMostInFlight(Start(cfg, t0), steps, FromRateCheckToRecord(e.pubkey), 1)
        ensures AnswersWindowCount(Run(Start(cfg, t0), steps), e.pubkey)
      {
        OneSessionAnswers(cfg, t0, steps, e.pubkey);
      }
    } else {
      var steps := WrappedWindowAnswersWrong(cfg, t0, e);
    }
  }

  // ---------------------------------------------------------------- when the limit is kept

  lemma {:induction false} NoRecordsWithoutSessions(cfg: Config, t0: uint64, steps: seq<Step>, p: string)
    requires AtMostInFlight(Start(cfg, t0), steps, FromRateCheckToRecord(p), 0)
    ensures Recordings(cfg, t0, steps, p) == []
  {
    if steps != [] {
      var init := steps[..|steps| - 1];
      NoRecordsWithoutSessions(cfg, t0, init, p);
      StepHasTouchEffect(Run(Start(cfg, t0), init), steps[|steps| - 1], p);
    }
  }

  lemma {:induction false} EmptyWindow(times: seq<uint64>, lo: int, w: int)
    requires w < 0
    ensures WindowCount(times, lo, w) == 0
  {
    if times != [] { EmptyWindow(times[..|times| - 1], lo, w); }
  }

  /** In every run with at most `t` sessions between the rate check and the record for `p`, no window holds
      more than `bound` records of `p`. */
  ghost predicate NeverMore(cfg: Config, t0: uint64, p: string, t: nat, bound: int) {
    forall steps :: AtMostInFlight(Start(cfg, t0), steps, FromRateCheckToRecord(p), t) ==>
      EveryWindow(Recordings(cfg, t0, steps, p), cfg.rateWindow, bound)
  }

  lemma {:induction false} PassesBound(cfg: Config, t0: uint64, e: StoredEvent, t: nat, bound: nat)
    returns (steps: seq<Step>)
    requires 0 <= cfg.rateWindow && AcceptsEvents(cfg) && Acceptable(cfg, e) && 1 <= t
    requires t0 < cfg.rateWindow || bound < cfg.rateLimitEvents + t - 1
    ensures AtMostInFlight(Start(cfg, t0), steps, FromRateCheckToRecord(e.pubkey), t)
    ensures WindowCount(Recordings(cfg, t0, steps, e.pubkey), t0 - cfg.rateWindow, cfg.rateWindow) > bound
  {
    if t0 < cfg.rateWindow {
      steps := WrappedWindowLimitsNothing(cfg, t0, e, bound + 1);
      AtMostMore(Start(cfg, t0), steps, FromRateCheckToRecord(e.pubkey), 1, t);
    } else {
      steps := RateLimitIsTight(cfg, t0, e, t);
    }
  }

  /** `N + t - 1` is the least bound there is, and a window that exceeds the clock has none. */
  lemma {:induction false} RateBoundIsLeast(cfg: Config, t0: uint64, e: StoredEvent, t: nat, bound: nat)
    requires 0 <= cfg.rateWindow && AcceptsEvents(cfg) && Acceptable(cfg, e)
    requires 1 <= t && cfg.rateLimitEvents + t <= 0x8000_0000
    ensures NeverMore(cfg, t0, e.pubkey, t, bound)
            <==> cfg.rateWindow <= t0 && cfg.rateLimitEvents + t - 1 <= bound
  {
    if cfg.rateWindow <= t0 && cfg.rateLimitEvents + t - 1 <= bound {
      forall steps, lo | AtMostInFlight(Start(cfg, t0), steps, FromRateCheckToRecord(e.pubkey), t)
        ensures WindowCount(Recordings(cfg, t0, steps, e.pubkey), lo, cfg.rateWindow) <= bound
      {
        RateLimitOverRuns(cfg, t0, steps, e.pubkey, t, lo);
      }
    } else {
      var steps := PassesBound(cfg, t0, e, t, bound);
      assert !EveryWindow(Recordings(cfg, t0, steps, e.pubkey), cfg.rateWindow, bound);
    }
  }

  /** What a caller can check: one session at a time, and a window that fits the first clock reading; or
      nothing that could be counted. */
  predicate RateLimitSafe(cfg: Config, t0: uint64, t: nat) {
    (t == 1 && cfg.rateWindow <= t0) || t == 0 || cfg.rateWindow < 0 || !AcceptsEvents(cfg)
  }

  lemma {:induction false} SafeRateLimitIsKept(cfg: Config, t0: uint64, steps: seq<Step>, p: string, t: nat, lo: int)
    requires 0 <= cfg.rateLimitEvents && RateLimitSafe(cfg, t0, t)
    requires AtMostInFlight(Start(cfg, t0), steps, FromRateCheckToRecord(p), t)
    ensures WindowCount(Recordings(cfg, t0, steps, p), lo, cfg.rateWindow) <= cfg.rateLimitEvents
  {
    if cfg.rateWindow < 0 {
      EmptyWindow(Recordings(cfg, t0, steps, p), lo, cfg.rateWindow);
    } else if !AcceptsEvents(cfg) {
      BarrenOverRuns(cfg, t0, steps);
      assert Recordings(cfg, t0, steps, p) == [];
    } else if t == 0 {
      NoRecordsWithoutSessions(cfg, t0, steps, p);
    } else {
      RateLimitOverRuns(cfg, t0, steps, p, t, lo);
    }
  }

  /** The rate limit of a pubkey is kept by all runs with at most `t` sessions in flight exactly when `t` is
      one and the window does not exceed the clock that the relay starts at, or nothing can be counted. */
  lemma {:induction false} RateLimitKeptIff(cfg: Config, t0: uint64, e: StoredEvent, t: nat)
    requires 0 <= cfg.rateLimitEvents && Acceptable(cfg, e)
    ensures NeverMore(cfg, t0, e.pubkey, t, cfg.rateLimitEvents) <==> RateLimitSafe(cfg, t0, t)
  {
    if RateLimitSafe(cfg, t0, t) {
      forall steps, lo | AtMostInFlight(Start(cfg, t0), steps, FromRateCheckToRecord(e.pubkey), t)
        ensures WindowCount(Recordings(cfg, t0, steps, e.pubkey), lo, cfg.rateWindow) <= cfg.rateLimitEvents
      {
        SafeRateLimitIsKept(cfg, t0, steps, e.pubkey, t, lo);
      }
    } else {
      var steps := PassesBound(cfg, t0, e, t, cfg.rateLimitEvents);
      assert !EveryWindow(Recordings(cfg, t0, steps, e.pubkey), cfg.rateWindow, cfg.rateLimitEvents);
    }
  }
}
