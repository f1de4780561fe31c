/** Building runs of the relay: what a few steps of one session do exactly, and how many sessions a run
    can ever have in a gap. */
module RelayRuns {
  import opened Basics
  import opened RelayStore
  import opened RelayProtocol

  /** `n` copies of a value. */
  function Same<T>(n: nat, x: T): (xs: seq<T>)
    ensures |xs| == n && forall i :: 0 <= i < n ==> xs[i] == x
  {
    seq(n, _ => x)
  }

  lemma OneMore<T>(n: nat, x: T)
    ensures Same(n, x) + [x] == Same(n + 1, x)
  {
  }

  // ---------------------------------------------------------------- how many sessions are in flight

  /** The sessions `lo`, ..., `hi - 1`. */
  function Between(lo: nat, hi: nat): (r: set<nat>)
    requires lo <= hi
    ensures forall s: nat :: s in r <==> lo <= s < hi
    ensures |r| == hi - lo
    decreases hi
  {
    if lo == hi then {} else Between(lo, hi - 1) + {hi - 1}
  }

  /** Only sessions in `a` take this step, if a session takes it at all. */
  predicate ActsIn(step: Step, a: set<nat>) {
    match step
    case Receive(s, _) => s in a
    case Advance(s) => s in a
    case _ => true
  }

  ghost predicate AllActIn(steps: seq<Step>, a: set<nat>) {
    forall step :: step in steps ==> ActsIn(step, a)
  }

  lemma {:induction false} ActInConcat(steps: seq<Step>, more: seq<Step>, a: set<nat>, b: set<nat>)
    requires AllActIn(steps, a) && AllActIn(more, b) && a <= b
    ensures AllActIn(steps + more, b)
  {
  }

  lemma {:induction false} StepHolders(sys: System, step: Step, gap: Gap, a: set<nat>)
    requires Holders(sys.sessions, gap) <= a && ActsIn(step, a)
    ensures Holders(Next(sys, step).sessions, gap) <= a
  {
    var sessions' := Next(sys, step).sessions;
    forall s | s in Holders(sessions', gap)
      ensures s in a
    {
      if s in sys.sessions && sessions'[s] == sys.sessions[s] {
        assert s in Holders(sys.sessions, gap);
      }
    }
  }

  /** When only sessions in `a` act, no gap ever holds others than those. */
  lemma {:induction false} FewInFlight(sys: System, steps: seq<Step>, gap: Gap, a: set<nat>)
    requires Holders(sys.sessions, gap) <= a && AllActIn(steps, a)
    ensures Holders(Run(sys, steps).sessions, gap) <= a
    ensures AtMostInFlight(sys, steps, gap, |a|)
  {
    if steps != [] {
      var init := steps[..|steps| - 1];
      assert steps[|steps| - 1] in steps;
      FewInFlight(sys, init, gap, a);
      StepHolders(Run(sys, init), steps[|steps| - 1], gap, a);
    }
    SubsetSize(Holders(Run(sys, steps).sessions, gap), a);
  }

  lemma {:induction false} AtMostMore(sys: System, steps: seq<Step>, gap: Gap, t: nat, t': nat)
    requires AtMostInFlight(sys, steps, gap, t) && t <= t'
    ensures AtMostInFlight(sys, steps, gap, t')
  {
    if steps != [] { AtMostMore(sys, steps[..|steps| - 1], gap, t, t'); }
  }

  /** One run after another: the states, and how many sessions are in flight. */
  lemma {:induction false} AtMostConcat(sys: System, a: seq<Step>, b: seq<Step>, gap: Gap, t: nat)
    requires AtMostInFlight(sys, a, gap, t) && AtMostInFlight(Run(sys, a), b, gap, t)
    ensures Run(sys, a + b) == Run(Run(sys, a), b)
    ensures AtMostInFlight(sys, a + b, gap, t)
    decreases |b|
  {
    RunConcat(sys, a, b);
    if b == [] {
      assert a + b == a;
    } else {
      assert (a + b)[..|a + b| - 1] == a + b[..|b| - 1];
      AtMostConcat(sys, a, b[..|b| - 1], gap, t);
    }
  }

  // ---------------------------------------------------------------- a few steps of one session

  lemma {:induction false} RunThree(sys: System, a: Step, b: Step, c: Step)
    ensures Run(sys, [a]) == Next(sys, a)
    ensures Run(sys, [a, b]) == Next(Next(sys, a), b)
    ensures Run(sys, [a, b, c]) == Next(Next(Next(sys, a), b), c)
  {
    assert [a, b, c][..2] == [a, b] && [a, b][..1] == [a] && [a][..0] == [];
    assert Run(sys, [a]) == Next(sys, a);
    assert Run(sys, [a, b]) == Next(Next(sys, a), b);
  }

  /** The operator allows the kind, the session is open, and takes `e` through the rate check. */
  function PassSteps(s: nat, e: StoredEvent): seq<Step> {
    [Allow(e.kind), Open(s)] + [Receive(s, e), Advance(s), Advance(s)]
  }

  lemma {:induction false} PassActsIn(s: nat, e: StoredEvent, a: set<nat>)
    requires s in a
    ensures AllActIn(PassSteps(s, e), a)
  {
  }

  /** From idle to past the rate check, for an allowed kind. */
  lemma {:induction false} PassAllowed(sys: System, s: nat, e: StoredEvent)
    requires s in sys.sessions && sys.sessions[s].Idle? && e.kind in sys.store.cfg.allowedKinds
    requires e.pubkey !in sys.store.cfg.bannedPubkeys && PassesRateCheck(sys.store, e.pubkey, sys.now)
    ensures var next := Run(sys, [Receive(s, e), Advance(s), Advance(s)]);
            next == Goto(sys.(store := AfterRateCheck(sys.store, e.pubkey, sys.now)), s, RateOk(e))
  {
    RunThree(sys, Receive(s, e), Advance(s), Advance(s));
    var s1 := Next(sys, Receive(s, e));
    assert s1 == Goto(sys, s, NotBanned(e));
    var s2 := Next(s1, Advance(s));
    assert s2 == Goto(s1, s, KindAllowed(e));
    assert sys.sessions[s := NotBanned(e)][s := KindAllowed(e)][s := RateOk(e)] == sys.sessions[s := RateOk(e)];
  }

  lemma {:induction false} Prepare(sys: System, s: nat, k: uint16)
    requires s in sys.sessions ==> sys.sessions[s].Idle?
    ensures Run(sys, [Allow(k), Open(s)]) == Goto(sys.(store := AfterAllow(sys.store, k)), s, Idle)
  {
    RunThree(sys, Allow(k), Open(s), Open(s));
    assert s in sys.sessions ==> sys.sessions[s := Idle] == sys.sessions;
  }

  /** From idle, or not yet open, to past the rate check. */
  lemma {:induction false} Pass(sys: System, s: nat, e: StoredEvent)
    requires s in sys.sessions ==> sys.sessions[s].Idle?
    requires e.pubkey !in sys.store.cfg.bannedPubkeys && PassesRateCheck(sys.store, e.pubkey, sys.now)
    ensures var next := Run(sys, PassSteps(s, e));
            && next.store == AfterRateCheck(AfterAllow(sys.store, e.kind), e.pubkey, sys.now)
            && next.now == sys.now && next.history == sys.history
            && next.sessions == sys.sessions[s := RateOk(e)]
  {
    RunConcat(sys, [Allow(e.kind), Open(s)], [Receive(s, e), Advance(s), Advance(s)]);
    Prepare(sys, s, e.kind);
    PassAllowed(Goto(sys.(store := AfterAllow(sys.store, e.kind)), s, Idle), s, e);
    assert sys.sessions[s := Idle][s := RateOk(e)] == sys.sessions[s := RateOk(e)];
  }

  /** From the rate check to past the storage check. */
  lemma {:induction false} Approve(sys: System, s: nat, e: StoredEvent)
    requires s in sys.sessions && sys.sessions[s] == RateOk(e) && Fits(sys.store, e)
    ensures Run(sys, [Advance(s)]) == Goto(sys, s, Approved(e))
  {
    RunThree(sys, Advance(s), Advance(s), Advance(s));
  }

  /** From the storage check to the record. */
  lemma {:induction false} Land(sys: System, s: nat, e: StoredEvent)
    requires s in sys.sessions && sys.sessions[s] == Approved(e)
    ensures Run(sys, [Advance(s), Advance(s)]) == Goto(Record(Insert(sys, e), e.pubkey), s, Idle)
  {
    RunThree(sys, Advance(s), Advance(s), Advance(s));
    var s1 := Next(sys, Advance(s));
    assert s1 == Goto(Insert(sys, e), s, Inserted(e));
    assert Next(s1, Advance(s)).sessions == Goto(Record(Insert(sys, e), e.pubkey), s, Idle).sessions;
  }

  /** The relay still has the limits and bans that it was started with. */
  predicate KeepsSettings(sys: System, cfg: Config) {
    SameLimits(sys.store.cfg, cfg) && sys.store.cfg.bannedPubkeys == cfg.bannedPubkeys
  }

  /** A relay that accepts events at all: no limit is zero. */
  predicate AcceptsEvents(cfg: Config) {
    1 <= cfg.rateLimitEvents && 1 <= cfg.maxTotal && 1 <= cfg.maxPerKind && 1 <= cfg.maxPerPubkey
  }

  /** An event that only the limits can refuse, once its kind is allowed. */
  predicate Acceptable(cfg: Config, e: StoredEvent) {
    e.pubkey !in cfg.bannedPubkeys && e.sizeBytes <= cfg.maxEventSize
  }

  // ---------------------------------------------------------------- relays that accept nothing

  /** Nothing has been stored or recorded, and no session can get there. */
  ghost predicate Barren(sys: System) {
    && !AcceptsEvents(sys.store.cfg) && sys.store.events == []
    && (forall p :: Times(sys.store.limiter, p) == [])
    && (forall p :: Times(sys.history.recorded, p) == [])
    && (forall s :: s in sys.sessions ==> Refused(sys.store.cfg, sys.sessions[s]))
  }

  predicate Refused(cfg: Config, pc: Pc) {
    !pc.Approved? && !pc.Inserted? && (cfg.rateLimitEvents < 1 ==> !pc.RateOk?)
  }

  lemma {:induction false} AdvanceKeepsBarren(sys: System, s: nat)
    requires Barren(sys) && s in sys.sessions
    ensures Barren(AdvanceSession(sys, s))
  {
    match sys.sessions[s]
    case KindAllowed(e) =>
      assert Times(sys.store.limiter, e.pubkey) == [];
      var next := AdvanceSession(sys, s);
      forall p: string
        ensures Times(next.store.limiter, p) == []
      {
        assert Times(sys.store.limiter, p) == [];
      }
    case RateOk(e) =>
      assert !Fits(sys.store, e);
    case _ =>
  }

  lemma {:induction false} StepKeepsBarren(sys: System, step: Step)
    requires Barren(sys)
    ensures Barren(Next(sys, step))
  {
    match step
    case Advance(s) => if s in sys.sessions { AdvanceKeepsBarren(sys, s); }
    case _ =>
  }

  /** A relay with a limit of zero stores and records nothing. */
  lemma {:induction false} BarrenOverRuns(cfg: Config, t0: uint64, steps: seq<Step>)
    requires !AcceptsEvents(cfg)
    ensures Barren(Run(Start(cfg, t0), steps))
  {
    if steps != [] {
      var init := steps[..|steps| - 1];
      BarrenOverRuns(cfg, t0, init);
      StepKeepsBarren(Run(Start(cfg, t0), init), steps[|steps| - 1]);
    }
  }
}
