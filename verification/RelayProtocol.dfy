/** The relay as a transition system: any number of session threads, the prune thread and the
    operator's calls, interleaved at the granularity of the relay's locks.

    `handle_client_message` takes six steps for one EVENT message: ban check, kind check, rate
    check, storage check, insertion and record. Between two of them every other step may run. */
module RelayProtocol {
  import opened Basics
  import opened RelayStore

  /** Where a session thread is inside `handle_client_message`. */
  datatype Pc =
    | Idle
    | NotBanned(event: StoredEvent)
    | KindAllowed(event: StoredEvent)
    | RateOk(event: StoredEvent)
    | Approved(event: StoredEvent)
    | Inserted(event: StoredEvent)

  /** What has happened so far, for the statements about whole runs. */
  datatype History = History(
    accepted: seq<StoredEvent>, evicted: seq<StoredEvent>, swept: seq<StoredEvent>,
    recorded: map<string, seq<uint64>>)

  datatype System = System(store: Store, now: uint64, sessions: map<nat, Pc>, history: History)

  datatype Step =
    | Tick(to: uint64)
    | Open(session: nat)
    | Close(session: nat)
    | Receive(session: nat, event: StoredEvent)
    | Advance(session: nat)
    | Prune
    | DeleteByPubkey(pubkey: string)
    | DeleteById(id: string)
    | Ban(pubkey: string)
    | Allow(kind: uint16)

  function Start(cfg: Config, now: uint64): System {
    System(Store(cfg, [], map[]), now, map[], History([], [], [], map[]))
  }

  function Goto(sys: System, s: nat, pc: Pc): System {
    sys.(sessions := sys.sessions[s := pc])
  }

  /** The insertion of an approved event, with its evictions. */
  function Insert(sys: System, e: StoredEvent): System {
    var k := Overflow(|sys.store.events|, sys.store.cfg.maxTotal);
    sys.(store := AfterStore(sys.store, e),
         history := sys.history.(accepted := sys.history.accepted + [e],
                                 evicted := sys.history.evicted + sys.store.events[..k]))
  }

  function Record(sys: System, p: string): System {
    sys.(store := AfterRecord(sys.store, p, sys.now),
         history := sys.history.(recorded :=
           sys.history.recorded[p := Times(sys.history.recorded, p) + [sys.now]]))
  }

  function SweepNow(sys: System, sweep: Sweep): System {
    sys.(store := AfterSweep(sys.store, sweep),
         history := sys.history.(swept := sys.history.swept + Part(sys.store.events, sweep, true)))
  }

  /** The next locked section of session `s`, chosen by its program counter. */
  function AdvanceSession(sys: System, s: nat): System
    requires s in sys.sessions
  {
    match sys.sessions[s]
    case Idle => sys
    case NotBanned(e) =>
      Goto(sys, s, if e.kind in sys.store.cfg.allowedKinds then KindAllowed(e) else Idle)
    case KindAllowed(e) =>
      Goto(sys.(store := AfterRateCheck(sys.store, e.pubkey, sys.now)), s,
           if PassesRateCheck(sys.store, e.pubkey, sys.now) then RateOk(e) else Idle)
    case RateOk(e) =>
      Goto(sys, s, if Fits(sys.store, e) then Approved(e) else Idle)
    case Approved(e) =>
      Goto(Insert(sys, e), s, Inserted(e))
    case Inserted(e) =>
      Goto(Record(sys, e.pubkey), s, Idle)
  }

  /** One step. A step that is not possible in `sys` leaves it as it is. */
  function Next(sys: System, step: Step): System {
    match step
    case Tick(to) => if to < sys.now then sys else sys.(now := to)
    case Open(s) => if s in sys.sessions then sys else Goto(sys, s, Idle)
    case Close(s) =>
      if s in sys.sessions && sys.sessions[s].Idle? then sys.(sessions := sys.sessions - {s}) else sys
    case Receive(s, e) =>
      if s in sys.sessions && sys.sessions[s].Idle? && e.pubkey !in sys.store.cfg.bannedPubkeys
      then Goto(sys, s, NotBanned(e))
      else sys
    case Advance(s) => if s in sys.sessions then AdvanceSession(sys, s) else sys
    case Prune => SweepNow(sys, Expired(sys.store.cfg, sys.now))
    case DeleteByPubkey(p) => SweepNow(sys, ByPubkey(p))
    case DeleteById(id) => SweepNow(sys, ById(id))
    case Ban(p) => sys.(store := AfterBan(sys.store, p))
    case Allow(k) => sys.(store := AfterAllow(sys.store, k))
  }

  /** The state after a run: quantifying over `steps` quantifies over every interleaving. */
  function Run(sys: System, steps: seq<Step>): System {
    if steps == [] then sys else Next(Run(sys, steps[..|steps| - 1]), steps[|steps| - 1])
  }

  lemma {:induction false} RunConcat(sys: System, a: seq<Step>, b: seq<Step>)
    ensures Run(sys, a + b) == Run(Run(sys, a), b)
    decreases |b|
  {
    if b == [] {
      assert a + b == a;
    } else {
      var n := |b| - 1;
      assert (a + b)[..|a + b| - 1] == a + b[..n];
      RunConcat(sys, a, b[..n]);
    }
  }

  // ---------------------------------------------------------------- sessions in flight

  /** The unprotected gaps between two locked sections that the theorems count sessions in. */
  datatype Gap =
    | FromRateCheckToRecord(pubkey: string)
    | FromStorageCheckToInsert(query: Query)
    | FromBanCheckToInsert(pubkey: string)
  {
    predicate Holds(pc: Pc) {
      match this
      case FromRateCheckToRecord(p) => (pc.RateOk? || pc.Approved? || pc.Inserted?) && pc.event.pubkey == p
      case FromStorageCheckToInsert(q) => pc.Approved? && q.Matches(pc.event)
      case FromBanCheckToInsert(p) => !pc.Idle? && !pc.Inserted? && pc.event.pubkey == p
    }
  }

  function Holders(sessions: map<nat, Pc>, gap: Gap): set<nat> {
    set s | s in sessions && gap.Holds(sessions[s])
  }

  function InFlight(sys: System, gap: Gap): nat {
    |Holders(sys.sessions, gap)|
  }

  function Bit(b: bool): nat {
    if b then 1 else 0
  }

  /** Moving one session changes the in-flight count by that session alone. */
  lemma InFlightAfterMove(sessions: map<nat, Pc>, s: nat, pc: Pc, gap: Gap)
    ensures |Holders(sessions[s := pc], gap)| + Bit(s in sessions && gap.Holds(sessions[s]))
            == |Holders(sessions, gap)| + Bit(gap.Holds(pc))
  {
    var before, after := Holders(sessions, gap), Holders(sessions[s := pc], gap);
    forall x
      ensures x in before - {s} <==> x in after - {s}
    {
      assert x != s ==> (x in sessions <==> x in sessions[s := pc]);
    }
    assert before - {s} == after - {s};
    SizeWithout(before, s);
    SizeWithout(after, s);
  }

  lemma SizeWithout(a: set<nat>, s: nat)
    ensures |a| == |a - {s}| + Bit(s in a)
  {
    if s in a {
      assert a == (a - {s}) + {s};
    } else {
      assert a == a - {s};
    }
  }

  lemma InFlightAfterClose(sessions: map<nat, Pc>, s: nat, gap: Gap)
    requires s in sessions && sessions[s].Idle?
    ensures Holders(sessions - {s}, gap) == Holders(sessions, gap)
  {
  }

  /** At most `t` sessions are in `gap` in every state of the run, its first and last included. */
  ghost predicate AtMostInFlight(sys: System, steps: seq<Step>, gap: Gap, t: nat) {
    && InFlight(Run(sys, steps), gap) <= t
    && (steps != [] ==> AtMostInFlight(sys, steps[..|steps| - 1], gap, t))
  }

  lemma {:induction false} SubsetSize(a: set<nat>, b: set<nat>)
    requires a <= b
    ensures |a| <= |b|
  {
    if a != {} {
      var x :| x in a;
      SubsetSize(a - {x}, b - {x});
    }
  }

  /** No step changes the relay's numeric limits, and the clock never goes back. */
  predicate SameLimits(a: Config, b: Config) {
    && a.rateLimitEvents == b.rateLimitEvents && a.rateWindow == b.rateWindow
    && a.maxPerPubkey == b.maxPerPubkey && a.maxPerKind == b.maxPerKind
    && a.maxTotal == b.maxTotal && a.maxEventSize == b.maxEventSize
    && a.defaultTtl == b.defaultTtl && a.kindTtl == b.kindTtl
  }

  /** What only ever grows, or stays: limits, bans, allowed kinds, the clock. */
  predicate Extends(later: System, earlier: System) {
    && SameLimits(later.store.cfg, earlier.store.cfg)
    && earlier.store.cfg.bannedPubkeys <= later.store.cfg.bannedPubkeys
    && earlier.store.cfg.allowedKinds <= later.store.cfg.allowedKinds
    && earlier.now <= later.now
  }

  lemma StepExtends(sys: System, step: Step)
    ensures Extends(Next(sys, step), sys)
  {
  }

  lemma {:induction false} RunKeepsLimits(sys: System, steps: seq<Step>)
    ensures Extends(Run(sys, steps), sys)
  {
    if steps != [] {
      var init := steps[..|steps| - 1];
      RunKeepsLimits(sys, init);
      StepExtends(Run(sys, init), steps[|steps| - 1]);
    }
  }

  /** The state after one session's six steps for one message, with no other step between them. */
  function SixSteps(sys: System, s: nat, e: StoredEvent): System {
    Next(Next(Next(Next(Next(Next(sys, Receive(s, e)), Advance(s)), Advance(s)), Advance(s)), Advance(s)), Advance(s))
  }

  lemma {:induction false} RunOneMore(sys: System, init: seq<Step>, step: Step)
    ensures Run(sys, init + [step]) == Next(Run(sys, init), step)
  {
    assert (init + [step])[..|init|] == init;
  }

  /** That state is the end of a run. */
  lemma {:induction false} SixStepsAreARun(sys: System, s: nat, e: StoredEvent) returns (steps: seq<Step>)
    ensures Run(sys, steps) == SixSteps(sys, s, e)
  {
    RunOneMore(sys, [], Receive(s, e));
    steps := [] + [Receive(s, e)];
    RunOneMore(sys, steps, Advance(s));
    steps := steps + [Advance(s)];
    RunOneMore(sys, steps, Advance(s));
    steps := steps + [Advance(s)];
    RunOneMore(sys, steps, Advance(s));
    steps := steps + [Advance(s)];
    RunOneMore(sys, steps, Advance(s));
    steps := steps + [Advance(s)];
    RunOneMore(sys, steps, Advance(s));
    steps := steps + [Advance(s)];
  }

  /** From the rate check on: four steps of a session whose event is of an allowed kind. */
  lemma {:induction false} LastFourSteps(sys: System, s: nat, e: StoredEvent)
    requires s in sys.sessions && sys.sessions[s] == KindAllowed(e)
    ensures var next := Next(Next(Next(Next(sys, Advance(s)), Advance(s)), Advance(s)), Advance(s));
            var checked := AfterRateCheck(sys.store, e.pubkey, sys.now);
            && next.sessions == sys.sessions[s := Idle]
            && next.store == if !PassesRateCheck(sys.store, e.pubkey, sys.now) || !Fits(checked, e) then checked
                             else AfterRecord(AfterStore(checked, e), e.pubkey, sys.now)
  {
    var s1 := Next(sys, Advance(s));
    var s2 := Next(s1, Advance(s));
    var s3 := Next(s2, Advance(s));
    var s4 := Next(s3, Advance(s));
    assert s4.sessions == sys.sessions[s := Idle];
  }

  lemma {:induction false} IdleStays(sys: System, s: nat)
    requires s in sys.sessions && sys.sessions[s].Idle?
    ensures Next(sys, Advance(s)) == sys
  {
  }

  /** Those six steps are the sequential handler of `RelayStore`. */
  lemma {:induction false} UndisturbedSession(sys: System, s: nat, e: StoredEvent)
    requires s in sys.sessions && sys.sessions[s].Idle?
    ensures SixSteps(sys, s, e).store == AfterEvent(sys.store, e, sys.now, sys.now)
    ensures SixSteps(sys, s, e).sessions == sys.sessions
  {
    IdleStays(sys, s);
    var s1 := Next(sys, Receive(s, e));
    var s2 := Next(s1, Advance(s));
    assert sys.sessions[s := NotBanned(e)][s := Idle] == sys.sessions;
    if e.pubkey !in sys.store.cfg.bannedPubkeys {
      if e.kind in sys.store.cfg.allowedKinds {
        assert s2 == Goto(sys, s, KindAllowed(e));
        LastFourSteps(s2, s, e);
        assert s2.sessions[s := Idle] == sys.sessions;
      } else {
        assert s2 == sys;
      }
    }
  }
}
