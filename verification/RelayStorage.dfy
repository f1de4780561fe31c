/** The bounded event store over whole concurrent runs: caps, conservation, order, bans and expiry. */
module RelayStorage {
  import opened Basics
  import opened RelayStore
  import opened RelayProtocol

  // ---------------------------------------------------------------- counting under the store's operations

  lemma CountAppend(events: seq<StoredEvent>, e: StoredEvent, q: Query)
    ensures Count(events + [e], q) == Count(events, q) + Bit(q.Matches(e))
  {
    assert (events + [e])[..|events|] == events;
  }

  lemma {:induction false} CountSuffix(events: seq<StoredEvent>, k: nat, q: Query)
    requires k <= |events|
    ensures Count(events[k..], q) <= Count(events, q)
  {
    if k < |events| {
      var n := |events| - 1;
      assert events[k..] == events[..n][k..] + [events[n]];
      CountAppend(events[..n][k..], events[n], q);
      CountSuffix(events[..n], k, q);
    }
  }

  lemma {:induction false} CountEverything(events: seq<StoredEvent>)
    ensures Count(events, Everything) == |events|
  {
    if events != [] { CountEverything(events[..|events| - 1]); }
  }

  lemma {:induction false} CountAfterSweep(events: seq<StoredEvent>, sweep: Sweep, q: Query)
    ensures Count(Part(events, sweep, false), q) <= Count(events, q)
  {
    if events != [] {
      var init, e := events[..|events| - 1], events[|events| - 1];
      CountAfterSweep(init, sweep, q);
      if sweep.Hits(e) {
        assert Part(events, sweep, false) == Part(init, sweep, false);
      } else {
        CountAppend(Part(init, sweep, false), e, q);
      }
    }
  }

  lemma CountAfterStore(s: Store, e: StoredEvent, q: Query)
    ensures Count(AfterStore(s, e).events, q) <= Count(s.events, q) + Bit(q.Matches(e))
  {
    var k := Overflow(|s.events|, s.cfg.maxTotal);
    CountSuffix(s.events, k, q);
    CountAppend(s.events[k..], e, q);
  }

  lemma {:induction false} CountFewer(events: seq<StoredEvent>, q: Query, q': Query)
    requires forall e :: q.Matches(e) ==> q'.Matches(e)
    ensures Count(events, q) <= Count(events, q')
  {
    if events != [] { CountFewer(events[..|events| - 1], q, q'); }
  }

  lemma FitsUnderCap(s: Store, e: StoredEvent, q: Query)
    requires Fits(s, e) && q.Matches(e)
    ensures Count(s.events, q) < q.Cap(s.cfg)
  {
    CountEverything(s.events);
    CountFewer(s.events, OfBoth(e.kind, e.pubkey), OfKind(e.kind));
  }

  // ---------------------------------------------------------------- caps over concurrent runs

  /** Stored events matching `q`, plus sessions already approved to add one. */
  function Load(sys: System, q: Query): nat {
    Count(sys.store.events, q) + InFlight(sys, FromStorageCheckToInsert(q))
  }

  lemma {:induction false} AdvanceOnLoad(sys: System, s: nat, q: Query)
    requires s in sys.sessions
    ensures var sys' := AdvanceSession(sys, s);
            || Load(sys', q) <= Load(sys, q)
            || (Count(sys'.store.events, q) < q.Cap(sys.store.cfg) && Load(sys', q) == Load(sys, q) + 1)
  {
    InFlightAfterMove(sys.sessions, s, AdvanceSession(sys, s).sessions[s], FromStorageCheckToInsert(q));
    match sys.sessions[s]
    case RateOk(e) => if Fits(sys.store, e) && q.Matches(e) { FitsUnderCap(sys.store, e, q); }
    case Approved(e) => CountAfterStore(sys.store, e, q);
    case _ =>
  }

  lemma SweepOnLoad(sys: System, sweep: Sweep, q: Query)
    ensures Load(SweepNow(sys, sweep), q) <= Load(sys, q)
  {
    CountAfterSweep(sys.store.events, sweep, q);
  }

  /** A step raises the load only by approving an event while the count is below the cap. */
  lemma {:induction false} StepOnLoad(sys: System, step: Step, q: Query)
    ensures var sys' := Next(sys, step);
            || Load(sys', q) <= Load(sys, q)
            || (Count(sys'.store.events, q) < q.Cap(sys.store.cfg) && Load(sys', q) == Load(sys, q) + 1)
  {
    var gap := FromStorageCheckToInsert(q);
    match step
    case Open(s) => InFlightAfterMove(sys.sessions, s, Idle, gap);
    case Close(s) => if s in sys.sessions && sys.sessions[s].Idle? { InFlightAfterClose(sys.sessions, s, gap); }
    case Receive(s, e) => InFlightAfterMove(sys.sessions, s, NotBanned(e), gap);
    case Advance(s) => if s in sys.sessions { AdvanceOnLoad(sys, s, q); }
    case Prune => SweepOnLoad(sys, Expired(sys.store.cfg, sys.now), q);
    case DeleteByPubkey(p) => SweepOnLoad(sys, ByPubkey(p), q);
    case DeleteById(id) => SweepOnLoad(sys, ById(id), q);
    case _ =>
  }

  /** Every cap over every interleaving: if never more than `t` sessions stand between the storage
      check and the insertion of an event counted by `q`, at most `cap + t - 1` such events are
      stored. With `t == 1` the cap is exact. */
  lemma {:induction false} CapOverRuns(cfg: Config, t0: uint64, steps: seq<Step>, q: Query, t: nat)
    requires 1 <= t && AtMostInFlight(Start(cfg, t0), steps, FromStorageCheckToInsert(q), t)
    ensures Load(Run(Start(cfg, t0), steps), q) <= q.Cap(cfg) + t - 1
  {
    if steps == [] {
      assert Holders(Start(cfg, t0).sessions, FromStorageCheckToInsert(q)) == {};
    } else {
      var init := steps[..|steps| - 1];
      CapOverRuns(cfg, t0, init, q, t);
      RunKeepsLimits(Start(cfg, t0), init);
      StepOnLoad(Run(Start(cfg, t0), init), steps[|steps| - 1], q);
    }
  }

  /** What holds of every state: the total cap, and only allowed kinds of allowed size are stored or
      about to be. */
  ghost predicate StoreInv(sys: System) {
    var cfg := sys.store.cfg;
    && |sys.store.events| <= cfg.maxTotal
    && (forall i :: 0 <= i < |sys.store.events| ==> Admissible(cfg, sys.store.events[i]))
    && (forall s :: s in sys.sessions ==> SessionInv(cfg, sys.sessions[s]))
  }

  predicate Admissible(cfg: Config, e: StoredEvent) {
    e.kind in cfg.allowedKinds && e.sizeBytes <= cfg.maxEventSize
  }

  predicate SessionInv(cfg: Config, pc: Pc) {
    && (pc.KindAllowed? || pc.RateOk? || pc.Approved? ==> pc.event.kind in cfg.allowedKinds)
    && (pc.Approved? ==> pc.event.sizeBytes <= cfg.maxEventSize && 1 <= cfg.maxTotal)
  }

  lemma {:induction false} PartElements(events: seq<StoredEvent>, sweep: Sweep, hit: bool)
    ensures |Part(events, sweep, hit)| <= |events|
    ensures forall e :: e in Part(events, sweep, hit) <==> e in events && sweep.Hits(e) == hit
  {
    if events != [] {
      var n := |events| - 1;
      assert events == events[..n] + [events[n]];
      PartElements(events[..n], sweep, hit);
    }
  }

  lemma SweepKeepsStoreInv(sys: System, sweep: Sweep)
    requires StoreInv(sys)
    ensures StoreInv(SweepNow(sys, sweep))
  {
    PartElements(sys.store.events, sweep, false);
    var kept := Part(sys.store.events, sweep, false);
    forall i | 0 <= i < |kept|
      ensures Admissible(sys.store.cfg, kept[i])
    {
      assert kept[i] in sys.store.events;
    }
  }

  lemma {:induction false} StepKeepsStoreInv(sys: System, step: Step)
    requires StoreInv(sys)
    ensures StoreInv(Next(sys, step))
  {
    match step
    case Prune => SweepKeepsStoreInv(sys, Expired(sys.store.cfg, sys.now));
    case DeleteByPubkey(p) => SweepKeepsStoreInv(sys, ByPubkey(p));
    case DeleteById(id) => SweepKeepsStoreInv(sys, ById(id));
    case _ =>
  }

  /** In every state of every run, whatever the number of sessions, the deque respects the total cap
      and holds only events of an allowed kind and size. */
  lemma {:induction false} TotalCapAndAdmission(cfg: Config, t0: uint64, steps: seq<Step>)
    ensures StoreInv(Run(Start(cfg, t0), steps))
  {
    if steps != [] {
      var init := steps[..|steps| - 1];
      TotalCapAndAdmission(cfg, t0, init);
      StepKeepsStoreInv(Run(Start(cfg, t0), init), steps[|steps| - 1]);
    }
  }

  /** When at most one session at a time is between its storage check and its insertion, the eviction
      loop never pops anything. */
  lemma {:induction false} NoEvictionWhenAlone(cfg: Config, t0: uint64, steps: seq<Step>)
    requires AtMostInFlight(Start(cfg, t0), steps, FromStorageCheckToInsert(Everything), 1)
    ensures Run(Start(cfg, t0), steps).history.evicted == []
  {
    if steps != [] {
      var init, step := steps[..|steps| - 1], steps[|steps| - 1];
      NoEvictionWhenAlone(cfg, t0, init);
      var sys := Run(Start(cfg, t0), init);
      if step.Advance? && step.session in sys.sessions && sys.sessions[step.session].Approved? {
        CapOverRuns(cfg, t0, init, Everything, 1);
        RunKeepsLimits(Start(cfg, t0), init);
        CountEverything(sys.store.events);
        assert step.session in Holders(sys.sessions, FromStorageCheckToInsert(Everything));
      }
    }
  }

  // ---------------------------------------------------------------- conservation and order

  /** `positions` picks `xs` out of `ys`, in order. */
  ghost predicate Embeds(positions: seq<int>, xs: seq<StoredEvent>, ys: seq<StoredEvent>) {
    && |positions| == |xs|
    && (forall i :: 0 <= i < |xs| ==> 0 <= positions[i] < |ys| && ys[positions[i]] == xs[i])
    && (forall i, j :: 0 <= i < j < |xs| ==> positions[i] < positions[j])
  }

  ghost predicate IsSubsequence(xs: seq<StoredEvent>, ys: seq<StoredEvent>) {
    exists positions :: Embeds(positions, xs, ys)
  }

  lemma SubsequenceAppend(xs: seq<StoredEvent>, ys: seq<StoredEvent>, e: StoredEvent)
    requires IsSubsequence(xs, ys)
    ensures IsSubsequence(xs + [e], ys + [e])
  {
    var positions :| Embeds(positions, xs, ys);
    assert Embeds(positions + [|ys|], xs + [e], ys + [e]);
  }

  lemma SubsequenceDropFirst(xs: seq<StoredEvent>, ys: seq<StoredEvent>, k: nat)
    requires IsSubsequence(xs, ys) && k <= |xs|
    ensures IsSubsequence(xs[k..], ys)
  {
    var positions :| Embeds(positions, xs, ys);
    assert Embeds(positions[k..], xs[k..], ys);
  }

  lemma {:induction false} SubsequencePart(xs: seq<StoredEvent>, ys: seq<StoredEvent>, positions: seq<int>,
                                           sweep: Sweep, hit: bool)
    returns (kept: seq<int>)
    requires Embeds(positions, xs, ys)
    ensures Embeds(kept, Part(xs, sweep, hit), ys)
    ensures forall i :: 0 <= i < |kept| ==> kept[i] in positions
  {
    if xs == [] {
      kept := [];
    } else {
      var n := |xs| - 1;
      assert Embeds(positions[..n], xs[..n], ys);
      kept := SubsequencePart(xs[..n], ys, positions[..n], sweep, hit);
      if sweep.Hits(xs[n]) == hit {
        kept := kept + [positions[n]];
      }
    }
  }

  lemma {:induction false} PartsConserve(events: seq<StoredEvent>, sweep: Sweep)
    ensures multiset(events) == multiset(Part(events, sweep, false)) + multiset(Part(events, sweep, true))
  {
    if events != [] {
      var n := |events| - 1;
      assert events == events[..n] + [events[n]];
      PartsConserve(events[..n], sweep);
    }
  }

  /** Every accepted event is stored, evicted or swept, with multiplicity, and the deque lists the
      survivors in acceptance order. */
  ghost predicate Conserved(sys: System) {
    && multiset(sys.history.accepted)
       == multiset(sys.store.events) + multiset(sys.history.evicted) + multiset(sys.history.swept)
    && IsSubsequence(sys.store.events, sys.history.accepted)
  }

  lemma InsertConserves(sys: System, e: StoredEvent)
    requires Conserved(sys)
    ensures Conserved(Insert(sys, e))
  {
    var events := sys.store.events;
    var k := Overflow(|events|, sys.store.cfg.maxTotal);
    assert events == events[..k] + events[k..];
    SubsequenceDropFirst(events, sys.history.accepted, k);
    SubsequenceAppend(events[k..], sys.history.accepted, e);
  }

  lemma SweepConserves(sys: System, sweep: Sweep)
    requires Conserved(sys)
    ensures Conserved(SweepNow(sys, sweep))
  {
    PartsConserve(sys.store.events, sweep);
    var positions :| Embeds(positions, sys.store.events, sys.history.accepted);
    var kept := SubsequencePart(sys.store.events, sys.history.accepted, positions, sweep, false);
  }

  lemma {:induction false} StepConserves(sys: System, step: Step)
    requires Conserved(sys)
    ensures Conserved(Next(sys, step))
  {
    match step
    case Advance(s) =>
      if s in sys.sessions && sys.sessions[s].Approved? { InsertConserves(sys, sys.sessions[s].event); }
    case Prune => SweepConserves(sys, Expired(sys.store.cfg, sys.now));
    case DeleteByPubkey(p) => SweepConserves(sys, ByPubkey(p));
    case DeleteById(id) => SweepConserves(sys, ById(id));
    case _ =>
  }

  lemma {:induction false} ConservationOverRuns(cfg: Config, t0: uint64, steps: seq<Step>)
    ensures Conserved(Run(Start(cfg, t0), steps))
  {
    if steps == [] {
      assert Embeds([], [], []);
    } else {
      var init := steps[..|steps| - 1];
      ConservationOverRuns(cfg, t0, init);
      StepConserves(Run(Start(cfg, t0), init), steps[|steps| - 1]);
    }
  }

  // ---------------------------------------------------------------- bans

  /** Stored events of `p`, plus sessions that passed the ban check for `p` and may still add one. */
  function Presence(sys: System, p: string): nat {
    Count(sys.store.events, OfPubkey(p)) + InFlight(sys, FromBanCheckToInsert(p))
  }

  lemma {:induction false} AdvanceOnPresence(sys: System, s: nat, p: string)
    requires s in sys.sessions
    ensures Presence(AdvanceSession(sys, s), p) <= Presence(sys, p)
  {
    var pc, next := sys.sessions[s], AdvanceSession(sys, s);
    assert next.sessions == sys.sessions[s := next.sessions[s]];
    InFlightAfterMove(sys.sessions, s, next.sessions[s], FromBanCheckToInsert(p));
    match pc
    case Approved(e) =>
      assert next.store == AfterStore(sys.store, e);
      CountAfterStore(sys.store, e, OfPubkey(p));
    case _ => assert next.store.events == sys.store.events;
  }

  lemma SweepOnPresence(sys: System, sweep: Sweep, p: string)
    ensures Presence(SweepNow(sys, sweep), p) <= Presence(sys, p)
  {
    CountAfterSweep(sys.store.events, sweep, OfPubkey(p));
  }

  lemma {:induction false} StepOnPresence(sys: System, step: Step, p: string)
    requires p in sys.store.cfg.bannedPubkeys
    ensures Presence(Next(sys, step), p) <= Presence(sys, p)
  {
    var gap := FromBanCheckToInsert(p);
    match step
    case Open(s) => InFlightAfterMove(sys.sessions, s, Idle, gap);
    case Close(s) => if s in sys.sessions && sys.sessions[s].Idle? { InFlightAfterClose(sys.sessions, s, gap); }
    case Receive(s, e) => InFlightAfterMove(sys.sessions, s, NotBanned(e), gap);
    case Advance(s) => if s in sys.sessions { AdvanceOnPresence(sys, s, p); }
    case Prune => SweepOnPresence(sys, Expired(sys.store.cfg, sys.now), p);
    case DeleteByPubkey(p') => SweepOnPresence(sys, ByPubkey(p'), p);
    case DeleteById(id) => SweepOnPresence(sys, ById(id), p);
    case _ =>
  }

  lemma {:induction false} RunOnPresence(sys: System, steps: seq<Step>, p: string)
    requires p in sys.store.cfg.bannedPubkeys
    ensures Presence(Run(sys, steps), p) <= Presence(sys, p)
  {
    if steps != [] {
      var init := steps[..|steps| - 1];
      RunOnPresence(sys, init, p);
      RunKeepsLimits(sys, init);
      StepOnPresence(Run(sys, init), steps[|steps| - 1], p);
    }
  }

  lemma {:induction false} DeleteEmptiesPubkey(events: seq<StoredEvent>, p: string)
    ensures Count(Part(events, ByPubkey(p), false), OfPubkey(p)) == 0
  {
    if events != [] {
      var init, e := events[..|events| - 1], events[|events| - 1];
      DeleteEmptiesPubkey(init, p);
      if e.pubkey == p {
        assert Part(events, ByPubkey(p), false) == Part(init, ByPubkey(p), false);
      } else {
        CountAppend(Part(init, ByPubkey(p), false), e, OfPubkey(p));
      }
    }
  }

  /** Banning `p`, then deleting its events, is final up to the messages in flight: whatever runs
      between and after, `p` never has more stored events than there were sessions past the ban check
      for `p` when the deletion ran. */
  lemma BanThenDeleteIsFinal(sys: System, p: string, between: seq<Step>, after: seq<Step>)
    ensures var atDelete := Run(Next(sys, Ban(p)), between);
            Count(Run(Next(atDelete, DeleteByPubkey(p)), after).store.events, OfPubkey(p))
            <= InFlight(atDelete, FromBanCheckToInsert(p))
  {
    var atDelete := Run(Next(sys, Ban(p)), between);
    RunKeepsLimits(Next(sys, Ban(p)), between);
    var deleted := Next(atDelete, DeleteByPubkey(p));
    DeleteEmptiesPubkey(atDelete.store.events, p);
    RunOnPresence(deleted, after, p);
  }

  // ---------------------------------------------------------------- expiry

  /** An event is fresh when its kind never expires, or it is dated in the past and young enough. */
  predicate Fresh(cfg: Config, now: uint64, e: StoredEvent) {
    var ttl := if e.kind in cfg.kindTtl then cfg.kindTtl[e.kind] else cfg.defaultTtl;
    ttl <= 0 || (e.createdAt <= now && now - e.createdAt <= ttl)
  }

  /** The age `now - created_at` is computed in `uint64_t`. For one kind, pruning drops exactly the
      events that are not fresh if and only if the TTL does not exceed the clock; beyond that, an
      event dated at the end of the range wraps to a small age and is kept. */
  lemma PruneIsFreshnessIff(cfg: Config, now: uint64, kind: uint16)
    ensures (if kind in cfg.kindTtl then cfg.kindTtl[kind] else cfg.defaultTtl) <= now <==>
            (forall e: StoredEvent :: e.kind == kind ==> (Expired(cfg, now).Hits(e) <==> !Fresh(cfg, now, e)))
  {
    if EffectiveTtl(cfg, kind) > now {
      var e := StoredEvent("", "", kind, "", [], 0xFFFF_FFFF_FFFF_FFFF, "", 0);
      assert Wrap64(now - e.createdAt) == now + 1;
      assert !Expired(cfg, now).Hits(e) && !Fresh(cfg, now, e);
    }
  }

  lemma PartAppend(events: seq<StoredEvent>, e: StoredEvent, sweep: Sweep)
    ensures Part(events + [e], sweep, false)
            == Part(events, sweep, false) + if sweep.Hits(e) then [] else [e]
  {
    assert (events + [e])[..|events|] == events;
  }

  lemma {:induction false} SweepAbsorbed(events: seq<StoredEvent>, first: Sweep, second: Sweep)
    requires forall i :: 0 <= i < |events| && first.Hits(events[i]) ==> second.Hits(events[i])
    ensures Part(Part(events, first, false), second, false) == Part(events, second, false)
  {
    if events != [] {
      var init, e := events[..|events| - 1], events[|events| - 1];
      SweepAbsorbed(init, first, second);
      if first.Hits(e) {
        assert Part(events, first, false) == Part(init, first, false);
        assert Part(events, second, false) == Part(init, second, false);
      } else {
        PartAppend(Part(init, first, false), e, second);
      }
    }
  }

  /** Pruning at `t1` and again at `t2` is pruning once at `t2`, for events dated no later than `t1`;
      with `t1 == t2` this says that pruning twice at one instant changes nothing. */
  lemma {:induction false} PruneTwiceIsPruneOnce(cfg: Config, events: seq<StoredEvent>, t1: uint64, t2: uint64)
    requires t1 <= t2
    requires t1 == t2 || forall i :: 0 <= i < |events| ==> events[i].createdAt <= t1
    ensures Part(Part(events, Expired(cfg, t1), false), Expired(cfg, t2), false)
            == Part(events, Expired(cfg, t2), false)
  {
    forall i | 0 <= i < |events| && Expired(cfg, t1).Hits(events[i])
      ensures Expired(cfg, t2).Hits(events[i])
    {
      if t1 != t2 {
        assert Wrap64(t1 - events[i].createdAt) == t1 - events[i].createdAt;
        assert Wrap64(t2 - events[i].createdAt) == t2 - events[i].createdAt;
      }
    }
    SweepAbsorbed(events, Expired(cfg, t1), Expired(cfg, t2));
  }

  // ---------------------------------------------------------------- subscriptions

  /** The events that `keep` holds of, in order. */
  function Select(events: seq<StoredEvent>, keep: StoredEvent -> bool): seq<StoredEvent> {
    if events == [] then []
    else
      var e := events[|events| - 1];
      Select(events[..|events| - 1], keep) + if keep(e) then [e] else []
  }

  lemma {:induction false} SelectAppend(events: seq<StoredEvent>, e: StoredEvent, keep: StoredEvent -> bool)
    ensures Select(events + [e], keep) == Select(events, keep) + if keep(e) then [e] else []
  {
    assert (events + [e])[..|events|] == events;
  }

  lemma {:induction false} EmbedsInMore(positions: seq<int>, xs: seq<StoredEvent>, ys: seq<StoredEvent>, e: StoredEvent)
    requires Embeds(positions, xs, ys)
    ensures Embeds(positions, xs, ys + [e])
    ensures Embeds(positions + [|ys|], xs + [e], ys + [e])
  {
  }

  /** Nothing else is selected, nothing is left out, and the order stays. */
  lemma {:induction false} SelectIsExact(events: seq<StoredEvent>, keep: StoredEvent -> bool)
    returns (positions: seq<int>)
    ensures Embeds(positions, Select(events, keep), events)
    ensures forall i :: 0 <= i < |events| ==> (keep(events[i]) <==> i in positions)
  {
    if events == [] {
      positions := [];
    } else {
      var n := |events| - 1;
      positions := SelectIsExact(events[..n], keep);
      EmbedsInMore(positions, Select(events[..n], keep), events[..n], events[n]);
      assert events[..n] + [events[n]] == events;
      assert forall i :: 0 <= i < n ==> events[..n][i] == events[i];
      if keep(events[n]) {
        positions := positions + [n];
      }
    }
  }

  lemma {:induction false} SelectSame(events: seq<StoredEvent>, f: StoredEvent -> bool, g: StoredEvent -> bool)
    requires forall i :: 0 <= i < |events| ==> f(events[i]) == g(events[i])
    ensures Select(events, f) == Select(events, g)
  {
    if events != [] { SelectSame(events[..|events| - 1], f, g); }
  }

  lemma {:induction false} SelectTwice(events: seq<StoredEvent>, f: StoredEvent -> bool, g: StoredEvent -> bool,
                                       both: StoredEvent -> bool)
    requires forall e :: both(e) == (f(e) && g(e))
    ensures Select(Select(events, f), g) == Select(events, both)
  {
    if events != [] {
      var init, e := events[..|events| - 1], events[|events| - 1];
      SelectTwice(init, f, g, both);
      if f(e) {
        SelectAppend(Select(init, f), e, g);
      } else {
        assert Select(events, f) == Select(init, f);
      }
    }
  }

  lemma {:induction false} SelectAll(events: seq<StoredEvent>)
    ensures Select(events, _ => true) == events
  {
    if events != [] {
      SelectAll(events[..|events| - 1]);
      assert events == events[..|events| - 1] + [events[|events| - 1]];
    }
  }

  lemma {:induction false} AnswerIsSelect(events: seq<StoredEvent>, f: Filter)
    ensures Answer(events, f) == Select(events, e => f.Matches(e))
  {
    if events != [] { AnswerIsSelect(events[..|events| - 1], f); }
  }

  /** The events sent for a REQ are, in order, exactly those at the matching positions of the deque. */
  lemma {:induction false} AnswerIsExact(events: seq<StoredEvent>, f: Filter)
    ensures exists positions ::
              && Embeds(positions, Answer(events, f), events)
              && forall i :: 0 <= i < |events| ==> (f.Matches(events[i]) <==> i in positions)
  {
    AnswerIsSelect(events, f);
    var positions := SelectIsExact(events, e => f.Matches(e));
  }

  // ---------------------------------------------------------------- answers and sweeps, field by field

  /** A filter with one field sends the events whose field of that name is listed; one without fields sends
      all of them. */
  lemma {:induction false} AnswerByField(events: seq<StoredEvent>, kinds: seq<int>, names: seq<string>)
    ensures Answer(events, Filter(Some(kinds), None, None)) == Select(events, (e: StoredEvent) => e.kind in kinds)
    ensures Answer(events, Filter(None, Some(names), None)) == Select(events, (e: StoredEvent) => e.pubkey in names)
    ensures Answer(events, Filter(None, None, Some(names))) == Select(events, (e: StoredEvent) => e.id in names)
    ensures Answer(events, Filter(None, None, None)) == events
  {
    var f1, f2 := Filter(Some(kinds), None, None), Filter(None, Some(names), None);
    var f3, f4 := Filter(None, None, Some(names)), Filter(None, None, None);
    AnswerIsSelect(events, f1);
    AnswerIsSelect(events, f2);
    AnswerIsSelect(events, f3);
    AnswerIsSelect(events, f4);
    SelectSame(events, e => f1.Matches(e), (e: StoredEvent) => e.kind in kinds);
    SelectSame(events, e => f2.Matches(e), (e: StoredEvent) => e.pubkey in names);
    SelectSame(events, e => f3.Matches(e), (e: StoredEvent) => e.id in names);
    SelectSame(events, e => f4.Matches(e), _ => true);
    SelectAll(events);
  }

  lemma {:induction false} AnswerTwice(events: seq<StoredEvent>, f: Filter, g: Filter, both: Filter)
    requires forall e :: both.Matches(e) <==> f.Matches(e) && g.Matches(e)
    ensures Answer(Answer(events, f), g) == Answer(events, both)
  {
    AnswerIsSelect(events, f);
    AnswerIsSelect(Answer(events, f), g);
    AnswerIsSelect(events, both);
    SelectTwice(events, e => f.Matches(e), e => g.Matches(e), e => both.Matches(e));
  }

  /** A filter with several fields sends the events that every one of its fields sends alone. */
  lemma {:induction false} AnswerByFields(events: seq<StoredEvent>, f: Filter)
    ensures Answer(events, f)
            == Answer(Answer(Answer(events, Filter(f.kinds, None, None)), Filter(None, f.authors, None)),
                      Filter(None, None, f.ids))
  {
    AnswerTwice(events, Filter(f.kinds, None, None), Filter(None, f.authors, None), Filter(f.kinds, f.authors, None));
    AnswerTwice(events, Filter(f.kinds, f.authors, None), Filter(None, None, f.ids), f);
  }

  lemma {:induction false} PartIsSelect(events: seq<StoredEvent>, sweep: Sweep)
    ensures Part(events, sweep, false) == Select(events, e => !sweep.Hits(e))
  {
    if events != [] { PartIsSelect(events[..|events| - 1], sweep); }
  }

  /** Deleting by pubkey, or by identifier, keeps the events of others. */
  lemma {:induction false} DeleteByField(s: Store, name: string)
    ensures AfterSweep(s, ByPubkey(name)).events == Select(s.events, (e: StoredEvent) => e.pubkey != name)
    ensures AfterSweep(s, ById(name)).events == Select(s.events, (e: StoredEvent) => e.id != name)
  {
    PartIsSelect(s.events, ByPubkey(name));
    PartIsSelect(s.events, ById(name));
    SelectSame(s.events, e => !ByPubkey(name).Hits(e), (e: StoredEvent) => e.pubkey != name);
    SelectSame(s.events, e => !ById(name).Hits(e), (e: StoredEvent) => e.id != name);
  }

  /** The events of one kind in the store after a prune at `now`. */
  function KeptOfKind(s: Store, now: uint64, kind: uint16): seq<StoredEvent> {
    Select(AfterSweep(s, Expired(s.cfg, now)).events, (e: StoredEvent) => e.kind == kind)
  }

  lemma {:induction false} KeptIs(s: Store, now: uint64, kind: uint16, keep: StoredEvent -> bool)
    requires forall e: StoredEvent :: keep(e) <==> e.kind == kind && !Expired(s.cfg, now).Hits(e)
    ensures KeptOfKind(s, now, kind) == Select(s.events, keep)
  {
    var sweep := Expired(s.cfg, now);
    PartIsSelect(s.events, sweep);
    SelectTwice(s.events, e => !sweep.Hits(e), (e: StoredEvent) => e.kind == kind, keep);
  }

  /** Young enough for a positive TTL, with the age computed in 64 unsigned bits. */
  lemma {:induction false} AgeIsUnsigned(now: uint64, createdAt: uint64, ttl: int32)
    requires ttl > 0
    ensures Wrap64(now - createdAt) <= ttl <==>
            if createdAt <= now then now - createdAt <= ttl
            else now + 0x1_0000_0000_0000_0000 - createdAt <= ttl
  {
  }

  /** What a prune keeps of each kind. A kind with an entry of its own goes by that entry, any other by the
      default: with a TTL of zero or less nothing goes, and otherwise what is too old, the age of an event
      dated in the future being counted from the end of the 64-bit range. */
  lemma {:induction false} PruneByKind(s: Store, now: uint64, kind: uint16, ttl: int32)
    requires if kind in s.cfg.kindTtl then ttl == s.cfg.kindTtl[kind] else ttl == s.cfg.defaultTtl
    ensures ttl <= 0 ==> KeptOfKind(s, now, kind) == Select(s.events, (e: StoredEvent) => e.kind == kind)
    ensures ttl > 0 ==>
              KeptOfKind(s, now, kind)
              == Select(s.events, (e: StoredEvent) => e.kind == kind &&
                                  if e.createdAt <= now then now - e.createdAt <= ttl
                                  else now + 0x1_0000_0000_0000_0000 - e.createdAt <= ttl)
    ensures 0 < ttl <= now ==>
              KeptOfKind(s, now, kind)
              == Select(s.events, (e: StoredEvent) => e.kind == kind && e.createdAt <= now && now - e.createdAt <= ttl)
  {
    forall e: StoredEvent | ttl > 0
      ensures Wrap64(now - e.createdAt) <= ttl <==>
              if e.createdAt <= now then now - e.createdAt <= ttl
              else now + 0x1_0000_0000_0000_0000 - e.createdAt <= ttl
    {
      AgeIsUnsigned(now, e.createdAt, ttl);
    }
    if ttl <= 0 {
      KeptIs(s, now, kind, (e: StoredEvent) => e.kind == kind);
    } else {
      KeptIs(s, now, kind, (e: StoredEvent) => e.kind == kind &&
                           if e.createdAt <= now then now - e.createdAt <= ttl
                           else now + 0x1_0000_0000_0000_0000 - e.createdAt <= ttl);
      if ttl <= now {
        KeptIs(s, now, kind, (e: StoredEvent) => e.kind == kind && e.createdAt <= now && now - e.createdAt <= ttl);
      }
    }
  }

  // ---------------------------------------------------------------- insertion and conversions

  /** After an insertion the event is the newest, the others are the newest of those before, and no more of them
      are gone than the total cap asks for. */
  lemma {:induction false} StoreKeepsNewest(s: Store, e: StoredEvent)
    ensures var after, max := AfterStore(s, e).events, s.cfg.maxTotal;
            && after != [] && after[|after| - 1] == e
            && |after| == (if |s.events| < max then |s.events| + 1 else if max == 0 then 1 else max)
            && after[..|after| - 1] == s.events[|s.events| - (|after| - 1)..]
  {
  }

  /** Both conversions change a number by a multiple of their range. */
  lemma {:induction false} ConversionsWrap(n: int) returns (j: int, k: int)
    ensures Wrap64(n) == n + j * 0x1_0000_0000_0000_0000
    ensures CastInt32(n) == n + k * 0x1_0000_0000
  {
    j, k := 0 - n / 0x1_0000_0000_0000_0000, 0 - (n + 0x8000_0000) / 0x1_0000_0000;
  }
}
