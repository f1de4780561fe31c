/** Runs that store given events: every session takes its event through the rate check before any of them
    stores, and then they pass the storage check and store, in order, as a plan says. */
module RelaySchedules {
  import opened Basics
  import opened RelayStore
  import opened RelayProtocol
  import opened RelayRuns

  // ---------------------------------------------------------------- states of the run

  /** Session `s` has the event `es[s]`: the first `done` have stored theirs, those up to `approved` are
      past the storage check, the rest of the `m` sessions past the rate check. */
  ghost predicate Lined(sessions: map<nat, Pc>, es: seq<StoredEvent>, done: nat, approved: nat, m: nat) {
    && m <= |es|
    && (forall s: nat :: s in sessions <==> s < m)
    && (forall s: nat :: s < m ==>
          sessions[s] == if s < done then Idle else if s < approved then Approved(es[s]) else RateOk(es[s]))
  }

  /** The store has the events of the sessions that are done, in order. */
  ghost predicate Stored(sys: System, cfg: Config, es: seq<StoredEvent>, done: nat) {
    KeepsSettings(sys, cfg) && done <= |es| && sys.store.events == es[..done]
  }

  /** Both, for the `es` of all sessions. */
  ghost predicate Placed(sys: System, cfg: Config, es: seq<StoredEvent>, done: nat, approved: nat) {
    Stored(sys, cfg, es, done) && Lined(sys.sessions, es, done, approved, |es|)
  }

  /** Nothing has been recorded yet. */
  ghost predicate NoneRecorded(limiter: map<string, seq<uint64>>) {
    forall p :: Times(limiter, p) == []
  }

  /** Sessions 0 to `m - 1` are past the rate check, and nothing is stored or recorded. */
  ghost predicate Waiting(sys: System, cfg: Config, es: seq<StoredEvent>, m: nat) {
    Stored(sys, cfg, es, 0) && NoneRecorded(sys.store.limiter) && Lined(sys.sessions, es, 0, 0, m)
  }

  /** `e` fits a store with these events. */
  predicate FitsAfter(cfg: Config, events: seq<StoredEvent>, e: StoredEvent) {
    && |events| < cfg.maxTotal
    && Count(events, OfKind(e.kind)) < cfg.maxPerKind
    && Count(events, OfPubkey(e.pubkey)) < cfg.maxPerPubkey
  }

  /** Event `i` fits the store when `base[i]` events are in it, and fewer than `t` sessions are then past
      the storage check. */
  ghost predicate Plan(cfg: Config, es: seq<StoredEvent>, base: seq<nat>, t: nat) {
    && |es| == |base| <= cfg.maxTotal
    && (forall e :: e in es ==> Acceptable(cfg, e))
    && (forall i :: 0 <= i < |es| ==> PlannedAt(cfg, es, base, t, i))
  }

  ghost predicate PlannedAt(cfg: Config, es: seq<StoredEvent>, base: seq<nat>, t: nat, i: nat)
    requires |base| == |es|
  {
    && i < |es| && Before(base, i) <= base[i] <= i < base[i] + t
    && FitsAfter(cfg, es[..base[i]], es[i])
  }

  /** How many events are in the store when event `i` has just been approved. */
  function Before(base: seq<nat>, i: nat): nat
    requires i <= |base|
  {
    if i == 0 then 0 else base[i - 1]
  }

  // ---------------------------------------------------------------- one session

  lemma {:induction false} OnlyApproved(sessions: map<nat, Pc>, es: seq<StoredEvent>, done: nat, approved: nat, m: nat,
                                        q: Query)
    requires Lined(sessions, es, done, approved, m) && done <= approved
    ensures Holders(sessions, FromStorageCheckToInsert(q)) <= Between(done, approved)
  {
  }

  lemma CheckRecordsNothing(limiter: map<string, seq<uint64>>, p: string)
    requires NoneRecorded(limiter)
    ensures NoneRecorded(limiter[p := []])
  {
    var after := limiter[p := []];
    forall p'
      ensures Times(after, p') == []
    {
      assert Times(limiter, p') == [];
    }
  }

  lemma {:induction false} PassNext(sys: System, cfg: Config, es: seq<StoredEvent>, m: nat, q: Query)
    requires 1 <= cfg.rateLimitEvents && m < |es| && Acceptable(cfg, es[m])
    requires Waiting(sys, cfg, es, m)
    ensures Waiting(Run(sys, PassSteps(m, es[m])), cfg, es, m + 1)
    ensures AtMostInFlight(sys, PassSteps(m, es[m]), FromStorageCheckToInsert(q), 1)
  {
    assert Times(sys.store.limiter, es[m].pubkey) == [];
    CheckRecordsNothing(sys.store.limiter, es[m].pubkey);
    Pass(sys, m, es[m]);
    OnlyApproved(sys.sessions, es, 0, 0, m, q);
    PassActsIn(m, es[m], Between(m, m + 1));
    FewInFlight(sys, PassSteps(m, es[m]), FromStorageCheckToInsert(q), Between(m, m + 1));
  }

  lemma {:induction false} ApproveNext(sys: System, cfg: Config, es: seq<StoredEvent>, done: nat, k: nat)
    requires done <= k < |es| && Placed(sys, cfg, es, done, k)
    requires Acceptable(cfg, es[k]) && FitsAfter(cfg, es[..done], es[k])
    ensures Placed(Run(sys, [Advance(k)]), cfg, es, done, k + 1)
  {
    Approve(sys, k, es[k]);
  }

  lemma {:induction false} LandNext(sys: System, cfg: Config, es: seq<StoredEvent>, k: nat, approved: nat)
    requires k < approved <= |es| <= cfg.maxTotal && Placed(sys, cfg, es, k, approved)
    ensures Placed(Run(sys, [Advance(k), Advance(k)]), cfg, es, k + 1, approved)
  {
    Land(sys, k, es[k]);
    assert es[..k + 1] == es[..k] + [es[k]];
  }

  // ---------------------------------------------------------------- phases

  /** Any of these gaps is empty while no session is past the storage check. */
  lemma {:induction false} NoneApproved(sys: System, es: seq<StoredEvent>, done: nat, m: nat, q: Query)
    requires Lined(sys.sessions, es, done, done, m)
    ensures AtMostInFlight(sys, [], FromStorageCheckToInsert(q), 1)
  {
    OnlyApproved(sys.sessions, es, done, done, m, q);
    FewInFlight(sys, [], FromStorageCheckToInsert(q), Between(0, 1));
  }

  lemma {:induction false} PassOneMore(sys: System, init: seq<Step>, cfg: Config, es: seq<StoredEvent>,
                                       m: nat, q: Query)
    returns (steps: seq<Step>)
    requires 1 <= cfg.rateLimitEvents && m < |es| && Acceptable(cfg, es[m])
    requires AtMostInFlight(sys, init, FromStorageCheckToInsert(q), 1) && Waiting(Run(sys, init), cfg, es, m)
    ensures AtMostInFlight(sys, steps, FromStorageCheckToInsert(q), 1) && Waiting(Run(sys, steps), cfg, es, m + 1)
  {
    var pass := PassSteps(m, es[m]);
    PassNext(Run(sys, init), cfg, es, m, q);
    AtMostConcat(sys, init, pass, FromStorageCheckToInsert(q), 1);
    steps := init + pass;
  }

  /** The first `m` sessions pass the rate check, none having recorded yet. */
  lemma {:induction false} PassAll(sys: System, cfg: Config, es: seq<StoredEvent>, m: nat, q: Query)
    returns (steps: seq<Step>)
    requires 1 <= cfg.rateLimitEvents && m <= |es| && forall e :: e in es ==> Acceptable(cfg, e)
    requires Waiting(sys, cfg, es, 0)
    ensures AtMostInFlight(sys, steps, FromStorageCheckToInsert(q), 1) && Waiting(Run(sys, steps), cfg, es, m)
  {
    if m == 0 {
      steps := [];
      NoneApproved(sys, es, 0, 0, q);
    } else {
      var init := PassAll(sys, cfg, es, m - 1, q);
      steps := PassOneMore(sys, init, cfg, es, m - 1, q);
    }
  }

  /** A run so far: never more than `t` sessions in the gap, and now `done` events stored and the sessions up
      to `approved` past the storage check. */
  ghost predicate Reached(sys: System, steps: seq<Step>, cfg: Config, es: seq<StoredEvent>, q: Query, t: nat,
                          done: nat, approved: nat) {
    && AtMostInFlight(sys, steps, FromStorageCheckToInsert(q), t)
    && done <= approved <= |es| && Placed(Run(sys, steps), cfg, es, done, approved)
  }

  /** While only the sessions in the gap act, and at most `t` of them, at most `t` are in it. */
  lemma {:induction false} GapStaysSmall(sys: System, steps: seq<Step>, es: seq<StoredEvent>, q: Query, t: nat,
                                         done: nat, approved: nat, last: nat)
    requires Lined(sys.sessions, es, done, approved, |es|) && done <= approved <= last <= done + t
    requires AllActIn(steps, Between(done, last))
    ensures AtMostInFlight(sys, steps, FromStorageCheckToInsert(q), t)
  {
    OnlyApproved(sys.sessions, es, done, approved, |es|, q);
    FewInFlight(sys, steps, FromStorageCheckToInsert(q), Between(done, last));
    AtMostMore(sys, steps, FromStorageCheckToInsert(q), last - done, t);
  }

  lemma {:induction false} LandOneMore(
      sys: System, init: seq<Step>, cfg: Config, es: seq<StoredEvent>, q: Query, t: nat, done: nat, approved: nat)
    returns (steps: seq<Step>)
    requires Reached(sys, init, cfg, es, q, t, done, approved) && |es| <= cfg.maxTotal
    requires done < approved && approved - done <= t
    ensures Reached(sys, steps, cfg, es, q, t, done + 1, approved)
  {
    var now, land, gap := Run(sys, init), [Advance(done), Advance(done)], FromStorageCheckToInsert(q);
    LandNext(now, cfg, es, done, approved);
    GapStaysSmall(now, land, es, q, t, done, approved, approved);
    AtMostConcat(sys, init, land, gap, t);
    steps := init + land;
  }

  lemma {:induction false} ApproveOneMore(
      sys: System, init: seq<Step>, cfg: Config, es: seq<StoredEvent>, q: Query, t: nat, done: nat, approved: nat)
    returns (steps: seq<Step>)
    requires Reached(sys, init, cfg, es, q, t, done, approved)
    requires approved < |es| && approved - done < t
    requires Acceptable(cfg, es[approved]) && FitsAfter(cfg, es[..done], es[approved])
    ensures Reached(sys, steps, cfg, es, q, t, done, approved + 1)
  {
    var now, approve, gap := Run(sys, init), [Advance(approved)], FromStorageCheckToInsert(q);
    ApproveNext(now, cfg, es, done, approved);
    GapStaysSmall(now, approve, es, q, t, done, approved, approved + 1);
    AtMostConcat(sys, init, approve, gap, t);
    steps := init + approve;
  }

  /** The sessions store until `goal` events are in the store. */
  lemma {:induction false} LandUpTo(sys: System, init: seq<Step>, cfg: Config, es: seq<StoredEvent>, q: Query, t: nat,
                                    done: nat, approved: nat, goal: nat)
    returns (steps: seq<Step>)
    requires Reached(sys, init, cfg, es, q, t, done, approved) && |es| <= cfg.maxTotal
    requires done <= goal <= approved && approved - done <= t
    ensures Reached(sys, steps, cfg, es, q, t, goal, approved)
    decreases goal
  {
    if done == goal {
      steps := init;
    } else {
      steps := LandUpTo(sys, init, cfg, es, q, t, done, approved, goal - 1);
      steps := LandOneMore(sys, steps, cfg, es, q, t, goal - 1, approved);
    }
  }

  /** When `goal` events are in the store, the next session passes the storage check. */
  lemma {:induction false} LandThenApprove(sys: System, init: seq<Step>, cfg: Config, es: seq<StoredEvent>, q: Query,
                                           t: nat, done: nat, approved: nat, goal: nat)
    returns (steps: seq<Step>)
    requires Reached(sys, init, cfg, es, q, t, done, approved) && approved < |es| <= cfg.maxTotal
    requires approved - done <= t && done <= goal <= approved < goal + t
    requires Acceptable(cfg, es[approved]) && FitsAfter(cfg, es[..goal], es[approved])
    ensures Reached(sys, steps, cfg, es, q, t, goal, approved + 1)
  {
    steps := LandUpTo(sys, init, cfg, es, q, t, done, approved, goal);
    steps := ApproveOneMore(sys, steps, cfg, es, q, t, goal, approved);
  }

  /** The first `k` sessions pass the storage check, as planned. */
  lemma {:induction false} ApproveUpTo(sys: System, init: seq<Step>, cfg: Config, es: seq<StoredEvent>, base: seq<nat>,
                                       q: Query, t: nat, k: nat)
    returns (steps: seq<Step>)
    requires Plan(cfg, es, base, t) && k <= |es| && Reached(sys, init, cfg, es, q, t, 0, 0)
    ensures Reached(sys, steps, cfg, es, q, t, Before(base, k), k) && k - Before(base, k) <= t
  {
    if k == 0 {
      steps := init;
    } else {
      assert PlannedAt(cfg, es, base, t, k - 1);
      steps := ApproveUpTo(sys, init, cfg, es, base, q, t, k - 1);
      steps := LandThenApprove(sys, steps, cfg, es, q, t, Before(base, k - 1), k - 1, base[k - 1]);
    }
  }

  /** Every plan is carried out by some run, with never more than `t` sessions between the storage check and
      the insertion. */
  lemma {:induction false} PlanIsStored(cfg: Config, t0: uint64, es: seq<StoredEvent>, base: seq<nat>, q: Query, t: nat)
    returns (steps: seq<Step>)
    requires 1 <= cfg.rateLimitEvents && 1 <= t && Plan(cfg, es, base, t)
    ensures AtMostInFlight(Start(cfg, t0), steps, FromStorageCheckToInsert(q), t)
    ensures Run(Start(cfg, t0), steps).store.events == es
  {
    var start, n := Start(cfg, t0), |es|;
    steps := PassAll(start, cfg, es, n, q);
    AtMostMore(start, steps, FromStorageCheckToInsert(q), 1, t);
    steps := ApproveUpTo(start, steps, cfg, es, base, q, t, n);
    steps := LandUpTo(start, steps, cfg, es, q, t, Before(base, n), n, n);
    assert es[..n] == es;
  }
}
