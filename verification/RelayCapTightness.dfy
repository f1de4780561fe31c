/** When the caps per kind and per pubkey hold, exactly: how many events of a kind or pubkey the relay can ever
    be made to store by runs with at most `t` sessions between the storage check and the insertion. */
module RelayCapTightness {
  import opened Basics
  import opened RelayStore
  import opened RelayProtocol
  import opened RelayStorage
  import opened RelayRuns
  import opened RelaySchedules

  function Least(a: nat, b: nat): nat {
    if a < b then a else b
  }

  /** The most events of a kind or pubkey, with `t` sessions in the gap: as many more than its cap as other
      sessions can be in the gap, if the total cap has room; and one pubkey can run out of kinds. */
  function Reach(cfg: Config, q: Query, t: nat): nat
    requires 1 <= t
  {
    var most := Least(q.Cap(cfg) + t - 1, cfg.maxTotal);
    if q.OfPubkey? then Least(most, 0x1_0000 * (cfg.maxPerKind + t - 1)) else most
  }

  // ---------------------------------------------------------------- no more than that

  lemma {:induction false} CountAtMostAll(events: seq<StoredEvent>, q: Query)
    ensures Count(events, q) <= |events|
  {
    CountFewer(events, q, Everything);
    CountEverything(events);
  }

  /** The events of `p` of the first `n` kinds. */
  function CountBelow(events: seq<StoredEvent>, p: string, n: nat): nat {
    if events == [] then 0
    else
      var e := events[|events| - 1];
      CountBelow(events[..|events| - 1], p, n) + Bit(e.pubkey == p && e.kind < n)
  }

  lemma {:induction false} CountBelowNext(events: seq<StoredEvent>, p: string, n: uint16)
    ensures CountBelow(events, p, n + 1) == CountBelow(events, p, n) + Count(events, OfBoth(n, p))
  {
    if events != [] { CountBelowNext(events[..|events| - 1], p, n); }
  }

  lemma {:induction false} CountBelowEnds(events: seq<StoredEvent>, p: string)
    ensures CountBelow(events, p, 0) == 0
    ensures CountBelow(events, p, 0x1_0000) == Count(events, OfPubkey(p))
  {
    if events != [] { CountBelowEnds(events[..|events| - 1], p); }
  }

  lemma {:induction false} KindsTimesBound(events: seq<StoredEvent>, p: string, n: nat, bound: nat)
    requires n <= 0x1_0000 && forall k: uint16 :: Count(events, OfBoth(k, p)) <= bound
    ensures CountBelow(events, p, n) <= n * bound
  {
    if n == 0 {
      CountBelowEnds(events, p);
    } else {
      KindsTimesBound(events, p, n - 1, bound);
      CountBelowNext(events, p, n - 1);
    }
  }

  lemma {:induction false} FewerInSmallerGap(sys: System, steps: seq<Step>, q: Query, q': Query, t: nat)
    requires forall e :: q.Matches(e) ==> q'.Matches(e)
    requires AtMostInFlight(sys, steps, FromStorageCheckToInsert(q'), t)
    ensures AtMostInFlight(sys, steps, FromStorageCheckToInsert(q), t)
  {
    if steps != [] { FewerInSmallerGap(sys, steps[..|steps| - 1], q, q', t); }
    SubsetSize(Holders(Run(sys, steps).sessions, FromStorageCheckToInsert(q)),
               Holders(Run(sys, steps).sessions, FromStorageCheckToInsert(q')));
  }

  lemma {:induction false} KindsRunOut(cfg: Config, t0: uint64, steps: seq<Step>, p: string, t: nat)
    requires 1 <= t && AtMostInFlight(Start(cfg, t0), steps, FromStorageCheckToInsert(OfPubkey(p)), t)
    ensures Count(Run(Start(cfg, t0), steps).store.events, OfPubkey(p)) <= 0x1_0000 * (cfg.maxPerKind + t - 1)
  {
    var events := Run(Start(cfg, t0), steps).store.events;
    forall k: uint16
      ensures Count(events, OfBoth(k, p)) <= cfg.maxPerKind + t - 1
    {
      FewerInSmallerGap(Start(cfg, t0), steps, OfBoth(k, p), OfPubkey(p), t);
      CapOverRuns(cfg, t0, steps, OfBoth(k, p), t);
    }
    KindsTimesBound(events, p, 0x1_0000, cfg.maxPerKind + t - 1);
    CountBelowEnds(events, p);
  }

  /** No run with at most `t` sessions in the gap stores more. */
  lemma {:induction false} ReachIsBound(cfg: Config, t0: uint64, steps: seq<Step>, q: Query, t: nat)
    requires 1 <= t && AtMostInFlight(Start(cfg, t0), steps, FromStorageCheckToInsert(q), t)
    ensures Count(Run(Start(cfg, t0), steps).store.events, q) <= Reach(cfg, q, t)
  {
    CapOverRuns(cfg, t0, steps, q, t);
    TotalCapAndAdmission(cfg, t0, steps);
    RunKeepsLimits(Start(cfg, t0), steps);
    CountAtMostAll(Run(Start(cfg, t0), steps).store.events, q);
    if q.OfPubkey? { KindsRunOut(cfg, t0, steps, q.pubkey, t); }
  }

  // ---------------------------------------------------------------- a plan for a kind

  /** The events that `q` counts are those from `k` on. */
  lemma {:induction false} CountFrom(events: seq<StoredEvent>, q: Query, k: nat)
    requires k <= |events| && forall i :: 0 <= i < |events| ==> (q.Matches(events[i]) <==> k <= i)
    ensures Count(events, q) == |events| - k
  {
    if events != [] {
      var n := |events| - 1;
      CountFrom(events[..n], q, if k <= n then k else n);
    }
  }

  /** A name of length `n`. */
  function Letters(n: nat): (r: string)
    ensures |r| == n
  {
    seq(n, _ => 'a')
  }

  lemma {:induction false} LongerThanAll(names: set<string>) returns (n: nat)
    ensures forall name :: name in names ==> |name| < n
  {
    if names == {} {
      n := 0;
    } else {
      var x :| x in names;
      var rest := LongerThanAll(names - {x});
      n := if |x| < rest then rest else |x| + 1;
    }
  }

  /** `m` events of one kind, all by different pubkeys. */
  function ByMany(e: StoredEvent, n: nat, m: nat): (es: seq<StoredEvent>)
    ensures |es| == m && forall i :: 0 <= i < m ==> es[i] == e.(pubkey := Letters(n + i))
  {
    seq(m, i requires 0 <= i => e.(pubkey := Letters(n + i)))
  }

  /** The first `cap - 1` events one after the other, and the rest at once. */
  function KindBase(cap: nat, m: nat): (base: seq<nat>)
    requires 1 <= cap
    ensures |base| == m && forall i :: 0 <= i < m ==> base[i] == Least(i, cap - 1)
  {
    seq(m, i requires 0 <= i => Least(i, cap - 1))
  }

  lemma {:induction false} ManyFit(cfg: Config, e: StoredEvent, n: nat, m: nat, j: nat, i: nat)
    requires j <= i < m <= cfg.maxTotal && j < cfg.maxPerKind && 1 <= cfg.maxPerPubkey
    ensures FitsAfter(cfg, ByMany(e, n, m)[..j], ByMany(e, n, m)[i])
  {
    var es := ByMany(e, n, m);
    CountFrom(es[..j], OfKind(e.kind), 0);
    forall x | 0 <= x < j
      ensures !OfPubkey(es[i].pubkey).Matches(es[..j][x])
    {
      assert |es[x].pubkey| == n + x;
    }
    CountFrom(es[..j], OfPubkey(es[i].pubkey), j);
  }

  lemma {:induction false} KindPlan(cfg: Config, e: StoredEvent, t: nat)
    returns (es: seq<StoredEvent>, base: seq<nat>)
    requires AcceptsEvents(cfg) && Acceptable(cfg, e) && 1 <= t
    ensures |es| == Reach(cfg, OfKind(e.kind), t) && Plan(cfg, es, base, t) && Count(es, OfKind(e.kind)) == |es|
  {
    var m := Reach(cfg, OfKind(e.kind), t);
    var n := LongerThanAll(cfg.bannedPubkeys);
    es, base := ByMany(e, n, m), KindBase(cfg.maxPerKind, m);
    forall i | 0 <= i < m
      ensures Acceptable(cfg, es[i])
      ensures PlannedAt(cfg, es, base, t, i)
    {
      assert |es[i].pubkey| >= n;
      ManyFit(cfg, e, n, m, base[i], i);
    }
    CountFrom(es, OfKind(e.kind), 0);
  }

  // ---------------------------------------------------------------- a plan for a pubkey

  lemma {:induction false} GroupsApart(a: nat, b: nat, width: nat)
    requires a < b
    ensures a * width + width <= b * width
  {
    assert b * width == a * width + width + (b - a - 1) * width;
  }

  lemma {:induction false} LastGroup(i: nat, j: nat, width: nat)
    requires 1 <= width && i < j
    ensures i / width == j / width <==> j - j % width <= i
  {
    var a, b := i / width, j / width;
    assert i == a * width + i % width && j == b * width + j % width;
    if a < b {
      GroupsApart(a, b, width);
    } else if b < a {
      GroupsApart(b, a, width);
    }
  }

  lemma {:induction false} PreviousInGroup(i: nat, width: nat)
    requires 1 <= width && 1 <= i && 1 <= i % width
    ensures (i - 1) % width == i % width - 1
  {
    LastGroup(i - 1, i, width);
    assert i == i / width * width + i % width && i - 1 == (i - 1) / width * width + (i - 1) % width;
  }

  /** The events of one pubkey, `width` to each kind. */
  function OfManyKinds(e: StoredEvent, width: nat, m: nat): (es: seq<StoredEvent>)
    requires 1 <= width && m <= 0x1_0000 * width
    ensures |es| == m && forall i :: 0 <= i < m ==> i / width < 0x1_0000 && es[i] == e.(kind := i / width)
  {
    KindsFit(width, m);
    seq(m, i requires 0 <= i < m => e.(kind := i / width))
  }

  lemma {:induction false} KindsFit(width: nat, m: nat)
    requires 1 <= width && m <= 0x1_0000 * width
    ensures forall i :: 0 <= i < m ==> i / width < 0x1_0000
  {
  }

  /** Of each kind the first `cap - 1` events one after the other and the rest at once, and so too the last
      events of the pubkey. */
  function PubkeyBaseAt(cap: nat, capOfPubkey: nat, width: nat, i: nat): nat
    requires 1 <= cap && 1 <= capOfPubkey && 1 <= width
  {
    Least(i - i % width + Least(i % width, cap - 1), capOfPubkey - 1)
  }

  function PubkeyBase(cap: nat, capOfPubkey: nat, width: nat, m: nat): (base: seq<nat>)
    requires 1 <= cap && 1 <= capOfPubkey && 1 <= width
    ensures |base| == m && forall i :: 0 <= i < m ==> base[i] == PubkeyBaseAt(cap, capOfPubkey, width, i)
  {
    seq(m, i requires 0 <= i => PubkeyBaseAt(cap, capOfPubkey, width, i))
  }

  lemma {:induction false} PubkeyBaseInOrder(cap: nat, capOfPubkey: nat, t: nat, i: nat)
    requires 1 <= cap && 1 <= capOfPubkey && 1 <= t && i < capOfPubkey + t - 1
    ensures var width := cap + t - 1;
            && (i > 0 ==> PubkeyBaseAt(cap, capOfPubkey, width, i - 1) <= PubkeyBaseAt(cap, capOfPubkey, width, i))
            && PubkeyBaseAt(cap, capOfPubkey, width, i) <= i < PubkeyBaseAt(cap, capOfPubkey, width, i) + t
  {
    var width := cap + t - 1;
    if i > 0 && i % width > 0 { PreviousInGroup(i, width); }
  }

  lemma {:induction false} OneOfManyFits(cfg: Config, e: StoredEvent, width: nat, m: nat, i: nat, j: nat)
    requires AcceptsEvents(cfg) && 1 <= width && m <= 0x1_0000 * width && j <= i < m <= cfg.maxTotal
    requires j < cfg.maxPerPubkey && j - (i - i % width) < cfg.maxPerKind
    ensures FitsAfter(cfg, OfManyKinds(e, width, m)[..j], OfManyKinds(e, width, m)[i])
  {
    var es, k := OfManyKinds(e, width, m), i - i % width;
    forall x | 0 <= x < j
      ensures OfKind(es[i].kind).Matches(es[..j][x]) <==> k <= x
    {
      LastGroup(x, i, width);
    }
    CountFrom(es[..j], OfKind(es[i].kind), Least(j, k));
    CountFrom(es[..j], OfPubkey(e.pubkey), 0);
  }

  lemma {:induction false} PubkeyPlan(cfg: Config, e: StoredEvent, t: nat)
    returns (es: seq<StoredEvent>, base: seq<nat>)
    requires AcceptsEvents(cfg) && Acceptable(cfg, e) && 1 <= t
    ensures |es| == Reach(cfg, OfPubkey(e.pubkey), t) && Plan(cfg, es, base, t)
    ensures Count(es, OfPubkey(e.pubkey)) == |es|
  {
    var width, m := cfg.maxPerKind + t - 1, Reach(cfg, OfPubkey(e.pubkey), t);
    es, base := OfManyKinds(e, width, m), PubkeyBase(cfg.maxPerKind, cfg.maxPerPubkey, width, m);
    forall i | 0 <= i < m
      ensures PlannedAt(cfg, es, base, t, i)
    {
      PubkeyBaseInOrder(cfg.maxPerKind, cfg.maxPerPubkey, t, i);
      OneOfManyFits(cfg, e, width, m, i, base[i]);
    }
    CountFrom(es, OfPubkey(e.pubkey), 0);
  }

  // ---------------------------------------------------------------- the bound is reached

  /** In every relay that accepts events, some run with at most `t` sessions between the storage check and the
      insertion stores as many events of a kind, or of a pubkey, as `Reach` says. */
  lemma {:induction false} CapIsTight(cfg: Config, t0: uint64, e: StoredEvent, q: Query, t: nat)
    returns (steps: seq<Step>)
    requires AcceptsEvents(cfg) && Acceptable(cfg, e) && 1 <= t && (q == OfKind(e.kind) || q == OfPubkey(e.pubkey))
    ensures AtMostInFlight(Start(cfg, t0), steps, FromStorageCheckToInsert(q), t)
    ensures Count(Run(Start(cfg, t0), steps).store.events, q) == Reach(cfg, q, t)
  {
    var es, base;
    if q.OfKind? {
      es, base := KindPlan(cfg, e, t);
    } else {
      es, base := PubkeyPlan(cfg, e, t);
    }
    steps := PlanIsStored(cfg, t0, es, base, q, t);
  }

  /** In every run with at most `t` sessions between the storage check and the insertion of an event that
      `q` counts, at most `bound` of them are stored. */
  ghost predicate NeverMore(cfg: Config, t0: uint64, q: Query, t: nat, bound: nat) {
    forall steps :: AtMostInFlight(Start(cfg, t0), steps, FromStorageCheckToInsert(q), t) ==>
      Count(Run(Start(cfg, t0), steps).store.events, q) <= bound
  }

  /** `Reach` is the least bound there is. */
  lemma {:induction false} ReachIsLeast(cfg: Config, t0: uint64, e: StoredEvent, q: Query, t: nat, bound: nat)
    requires AcceptsEvents(cfg) && Acceptable(cfg, e) && 1 <= t && (q == OfKind(e.kind) || q == OfPubkey(e.pubkey))
    ensures NeverMore(cfg, t0, q, t, bound) <==> Reach(cfg, q, t) <= bound
  {
    if Reach(cfg, q, t) <= bound {
      forall steps | AtMostInFlight(Start(cfg, t0), steps, FromStorageCheckToInsert(q), t)
        ensures Count(Run(Start(cfg, t0), steps).store.events, q) <= bound
      {
        ReachIsBound(cfg, t0, steps, q, t);
      }
    } else {
      var steps := CapIsTight(cfg, t0, e, q, t);
    }
  }

  // ---------------------------------------------------------------- when a cap is kept

  /** What a caller can check: one session at a time, a cap that the total cap or the kinds make superfluous,
      or a relay that stores nothing. */
  predicate CapSafe(cfg: Config, q: Query, t: nat) {
    || t <= 1 || cfg.maxTotal <= q.Cap(cfg) || !AcceptsEvents(cfg)
    || (q.OfPubkey? && 0x1_0000 * (cfg.maxPerKind + t - 1) <= q.Cap(cfg))
  }

  lemma {:induction false} CapSafeIsReach(cfg: Config, q: Query, t: nat)
    requires 1 <= t && AcceptsEvents(cfg)
    ensures CapSafe(cfg, q, t) <==> Reach(cfg, q, t) <= q.Cap(cfg)
  {
  }

  lemma {:induction false} SafeCapIsKept(cfg: Config, t0: uint64, steps: seq<Step>, q: Query, t: nat)
    requires CapSafe(cfg, q, t) && AtMostInFlight(Start(cfg, t0), steps, FromStorageCheckToInsert(q), t)
    ensures Count(Run(Start(cfg, t0), steps).store.events, q) <= q.Cap(cfg)
  {
    if !AcceptsEvents(cfg) {
      BarrenOverRuns(cfg, t0, steps);
    } else {
      var t' := if t == 0 then 1 else t;
      AtMostMore(Start(cfg, t0), steps, FromStorageCheckToInsert(q), t, t');
      CapSafeIsReach(cfg, q, t');
      ReachIsBound(cfg, t0, steps, q, t');
    }
  }

  /** A cap is kept by all runs with at most `t` sessions in flight exactly when `t` is at most one, the total
      cap is no larger, nothing is ever stored or, for a pubkey, there are not enough kinds to pass it. */
  lemma {:induction false} CapKeptIff(cfg: Config, t0: uint64, e: StoredEvent, q: Query, t: nat)
    requires Acceptable(cfg, e) && q.Matches(e) && !q.OfBoth?
    ensures NeverMore(cfg, t0, q, t, q.Cap(cfg)) <==> CapSafe(cfg, q, t)
  {
    if CapSafe(cfg, q, t) {
      forall steps | AtMostInFlight(Start(cfg, t0), steps, FromStorageCheckToInsert(q), t)
        ensures Count(Run(Start(cfg, t0), steps).store.events, q) <= q.Cap(cfg)
      {
        SafeCapIsKept(cfg, t0, steps, q, t);
      }
    } else {
      CapSafeIsReach(cfg, q, t);
      ReachIsLeast(cfg, t0, e, q, t, q.Cap(cfg));
    }
  }
}
