/** The relay's shared state and the critical sections of `RelayServer`.

    Every section that runs under one lock is a function on `Store`; the class `RelayServer`
    at the end implements those functions in place, the way the relay does. */
module RelayStore {
  import opened Basics

  /** Reduction of an integer to `uint64_t`. */
  function Wrap64(x: int): uint64 {
    x % 0x1_0000_0000_0000_0000
  }

  datatype StoredEvent = StoredEvent(
    id: string, pubkey: string, kind: uint16, content: string, tags: seq<seq<string>>,
    createdAt: uint64, sig: string, sizeBytes: nat)

  datatype Config = Config(
    rateLimitEvents: int32, rateWindow: int32,
    maxPerPubkey: nat, maxPerKind: nat, maxTotal: nat, maxEventSize: nat,
    defaultTtl: int32, kindTtl: map<uint16, int32>,
    allowedKinds: set<uint16>, bannedPubkeys: set<string>)

  datatype Store = Store(cfg: Config, events: seq<StoredEvent>, limiter: map<string, seq<uint64>>)

  function Times(m: map<string, seq<uint64>>, p: string): seq<uint64> {
    if p in m then m[p] else []
  }

  // ---------------------------------------------------------------- rate limiter

  /** The oldest time the limiter still counts; it wraps when the window exceeds the clock. */
  function Cutoff(cfg: Config, now: uint64): uint64 {
    Wrap64(now - cfg.rateWindow)
  }

  /** The deque once its front has been popped while older than `cutoff`. */
  function PopOlder(times: seq<uint64>, cutoff: uint64): seq<uint64> {
    if times != [] && times[0] < cutoff then PopOlder(times[1..], cutoff) else times
  }

  predicate UnderLimit(cfg: Config, times: seq<uint64>) {
    CastInt32(|times|) < cfg.rateLimitEvents
  }

  function AfterRateCheck(s: Store, p: string, now: uint64): Store {
    s.(limiter := s.limiter[p := PopOlder(Times(s.limiter, p), Cutoff(s.cfg, now))])
  }

  predicate PassesRateCheck(s: Store, p: string, now: uint64) {
    UnderLimit(s.cfg, PopOlder(Times(s.limiter, p), Cutoff(s.cfg, now)))
  }

  function AfterRecord(s: Store, p: string, now: uint64): Store {
    s.(limiter := s.limiter[p := Times(s.limiter, p) + [now]])
  }

  // ---------------------------------------------------------------- storage caps

  /** The three populations that the relay bounds, and the events of one kind by one pubkey, which the cap of
      the kind bounds too. */
  datatype Query = Everything | OfKind(kind: uint16) | OfPubkey(pubkey: string) | OfBoth(kind: uint16, pubkey: string) {
    predicate Matches(e: StoredEvent) {
      match this
      case Everything => true
      case OfKind(k) => e.kind == k
      case OfPubkey(p) => e.pubkey == p
      case OfBoth(k, p) => e.kind == k && e.pubkey == p
    }

    function Cap(cfg: Config): nat {
      match this
      case Everything => cfg.maxTotal
      case OfKind(_) => cfg.maxPerKind
      case OfPubkey(_) => cfg.maxPerPubkey
      case OfBoth(_, _) => cfg.maxPerKind
    }
  }

  function Count(events: seq<StoredEvent>, q: Query): nat {
    if events == [] then 0
    else Count(events[..|events| - 1], q) + if q.Matches(events[|events| - 1]) then 1 else 0
  }

  predicate Fits(s: Store, e: StoredEvent) {
    && e.sizeBytes <= s.cfg.maxEventSize
    && |s.events| < s.cfg.maxTotal
    && Count(s.events, OfKind(e.kind)) < s.cfg.maxPerKind
    && Count(s.events, OfPubkey(e.pubkey)) < s.cfg.maxPerPubkey
  }

  /** How many events the eviction loop pops before an insertion. */
  function Overflow(n: nat, max: nat): (k: nat)
    ensures k <= n
  {
    if n < max then 0 else if max == 0 then n else n - max + 1
  }

  function AfterStore(s: Store, e: StoredEvent): Store {
    s.(events := s.events[Overflow(|s.events|, s.cfg.maxTotal)..] + [e])
  }

  // ---------------------------------------------------------------- removal

  function EffectiveTtl(cfg: Config, kind: uint16): int32 {
    if kind in cfg.kindTtl then cfg.kindTtl[kind] else cfg.defaultTtl
  }

  /** What a sweep over the deque removes. */
  datatype Sweep = Expired(cfg: Config, now: uint64) | ByPubkey(pubkey: string) | ById(id: string) {
    predicate Hits(e: StoredEvent) {
      match this
      case Expired(cfg, now) =>
        var ttl := EffectiveTtl(cfg, e.kind);
        ttl > 0 && Wrap64(now - e.createdAt) > ttl
      case ByPubkey(p) => e.pubkey == p
      case ById(i) => e.id == i
    }
  }

  /** The events a sweep keeps (`hit` false) or drops (`hit` true), in order. */
  function Part(events: seq<StoredEvent>, sweep: Sweep, hit: bool): seq<StoredEvent> {
    if events == [] then []
    else
      var e := events[|events| - 1];
      Part(events[..|events| - 1], sweep, hit) + if sweep.Hits(e) == hit then [e] else []
  }

  function AfterSweep(s: Store, sweep: Sweep): Store {
    s.(events := Part(s.events, sweep, false))
  }

  function AfterBan(s: Store, p: string): Store {
    s.(cfg := s.cfg.(bannedPubkeys := s.cfg.bannedPubkeys + {p}))
  }

  function AfterAllow(s: Store, k: uint16): Store {
    s.(cfg := s.cfg.(allowedKinds := s.cfg.allowedKinds + {k}))
  }

  // ---------------------------------------------------------------- one EVENT message, undisturbed

  /** A client's EVENT message handled from end to end by the only session thread, the rate check
      at clock reading `checkedAt` and the record at `recordedAt`. */
  function AfterEvent(s: Store, e: StoredEvent, checkedAt: uint64, recordedAt: uint64): Store {
    if e.pubkey in s.cfg.bannedPubkeys || e.kind !in s.cfg.allowedKinds then s
    else
      var s1 := AfterRateCheck(s, e.pubkey, checkedAt);
      if !PassesRateCheck(s, e.pubkey, checkedAt) || !Fits(s1, e) then s1
      else AfterRecord(AfterStore(s1, e), e.pubkey, recordedAt)
  }

  // ---------------------------------------------------------------- subscriptions

  /** The filter object of a REQ message. */
  datatype Filter = Filter(kinds: Option<seq<int>>, authors: Option<seq<string>>, ids: Option<seq<string>>) {
    predicate Matches(e: StoredEvent) {
      && (kinds.Some? ==> e.kind in kinds.value)
      && (authors.Some? ==> e.pubkey in authors.value)
      && (ids.Some? ==> e.id in ids.value)
    }
  }

  function Answer(events: seq<StoredEvent>, f: Filter): seq<StoredEvent> {
    if events == [] then []
    else
      var e := events[|events| - 1];
      Answer(events[..|events| - 1], f) + if f.Matches(e) then [e] else []
  }

  /** The relay object: the same sections, updating fields in place. */
  class RelayServer {
    var cfg: Config
    var events: seq<StoredEvent>
    var limiter: map<string, seq<uint64>>

    ghost function View(): Store
      reads this
    {
      Store(cfg, events, limiter)
    }

    constructor (config: Config)
      ensures View() == Store(config, [], map[])
    {
      cfg, events, limiter := config, [], map[];
    }

    method BanPubkey(p: string)
      modifies this`cfg
      ensures View() == AfterBan(old(View()), p)
    {
      cfg := cfg.(bannedPubkeys := cfg.bannedPubkeys + {p});
    }

    method AllowEventKind(k: uint16)
      modifies this`cfg
      ensures View() == AfterAllow(old(View()), k)
    {
      cfg := cfg.(allowedKinds := cfg.allowedKinds + {k});
    }

    method CheckRateLimit(p: string, now: uint64) returns (ok: bool)
      modifies this`limiter
      ensures View() == AfterRateCheck(old(View()), p, now)
      ensures ok == PassesRateCheck(old(View()), p, now)
    {
      var timestamps := Times(limiter, p);
      ghost var original := timestamps;
      var cutoff := Wrap64(now - cfg.rateWindow);
      while timestamps != [] && timestamps[0] < cutoff
        invariant PopOlder(timestamps, cutoff) == PopOlder(original, cutoff)
        decreases |timestamps|
      {
        timestamps := timestamps[1..];
      }
      limiter := limiter[p := timestamps];
      return !(CastInt32(|timestamps|) >= cfg.rateLimitEvents);
    }

    method RecordEvent(p: string, now: uint64)
      modifies this`limiter
      ensures View() == AfterRecord(old(View()), p, now)
    {
      limiter := limiter[p := Times(limiter, p) + [now]];
    }

    method CanStoreEvent(e: StoredEvent) returns (ok: bool)
      ensures ok == Fits(View(), e)
    {
      if e.sizeBytes > cfg.maxEventSize { return false; }
      if |events| >= cfg.maxTotal { return false; }

      var kindCount := 0;
      for i := 0 to |events|
        invariant kindCount == Count(events[..i], OfKind(e.kind))
      {
        assert events[..i + 1][..i] == events[..i];
        if events[i].kind == e.kind { kindCount := kindCount + 1; }
      }
      assert events[..|events|] == events;
      if kindCount >= cfg.maxPerKind { return false; }

      var pubkeyCount := 0;
      for i := 0 to |events|
        invariant pubkeyCount == Count(events[..i], OfPubkey(e.pubkey))
      {
        assert events[..i + 1][..i] == events[..i];
        if events[i].pubkey == e.pubkey { pubkeyCount := pubkeyCount + 1; }
      }
      if pubkeyCount >= cfg.maxPerPubkey { return false; }

      return true;
    }

    method StoreEvent(e: StoredEvent)
      modifies this`events
      ensures View() == AfterStore(old(View()), e)
    {
      ghost var k := 0;
      while |events| >= cfg.maxTotal && events != []
        invariant 0 <= k <= |old(events)|
        invariant events == old(events)[k..]
        invariant k <= Overflow(|old(events)|, cfg.maxTotal)
        decreases |events|
      {
        events := events[1..];
        k := k + 1;
      }
      events := events + [e];
    }

    method SweepEvents(sweep: Sweep)
      modifies this`events
      ensures View() == AfterSweep(old(View()), sweep)
    {
      var kept: seq<StoredEvent> := [];
      for i := 0 to |events|
        invariant kept == Part(events[..i], sweep, false)
      {
        assert events[..i + 1][..i] == events[..i];
        if !sweep.Hits(events[i]) { kept := kept + [events[i]]; }
      }
      assert events[..|events|] == events;
      events := kept;
    }

    method PruneOldEvents(now: uint64)
      modifies this`events
      ensures View() == AfterSweep(old(View()), Expired(old(cfg), now))
    {
      SweepEvents(Expired(cfg, now));
    }

    method DeleteEventsByPubkey(p: string)
      modifies this`events
      ensures View() == AfterSweep(old(View()), ByPubkey(p))
    {
      SweepEvents(ByPubkey(p));
    }

    method DeleteEventById(id: string)
      modifies this`events
      ensures View() == AfterSweep(old(View()), ById(id))
    {
      SweepEvents(ById(id));
    }

    /** The EVENT branch of `handle_client_message`. Of the events that the client is told are stored,
        those are that fit; the deque keeps the others out, and loses nothing. */
    method HandleEvent(e: StoredEvent, checkedAt: uint64, recordedAt: uint64) returns (answered: bool)
      modifies this
      ensures View() == AfterEvent(old(View()), e, checkedAt, recordedAt)
      ensures answered <==>
              && e.pubkey !in old(cfg).bannedPubkeys
              && e.kind in old(cfg).allowedKinds
              && PassesRateCheck(old(View()), e.pubkey, checkedAt)
      ensures events == old(events) + if answered && Fits(old(View()), e) then [e] else []
    {
      if e.pubkey in cfg.bannedPubkeys { return false; }
      if e.kind !in cfg.allowedKinds { return false; }
      var ok := CheckRateLimit(e.pubkey, checkedAt);
      if !ok { return false; }
      var fits := CanStoreEvent(e);
      if fits {
        StoreEvent(e);
        RecordEvent(e.pubkey, recordedAt);
      }
      return true;
    }

    /** The REQ branch: the stored events sent back, in order. */
    method HandleReq(filter: Filter) returns (sent: seq<StoredEvent>)
      ensures sent == Answer(events, filter)
    {
      sent := [];
      for i := 0 to |events|
        invariant sent == Answer(events[..i], filter)
      {
        assert events[..i + 1][..i] == events[..i];
        var e := events[i];
        var isMatch := true;
        if filter.kinds.Some? {
          var found := Search(filter.kinds.value, e.kind);
          if !found { isMatch := false; }
        }
        if filter.authors.Some? && isMatch {
          var found := Search(filter.authors.value, e.pubkey);
          if !found { isMatch := false; }
        }
        if filter.ids.Some? && isMatch {
          var found := Search(filter.ids.value, e.id);
          if !found { isMatch := false; }
        }
        if isMatch { sent := sent + [e]; }
      }
      assert events[..|events|] == events;
    }
  }

  method Search<T(==)>(xs: seq<T>, x: T) returns (found: bool)
    ensures found <==> x in xs
  {
    for i := 0 to |xs|
      invariant x !in xs[..i]
    {
      if xs[i] == x { return true; }
    }
    return false;
  }
}
