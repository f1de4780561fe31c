/** Achievements: their definitions, their unlock state, and the file that keeps it between runs. */
module Scanner {
  import opened Basics
  import opened Text
  import opened Yaml
  import opened Checks

  /** The texts of an achievement that only its definition decides. */
  datatype Card = Card(name: string, description: string, tier: string, category: string, icon: string)
  datatype Achievement = Achievement(id: string, card: Card, unlocked: bool, unlockedAt: uint64)

  // ---------------------------------------------------------------- loading

  /** The stamp of the last saved entry of `id` that is unlocked. */
  function LastUnlocked(saved: seq<Achievement>, id: string): (r: Option<uint64>)
    ensures r.None? <==> forall a :: a in saved ==> !(a.id == id && a.unlocked)
  {
    if saved == [] then None
    else
      var a, rest := saved[|saved| - 1], saved[..|saved| - 1];
      assert saved == rest + [a];
      if a.id == id && a.unlocked then Some(a.unlockedAt) else LastUnlocked(rest, id)
  }

  function CardOf(y: YamlMap): Card
    requires "id" in y
  {
    Card(Get(y, "name", y["id"]), Get(y, "description", ""), Get(y, "tier", "bronze"),
         Get(y, "category", ""), Get(y, "icon", ""))
  }

  function Define(y: YamlMap, saved: seq<Achievement>): (a: Achievement)
    requires "id" in y
    ensures a.id == y["id"]
    ensures LastUnlocked(saved, a.id) == if a.unlocked then Some(a.unlockedAt) else None
  {
    var id := y["id"];
    var stamp := LastUnlocked(saved, id);
    Achievement(id, CardOf(y), stamp.Some?, if stamp.Some? then stamp.value else 0)
  }

  /** The achievement that a definition file gives, merged with the saved state. A file without an id is
      passed over. */
  function DefinedBy(text: string, saved: seq<Achievement>): (r: seq<Achievement>)
    ensures |r| <= 1
    ensures forall a :: a in r ==> LastUnlocked(saved, a.id) == if a.unlocked then Some(a.unlockedAt) else None
  {
    var y := ParseText(text);
    if "id" in y then [Define(y, saved)] else []
  }

  function Loaded(files: seq<string>, saved: seq<Achievement>): (r: seq<Achievement>)
    ensures forall a :: a in r ==> LastUnlocked(saved, a.id) == if a.unlocked then Some(a.unlockedAt) else None
  {
    if files == [] then []
    else Loaded(files[..|files| - 1], saved) + DefinedBy(files[|files| - 1], saved)
  }

  function WithCriteria(criteria: map<string, Criteria>, text: string): map<string, Criteria> {
    var y := ParseText(text);
    if "id" in y then criteria[y["id"] := CriteriaFrom(y)] else criteria
  }

  /** The criteria by id; of two files with the same id the later one counts. */
  function CriteriaOf(files: seq<string>): map<string, Criteria> {
    if files == [] then map[] else WithCriteria(CriteriaOf(files[..|files| - 1]), files[|files| - 1])
  }

  // ---------------------------------------------------------------- scanning

  /** What a scan finds at the `i`-th achievement: whether its check passes, and the clock. A check whose
      settings rule it out does not pass. */
  datatype Oracle = Oracle(passes: nat -> bool, clock: nat -> uint64)

  predicate Satisfied(c: Criteria, passes: bool) {
    Satisfiable(c) && (c.kind == Always || passes)
  }

  function Probed(a: Achievement, criteria: map<string, Criteria>, passes: bool, now: uint64): (r: Achievement)
    ensures r.id == a.id && (a.unlocked ==> r == a)
  {
    if !a.unlocked && a.id in criteria && Satisfied(criteria[a.id], passes)
    then a.(unlocked := true, unlockedAt := now)
    else a
  }

  /** The first `n` achievements after a scan. */
  function Scanned(
      achievements: seq<Achievement>, criteria: map<string, Criteria>, o: Oracle, n: nat): (r: seq<Achievement>)
    requires n <= |achievements|
    ensures |r| == n
    ensures forall i :: 0 <= i < n ==>
              r[i].id == achievements[i].id && (achievements[i].unlocked ==> r[i] == achievements[i])
  {
    if n == 0 then []
    else
      Scanned(achievements, criteria, o, n - 1)
      + [Probed(achievements[n - 1], criteria, o.passes(n - 1), o.clock(n - 1))]
  }

  /** The callback for one achievement. */
  function Call(before: Achievement, after: Achievement): seq<Achievement> {
    if after.unlocked && !before.unlocked then [after] else []
  }

  /** The callbacks of a scan of the first `n` achievements. */
  function Fired(achievements: seq<Achievement>, criteria: map<string, Criteria>, o: Oracle, n: nat): seq<Achievement>
    requires n <= |achievements|
  {
    if n == 0 then []
    else
      var before := achievements[n - 1];
      var after := Probed(before, criteria, o.passes(n - 1), o.clock(n - 1));
      Fired(achievements, criteria, o, n - 1) + Call(before, after)
  }

  // ---------------------------------------------------------------- the state machine

  /** `store` is the saved file, when persistence is configured; `notified` is the log of callbacks. */
  datatype State = State(
    achievements: seq<Achievement>, criteria: map<string, Criteria>,
    store: Option<seq<Achievement>>, notified: seq<Achievement>)

  datatype Step = Reload(files: seq<string>) | Scan(oracle: Oracle)

  function Saved(s: State): seq<Achievement> {
    if s.store.None? then [] else s.store.value
  }

  function Apply(s: State, step: Step): State {
    match step
    case Reload(files) => s.(achievements := Loaded(files, Saved(s)), criteria := CriteriaOf(files))
    case Scan(o) =>
      var next := Scanned(s.achievements, s.criteria, o, |s.achievements|);
      State(next, s.criteria, if s.store.None? then None else Some(next),
            s.notified + Fired(s.achievements, s.criteria, o, |s.achievements|))
  }

  function Run(s: State, steps: seq<Step>): State
    decreases |steps|
  {
    if steps == [] then s else Run(Apply(s, steps[0]), steps[1..])
  }

  class PassiveScanner {
    var achievements: seq<Achievement>
    var criteria: map<string, Criteria>
    var store: Option<seq<Achievement>>
    var notified: seq<Achievement>

    function View(): State
      reads this
    {
      State(achievements, criteria, store, notified)
    }

    constructor (store: Option<seq<Achievement>>)
      ensures View() == State([], map[], store, [])
    {
      achievements, criteria, this.store, notified := [], map[], store, [];
    }

    method Merge(a: Achievement, saved: seq<Achievement>) returns (r: Achievement)
      requires !a.unlocked && a.unlockedAt == 0
      ensures var stamp := LastUnlocked(saved, a.id);
              r == a.(unlocked := stamp.Some?, unlockedAt := if stamp.Some? then stamp.value else 0)
    {
      r := a;
      for i := 0 to |saved|
        invariant var stamp := LastUnlocked(saved[..i], a.id);
                  r == a.(unlocked := stamp.Some?, unlockedAt := if stamp.Some? then stamp.value else 0)
      {
        assert saved[..i + 1][..i] == saved[..i];
        if saved[i].id == a.id && saved[i].unlocked {
          r := r.(unlocked := true, unlockedAt := saved[i].unlockedAt);
        }
      }
      assert saved[..|saved|] == saved;
    }

    /** One turn of the loop of `load_definitions`. */
    method LoadOne(text: string, saved: seq<Achievement>)
      modifies this`achievements, this`criteria
      ensures achievements == old(achievements) + DefinedBy(text, saved)
      ensures criteria == WithCriteria(old(criteria), text)
    {
      var y := ParseAchievementYaml(text);
      if "id" in y {
        var id := y["id"];
        var a := Merge(Achievement(id, CardOf(y), false, 0), saved);
        criteria := criteria[id := CriteriaFrom(y)];
        achievements := achievements + [a];
      }
    }

    method LoadDefinitions(files: seq<string>)
      modifies this`achievements, this`criteria
      ensures View() == Apply(old(View()), Reload(files))
    {
      achievements, criteria := [], map[];
      var saved := if store.None? then [] else store.value;
      for i := 0 to |files|
        invariant achievements == Loaded(files[..i], saved) && criteria == CriteriaOf(files[..i])
      {
        assert files[..i + 1][..i] == files[..i];
        LoadOne(files[i], saved);
      }
      assert files[..|files|] == files;
    }

    method ProbeOne(ach: Achievement, seen: Sight, now: uint64) returns (a: Achievement, unlocks: bool)
      ensures a == Probed(ach, criteria, Found(criteria, ach.id, seen), now)
      ensures unlocks == (a.unlocked && !ach.unlocked)
      ensures !unlocks ==> a == ach
    {
      a, unlocks := ach, false;
      if a.unlocked || a.id !in criteria { return; }
      var c := criteria[a.id];
      LookedIff(c);
      match c.kind {
        case Always => unlocks := true;
        case Probe(check) => unlocks := Perform(check, c.settings, seen);
        case Never =>
      }
      if unlocks { a := a.(unlocked := true, unlockedAt := now); }
    }

    /** One turn of the loop of `scan_now`. */
    method ProbeAt(i: nat, seen: Sight, now: uint64)
      requires i < |achievements|
      modifies this`achievements, this`notified
      ensures var before := old(achievements)[i];
              var a := Probed(before, criteria, Found(criteria, before.id, seen), now);
              achievements == old(achievements)[i := a] && notified == old(notified) + Call(before, a)
    {
      var a, unlocks := ProbeOne(achievements[i], seen, now);
      if unlocks {
        achievements := achievements[i := a];
        notified := notified + [a];
      }
    }

    /** The same turn, as a step from `i` to `i + 1` achievements looked at. */
    method ProbeNext(ghost s: State, ghost o: Oracle, i: nat, seen: Sight, now: uint64)
      requires i < |s.achievements| && Midway(s, o, i, View())
      requires o.passes(i) == Found(s.criteria, s.achievements[i].id, seen) && o.clock(i) == now
      modifies this`achievements, this`notified
      ensures Midway(s, o, i + 1, View())
    {
      ghost var earlier := View();
      assert earlier.achievements[i] == s.achievements[i];
      ProbeAt(i, seen, now);
      MidwayStep(s, o, i, earlier, View());
    }

    /** The loop of `scan_now`. */
    method ProbeAll(ghost s: State, ghost o: Oracle, seen: nat -> Sight, clock: nat -> uint64)
      requires OutcomeIs(o, s.achievements, s.criteria, seen, clock) && Midway(s, o, 0, View())
      modifies this`achievements, this`notified
      ensures Midway(s, o, |s.achievements|, View())
    {
      for i := 0 to |achievements|
        invariant |achievements| == |s.achievements|
        invariant Midway(s, o, i, View())
      {
        ProbeNext(s, o, i, seen(i), clock(i));
      }
    }

    method ScanAs(ghost o: Oracle, seen: nat -> Sight, clock: nat -> uint64)
      requires OutcomeIs(o, achievements, criteria, seen, clock)
      modifies this`achievements, this`store, this`notified
      ensures View() == Apply(old(View()), Scan(o))
    {
      ghost var s := View();
      MidwayStart(s, o);
      ProbeAll(s, o, seen, clock);
      ScanEnds(s, o, View());
      if store.Some? { store := Some(achievements); }
    }

    method ScanNow(seen: nat -> Sight, clock: nat -> uint64) returns (result: seq<Achievement>)
      modifies this`achievements, this`store, this`notified
      ensures View() == Apply(old(View()), Scan(Outcome(old(View()), seen, clock))) && result == achievements
    {
      ScanAs(Outcome(View(), seen, clock), seen, clock);
      result := achievements;
    }
  }

  /** What the check of `id` finds. */
  predicate Found(criteria: map<string, Criteria>, id: string, seen: Sight) {
    id in criteria && Looked(criteria[id], seen)
  }

  /** What a scan finds when its `i`-th check sees the system as `seen(i)`. */
  function Outcome(s: State, seen: nat -> Sight, clock: nat -> uint64): (o: Oracle)
    ensures OutcomeIs(o, s.achievements, s.criteria, seen, clock)
  {
    Oracle((i: nat) => i < |s.achievements| && Found(s.criteria, s.achievements[i].id, seen(i)), clock)
  }

  ghost predicate OutcomeIs(o: Oracle, achievements: seq<Achievement>, criteria: map<string, Criteria>,
                            seen: nat -> Sight, clock: nat -> uint64) {
    forall i :: 0 <= i < |achievements| ==>
      o.passes(i) == Found(criteria, achievements[i].id, seen(i)) && o.clock(i) == clock(i)
  }

  /** A scan of `s` that has looked at the first `i` achievements. */
  ghost predicate Midway(s: State, o: Oracle, i: nat, now: State) {
    && i <= |s.achievements| == |now.achievements|
    && now.achievements == Scanned(s.achievements, s.criteria, o, i) + s.achievements[i..]
    && now.notified == s.notified + Fired(s.achievements, s.criteria, o, i)
    && now.criteria == s.criteria && now.store == s.store
  }

  lemma {:induction false} MidwayStart(s: State, o: Oracle)
    ensures Midway(s, o, 0, s)
  {
    assert [] + s.achievements[0..] == s.achievements && s.notified + [] == s.notified;
  }

  lemma {:induction false} MidwayStep(s: State, o: Oracle, i: nat, now: State, next: State)
    requires i < |s.achievements| && Midway(s, o, i, now)
    requires var a := Probed(now.achievements[i], s.criteria, o.passes(i), o.clock(i));
             next == now.(achievements := now.achievements[i := a],
                          notified := now.notified + Call(now.achievements[i], a))
    ensures Midway(s, o, i + 1, next)
  {
    var a := Probed(now.achievements[i], s.criteria, o.passes(i), o.clock(i));
    Replace(Scanned(s.achievements, s.criteria, o, i), s.achievements, i, a);
    Associates(s.notified, Fired(s.achievements, s.criteria, o, i), Call(now.achievements[i], a));
  }

  /** At the end of the loop the state is that after the scan, but for the file. */
  lemma {:induction false} ScanEnds(s: State, o: Oracle, end: State)
    requires Midway(s, o, |s.achievements|, end)
    ensures Apply(s, Scan(o)) == end.(store := if end.store.None? then None else Some(end.achievements))
  {
    var n := |s.achievements|;
    assert s.achievements[n..] == [];
    assert Scanned(s.achievements, s.criteria, o, n) + [] == Scanned(s.achievements, s.criteria, o, n);
  }

  lemma Replace<T>(done: seq<T>, before: seq<T>, i: nat, a: T)
    requires |done| == i < |before|
    ensures (done + before[i..])[i] == before[i]
    ensures (done + before[i..])[i := a] == done + [a] + before[i + 1..]
  {
  }

  // ---------------------------------------------------------------- what a step leaves alone

  /** A reload touches neither the file nor the log, a scan not the criteria, and without a file there is none
      afterwards. */
  lemma StepsTouch(s: State, files: seq<string>, o: Oracle)
    ensures Apply(s, Reload(files)).store == s.store && Apply(s, Reload(files)).notified == s.notified
    ensures Apply(s, Scan(o)).criteria == s.criteria && s.notified <= Apply(s, Scan(o)).notified
    ensures Apply(s, Scan(o)).store
            == if s.store == None then None else Some(Apply(s, Scan(o)).achievements)
  {
  }

  // ---------------------------------------------------------------- progress

  ghost predicate Defined(s: State, id: string) {
    exists i :: 0 <= i < |s.achievements| && s.achievements[i].id == id
  }

  /** The saved file and the achievements in memory agree that `id` was unlocked at `t`. */
  ghost predicate Keeps(s: State, id: string, t: uint64) {
    && s.store.Some? && LastUnlocked(s.store.value, id) == Some(t)
    && forall a :: a in s.achievements && a.id == id ==> a.unlocked && a.unlockedAt == t
  }

  /** The stamps of the callbacks for `id`. */
  function Stamps(notified: seq<Achievement>, id: string): seq<uint64> {
    if notified == [] then []
    else
      var a := notified[|notified| - 1];
      Stamps(notified[..|notified| - 1], id) + if a.id == id then [a.unlockedAt] else []
  }

  lemma {:induction false} StampsConcat(a: seq<Achievement>, b: seq<Achievement>, id: string)
    ensures Stamps(a + b, id) == Stamps(a, id) + Stamps(b, id)
  {
    if b == [] {
      assert a + b == a;
    } else {
      assert (a + b)[..|a + b| - 1] == a + b[..|b| - 1];
      StampsConcat(a, b[..|b| - 1], id);
    }
  }

  lemma StampsOfOne(notified: seq<Achievement>, a: Achievement, id: string)
    ensures Stamps(notified + [a], id) == Stamps(notified, id) + if a.id == id then [a.unlockedAt] else []
    ensures notified + [] == notified
  {
    assert (notified + [a])[..|notified|] == notified;
  }

  /** The stamp of the callback for one achievement, when there is one. */
  function StampOf(before: Achievement, after: Achievement): seq<uint64> {
    if after.unlocked && !before.unlocked then [after.unlockedAt] else []
  }

  lemma StampsOfCall(notified: seq<Achievement>, before: Achievement, after: Achievement, id: string)
    ensures Stamps(notified + Call(before, after), id)
            == if after.id == id then Stamps(notified, id) + StampOf(before, after) else Stamps(notified, id)
  {
    StampsOfOne(notified, after, id);
  }

  lemma {:induction false} LastUnlockedIs(saved: seq<Achievement>, id: string, t: uint64)
    requires forall a :: a in saved && a.id == id ==> a.unlocked && a.unlockedAt == t
    ensures LastUnlocked(saved, id) == if exists i :: 0 <= i < |saved| && saved[i].id == id then Some(t) else None
  {
    if saved != [] {
      var a, rest := saved[|saved| - 1], saved[..|saved| - 1];
      assert saved == rest + [a] && a in saved;
      LastUnlockedIs(rest, id, t);
      if a.id != id && exists i :: 0 <= i < |saved| && saved[i].id == id {
        var i :| 0 <= i < |saved| && saved[i].id == id;
        assert rest[i].id == id;
      }
    }
  }

  lemma {:induction false} ScanKeepsStamps(s: State, o: Oracle, id: string, t: uint64)
    requires forall a :: a in s.achievements && a.id == id ==> a.unlocked && a.unlockedAt == t
    ensures forall a :: a in Apply(s, Scan(o)).achievements && a.id == id ==> a.unlocked && a.unlockedAt == t
    ensures Defined(Apply(s, Scan(o)), id) <==> Defined(s, id)
  {
    var next := Apply(s, Scan(o)).achievements;
    assert forall i :: 0 <= i < |next| ==> next[i].id == s.achievements[i].id;
    forall i | 0 <= i < |next| && next[i].id == id ensures next[i].unlocked && next[i].unlockedAt == t {
      assert s.achievements[i] in s.achievements;
    }
  }

  lemma {:induction false} ScanStaysSilent(s: State, o: Oracle, id: string)
    requires forall a :: a in s.achievements && a.id == id ==> a.unlocked
    ensures Stamps(Apply(s, Scan(o)).notified, id) == Stamps(s.notified, id)
  {
    forall i | 0 <= i < |s.achievements| && s.achievements[i].id == id ensures s.achievements[i].unlocked {
      assert s.achievements[i] in s.achievements;
    }
    LockedNone(s.achievements, id);
    NothingFired(s, o, id);
  }

  /** A scan keeps the saved progress of `id` exactly when `id` is defined at that moment: the whole file
      is rewritten with what is in memory. Either way it fires no callback for it. */
  lemma {:induction false} ScanKeepsIffDefined(s: State, o: Oracle, id: string, t: uint64)
    requires Keeps(s, id, t)
    ensures var next := Apply(s, Scan(o));
            && (Keeps(next, id, t) <==> Defined(s, id))
            && Stamps(next.notified, id) == Stamps(s.notified, id)
  {
    ScanStaysSilent(s, o, id);
    ScanKeepsStamps(s, o, id, t);
    LastUnlockedIs(Apply(s, Scan(o)).achievements, id, t);
  }

  /** Every scan of the run happens while `id` is defined; reloads may drop it in between. */
  ghost predicate DefinedAtScans(s: State, steps: seq<Step>, id: string)
    decreases |steps|
  {
    steps == [] || ((steps[0].Scan? ==> Defined(s, id)) && DefinedAtScans(Apply(s, steps[0]), steps[1..], id))
  }

  /** Progress is never lost or restamped, and its callback never fires again. */
  lemma {:induction false} ProgressOverRuns(s: State, steps: seq<Step>, id: string, t: uint64)
    requires Keeps(s, id, t) && DefinedAtScans(s, steps, id)
    ensures Keeps(Run(s, steps), id, t) && Stamps(Run(s, steps).notified, id) == Stamps(s.notified, id)
    decreases |steps|
  {
    if steps != [] {
      if steps[0].Scan? { ScanKeepsIffDefined(s, steps[0].oracle, id, t); }
      ProgressOverRuns(Apply(s, steps[0]), steps[1..], id, t);
    }
  }

  // ---------------------------------------------------------------- the callbacks of one scan

  ghost predicate AtMostOnce(achievements: seq<Achievement>, id: string) {
    forall i, j :: 0 <= i < j < |achievements| ==> !(achievements[i].id == id && achievements[j].id == id)
  }

  ghost predicate AgreesWith(a: Achievement, saved: seq<Achievement>) {
    LastUnlocked(saved, a.id) == if a.unlocked then Some(a.unlockedAt) else None
  }

  lemma {:induction false} LastOfOnly(saved: seq<Achievement>, id: string, i: nat)
    requires i < |saved| && saved[i].id == id && AtMostOnce(saved, id)
    ensures AgreesWith(saved[i], saved)
  {
    var n := |saved| - 1;
    if i < n {
      assert saved[..n][i] == saved[i];
      LastOfOnly(saved[..n], id, i);
    } else {
      assert forall a :: a in saved[..n] ==> a.id != id;
    }
  }

  function CallStamp(s: State, o: Oracle, i: nat): seq<uint64>
    requires i < |s.achievements|
  {
    StampOf(s.achievements[i], Probed(s.achievements[i], s.criteria, o.passes(i), o.clock(i)))
  }

  /** The stamps of the callbacks for `id` among the first `n` achievements. */
  function FiredStamps(s: State, o: Oracle, id: string, n: nat): seq<uint64>
    requires n <= |s.achievements|
  {
    if n == 0 then []
    else if s.achievements[n - 1].id == id then FiredStamps(s, o, id, n - 1) + CallStamp(s, o, n - 1)
    else FiredStamps(s, o, id, n - 1)
  }

  lemma {:induction false} StampsOfFired(s: State, o: Oracle, id: string, n: nat)
    requires n <= |s.achievements|
    ensures Stamps(Fired(s.achievements, s.criteria, o, n), id) == FiredStamps(s, o, id, n)
  {
    if n > 0 {
      var fired, before := Fired(s.achievements, s.criteria, o, n - 1), s.achievements[n - 1];
      var after := Probed(before, s.criteria, o.passes(n - 1), o.clock(n - 1));
      StampsOfFired(s, o, id, n - 1);
      assert Fired(s.achievements, s.criteria, o, n) == fired + Call(before, after);
      StampsOfCall(fired, before, after, id);
    }
  }

  /** A scan adds those stamps to the log. */
  lemma {:induction false} StampsAfterScan(s: State, o: Oracle, id: string)
    ensures Stamps(Apply(s, Scan(o)).notified, id)
            == Stamps(s.notified, id) + FiredStamps(s, o, id, |s.achievements|)
  {
    StampsOfFired(s, o, id, |s.achievements|);
    StampsConcat(s.notified, Fired(s.achievements, s.criteria, o, |s.achievements|), id);
  }

  /** How many entries of `id` are locked. */
  function Locked(achievements: seq<Achievement>, id: string): nat {
    if achievements == [] then 0
    else
      var a := achievements[|achievements| - 1];
      Locked(achievements[..|achievements| - 1], id) + if a.id == id && !a.unlocked then 1 else 0
  }

  /** The criterion of `id` can be met at a scan. */
  predicate CanBeMet(criteria: map<string, Criteria>, id: string) {
    id in criteria && Satisfiable(criteria[id])
  }

  lemma {:induction false} FiredAtMostLocked(s: State, o: Oracle, id: string, n: nat)
    requires n <= |s.achievements|
    ensures |FiredStamps(s, o, id, n)| <= if CanBeMet(s.criteria, id) then Locked(s.achievements[..n], id) else 0
  {
    if n > 0 {
      FiredAtMostLocked(s, o, id, n - 1);
      assert s.achievements[..n][..n - 1] == s.achievements[..n - 1];
    }
  }

  /** The outcome in which every check passes that can. */
  function AllPass(now: uint64): Oracle {
    Oracle(_ => true, _ => now)
  }

  lemma {:induction false} SameFindings(s: State, o1: Oracle, o2: Oracle, n: nat)
    requires n <= |s.achievements|
    requires forall i :: 0 <= i < n ==>
               Probed(s.achievements[i], s.criteria, o1.passes(i), o1.clock(i))
               == Probed(s.achievements[i], s.criteria, o2.passes(i), o2.clock(i))
    ensures Scanned(s.achievements, s.criteria, o1, n) == Scanned(s.achievements, s.criteria, o2, n)
    ensures Fired(s.achievements, s.criteria, o1, n) == Fired(s.achievements, s.criteria, o2, n)
  {
    if n > 0 {
      SameFindings(s, o1, o2, n - 1);
      assert Probed(s.achievements[n - 1], s.criteria, o1.passes(n - 1), o1.clock(n - 1))
          == Probed(s.achievements[n - 1], s.criteria, o2.passes(n - 1), o2.clock(n - 1));
    }
  }

  /** That outcome is one that some systems have: each check sees the one that is ideal for its criterion. */
  lemma {:induction false} AllPassIsSeen(s: State, now: uint64) returns (seen: nat -> Sight)
    ensures Apply(s, Scan(Outcome(s, seen, _ => now))) == Apply(s, Scan(AllPass(now)))
  {
    var cs, ids := s.criteria, seq(|s.achievements|, i requires 0 <= i < |s.achievements| => s.achievements[i].id);
    var none := SettingsOf(map[]);
    seen := (i: nat) => Ideal(if i < |ids| && ids[i] in cs then cs[ids[i]].settings else none);
    var o1, o2 := Outcome(s, seen, _ => now), AllPass(now);
    forall i | 0 <= i < |s.achievements|
      ensures Probed(s.achievements[i], s.criteria, o1.passes(i), o1.clock(i))
              == Probed(s.achievements[i], s.criteria, o2.passes(i), o2.clock(i))
    {
      var id := s.achievements[i].id;
      if id in cs { LookedIff(cs[id]); }
    }
    SameFindings(s, o1, o2, |s.achievements|);
  }

  lemma {:induction false} AllLockedFire(s: State, id: string, n: nat)
    requires n <= |s.achievements| && CanBeMet(s.criteria, id)
    ensures |FiredStamps(s, AllPass(0), id, n)| == Locked(s.achievements[..n], id)
  {
    if n > 0 {
      AllLockedFire(s, id, n - 1);
      assert s.achievements[..n][..n - 1] == s.achievements[..n - 1];
    }
  }

  /** Two locked entries of one id, under a criterion that can be met. */
  predicate CanFireTwice(s: State, id: string) {
    CanBeMet(s.criteria, id) && Locked(s.achievements, id) >= 2
  }

  /** For every state and id: no outcome of the checks makes a scan call `id` back twice, if and only if
      its criterion cannot be met or at most one of its entries is locked. */
  lemma {:induction false} FiresTwiceIff(s: State, id: string)
    ensures (forall o :: |Stamps(Apply(s, Scan(o)).notified, id)| <= |Stamps(s.notified, id)| + 1)
            <==> !CanFireTwice(s, id)
  {
    var n := |s.achievements|;
    assert s.achievements[..n] == s.achievements;
    forall o ensures !CanFireTwice(s, id) ==> |Stamps(Apply(s, Scan(o)).notified, id)| <= |Stamps(s.notified, id)| + 1 {
      StampsAfterScan(s, o, id);
      FiredAtMostLocked(s, o, id, n);
    }
    if CanFireTwice(s, id) {
      StampsAfterScan(s, AllPass(0), id);
      AllLockedFire(s, id, n);
    }
  }

  /** Some outcome makes a scan call `id` back, if and only if its criterion can be met and an entry of it
      is locked. */
  lemma {:induction false} CallsIff(s: State, id: string)
    ensures (exists o :: Stamps(Apply(s, Scan(o)).notified, id) != Stamps(s.notified, id))
            <==> CanBeMet(s.criteria, id) && Locked(s.achievements, id) > 0
  {
    var n := |s.achievements|;
    if CanBeMet(s.criteria, id) && Locked(s.achievements, id) > 0 {
      AllLockedFire(s, id, n);
      assert s.achievements[..n] == s.achievements;
      StampsAfterScan(s, AllPass(0), id);
      assert Stamps(Apply(s, Scan(AllPass(0))).notified, id) != Stamps(s.notified, id);
    } else {
      forall o ensures Stamps(Apply(s, Scan(o)).notified, id) == Stamps(s.notified, id) {
        NothingFired(s, o, id);
      }
    }
  }

  /** When only the `i`-th achievement has the id, its callback is the only one for the id. */
  lemma {:induction false} FiredForOnly(s: State, o: Oracle, id: string, i: nat, n: nat)
    requires i < |s.achievements| && n <= |s.achievements|
    requires forall k :: 0 <= k < |s.achievements| ==> (s.achievements[k].id == id <==> k == i)
    ensures FiredStamps(s, o, id, n) == if i < n then CallStamp(s, o, i) else []
  {
    if n > 0 { FiredForOnly(s, o, id, i, n - 1); }
  }

  lemma {:induction false} ScannedAt(
      achievements: seq<Achievement>, criteria: map<string, Criteria>, o: Oracle, n: nat, i: nat)
    requires i < n <= |achievements|
    ensures Scanned(achievements, criteria, o, n)[i] == Probed(achievements[i], criteria, o.passes(i), o.clock(i))
  {
    if i < n - 1 { ScannedAt(achievements, criteria, o, n - 1, i); }
  }

  // ---------------------------------------------------------------- one callback over a run

  /** At most one callback was fired for `id`, with the stamp that the file has, and memory agrees with
      the file. */
  ghost predicate Consistent(s: State, id: string) {
    && s.store.Some?
    && (forall i :: 0 <= i < |s.achievements| && s.achievements[i].id == id
                    ==> AgreesWith(s.achievements[i], s.store.value))
    && LogAgrees(s.notified, s.store.value, id)
  }

  ghost predicate LogAgrees(notified: seq<Achievement>, saved: seq<Achievement>, id: string) {
    var stamps := Stamps(notified, id);
    stamps == [] || (|stamps| == 1 && LastUnlocked(saved, id) == Some(stamps[0]))
  }

  /** A scan must not be able to call `id` back twice, and after a callback it must find `id` defined. */
  ghost predicate ScanAllowed(s: State, id: string) {
    !CanFireTwice(s, id) && (Defined(s, id) || Stamps(s.notified, id) == [])
  }

  /** Any reload will do. */
  ghost predicate Allowed(s: State, step: Step, id: string) {
    step.Scan? ==> ScanAllowed(s, id)
  }

  ghost predicate AllAllowed(s: State, steps: seq<Step>, id: string)
    decreases |steps|
  {
    steps == [] || (Allowed(s, steps[0], id) && AllAllowed(Apply(s, steps[0]), steps[1..], id))
  }

  lemma {:induction false} NothingFired(s: State, o: Oracle, id: string)
    requires !CanBeMet(s.criteria, id) || Locked(s.achievements, id) == 0
    ensures Stamps(Apply(s, Scan(o)).notified, id) == Stamps(s.notified, id)
  {
    StampsAfterScan(s, o, id);
    FiredAtMostLocked(s, o, id, |s.achievements|);
    assert s.achievements[..|s.achievements|] == s.achievements;
  }

  lemma {:induction false} LockedNone(achievements: seq<Achievement>, id: string)
    ensures Locked(achievements, id) == 0
            <==> forall i :: 0 <= i < |achievements| && achievements[i].id == id ==> achievements[i].unlocked
  {
    if achievements != [] {
      var n := |achievements| - 1;
      LockedNone(achievements[..n], id);
      assert forall i :: 0 <= i < n ==> achievements[..n][i] == achievements[i];
    }
  }

  /** One locked entry at most, and none unlocked: one entry at most. */
  lemma {:induction false} LockedOnce(achievements: seq<Achievement>, id: string)
    requires Locked(achievements, id) <= 1
    requires forall i :: 0 <= i < |achievements| && achievements[i].id == id ==> !achievements[i].unlocked
    ensures AtMostOnce(achievements, id)
  {
    if achievements != [] {
      var n := |achievements| - 1;
      LockedOnce(achievements[..n], id);
      LockedNone(achievements[..n], id);
      forall i, j | 0 <= i < j < |achievements|
        ensures !(achievements[i].id == id && achievements[j].id == id)
      {
        assert achievements[..n][i] == achievements[i];
        if j < n { assert achievements[..n][j] == achievements[j]; }
      }
    }
  }

  lemma {:induction false} UndefinedStaysConsistent(s: State, o: Oracle, id: string)
    requires Consistent(s, id) && !Defined(s, id)
    ensures var next := Apply(s, Scan(o));
            && !Defined(next, id) && Stamps(next.notified, id) == Stamps(s.notified, id)
            && LastUnlocked(next.store.value, id) == None
            && (Consistent(next, id) <==> Stamps(s.notified, id) == [])
  {
    var next := Apply(s, Scan(o));
    ForgottenByScan(s, o, id);
    forall i | 0 <= i < |next.achievements| ensures next.achievements[i].id != id {
      assert next.achievements[i].id == s.achievements[i].id;
    }
  }

  lemma {:induction false} UnlockedStaysConsistent(s: State, o: Oracle, id: string, t: uint64)
    requires Consistent(s, id) && Defined(s, id) && LastUnlocked(s.store.value, id) == Some(t)
    ensures Consistent(Apply(s, Scan(o)), id)
  {
    MemoryAgrees(s, id);
    ScanKeepsIffDefined(s, o, id, t);
    var next := Apply(s, Scan(o));
    forall i | 0 <= i < |next.achievements| && next.achievements[i].id == id
      ensures AgreesWith(next.achievements[i], next.store.value)
    {
      assert next.achievements[i] in next.achievements;
    }
  }

  lemma {:induction false} NeverStaysConsistent(s: State, o: Oracle, id: string)
    requires Consistent(s, id) && !CanBeMet(s.criteria, id) && LastUnlocked(s.store.value, id) == None
    ensures Consistent(Apply(s, Scan(o)), id)
  {
    var next, n := Apply(s, Scan(o)), |s.achievements|;
    NothingFired(s, o, id);
    forall i | 0 <= i < n && next.achievements[i].id == id ensures !next.achievements[i].unlocked {
      ScannedAt(s.achievements, s.criteria, o, n, i);
      assert AgreesWith(s.achievements[i], s.store.value);
    }
    assert LastUnlocked(next.store.value, id) == None;
  }

  lemma {:induction false} OneLockedStaysConsistent(s: State, o: Oracle, id: string)
    requires Consistent(s, id) && Defined(s, id) && LastUnlocked(s.store.value, id) == None
    requires Locked(s.achievements, id) <= 1
    ensures Consistent(Apply(s, Scan(o)), id)
  {
    var n := |s.achievements|;
    forall i | 0 <= i < n && s.achievements[i].id == id ensures !s.achievements[i].unlocked {
      assert AgreesWith(s.achievements[i], s.store.value);
    }
    LockedOnce(s.achievements, id);
    var i :| 0 <= i < n && s.achievements[i].id == id;
    OneEntryStaysConsistent(s, o, id, i);
  }

  lemma {:induction false} OneEntryStaysConsistent(s: State, o: Oracle, id: string, i: nat)
    requires s.store.Some? && i < |s.achievements| && !s.achievements[i].unlocked && Stamps(s.notified, id) == []
    requires forall k :: 0 <= k < |s.achievements| ==> (s.achievements[k].id == id <==> k == i)
    ensures Consistent(Apply(s, Scan(o)), id)
  {
    var next, n := Apply(s, Scan(o)), |s.achievements|;
    ScannedAt(s.achievements, s.criteria, o, n, i);
    assert forall k :: 0 <= k < n ==> next.achievements[k].id == s.achievements[k].id;
    LastOfOnly(next.achievements, id, i);
    FiredForOnly(s, o, id, i, n);
    StampsAfterScan(s, o, id);
  }

  lemma OneStep(s: State, step: Step, id: string)
    ensures Run(s, [step]) == Apply(s, step) && (AllAllowed(s, [step], id) <==> Allowed(s, step, id))
  {
    assert [step][1..] == [];
    assert Run(Apply(s, step), []) == Apply(s, step);
  }

  lemma {:induction false} TooManyCalls(s: State, id: string)
    requires |Stamps(s.notified, id)| > 1
    ensures !Consistent(s, id)
  {
  }

  lemma {:induction false} TwiceBreaks(s: State, id: string) returns (o: Oracle)
    requires CanFireTwice(s, id)
    ensures !Consistent(Apply(s, Scan(o)), id)
  {
    FiresTwiceIff(s, id);
    o :| |Stamps(Apply(s, Scan(o)).notified, id)| > |Stamps(s.notified, id)| + 1;
    TooManyCalls(Apply(s, Scan(o)), id);
  }

  lemma {:induction false} OthersBreak(s: State, id: string) returns (o: Oracle)
    requires Consistent(s, id) && !ScanAllowed(s, id)
    ensures !Consistent(Apply(s, Scan(o)), id)
  {
    if CanFireTwice(s, id) {
      o := TwiceBreaks(s, id);
    } else {
      o := AllPass(0);
      UndefinedStaysConsistent(s, o, id);
    }
  }

  lemma {:induction false} OneScanStaysConsistent(s: State, o: Oracle, id: string)
    requires Consistent(s, id) && ScanAllowed(s, id)
    ensures Consistent(Apply(s, Scan(o)), id)
  {
    OneStep(s, Scan(o), id);
    ConsistentOverRuns(s, [Scan(o)], id);
  }

  /** The condition on a scan is exact: it stays consistent under every outcome of its checks if and only
      if it is allowed. */
  lemma {:induction false} ScanAllowedIff(s: State, id: string)
    requires Consistent(s, id)
    ensures (forall o :: Consistent(Apply(s, Scan(o)), id)) <==> ScanAllowed(s, id)
  {
    if ScanAllowed(s, id) {
      forall o ensures Consistent(Apply(s, Scan(o)), id) { OneScanStaysConsistent(s, o, id); }
    } else {
      var o := OthersBreak(s, id);
    }
  }

  lemma {:induction false} ReloadStaysConsistent(s: State, files: seq<string>, id: string)
    requires Consistent(s, id)
    ensures Consistent(Apply(s, Reload(files)), id)
  {
    var loaded := Loaded(files, Saved(s));
    forall i | 0 <= i < |loaded| ensures AgreesWith(loaded[i], Saved(s)) {
      assert loaded[i] in loaded;
    }
  }

  lemma {:induction false} ConsistentOverRuns(s: State, steps: seq<Step>, id: string)
    requires Consistent(s, id) && AllAllowed(s, steps, id)
    ensures Consistent(Run(s, steps), id)
    decreases |steps|
  {
    if steps != [] {
      match steps[0] {
        case Reload(files) => ReloadStaysConsistent(s, files, id);
        case Scan(o) =>
          if !Defined(s, id) {
            UndefinedStaysConsistent(s, o, id);
          } else if LastUnlocked(s.store.value, id).Some? {
            UnlockedStaysConsistent(s, o, id, LastUnlocked(s.store.value, id).value);
          } else if !CanBeMet(s.criteria, id) {
            NeverStaysConsistent(s, o, id);
          } else {
            OneLockedStaysConsistent(s, o, id);
          }
      }
      ConsistentOverRuns(Apply(s, steps[0]), steps[1..], id);
    }
  }

  function Fresh(saved: seq<Achievement>): State {
    State([], map[], Some(saved), [])
  }

  /** From a fresh scanner and any saved file, a run whose scans are all allowed fires the callback of
      `id` at most once; afterwards the file and every achievement `id` in memory have its stamp. */
  lemma {:induction false} NotifiedAtMostOnce(saved: seq<Achievement>, steps: seq<Step>, id: string)
    requires AllAllowed(Fresh(saved), steps, id)
    ensures var end := Run(Fresh(saved), steps);
            && |Stamps(end.notified, id)| <= 1
            && (|Stamps(end.notified, id)| == 1 ==> Keeps(end, id, Stamps(end.notified, id)[0]))
  {
    ConsistentOverRuns(Fresh(saved), steps, id);
    MemoryAgrees(Run(Fresh(saved), steps), id);
  }

  lemma {:induction false} MemoryAgrees(s: State, id: string)
    requires Consistent(s, id)
    ensures forall t :: LastUnlocked(s.store.value, id) == Some(t) ==> Keeps(s, id, t)
  {
    forall a | a in s.achievements && a.id == id ensures AgreesWith(a, s.store.value) {
      var i :| 0 <= i < |s.achievements| && s.achievements[i] == a;
      assert AgreesWith(s.achievements[i], s.store.value);
    }
  }

  /** Every unlock that a finished scan has in memory is kept from then on, if and only if all entries of
      its id agree on it; with one entry they do. */
  lemma {:induction false} ScanEstablishes(s: State, o: Oracle, i: nat)
    requires s.store.Some? && i < |Apply(s, Scan(o)).achievements|
    requires Apply(s, Scan(o)).achievements[i].unlocked
    ensures var next := Apply(s, Scan(o));
            var a := next.achievements[i];
            && (Keeps(next, a.id, a.unlockedAt)
                <==> forall b :: b in next.achievements && b.id == a.id ==> b.unlocked && b.unlockedAt == a.unlockedAt)
            && (AtMostOnce(s.achievements, a.id) ==> Keeps(next, a.id, a.unlockedAt))
  {
    var next := Apply(s, Scan(o));
    KeepsIffAgree(next, i);
    if AtMostOnce(s.achievements, next.achievements[i].id) { OnlyOneAfterScan(s, o, i); }
  }

  lemma {:induction false} KeepsIffAgree(next: State, i: nat)
    requires i < |next.achievements| && next.achievements[i].unlocked && next.store == Some(next.achievements)
    ensures var a := next.achievements[i];
            Keeps(next, a.id, a.unlockedAt)
            <==> forall b :: b in next.achievements && b.id == a.id ==> b.unlocked && b.unlockedAt == a.unlockedAt
  {
    var a := next.achievements[i];
    if forall b :: b in next.achievements && b.id == a.id ==> b.unlocked && b.unlockedAt == a.unlockedAt {
      LastUnlockedIs(next.achievements, a.id, a.unlockedAt);
    }
  }

  lemma {:induction false} OnlyOneAfterScan(s: State, o: Oracle, i: nat)
    requires i < |Apply(s, Scan(o)).achievements|
    requires AtMostOnce(s.achievements, Apply(s, Scan(o)).achievements[i].id)
    ensures var next := Apply(s, Scan(o)).achievements;
            forall b :: b in next && b.id == next[i].id ==> b == next[i]
  {
    var next := Apply(s, Scan(o)).achievements;
    forall b | b in next && b.id == next[i].id ensures b == next[i] {
      var j :| 0 <= j < |next| && next[j] == b;
      assert s.achievements[i].id == s.achievements[j].id == next[i].id;
    }
  }

  // ---------------------------------------------------------------- callbacks and definition files

  /** How many files define `id`. */
  function Definitions(files: seq<string>, id: string): nat {
    if files == [] then 0
    else
      var y := ParseText(files[|files| - 1]);
      Definitions(files[..|files| - 1], id) + if "id" in y && y["id"] == id then 1 else 0
  }

  lemma {:induction false} LockedAppend(a: seq<Achievement>, e: Achievement, id: string)
    ensures Locked(a + [e], id) == Locked(a, id) + if e.id == id && !e.unlocked then 1 else 0
  {
    assert (a + [e])[..|a|] == a;
  }

  /** After a reload the entries of an id are all unlocked, when the file knows it, or all locked. */
  lemma {:induction false} LockedAfterLoad(files: seq<string>, saved: seq<Achievement>, id: string)
    ensures Locked(Loaded(files, saved), id) == if LastUnlocked(saved, id).Some? then 0 else Definitions(files, id)
  {
    if files != [] {
      var init := files[..|files| - 1];
      var y := ParseText(files[|files| - 1]);
      LockedAfterLoad(init, saved, id);
      if "id" in y {
        LockedAppend(Loaded(init, saved), Define(y, saved), id);
      } else {
        assert Loaded(init, saved) + [] == Loaded(init, saved);
      }
    }
  }

  lemma {:induction false} DefinedAfterLoad(s: State, files: seq<string>, id: string)
    ensures Defined(Apply(s, Reload(files)), id) <==> Definitions(files, id) > 0
    ensures id in CriteriaOf(files) <==> Definitions(files, id) > 0
  {
    if files != [] {
      var init := files[..|files| - 1];
      var y := ParseText(files[|files| - 1]);
      var before, after := Loaded(init, Saved(s)), Loaded(files, Saved(s));
      DefinedAfterLoad(s, init, id);
      if Defined(Apply(s, Reload(init)), id) {
        var i :| 0 <= i < |before| && before[i].id == id;
        assert after[i].id == id;
      }
      if "id" in y && y["id"] == id { assert after[|before|].id == id; }
      if Defined(Apply(s, Reload(files)), id) {
        var i :| 0 <= i < |after| && after[i].id == id;
        if i < |before| { assert before[i].id == id; }
      }
    }
  }

  /** Two files define `id`, and the criterion that counts can be met. */
  predicate FilesCanFireTwice(files: seq<string>, id: string) {
    Definitions(files, id) >= 2 && CanBeMet(CriteriaOf(files), id)
  }

  lemma RunTwo(s: State, a: Step, b: Step)
    ensures Run(s, [a, b]) == Apply(Apply(s, a), b)
  {
    assert [a, b][1..] == [b] && [b][1..] == [];
    assert Run(Apply(s, a), [b]) == Apply(Apply(s, a), b);
  }

  lemma {:induction false} FilesBound(files: seq<string>, id: string, saved: seq<Achievement>, o: Oracle)
    requires !FilesCanFireTwice(files, id)
    ensures |Stamps(Run(Fresh(saved), [Reload(files), Scan(o)]).notified, id)| <= 1
  {
    var s := Apply(Fresh(saved), Reload(files));
    LockedAfterLoad(files, saved, id);
    FiresTwiceIff(s, id);
    RunTwo(Fresh(saved), Reload(files), Scan(o));
    assert |Stamps(Apply(s, Scan(o)).notified, id)| <= |Stamps(s.notified, id)| + 1;
  }

  /** For every list of definition files: whatever was saved and whatever the checks find, loading the
      files and scanning calls `id` back at most once, if and only if at most one file defines it or
      its criterion can never be met. */
  lemma {:induction false} FilesFireTwiceIff(files: seq<string>, id: string)
    ensures (forall saved, o :: |Stamps(Run(Fresh(saved), [Reload(files), Scan(o)]).notified, id)| <= 1)
            <==> !FilesCanFireTwice(files, id)
  {
    if FilesCanFireTwice(files, id) {
      var s := Apply(Fresh([]), Reload(files));
      LockedAfterLoad(files, [], id);
      FiresTwiceIff(s, id);
      var o :| |Stamps(Apply(s, Scan(o)).notified, id)| > |Stamps(s.notified, id)| + 1;
      RunTwo(Fresh([]), Reload(files), Scan(o));
    } else {
      forall saved, o ensures |Stamps(Run(Fresh(saved), [Reload(files), Scan(o)]).notified, id)| <= 1 {
        FilesBound(files, id, saved, o);
      }
    }
  }

  /** A definition file for `id` whose criterion is always met. */
  function AlwaysFile(id: string): string {
    Print([Top(Field("id", Scalar(Quoted('\"'), id))),
           Section("criteria", [Field("type", Scalar(Plain, "always"))])])
  }

  lemma {:induction false} BindingsOfTwo(f: Field, name: string, g: Field)
    ensures Bindings([Top(f), Section(name, [g])])
            == [Binding(f.key, f.scalar), Binding(name + "." + g.key, g.scalar)]
  {
    var doc := [Top(f), Section(name, [g])];
    assert doc[1..] == [doc[1]] && doc[1..][1..] == [] && [g][1..] == [];
    assert FieldBindings(name, [g]) == [Binding(name + "." + g.key, g.scalar)];
    assert Bindings([]) == [] && FieldBindings(name, [g]) + [] == FieldBindings(name, [g]);
    assert Bindings(doc[1..]) == FieldBindings(name, [g]);
  }

  lemma {:induction false} MeaningOfTwo(a: Binding, b: Binding)
    ensures Meaning(map[], [a, b]) == map[][a.name := a.scalar.value][b.name := b.scalar.value]
  {
    assert [a, b][1..] == [b] && [b][1..] == [];
    assert Meaning(map[a.name := a.scalar.value], [b]) == map[a.name := a.scalar.value][b.name := b.scalar.value];
  }

  lemma {:induction false} TwoFieldsAreRead(f: Field, name: string, g: Field)
    requires WritableField(f) && WritableField(g) && KeyLike(name) && f.key != name + "." + g.key
    requires Readable(f.scalar) && Readable(g.scalar)
    ensures ParseText(Print([Top(f), Section(name, [g])]))
            == map[][f.key := f.scalar.value][name + "." + g.key := g.scalar.value]
  {
    var doc := [Top(f), Section(name, [g])];
    BindingsOfTwo(f, name, g);
    YamlRoundTripIff(doc);
    MeaningOfTwo(Binding(f.key, f.scalar), Binding(name + "." + g.key, g.scalar));
  }

  lemma {:induction false} AlwaysFileIsRead(id: string)
    requires '\n' !in id && HashIsPlain(id)
    ensures ParseText(AlwaysFile(id)) == map["id" := id, "criteria.type" := "always"]
  {
    AlwaysIsReadable();
    NamesAreKeyLike();
    assert "criteria" + "." + "type" == "criteria.type";
    TwoFieldsAreRead(Field("id", Scalar(Quoted('\"'), id)), "criteria", Field("type", Scalar(Plain, "always")));
  }

  lemma {:induction false} AlwaysIsReadable()
    ensures Writable(Scalar(Plain, "always")) && Readable(Scalar(Plain, "always"))
  {
    NoHash("always");
  }

  lemma {:induction false} NamesAreKeyLike()
    ensures KeyLike("id") && KeyLike("type") && KeyLike("criteria")
  {
  }

  lemma {:induction false} NoHash(v: string)
    requires '#' !in v
    ensures HashIsPlain(v)
  {
    HashAt(v);
  }

  /** Two equal entries under a criterion that is always met are called back one after the other. */
  lemma {:induction false} SharedEntriesFireTwice(a: Achievement, settings: Settings, o: Oracle)
    requires !a.unlocked
    ensures var s := State([a, a], map[a.id := Criteria(Always, settings)], Some([]), []);
            var next := Apply(s, Scan(o));
            && Stamps(next.notified, a.id) == [o.clock(0), o.clock(1)]
            && LastUnlocked(next.store.value, a.id) == Some(o.clock(1))
  {
    var criteria := map[a.id := Criteria(Always, settings)];
    var s := State([a, a], criteria, Some([]), []);
    var first, second := a.(unlocked := true, unlockedAt := o.clock(0)), a.(unlocked := true, unlockedAt := o.clock(1));
    assert Scanned(s.achievements, criteria, o, 1) == [first];
    assert Scanned(s.achievements, criteria, o, 2) == [first, second];
    assert Fired(s.achievements, criteria, o, 1) == [first];
    assert Fired(s.achievements, criteria, o, 2) == [first, second];
    StampsOfOne([], first, a.id);
    StampsOfOne([first], second, a.id);
    assert [] + [first] == [first] && [first] + [second] == [first, second];
    assert s.notified + [first, second] == [first, second];
  }

  /** The input: two files with one id. Loading them and scanning calls the id back twice, and the file
      keeps the second stamp, not the first. */
  lemma {:induction false} SharedIdFiresTwice(id: string, o: Oracle)
    requires '\n' !in id && HashIsPlain(id)
    ensures var files := [AlwaysFile(id), AlwaysFile(id)];
            var end := Run(Fresh([]), [Reload(files), Scan(o)]);
            && Stamps(end.notified, id) == [o.clock(0), o.clock(1)]
            && LastUnlocked(Saved(end), id) == Some(o.clock(1))
  {
    var file := AlwaysFile(id);
    var y := ParseText(file);
    AlwaysFileIsRead(id);
    LoadedTwice(file, y);
    RunTwo(Fresh([]), Reload([file, file]), Scan(o));
    SharedEntriesFireTwice(Define(y, []), SettingsOf(y), o);
  }

  lemma {:induction false} LoadedOnce(file: string, y: YamlMap, saved: seq<Achievement>)
    requires ParseText(file) == y && "id" in y
    ensures Loaded([file], saved) == [Define(y, saved)]
    ensures CriteriaOf([file]) == map[y["id"] := CriteriaFrom(y)]
  {
    assert [file][..0] == [];
    assert Loaded([file], saved) == Loaded([file][..0], saved) + DefinedBy(file, saved);
    assert CriteriaOf([file]) == WithCriteria(CriteriaOf([file][..0]), file);
  }

  lemma {:induction false} LoadedAgain(file: string, y: YamlMap)
    requires ParseText(file) == y && "id" in y
    ensures Loaded([file, file], []) == [Define(y, []), Define(y, [])]
    ensures CriteriaOf([file, file]) == map[y["id"] := CriteriaFrom(y)]
  {
    var files := [file, file];
    LoadedOnce(file, y, []);
    assert files[..1] == [file];
    assert Loaded(files, []) == Loaded(files[..1], []) + DefinedBy(file, []);
    assert CriteriaOf(files) == WithCriteria(CriteriaOf(files[..1]), file);
  }

  lemma {:induction false} LoadedTwice(file: string, y: YamlMap)
    requires ParseText(file) == y && "id" in y && CriteriaFrom(y).kind == Always
    ensures var a := Define(y, []);
            Apply(Fresh([]), Reload([file, file]))
            == State([a, a], map[a.id := Criteria(Always, SettingsOf(y))], Some([]), [])
  {
    LoadedAgain(file, y);
  }

  // ---------------------------------------------------------------- progress that was lost

  lemma {:induction false} ForgottenByScan(s: State, o: Oracle, id: string)
    requires s.store.Some? && !Defined(s, id)
    ensures var next := Apply(s, Scan(o));
            LastUnlocked(next.store.value, id) == None && Stamps(next.notified, id) == Stamps(s.notified, id)
  {
    var next := Apply(s, Scan(o));
    LockedNone(s.achievements, id);
    NothingFired(s, o, id);
    forall i | 0 <= i < |next.achievements| ensures next.achievements[i].id != id {
      assert next.achievements[i].id == s.achievements[i].id;
    }
  }

  /** What a scan without its definition loses stays lost: when `id` is defined anew it is locked again,
      and a scan can call it back once more, if and only if its criterion can be met. */
  lemma {:induction false} LostIsCalledAgainIff(
      s: State, id: string, t: uint64, without: seq<string>, o: Oracle, anew: seq<string>)
    requires Keeps(s, id, t) && Definitions(without, id) == 0 && Definitions(anew, id) > 0
    ensures var lost := Apply(Apply(Apply(s, Reload(without)), Scan(o)), Reload(anew));
            && LastUnlocked(Saved(lost), id) == None
            && ((exists o' :: Stamps(Apply(lost, Scan(o')).notified, id) != Stamps(s.notified, id))
                <==> CanBeMet(lost.criteria, id))
  {
    var s1 := Apply(s, Reload(without));
    var s2 := Apply(s1, Scan(o));
    DefinedAfterLoad(s, without, id);
    ForgottenByScan(s1, o, id);
    LockedAfterLoad(anew, Saved(s2), id);
    CallsIff(Apply(s2, Reload(anew)), id);
  }
}
