/** From a printed definition file to the unlock: which entry a file gives, and on which systems one scan unlocks
    it, for each type of criterion. */
module DefinitionFiles {
  import opened Basics
  import opened Text
  import opened Yaml
  import opened Checks
  import opened Scanner

  // ---------------------------------------------------------------- what a document says

  /** A document that is read as it says: each name bound once, and all values readable. */
  ghost predicate ReadsWell(doc: seq<Entry>) {
    WritableDoc(doc) && Distinct(Bindings(doc)) && AllReadable(Bindings(doc))
  }

  /** The value that a document binds to a name; a field of a section has the section's name and a dot before
      its own. */
  function ValueIn(bs: seq<Binding>, name: string): Option<string> {
    if bs == [] then None
    else if bs[0].name == name then Some(bs[0].scalar.value)
    else ValueIn(bs[1..], name)
  }

  function Value(doc: seq<Entry>, name: string): Option<string> {
    ValueIn(Bindings(doc), name)
  }

  /** The value, or another text where there is none. */
  function ValueOr(doc: seq<Entry>, name: string, default: string): string {
    var v := Value(doc, name);
    if v.Some? then v.value else default
  }

  /** The document gives the number `n` this name; it may leave out zero. */
  predicate SaysNumber(doc: seq<Entry>, name: string, n: int) {
    Value(doc, name) == Some(Numeral(n)) || (Value(doc, name) == None && n == 0)
  }

  lemma {:induction false} MeaningOf(m: YamlMap, bs: seq<Binding>, name: string)
    requires Distinct(bs)
    ensures var v := ValueIn(bs, name);
            if v.Some? then name in Meaning(m, bs) && Meaning(m, bs)[name] == v.value
            else (name in Meaning(m, bs) <==> name in m) && (name in m ==> Meaning(m, bs)[name] == m[name])
    decreases |bs|
  {
    if bs != [] {
      var b := bs[0];
      MeaningOf(m[b.name := b.scalar.value], bs[1..], name);
      if b.name == name { OnlyOnce(bs, name); }
    }
  }

  lemma {:induction false} OnlyOnce(bs: seq<Binding>, name: string)
    requires Distinct(bs) && bs != [] && bs[0].name == name
    ensures ValueIn(bs[1..], name) == None
  {
    NotBound(bs[1..], name);
  }

  lemma {:induction false} NotBound(bs: seq<Binding>, name: string)
    requires forall i :: 0 <= i < |bs| ==> bs[i].name != name
    ensures ValueIn(bs, name) == None
  {
    if bs != [] { NotBound(bs[1..], name); }
  }

  /** The reader finds the value. */
  lemma {:induction false} ValueIsRead(doc: seq<Entry>, name: string, default: string)
    requires ReadsWell(doc)
    ensures var y := ParseText(Print(doc));
            (name in y <==> Value(doc, name).Some?) && Get(y, name, default) == ValueOr(doc, name, default)
  {
    YamlRoundTripIff(doc);
    MeaningOf(map[], Bindings(doc), name);
  }

  // ---------------------------------------------------------------- the entry

  /** The entry that a file gives has the texts of the file: without a name its id, without a tier the lowest. */
  lemma {:induction false} EntryAsPrinted(doc: seq<Entry>, id: string, saved: seq<Achievement>)
    requires ReadsWell(doc) && Value(doc, "id") == Some(id)
    ensures var s := Apply(Fresh(saved), Reload([Print(doc)]));
            && |s.achievements| == 1
            && s.achievements[0].id == id
            && s.achievements[0].card.name == ValueOr(doc, "name", id)
            && s.achievements[0].card.description == ValueOr(doc, "description", "")
            && s.achievements[0].card.tier == ValueOr(doc, "tier", "bronze")
            && s.achievements[0].card.category == ValueOr(doc, "category", "")
            && s.achievements[0].card.icon == ValueOr(doc, "icon", "")
            && s.achievements[0].unlocked == (LastUnlocked(saved, id) != None)
            && s.criteria.Keys == {id}
  {
    var file := Print(doc);
    var y := ParseText(file);
    ValueIsRead(doc, "id", "");
    ValueIsRead(doc, "name", id);
    ValueIsRead(doc, "description", "");
    ValueIsRead(doc, "tier", "bronze");
    ValueIsRead(doc, "category", "");
    ValueIsRead(doc, "icon", "");
    LoadedOnce(file, y, saved);
  }

  // ---------------------------------------------------------------- one scan

  /** The state after loading the file, with nothing saved, and one scan. */
  function AfterScan(doc: seq<Entry>, seen: Sight, now: uint64): State {
    var s := Apply(Fresh([]), Reload([Print(doc)]));
    Apply(s, Scan(Outcome(s, _ => seen, _ => now)))
  }

  /** The scan leaves the entry unlocked, stamped and called back, or as it was. */
  ghost predicate ScanUnlocks(doc: seq<Entry>, id: string, seen: Sight, now: uint64, met: bool) {
    var end := AfterScan(doc, seen, now);
    && |end.achievements| == 1 && end.achievements[0].id == id
    && end.achievements[0].unlocked == met && end.achievements[0].unlockedAt == (if met then now else 0)
    && end.notified == (if met then end.achievements else []) && end.store == Some(end.achievements)
  }

  lemma {:induction false} ScanOfOne(s: State, o: Oracle, a: Achievement, met: bool)
    requires s.achievements == [a] && !a.unlocked && a.unlockedAt == 0 && s.store.Some? && s.notified == []
    requires met == (a.id in s.criteria && Satisfied(s.criteria[a.id], o.passes(0)))
    ensures var end := Apply(s, Scan(o));
            var a' := if met then a.(unlocked := true, unlockedAt := o.clock(0)) else a;
            end.achievements == [a'] && end.notified == (if met then [a'] else []) && end.store == Some([a'])
  {
    var a' := Probed(a, s.criteria, o.passes(0), o.clock(0));
    assert Scanned(s.achievements, s.criteria, o, 0) + [a'] == [a'];
    assert Scanned(s.achievements, s.criteria, o, 1) == [a'];
    assert Fired(s.achievements, s.criteria, o, 1) == Call(a, a');
  }

  /** The scan unlocks the entry if its criterion always holds or its check passes. */
  lemma {:induction false} ScanOfFile(doc: seq<Entry>, id: string, seen: Sight, now: uint64, c: Criteria)
    requires ReadsWell(doc) && Value(doc, "id") == Some(id) && c == CriteriaFrom(ParseText(Print(doc)))
    ensures ScanUnlocks(doc, id, seen, now, c.kind == Always || Looked(c, seen))
  {
    var file := Print(doc);
    var y := ParseText(file);
    var s := Apply(Fresh([]), Reload([file]));
    ValueIsRead(doc, "id", "");
    LoadedOnce(file, y, []);
    LookedIff(c);
    assert s.criteria[id] == c;
    ScanOfOne(s, Outcome(s, _ => seen, _ => now), Define(y, []), c.kind == Always || Looked(c, seen));
  }

  /** Which setting of the criterion each name of the file gives. */
  lemma {:induction false} SettingsAsPrinted(doc: seq<Entry>, c: Criteria)
    requires ReadsWell(doc) && c == CriteriaFrom(ParseText(Print(doc)))
    ensures c.kind == KindOf(ValueOr(doc, "criteria.type", ""))
    ensures c.settings.distro == ValueOr(doc, "criteria.distro", "")
    ensures c.settings.binaryName == ValueOr(doc, "criteria.name", "")
    ensures c.settings.displayProtocol == ValueOr(doc, "criteria.protocol", "")
    ensures c.settings.wmClass == ValueOr(doc, "criteria.class", "")
    ensures c.settings.isCustomKernel == (ValueOr(doc, "criteria.custom", "") == "true")
    ensures c.settings.minServices == Atoi(ValueOr(doc, "criteria.min_services", ""))
    ensures c.settings.minCommits == Atoi(ValueOr(doc, "criteria.min_commits", ""))
    ensures c.settings.timeAfterHour == Atoi(ValueOr(doc, "criteria.after_hour", ""))
    ensures c.settings.timeBeforeHour == Atoi(ValueOr(doc, "criteria.before_hour", ""))
  {
    ValueIsRead(doc, "criteria.type", "");
    ValueIsRead(doc, "criteria.distro", "");
    ValueIsRead(doc, "criteria.name", "");
    ValueIsRead(doc, "criteria.protocol", "");
    ValueIsRead(doc, "criteria.class", "");
    ValueIsRead(doc, "criteria.custom", "");
    ValueIsRead(doc, "criteria.min_services", "");
    ValueIsRead(doc, "criteria.min_commits", "");
    ValueIsRead(doc, "criteria.after_hour", "");
    ValueIsRead(doc, "criteria.before_hour", "");
  }

  /** A file of one type, and what its scan comes to. */
  lemma {:induction false} FileOfType(doc: seq<Entry>, id: string, text: string, seen: Sight, now: uint64)
    returns (c: Criteria)
    requires ReadsWell(doc) && Value(doc, "id") == Some(id) && ValueOr(doc, "criteria.type", "") == text
    ensures c.kind == KindOf(text) && ScanUnlocks(doc, id, seen, now, c.kind == Always || Looked(c, seen))
    ensures c.settings.distro == ValueOr(doc, "criteria.distro", "")
    ensures c.settings.binaryName == ValueOr(doc, "criteria.name", "")
    ensures c.settings.displayProtocol == ValueOr(doc, "criteria.protocol", "")
    ensures c.settings.wmClass == ValueOr(doc, "criteria.class", "")
    ensures c.settings.isCustomKernel == (ValueOr(doc, "criteria.custom", "") == "true")
    ensures c.settings.minServices == Atoi(ValueOr(doc, "criteria.min_services", ""))
    ensures c.settings.minCommits == Atoi(ValueOr(doc, "criteria.min_commits", ""))
    ensures c.settings.timeAfterHour == Atoi(ValueOr(doc, "criteria.after_hour", ""))
    ensures c.settings.timeBeforeHour == Atoi(ValueOr(doc, "criteria.before_hour", ""))
  {
    c := CriteriaFrom(ParseText(Print(doc)));
    SettingsAsPrinted(doc, c);
    ScanOfFile(doc, id, seen, now, c);
  }

  lemma {:induction false} KindsByName()
    ensures KindOf("always") == Always && KindOf("os_detect") == Probe(Os) && KindOf("binary") == Probe(Binary)
    ensures KindOf("display_server") == Probe(DisplayServer) && KindOf("window_manager") == Probe(WindowManager)
    ensures KindOf("kernel") == Probe(Kernel) && KindOf("git") == Probe(Git)
    ensures KindOf("time") == Probe(Time) && KindOf("services") == Probe(Services)
  {
    assert "binary"[0] == 'b' && "kernel"[0] == 'k' && "always"[0] == 'a';
  }

  lemma {:induction false} OtherKinds(text: string)
    requires text != "always" && text != "os_detect" && text != "binary" && text != "display_server"
    requires text != "window_manager" && text != "kernel" && text != "git" && text != "time" && text != "services"
    ensures KindOf(text) == Never
  {
  }

  // ---------------------------------------------------------------- type by type

  /** `always`: unlocked by the first scan. */
  lemma {:induction false} AlwaysUnlocks(doc: seq<Entry>, id: string, seen: Sight, now: uint64)
    requires ReadsWell(doc) && Value(doc, "id") == Some(id) && Value(doc, "criteria.type") == Some("always")
    ensures ScanUnlocks(doc, id, seen, now, true)
  {
    KindsByName();
    var c := FileOfType(doc, id, "always", seen, now);
  }

  /** Any other type than these nine, or none: never. */
  lemma {:induction false} OtherTypesNever(doc: seq<Entry>, id: string, text: string, seen: Sight, now: uint64)
    requires ReadsWell(doc) && Value(doc, "id") == Some(id) && ValueOr(doc, "criteria.type", "") == text
    requires text != "always" && text != "os_detect" && text != "binary" && text != "display_server"
    requires text != "window_manager" && text != "kernel" && text != "git" && text != "time" && text != "services"
    ensures ScanUnlocks(doc, id, seen, now, false)
  {
    OtherKinds(text);
    var c := FileOfType(doc, id, text, seen, now);
  }

  lemma {:induction false} OsLooked(c: Criteria, seen: Sight)
    requires c.kind == Probe(Os)
    ensures Looked(c, seen) <==> c.settings.distro == Lower(seen.distro) && seen.distro != ""
  {
  }

  /** `os_detect`: on the distribution of that ID, its capital letters taken as small ones. */
  lemma {:induction false} OsUnlocks(doc: seq<Entry>, id: string, seen: Sight, now: uint64)
    requires ReadsWell(doc) && Value(doc, "id") == Some(id) && Value(doc, "criteria.type") == Some("os_detect")
    ensures ScanUnlocks(doc, id, seen, now,
                        ValueOr(doc, "criteria.distro", "") == Lower(seen.distro) && seen.distro != "")
  {
    KindsByName();
    var c := FileOfType(doc, id, "os_detect", seen, now);
    OsLooked(c, seen);
  }

  lemma {:induction false} BinaryLooked(c: Criteria, seen: Sight, dirs: seq<string>)
    requires c.kind == Probe(Binary)
    requires seen.path.Some? ==> seen.path.value == Colons(dirs) && dirs != [] && forall d :: d in dirs ==> ':' !in d
    ensures Looked(c, seen)
            <==> seen.path.Some? && exists k :: HasFile(dirs, k, c.settings.binaryName, seen.executables)
  {
    if seen.path.Some? { OnPathIff(dirs, c.settings.binaryName, seen.executables); }
  }

  /** `binary`: where a directory of the search path has the file. */
  lemma {:induction false} BinaryUnlocks(doc: seq<Entry>, id: string, seen: Sight, now: uint64, dirs: seq<string>)
    requires ReadsWell(doc) && Value(doc, "id") == Some(id) && Value(doc, "criteria.type") == Some("binary")
    requires seen.path.Some? ==> seen.path.value == Colons(dirs) && dirs != [] && forall d :: d in dirs ==> ':' !in d
    ensures ScanUnlocks(doc, id, seen, now,
                        && seen.path.Some?
                        && exists k :: HasFile(dirs, k, ValueOr(doc, "criteria.name", ""), seen.executables))
  {
    KindsByName();
    var c := FileOfType(doc, id, "binary", seen, now);
    BinaryLooked(c, seen, dirs);
  }

  lemma {:induction false} DisplayServerLooked(c: Criteria, seen: Sight)
    requires c.kind == Probe(DisplayServer)
    ensures Looked(c, seen) <==> Shows(c.settings.displayProtocol, seen.wayland, seen.session)
  {
  }

  /** The protocol of a session: Wayland, X11 or neither. */
  predicate Shows(protocol: string, wayland: bool, session: Option<string>) {
    if wayland then protocol == "wayland"
    else if session == Some("x11") then protocol == "x11"
    else protocol == "unknown"
  }

  /** `display_server`: under Wayland, under X11, or under neither. */
  lemma {:induction false} DisplayServerUnlocks(doc: seq<Entry>, id: string, seen: Sight, now: uint64)
    requires ReadsWell(doc) && Value(doc, "id") == Some(id) && Value(doc, "criteria.type") == Some("display_server")
    ensures var protocol := ValueOr(doc, "criteria.protocol", "");
            && (seen.wayland ==> ScanUnlocks(doc, id, seen, now, protocol == "wayland"))
            && (!seen.wayland && seen.session == Some("x11") ==> ScanUnlocks(doc, id, seen, now, protocol == "x11"))
            && (!seen.wayland && seen.session != Some("x11") ==> ScanUnlocks(doc, id, seen, now, protocol == "unknown"))
  {
    KindsByName();
    var c := FileOfType(doc, id, "display_server", seen, now);
    DisplayServerLooked(c, seen);
  }

  lemma {:induction false} WindowManagerLooked(c: Criteria, seen: Sight)
    requires c.kind == Probe(WindowManager)
    ensures var names := ["sway", "i3", "bspwm", "dwm", "awesome", "herbstluftwm", "xmonad", "hyprland", "river",
                          "qtile", "niri"];
            Looked(c, seen) <==>
            && c.settings.wmClass == "tiling" && seen.desktop.Some?
            && exists k, i :: 0 <= k < |names| && OccursAt(Lower(seen.desktop.value), names[k], i)
  {
    if seen.desktop.Some? { MentionsIff(Lower(seen.desktop.value), Tiling()); }
  }

  /** `window_manager`: for the class `tiling` alone, under a desktop whose name has one of these in it. */
  lemma {:induction false} WindowManagerUnlocks(doc: seq<Entry>, id: string, seen: Sight, now: uint64)
    requires ReadsWell(doc) && Value(doc, "id") == Some(id) && Value(doc, "criteria.type") == Some("window_manager")
    ensures var names := ["sway", "i3", "bspwm", "dwm", "awesome", "herbstluftwm", "xmonad", "hyprland", "river",
                          "qtile", "niri"];
            ScanUnlocks(doc, id, seen, now,
                        && ValueOr(doc, "criteria.class", "") == "tiling" && seen.desktop.Some?
                        && exists k, i :: 0 <= k < |names| && OccursAt(Lower(seen.desktop.value), names[k], i))
  {
    KindsByName();
    var c := FileOfType(doc, id, "window_manager", seen, now);
    WindowManagerLooked(c, seen);
  }

  lemma {:induction false} KernelLooked(c: Criteria, seen: Sight)
    requires c.kind == Probe(Kernel)
    ensures var names := ["-custom", "-zen", "-lqx", "-tkg", "-clear", "-bore", "-edge"];
            Looked(c, seen) <==>
            && c.settings.isCustomKernel && seen.release.Some?
            && exists k, i :: 0 <= k < |names| && OccursAt(seen.release.value, names[k], i)
  {
    if seen.release.Some? { MentionsIff(seen.release.value, CustomKernels()); }
  }

  /** `kernel`: with `custom` true, on a kernel whose release has one of these in it. */
  lemma {:induction false} KernelUnlocks(doc: seq<Entry>, id: string, seen: Sight, now: uint64)
    requires ReadsWell(doc) && Value(doc, "id") == Some(id) && Value(doc, "criteria.type") == Some("kernel")
    ensures var names := ["-custom", "-zen", "-lqx", "-tkg", "-clear", "-bore", "-edge"];
            ScanUnlocks(doc, id, seen, now,
                        && ValueOr(doc, "criteria.custom", "") == "true" && seen.release.Some?
                        && exists k, i :: 0 <= k < |names| && OccursAt(seen.release.value, names[k], i))
  {
    KindsByName();
    var c := FileOfType(doc, id, "kernel", seen, now);
    KernelLooked(c, seen);
  }

  lemma {:induction false} NumberIsRead(doc: seq<Entry>, name: string, n: int32)
    requires SaysNumber(doc, name, n)
    ensures Atoi(ValueOr(doc, name, "")) == n
  {
    AtoiOfNumeral(n);
  }

  lemma {:induction false} NumbersLooked(c: Criteria, seen: Sight)
    ensures c.kind == Probe(Git) ==>
              (Looked(c, seen) <==> 0 < c.settings.minCommits && seen.commits.Some?
                                    && c.settings.minCommits <= seen.commits.value)
    ensures c.kind == Probe(Services) ==>
              (Looked(c, seen) <==> seen.services.Some? && c.settings.minServices <= seen.services.value)
  {
  }

  /** `git`: with at least as many commits as the file says, and it must say a positive number. */
  lemma {:induction false} GitUnlocks(doc: seq<Entry>, id: string, seen: Sight, now: uint64, least: int32)
    requires ReadsWell(doc) && Value(doc, "id") == Some(id) && Value(doc, "criteria.type") == Some("git")
    requires SaysNumber(doc, "criteria.min_commits", least)
    ensures ScanUnlocks(doc, id, seen, now, 0 < least && seen.commits.Some? && least <= seen.commits.value)
  {
    KindsByName();
    var c := FileOfType(doc, id, "git", seen, now);
    NumberIsRead(doc, "criteria.min_commits", least);
    NumbersLooked(c, seen);
  }

  /** `services`: with at least as many active services as the file says. */
  lemma {:induction false} ServicesUnlock(doc: seq<Entry>, id: string, seen: Sight, now: uint64, least: int32)
    requires ReadsWell(doc) && Value(doc, "id") == Some(id) && Value(doc, "criteria.type") == Some("services")
    requires SaysNumber(doc, "criteria.min_services", least)
    ensures ScanUnlocks(doc, id, seen, now, seen.services.Some? && least <= seen.services.value)
  {
    KindsByName();
    var c := FileOfType(doc, id, "services", seen, now);
    NumberIsRead(doc, "criteria.min_services", least);
    NumbersLooked(c, seen);
  }

  lemma {:induction false} TimeLooked(c: Criteria, seen: Sight, a: int32, b: int32)
    requires c.kind == Probe(Time) && c.settings.timeAfterHour == a && c.settings.timeBeforeHour == b
    ensures Looked(c, seen) <==> if a <= b then a <= seen.hour < b else seen.hour >= a || seen.hour < b
  {
  }

  /** `time`: from the first hour to before the second, round midnight when the first is the later one. */
  lemma {:induction false} TimeUnlocks(doc: seq<Entry>, id: string, seen: Sight, now: uint64, a: int32, b: int32)
    requires ReadsWell(doc) && Value(doc, "id") == Some(id) && Value(doc, "criteria.type") == Some("time")
    requires SaysNumber(doc, "criteria.after_hour", a) && SaysNumber(doc, "criteria.before_hour", b)
    ensures ScanUnlocks(doc, id, seen, now,
                        if a <= b then a <= seen.hour < b else seen.hour >= a || seen.hour < b)
  {
    KindsByName();
    var c := FileOfType(doc, id, "time", seen, now);
    NumberIsRead(doc, "criteria.after_hour", a);
    NumberIsRead(doc, "criteria.before_hour", b);
    TimeLooked(c, seen, a, b);
  }

  // ---------------------------------------------------------------- several files

  lemma {:induction false} OneMoreFile(files: seq<string>, file: string, saved: seq<Achievement>)
    ensures Loaded(files + [file], saved) == Loaded(files, saved) + DefinedBy(file, saved)
    ensures CriteriaOf(files + [file]) == WithCriteria(CriteriaOf(files), file)
  {
    assert (files + [file])[..|files|] == files;
  }

  lemma {:induction false} SplitLast(files: seq<string>)
    requires files != []
    ensures files == files[..|files| - 1] + [files[|files| - 1]]
  {
  }

  /** Files with an id give their entries in the order of the files. */
  lemma {:induction false} EntriesInOrder(files: seq<string>, saved: seq<Achievement>, i: nat)
    requires i < |files| && forall k :: 0 <= k < |files| ==> |DefinedBy(files[k], saved)| == 1
    ensures |Loaded(files, saved)| == |files| && [Loaded(files, saved)[i]] == DefinedBy(files[i], saved)
  {
    var n := |files| - 1;
    var before, more, all := Loaded(files[..n], saved), DefinedBy(files[n], saved), Loaded(files, saved);
    SplitLast(files);
    OneMoreFile(files[..n], files[n], saved);
    if n > 0 { EntriesInOrder(files[..n], saved, if i < n then i else 0); }
    InTwo(before, more, all, n, i);
  }

  lemma InTwo<T>(before: seq<T>, more: seq<T>, all: seq<T>, n: nat, i: nat)
    requires all == before + more && |before| == n && |more| == 1 && i <= n
    ensures |all| == n + 1 && if i < n then all[i] == before[i] else [all[i]] == more
  {
  }

  /** Of several files with one id, the criterion of the last one counts. */
  lemma {:induction false} LastCriteriaCount(files: seq<string>, i: nat)
    requires i < |files| && "id" in ParseText(files[i])
    requires forall k :: i < k < |files| && "id" in ParseText(files[k])
                         ==> ParseText(files[k])["id"] != ParseText(files[i])["id"]
    ensures var id := ParseText(files[i])["id"];
            id in CriteriaOf(files) && CriteriaOf(files)[id] == CriteriaFrom(ParseText(files[i]))
  {
    var n := |files| - 1;
    SplitLast(files);
    OneMoreFile(files[..n], files[n], []);
    if i < n { LastCriteriaCount(files[..n], i); }
  }
}
