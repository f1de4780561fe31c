/** What the criteria of achievements look at, and which of them any system can meet. */
module Checks {
  import opened Basics
  import opened Text
  import opened Yaml

  /** The types of criteria: one that always holds, eight that look at the system, and those that a scan
      never unlocks. */
  datatype Check = Os | Binary | DisplayServer | WindowManager | Kernel | Git | Time | Services
  datatype Kind = Always | Probe(check: Check) | Never

  function KindOf(text: string): Kind {
    if text == "always" then Always
    else if text == "os_detect" then Probe(Os)
    else if text == "binary" then Probe(Binary)
    else if text == "display_server" then Probe(DisplayServer)
    else if text == "window_manager" then Probe(WindowManager)
    else if text == "kernel" then Probe(Kernel)
    else if text == "git" then Probe(Git)
    else if text == "time" then Probe(Time)
    else if text == "services" then Probe(Services)
    else Never
  }

  /** The settings of a criterion, as they are read when its definition is loaded. */
  datatype Settings = Settings(
    distro: string, binaryName: string, displayProtocol: string, wmClass: string,
    minServices: int32, minCommits: int32, isCustomKernel: bool, timeAfterHour: int32, timeBeforeHour: int32)

  datatype Criteria = Criteria(kind: Kind, settings: Settings)

  function Get(y: YamlMap, key: string, default: string): string {
    if key in y then y[key] else default
  }

  function SettingsOf(y: YamlMap): Settings {
    Settings(Get(y, "criteria.distro", ""), Get(y, "criteria.name", ""), Get(y, "criteria.protocol", ""),
             Get(y, "criteria.class", ""), Atoi(Get(y, "criteria.min_services", "")),
             Atoi(Get(y, "criteria.min_commits", "")), Get(y, "criteria.custom", "") == "true",
             Atoi(Get(y, "criteria.after_hour", "")), Atoi(Get(y, "criteria.before_hour", "")))
  }

  function CriteriaFrom(y: YamlMap): Criteria {
    Criteria(KindOf(Get(y, "criteria.type", "")), SettingsOf(y))
  }

  // ---------------------------------------------------------------- the system

  type Hour = x: int | 0 <= x < 24

  /** What the checks can see: the distribution's ID, the search path and the files that can be executed, the
      session, the kernel's release, the commits below the home directory, the active services and the local
      time. `None` is a variable that is not set, or a command that cannot be started. */
  datatype Sight = Sight(
    distro: string, path: Option<string>, executables: set<string>,
    wayland: bool, session: Option<string>, desktop: Option<string>,
    release: Option<string>, commits: Option<int32>, services: Option<int32>, hour: Hour)

  function LowerChar(c: char): char {
    if 'A' <= c <= 'Z' then c + 32 as char else c
  }

  function Lower(s: string): (r: string)
    ensures |r| == |s|
  {
    seq(|s|, i requires 0 <= i < |s| => LowerChar(s[i]))
  }

  function Tiling(): seq<string> {
    ["sway", "i3", "bspwm", "dwm", "awesome", "herbstluftwm", "xmonad", "hyprland", "river", "qtile", "niri"]
  }

  function CustomKernels(): seq<string> {
    ["-custom", "-zen", "-lqx", "-tkg", "-clear", "-bore", "-edge"]
  }

  predicate Mentions(text: string, names: seq<string>) {
    exists i :: 0 <= i < |names| && Contains(text, names[i])
  }

  function DisplayServerOf(seen: Sight): string {
    if seen.wayland then "wayland" else if seen.session == Some("x11") then "x11" else "unknown"
  }

  /** Some directory of the search path from `start` on has the file. */
  predicate OnPath(paths: string, start: nat, name: string, executables: set<string>)
    decreases |paths| - start
  {
    && start < |paths|
    && var colon := Find(paths, ":", start);
       var dir := if colon < 0 then paths[start..] else paths[start..colon];
       || dir + "/" + name in executables
       || (colon >= 0 && OnPath(paths, colon + 1, name, executables))
  }

  // ---------------------------------------------------------------- the checks

  predicate InHours(hour: int, after: int, before: int) {
    if after <= before then after <= hour < before else after <= hour || hour < before
  }

  predicate Passes(check: Check, c: Settings, seen: Sight) {
    match check
    case Os => c.distro != "" && Lower(seen.distro) == c.distro
    case Binary => seen.path.Some? && OnPath(seen.path.value, 0, c.binaryName, seen.executables)
    case DisplayServer => DisplayServerOf(seen) == c.displayProtocol
    case WindowManager => c.wmClass == "tiling" && seen.desktop.Some? && Mentions(Lower(seen.desktop.value), Tiling())
    case Kernel => c.isCustomKernel && seen.release.Some? && Mentions(seen.release.value, CustomKernels())
    case Git => c.minCommits > 0 && seen.commits.Some? && seen.commits.value >= c.minCommits
    case Time => InHours(seen.hour, c.timeAfterHour, c.timeBeforeHour)
    case Services => seen.services.Some? && seen.services.value >= c.minServices
  }

  /** Capital letters become small ones, and nothing else changes. */
  lemma {:induction false} LowerIs(s: string, i: nat, k: nat)
    requires i < |s| && k < 26
    ensures s[i] == "ABCDEFGHIJKLMNOPQRSTUVWXYZ"[k] ==> Lower(s)[i] == "abcdefghijklmnopqrstuvwxyz"[k]
    ensures !('A' <= s[i] <= 'Z') ==> Lower(s)[i] == s[i]
  {
  }

  lemma {:induction false} MentionsIff(text: string, names: seq<string>)
    ensures Mentions(text, names) <==> exists k, i :: 0 <= k < |names| && OccursAt(text, names[k], i)
  {
    forall k | 0 <= k < |names|
      ensures Contains(text, names[k]) <==> exists i :: OccursAt(text, names[k], i)
    {
      ContainsIff(text, names[k]);
    }
  }

  /** A search path of these directories. */
  function Colons(dirs: seq<string>): string {
    if dirs == [] then "" else if |dirs| == 1 then dirs[0] else dirs[0] + (":" + Colons(dirs[1..]))
  }

  /** Directory `k` has the file. An empty name at the end of the search path is not looked at. */
  predicate HasFile(dirs: seq<string>, k: int, name: string, executables: set<string>) {
    0 <= k < |dirs| && (k < |dirs| - 1 || dirs[k] != "") && dirs[k] + "/" + name in executables
  }

  lemma {:induction false} FirstDirectory(paths: string, start: nat, dir: string, rest: string)
    requires start <= |paths| && ':' !in dir && (rest == "" || rest[0] == ':') && paths[start..] == dir + rest
    ensures var colon := Find(paths, ":", start);
            if rest == "" then colon < 0 && paths[start..] == dir
            else colon == start + |dir| && paths[start..colon] == dir && paths[colon + 1..] == rest[1..]
  {
    FindFrom(paths, ":", start);
    FindPast(dir, ':', rest);
    if rest != "" {
      assert rest[0..1] == ":";
      FindIs(rest, ":", 0, 0);
      assert paths[start..start + |dir|] == paths[start..][..|dir|] == dir;
      assert paths[start + |dir| + 1..] == paths[start..][|dir| + 1..] == rest[1..];
    } else {
      assert dir + rest == dir;
    }
  }

  lemma {:induction false} HasFileLater(dirs: seq<string>, name: string, executables: set<string>)
    requires dirs != []
    ensures (exists k :: HasFile(dirs, k, name, executables))
            <==> HasFile(dirs, 0, name, executables) || exists k :: HasFile(dirs[1..], k, name, executables)
  {
    if k :| HasFile(dirs, k, name, executables) && k != 0 {
      assert HasFile(dirs[1..], k - 1, name, executables);
    }
    if k :| HasFile(dirs[1..], k, name, executables) {
      assert HasFile(dirs, k + 1, name, executables);
    }
  }

  lemma {:induction false} OnPathFrom(paths: string, start: nat, dirs: seq<string>, name: string,
                                      executables: set<string>)
    requires start <= |paths| && paths[start..] == Colons(dirs) && dirs != [] && forall d :: d in dirs ==> ':' !in d
    ensures OnPath(paths, start, name, executables) <==> exists k :: HasFile(dirs, k, name, executables)
    decreases |dirs|
  {
    HasFileLater(dirs, name, executables);
    assert dirs[0] in dirs;
    if |dirs| == 1 {
      assert dirs[0] + "" == dirs[0];
      FirstDirectory(paths, start, dirs[0], "");
      assert dirs[1..] == [];
    } else {
      var rest := ":" + Colons(dirs[1..]);
      FirstDirectory(paths, start, dirs[0], rest);
      assert rest[1..] == Colons(dirs[1..]);
      OnPathFrom(paths, start + |dirs[0]| + 1, dirs[1..], name, executables);
    }
  }

  /** A file is found if and only if one of the directories of the search path has it. */
  lemma {:induction false} OnPathIff(dirs: seq<string>, name: string, executables: set<string>)
    requires dirs != [] && forall d :: d in dirs ==> ':' !in d
    ensures OnPath(Colons(dirs), 0, name, executables) <==> exists k :: HasFile(dirs, k, name, executables)
  {
    OnPathFrom(Colons(dirs), 0, dirs, name, executables);
  }

  method AnyOccurs(text: string, names: seq<string>) returns (found: bool)
    ensures found == Mentions(text, names)
  {
    for i := 0 to |names|
      invariant forall j :: 0 <= j < i ==> !Contains(text, names[j])
    {
      if Contains(text, names[i]) { return true; }
    }
    return false;
  }

  /** The loop over the directories of the search path. */
  method CheckBinary(paths: string, name: string, executables: set<string>) returns (found: bool)
    ensures found == OnPath(paths, 0, name, executables)
  {
    var start := 0;
    while start < |paths|
      invariant OnPath(paths, 0, name, executables) == OnPath(paths, start, name, executables)
      decreases |paths| - start
    {
      var colon := Find(paths, ":", start);
      var dir := if colon < 0 then paths[start..] else paths[start..colon];
      if dir + "/" + name in executables { return true; }
      if colon < 0 { break; }
      start := colon + 1;
    }
    return false;
  }

  method Perform(check: Check, c: Settings, seen: Sight) returns (passes: bool)
    ensures passes == Passes(check, c, seen)
  {
    match check {
      case Binary =>
        if seen.path.None? { return false; }
        passes := CheckBinary(seen.path.value, c.binaryName, seen.executables);
      case WindowManager =>
        if c.wmClass != "tiling" || seen.desktop.None? { return false; }
        passes := AnyOccurs(Lower(seen.desktop.value), Tiling());
      case Kernel =>
        if !c.isCustomKernel || seen.release.None? { return false; }
        passes := AnyOccurs(seen.release.value, CustomKernels());
      case _ => passes := Passes(check, c, seen);
    }
  }

  // ---------------------------------------------------------------- which criteria can be met

  /** What the settings must say for some system to pass the check. */
  predicate CanPass(check: Check, c: Settings) {
    match check
    case Os => c.distro != "" && forall i :: 0 <= i < |c.distro| ==> !('A' <= c.distro[i] <= 'Z')
    case Binary => true
    case DisplayServer => c.displayProtocol in ["wayland", "x11", "unknown"]
    case WindowManager => c.wmClass == "tiling"
    case Kernel => c.isCustomKernel
    case Git => c.minCommits > 0
    case Time =>
      if c.timeAfterHour <= c.timeBeforeHour
      then c.timeAfterHour < c.timeBeforeHour && c.timeAfterHour < 24 && 0 < c.timeBeforeHour
      else c.timeAfterHour < 24 || 0 < c.timeBeforeHour
    case Services => true
  }

  /** The hour that is in every window which has one. */
  function HourIn(after: int, before: int): Hour {
    if 0 <= after < 24 then after else if after < 0 && before <= after then 23 else 0
  }

  /** A system that meets every criterion that can be met. */
  function Ideal(c: Settings): Sight {
    Sight(c.distro, Some("d"), {"d/" + c.binaryName},
          c.displayProtocol == "wayland", if c.displayProtocol == "x11" then Some("x11") else None, Some("i3"),
          Some("-zen"), Some(0x7FFF_FFFF), Some(0x7FFF_FFFF), HourIn(c.timeAfterHour, c.timeBeforeHour))
  }

  lemma {:induction false} LowerStays(s: string)
    ensures Lower(s) == s <==> forall i :: 0 <= i < |s| ==> !('A' <= s[i] <= 'Z')
  {
    if i :| 0 <= i < |s| && 'A' <= s[i] <= 'Z' {
      assert Lower(s)[i] != s[i];
    }
  }

  lemma {:induction false} LowerIsLower(s: string)
    ensures forall i :: 0 <= i < |s| ==> !('A' <= Lower(s)[i] <= 'Z')
  {
  }

  lemma {:induction false} MentionsOne(text: string, names: seq<string>, i: nat)
    requires i < |names| && names[i] == text
    ensures Mentions(text, names)
  {
    FindSkipsNothing(text, names[i], 0, 0);
  }

  lemma {:induction false} FoundOnPath(name: string)
    ensures OnPath("d", 0, name, {"d/" + name})
  {
    assert "d"[0..] == "d" && "d"[0..1] == "d";
    assert Find("d", ":", 1) == -1 && Find("d", ":", 0) == -1;
    assert "d" + "/" + name == "d/" + name;
  }

  lemma {:induction false} IdealPasses(check: Check, c: Settings)
    requires CanPass(check, c)
    ensures Passes(check, c, Ideal(c))
  {
    match check
    case Os => LowerStays(c.distro);
    case Binary => FoundOnPath(c.binaryName);
    case WindowManager =>
      LowerStays("i3");
      MentionsOne("i3", Tiling(), 1);
    case Kernel => MentionsOne("-zen", CustomKernels(), 1);
    case _ =>
  }

  /** The settings decide whether a check can pass at all: some system passes it if and only if they are as
      `CanPass` says. */
  lemma {:induction false} CanPassIff(check: Check, c: Settings)
    ensures CanPass(check, c) <==> exists seen :: Passes(check, c, seen)
  {
    if CanPass(check, c) {
      IdealPasses(check, c);
    }
    forall seen | Passes(check, c, seen)
      ensures CanPass(check, c)
    {
      LowerIsLower(seen.distro);
    }
  }

  /** What a scan finds out about a criterion by looking at the system. */
  predicate Looked(c: Criteria, seen: Sight) {
    c.kind.Probe? && Passes(c.kind.check, c.settings, seen)
  }

  /** A scan can find the criterion met. */
  predicate Satisfiable(c: Criteria) {
    c.kind == Always || (c.kind.Probe? && CanPass(c.kind.check, c.settings))
  }

  lemma {:induction false} LookedIff(c: Criteria)
    ensures (exists seen :: Looked(c, seen)) <==> c.kind.Probe? && Satisfiable(c)
    ensures c.kind.Probe? && Satisfiable(c) ==> Looked(c, Ideal(c.settings))
  {
    if c.kind.Probe? && Satisfiable(c) {
      IdealPasses(c.kind.check, c.settings);
      assert Looked(c, Ideal(c.settings));
    }
    forall seen | Looked(c, seen)
      ensures Satisfiable(c)
    {
      CanPassIff(c.kind.check, c.settings);
    }
  }
}
