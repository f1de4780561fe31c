/** The WebSocket URL parser of the client. */
module Url {
  import opened Basics
  import opened Text

  datatype Target = Target(tls: bool, host: string, port: int, path: string)

  /** `Throws` is the exception of `std::stoi`. */
  datatype Outcome = Parsed(target: Target) | Rejected | Throws

  // ---------------------------------------------------------------- std::stoi

  /** A number that fits in 32 bits; others throw, and so does a text that does not begin with one. */
  function Stoi(s: string): (r: Option<int>)
    ensures r.Some? ==> -0x8000_0000 <= r.value < 0x8000_0000
  {
    var n := SignedNumber(s);
    if n.Some? && -0x8000_0000 <= n.value < 0x8000_0000 then n else None
  }

  // ---------------------------------------------------------------- the parser

  /** The scheme's port, when the scheme is one of the four. */
  function DefaultPort(scheme: string): Option<int> {
    if scheme == "wss" || scheme == "https" then Some(443)
    else if scheme == "ws" || scheme == "http" then Some(80)
    else None
  }

  /** The texts of the host, of the port when there is one, and of the path. */
  datatype Parts = Parts(host: string, port: Option<string>, path: string)

  /** The parts of the text from `pos` on, given the first slash and colon there. */
  function Cut(s: string, pos: nat, slash: int, colon: int): Parts
    requires pos <= |s|
    requires slash == -1 || pos <= slash < |s|
    requires colon == -1 || pos <= colon < |s|
  {
    var end := if slash < 0 then |s| else slash;
    var path := if slash < 0 then "/" else s[slash..];
    if 0 <= colon < end then Parts(s[pos..colon], Some(s[colon + 1..end]), path)
    else Parts(s[pos..end], None, path)
  }

  function Judge(parts: Parts, defaultPort: int): Outcome {
    var port := if parts.port.None? then Some(defaultPort) else Stoi(parts.port.value);
    if port.None? then Throws
    else if parts.host == "" then Rejected
    else Parsed(Target(defaultPort == 443, parts.host, port.value, parts.path))
  }

  function PartsOf(rest: string): Parts {
    Cut(rest, 0, Find(rest, "/", 0), Find(rest, ":", 0))
  }

  function Authority(rest: string, defaultPort: int): Outcome {
    Judge(PartsOf(rest), defaultPort)
  }

  function Parse(url: string): Outcome {
    var schemeEnd := Find(url, "://", 0);
    if schemeEnd < 0 then Authority(url, 80)
    else
      match DefaultPort(url[..schemeEnd])
      case None => Rejected
      case Some(port) => Authority(url[schemeEnd + 3..], port)
  }

  /** The parser as written: positions in the whole URL, and results in output parameters. */
  method ParseWsUrl(url: string) returns (outcome: Outcome, useTls: bool, host: string, port: int, path: string)
    ensures outcome == Parse(url)
    ensures outcome.Parsed? ==> outcome.target == Target(useTls, host, port, path)
  {
    useTls, host, port, path := false, "", 80, "/";
    var pos: nat := 0;
    var schemeEnd := Find(url, "://", 0);
    assert url[0..] == url;
    if schemeEnd >= 0 {
      var known;
      known, useTls, port := ReadScheme(url[..schemeEnd]);
      if !known { return Rejected, useTls, host, port, path; }
      pos := schemeEnd + 3;
    }
    assert Parse(url) == Authority(url[pos..], port);
    outcome, host, port, path := ReadAuthority(url, pos, useTls, port);
  }

  method ReadScheme(scheme: string) returns (known: bool, useTls: bool, port: int)
    ensures known == DefaultPort(scheme).Some?
    ensures known ==> DefaultPort(scheme) == Some(port) && (useTls <==> port == 443)
  {
    known, useTls, port := true, false, 80;
    if scheme == "wss" || scheme == "https" {
      useTls, port := true, 443;
    } else if scheme != "ws" && scheme != "http" {
      known := false;
    }
  }

  method ReadAuthority(url: string, pos: nat, useTls: bool, defaultPort: int)
    returns (outcome: Outcome, host: string, port: int, path: string)
    requires pos <= |url| && (useTls <==> defaultPort == 443)
    ensures outcome == Authority(url[pos..], defaultPort)
    ensures outcome.Parsed? ==> outcome.target == Target(useTls, host, port, path)
  {
    host, port, path := "", defaultPort, "/";
    var pathStart := Find(url, "/", pos);
    var colon := Find(url, ":", pos);
    var end := if pathStart >= 0 then pathStart else |url|;
    ghost var parts := Cut(url, pos, pathStart, colon);
    PartsAt(url, pos);
    if pathStart >= 0 { path := url[pathStart..]; }
    if colon >= 0 && (pathStart < 0 || colon < pathStart) {
      host := url[pos..colon];
      var number := Stoi(url[colon + 1..end]);
      assert parts == Parts(host, Some(url[colon + 1..end]), path);
      if number.None? { return Throws, host, port, path; }
      port := number.value;
    } else {
      host := url[pos..end];
      assert parts == Parts(host, None, path);
    }
    outcome := if host == "" then Rejected else Parsed(Target(useTls, host, port, path));
  }

  lemma Slices(s: string, pos: nat, i: nat, j: nat)
    requires pos <= i <= j <= |s|
    ensures s[i..j] == s[pos..][i - pos..j - pos] && s[j..] == s[pos..][j - pos..]
  {
  }

  lemma {:induction false} CutShifts(s: string, pos: nat, slash: int, colon: int)
    requires pos <= |s|
    requires slash == -1 || pos <= slash < |s|
    requires colon == -1 || pos <= colon < |s|
    ensures Cut(s, pos, slash, colon)
            == Cut(s[pos..], 0, if slash < 0 then -1 else slash - pos, if colon < 0 then -1 else colon - pos)
  {
    var rest, end := s[pos..], if slash < 0 then |s| else slash;
    var here := Cut(s, pos, slash, colon);
    var there := Cut(rest, 0, if slash < 0 then -1 else slash - pos, if colon < 0 then -1 else colon - pos);
    assert here.path == there.path by { Slices(s, pos, pos, end); }
    if 0 <= colon < end {
      assert here.host == there.host by { Slices(s, pos, pos, colon); }
      assert here.port == there.port by { Slices(s, pos, colon + 1, end); }
    } else {
      assert here.host == there.host by { Slices(s, pos, pos, end); }
      assert here.port == there.port;
    }
  }

  /** The same parts in terms of positions in the whole URL. */
  lemma {:induction false} PartsAt(url: string, pos: nat)
    requires pos <= |url|
    ensures PartsOf(url[pos..]) == Cut(url, pos, Find(url, "/", pos), Find(url, ":", pos))
  {
    FindFrom(url, "/", pos);
    FindFrom(url, ":", pos);
    CutShifts(url, pos, Find(url, "/", pos), Find(url, ":", pos));
  }

  // ---------------------------------------------------------------- the printer

  function PortText(port: Option<nat>): string {
    match port
    case None => ""
    case Some(p) => ":" + Decimal(p)
  }

  ghost predicate HostLike(host: string) {
    ':' !in host && '/' !in host
  }

  ghost predicate PathLike(path: string) {
    path == "" || path[0] == '/'
  }

  function Print(scheme: string, host: string, port: Option<nat>, path: string): string {
    scheme + "://" + (host + PortText(port) + path)
  }

  /** What a printed host, port and path are read as. */
  function Expected(defaultPort: int, host: string, port: Option<nat>, path: string): Outcome {
    var number := if port.None? then defaultPort else port.value;
    if number >= 0x8000_0000 then Throws
    else if host == "" then Rejected
    else Parsed(Target(defaultPort == 443, host, number, if path == "" then "/" else path))
  }

  // ---------------------------------------------------------------- properties

  lemma DecimalHas(n: nat, c: char)
    requires !IsDigit(c)
    ensures c !in Decimal(n)
  {
    assert forall i :: 0 <= i < |Decimal(n)| ==> IsDigit(Decimal(n)[i]);
  }

  lemma {:induction false} StoiOfDecimal(n: nat)
    ensures Stoi(Decimal(n)) == if n < 0x8000_0000 then Some(n) else None
  {
    SignedNumberOfNumeral(n);
  }

  lemma FirstSlash(host: string, port: Option<nat>, path: string)
    requires HostLike(host) && PathLike(path)
    ensures Find(host + PortText(port) + path, "/", 0) == if path == "" then -1 else |host + PortText(port)|
  {
    if port.Some? { DecimalHas(port.value, '/'); }
    FindPast(host + PortText(port), '/', path);
    assert path != "" ==> path[0..1] == "/";
  }

  /** The first colon is the port's, or lies in the path. */
  lemma FirstColon(host: string, port: Option<nat>, path: string)
    requires HostLike(host)
    ensures var colon := Find(host + PortText(port) + path, ":", 0);
            if port.Some? then colon == |host| else colon == -1 || colon >= |host|
  {
    var s := host + (PortText(port) + path);
    Associates(host, PortText(port), path);
    if port.Some? {
      FindPast(host, ':', PortText(port) + path);
      assert (PortText(port) + path)[0..1] == ":";
    } else {
      forall i | 0 <= i < |host| ensures !OccursAt(s, ":", i) {
        assert s[i] == host[i];
        OccursHead(s, ":", i);
      }
      FindSkips(s, ":", 0, |host|);
    }
  }

  function PrintedParts(host: string, port: Option<nat>, path: string): Parts {
    Parts(host, if port.None? then None else Some(Decimal(port.value)), if path == "" then "/" else path)
  }

  /** Host, port and path are cut out where they were put. */
  lemma {:induction false} PartsReadBack(host: string, port: Option<nat>, path: string)
    requires HostLike(host) && PathLike(path)
    ensures PartsOf(host + PortText(port) + path) == PrintedParts(host, port, path)
  {
    var front := host + PortText(port);
    var rest := front + path;
    FirstSlash(host, port, path);
    FirstColon(host, port, path);
    PrefixOf(front, path);
    PrefixOf(host, PortText(port));
    assert rest[..|host|] == front[..|host|] == host;
    assert path == "" ==> rest == front;
    if port.Some? {
      assert rest[|host| + 1..|front|] == front[|host| + 1..] == Decimal(port.value);
    }
  }

  lemma {:induction false} PrintedPartsJudged(defaultPort: int, host: string, port: Option<nat>, path: string)
    requires defaultPort < 0x8000_0000
    ensures Judge(PrintedParts(host, port, path), defaultPort) == Expected(defaultPort, host, port, path)
  {
    if port.Some? { StoiOfDecimal(port.value); }
  }

  /** Host, port and path are read back. */
  lemma {:induction false} AuthorityReadsBack(defaultPort: int, host: string, port: Option<nat>, path: string)
    requires HostLike(host) && PathLike(path) && defaultPort < 0x8000_0000
    ensures Authority(host + PortText(port) + path, defaultPort) == Expected(defaultPort, host, port, path)
  {
    PartsReadBack(host, port, path);
    PrintedPartsJudged(defaultPort, host, port, path);
  }

  lemma {:induction false} FirstMark(scheme: string, rest: string)
    requires ':' !in scheme
    ensures Find(scheme + "://" + rest, "://", 0) == |scheme|
    ensures (scheme + "://" + rest)[..|scheme|] == scheme && (scheme + "://" + rest)[|scheme| + 3..] == rest
  {
    var s := scheme + "://" + rest;
    forall i | 0 <= i < |scheme| ensures !OccursAt(s, "://", i) {
      assert s[i] == scheme[i];
      OccursHead(s, "://", i);
    }
    assert s[|scheme|..|scheme| + 3] == "://";
    FindIs(s, "://", 0, |scheme|);
  }

  /** A printed URL with a scheme is read back, whatever colons, slashes and marks its path has: `ws` and `http`
      are plain with port 80 unless another is given, `wss` and `https` are secure with port 443, and no other
      scheme is accepted. A port that does not fit an `int` throws. */
  lemma {:induction false} ParseInvertsPrint(scheme: string, host: string, port: Option<nat>, path: string)
    requires ':' !in scheme && HostLike(host) && PathLike(path)
    ensures var plain, secure := scheme == "ws" || scheme == "http", scheme == "wss" || scheme == "https";
            var number := if port.Some? then port.value else if secure then 443 else 80;
            Parse(Print(scheme, host, port, path))
            == if !plain && !secure then Rejected
               else if number >= 0x8000_0000 then Throws
               else if host == "" then Rejected
               else Parsed(Target(secure, host, number, if path == "" then "/" else path))
  {
    FirstMark(scheme, host + PortText(port) + path);
    if DefaultPort(scheme).Some? { AuthorityReadsBack(DefaultPort(scheme).value, host, port, path); }
  }

  lemma NoMarkBefore(host: string, port: Option<nat>, path: string, i: nat)
    requires HostLike(host) && PathLike(path) && i < |host + PortText(port)|
    ensures !OccursAt(host + PortText(port) + path, "://", i)
  {
    var s, front := host + PortText(port) + path, host + PortText(port);
    if i < |host| {
      assert s[i] == host[i];
      OccursHead(s, "://", i);
    } else {
      var d := Decimal(port.value);
      DecimalHas(port.value, '/');
      DecimalHas(port.value, ':');
      if i == |host| {
        assert s[i + 1] == front[i + 1] == d[0];
        assert i + 3 <= |s| ==> s[i..i + 3][1] == s[i + 1];
      } else {
        assert s[i] == front[i] == d[i - |host| - 1];
        OccursHead(s, "://", i);
      }
    }
  }

  lemma {:induction false} MarkAfterFront(front: string, path: string)
    requires forall i :: 0 <= i < |front| ==> !OccursAt(front + path, "://", i)
    ensures var j := Find(path, "://", 0);
            Find(front + path, "://", 0) == if j < 0 then -1 else |front| + j
  {
    FindSkips(front + path, "://", 0, |front|);
    FindAfterPrefix(front, path, "://", 0);
  }

  lemma {:induction false} FirstMarkInPath(host: string, port: Option<nat>, path: string)
    requires HostLike(host) && PathLike(path)
    ensures var j := Find(path, "://", 0);
            Find(host + PortText(port) + path, "://", 0) == if j < 0 then -1 else |host + PortText(port)| + j
  {
    var front := host + PortText(port);
    forall i | 0 <= i < |front| ensures !OccursAt(front + path, "://", i) {
      NoMarkBefore(host, port, path, i);
    }
    MarkAfterFront(front, path);
  }

  /** Text without a scheme is read as it would be after `ws://`, unless its path has a mark: what precedes the
      mark is then taken for a scheme, which it never is. */
  lemma {:induction false} ParseWithoutScheme(host: string, port: Option<nat>, path: string)
    requires HostLike(host) && PathLike(path)
    ensures var number := if port.Some? then port.value else 80;
            Parse(host + PortText(port) + path)
            == if Contains(path, "://") then Rejected
               else if number >= 0x8000_0000 then Throws
               else if host == "" then Rejected
               else Parsed(Target(false, host, number, if path == "" then "/" else path))
  {
    FirstMarkInPath(host, port, path);
    if Contains(path, "://") {
      MarkRejects(host + PortText(port), path, Find(path, "://", 0));
    } else {
      AuthorityReadsBack(80, host, port, path);
    }
  }

  lemma {:induction false} MarkRejects(front: string, path: string, j: nat)
    requires PathLike(path) && OccursAt(path, "://", j) && Find(front + path, "://", 0) == |front| + j
    ensures Parse(front + path) == Rejected
  {
    SlashInScheme(front, path, j);
  }

  lemma SlashInScheme(front: string, path: string, j: nat)
    requires PathLike(path) && OccursAt(path, "://", j)
    ensures DefaultPort((front + path)[..|front| + j]) == None
  {
    var scheme := (front + path)[..|front| + j];
    assert path[j] == path[j..j + 3][0] == ':';
    assert scheme[|front|] == path[0] == '/';
    assert '/' in scheme;
  }

  lemma {:induction false} CutShape(s: string, slash: int, colon: int)
    requires slash == Find(s, "/", 0) && colon == Find(s, ":", 0)
    ensures var p := Cut(s, 0, slash, colon); HostLike(p.host) && p.path != "" && p.path[0] == '/'
  {
    var end := if slash < 0 then |s| else slash;
    var hostEnd := if 0 <= colon < end then colon else end;
    NoCharBefore(s, '/', hostEnd);
    NoCharBefore(s, ':', hostEnd);
    if slash >= 0 { assert s[slash] == s[slash..slash + 1][0]; }
  }

  /** What the parser accepts. */
  ghost predicate WellFormed(t: Target) {
    && HostLike(t.host) && t.host != "" && t.path != "" && t.path[0] == '/'
    && -0x8000_0000 <= t.port < 0x8000_0000
  }

  /** The text after the scheme. */
  function AfterScheme(url: string): string {
    var schemeEnd := Find(url, "://", 0);
    if schemeEnd < 0 then url else url[schemeEnd + 3..]
  }

  /** Every accepted URL has a host without colons and slashes and a path that begins with a slash, and
      printing it again, with an explicit port, gives a URL that is read the same. Negative ports, which
      `stoi` lets through, cannot be printed. */
  lemma {:induction false} PrintInvertsParse(url: string)
    ensures Parse(url).Parsed? ==>
              var t := Parse(url).target;
              && WellFormed(t)
              && (t.port >= 0 ==>
                    Parse(Print(if t.tls then "wss" else "ws", t.host, Some(t.port), t.path)) == Parse(url))
  {
    var rest := AfterScheme(url);
    CutShape(rest, Find(rest, "/", 0), Find(rest, ":", 0));
    if Parse(url).Parsed? && Parse(url).target.port >= 0 {
      var t := Parse(url).target;
      if t.tls {
        ParseInvertsPrint("wss", t.host, Some(t.port), t.path);
      } else {
        ParseInvertsPrint("ws", t.host, Some(t.port), t.path);
      }
    }
  }
}
