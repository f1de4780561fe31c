/** The opening handshake (sections 4.1 and 4.2.2 of RFC 6455) between LinuxLive's client and relay.
    SHA-1 is a parameter; the nonce is whatever RAND_bytes returned. */
module Handshake {
  import opened Basics
  import opened Bytes
  import opened Text
  import opened Streams
  import Base64

  const CR: byte := 13
  const LF: byte := 10
  const CRLF: seq<byte> := [CR, LF]
  const BLANK: seq<byte> := [CR, LF, CR, LF]

  /** The bytes of a literal. */
  function Ascii(s: string): (b: seq<byte>)
    ensures |b| == |s|
    ensures forall i :: 0 <= i < |s| ==> b[i] == s[i] as int % 256
  {
    seq(|s|, i requires 0 <= i < |s| => s[i] as int % 256)
  }

  const MAGIC := Ascii("258EAFA5-E914-47DA-95CA-C5AB0DC85B11")
  const KEY_NAME := Ascii("Sec-WebSocket-Key: ")
  const KEY_NAME_BARE := Ascii("Sec-WebSocket-Key:")
  const UPGRADE := Ascii("Upgrade: websocket")
  const UPGRADE_CAPITAL := Ascii("Upgrade: WebSocket")
  const CONNECTION := Ascii("Connection: Upgrade")
  const VERSION := Ascii("Sec-WebSocket-Version: 13")
  const STATUS := Ascii("HTTP/1.1 101 Switching Protocols")
  const ACCEPT_NAME := Ascii("Sec-WebSocket-Accept: ")
  const BAD_STATUS := Ascii("HTTP/1.1 400 Bad Request")
  const NO_CONTENT := Ascii("Content-Length: 0")
  const BAD_REQUEST := BAD_STATUS + CRLF + NO_CONTENT + BLANK

  // ---------------------------------------------------------------- header blocks

  /** Header lines, each ended by CRLF, and the blank line. */
  function Head(lines: seq<seq<byte>>): (h: seq<byte>)
    ensures |h| >= 2
  {
    if lines == [] then CRLF else lines[0] + CRLF + Head(lines[1..])
  }

  predicate IsPlain(line: seq<byte>) {
    forall i :: 0 <= i < |line| ==> line[i] != CR && line[i] != LF
  }

  predicate PlainLines(lines: seq<seq<byte>>) {
    forall j :: 0 <= j < |lines| ==> lines[j] != [] && IsPlain(lines[j])
  }

  function RequestLines(host: seq<byte>, path: seq<byte>, key: seq<byte>): seq<seq<byte>> {
    [GetLine(path), HostLine(host), UPGRADE, CONNECTION, KEY_NAME + key, VERSION]
  }

  function GetLine(path: seq<byte>): seq<byte> {
    Ascii("GET ") + path + Ascii(" HTTP/1.1")
  }

  function HostLine(host: seq<byte>): seq<byte> {
    Ascii("Host: ") + host
  }

  function ResponseLines(accept: seq<byte>): seq<seq<byte>> {
    [STATUS, UPGRADE, CONNECTION, ACCEPT_NAME + accept]
  }

  function AcceptKey(key: seq<byte>, sha1: seq<byte> -> seq<byte>): seq<byte> {
    Base64.Encode(sha1(key + MAGIC))
  }

  // ---------------------------------------------------------------- reading a header block

  datatype HeadRead = Refused | Complete(head: seq<byte>, rest: Segments)

  predicate EndsInBlank(b: seq<byte>) {
    |b| >= 4 && b[|b| - 4..] == BLANK
  }

  /** Both ends read one byte at a time until a blank line, and give up after 4096 bytes without one. */
  function ReadHead(segs: Segments, acc: seq<byte>): HeadRead
    decreases |Flat(segs)|
  {
    var (c, rest) := Recv(segs, 1);
    if c == [] then Refused
    else if EndsInBlank(acc + c) then Complete(acc + c, rest)
    else if |acc + c| > 4096 then Refused
    else ReadHead(rest, acc + c)
  }

  /** The value of the key header: from the first occurrence of its name to the end of that line. */
  function ExtractKey(request: seq<byte>): seq<byte> {
    var named := Find(request, KEY_NAME, 0);
    var pos := if named >= 0 then named else Find(request, KEY_NAME_BARE, 0);
    if pos < 0 then []
    else
      var end := Find(request, CRLF, pos + 19);
      if end < 0 then [] else request[pos + 19..end]
  }

  datatype ServerGreeting = Dropped | BadRequest | Welcome(key: seq<byte>, rest: Segments)

  function ServerGreets(segs: Segments): ServerGreeting {
    match ReadHead(segs, [])
    case Refused => Dropped
    case Complete(request, rest) =>
      if !Contains(request, UPGRADE) && !Contains(request, UPGRADE_CAPITAL) then BadRequest
      else if ExtractKey(request) == [] then BadRequest
      else Welcome(ExtractKey(request), rest)
  }

  datatype ClientGreeting = NotSwitched | Switched(rest: Segments)

  function ClientGreeted(segs: Segments): ClientGreeting {
    match ReadHead(segs, [])
    case Refused => NotSwitched
    case Complete(response, rest) => if Contains(response, Ascii("101")) then Switched(rest) else NotSwitched
  }

  // ---------------------------------------------------------------- where the blank line is

  lemma {:induction false} BlankOnlyAtEnd(lines: seq<seq<byte>>, i: nat)
    requires lines != [] && PlainLines(lines) && OccursAt(Head(lines), BLANK, i)
    ensures i + 4 == |Head(lines)|
  {
    var h, l, tail := Head(lines), lines[0], Head(lines[1..]);
    assert h == l + CRLF + tail;
    assert h[i] == BLANK[0] && h[i + 1] == BLANK[1] && h[i + 2] == BLANK[2] && h[i + 3] == BLANK[3];
    assert |lines| > 1 ==> tail[0] == lines[1][0];
    if i >= |l| + 2 {
      assert tail[i - |l| - 2..i - |l| + 2] == h[i..i + 4];
      if |lines| > 1 {
        BlankOnlyAtEnd(lines[1..], i - |l| - 2);
      }
    }
  }

  lemma {:induction false} HeadEndsInBlank(lines: seq<seq<byte>>)
    requires lines != []
    ensures EndsInBlank(Head(lines))
  {
    if |lines| > 1 {
      HeadEndsInBlank(lines[1..]);
    } else {
      assert Head(lines[1..]) == CRLF;
    }
  }

  lemma {:induction false} NoBlankBefore(lines: seq<seq<byte>>, n: nat)
    requires lines != [] && PlainLines(lines) && n < |Head(lines)|
    ensures !EndsInBlank(Head(lines)[..n])
  {
    if EndsInBlank(Head(lines)[..n]) {
      assert Head(lines)[n - 4..n] == Head(lines)[..n][n - 4..];
      BlankOnlyAtEnd(lines, n - 4);
    }
  }

  lemma NextByte(segs: Segments, h: seq<byte>, n: nat, tail: seq<byte>)
    requires n < |h| && Flat(segs) == h[n..] + tail
    ensures var (c, rest) := Recv(segs, 1);
            c == [h[n]] && h[..n] + c == h[..n + 1] && Flat(rest) == h[n + 1..] + tail
  {
    assert Flat(segs)[0] == h[n];
    assert Flat(segs)[1..] == h[n + 1..] + tail;
  }

  /** Reading stops exactly at the end of the block and consumes nothing beyond it, for every cut of
      the stream; a block of more than 4097 bytes is refused. */
  lemma {:induction false} ReadHeadStopsAtBlank(segs: Segments, lines: seq<seq<byte>>, n: nat, tail: seq<byte>)
    requires lines != [] && PlainLines(lines) && n < |Head(lines)| && n <= 4096
    requires Flat(segs) == Head(lines)[n..] + tail
    ensures var h := Head(lines);
            var r := ReadHead(segs, h[..n]);
            if |h| <= 4097 then r.Complete? && r.head == h && Flat(r.rest) == tail else r == Refused
    decreases |Head(lines)| - n
  {
    var h := Head(lines);
    NextByte(segs, h, n, tail);
    if n + 1 == |h| {
      HeadEndsInBlank(lines);
      assert h[..n + 1] == h;
      assert h[n + 1..] + tail == tail;
    } else {
      NoBlankBefore(lines, n + 1);
      if n < 4096 { ReadHeadStopsAtBlank(Recv(segs, 1).1, lines, n + 1, tail); }
    }
  }

  // ---------------------------------------------------------------- where a header name is

  /** The position of `pat` in the block, found line by line, or -1. */
  function FindInLines(lines: seq<seq<byte>>, pat: seq<byte>): (r: int)
    ensures r >= -1
  {
    if lines == [] then -1
    else if Contains(lines[0], pat) then Find(lines[0], pat, 0)
    else
      var r := FindInLines(lines[1..], pat);
      if r < 0 then -1 else |lines[0]| + 2 + r
  }

  lemma BreakInside(h: seq<byte>, pat: seq<byte>, i: nat, k: nat)
    requires OccursAt(h, pat, i) && i <= k < i + |pat| && (h[k] == CR || h[k] == LF)
    ensures !IsPlain(pat)
  {
    assert pat[k - i] == h[k];
  }

  lemma SliceLeft(a: seq<byte>, b: seq<byte>, i: nat, n: nat)
    requires i + n <= |a|
    ensures (a + b)[i..i + n] == a[i..i + n]
  {
  }

  lemma SliceRight(a: seq<byte>, b: seq<byte>, i: nat, n: nat)
    requires |a| <= i && i + n <= |a + b|
    ensures (a + b)[i..i + n] == b[i - |a|..i - |a| + n]
  {
  }

  lemma {:induction false} OccurrenceInTwo(l: seq<byte>, tail: seq<byte>, pat: seq<byte>, i: nat)
    requires pat != [] && IsPlain(pat) && OccursAt(l + CRLF + tail, pat, i)
    ensures OccursAt(l, pat, i) || (i >= |l| + 2 && OccursAt(tail, pat, i - |l| - 2))
  {
    if i + |pat| <= |l| {
      SliceLeft(l, CRLF + tail, i, |pat|);
      Associates(l, CRLF, tail);
    } else if i >= |l| + 2 {
      SliceRight(l + CRLF, tail, i, |pat|);
    } else {
      BreakInside(l + CRLF + tail, pat, i, if i <= |l| then |l| else |l| + 1);
    }
  }

  lemma FoundInLater(l: seq<byte>, tail: seq<byte>, pat: seq<byte>)
    requires OccursAt(tail, pat, Find(tail, pat, 0))
    ensures OccursAt(l + CRLF + tail, pat, |l| + 2 + Find(tail, pat, 0))
  {
    var h, r := l + CRLF + tail, Find(tail, pat, 0);
    assert h[|l| + 2 + r..|l| + 2 + r + |pat|] == tail[r..r + |pat|];
  }

  lemma FoundInFirst(l: seq<byte>, tail: seq<byte>, pat: seq<byte>)
    requires Contains(l, pat)
    ensures OccursAt(l + CRLF + tail, pat, Find(l, pat, 0))
  {
    var h, r := l + CRLF + tail, Find(l, pat, 0);
    assert h[r..r + |pat|] == l[r..r + |pat|];
  }

  lemma {:induction false} FoundSomewhere(l: seq<byte>, tail: seq<byte>, pat: seq<byte>)
    requires Contains(l, pat) || Contains(tail, pat)
    ensures var at := if Contains(l, pat) then Find(l, pat, 0) else |l| + 2 + Find(tail, pat, 0);
            0 <= Find(l + CRLF + tail, pat, 0) <= at
  {
    if Contains(l, pat) {
      FoundInFirst(l, tail, pat);
      FindSkipsNothing(l + CRLF + tail, pat, 0, Find(l, pat, 0));
    } else {
      FoundInLater(l, tail, pat);
      FindSkipsNothing(l + CRLF + tail, pat, 0, |l| + 2 + Find(tail, pat, 0));
    }
  }

  lemma {:induction false} FoundNowhereElse(l: seq<byte>, tail: seq<byte>, pat: seq<byte>, found: nat)
    requires OccursAt(l, pat, found) || (found >= |l| + 2 && OccursAt(tail, pat, found - |l| - 2))
    ensures (Contains(l, pat) && Find(l, pat, 0) <= found)
            || (found >= |l| + 2 && Contains(tail, pat) && |l| + 2 + Find(tail, pat, 0) <= found)
  {
    if OccursAt(l, pat, found) {
      FindSkipsNothing(l, pat, 0, found);
    } else {
      FindSkipsNothing(tail, pat, 0, found - |l| - 2);
    }
  }

  /** A pattern without line breaks is searched in a line, then in what follows it. */
  lemma {:induction false} FindInTwo(l: seq<byte>, tail: seq<byte>, pat: seq<byte>)
    requires pat != [] && IsPlain(pat)
    ensures Find(l + CRLF + tail, pat, 0)
            == if Contains(l, pat) then Find(l, pat, 0)
               else if Find(tail, pat, 0) < 0 then -1 else |l| + 2 + Find(tail, pat, 0)
  {
    var found := Find(l + CRLF + tail, pat, 0);
    if found >= 0 {
      OccurrenceInTwo(l, tail, pat, found);
      FoundNowhereElse(l, tail, pat, found);
    }
    if Contains(l, pat) || Contains(tail, pat) { FoundSomewhere(l, tail, pat); }
  }

  /** A name without line breaks is found in the first line that contains it. */
  lemma {:induction false} FindIsByLines(lines: seq<seq<byte>>, pat: seq<byte>)
    requires pat != [] && IsPlain(pat)
    ensures Find(Head(lines), pat, 0) == FindInLines(lines, pat)
  {
    if lines == [] {
      var found := Find(CRLF, pat, 0);
      if found >= 0 { BreakInside(CRLF, pat, found, found); }
    } else {
      FindIsByLines(lines[1..], pat);
      FindInTwo(lines[0], Head(lines[1..]), pat);
    }
  }

  /** The rest of the line in which `pat` is first found, or nothing. */
  function ValueInLines(lines: seq<seq<byte>>, pat: seq<byte>): seq<byte> {
    if lines == [] then []
    else if Contains(lines[0], pat) then lines[0][Find(lines[0], pat, 0) + |pat|..]
    else ValueInLines(lines[1..], pat)
  }

  lemma NextBreakInLine(l: seq<byte>, tail: seq<byte>, r: nat)
    requires IsPlain(l) && r <= |l|
    ensures Find(l + CRLF + tail, CRLF, r) == |l|
  {
    var h := l + CRLF + tail;
    forall i | r <= i < |l|
      ensures !OccursAt(h, CRLF, i)
    {
      assert h[i] == l[i] != CR;
      assert i + 2 <= |h| ==> h[i..i + 2][0] != CRLF[0];
    }
    assert h[|l|..|l| + 2] == CRLF;
    FindIs(h, CRLF, r, |l|);
  }

  /** What follows position `r` up to the next line break. */
  function RestOfLine(h: seq<byte>, r: nat): Option<seq<byte>> {
    var end := Find(h, CRLF, r);
    if end < 0 then None else Some(h[r..end])
  }

  lemma RestOfFirstLine(l: seq<byte>, tail: seq<byte>, r: nat)
    requires IsPlain(l) && r <= |l|
    ensures RestOfLine(l + CRLF + tail, r) == Some(l[r..])
  {
    NextBreakInLine(l, tail, r);
    assert (l + CRLF + tail)[r..|l|] == l[r..];
  }

  lemma RestAfterPrefix(p: seq<byte>, s: seq<byte>, r: nat)
    requires RestOfLine(s, r).Some?
    ensures RestOfLine(p + s, |p| + r) == RestOfLine(s, r)
  {
    FindAfterPrefix(p, s, CRLF, r);
    assert (p + s)[|p| + r..|p| + Find(s, CRLF, r)] == s[r..Find(s, CRLF, r)];
  }

  lemma RestOfLaterLine(l: seq<byte>, tail: seq<byte>, r: nat, v: seq<byte>)
    requires RestOfLine(tail, r) == Some(v)
    ensures RestOfLine(l + CRLF + tail, |l| + 2 + r) == Some(v)
  {
    RestAfterPrefix(l + CRLF, tail, r);
  }

  /** The value of `pat` in the block is `v`, by lines and by bytes alike. */
  ghost predicate ValueAgrees(lines: seq<seq<byte>>, pat: seq<byte>) {
    FindInLines(lines, pat) >= 0 &&
    RestOfLine(Head(lines), FindInLines(lines, pat) + |pat|) == Some(ValueInLines(lines, pat))
  }

  lemma AgreesInFirst(lines: seq<seq<byte>>, pat: seq<byte>)
    requires lines != [] && IsPlain(lines[0]) && Contains(lines[0], pat)
    ensures ValueAgrees(lines, pat)
  {
    RestOfFirstLine(lines[0], Head(lines[1..]), Find(lines[0], pat, 0) + |pat|);
  }

  lemma AgreesLater(lines: seq<seq<byte>>, pat: seq<byte>)
    requires lines != [] && !Contains(lines[0], pat) && FindInLines(lines[1..], pat) >= 0
    requires ValueAgrees(lines[1..], pat)
    ensures ValueAgrees(lines, pat)
  {
    var r, v := FindInLines(lines[1..], pat), ValueInLines(lines[1..], pat);
    RestOfLaterLine(lines[0], Head(lines[1..]), r + |pat|, v);
    assert FindInLines(lines, pat) == |lines[0]| + 2 + r;
  }

  /** What follows a name up to the next line break is the rest of the line it is first found in. */
  lemma {:induction false} ValueIsByLines(lines: seq<seq<byte>>, pat: seq<byte>)
    requires PlainLines(lines) && FindInLines(lines, pat) >= 0
    ensures ValueAgrees(lines, pat)
  {
    if Contains(lines[0], pat) {
      AgreesInFirst(lines, pat);
    } else {
      ValueIsByLines(lines[1..], pat);
      AgreesLater(lines, pat);
    }
  }

  // ---------------------------------------------------------------- the literals

  predicate IsPrintable(s: string) {
    forall i :: 0 <= i < |s| ==> 32 <= s[i] as int < 127
  }

  lemma PrintableIsPlain(s: string)
    requires IsPrintable(s)
    ensures IsPlain(Ascii(s))
  {
  }

  lemma UpgradeIsPlain()
    ensures |UPGRADE| == 18 && IsPlain(UPGRADE)
  {
    PrintableIsPlain("Upgrade: websocket");
  }

  lemma ConnectionIsPlain()
    ensures |CONNECTION| == 19 && IsPlain(CONNECTION) && CONNECTION[0] != KEY_NAME[0]
  {
    PrintableIsPlain("Connection: Upgrade");
  }

  lemma VersionIsPlain()
    ensures VERSION != [] && IsPlain(VERSION)
  {
    PrintableIsPlain("Sec-WebSocket-Version: 13");
  }

  lemma KeyNameIsPlain()
    ensures |KEY_NAME| == 19 && IsPlain(KEY_NAME)
  {
    PrintableIsPlain("Sec-WebSocket-Key: ");
  }

  lemma AcceptNameIsPlain()
    ensures IsPlain(ACCEPT_NAME)
  {
    PrintableIsPlain("Sec-WebSocket-Accept: ");
  }

  lemma {:induction false} StatusIsPlain()
    ensures STATUS != [] && IsPlain(STATUS) && Contains(STATUS, Ascii("101"))
  {
    PrintableIsPlain("HTTP/1.1 101 Switching Protocols");
    var code := Ascii("101");
    assert STATUS[9] == 49 && STATUS[10] == 48 && STATUS[11] == 49;
    assert STATUS[9..12] == code;
    FindSkipsNothing(STATUS, code, 0, 9);
  }

  lemma PlainConcat(a: seq<byte>, b: seq<byte>)
    requires IsPlain(a) && IsPlain(b)
    ensures IsPlain(a + b)
  {
  }

  lemma {:induction false} Base64IsPlain(data: seq<byte>)
    ensures IsPlain(Base64.Encode(data))
  {
    Base64.EncodeShape(data);
    var text := Base64.Encode(data);
    forall i | 0 <= i < |text|
      ensures text[i] != CR && text[i] != LF
    {
      assert Base64.SymbolValue(CR) == -1 && Base64.SymbolValue(LF) == -1;
    }
  }

  lemma {:induction false} RequestIsPlain(host: seq<byte>, path: seq<byte>, key: seq<byte>)
    requires IsPlain(host) && IsPlain(path) && IsPlain(key)
    ensures PlainLines(RequestLines(host, path, key))
  {
    PrintableIsPlain("GET ");
    PrintableIsPlain(" HTTP/1.1");
    PrintableIsPlain("Host: ");
    PlainConcat(Ascii("GET "), path);
    PlainConcat(Ascii("GET ") + path, Ascii(" HTTP/1.1"));
    PlainConcat(Ascii("Host: "), host);
    UpgradeIsPlain();
    ConnectionIsPlain();
    VersionIsPlain();
    KeyNameIsPlain();
    PlainConcat(KEY_NAME, key);
  }

  lemma {:induction false} ResponseIsPlain(accept: seq<byte>)
    requires IsPlain(accept)
    ensures PlainLines(ResponseLines(accept))
  {
    StatusIsPlain();
    UpgradeIsPlain();
    ConnectionIsPlain();
    AcceptNameIsPlain();
    PlainConcat(ACCEPT_NAME, accept);
  }

  // ---------------------------------------------------------------- the key the server finds

  lemma ShorterLineLacks(l: seq<byte>, pat: seq<byte>)
    requires |l| < |pat| || (|l| == |pat| && pat != [] && l[0] != pat[0])
    ensures !Contains(l, pat)
  {
    if |l| == |pat| {
      assert l[0..|pat|] == l;
      assert Find(l, pat, 1) == -1;
    }
  }

  lemma FirstInOwnLine(pat: seq<byte>, value: seq<byte>)
    ensures Contains(pat + value, pat) && Find(pat + value, pat, 0) == 0
    ensures (pat + value)[|pat|..] == value
  {
    assert (pat + value)[..|pat|] == pat;
    FindIs(pat + value, pat, 0, 0);
  }

  lemma ExtractFrom(request: seq<byte>, pos: nat, value: seq<byte>)
    requires Find(request, KEY_NAME, 0) == pos && RestOfLine(request, pos + 19) == Some(value)
    ensures ExtractKey(request) == value
  {
  }

  lemma FixedLinesLackKey()
    ensures !Contains(UPGRADE, KEY_NAME) && !Contains(CONNECTION, KEY_NAME)
  {
    KeyNameIsPlain();
    UpgradeIsPlain();
    ConnectionIsPlain();
    ShorterLineLacks(UPGRADE, KEY_NAME);
    ShorterLineLacks(CONNECTION, KEY_NAME);
  }

  /** What the server is to find: the rest of the first of the request line, the host line and the key
      line that contains the name. */
  function KeySeen(host: seq<byte>, path: seq<byte>, key: seq<byte>): seq<byte> {
    var get, hostLine := GetLine(path), HostLine(host);
    if Contains(get, KEY_NAME) then get[Find(get, KEY_NAME, 0) + |KEY_NAME|..]
    else if Contains(hostLine, KEY_NAME) then hostLine[Find(hostLine, KEY_NAME, 0) + |KEY_NAME|..]
    else key
  }

  lemma KeySeenInLines(host: seq<byte>, path: seq<byte>, key: seq<byte>)
    ensures FindInLines(RequestLines(host, path, key), KEY_NAME) >= 0
    ensures ValueInLines(RequestLines(host, path, key), KEY_NAME) == KeySeen(host, path, key)
  {
    FixedLinesLackKey();
    FirstInOwnLine(KEY_NAME, key);
    ValueOfRequest(RequestLines(host, path, key));
  }

  /** The server reads the value of the first line that contains the key header's name. */
  lemma {:induction false} KeyFoundByLine(host: seq<byte>, path: seq<byte>, key: seq<byte>)
    requires IsPlain(host) && IsPlain(path) && IsPlain(key)
    ensures ExtractKey(Head(RequestLines(host, path, key))) == KeySeen(host, path, key)
  {
    var lines := RequestLines(host, path, key);
    RequestIsPlain(host, path, key);
    KeyNameIsPlain();
    KeySeenInLines(host, path, key);
    FindIsByLines(lines, KEY_NAME);
    ValueIsByLines(lines, KEY_NAME);
    ExtractFrom(Head(lines), FindInLines(lines, KEY_NAME), ValueInLines(lines, KEY_NAME));
  }

  /** The line-by-line search on six lines of which the third and fourth lack the name and the fifth
      has it. */
  lemma ValueOfRequest(lines: seq<seq<byte>>)
    requires |lines| == 6
    requires !Contains(lines[2], KEY_NAME) && !Contains(lines[3], KEY_NAME) && Contains(lines[4], KEY_NAME)
    ensures FindInLines(lines, KEY_NAME) >= 0
    ensures ValueInLines(lines, KEY_NAME)
            == var l := if Contains(lines[0], KEY_NAME) then lines[0]
                        else if Contains(lines[1], KEY_NAME) then lines[1]
                        else lines[4];
               l[Find(l, KEY_NAME, 0) + |KEY_NAME|..]
  {
    var from4 := lines[1..][1..][1..][1..];
    assert from4[0] == lines[4];
    assert FindInLines(from4, KEY_NAME) >= 0;
    var from2 := lines[1..][1..];
    assert from2[0] == lines[2] && from2[1..][0] == lines[3];
    assert FindInLines(from2, KEY_NAME) >= 0;
    assert ValueInLines(from2, KEY_NAME) == ValueInLines(from4, KEY_NAME);
  }

  lemma {:induction false} KeyIsPlain(nonce: seq<byte>)
    requires |nonce| == 16
    ensures var key := Base64.Encode(nonce);
            |key| == 24 && IsPlain(key) && key[23] == Base64.PAD
  {
    Base64.EncodeShape(nonce);
    KeyShape(Base64.Encode(nonce));
    Base64IsPlain(nonce);
  }

  lemma KeyShape(text: seq<byte>)
    requires Base64.WellShaped(text, 16)
    ensures |text| == 24 && text[23] == Base64.PAD
  {
  }

  /** The text after the name in the request line ends in the protocol version or is empty, so it is
      never the client's key. */
  lemma RequestLineHidesKey(path: seq<byte>, key: seq<byte>)
    requires Contains(GetLine(path), KEY_NAME)
    requires key != [] && key[|key| - 1] == Base64.PAD
    ensures GetLine(path)[Find(GetLine(path), KEY_NAME, 0) + |KEY_NAME|..] != key
  {
    var get := GetLine(path);
    KeyNameIsPlain();
    var value := get[Find(get, KEY_NAME, 0) + |KEY_NAME|..];
    if value != [] {
      assert value[|value| - 1] == get[|get| - 1] == Ascii(" HTTP/1.1")[8];
    }
  }

  /** Neither the request line nor the host line gives the server another key to find first. */
  predicate KeyComesFirst(host: seq<byte>, path: seq<byte>, key: seq<byte>) {
    var hostLine := HostLine(host);
    && !Contains(GetLine(path), KEY_NAME)
    && (Contains(hostLine, KEY_NAME) ==> hostLine[Find(hostLine, KEY_NAME, 0) + |KEY_NAME|..] == key)
  }

  /** The server extracts the client's key exactly when no earlier line hides it. */
  lemma {:induction false} KeyAgreementIff(host: seq<byte>, path: seq<byte>, nonce: seq<byte>)
    requires IsPlain(host) && IsPlain(path) && |nonce| == 16
    ensures var key := Base64.Encode(nonce);
            ExtractKey(Head(RequestLines(host, path, key))) == key <==> KeyComesFirst(host, path, key)
  {
    var key := Base64.Encode(nonce);
    KeyIsPlain(nonce);
    KeyNameIsPlain();
    KeyFoundByLine(host, path, key);
    if Contains(GetLine(path), KEY_NAME) {
      RequestLineHidesKey(path, key);
    }
  }

  lemma UpgradeInHead(lines: seq<seq<byte>>, j: nat)
    requires j < |lines| && lines[j] == UPGRADE
    ensures Contains(Head(lines), UPGRADE)
    decreases j
  {
    var l, tail := lines[0], Head(lines[1..]);
    if j == 0 {
      assert (l + CRLF + tail)[..|l|] == UPGRADE;
      FindSkipsNothing(Head(lines), UPGRADE, 0, 0);
    } else {
      UpgradeInHead(lines[1..], j - 1);
      FoundInLater(l, tail, UPGRADE);
      FindSkipsNothing(Head(lines), UPGRADE, 0, |l| + 2 + Find(tail, UPGRADE, 0));
    }
  }

  /** Handshake agreement: whatever the cut, the server's read of the client's request stops exactly
      at its end, leaving every frame byte unread, and finds the client's key, if and only if no earlier
      line hides the key and the request is at most 4097 bytes long. */
  lemma {:induction false} ServerWelcomesClient(
      host: seq<byte>, path: seq<byte>, nonce: seq<byte>, segs: Segments, frames: seq<byte>)
    requires IsPlain(host) && IsPlain(path) && |nonce| == 16
    ensures var key := Base64.Encode(nonce);
            var request, greeting := Head(RequestLines(host, path, key)), ServerGreets(segs);
            Flat(segs) == request + frames ==>
              (greeting.Welcome? && greeting.key == key && Flat(greeting.rest) == frames
               <==> KeyComesFirst(host, path, key) && |request| <= 4097)
  {
    var key := Base64.Encode(nonce);
    var lines := RequestLines(host, path, key);
    if Flat(segs) == Head(lines) + frames {
      KeyIsPlain(nonce);
      RequestIsPlain(host, path, key);
      assert Head(lines)[0..] == Head(lines) && Head(lines)[..0] == [];
      ReadHeadStopsAtBlank(segs, lines, 0, frames);
      KeyAgreementIff(host, path, nonce);
      UpgradeInHead(lines, 2);
    }
  }

  lemma {:induction false} OneMoreLine(l: seq<byte>, lines: seq<seq<byte>>)
    ensures |Head([l] + lines)| == |l| + 2 + |Head(lines)|
  {
    assert ([l] + lines)[1..] == lines;
  }

  lemma {:induction false} SixLines(a: seq<byte>, b: seq<byte>, c: seq<byte>, d: seq<byte>, e: seq<byte>, f: seq<byte>)
    ensures |Head([a, b, c, d, e, f])| == |a| + |b| + |c| + |d| + |e| + |f| + 14
  {
    OneMoreLine(a, [b, c, d, e, f]);
    OneMoreLine(b, [c, d, e, f]);
    OneMoreLine(c, [d, e, f]);
    OneMoreLine(d, [e, f]);
    OneMoreLine(e, [f]);
    OneMoreLine(f, []);
    assert [a] + [b, c, d, e, f] == [a, b, c, d, e, f] && [b] + [c, d, e, f] == [b, c, d, e, f];
    assert [c] + [d, e, f] == [c, d, e, f] && [d] + [e, f] == [d, e, f] && [e] + [f] == [e, f] && [f] + [] == [f];
  }

  lemma {:induction false} RequestSize(host: seq<byte>, path: seq<byte>, nonce: seq<byte>)
    requires |nonce| == 16
    ensures |Head(RequestLines(host, path, Base64.Encode(nonce)))| == 138 + |host| + |path|
  {
    var key := Base64.Encode(nonce);
    KeyIsPlain(nonce);
    SixLines(GetLine(path), HostLine(host), UPGRADE, CONNECTION, KEY_NAME + key, VERSION);
    assert |UPGRADE| == 18 && |CONNECTION| == 19 && |KEY_NAME| == 19 && |VERSION| == 25;
  }

  lemma {:induction false} LacksFirstByte(l: seq<byte>, pat: seq<byte>)
    requires pat != [] && pat[0] !in l
    ensures !Contains(l, pat)
  {
    forall i | 0 <= i < |l| ensures !OccursAt(l, pat, i) {
      if i + |pat| <= |l| { assert l[i..i + |pat|][0] == l[i]; }
    }
  }

  lemma {:induction false} ShortLinesLackKey(n: nat)
    ensures !Contains(GetLine([47]), KEY_NAME) && !Contains(HostLine(seq(n, _ => 97)), KEY_NAME)
  {
    KeyNameIsPlain();
    ShorterLineLacks(GetLine([47]), KEY_NAME);
    var name := Ascii("Host: ");
    assert forall i :: 0 <= i < 6 ==> name[i] != KEY_NAME[0];
    LacksFirstByte(HostLine(seq(n, _ => 97)), KEY_NAME);
  }

  /** Where the limit lies: with a host of `n` letters and the shortest path, the relay welcomes the
      client's request exactly when it has at most 4097 bytes, one more than the limit in the code. */
  lemma {:induction false} LongestRequest(n: nat, nonce: seq<byte>)
    requires |nonce| == 16
    ensures var request := Head(RequestLines(seq(n, _ => 97), [47], Base64.Encode(nonce)));
            var greeting := ServerGreets([request]);
            && |request| == 139 + n
            && (greeting.Welcome? && greeting.key == Base64.Encode(nonce) && Flat(greeting.rest) == []
                <==> n <= 3958)
  {
    var host, path, key := seq(n, _ => 97), [47], Base64.Encode(nonce);
    var request := Head(RequestLines(host, path, key));
    RequestSize(host, path, nonce);
    ShortLinesLackKey(n);
    assert Flat([request]) == request + [] == request;
    ServerWelcomesClient(host, path, nonce, [request], []);
  }

  /** A path that the relay mistakes: one that has the key header's name in it. Whatever the host and
      the nonce, the relay reads another key than the client's. */
  lemma {:induction false} PathHidesKey(host: seq<byte>, before: seq<byte>, after: seq<byte>, nonce: seq<byte>)
    requires IsPlain(host) && IsPlain(before) && IsPlain(after) && |nonce| == 16
    ensures var path, key := before + KEY_NAME + after, Base64.Encode(nonce);
            IsPlain(path) && ExtractKey(Head(RequestLines(host, path, key))) != key
  {
    var path, key := before + KEY_NAME + after, Base64.Encode(nonce);
    KeyNameIsPlain();
    PlainConcat(before, KEY_NAME);
    PlainConcat(before + KEY_NAME, after);
    var get, at := GetLine(path), 4 + |before|;
    assert get[at..at + |KEY_NAME|] == KEY_NAME;
    FindSkipsNothing(get, KEY_NAME, 0, at);
    KeyAgreementIff(host, path, nonce);
  }

  lemma StatusInHead(lines: seq<seq<byte>>)
    requires lines != [] && lines[0] == STATUS
    ensures Contains(Head(lines), Ascii("101"))
  {
    StatusIsPlain();
    FoundInFirst(STATUS, Head(lines[1..]), Ascii("101"));
    FindSkipsNothing(Head(lines), Ascii("101"), 0, Find(STATUS, Ascii("101"), 0));
  }

  lemma ResponseIsShort(accept: seq<byte>)
    requires |accept| <= 2048
    ensures |Head(ResponseLines(accept))| <= 4097
  {
    var last: seq<seq<byte>> := [ACCEPT_NAME + accept];
    var rest: seq<seq<byte>> := [CONNECTION, ACCEPT_NAME + accept];
    var more: seq<seq<byte>> := [UPGRADE, CONNECTION, ACCEPT_NAME + accept];
    assert |ACCEPT_NAME| == 22 && |CONNECTION| == 19 && |UPGRADE| == 18 && |STATUS| == 32;
    assert rest[1..] == last && more[1..] == rest && ResponseLines(accept)[1..] == more;
    assert Head(last[1..]) == CRLF;
    assert |Head(last)| == 22 + |accept| + 4;
    assert |Head(rest)| == 19 + 2 + |Head(last)|;
    assert |Head(more)| == 18 + 2 + |Head(rest)|;
  }

  /** The client looks for the text 101 in the block and nothing else: the accept key is not compared. For
      every block and cut it switches if and only if the block has at most 4097 bytes and that text in it;
      then it has read exactly the block. */
  lemma {:induction false} ClientSwitchesIff(lines: seq<seq<byte>>, segs: Segments, tail: seq<byte>)
    requires lines != [] && PlainLines(lines) && Flat(segs) == Head(lines) + tail
    ensures var greeting := ClientGreeted(segs);
            && (greeting.Switched? <==> |Head(lines)| <= 4097 && Contains(Head(lines), Ascii("101")))
            && (greeting.Switched? ==> Flat(greeting.rest) == tail)
  {
    assert Head(lines)[0..] == Head(lines) && Head(lines)[..0] == [];
    ReadHeadStopsAtBlank(segs, lines, 0, tail);
  }

  /** The client accepts the relay's response for any digest, and its read stops exactly at the end
      of the response. */
  lemma {:induction false} ClientAcceptsResponse(
      key: seq<byte>, sha1: seq<byte> -> seq<byte>, segs: Segments, frames: seq<byte>)
    requires |sha1(key + MAGIC)| == 20
    ensures Flat(segs) == Head(ResponseLines(AcceptKey(key, sha1))) + frames ==>
              ClientGreeted(segs).Switched? && Flat(ClientGreeted(segs).rest) == frames
  {
    var digest := sha1(key + MAGIC);
    var lines := ResponseLines(Base64.Encode(digest));
    if Flat(segs) == Head(lines) + frames {
      Base64.EncodeShape(digest);
      Base64IsPlain(digest);
      ResponseIsPlain(Base64.Encode(digest));
      ResponseIsShort(Base64.Encode(digest));
      StatusInHead(lines);
      ClientSwitchesIff(lines, segs, frames);
    }
  }

  lemma {:induction false} HeadOfTwo(first: seq<byte>, second: seq<byte>)
    ensures Head([first, second]) == first + CRLF + second + BLANK
  {
    var lines: seq<seq<byte>> := [first, second];
    var last: seq<seq<byte>> := [second];
    assert lines[1..] == last && last[1..] == [];
    assert Head(last) == second + CRLF + CRLF;
    assert BLANK == CRLF + CRLF;
  }

  /** In a line with the text 101 a 0 follows a 1. */
  lemma {:induction false} CodeNeedsOneZero(line: seq<byte>)
    requires Contains(line, Ascii("101"))
    ensures exists i :: 0 <= i < |line| - 1 && line[i] == 49 && line[i + 1] == 48
  {
    var code, i := Ascii("101"), Find(line, Ascii("101"), 0);
    assert line[i..i + 3] == code;
    assert line[i] == code[0] && line[i + 1] == code[1];
  }

  lemma {:induction false} NotInTwo(first: seq<byte>, second: seq<byte>, pat: seq<byte>)
    requires pat != [] && IsPlain(pat) && !Contains(first, pat) && !Contains(second, pat)
    ensures !Contains(Head([first, second]), pat)
  {
    var lines: seq<seq<byte>> := [first, second];
    var last: seq<seq<byte>> := [second];
    assert lines[1..] == last && last[1..] == [];
    FindIsByLines(lines, pat);
    assert FindInLines(last, pat) < 0;
  }

  lemma {:induction false} BadStatusHasNoCode()
    ensures BAD_STATUS != [] && !Contains(BAD_STATUS, Ascii("101"))
  {
    var text := "HTTP/1.1 400 Bad Request";
    assert forall i :: 0 <= i < 23 && text[i] == '1' ==> text[i + 1] != '0';
    assert forall i :: 0 <= i < 24 ==> BAD_STATUS[i] == text[i] as int % 256;
    if Contains(BAD_STATUS, Ascii("101")) { CodeNeedsOneZero(BAD_STATUS); }
  }

  lemma {:induction false} NoContentHasNoCode()
    ensures NO_CONTENT != [] && !Contains(NO_CONTENT, Ascii("101"))
  {
    assert forall i :: 0 <= i < 17 ==> NO_CONTENT[i] != 49;
    if Contains(NO_CONTENT, Ascii("101")) { CodeNeedsOneZero(NO_CONTENT); }
  }

  lemma {:induction false} RefusalIsPlain()
    ensures IsPlain(BAD_STATUS) && IsPlain(NO_CONTENT)
  {
    PrintableIsPlain("HTTP/1.1 400 Bad Request");
    PrintableIsPlain("Content-Length: 0");
  }

  /** The bytes the relay answers a request with. */
  function Reply(greeting: ServerGreeting, sha1: seq<byte> -> seq<byte>): seq<byte> {
    match greeting
    case Welcome(key, _) => Head(ResponseLines(AcceptKey(key, sha1)))
    case BadRequest => BAD_REQUEST
    case Dropped => []
  }

  lemma {:induction false} ClientRefuses(first: seq<byte>, second: seq<byte>, segs: Segments)
    requires IsPlain(first) && first != [] && IsPlain(second) && second != []
    requires !Contains(first, Ascii("101")) && !Contains(second, Ascii("101"))
    requires Flat(segs) == first + CRLF + second + BLANK
    ensures ClientGreeted(segs) == NotSwitched
  {
    var lines: seq<seq<byte>> := [first, second];
    HeadOfTwo(first, second);
    NotInTwo(first, second, Ascii("101"));
    assert Head(lines) + [] == Head(lines);
    ClientSwitchesIff(lines, segs, []);
  }

  lemma {:induction false} ClientRefusesRefusal(segs: Segments)
    requires Flat(segs) == BAD_REQUEST
    ensures ClientGreeted(segs) == NotSwitched
  {
    RefusalIsPlain();
    BadStatusHasNoCode();
    NoContentHasNoCode();
    ClientRefuses(BAD_STATUS, NO_CONTENT, segs);
  }

  /** Both ends agree on the outcome: whatever the relay was sent, and however its answer is cut, the client
      that receives the answer has switched if and only if the relay has, and then every byte the relay sends
      afterwards is still unread. */
  lemma {:induction false} BothEndsAgree(
      request: Segments, sha1: seq<byte> -> seq<byte>, answer: Segments, frames: seq<byte>)
    requires forall data :: |sha1(data)| == 20
    requires var greeting := ServerGreets(request);
             Flat(answer) == Reply(greeting, sha1) + if greeting.Welcome? then frames else []
    ensures ClientGreeted(answer).Switched? <==> ServerGreets(request).Welcome?
    ensures ClientGreeted(answer).Switched? ==> Flat(ClientGreeted(answer).rest) == frames
  {
    match ServerGreets(request)
    case Welcome(key, _) => ClientAcceptsResponse(key, sha1, answer, frames);
    case BadRequest =>
      assert BAD_REQUEST + [] == BAD_REQUEST;
      ClientRefusesRefusal(answer);
    case Dropped =>
      assert Flat(answer) == [];
      assert Recv(answer, 1).0 == [];
  }

  // ---------------------------------------------------------------- the bytes on the wire

  lemma {:induction false} HeadOfSix(a: seq<byte>, b: seq<byte>, c: seq<byte>, d: seq<byte>, e: seq<byte>, f: seq<byte>)
    ensures Head([a, b, c, d, e, f])
            == a + CRLF + (b + CRLF + (c + CRLF + (d + CRLF + (e + CRLF + (f + CRLF + CRLF)))))
  {
    var two: seq<seq<byte>> := [e, f];
    var four: seq<seq<byte>> := [c, d, e, f];
    var six: seq<seq<byte>> := [a, b, c, d, e, f];
    HeadOfPair(e, f, []);
    HeadOfPair(c, d, two);
    HeadOfPair(a, b, four);
    assert [] + two == two && [c, d] + two == four && [a, b] + four == six && [e, f] + [] == two;
  }

  lemma {:induction false} HeadOfPair(a: seq<byte>, b: seq<byte>, rest: seq<seq<byte>>)
    ensures Head([a, b] + rest) == a + CRLF + (b + CRLF + Head(rest))
  {
    var lines: seq<seq<byte>> := [a, b] + rest;
    assert lines[1..] == [b] + rest && lines[1..][1..] == rest;
    assert Head(lines[1..]) == b + CRLF + Head(rest);
  }

  /** The client's request, byte by byte. */
  lemma {:induction false} RequestOnWire(host: seq<byte>, path: seq<byte>, key: seq<byte>)
    ensures var end: seq<byte> := [13, 10];
            Head(RequestLines(host, path, key))
            == Ascii("GET ") + path + Ascii(" HTTP/1.1") + end
               + (Ascii("Host: ") + host + end
               + (Ascii("Upgrade: websocket") + end
               + (Ascii("Connection: Upgrade") + end
               + (Ascii("Sec-WebSocket-Key: ") + key + end
               + (Ascii("Sec-WebSocket-Version: 13") + end + end)))))
  {
    HeadOfSix(GetLine(path), HostLine(host), UPGRADE, CONNECTION, KEY_NAME + key, VERSION);
  }

  /** The relay's welcome, byte by byte, and what its accept key is the hash of. */
  lemma {:induction false} ResponseOnWire(key: seq<byte>, sha1: seq<byte> -> seq<byte>)
    ensures var end: seq<byte> := [13, 10];
            Head(ResponseLines(AcceptKey(key, sha1)))
            == Ascii("HTTP/1.1 101 Switching Protocols") + end
               + (Ascii("Upgrade: websocket") + end
               + (Ascii("Connection: Upgrade") + end
               + (Ascii("Sec-WebSocket-Accept: ")
                  + Base64.Encode(sha1(key + Ascii("258EAFA5-E914-47DA-95CA-C5AB0DC85B11"))) + end + end)))
  {
    var accept := ACCEPT_NAME + AcceptKey(key, sha1);
    var two: seq<seq<byte>> := [CONNECTION, accept];
    HeadOfPair(CONNECTION, accept, []);
    HeadOfPair(STATUS, UPGRADE, two);
    assert [CONNECTION, accept] + [] == two && [STATUS, UPGRADE] + two == ResponseLines(AcceptKey(key, sha1));
  }

  /** The relay's refusal, byte by byte. */
  lemma {:induction false} RefusalOnWire()
    ensures var end: seq<byte> := [13, 10];
            BAD_REQUEST == Ascii("HTTP/1.1 400 Bad Request") + end + Ascii("Content-Length: 0") + (end + end)
  {
  }

  /** How the relay answers any block of header lines: one that is too long is dropped; either spelling of the
      upgrade will do, and there must be a key. */
  lemma {:induction false} RelayGreetsIff(lines: seq<seq<byte>>, segs: Segments, tail: seq<byte>)
    requires lines != [] && PlainLines(lines) && Flat(segs) == Head(lines) + tail
    ensures var h, greeting := Head(lines), ServerGreets(segs);
            var upgrades := Contains(h, Ascii("Upgrade: websocket")) || Contains(h, Ascii("Upgrade: WebSocket"));
            if |h| > 4097 then greeting == Dropped
            else if upgrades && ExtractKey(h) != []
            then greeting.Welcome? && greeting.key == ExtractKey(h) && Flat(greeting.rest) == tail
            else greeting == BadRequest
  {
    assert Head(lines)[0..] == Head(lines) && Head(lines)[..0] == [];
    ReadHeadStopsAtBlank(segs, lines, 0, tail);
  }

  /** A key header without a space after its colon is found too, but the first character of the key is lost. */
  lemma {:induction false} BareKeyLosesOne(before: seq<byte>, c: byte, value: seq<byte>, after: seq<byte>)
    requires IsPlain(value)
    ensures var h := before + Ascii("Sec-WebSocket-Key:") + ([c] + value + CRLF + after);
            Find(h, Ascii("Sec-WebSocket-Key:"), 0) == |before| && !Contains(h, Ascii("Sec-WebSocket-Key: "))
            ==> ExtractKey(h) == value
  {
    var h := before + KEY_NAME_BARE + ([c] + value + CRLF + after);
    var pos := |before| + 19;
    assert h == (before + KEY_NAME_BARE + [c]) + (value + (CRLF + after));
    assert |before + KEY_NAME_BARE + [c]| == pos;
    ValueEnds(before + KEY_NAME_BARE + [c], value, after);
  }

  lemma {:induction false} BreakBegins(h: seq<byte>, i: nat)
    ensures OccursAt(h, CRLF, i) ==> h[i] == CR
  {
    if OccursAt(h, CRLF, i) { assert h[i..i + 2][0] == h[i]; }
  }

  lemma {:induction false} ValueEnds(front: seq<byte>, value: seq<byte>, after: seq<byte>)
    requires IsPlain(value)
    ensures var h := front + (value + (CRLF + after));
            Find(h, CRLF, |front|) == |front| + |value| && h[|front|..|front| + |value|] == value
  {
    var h, k := front + (value + (CRLF + after)), |front| + |value|;
    forall i | |front| <= i < k
      ensures !OccursAt(h, CRLF, i)
    {
      assert h[i] == value[i - |front|];
      BreakBegins(h, i);
    }
    assert h[k..k + 2] == CRLF;
    FindIs(h, CRLF, |front|, k);
  }
}
