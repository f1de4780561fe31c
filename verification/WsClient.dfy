/** The client's end of a connection. */
module WsClient {
  import opened Basics
  import opened Bytes
  import opened Frames
  import opened Streams
  import opened Segmentation
  import opened Messages
  import opened Handshake
  import Base64
  import Text

  /** What a client has shown to the outside: texts delivered, bytes sent, the masks drawn for them,
      and calls of the close callback. */
  datatype Effects = Effects(delivered: seq<seq<byte>>, outgoing: seq<byte>, masks: seq<Masking>, closes: nat)

  function Closes(actions: seq<Action>): nat {
    if actions == [] then 0 else (if actions[0].NotifyClosed? then 1 else 0) + Closes(actions[1..])
  }

  lemma {:induction false} ClosesConcat(a: seq<Action>, b: seq<Action>)
    ensures Closes(a + b) == Closes(a) + Closes(b)
  {
    if a == [] {
      assert a + b == b;
    } else {
      assert (a + b)[1..] == a[1..] + b;
      ClosesConcat(a[1..], b);
    }
  }

  /** Between `before` and `after`, exactly the texts of `actions` were delivered, exactly its frames
      were sent, each under a mask drawn for it, and the close callback ran as often as it says. */
  ghost predicate Did(before: Effects, after: Effects, actions: seq<Action>) {
    && AllSendable(Replies(actions))
    && after.delivered == before.delivered + Texts(actions)
    && |after.masks| == |before.masks| + |Replies(actions)|
    && before.masks == after.masks[..|before.masks|]
    && after.outgoing == before.outgoing + EncodeAll(Replies(actions), after.masks[|before.masks|..])
    && after.closes == before.closes + Closes(actions)
  }

  lemma DidNothing(e: Effects)
    ensures Did(e, e, [])
  {
    assert e.delivered + [] == e.delivered && e.outgoing + [] == e.outgoing;
  }

  lemma DidDeliver(before: Effects, now: Effects, done: seq<Action>, text: seq<byte>)
    requires Did(before, now, done)
    ensures Did(before, now.(delivered := now.delivered + [text]), done + [Deliver(text)])
  {
    var more := [Deliver(text)];
    assert more[1..] == [];
    TextsConcat(done, more);
    RepliesConcat(done, more);
    ClosesConcat(done, more);
    Associates(before.delivered, Texts(done), [text]);
    assert Replies(done) + [] == Replies(done);
  }

  lemma DidClose(before: Effects, now: Effects, done: seq<Action>)
    requires Did(before, now, done)
    ensures Did(before, now.(closes := now.closes + 1), done + [NotifyClosed])
  {
    var more := [NotifyClosed];
    assert more[1..] == [];
    TextsConcat(done, more);
    RepliesConcat(done, more);
    ClosesConcat(done, more);
    assert Replies(done) + [] == Replies(done) && Texts(done) + [] == Texts(done);
  }

  lemma BytesSent(o: seq<byte>, sent: seq<Frame>, old': seq<Masking>, masks: seq<Masking>, f: Frame, m: Masking)
    requires AllSendable(sent) && f.Sendable() && |masks| == |old'| + |sent|
    ensures o + EncodeAll(sent, masks[|old'|..]) + Encode(f, m)
            == o + EncodeAll(sent + [f], (masks + [m])[|old'|..])
  {
    var drawn := masks[|old'|..];
    assert (masks + [m])[|old'|..] == drawn + [m];
    EncodeAllAppend(sent, drawn, f, m);
    Associates(o, EncodeAll(sent, drawn), Encode(f, m));
  }

  lemma {:induction false} DidSend(before: Effects, now: Effects, done: seq<Action>, f: Frame, m: Masking)
    requires Did(before, now, done) && f.Sendable()
    ensures Did(before, now.(outgoing := now.outgoing + Encode(f, m), masks := now.masks + [m]), done + [Send(f)])
  {
    var more := [Send(f)];
    assert more[1..] == [];
    TextsConcat(done, more);
    RepliesConcat(done, more);
    ClosesConcat(done, more);
    assert Texts(done) + [] == Texts(done);
    assert Replies(done + more) == Replies(done) + [f] by { assert Replies(more) == [f]; }
    BytesSent(before.outgoing, Replies(done), before.masks, now.masks, f, m);
    assert (now.masks + [m])[..|before.masks|] == before.masks;
  }

  lemma {:induction false} ClientLoopStep(segs: Segments, f: Frame, rest: Segments)
    requires SameReading(ReadFrame(Exact, segs), Read(f, rest))
    ensures ClientLoop(segs) == if f.opcode == CLOSE then React(f) + [NotifyClosed] else React(f) + ClientLoop(rest)
    ensures |Flat(rest)| < |Flat(segs)|
  {
    ClientIgnoresSegmentation(ReadFrame(Exact, segs).rest, rest);
  }

  datatype FrameStatus = GotFrame | ShortHeader | ShortField

  class WsClient {
    var incoming: Segments
    var outgoing: seq<byte>
    var running: bool
    var connected: bool
    var delivered: seq<seq<byte>>
    var closes: nat
    ghost var masks: seq<Masking>

    ghost function Shown(): Effects
      reads this
    {
      Effects(delivered, outgoing, masks, closes)
    }

    constructor (stream: Segments)
      ensures incoming == stream && Shown() == Effects([], [], [], 0)
      ensures !running && !connected
    {
      incoming, outgoing, delivered, masks, closes := stream, [], [], [], 0;
      running, connected := false, false;
    }

    /** Reads exactly `len` bytes, in as many `recv` calls as it takes. */
    method RawRecv(len: nat) returns (buf: seq<byte>, ok: bool)
      modifies this`incoming
      ensures buf == Gather(old(incoming), len).0
      ensures Flat(incoming) == Flat(Gather(old(incoming), len).1)
      ensures ok <==> |buf| == len
    {
      GatherSeesBytes(incoming, len);
      ghost var bytes := Flat(incoming);
      buf := [];
      while |buf| < len
        invariant |buf| <= len
        invariant buf + Flat(incoming) == bytes
        decreases len - |buf|
      {
        var (got, rest) := Recv(incoming, len - |buf|);
        Associates(buf, got, Flat(rest));
        incoming := rest;
        if got == [] {
          assert buf == bytes;
          return buf, false;
        }
        buf := buf + got;
      }
      assert bytes[..len] == buf && bytes[len..] == Flat(incoming);
      return buf, true;
    }

    /** Sends one frame under a mask drawn for it. */
    method WsSendFrame(opcode: Opcode, payload: seq<byte>) returns (ghost masking: Masking)
      requires |payload| < 0x1_0000_0000_0000_0000
      modifies this`outgoing, this`masks
      ensures masking.Masked? && masks == old(masks) + [masking]
      ensures outgoing == old(outgoing) + Encode(Frame(opcode, payload), masking)
    {
      var m0: byte, m1: byte, m2: byte, m3: byte := *, *, *, *;
      var mask: Mask := [m0, m1, m2, m3];
      var frame := EncodeClientFrame(opcode, payload, mask);
      outgoing := outgoing + frame;
      masking := Masked(mask);
      masks := masks + [masking];
    }

    method SendText(message: seq<byte>) returns (ghost masking: Masking)
      requires |message| < 0x1_0000_0000_0000_0000
      modifies this`outgoing, this`masks
      ensures masking.Masked? && masks == old(masks) + [masking]
      ensures outgoing == old(outgoing) + Encode(Frame(TEXT, message), masking)
    {
      masking := WsSendFrame(TEXT, message);
    }

    method ReadLengthField(len7: nat) returns (len: nat, ok: bool)
      requires len7 < 128
      modifies this`incoming
      ensures var n := ExtendedSize(len7);
              if n == 0 then ok && len == AnnouncedLength(len7, []) && incoming == old(incoming)
              else
                && (ok <==> |Gather(old(incoming), n).0| == n)
                && Flat(incoming) == Flat(Gather(old(incoming), n).1)
                && (ok ==> len == AnnouncedLength(len7, Gather(old(incoming), n).0))
      ensures ok ==> len < 0x1_0000_0000_0000_0000
    {
      len, ok := len7, true;
      if len7 == 126 {
        var ext, got := RawRecv(2);
        if !got || |ext| < 2 { return len7, false; }
        len := FoldTwo(ext);
      } else if len7 == 127 {
        var ext, got := RawRecv(8);
        if !got || |ext| < 8 { return len7, false; }
        len := FoldLength(ext);
      }
    }

    /** One chunk of a payload, into a buffer filled up to `totalRead`. */
    method ReadChunk(payload: array<byte>, totalRead: nat, ghost bytes: seq<byte>) returns (n: nat, ok: bool)
      requires totalRead < payload.Length && Filling(payload[..], totalRead, Flat(incoming), bytes)
      modifies this`incoming, payload
      ensures totalRead + n <= payload.Length && Filling(payload[..], totalRead + n, Flat(incoming), bytes)
      ensures ok ==> n > 0
      ensures !ok ==> Flat(incoming) == []
    {
      ghost var b := payload[..];
      var chunk := if payload.Length - totalRead < 4096 then payload.Length - totalRead else 4096;
      GatherSeesBytes(incoming, chunk);
      var got;
      got, ok := RawRecv(chunk);
      n := |got|;
      CopyInto(payload, totalRead, got);
      ZerosAfter(b, totalRead, n);
      FillingStep(b, payload[..], totalRead, got, Flat(incoming), bytes);
    }

    /** The payload, read in chunks of at most 4096 bytes, each of them exactly. */
    method ReadPayload(len: nat) returns (payload: array<byte>)
      modifies this`incoming
      ensures fresh(payload) && payload.Length == len
      ensures var (got, rest) := Gather(old(incoming), len);
              payload[..] == got + Zeros(len - |got|) && Flat(incoming) == Flat(rest)
    {
      payload := new byte[len](_ => 0);
      ghost var bytes := Flat(incoming);
      GatherSeesBytes(incoming, len);
      assert payload[..] == Zeros(len);
      var totalRead := 0;
      var ok := true;
      while totalRead < len && ok
        invariant 0 <= totalRead <= len && fresh(payload)
        invariant Filling(payload[..], totalRead, Flat(incoming), bytes)
        invariant !ok ==> Flat(incoming) == []
        decreases ok, len - totalRead
      {
        var n;
        n, ok := ReadChunk(payload, totalRead, bytes);
        totalRead := totalRead + n;
      }
      FillingEnd(payload[..], totalRead, Flat(incoming), bytes);
    }

    method ReadMaskedBody(hdr: seq<byte>, len: nat) returns (payload: seq<byte>, ok: bool)
      requires |hdr| == 2
      modifies this`incoming
      ensures var r := ReadMask(Exact, hdr, len, old(incoming));
              if ok then SameReading(r, Read(Frame(hdr[0] % 16, payload), incoming)) && |payload| == len
              else r == Broken(false)
    {
      ghost var segs := incoming;
      var masked := hdr[1] >= 128;
      var mask: seq<byte> := [0, 0, 0, 0];
      if masked {
        var got;
        mask, got := RawRecv(4);
        if !got || |mask| < 4 { return [], false; }
        BodySeesBytes(hdr[0], len, Masked(mask), Gather(segs, 4).1, incoming);
      }
      var buffer := ReadPayload(len);
      if masked {
        XorInPlace(buffer, mask);
      }
      return buffer[..], true;
    }

    method ReadOneFrame() returns (opcode: Opcode, payload: seq<byte>, status: FrameStatus)
      modifies this`incoming
      ensures var r := ReadFrame(Exact, old(incoming));
              match status
              case GotFrame =>
                SameReading(r, Read(Frame(opcode, payload), incoming)) && |payload| < 0x1_0000_0000_0000_0000
              case ShortHeader => r == Broken(true)
              case ShortField => r == Broken(false)
    {
      opcode, payload := 0, [];
      ghost var segs := incoming;
      var hdr, got := RawRecv(2);
      if !got || |hdr| < 2 { return opcode, payload, ShortHeader; }
      ghost var afterHeader, s1 := Gather(segs, 2).1, incoming;
      LengthSeesBytes(hdr, afterHeader, s1);
      opcode := hdr[0] % 16;
      var len, complete := ReadLengthField(hdr[1] % 128);
      if !complete { return opcode, payload, ShortField; }
      ghost var s2 := incoming;
      ghost var n := ExtendedSize(hdr[1] % 128);
      MaskSeesBytes(hdr, len, if n == 0 then s1 else Gather(s1, n).1, s2);
      var ok;
      payload, ok := ReadMaskedBody(hdr, len);
      status := if ok then GotFrame else ShortField;
    }

    method Answer(f: Frame, ghost before: Effects, ghost done: seq<Action>)
      requires f.Sendable() && Did(before, Shown(), done)
      modifies this`outgoing, this`masks
      ensures Did(before, Shown(), done + [Send(f)])
    {
      ghost var now := Shown();
      ghost var masking := WsSendFrame(f.opcode, f.payload);
      DidSend(before, now, done, f, masking);
      assert Shown() == now.(outgoing := now.outgoing + Encode(f, masking), masks := now.masks + [masking]);
    }

    method Deliver(text: seq<byte>, ghost before: Effects, ghost done: seq<Action>)
      requires Did(before, Shown(), done)
      modifies this`delivered
      ensures Did(before, Shown(), done + [Action.Deliver(text)])
    {
      DidDeliver(before, Shown(), done, text);
      delivered := delivered + [text];
    }

    method ReportClosed(ghost before: Effects, ghost done: seq<Action>)
      requires Did(before, Shown(), done)
      modifies this`connected, this`closes
      ensures Did(before, Shown(), done + [NotifyClosed])
      ensures !connected && closes == old(closes) + 1
    {
      DidClose(before, Shown(), done);
      connected := false;
      closes := closes + 1;
    }

    /** What the loop does with one frame; `stop` after a close. */
    method Dispatch(opcode: Opcode, payload: seq<byte>, ghost before: Effects, ghost done: seq<Action>)
      returns (stop: bool)
      requires |payload| < 0x1_0000_0000_0000_0000
      requires Did(before, Shown(), done)
      modifies this`outgoing, this`delivered, this`masks, this`closes, this`connected
      ensures stop <==> opcode == CLOSE
      ensures if stop then !connected && closes == old(closes) + 1
              else connected == old(connected) && closes == old(closes)
      ensures Did(before, Shown(), if stop then done + React(Frame(opcode, payload)) + [NotifyClosed]
                                   else done + React(Frame(opcode, payload)))
    {
      if opcode == TEXT {
        Deliver(payload, before, done);
        return false;
      } else if opcode == CLOSE {
        Answer(Frame(CLOSE, []), before, done);
        ReportClosed(before, done + [Send(Frame(CLOSE, []))]);
        return true;
      } else if opcode == PING {
        Answer(Frame(PONG, payload), before, done);
        return false;
      }
      assert done + [] == done;
      return false;
    }

    /** One iteration of the receive loop: `all` is what the whole loop is to do, `done` what it has
        done so far. */
    method RecvOne(ghost before: Effects, ghost done: seq<Action>, ghost all: seq<Action>)
      returns (stop: bool, ghost done': seq<Action>)
      requires connected && closes == before.closes && Did(before, Shown(), done)
      requires done + ClientLoop(incoming) == all
      modifies this`incoming, this`outgoing, this`delivered, this`masks, this`closes, this`connected
      ensures Did(before, Shown(), done')
      ensures if stop then done' == all else done' + ClientLoop(incoming) == all && connected
      ensures connected <==> closes == before.closes
      ensures !stop ==> |Flat(incoming)| < |Flat(old(incoming))|
    {
      ghost var segs := incoming;
      var opcode, payload, status := ReadOneFrame();
      if status == ShortHeader {
        ReportClosed(before, done);
        return true, done + [NotifyClosed];
      }
      if status == ShortField {
        assert done + [] == done;
        return true, done;
      }
      ghost var f := Frame(opcode, payload);
      ClientLoopStep(segs, f, incoming);
      Associates(done, React(f), ClientLoop(incoming));
      Associates(done, React(f), [NotifyClosed]);
      stop := Dispatch(opcode, payload, before, done);
      done' := if stop then done + React(f) + [NotifyClosed] else done + React(f);
    }

    /** The receive loop of a connected client. */
    method RecvLoop()
      requires running && connected
      modifies this`incoming, this`outgoing, this`delivered, this`masks, this`closes, this`connected
      ensures Did(old(Shown()), Shown(), ClientLoop(old(incoming)))
      ensures connected <==> closes == old(closes)
    {
      ghost var before, all := Shown(), ClientLoop(incoming);
      ghost var done: seq<Action> := [];
      DidNothing(before);
      var stop := false;
      while running && !stop
        invariant Did(before, Shown(), done)
        invariant if stop then done == all else done + ClientLoop(incoming) == all && connected
        invariant connected <==> closes == before.closes
        decreases !stop, |Flat(incoming)|
      {
        stop, done := RecvOne(before, done, all);
      }
    }

    method ReadResponse() returns (resp: seq<byte>, ok: bool)
      modifies this`incoming
      ensures SameHead(if ok then Complete(resp, incoming) else Refused, ReadHead(old(incoming), []))
    {
      resp, ok := [], true;
      while ok
        invariant ok && SameHead(ReadHead(incoming, resp), ReadHead(old(incoming), []))
        decreases |Flat(incoming)|
      {
        OneByte(incoming);
        ghost var segs := incoming;
        var c, got := RawRecv(1);
        HeadStep(segs, c, incoming, resp);
        if !got { return resp, false; }
        resp := resp + c;
        if EndsInBlank(resp) { return resp, true; }
        if |resp| > 4096 { return resp, false; }
      }
    }

    /** Sends the upgrade request with a fresh key and reads the response. */
    method WsHandshake(host: seq<byte>, path: seq<byte>, nonce: seq<byte>) returns (ok: bool)
      requires |nonce| == 16
      modifies this`incoming, this`outgoing
      ensures outgoing == old(outgoing) + Head(RequestLines(host, path, Base64.Encode(nonce)))
      ensures match ClientGreeted(old(incoming))
              case NotSwitched => !ok
              case Switched(rest) => ok && Flat(incoming) == Flat(rest)
    {
      var keyB64 := Base64.EncodeLoop(nonce);
      outgoing := outgoing + Head(RequestLines(host, path, keyB64));
      var resp, complete := ReadResponse();
      if !complete { return false; }
      return Text.Contains(resp, Ascii("101"));
    }
  }

  ghost predicate SameHead(a: HeadRead, b: HeadRead) {
    match a
    case Refused => b.Refused?
    case Complete(head, rest) => b.Complete? && b.head == head && Flat(b.rest) == Flat(rest)
  }

  lemma OneByte(segs: Segments)
    ensures Gather(segs, 1).0 == Recv(segs, 1).0 && Flat(Gather(segs, 1).1) == Flat(Recv(segs, 1).1)
  {
    GatherSeesBytes(segs, 1);
    var (got, rest) := Recv(segs, 1);
    assert Flat(segs)[..|got|] == got && Flat(segs)[|got|..] == Flat(rest);
  }

  /** Reading a header block byte by byte depends on the bytes only. */
  lemma {:induction false} HeadSeesBytes(s1: Segments, s2: Segments, acc: seq<byte>)
    requires Flat(s1) == Flat(s2)
    ensures SameHead(ReadHead(s1, acc), ReadHead(s2, acc))
    decreases |Flat(s1)|
  {
    OneByte(s1);
    OneByte(s2);
    GatherSeesBytes(s1, 1);
    GatherSeesBytes(s2, 1);
    var c := Recv(s1, 1).0;
    if c != [] && !EndsInBlank(acc + c) && |acc + c| <= 4096 {
      HeadSeesBytes(Recv(s1, 1).1, Recv(s2, 1).1, acc + c);
    }
  }

  lemma {:induction false} HeadStep(segs: Segments, c: seq<byte>, rest: Segments, acc: seq<byte>)
    requires c == Recv(segs, 1).0 && Flat(rest) == Flat(Recv(segs, 1).1)
    ensures c != [] ==> |Flat(rest)| < |Flat(segs)|
    ensures SameHead(if c == [] then Refused
                     else if EndsInBlank(acc + c) then Complete(acc + c, rest)
                     else if |acc + c| > 4096 then Refused
                     else ReadHead(rest, acc + c),
                     ReadHead(segs, acc))
  {
    HeadSeesBytes(rest, Recv(segs, 1).1, acc + c);
  }

  /** A buffer that holds the first `t` of the stream's `bytes` and zeros, with `rest` left to read. */
  ghost predicate Filling(b: seq<byte>, t: nat, rest: seq<byte>, bytes: seq<byte>) {
    t <= |b| && b[t..] == Zeros(|b| - t) && b[..t] + rest == bytes
  }

  lemma FillingStep(b: seq<byte>, b': seq<byte>, t: nat, got: seq<byte>, rest: seq<byte>, bytes: seq<byte>)
    requires t + |got| <= |b| && Filling(b, t, got + rest, bytes)
    requires b' == b[..t] + got + Zeros(|b| - t - |got|)
    ensures Filling(b', t + |got|, rest, bytes)
  {
    assert b'[..t + |got|] == b[..t] + got;
    Associates(b[..t], got, rest);
  }

  lemma FillingEnd(b: seq<byte>, t: nat, rest: seq<byte>, bytes: seq<byte>)
    requires Filling(b, t, rest, bytes) && (t == |b| || rest == [])
    ensures var k := if |b| < |bytes| then |b| else |bytes|;
            k == t && b == bytes[..k] + Zeros(|b| - k) && rest == bytes[k..]
  {
    assert b == b[..t] + b[t..];
    assert bytes[..t] == b[..t] && bytes[t..] == rest;
  }

}
