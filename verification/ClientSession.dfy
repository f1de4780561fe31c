/** The relay's end of a connection. */
module ClientSession {
  import opened Basics
  import opened Bytes
  import opened Frames
  import opened Streams
  import opened Handshake
  import opened Segmentation
  import opened Messages
  import Base64
  import Text

  function AllUnmasked(n: nat): seq<Masking> {
    seq(n, _ => Unmasked)
  }

  /** The bytes of frames that the server sends. */
  function Wire(frames: seq<Frame>): seq<byte>
    requires AllSendable(frames)
  {
    EncodeAll(frames, AllUnmasked(|frames|))
  }

  lemma WireAppend(frames: seq<Frame>, f: Frame)
    requires AllSendable(frames) && f.Sendable()
    ensures Wire(frames + [f]) == Wire(frames) + Encode(f, Unmasked)
  {
    EncodeAllAppend(frames, AllUnmasked(|frames|), f, Unmasked);
    assert AllUnmasked(|frames| + 1) == AllUnmasked(|frames|) + [Unmasked];
  }

  /** `done`, continued by gathering `n` more bytes of `segs`, is `whole`. */
  ghost predicate Continues(done: seq<byte>, segs: Segments, n: nat, whole: (seq<byte>, Segments)) {
    whole.0 == done + Gather(segs, n).0 && whole.1 == Gather(segs, n).1
  }

  /** One more read of a payload loop. */
  lemma GatherStep(done: seq<byte>, segs: Segments, n: nat, whole: (seq<byte>, Segments))
    requires n > 0 && Continues(done, segs, n, whole)
    ensures var (got, rest) := Recv(segs, if n < 4096 then n else 4096);
            if got == [] then whole == (done, rest) else Continues(done + got, rest, n - |got|, whole)
  {
    var (got, rest) := Recv(segs, if n < 4096 then n else 4096);
    if got == [] {
      assert Gather(segs, n) == ([], rest) && done + [] == done;
    } else {
      Associates(done, got, Gather(rest, n - |got|).0);
    }
  }

  /** A buffer filled up to `t`, with `segs` left to read; a complete fill would be `whole`. */
  ghost predicate Filling(b: seq<byte>, t: nat, segs: Segments, whole: (seq<byte>, Segments)) {
    && t <= |b| && b[t..] == Zeros(|b| - t)
    && Continues(b[..t], segs, |b| - t, whole)
  }

  ghost predicate Filled(b: seq<byte>, segs: Segments, whole: (seq<byte>, Segments)) {
    |whole.0| <= |b| && b == whole.0 + Zeros(|b| - |whole.0|) && segs == whole.1
  }

  lemma FillingStep(b: seq<byte>, t: nat, segs: Segments, whole: (seq<byte>, Segments), b': seq<byte>)
    requires t < |b| && Filling(b, t, segs, whole)
    requires var room := |b| - t;
             var got := Recv(segs, if room < 4096 then room else 4096).0;
             b' == b[..t] + got + Zeros(room - |got|)
    ensures var room := |b| - t;
            var (got, rest) := Recv(segs, if room < 4096 then room else 4096);
            if got == [] then Filled(b', rest, whole) else Filling(b', t + |got|, rest, whole)
  {
    var room := |b| - t;
    var (got, rest) := Recv(segs, if room < 4096 then room else 4096);
    GatherStep(b[..t], segs, room, whole);
    if got != [] {
      assert b'[..t + |got|] == b[..t] + got;
    }
  }

  lemma FillingEnd(b: seq<byte>, segs: Segments, whole: (seq<byte>, Segments))
    requires Filling(b, |b|, segs, whole)
    ensures Filled(b, segs, whole)
  {
    assert b[..|b|] + [] == b;
  }

  class ClientSession {
    var incoming: Segments
    var outgoing: seq<byte>
    var running: bool
    var handshakeDone: bool
    var delivered: seq<seq<byte>>

    constructor (stream: Segments)
      ensures incoming == stream && outgoing == [] && delivered == []
      ensures !running && !handshakeDone
    {
      incoming, outgoing, delivered := stream, [], [];
      running, handshakeDone := false, false;
    }

    method RecvRaw(len: nat) returns (buf: seq<byte>, ok: bool)
      modifies this`incoming
      ensures (buf, incoming) == Recv(old(incoming), len)
      ensures ok == (buf != [])
    {
      var (got, rest) := Recv(incoming, len);
      buf, incoming := got, rest;
      ok := buf != [];
    }

    method SendRaw(data: seq<byte>)
      modifies this`outgoing
      ensures outgoing == old(outgoing) + data
    {
      outgoing := outgoing + data;
    }

    method WsSendFrame(opcode: Opcode, payload: seq<byte>)
      requires |payload| < 0x1_0000_0000_0000_0000
      modifies this`outgoing
      ensures outgoing == old(outgoing) + Encode(Frame(opcode, payload), Unmasked)
    {
      var frame := EncodeServerFrame(opcode, payload);
      SendRaw(frame);
    }

    method SendWsText(message: seq<byte>)
      requires |message| < 0x1_0000_0000_0000_0000
      modifies this`outgoing
      ensures outgoing == old(outgoing)
              + if handshakeDone && running then Encode(Frame(TEXT, message), Unmasked) else []
    {
      if handshakeDone && running {
        WsSendFrame(TEXT, message);
      }
    }

    /** One read of at most 4096 bytes into a buffer filled up to `totalRead`. */
    method ReadChunk(payload: array<byte>, totalRead: nat, ghost whole: (seq<byte>, Segments)) returns (n: nat)
      requires totalRead < payload.Length && Filling(payload[..], totalRead, incoming, whole)
      modifies this`incoming, payload
      ensures totalRead + n <= payload.Length
      ensures if n == 0 then Filled(payload[..], incoming, whole)
              else Filling(payload[..], totalRead + n, incoming, whole)
    {
      ghost var b, segs := payload[..], incoming;
      var chunk := if payload.Length - totalRead < 4096 then payload.Length - totalRead else 4096;
      var got, _ := RecvRaw(chunk);
      n := |got|;
      CopyInto(payload, totalRead, got);
      ZerosAfter(b, totalRead, n);
      FillingStep(b, totalRead, segs, whole, payload[..]);
    }

    /** Fills a zeroed buffer of `len` bytes from as many reads as it takes, or as the stream allows. */
    method ReadPayload(len: nat) returns (payload: array<byte>)
      modifies this`incoming
      ensures fresh(payload) && payload.Length == len
      ensures Filled(payload[..], incoming, Gather(old(incoming), len))
    {
      payload := new byte[len](_ => 0);
      ghost var whole := Gather(incoming, len);
      assert payload[..] == Zeros(len);
      var totalRead := 0;
      while totalRead < len
        invariant totalRead <= len && fresh(payload)
        invariant Filling(payload[..], totalRead, incoming, whole)
        decreases len - totalRead
      {
        var n := ReadChunk(payload, totalRead, whole);
        if n == 0 { return; }
        totalRead := totalRead + n;
      }
      FillingEnd(payload[..], incoming, whole);
    }

    method ReadLengthField(len7: nat) returns (len: nat, ok: bool)
      requires len7 < 128
      modifies this`incoming
      ensures var n := ExtendedSize(len7);
              if n == 0 then ok && len == AnnouncedLength(len7, []) && incoming == old(incoming)
              else
                && (ok <==> |Recv(old(incoming), n).0| == n)
                && incoming == Recv(old(incoming), n).1
                && (ok ==> len == AnnouncedLength(len7, Recv(old(incoming), n).0))
      ensures ok ==> len < 0x1_0000_0000_0000_0000
    {
      len, ok := len7, true;
      if len7 == 126 {
        var ext, got := RecvRaw(2);
        if !got || |ext| < 2 { return len7, false; }
        len := FoldTwo(ext);
      } else if len7 == 127 {
        var ext, got := RecvRaw(8);
        if !got || |ext| < 8 { return len7, false; }
        len := FoldLength(ext);
      }
    }

    method ReadMaskedBody(hdr: seq<byte>, len: nat) returns (payload: seq<byte>, ok: bool)
      requires |hdr| == 2
      modifies this`incoming
      ensures var r := ReadMask(OneRecv, hdr, len, old(incoming));
              if ok then r == Read(Frame(hdr[0] % 16, payload), incoming) && |payload| == len else r.Broken?
    {
      var masked := hdr[1] >= 128;
      var mask: seq<byte> := [0, 0, 0, 0];
      if masked {
        var got;
        mask, got := RecvRaw(4);
        if !got || |mask| < 4 { return [], false; }
      }
      var buffer := ReadPayload(len);
      if masked {
        XorInPlace(buffer, mask);
      }
      return buffer[..], true;
    }

    /** One iteration of the read loop up to its dispatch: `ok` is false when a field came back short. */
    method ReadOneFrame() returns (opcode: Opcode, payload: seq<byte>, ok: bool)
      modifies this`incoming
      ensures var r := ReadFrame(OneRecv, old(incoming));
              if ok then r == Read(Frame(opcode, payload), incoming) && |payload| < 0x1_0000_0000_0000_0000
              else r.Broken?
    {
      opcode, payload := 0, [];
      var hdr, got := RecvRaw(2);
      if !got || |hdr| < 2 { return opcode, payload, false; }
      opcode := hdr[0] % 16;
      var len, complete := ReadLengthField(hdr[1] % 128);
      if !complete { return opcode, payload, false; }
      payload, ok := ReadMaskedBody(hdr, len);
    }

    /** What the loop does with one frame; `stop` after a close. */
    method Dispatch(opcode: Opcode, payload: seq<byte>, ghost before: Effects, ghost done: seq<Action>)
      returns (stop: bool)
      requires |payload| < 0x1_0000_0000_0000_0000
      requires Did(before, Effects(delivered, outgoing), done)
      modifies this`outgoing, this`delivered
      ensures Did(before, Effects(delivered, outgoing), done + React(Frame(opcode, payload)))
      ensures stop <==> opcode == CLOSE
    {
      ghost var now := Effects(delivered, outgoing);
      stop := false;
      if opcode == TEXT {
        delivered := delivered + [payload];
      } else if opcode == CLOSE {
        WsSendFrame(CLOSE, []);
        stop := true;
      } else if opcode == PING {
        WsSendFrame(PONG, payload);
      }
      assert delivered == now.delivered + TextOf(Frame(opcode, payload));
      assert outgoing == now.outgoing + AnswerBytes(Frame(opcode, payload));
      DidMore(before, now, done, Frame(opcode, payload), Effects(delivered, outgoing));
    }

    /** One iteration of the read loop: `all` is what the whole loop is to do, `done` what it has done
        so far. */
    method ReadOne(ghost before: Effects, ghost done: seq<Action>, ghost all: seq<Action>)
      returns (stop: bool, ghost done': seq<Action>)
      requires Did(before, Effects(delivered, outgoing), done)
      requires done + ServerLoop(incoming) == all
      modifies this`incoming, this`outgoing, this`delivered
      ensures Did(before, Effects(delivered, outgoing), done')
      ensures if stop then done' == all else done' + ServerLoop(incoming) == all
      ensures !stop ==> |Flat(incoming)| < |Flat(old(incoming))|
    {
      ghost var segs := incoming;
      var opcode, payload, ok := ReadOneFrame();
      if !ok {
        assert done + [] == done;
        return true, done;
      }
      LoopStep(done, segs, Frame(opcode, payload), incoming);
      stop := Dispatch(opcode, payload, before, done);
      done' := done + React(Frame(opcode, payload));
    }

    /** The read loop: delivers texts, answers pings, and stops at a close frame or a short field. */
    method WsReadLoop()
      requires running
      modifies this`incoming, this`outgoing, this`delivered, this`running
      ensures !running
      ensures Did(old(Effects(delivered, outgoing)), Effects(delivered, outgoing), ServerLoop(old(incoming)))
    {
      ghost var before, all := Effects(delivered, outgoing), ServerLoop(incoming);
      ghost var done: seq<Action> := [];
      DidNothing(before);
      var stop := false;
      while running && !stop
        invariant running
        invariant if stop then done == all else done + ServerLoop(incoming) == all
        invariant Did(before, Effects(delivered, outgoing), done)
        decreases !stop, |Flat(incoming)|
      {
        stop, done := ReadOne(before, done, all);
      }
      running := false;
    }

    /** Reads the client's request, and answers it with the accept key or a refusal. */
    method DoWsHandshake(sha1: seq<byte> -> seq<byte>) returns (ok: bool)
      modifies this`incoming, this`outgoing
      ensures match ServerGreets(old(incoming))
              case Dropped => !ok && outgoing == old(outgoing)
              case BadRequest => !ok && outgoing == old(outgoing) + BAD_REQUEST
              case Welcome(key, rest) =>
                ok && incoming == rest && outgoing == old(outgoing) + Head(ResponseLines(AcceptKey(key, sha1)))
    {
      var request: seq<byte> := [];
      while true
        invariant ReadHead(incoming, request) == ReadHead(old(incoming), [])
        invariant outgoing == old(outgoing)
        decreases |Flat(incoming)|
      {
        var c, got := RecvRaw(1);
        if !got { return false; }
        request := request + c;
        if EndsInBlank(request) { break; }
        if |request| > 4096 { return false; }
      }
      if !Text.Contains(request, UPGRADE) && !Text.Contains(request, UPGRADE_CAPITAL) {
        SendRaw(BAD_REQUEST);
        return false;
      }
      var key := ExtractKey(request);
      if key == [] {
        SendRaw(BAD_REQUEST);
        return false;
      }
      var acceptKey := Base64.EncodeLoop(sha1(key + MAGIC));
      SendRaw(Head(ResponseLines(acceptKey)));
      return true;
    }

    /** The session's thread: the handshake, then the read loop. A client that is welcomed gets its
      frames read from exactly where its request ended. */
    method Run(sha1: seq<byte> -> seq<byte>)
      modifies this
      ensures !running
      ensures match ServerGreets(old(incoming))
              case Welcome(key, rest) =>
                && handshakeDone
                && Did(Effects(old(delivered), old(outgoing) + Head(ResponseLines(AcceptKey(key, sha1)))),
                       Effects(delivered, outgoing), ServerLoop(rest))
              case _ => delivered == old(delivered)
    {
      running := true;
      var ok := DoWsHandshake(sha1);
      if !ok {
        running := false;
        return;
      }
      handshakeDone := true;
      WsReadLoop();
    }
  }

  /** The frame that answers a received frame, if any. */
  function AnswerTo(f: Frame): seq<Frame> {
    if f.opcode == CLOSE then [Frame(CLOSE, [])]
    else if f.opcode == PING then [Frame(PONG, f.payload)]
    else []
  }

  /** What a session has shown to the outside: texts handed to the relay and bytes sent. */
  datatype Effects = Effects(delivered: seq<seq<byte>>, outgoing: seq<byte>)

  /** Between `before` and `after`, exactly the texts of `actions` were delivered, in order, and exactly
      the frames of `actions` were sent, unmasked. */
  ghost predicate Did(before: Effects, after: Effects, actions: seq<Action>) {
    && AllSendable(Replies(actions))
    && after.delivered == before.delivered + Texts(actions)
    && after.outgoing == before.outgoing + Wire(Replies(actions))
  }

  lemma DidNothing(e: Effects)
    ensures Did(e, e, [])
  {
    assert e.delivered + [] == e.delivered && e.outgoing + [] == e.outgoing;
  }

  /** One frame handled: the actions so far, its own, and those of the rest of the stream. */
  lemma {:induction false} LoopStep(done: seq<Action>, segs: Segments, f: Frame, rest: Segments)
    requires ReadFrame(OneRecv, segs) == Read(f, rest)
    ensures done + ServerLoop(segs)
            == if f.opcode == CLOSE then done + React(f) else (done + React(f)) + ServerLoop(rest)
    ensures |Flat(rest)| < |Flat(segs)|
  {
    ServerLoopStep(segs, f, rest);
    Associates(done, React(f), ServerLoop(rest));
  }

  lemma ReactIs(f: Frame)
    ensures Texts(React(f)) == if f.opcode == TEXT then [f.payload] else []
    ensures Replies(React(f)) == AnswerTo(f)
  {
    if React(f) != [] {
      assert React(f)[1..] == [];
    }
  }

  /** The bytes of the answer to a frame. */
  function AnswerBytes(f: Frame): seq<byte>
    requires f.Sendable()
  {
    if AnswerTo(f) == [] then [] else Encode(AnswerTo(f)[0], Unmasked)
  }

  function TextOf(f: Frame): seq<seq<byte>> {
    if f.opcode == TEXT then [f.payload] else []
  }

  lemma ReactEffect(done: seq<Action>, f: Frame)
    requires AllSendable(Replies(done)) && f.Sendable()
    ensures Texts(done + React(f)) == Texts(done) + TextOf(f)
    ensures AllSendable(Replies(done + React(f)))
    ensures Wire(Replies(done + React(f))) == Wire(Replies(done)) + AnswerBytes(f)
  {
    TextsConcat(done, React(f));
    RepliesConcat(done, React(f));
    ReactIs(f);
    if AnswerTo(f) == [] {
      assert Replies(done) + [] == Replies(done);
      assert Wire(Replies(done)) + [] == Wire(Replies(done));
    } else {
      assert AnswerTo(f) == [AnswerTo(f)[0]];
      WireAppend(Replies(done), AnswerTo(f)[0]);
    }
  }

  lemma DidMore(before: Effects, now: Effects, done: seq<Action>, f: Frame, after: Effects)
    requires Did(before, now, done) && f.Sendable()
    requires after == Effects(now.delivered + TextOf(f), now.outgoing + AnswerBytes(f))
    ensures Did(before, after, done + React(f))
  {
    ReactEffect(done, f);
    Associates(before.delivered, Texts(done), TextOf(f));
    Associates(before.outgoing, Wire(Replies(done)), AnswerBytes(f));
  }
}
