/** What the read loops make of whole streams of frames: the frames they decode, the messages they
    deliver, the answers they send, and what happens when a stream ends early. */
module Messages {
  import opened Basics
  import opened Bytes
  import opened Frames
  import opened Streams
  import opened Segmentation

  // ---------------------------------------------------------------- messages

  function Texts(actions: seq<Action>): seq<seq<byte>> {
    if actions == [] then []
    else (if actions[0].Deliver? then [actions[0].text] else []) + Texts(actions[1..])
  }

  /** The frames a read loop sends in answer. */
  function Replies(actions: seq<Action>): seq<Frame> {
    if actions == [] then []
    else (if actions[0].Send? then [actions[0].frame] else []) + Replies(actions[1..])
  }

  lemma {:induction false} TextsConcat(a: seq<Action>, b: seq<Action>)
    ensures Texts(a + b) == Texts(a) + Texts(b)
  {
    if a == [] {
      assert a + b == b;
    } else {
      TextsConcat(a[1..], b);
      assert (a + b)[1..] == a[1..] + b;
      Associates(if a[0].Deliver? then [a[0].text] else [], Texts(a[1..]), Texts(b));
    }
  }

  lemma {:induction false} RepliesConcat(a: seq<Action>, b: seq<Action>)
    ensures Replies(a + b) == Replies(a) + Replies(b)
  {
    if a == [] {
      assert a + b == b;
    } else {
      RepliesConcat(a[1..], b);
      assert (a + b)[1..] == a[1..] + b;
      Associates(if a[0].Send? then [a[0].frame] else [], Replies(a[1..]), Replies(b));
    }
  }

  lemma {:induction false} ConversationPrefix(frames: seq<Frame>, k: nat)
    requires k <= |frames|
    ensures Conversation(frames[..k]) <= Conversation(frames)
  {
    if k > 0 {
      assert frames[..k][1..] == frames[1..][..k - 1];
      ConversationPrefix(frames[1..], k - 1);
    }
  }

  lemma TextsPrefix(a: seq<Action>, b: seq<Action>)
    requires a <= b
    ensures Texts(a) <= Texts(b)
  {
    assert b == a + b[|a|..];
    TextsConcat(a, b[|a|..]);
  }

  /** The index of the first close, or the number of frames. */
  function CloseAt(frames: seq<Frame>): (k: nat)
    ensures k <= |frames|
  {
    if frames == [] || frames[0].opcode == CLOSE then 0 else 1 + CloseAt(frames[1..])
  }

  /** No text frame lies at `k` or after it and before the first close. */
  ghost predicate NoTextFrom(frames: seq<Frame>, k: nat) {
    forall i :: k <= i < CloseAt(frames) ==> frames[i].opcode != TEXT
  }

  lemma {:induction false} NoTextAtAll(frames: seq<Frame>)
    ensures Texts(Conversation(frames)) == [] <==> NoTextFrom(frames, 0)
  {
    if frames != [] && frames[0].opcode != CLOSE {
      NoTextAtAll(frames[1..]);
      TextsConcat(React(frames[0]), Conversation(frames[1..]));
      NoTextShifts(frames, 0);
    }
  }

  lemma {:induction false} NoTextShifts(frames: seq<Frame>, k: nat)
    requires frames != [] && frames[0].opcode != CLOSE
    ensures NoTextFrom(frames[1..], k) <==> NoTextFrom(frames, k + 1)
  {
    if NoTextFrom(frames, k + 1) {
      forall i | k <= i < CloseAt(frames[1..]) ensures frames[1..][i].opcode != TEXT {
        assert frames[i + 1].opcode != TEXT;
      }
    }
    if NoTextFrom(frames[1..], k) {
      forall i | k + 1 <= i < CloseAt(frames) ensures frames[i].opcode != TEXT {
        assert frames[1..][i - 1].opcode != TEXT;
      }
    }
  }

  /** The first `k` frames ask for all the texts exactly when the others have none before the close. */
  lemma {:induction false} AllTextsIff(frames: seq<Frame>, k: nat)
    requires k <= |frames|
    ensures Texts(Conversation(frames[..k])) == Texts(Conversation(frames)) <==> NoTextFrom(frames, k)
  {
    if k == 0 {
      NoTextAtAll(frames);
    } else if frames[0].opcode != CLOSE {
      assert frames[..k][1..] == frames[1..][..k - 1];
      AllTextsIff(frames[1..], k - 1);
      TextsConcat(React(frames[0]), Conversation(frames[1..][..k - 1]));
      TextsConcat(React(frames[0]), Conversation(frames[1..]));
      SamePrefix(Texts(React(frames[0])), Texts(Conversation(frames[1..][..k - 1])), Texts(Conversation(frames[1..])));
      NoTextShifts(frames, k - 1);
    }
  }

  lemma SamePrefix<T>(p: seq<T>, a: seq<T>, b: seq<T>)
    ensures p + a == p + b <==> a == b
  {
    assert (p + a)[|p|..] == a && (p + b)[|p|..] == b;
  }

  /** Segmentation safety: however TCP cuts the client's stream, the texts the server delivers are a
      prefix of the texts sent before the first close. They are all of them exactly when no text frame
      lies between the first frame with a split header field and that close; cuts inside payloads
      never matter. */
  lemma {:induction false} ServerDeliversPrefix(frames: seq<Frame>, maskings: seq<Masking>, segs: Segments)
    requires AllSendable(frames) && |maskings| == |frames|
    requires Flat(segs) == EncodeAll(frames, maskings)
    ensures Texts(ServerLoop(segs)) <= Texts(Conversation(frames))
    ensures Texts(ServerLoop(segs)) == Texts(Conversation(frames))
            <==> NoTextFrom(frames, FirstSplit(segs, 0, frames, maskings))
  {
    var k := FirstSplit(segs, 0, frames, maskings);
    ServerStopsAtFirstSplit(frames, maskings, segs);
    ConversationPrefix(frames, k);
    TextsPrefix(ServerLoop(segs), Conversation(frames));
    AllTextsIff(frames, k);
  }

  // ---------------------------------------------------------------- decoding

  /** The frames that a reader takes from a stream, one after the other, and what it leaves. */
  function Decoded(policy: Policy, segs: Segments): (r: (seq<Frame>, Segments))
    decreases |Flat(segs)|
  {
    match ReadFrame(policy, segs)
    case Broken(_) => ([], segs)
    case Read(f, rest) =>
      var (more, end) := Decoded(policy, rest);
      ([f] + more, end)
  }

  /** The frames that a read loop acts on: it stops after a close. */
  function Received(policy: Policy, segs: Segments): seq<Frame>
    decreases |Flat(segs)|
  {
    match ReadFrame(policy, segs)
    case Broken(_) => []
    case Read(f, rest) => if f.opcode == CLOSE then [f] else [f] + Received(policy, rest)
  }

  function UpToClose(frames: seq<Frame>): seq<Frame> {
    if frames == [] then []
    else if frames[0].opcode == CLOSE then [frames[0]]
    else [frames[0]] + UpToClose(frames[1..])
  }

  lemma {:induction false} ReceivedIsDecoded(policy: Policy, segs: Segments)
    ensures Received(policy, segs) == UpToClose(Decoded(policy, segs).0)
    decreases |Flat(segs)|
  {
    var r := ReadFrame(policy, segs);
    if r.Read? {
      assert ([r.frame] + Decoded(policy, r.rest).0)[1..] == Decoded(policy, r.rest).0;
      if r.frame.opcode != CLOSE { ReceivedIsDecoded(policy, r.rest); }
    }
  }

  /** What the client reports at the end: a close when it received one, or when fewer than two bytes are
      left after its frames. When the stream ends inside an extended length or a mask it reports nothing. */
  function Reported(frames: seq<Frame>, end: Segments): seq<Action> {
    if HasClose(frames) || |Flat(end)| < 2 then [NotifyClosed] else []
  }

  /** Both loops do what the frames they receive ask, and the client reports the close as `Reported` says. */
  lemma {:induction false} LoopsActOnReceived(segs: Segments)
    ensures ServerLoop(segs) == Conversation(Received(OneRecv, segs))
    ensures var (frames, end) := Decoded(Exact, segs);
            ClientLoop(segs) == Conversation(Received(Exact, segs)) + Reported(frames, end)
  {
    ServerActsOnReceived(segs);
    ClientActsOnReceived(segs);
  }

  lemma {:induction false} ServerActsOnReceived(segs: Segments)
    ensures ServerLoop(segs) == Conversation(Received(OneRecv, segs))
    decreases |Flat(segs)|
  {
    var r := ReadFrame(OneRecv, segs);
    if r.Read? && r.frame.opcode != CLOSE {
      ServerActsOnReceived(r.rest);
      assert ([r.frame] + Received(OneRecv, r.rest))[1..] == Received(OneRecv, r.rest);
    }
  }

  lemma {:induction false} ClientActsOnReceived(segs: Segments)
    ensures var (frames, end) := Decoded(Exact, segs);
            ClientLoop(segs) == Conversation(Received(Exact, segs)) + Reported(frames, end)
    decreases |Flat(segs)|
  {
    match ReadFrame(Exact, segs)
    case Broken(atHeader) =>
      BrokenAtHeaderIff(segs);
      assert [] + Reported([], segs) == Reported([], segs);
    case Read(f, rest) =>
      var (more, end) := Decoded(Exact, rest);
      assert HasClose([f] + more) <==> f.opcode == CLOSE || HasClose(more);
      if f.opcode != CLOSE {
        ClientActsOnReceived(rest);
        assert ([f] + Received(Exact, rest))[1..] == Received(Exact, rest);
        Associates(React(f), Conversation(Received(Exact, rest)), Reported(more, end));
      }
  }

  lemma {:induction false} BrokenAtHeaderIff(segs: Segments)
    requires ReadFrame(Exact, segs).Broken?
    ensures ReadFrame(Exact, segs).atHeader <==> |Flat(segs)| < 2
  {
    GatherSeesBytes(segs, 2);
    var (hdr, rest) := Gather(segs, 2);
    if |hdr| == 2 { BrokenInside(hdr, rest); }
  }

  lemma {:induction false} BrokenInside(hdr: seq<byte>, segs: Segments)
    requires |hdr| == 2
    ensures ReadLength(Exact, hdr, segs).Broken? ==> !ReadLength(Exact, hdr, segs).atHeader
  {
  }

  lemma {:induction false} NothingToDecode(segs: Segments)
    requires Flat(segs) == []
    ensures Decoded(Exact, segs) == ([], segs)
  {
    GatherSeesBytes(segs, 2);
    assert ReadFrame(Exact, segs) == Broken(true);
  }

  /** Self-delimiting: the exact reader decodes any concatenation of frames, from either encoder, with
      any masks and cut in any way, to exactly that list, with nothing left over. */
  lemma {:induction false} ExactDecodes(frames: seq<Frame>, maskings: seq<Masking>, segs: Segments)
    requires AllSendable(frames) && |maskings| == |frames|
    requires Flat(segs) == EncodeAll(frames, maskings)
    ensures Decoded(Exact, segs).0 == frames && Flat(Decoded(Exact, segs).1) == []
  {
    if frames == [] {
      NothingToDecode(segs);
    } else {
      var rest := DecodesOne(frames[0], maskings[0], EncodeAll(frames[1..], maskings[1..]), segs);
      ExactDecodes(frames[1..], maskings[1..], rest);
    }
  }

  lemma {:induction false} DecodesOne(f: Frame, masking: Masking, tail: seq<byte>, segs: Segments)
    returns (rest: Segments)
    requires f.Sendable() && Flat(segs) == Encode(f, masking) + tail
    ensures Flat(rest) == tail
    ensures Decoded(Exact, segs) == ([f] + Decoded(Exact, rest).0, Decoded(Exact, rest).1)
  {
    ClientTurn(f, masking, tail, segs);
    rest := ReadFrame(Exact, segs).rest;
  }

  /** No two lists of frames have the same bytes, whatever their masks. */
  lemma {:induction false} EncodingIsUnambiguous(
      a: seq<Frame>, masksOfA: seq<Masking>, b: seq<Frame>, masksOfB: seq<Masking>)
    requires AllSendable(a) && |masksOfA| == |a| && AllSendable(b) && |masksOfB| == |b|
    requires EncodeAll(a, masksOfA) == EncodeAll(b, masksOfB)
    ensures a == b
  {
    var segs := [EncodeAll(a, masksOfA)];
    assert Flat(segs) == EncodeAll(a, masksOfA) + [] == EncodeAll(a, masksOfA);
    ExactDecodes(a, masksOfA, segs);
    ExactDecodes(b, masksOfB, segs);
  }

  /** The server decodes exactly the frames before the first one with a split header field. */
  lemma {:induction false} ServerDecodes(frames: seq<Frame>, maskings: seq<Masking>, segs: Segments)
    requires AllSendable(frames) && |maskings| == |frames|
    requires Flat(segs) == EncodeAll(frames, maskings)
    ensures Decoded(OneRecv, segs).0 == frames[..FirstSplit(segs, 0, frames, maskings)]
    decreases |frames|
  {
    if frames == [] {
      assert Recv(segs, 2).0 == [];
    } else {
      var rest := Drop(segs, FrameSize(frames[0], maskings[0]));
      ServerDecodesOne(frames[0], maskings[0], EncodeAll(frames[1..], maskings[1..]), segs);
      if FieldSplit(segs, 0, frames[0], maskings[0]) {
        FirstSplitStep(frames, maskings, segs);
      } else {
        ServerDecodes(frames[1..], maskings[1..], rest);
        DecodedNext(frames, maskings, segs, Decoded(OneRecv, segs).0, Decoded(OneRecv, rest).0);
      }
    }
  }

  lemma {:induction false} DecodedNext(
      frames: seq<Frame>, maskings: seq<Masking>, segs: Segments, here: seq<Frame>, later: seq<Frame>)
    requires frames != [] && |maskings| == |frames|
    requires here == if FieldSplit(segs, 0, frames[0], maskings[0]) then [] else [frames[0]] + later
    ensures var rest := Drop(segs, FrameSize(frames[0], maskings[0]));
            later == frames[1..][..FirstSplit(rest, 0, frames[1..], maskings[1..])] ==>
              here == frames[..FirstSplit(segs, 0, frames, maskings)]
  {
    var k := FirstSplit(Drop(segs, FrameSize(frames[0], maskings[0])), 0, frames[1..], maskings[1..]);
    assert FirstSplit(segs, 0, frames, maskings)
        == if FieldSplit(segs, 0, frames[0], maskings[0]) then 0 else 1 + k by {
      FirstSplitStep(frames, maskings, segs);
    }
    TakeOneMore(frames, k);
  }

  lemma TakeOneMore<T>(xs: seq<T>, k: nat)
    requires xs != [] && k < |xs|
    ensures [xs[0]] + xs[1..][..k] == xs[..1 + k]
  {
  }

  lemma {:induction false} ServerDecodesOne(f: Frame, masking: Masking, tail: seq<byte>, segs: Segments)
    requires f.Sendable() && Flat(segs) == Encode(f, masking) + tail
    ensures var rest := Drop(segs, FrameSize(f, masking));
            if FieldSplit(segs, 0, f, masking) then Decoded(OneRecv, segs).0 == []
            else Decoded(OneRecv, segs).0 == [f] + Decoded(OneRecv, rest).0 && Flat(rest) == tail
  {
    ServerBreaksIffSplit(f, masking, tail, segs);
    ServerTurn(f, masking, tail, segs);
  }

  /** Each end receives the frames sent up to the first close, the server only those before the first one
      with a split header field. */
  lemma {:induction false} FramesReceived(frames: seq<Frame>, maskings: seq<Masking>, segs: Segments)
    requires AllSendable(frames) && |maskings| == |frames|
    requires Flat(segs) == EncodeAll(frames, maskings)
    ensures Received(Exact, segs) == UpToClose(frames)
    ensures Received(OneRecv, segs) == UpToClose(frames[..FirstSplit(segs, 0, frames, maskings)])
  {
    ExactDecodes(frames, maskings, segs);
    ServerDecodes(frames, maskings, segs);
    ReceivedIsDecoded(Exact, segs);
    ReceivedIsDecoded(OneRecv, segs);
  }

  /** One cut after the first byte is enough: whatever frames were sent, the server then does nothing,
      and the client everything. */
  lemma {:induction false} CutInHeaderStopsServer(frames: seq<Frame>, maskings: seq<Masking>)
    requires AllSendable(frames) && |maskings| == |frames| && frames != []
    ensures var bytes := EncodeAll(frames, maskings);
            |bytes| >= 2
            && var segs := [bytes[..1], bytes[1..]];
               && Flat(segs) == bytes && ServerLoop(segs) == []
               && ClientLoop(segs) == Conversation(frames) + [NotifyClosed]
  {
    var bytes := EncodeAll(frames, maskings);
    EncodeSize(frames[0], maskings[0]);
    var segs := [bytes[..1], bytes[1..]];
    assert Flat(segs[1..]) == bytes[1..] + [] == bytes[1..];
    assert Flat(segs) == bytes[..1] + bytes[1..] == bytes;
    assert CutInside(segs, 0, 2);
    ServerStopsAtFirstSplit(frames, maskings, segs);
    ClientFollowsFrames(frames, maskings, segs);
  }

  // ---------------------------------------------------------------- pings and pongs

  /** The pings among `frames` before the first close, as the pongs that answer them, and the close
      that answers the first close. */
  function Answers(frames: seq<Frame>): (r: seq<Frame>)
    ensures AllSendable(frames) ==> AllSendable(r)
  {
    if frames == [] then []
    else if frames[0].opcode == CLOSE then [Frame(CLOSE, [])]
    else
      var rest := Answers(frames[1..]);
      if frames[0].opcode == PING then [Frame(PONG, frames[0].payload)] + rest else rest
  }

  lemma {:induction false} ConversationReplies(frames: seq<Frame>)
    ensures Replies(Conversation(frames)) == Answers(frames)
  {
    if frames != [] {
      var f, rest := frames[0], Conversation(frames[1..]);
      if f.opcode == CLOSE {
        assert React(f)[1..] == [];
      } else {
        ConversationReplies(frames[1..]);
        RepliesConcat(React(f), rest);
        if React(f) != [] {
          assert React(f)[1..] == [];
        }
      }
    }
  }

  /** Under any cut of the server's stream, the client sends one pong per ping, with the payload of
      the ping, in order, up to the first close, which it answers with a close. */
  lemma {:induction false} ClientAnswersPings(frames: seq<Frame>, maskings: seq<Masking>, segs: Segments)
    requires AllSendable(frames) && |maskings| == |frames|
    requires Flat(segs) == EncodeAll(frames, maskings)
    ensures Replies(ClientLoop(segs)) == Answers(frames)
  {
    ClientFollowsFrames(frames, maskings, segs);
    RepliesConcat(Conversation(frames), [NotifyClosed]);
    ConversationReplies(frames);
    assert Replies([NotifyClosed]) == [];
    assert Answers(frames) + [] == Answers(frames);
  }

  /** The payloads of the frames with one opcode. */
  function Payloads(frames: seq<Frame>, opcode: Opcode): seq<seq<byte>> {
    if frames == [] then []
    else (if frames[0].opcode == opcode then [frames[0].payload] else []) + Payloads(frames[1..], opcode)
  }

  lemma {:induction false} PongsCarryPings(frames: seq<Frame>)
    ensures Payloads(Answers(frames), PONG) == Payloads(UpToClose(frames), PING)
  {
    if frames != [] {
      var f, rest := frames[0], Answers(frames[1..]);
      if f.opcode == CLOSE {
        assert [f][1..] == [] && [Frame(CLOSE, [])][1..] == [];
      } else {
        PongsCarryPings(frames[1..]);
        assert ([f] + UpToClose(frames[1..]))[1..] == UpToClose(frames[1..]);
        assert ([Frame(PONG, f.payload)] + rest)[1..] == rest;
      }
    }
  }

  /** Nothing follows the close among the answers, so the server receives whatever it decodes of them. */
  lemma {:induction false} AnswersEndAtClose(frames: seq<Frame>, k: nat)
    requires k <= |Answers(frames)|
    ensures UpToClose(Answers(frames)[..k]) == Answers(frames)[..k]
  {
    if frames != [] && k > 0 {
      var rest := Answers(frames[1..]);
      if frames[0].opcode == CLOSE {
        assert Answers(frames)[..k] == [Frame(CLOSE, [])];
      } else if frames[0].opcode == PING {
        var pong := Frame(PONG, frames[0].payload);
        assert Answers(frames)[..k] == [pong] + rest[..k - 1];
        assert ([pong] + rest[..k - 1])[1..] == rest[..k - 1];
        AnswersEndAtClose(frames[1..], k - 1);
      } else {
        AnswersEndAtClose(frames[1..], k);
      }
    }
  }

  /** Ping and pong, round trip: what the client sends in answer to a stream of frames, with any masks
      and any cuts both ways, the server decodes to exactly the answers before the first one with a
      split header field. When there is none, the pongs it received carry the payloads of the pings. */
  lemma {:induction false} PongsReadBack(frames: seq<Frame>, maskings: seq<Masking>, toClient: Segments,
                                         masks: seq<Masking>, toServer: Segments)
    requires AllSendable(frames) && |maskings| == |frames| && Flat(toClient) == EncodeAll(frames, maskings)
    requires |masks| == |Answers(frames)| && Flat(toServer) == EncodeAll(Answers(frames), masks)
    ensures Replies(ClientLoop(toClient)) == Answers(frames)
    ensures var k := FirstSplit(toServer, 0, Answers(frames), masks);
            && Received(OneRecv, toServer) == Answers(frames)[..k]
            && (k == |Answers(frames)| ==>
                  Payloads(Received(OneRecv, toServer), PONG) == Payloads(UpToClose(frames), PING))
  {
    ClientAnswersPings(frames, maskings, toClient);
    var answers, k := Answers(frames), FirstSplit(toServer, 0, Answers(frames), masks);
    FramesReceived(answers, masks, toServer);
    AnswersEndAtClose(frames, k);
    PongsCarryPings(frames);
    if k == |answers| { assert answers[..k] == answers; }
  }

  // ---------------------------------------------------------------- streams that end inside a payload

  /** The payload that both readers make of the first `k` bytes of `text`: missing bytes are read as
      zeros, and unmasking turns these into mask bytes. */
  function MadeUp(text: seq<byte>, masking: Masking, k: nat): (r: seq<byte>)
    requires k <= |text|
    ensures |r| == |text|
  {
    text[..k] + Body(Zeros(|text|), masking)[k..]
  }

  lemma {:induction false} FillerXor(text: seq<byte>, mask: Mask, k: nat)
    requires k <= |text|
    ensures XorCycle(XorCycle(text, mask)[..k] + Zeros(|text| - k), mask)
            == text[..k] + XorCycle(Zeros(|text|), mask)[k..]
  {
    var got := XorCycle(text, mask)[..k] + Zeros(|text| - k);
    forall i | 0 <= i < |text|
      ensures XorCycle(got, mask)[i] == (text[..k] + XorCycle(Zeros(|text|), mask)[k..])[i]
    {
      if i < k { XorUndone(text[i], mask[i % 4]); }
    }
  }

  lemma {:induction false} FillerBody(text: seq<byte>, masking: Masking, k: nat)
    requires k <= |text|
    ensures Body(Body(text, masking)[..k] + Zeros(|text| - k), masking) == MadeUp(text, masking, k)
  {
    match masking
    case Unmasked => assert Zeros(|text|)[k..] == Zeros(|text| - k);
    case Masked(mask) => FillerXor(text, mask, k);
  }

  lemma {:induction false} ShortBody(b: byte, len: nat, masking: Masking, got: seq<byte>, payload: seq<byte>)
    requires |got| <= len && Body(got + Zeros(len - |got|), masking) == payload
    ensures SameReading(ReadBody(b, len, masking, [got]), Read(Frame(b % 16, payload), []))
  {
    assert Flat([got]) == got + [] == got;
    GatherSeesBytes([got], len);
  }

  lemma {:induction false} TruncatedReading(f: Frame, masking: Masking, k: nat, segs: Segments)
    requires f.Sendable() && k <= |f.payload|
    requires Flat(segs) == Header(f, masking) + Body(f.payload, masking)[..k]
    ensures SameReading(ReadFrame(Exact, segs), Read(Frame(f.opcode, MadeUp(f.payload, masking, k)), []))
  {
    var got, r := Body(f.payload, masking)[..k], ReadFrame(Exact, segs);
    assert SameReading(r, ReadBody(128 + f.opcode, |f.payload|, masking, [got])) by {
      HeaderReadBack(f, masking, got, segs);
    }
    TruncatedFrom(r, f, masking, k);
  }

  lemma {:induction false} TruncatedBody(b: byte, text: seq<byte>, masking: Masking, k: nat)
    requires k <= |text|
    ensures SameReading(ReadBody(b, |text|, masking, [Body(text, masking)[..k]]),
                        Read(Frame(b % 16, MadeUp(text, masking, k)), []))
  {
    var got, made := Body(text, masking)[..k], MadeUp(text, masking, k);
    assert |got| == k;
    assert Body(got + Zeros(|text| - |got|), masking) == made by { FillerBody(text, masking, k); }
    ShortBody(b, |text|, masking, got, made);
  }

  lemma {:induction false} TruncatedFrom(r: Reading, f: Frame, masking: Masking, k: nat)
    requires k <= |f.payload|
    requires SameReading(r, ReadBody(128 + f.opcode, |f.payload|, masking, [Body(f.payload, masking)[..k]]))
    ensures SameReading(r, Read(Frame(f.opcode, MadeUp(f.payload, masking, k)), []))
  {
    TruncatedBody(128 + f.opcode, f.payload, masking, k);
    SameReadingTransitive(r, ReadBody(128 + f.opcode, |f.payload|, masking, [Body(f.payload, masking)[..k]]),
                          Read(Frame(f.opcode, MadeUp(f.payload, masking, k)), []));
  }

  lemma {:induction false} ClientActsOnTruncated(f: Frame, masking: Masking, k: nat, segs: Segments)
    requires f.Sendable() && k <= |f.payload|
    requires Flat(segs) == Header(f, masking) + Body(f.payload, masking)[..k]
    ensures ClientLoop(segs) == React(Frame(f.opcode, MadeUp(f.payload, masking, k))) + [NotifyClosed]
  {
    TruncatedReading(f, masking, k, segs);
    NothingToReceive(ReadFrame(Exact, segs).rest);
  }

  lemma {:induction false} ServerActsOnTruncated(f: Frame, masking: Masking, k: nat, segs: Segments)
    requires f.Sendable() && k <= |f.payload|
    requires Flat(segs) == Header(f, masking) + Body(f.payload, masking)[..k]
    ensures ServerLoop(segs)
            == if FieldSplit(segs, 0, f, masking) then [] else React(Frame(f.opcode, MadeUp(f.payload, masking, k)))
  {
    HeaderBreaksIffSplit(f, masking, Body(f.payload, masking)[..k], segs,
                         Gather(Drop(segs, HeaderSize(f, masking)), |f.payload|).1);
    if !FieldSplit(segs, 0, f, masking) {
      TruncatedReading(f, masking, k, segs);
      FrameExactOrBroken(segs);
      var r := ReadFrame(OneRecv, segs);
      NothingToServe(r.rest);
      assert React(r.frame) + [] == React(r.frame);
    }
  }

  lemma {:induction false} ConversationConcat(a: seq<Frame>, b: seq<Frame>)
    ensures Conversation(a + b) == if HasClose(a) then Conversation(a) else Conversation(a) + Conversation(b)
  {
    if a == [] {
      assert a + b == b;
    } else {
      assert (a + b)[1..] == a[1..] + b;
      ConversationConcat(a[1..], b);
      if !HasClose(a) { Associates(React(a[0]), Conversation(a[1..]), Conversation(b)); }
    }
  }

  /** The index of the first frame with a split field among `frames` and then `f`. */
  function FirstSplitThen(
      segs: Segments, o: nat, frames: seq<Frame>, maskings: seq<Masking>, f: Frame, masking: Masking): (k: nat)
    requires |maskings| == |frames|
    ensures k <= |frames| + 1
  {
    var k := FirstSplit(segs, o, frames, maskings);
    if k < |frames| || FieldSplit(segs, o + SizeOfAll(frames, maskings), f, masking) then k else k + 1
  }

  lemma {:induction false} FirstSplitAppend(
      segs: Segments, o: nat, frames: seq<Frame>, maskings: seq<Masking>, f: Frame, masking: Masking)
    requires |maskings| == |frames|
    ensures FirstSplit(segs, o, frames + [f], maskings + [masking])
            == FirstSplitThen(segs, o, frames, maskings, f, masking)
    decreases |frames|
  {
    if frames == [] {
      assert [f][1..] == [] && [masking][1..] == [];
    } else {
      assert (frames + [f])[1..] == frames[1..] + [f];
      assert (maskings + [masking])[1..] == maskings[1..] + [masking];
      FirstSplitAppend(segs, o + FrameSize(frames[0], maskings[0]), frames[1..], maskings[1..], f, masking);
    }
  }

  lemma {:induction false} ConversationOfOne(f: Frame)
    ensures Conversation([f]) == React(f)
  {
    assert [f][1..] == [] && React(f) + [] == React(f);
  }

  lemma {:induction false} ClientEndsInside(
      frames: seq<Frame>, maskings: seq<Masking>, f: Frame, masking: Masking, k: nat, segs: Segments)
    requires AllSendable(frames) && |maskings| == |frames| && f.Sendable() && k <= |f.payload|
    requires Flat(segs) == EncodeAll(frames, maskings) + (Header(f, masking) + Body(f.payload, masking)[..k])
    ensures ClientLoop(segs)
            == Conversation(frames + [Frame(f.opcode, MadeUp(f.payload, masking, k))]) + [NotifyClosed]
  {
    var tail := Header(f, masking) + Body(f.payload, masking)[..k];
    var made := Frame(f.opcode, MadeUp(f.payload, masking, k));
    ClientFollowsThen(frames, maskings, tail, segs);
    assert Flat([tail]) == tail + [] == tail;
    ClientActsOnTruncated(f, masking, k, [tail]);
    ConversationConcat(frames, [made]);
    ConversationOfOne(made);
    Associates(Conversation(frames), React(made), [NotifyClosed]);
  }

  lemma {:induction false} ServerAfterFrames(
      frames: seq<Frame>, maskings: seq<Masking>, f: Frame, masking: Masking, k: nat, segs: Segments)
    requires AllSendable(frames) && |maskings| == |frames| && f.Sendable() && k <= |f.payload|
    requires Flat(segs) == EncodeAll(frames, maskings) + (Header(f, masking) + Body(f.payload, masking)[..k])
    ensures var n := SizeOfAll(frames, maskings);
            ServerLoop(Drop(segs, n))
            == if FieldSplit(segs, n, f, masking) then [] else React(Frame(f.opcode, MadeUp(f.payload, masking, k)))
  {
    var n := SizeOfAll(frames, maskings);
    TailFollows(frames, maskings, Header(f, masking) + Body(f.payload, masking)[..k], segs);
    ServerActsOnTruncated(f, masking, k, Drop(segs, n));
    FieldSplitDrop(segs, n, f, masking);
  }

  lemma {:induction false} ServerEndsInside(
      frames: seq<Frame>, maskings: seq<Masking>, f: Frame, masking: Masking, k: nat, segs: Segments)
    requires AllSendable(frames) && |maskings| == |frames| && f.Sendable() && k <= |f.payload|
    requires Flat(segs) == EncodeAll(frames, maskings) + (Header(f, masking) + Body(f.payload, masking)[..k])
    ensures var made := Frame(f.opcode, MadeUp(f.payload, masking, k));
            ServerLoop(segs)
            == Conversation((frames + [made])[..FirstSplitThen(segs, 0, frames, maskings, f, masking)])
  {
    var made, rest := Frame(f.opcode, MadeUp(f.payload, masking, k)), Drop(segs, SizeOfAll(frames, maskings));
    ServerFollowsThen(frames, maskings, Header(f, masking) + Body(f.payload, masking)[..k], segs);
    ServerAfterFrames(frames, maskings, f, masking, k, segs);
    ServedOfTruncated(frames, made, FirstSplit(segs, 0, frames, maskings),
                      FieldSplit(segs, SizeOfAll(frames, maskings), f, masking), rest,
                      FirstSplitThen(segs, 0, frames, maskings, f, masking));
  }

  lemma {:induction false} ServedOfTruncated(
      frames: seq<Frame>, made: Frame, k: nat, split: bool, rest: Segments, after: nat)
    requires k <= |frames| && ServerLoop(rest) == if split then [] else React(made)
    requires after == if k < |frames| || split then k else k + 1
    ensures ServedThen(frames, k, rest) == Conversation((frames + [made])[..after])
  {
    if k < |frames| || split {
      assert (frames + [made])[..k] == frames[..k];
      if k == |frames| { assert frames[..k] == frames && Conversation(frames) + [] == Conversation(frames); }
    } else {
      assert frames[..k] == frames && (frames + [made])[..k + 1] == frames + [made];
      ConversationConcat(frames, [made]);
      ConversationOfOne(made);
    }
  }

  /** The made-up bytes: zeros, which unmasking turns into the bytes of the mask. */
  lemma {:induction false} MadeUpIs(text: seq<byte>, masking: Masking, k: nat, i: nat)
    requires k <= |text| && i < |text|
    ensures MadeUp(text, masking, k)[i]
            == if i < k then text[i] else if masking.Unmasked? then 0 else masking.mask[i % 4]
  {
    var filler := Body(Zeros(|text|), masking);
    assert MadeUp(text, masking, k)[i] == if i < k then text[i] else filler[i];
    if masking.Masked? {
      XorOfZero(masking.mask[i % 4]);
      assert filler[i] == Xor(Zeros(|text|)[i], masking.mask[i % 4]);
    }
  }

  /** A stream that ends inside a payload does not stop the frame: after any frames, the last one is
      acted on with its missing bytes made up, by the client always and by the server unless a header
      field is split. So what was never sent is delivered or answered, except when the missing bytes
      happen to be the made-up ones or a close comes first. */
  lemma {:induction false} EndInsidePayload(
      frames: seq<Frame>, maskings: seq<Masking>, f: Frame, masking: Masking, k: nat, segs: Segments)
    requires AllSendable(frames) && |maskings| == |frames| && f.Sendable() && k <= |f.payload|
    requires Flat(segs) == EncodeAll(frames, maskings) + (Header(f, masking) + Body(f.payload, masking)[..k])
    ensures var made := Frame(f.opcode, MadeUp(f.payload, masking, k));
            && ClientLoop(segs) == Conversation(frames + [made]) + [NotifyClosed]
            && ServerLoop(segs)
               == Conversation((frames + [made])[..FirstSplit(segs, 0, frames + [f], maskings + [masking])])
            && (made == f <==> f.payload[k..] == Body(Zeros(|f.payload|), masking)[k..])
  {
    ClientEndsInside(frames, maskings, f, masking, k, segs);
    ServerEndsInside(frames, maskings, f, masking, k, segs);
    FirstSplitAppend(segs, 0, frames, maskings, f, masking);
    SplitEquality(f.payload, k, Body(Zeros(|f.payload|), masking)[k..]);
  }

  lemma SplitEquality(text: seq<byte>, k: nat, filler: seq<byte>)
    requires k <= |text|
    ensures text[..k] + filler == text <==> text[k..] == filler
  {
    assert text == text[..k] + text[k..];
    assert (text[..k] + filler)[k..] == filler;
  }
}
