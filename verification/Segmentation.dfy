/** What TCP's freedom to cut a stream anywhere means for the two frame readers. */
module Segmentation {
  import opened Basics
  import opened Bytes
  import opened Frames
  import opened Streams

  // ---------------------------------------------------------------- the exact reader sees only the bytes

  ghost predicate SameReading(a: Reading, b: Reading) {
    match a
    case Broken(h) => b == Broken(h)
    case Read(f, rest) => b.Read? && b.frame == f && Flat(b.rest) == Flat(rest)
  }

  lemma SameReadingTransitive(a: Reading, b: Reading, c: Reading)
    requires SameReading(a, b) && SameReading(b, c)
    ensures SameReading(a, c)
  {
  }

  lemma GatherSeesBytes(segs: Segments, n: nat)
    ensures var bytes := Flat(segs);
            var k := if n < |bytes| then n else |bytes|;
            && Gather(segs, n).0 == bytes[..k] && Flat(Gather(segs, n).1) == bytes[k..]
  {
    var (got, rest) := Gather(segs, n);
    assert Flat(segs)[..|got|] == got && Flat(segs)[|got|..] == Flat(rest);
  }

  lemma {:induction false} BodySeesBytes(b: byte, len: nat, mask: Masking, s1: Segments, s2: Segments)
    requires Flat(s1) == Flat(s2)
    ensures SameReading(ReadBody(b, len, mask, s1), ReadBody(b, len, mask, s2))
  {
    GatherSeesBytes(s1, len);
    GatherSeesBytes(s2, len);
  }

  lemma {:induction false} MaskSeesBytes(hdr: seq<byte>, len: nat, s1: Segments, s2: Segments)
    requires |hdr| == 2 && Flat(s1) == Flat(s2)
    ensures SameReading(ReadMask(Exact, hdr, len, s1), ReadMask(Exact, hdr, len, s2))
  {
    if hdr[1] >= 128 {
      GatherSeesBytes(s1, 4);
      GatherSeesBytes(s2, 4);
      var mask := Gather(s1, 4).0;
      if |mask| == 4 {
        BodySeesBytes(hdr[0], len, Masked(mask), Gather(s1, 4).1, Gather(s2, 4).1);
      }
    } else {
      BodySeesBytes(hdr[0], len, Unmasked, s1, s2);
    }
  }

  lemma {:induction false} LengthSeesBytes(hdr: seq<byte>, s1: Segments, s2: Segments)
    requires |hdr| == 2 && Flat(s1) == Flat(s2)
    ensures SameReading(ReadLength(Exact, hdr, s1), ReadLength(Exact, hdr, s2))
  {
    var n := ExtendedSize(hdr[1] % 128);
    if n == 0 {
      MaskSeesBytes(hdr, hdr[1] % 128, s1, s2);
    } else {
      GatherSeesBytes(s1, n);
      GatherSeesBytes(s2, n);
      MaskSeesBytes(hdr, FromBytes(Gather(s1, n).0), Gather(s1, n).1, Gather(s2, n).1);
    }
  }

  lemma {:induction false} FrameSeesBytes(s1: Segments, s2: Segments)
    requires Flat(s1) == Flat(s2)
    ensures SameReading(ReadFrame(Exact, s1), ReadFrame(Exact, s2))
  {
    GatherSeesBytes(s1, 2);
    GatherSeesBytes(s2, 2);
    var hdr := Gather(s1, 2).0;
    if |hdr| == 2 {
      LengthSeesBytes(hdr, Gather(s1, 2).1, Gather(s2, 2).1);
    }
  }

  /** The client does the same things however the same bytes are cut: for every byte stream, whole or
      truncated, well formed or not. */
  lemma {:induction false} ClientIgnoresSegmentation(s1: Segments, s2: Segments)
    requires Flat(s1) == Flat(s2)
    ensures ClientLoop(s1) == ClientLoop(s2)
    decreases |Flat(s1)|
  {
    FrameSeesBytes(s1, s2);
    var r1, r2 := ReadFrame(Exact, s1), ReadFrame(Exact, s2);
    if r1.Read? && r1.frame.opcode != CLOSE {
      ClientIgnoresSegmentation(r1.rest, r2.rest);
    }
  }

  // ---------------------------------------------------------------- the server reader is exact or stops

  lemma RecvIsGatherOrShort(segs: Segments, n: nat)
    requires 0 < n <= 8
    ensures |Recv(segs, n).0| == n ==>
              Recv(segs, n).0 == Gather(segs, n).0 && Flat(Recv(segs, n).1) == Flat(Gather(segs, n).1)
  {
    GatherSeesBytes(segs, n);
    var (got, rest) := Recv(segs, n);
    assert Flat(segs)[..|got|] == got && Flat(segs)[|got|..] == Flat(rest);
  }

  lemma {:induction false} MaskExactOrBroken(hdr: seq<byte>, len: nat, s1: Segments, s2: Segments)
    requires |hdr| == 2 && Flat(s1) == Flat(s2)
    ensures var r := ReadMask(OneRecv, hdr, len, s1);
            r.Broken? || SameReading(r, ReadMask(Exact, hdr, len, s2))
  {
    MaskSeesBytes(hdr, len, s1, s2);
    if hdr[1] >= 128 {
      RecvIsGatherOrShort(s1, 4);
      var (mask, rest) := Recv(s1, 4);
      if |mask| == 4 {
        BodySeesBytes(hdr[0], len, Masked(mask), rest, Gather(s1, 4).1);
      }
    }
  }

  lemma {:induction false} LengthExactOrBroken(hdr: seq<byte>, s1: Segments, s2: Segments)
    requires |hdr| == 2 && Flat(s1) == Flat(s2)
    ensures var r := ReadLength(OneRecv, hdr, s1);
            r.Broken? || SameReading(r, ReadLength(Exact, hdr, s2))
  {
    LengthSeesBytes(hdr, s1, s2);
    var n := ExtendedSize(hdr[1] % 128);
    if n == 0 {
      MaskExactOrBroken(hdr, hdr[1] % 128, s1, s2);
    } else {
      RecvIsGatherOrShort(s1, n);
      var (ext, rest) := Recv(s1, n);
      if |ext| == n {
        MaskExactOrBroken(hdr, FromBytes(ext), rest, Gather(s1, n).1);
      }
    }
  }

  lemma {:induction false} FrameExactOrBroken(segs: Segments)
    ensures var r := ReadFrame(OneRecv, segs);
            r.Broken? || SameReading(r, ReadFrame(Exact, segs))
  {
    RecvIsGatherOrShort(segs, 2);
    var (hdr, rest) := Recv(segs, 2);
    if |hdr| == 2 {
      LengthExactOrBroken(hdr, rest, Gather(segs, 2).1);
    }
  }

  /** On every byte stream and every cut of it, the server does a prefix of what the exact reader
      does: a short field stops it early, and never makes it read something else. */
  lemma {:induction false} ServerIsPrefixOfExact(segs: Segments)
    ensures ServerLoop(segs) <= ClientLoop(segs)
    decreases |Flat(segs)|
  {
    FrameExactOrBroken(segs);
    var r := ReadFrame(OneRecv, segs);
    if r.Read? && r.frame.opcode != CLOSE {
      var e := ReadFrame(Exact, segs);
      ServerIsPrefixOfExact(r.rest);
      ClientIgnoresSegmentation(r.rest, e.rest);
    }
  }

  // ---------------------------------------------------------------- reading back what was encoded

  lemma {:induction false} GatherPrefix(segs: Segments, field: seq<byte>, tail: seq<byte>)
    requires Flat(segs) == field + tail
    ensures Gather(segs, |field|).0 == field && Flat(Gather(segs, |field|).1) == tail
  {
    GatherSeesBytes(segs, |field|);
  }

  lemma {:induction false} BodyReadBack(b: byte, f: Frame, masking: Masking, tail: seq<byte>, segs: Segments)
    requires b % 16 == f.opcode
    requires Flat(segs) == Body(f.payload, masking) + tail
    ensures SameReading(ReadBody(b, |f.payload|, masking, segs), Read(f, [tail]))
  {
    GatherPrefix(segs, Body(f.payload, masking), tail);
    BodyUndone(f.payload, masking);
    assert Body(f.payload, masking) + Zeros(0) == Body(f.payload, masking);
    assert Flat([tail]) == tail + [] == tail;
  }

  lemma {:induction false} MaskReadBack(hdr: seq<byte>, len: nat, masking: Masking, after: seq<byte>, segs: Segments)
    requires |hdr| == 2 && (hdr[1] >= 128 <==> masking.Masked?) && Flat(segs) == MaskField(masking) + after
    ensures SameReading(ReadMask(Exact, hdr, len, segs), ReadBody(hdr[0], len, masking, [after]))
  {
    assert Flat([after]) == after + [] == after;
    match masking
    case Unmasked =>
      assert [] + after == after;
      BodySeesBytes(hdr[0], len, masking, segs, [after]);
    case Masked(mask) =>
      GatherPrefix(segs, mask, after);
      BodySeesBytes(hdr[0], len, masking, Gather(segs, 4).1, [after]);
  }

  lemma {:induction false} LengthReadBack(
      hdr: seq<byte>, ext: seq<byte>, len: nat, masking: Masking, after: seq<byte>, segs: Segments)
    requires |hdr| == 2 && (hdr[1] >= 128 <==> masking.Masked?)
    requires |ext| == ExtendedSize(hdr[1] % 128) && AnnouncedLength(hdr[1] % 128, ext) == len
    requires Flat(segs) == ext + (MaskField(masking) + after)
    ensures SameReading(ReadLength(Exact, hdr, segs), ReadBody(hdr[0], len, masking, [after]))
  {
    if ext == [] {
      assert Flat(segs) == MaskField(masking) + after;
      MaskReadBack(hdr, len, masking, after, segs);
    } else {
      GatherPrefix(segs, ext, MaskField(masking) + after);
      MaskReadBack(hdr, len, masking, after, Gather(segs, |ext|).1);
    }
  }

  /** The length field of the encoders announces the length. */
  lemma LengthFieldAnnounces(len: nat, maskBit: bool)
    requires len < 0x1_0000_0000_0000_0000
    ensures var field := LengthField(len, maskBit);
            && (field[0] >= 128 <==> maskBit)
            && |field[1..]| == ExtendedSize(field[0] % 128)
            && AnnouncedLength(field[0] % 128, field[1..]) == len
  {
    Pow256Values();
    var field := LengthField(len, maskBit);
    if len >= 126 {
      var n := if len <= 65535 then 2 else 8;
      assert field[1..] == ToBytes(len, n);
      FromToBytes(len, n);
    }
  }

  lemma Regroup(a: byte, l: seq<byte>, m: seq<byte>, b: seq<byte>)
    requires l != []
    ensures [a] + l + m + b == [a, l[0]] + (l[1..] + (m + b))
  {
    assert l == [l[0]] + l[1..];
  }

  /** The first two bytes of a frame. */
  function FirstTwo(f: Frame, masking: Masking): seq<byte>
    requires f.Sendable()
  {
    [128 + f.opcode, LengthField(|f.payload|, masking.Masked?)[0]]
  }

  lemma HeaderGrouped(f: Frame, masking: Masking, after: seq<byte>)
    requires f.Sendable()
    ensures Header(f, masking) + after
            == FirstTwo(f, masking) + (LengthField(|f.payload|, masking.Masked?)[1..] + (MaskField(masking) + after))
  {
    Regroup(128 + f.opcode, LengthField(|f.payload|, masking.Masked?), MaskField(masking), after);
  }

  /** Reading the header that either encoder writes leads to reading the payload from the rest. */
  lemma {:induction false} HeaderReadBack(f: Frame, masking: Masking, after: seq<byte>, segs: Segments)
    requires f.Sendable() && Flat(segs) == Header(f, masking) + after
    ensures SameReading(ReadFrame(Exact, segs), ReadBody(128 + f.opcode, |f.payload|, masking, [after]))
  {
    var x := HeaderFields(f, masking, after);
    FieldsReadBack(x.hdr, x.ext, x.len, masking, after, segs);
  }

  lemma {:induction false} FieldsReadBack(
      hdr: seq<byte>, ext: seq<byte>, len: nat, masking: Masking, after: seq<byte>, segs: Segments)
    requires |hdr| == 2 && (hdr[1] >= 128 <==> masking.Masked?)
    requires |ext| == ExtendedSize(hdr[1] % 128) && AnnouncedLength(hdr[1] % 128, ext) == len
    requires Flat(segs) == hdr + (ext + (MaskField(masking) + after))
    ensures SameReading(ReadFrame(Exact, segs), ReadBody(hdr[0], len, masking, [after]))
  {
    GatherPrefix(segs, hdr, ext + (MaskField(masking) + after));
    LengthReadBack(hdr, ext, len, masking, after, Gather(segs, 2).1);
  }

  lemma {:induction false} HeaderOfFrame(f: Frame, masking: Masking, tail: seq<byte>, segs: Segments, after: seq<byte>)
    requires f.Sendable() && Flat(segs) == Encode(f, masking) + tail && after == Body(f.payload, masking) + tail
    ensures SameReading(ReadFrame(Exact, segs), ReadBody(128 + f.opcode, |f.payload|, masking, [after]))
  {
    Associates(Header(f, masking), Body(f.payload, masking), tail);
    HeaderReadBack(f, masking, after, segs);
  }

  lemma {:induction false} BodyOfFrame(f: Frame, masking: Masking, tail: seq<byte>, after: seq<byte>)
    requires after == Body(f.payload, masking) + tail
    ensures SameReading(ReadBody(128 + f.opcode, |f.payload|, masking, [after]), Read(f, [tail]))
  {
    assert Flat([after]) == after + [] == after;
    BodyReadBack(128 + f.opcode, f, masking, tail, [after]);
  }

  /** A frame written by either encoder is read back whole, and nothing beyond it is consumed. */
  lemma {:induction false} FrameReadBack(f: Frame, masking: Masking, tail: seq<byte>, segs: Segments)
    requires f.Sendable() && Flat(segs) == Encode(f, masking) + tail
    ensures SameReading(ReadFrame(Exact, segs), Read(f, [tail]))
  {
    var after := Body(f.payload, masking) + tail;
    HeaderOfFrame(f, masking, tail, segs, after);
    BodyOfFrame(f, masking, tail, after);
    SameReadingTransitive(ReadFrame(Exact, segs), ReadBody(128 + f.opcode, |f.payload|, masking, [after]),
                          Read(f, [tail]));
  }

  /** Both encoders pick the shortest of the length forms: any length byte and extension that a
      reader takes to announce the same length is at least as long. */
  lemma ShortestForm(len: nat, maskBit: bool, second: byte, ext: seq<byte>)
    requires len < 0x1_0000_0000_0000_0000
    requires |ext| == ExtendedSize(second % 128) && AnnouncedLength(second % 128, ext) == len
    ensures |LengthField(len, maskBit)| <= |[second] + ext|
  {
    FromBytesBound(ext);
    Pow256Values();
  }

  // ---------------------------------------------------------------- whole conversations

  /** What a list of frames asks of its receiver, up to the first close. */
  function Conversation(frames: seq<Frame>): seq<Action> {
    if frames == [] then []
    else if frames[0].opcode == CLOSE then React(frames[0])
    else React(frames[0]) + Conversation(frames[1..])
  }

  /** One turn of the client's loop over an encoded frame. */
  lemma {:induction false} ClientTurn(f: Frame, masking: Masking, tail: seq<byte>, segs: Segments)
    requires f.Sendable() && Flat(segs) == Encode(f, masking) + tail
    ensures var r := ReadFrame(Exact, segs); r.Read? && r.frame == f && Flat(r.rest) == tail
  {
    FrameReadBack(f, masking, tail, segs);
    assert Flat([tail]) == tail + [] == tail;
  }

  lemma {:induction false} NothingToReceive(segs: Segments)
    requires Flat(segs) == []
    ensures ClientLoop(segs) == [NotifyClosed]
  {
    GatherSeesBytes(segs, 2);
    assert ReadFrame(Exact, segs) == Broken(true);
  }

  predicate HasClose(frames: seq<Frame>) {
    frames != [] && (frames[0].opcode == CLOSE || HasClose(frames[1..]))
  }

  /** What follows `frames` on the stream counts only when none of them is a close. */
  lemma {:induction false} ClientFollowsThen(
      frames: seq<Frame>, maskings: seq<Masking>, tail: seq<byte>, segs: Segments)
    requires AllSendable(frames) && |maskings| == |frames|
    requires Flat(segs) == EncodeAll(frames, maskings) + tail
    ensures ClientLoop(segs)
            == Conversation(frames) + if HasClose(frames) then [NotifyClosed] else ClientLoop([tail])
  {
    if frames == [] {
      assert Flat(segs) == tail == tail + [] == Flat([tail]);
      ClientIgnoresSegmentation(segs, [tail]);
    } else {
      var after := EncodeAll(frames[1..], maskings[1..]) + tail;
      Associates(Encode(frames[0], maskings[0]), EncodeAll(frames[1..], maskings[1..]), tail);
      ClientTurn(frames[0], maskings[0], after, segs);
      if frames[0].opcode != CLOSE {
        ClientFollowsThen(frames[1..], maskings[1..], tail, ReadFrame(Exact, segs).rest);
        Associates(React(frames[0]), Conversation(frames[1..]),
                   if HasClose(frames) then [NotifyClosed] else ClientLoop([tail]));
      }
    }
  }

  /** The client, given any list of frames from the server cut in any way, does exactly what the
      frames ask, in order, and then reports the connection as closed. */
  lemma {:induction false} ClientFollowsFrames(frames: seq<Frame>, maskings: seq<Masking>, segs: Segments)
    requires AllSendable(frames) && |maskings| == |frames|
    requires Flat(segs) == EncodeAll(frames, maskings)
    ensures ClientLoop(segs) == Conversation(frames) + [NotifyClosed]
  {
    assert EncodeAll(frames, maskings) + [] == EncodeAll(frames, maskings);
    ClientFollowsThen(frames, maskings, [], segs);
    NothingToReceive([[]]);
  }

  // ---------------------------------------------------------------- where the server stops

  /** Some segment ends strictly between the stream offsets `lo` and `hi`. */
  predicate CutInside(segs: Segments, lo: int, hi: int) {
    segs != [] && (lo < |segs[0]| < hi || CutInside(segs[1..], lo - |segs[0]|, hi - |segs[0]|))
  }

  lemma {:induction false} NoCutBelowZero(segs: Segments, lo: int, hi: int)
    requires hi <= 0
    ensures !CutInside(segs, lo, hi)
  {
    if segs != [] { NoCutBelowZero(segs[1..], lo - |segs[0]|, hi - |segs[0]|); }
  }

  lemma {:induction false} NoRoomForCut(segs: Segments, lo: int)
    ensures !CutInside(segs, lo, lo)
  {
    if segs != [] { NoRoomForCut(segs[1..], lo - |segs[0]|); }
  }

  /** The segments left after the first `n` bytes. */
  function Drop(segs: Segments, n: nat): Segments {
    if n == 0 || segs == [] then segs
    else if |segs[0]| <= n then Drop(segs[1..], n - |segs[0]|)
    else [segs[0][n..]] + segs[1..]
  }

  lemma {:induction false} DropTwice(segs: Segments, n: nat, m: nat)
    ensures Drop(Drop(segs, n), m) == Drop(segs, n + m)
  {
    if n > 0 && segs != [] {
      if |segs[0]| <= n {
        DropTwice(segs[1..], n - |segs[0]|, m);
      } else {
        assert ([segs[0][n..]] + segs[1..])[1..] == segs[1..];
      }
    }
  }

  /** Dropping `n` bytes moves every later cut `n` bytes closer. */
  lemma {:induction false} CutInsideDrop(segs: Segments, n: nat, lo: nat, hi: int)
    ensures CutInside(Drop(segs, n), lo, hi) <==> CutInside(segs, lo + n, hi + n)
  {
    if n > 0 && segs != [] {
      if |segs[0]| <= n {
        CutInsideDrop(segs[1..], n - |segs[0]|, lo, hi);
      } else {
        assert ([segs[0][n..]] + segs[1..])[1..] == segs[1..];
      }
    }
  }

  lemma {:induction false} RecvDrops(segs: Segments, n: nat)
    requires n > 0 && Recv(segs, n).0 != []
    ensures Recv(segs, n).1 == Drop(segs, |Recv(segs, n).0|)
  {
    if segs != [] && segs[0] == [] { RecvDrops(segs[1..], n); }
  }

  /** The first request of a payload read. */
  lemma {:induction false} GatherTurn(segs: Segments, n: nat) returns (got: nat, left: nat)
    requires 0 < n <= |Flat(segs)|
    ensures left < n && got + left == n && left <= |Flat(Drop(segs, got))|
    ensures Gather(segs, n).1 == Gather(Drop(segs, got), left).1
  {
    var k := if n < 4096 then n else 4096;
    var (first, rest) := Recv(segs, k);
    got, left := |first|, n - |first|;
    RecvDrops(segs, k);
    assert |Flat(segs)| == |first + Flat(rest)|;
  }

  lemma {:induction false} GatherDrops(segs: Segments, n: nat)
    requires n <= |Flat(segs)|
    ensures Gather(segs, n).1 == Drop(segs, n)
    decreases n
  {
    if n > 0 {
      var got, left := GatherTurn(segs, n);
      GatherDrops(Drop(segs, got), left);
      DropTwice(segs, got, left);
    }
  }

  /** One `recv` comes back short, on a stream that has the bytes, exactly when a cut falls inside
      the field. */
  lemma {:induction false} ShortIffCut(segs: Segments, n: nat)
    requires n > 0 && |Flat(segs)| >= n
    ensures |Recv(segs, n).0| < n <==> CutInside(segs, 0, n)
  {
    if segs[0] == [] {
      ShortIffCut(segs[1..], n);
    } else if n <= |segs[0]| {
      NoCutBelowZero(segs[1..], -|segs[0]|, n - |segs[0]|);
    }
  }

  /** A boundary falls inside the two-byte header, the extended length or the mask of a frame that
      starts at offset `o`. Boundaries between these fields, and in the payload, do no harm. */
  predicate FieldSplit(segs: Segments, o: nat, f: Frame, masking: Masking) {
    HeaderSplit(segs, o, ExtBytes(f), MaskBytes(masking))
  }

  predicate HeaderSplit(segs: Segments, o: nat, e: nat, m: nat) {
    || CutInside(segs, o, o + 2)
    || CutInside(segs, o + 2, o + 2 + e)
    || CutInside(segs, o + 2 + e, o + 2 + e + m)
  }

  /** The index of the first frame with a split field, or the number of frames. */
  function FirstSplit(segs: Segments, o: nat, frames: seq<Frame>, maskings: seq<Masking>): (k: nat)
    requires |maskings| == |frames|
    ensures k <= |frames|
    decreases |frames|
  {
    if frames == [] || FieldSplit(segs, o, frames[0], maskings[0]) then 0
    else 1 + FirstSplit(segs, o + FrameSize(frames[0], maskings[0]), frames[1..], maskings[1..])
  }

  /** One `recv` made for `field`: short when `split`, and otherwise the field. An empty field is not
      asked for. */
  ghost predicate FieldRead(here: Segments, field: seq<byte>, split: bool, next: Segments) {
    if field == [] then !split && next == here
    else if split then |Recv(here, |field|).0| < |field|
    else Recv(here, |field|) == (field, next)
  }

  lemma {:induction false} FieldReadHere(here: Segments, field: seq<byte>, tail: seq<byte>)
    requires Flat(here) == field + tail
    ensures FieldRead(here, field, CutInside(here, 0, |field|), Drop(here, |field|))
    ensures !CutInside(here, 0, |field|) ==> Flat(Drop(here, |field|)) == tail
  {
    var n := |field|;
    if n == 0 {
      NoRoomForCut(here, 0);
      assert field + tail == tail;
    } else {
      ShortIffCut(here, n);
      var (got, next) := Recv(here, n);
      if |got| == n {
        PrefixIs(got, Flat(next), field, tail);
        RecvDrops(here, n);
      }
    }
  }

  /** The same for a field at offset `k` of a stream. */
  lemma {:induction false} FieldAt(segs: Segments, k: nat, field: seq<byte>, tail: seq<byte>)
    requires Flat(Drop(segs, k)) == field + tail
    ensures var split, next := CutInside(segs, k, k + |field|), Drop(segs, k + |field|);
            FieldRead(Drop(segs, k), field, split, next) && (!split ==> Flat(next) == tail)
  {
    FieldReadHere(Drop(segs, k), field, tail);
    CutInsideDrop(segs, k, 0, |field|);
    DropTwice(segs, k, |field|);
  }

  lemma PrefixIs(a: seq<byte>, s: seq<byte>, b: seq<byte>, t: seq<byte>)
    requires a + s == b + t && |a| == |b|
    ensures a == b && s == t
  {
    assert (a + s)[..|a|] == a && (b + t)[..|b|] == b;
    assert (a + s)[|a|..] == s && (b + t)[|b|..] == t;
  }

  /** The bytes of a frame, field by field. */
  datatype Fields = Fields(hdr: seq<byte>, ext: seq<byte>, mask: seq<byte>, len: nat) {
    predicate Announced() {
      && |hdr| == 2
      && |ext| == ExtendedSize(hdr[1] % 128) && AnnouncedLength(hdr[1] % 128, ext) == len
      && |mask| == (if hdr[1] >= 128 then 4 else 0)
    }
  }

  /** A reading that breaks exactly when `split`, and otherwise stops at `end`. */
  ghost predicate BreaksIff(r: Reading, split: bool, end: Segments) {
    if split then r.Broken? else r.Read? && r.rest == end
  }

  lemma {:induction false} MaskBreaks(f: Fields, s2: Segments, s3: Segments, c: bool)
    requires f.Announced() && FieldRead(s2, f.mask, c, s3)
    ensures BreaksIff(ReadMask(OneRecv, f.hdr, f.len, s2), c, Gather(s3, f.len).1)
  {
  }

  lemma {:induction false} LengthBreaks(f: Fields, s1: Segments, s2: Segments, s3: Segments, b: bool, c: bool)
    requires f.Announced() && FieldRead(s1, f.ext, b, s2)
    requires !b ==> FieldRead(s2, f.mask, c, s3)
    ensures BreaksIff(ReadLength(OneRecv, f.hdr, s1), b || c, Gather(s3, f.len).1)
  {
    if !b { MaskBreaks(f, s2, s3, c); }
  }

  lemma {:induction false} FrameBreaks(
      f: Fields, s0: Segments, s1: Segments, s2: Segments, s3: Segments, a: bool, b: bool, c: bool)
    requires f.Announced() && FieldRead(s0, f.hdr, a, s1)
    requires !a ==> FieldRead(s1, f.ext, b, s2)
    requires !a && !b ==> FieldRead(s2, f.mask, c, s3)
    ensures BreaksIff(ReadFrame(OneRecv, s0), a || b || c, Gather(s3, f.len).1)
  {
    if !a { LengthBreaks(f, s1, s2, s3, b, c); }
  }

  lemma {:induction false} DropFlat(segs: Segments, n: nat)
    requires n <= |Flat(segs)|
    ensures Flat(Drop(segs, n)) == Flat(segs)[n..]
  {
    if n > 0 {
      if |segs[0]| <= n {
        DropFlat(segs[1..], n - |segs[0]|);
      } else {
        assert ([segs[0][n..]] + segs[1..])[1..] == segs[1..];
      }
    }
  }

  lemma {:induction false} BodyEnds(segs: Segments, start: nat, len: nat)
    requires |Flat(segs)| >= start + len
    ensures Gather(Drop(segs, start), len).1 == Drop(segs, start + len)
  {
    DropFlat(segs, start);
    GatherDrops(Drop(segs, start), len);
    DropTwice(segs, start, len);
  }

  lemma {:induction false} FieldsBreak(f: Fields, e: nat, m: nat, segs: Segments, after: seq<byte>, end: Segments)
    requires f.Announced() && Flat(segs) == f.hdr + (f.ext + (f.mask + after)) && |f.ext| == e && |f.mask| == m
    requires Gather(Drop(segs, 2 + e + m), f.len).1 == end
    ensures BreaksIff(ReadFrame(OneRecv, segs), HeaderSplit(segs, 0, e, m), end)
  {
    var a, b, c := CutInside(segs, 0, 2), CutInside(segs, 2, 2 + e), CutInside(segs, 2 + e, 2 + e + m);
    var s1, s2, s3 := Drop(segs, 2), Drop(segs, 2 + e), Drop(segs, 2 + e + m);
    FieldReadHere(segs, f.hdr, f.ext + (f.mask + after));
    if !a { FieldAt(segs, 2, f.ext, f.mask + after); }
    if !a && !b { FieldAt(segs, 2 + e, f.mask, after); }
    FrameBreaks(f, segs, s1, s2, s3, a, b, c);
  }

  lemma HeaderFields(f: Frame, masking: Masking, after: seq<byte>) returns (x: Fields)
    requires f.Sendable()
    ensures x.Announced() && |x.ext| == ExtBytes(f) && |x.mask| == MaskBytes(masking) && x.len == |f.payload|
    ensures Header(f, masking) + after == x.hdr + (x.ext + (x.mask + after))
    ensures x.hdr[0] == 128 + f.opcode && x.mask == MaskField(masking) && (x.hdr[1] >= 128 <==> masking.Masked?)
  {
    x := Fields(FirstTwo(f, masking), LengthField(|f.payload|, masking.Masked?)[1..], MaskField(masking), |f.payload|);
    HeaderGrouped(f, masking, after);
    LengthFieldAnnounces(|f.payload|, masking.Masked?);
  }

  function HeaderSize(f: Frame, masking: Masking): nat {
    2 + ExtBytes(f) + MaskBytes(masking)
  }

  /** The server breaks on a frame header exactly when one of its fields is split. */
  lemma {:induction false} HeaderBreaksIffSplit(
      f: Frame, masking: Masking, after: seq<byte>, segs: Segments, end: Segments)
    requires f.Sendable() && Flat(segs) == Header(f, masking) + after
    requires Gather(Drop(segs, HeaderSize(f, masking)), |f.payload|).1 == end
    ensures BreaksIff(ReadFrame(OneRecv, segs), FieldSplit(segs, 0, f, masking), end)
  {
    var x := HeaderFields(f, masking, after);
    FieldsBreak(x, ExtBytes(f), MaskBytes(masking), segs, after, end);
  }

  /** The same for a whole frame: the server stops at its end. */
  lemma {:induction false} ServerBreaksIffSplit(f: Frame, masking: Masking, tail: seq<byte>, segs: Segments)
    requires f.Sendable() && Flat(segs) == Encode(f, masking) + tail
    ensures BreaksIff(ReadFrame(OneRecv, segs), FieldSplit(segs, 0, f, masking), Drop(segs, FrameSize(f, masking)))
  {
    EncodeSize(f, masking);
    BodyEnds(segs, HeaderSize(f, masking), |f.payload|);
    Associates(Header(f, masking), Body(f.payload, masking), tail);
    HeaderBreaksIffSplit(f, masking, Body(f.payload, masking) + tail, segs, Drop(segs, FrameSize(f, masking)));
  }

  lemma {:induction false} FieldSplitDrop(segs: Segments, n: nat, f: Frame, masking: Masking)
    ensures FieldSplit(Drop(segs, n), 0, f, masking) <==> FieldSplit(segs, n, f, masking)
  {
    var e, m := ExtBytes(f), MaskBytes(masking);
    CutInsideDrop(segs, n, 0, 2);
    CutInsideDrop(segs, n, 2, 2 + e);
    CutInsideDrop(segs, n, 2 + e, 2 + e + m);
  }

  /** Looking for a split from offset `n` on is looking from the start of what is left there. */
  lemma {:induction false} FirstSplitDrop(segs: Segments, n: nat, frames: seq<Frame>, maskings: seq<Masking>)
    requires |maskings| == |frames|
    ensures FirstSplit(Drop(segs, n), 0, frames, maskings) == FirstSplit(segs, n, frames, maskings)
    decreases |frames|
  {
    if frames != [] {
      var size := FrameSize(frames[0], maskings[0]);
      FieldSplitDrop(segs, n, frames[0], maskings[0]);
      FirstSplitDrop(segs, n + size, frames[1..], maskings[1..]);
      FirstSplitDrop(Drop(segs, n), size, frames[1..], maskings[1..]);
      DropTwice(segs, n, size);
    }
  }

  lemma {:induction false} ServerLoopStep(segs: Segments, f: Frame, rest: Segments)
    requires ReadFrame(OneRecv, segs) == Read(f, rest)
    ensures ServerLoop(segs) == if f.opcode == CLOSE then React(f) else React(f) + ServerLoop(rest)
  {
  }

  lemma {:induction false} NothingToServe(segs: Segments)
    requires Flat(segs) == []
    ensures ServerLoop(segs) == []
  {
    assert Recv(segs, 2).0 == [];
  }

  /** One turn of the server's loop over an encoded frame. */
  lemma {:induction false} ServerTurn(f: Frame, masking: Masking, tail: seq<byte>, segs: Segments)
    requires f.Sendable() && Flat(segs) == Encode(f, masking) + tail
    ensures var rest := Drop(segs, FrameSize(f, masking));
            if FieldSplit(segs, 0, f, masking) then ServerLoop(segs) == []
            else ReadFrame(OneRecv, segs) == Read(f, rest) && Flat(rest) == tail
  {
    ServerBreaksIffSplit(f, masking, tail, segs);
    FrameExactOrBroken(segs);
    ClientTurn(f, masking, tail, segs);
  }

  /** The bytes of a list of frames. */
  function SizeOfAll(frames: seq<Frame>, maskings: seq<Masking>): nat
    requires |maskings| == |frames|
  {
    if frames == [] then 0 else FrameSize(frames[0], maskings[0]) + SizeOfAll(frames[1..], maskings[1..])
  }

  lemma {:induction false} FirstSplitStep(frames: seq<Frame>, maskings: seq<Masking>, segs: Segments)
    requires frames != [] && |maskings| == |frames|
    ensures var rest := Drop(segs, FrameSize(frames[0], maskings[0]));
            FirstSplit(segs, 0, frames, maskings)
            == if FieldSplit(segs, 0, frames[0], maskings[0]) then 0
               else 1 + FirstSplit(rest, 0, frames[1..], maskings[1..])
  {
    FirstSplitDrop(segs, FrameSize(frames[0], maskings[0]), frames[1..], maskings[1..]);
  }

  /** What the server does on `frames`, the first `k` of which have no split field, and then on `rest`. */
  function ServedThen(frames: seq<Frame>, k: nat, rest: Segments): seq<Action>
    requires k <= |frames|
  {
    if k < |frames| || HasClose(frames) then Conversation(frames[..k])
    else Conversation(frames) + ServerLoop(rest)
  }

  lemma {:induction false} ServedStep(frames: seq<Frame>, k: nat, rest: Segments)
    requires frames != [] && k < |frames|
    ensures ServedThen(frames, 1 + k, rest)
            == if frames[0].opcode == CLOSE then React(frames[0])
               else React(frames[0]) + ServedThen(frames[1..], k, rest)
  {
    assert frames[..1 + k][1..] == frames[1..][..k];
    if !HasClose(frames) { Associates(React(frames[0]), Conversation(frames[1..]), ServerLoop(rest)); }
  }

  lemma {:induction false} ServedNone(rest: Segments)
    ensures ServedThen([], 0, rest) == ServerLoop(rest)
  {
  }

  /** The server, given any list of frames with any masks cut in any way, and any bytes after them,
      does exactly what the frames before the first one with a split header field ask, up to the
      first close; when there is neither, it goes on with what follows the frames. */
  lemma {:induction false} ServerFollowsThen(
      frames: seq<Frame>, maskings: seq<Masking>, tail: seq<byte>, segs: Segments)
    requires AllSendable(frames) && |maskings| == |frames|
    requires Flat(segs) == EncodeAll(frames, maskings) + tail
    ensures ServerLoop(segs)
            == ServedThen(frames, FirstSplit(segs, 0, frames, maskings), Drop(segs, SizeOfAll(frames, maskings)))
    decreases |frames|
  {
    if frames == [] {
      ServedNone(segs);
    } else {
      var rest := Drop(segs, FrameSize(frames[0], maskings[0]));
      ServerTurnThen(frames, maskings, tail, segs, rest);
      if !FieldSplit(segs, 0, frames[0], maskings[0]) {
        ServerFollowsThen(frames[1..], maskings[1..], tail, rest);
      }
      ServedAfterTurn(frames, maskings, segs, rest);
    }
  }

  lemma {:induction false} ServedAfterTurn(
      frames: seq<Frame>, maskings: seq<Masking>, segs: Segments, rest: Segments)
    requires frames != [] && |maskings| == |frames| && rest == Drop(segs, FrameSize(frames[0], maskings[0]))
    requires if FieldSplit(segs, 0, frames[0], maskings[0]) then ServerLoop(segs) == []
             else && ReadFrame(OneRecv, segs) == Read(frames[0], rest)
                  && ServerLoop(rest)
                     == ServedThen(frames[1..], FirstSplit(rest, 0, frames[1..], maskings[1..]),
                                   Drop(rest, SizeOfAll(frames[1..], maskings[1..])))
    ensures ServerLoop(segs)
            == ServedThen(frames, FirstSplit(segs, 0, frames, maskings), Drop(segs, SizeOfAll(frames, maskings)))
  {
    DropFrames(frames, maskings, segs);
    ServedNext(frames, maskings, segs, rest, Drop(rest, SizeOfAll(frames[1..], maskings[1..])));
  }

  lemma {:induction false} DropFrames(frames: seq<Frame>, maskings: seq<Masking>, segs: Segments)
    requires frames != [] && |maskings| == |frames|
    ensures Drop(Drop(segs, FrameSize(frames[0], maskings[0])), SizeOfAll(frames[1..], maskings[1..]))
            == Drop(segs, SizeOfAll(frames, maskings))
  {
    DropTwice(segs, FrameSize(frames[0], maskings[0]), SizeOfAll(frames[1..], maskings[1..]));
  }

  lemma {:induction false} ServerTurnThen(
      frames: seq<Frame>, maskings: seq<Masking>, tail: seq<byte>, segs: Segments, rest: Segments)
    requires AllSendable(frames) && |maskings| == |frames| && frames != []
    requires Flat(segs) == EncodeAll(frames, maskings) + tail && rest == Drop(segs, FrameSize(frames[0], maskings[0]))
    ensures if FieldSplit(segs, 0, frames[0], maskings[0]) then ServerLoop(segs) == []
            else && ReadFrame(OneRecv, segs) == Read(frames[0], rest)
                 && Flat(rest) == EncodeAll(frames[1..], maskings[1..]) + tail
  {
    var more := EncodeAll(frames[1..], maskings[1..]);
    Associates(Encode(frames[0], maskings[0]), more, tail);
    ServerTurn(frames[0], maskings[0], more + tail, segs);
  }

  lemma {:induction false} ServedNext(
      frames: seq<Frame>, maskings: seq<Masking>, segs: Segments, rest: Segments, end: Segments)
    requires frames != [] && |maskings| == |frames| && rest == Drop(segs, FrameSize(frames[0], maskings[0]))
    requires if FieldSplit(segs, 0, frames[0], maskings[0]) then ServerLoop(segs) == []
             else && ReadFrame(OneRecv, segs) == Read(frames[0], rest)
                  && ServerLoop(rest)
                     == ServedThen(frames[1..], FirstSplit(rest, 0, frames[1..], maskings[1..]), end)
    ensures ServerLoop(segs) == ServedThen(frames, FirstSplit(segs, 0, frames, maskings), end)
  {
    FirstSplitStep(frames, maskings, segs);
    if !FieldSplit(segs, 0, frames[0], maskings[0]) {
      ServerLoopStep(segs, frames[0], rest);
      ServedStep(frames, FirstSplit(rest, 0, frames[1..], maskings[1..]), end);
    }
  }

  lemma {:induction false} SizeIsEncoded(frames: seq<Frame>, maskings: seq<Masking>)
    requires AllSendable(frames) && |maskings| == |frames|
    ensures |EncodeAll(frames, maskings)| == SizeOfAll(frames, maskings)
  {
    if frames != [] {
      EncodeSize(frames[0], maskings[0]);
      SizeIsEncoded(frames[1..], maskings[1..]);
    }
  }

  /** Where the frames end, what follows them begins. */
  lemma {:induction false} TailFollows(frames: seq<Frame>, maskings: seq<Masking>, tail: seq<byte>, segs: Segments)
    requires AllSendable(frames) && |maskings| == |frames|
    requires Flat(segs) == EncodeAll(frames, maskings) + tail
    ensures Flat(Drop(segs, SizeOfAll(frames, maskings))) == tail
  {
    SizeIsEncoded(frames, maskings);
    DropFlat(segs, SizeOfAll(frames, maskings));
  }

  /** The server, given any list of frames with any masks cut in any way, does exactly what the
      frames before the first one with a split header field ask, up to the first close. */
  lemma {:induction false} ServerStopsAtFirstSplit(frames: seq<Frame>, maskings: seq<Masking>, segs: Segments)
    requires AllSendable(frames) && |maskings| == |frames|
    requires Flat(segs) == EncodeAll(frames, maskings)
    ensures ServerLoop(segs) == Conversation(frames[..FirstSplit(segs, 0, frames, maskings)])
  {
    assert EncodeAll(frames, maskings) + [] == EncodeAll(frames, maskings);
    ServerFollowsThen(frames, maskings, [], segs);
    TailFollows(frames, maskings, [], segs);
    NothingToServe(Drop(segs, SizeOfAll(frames, maskings)));
    var k := FirstSplit(segs, 0, frames, maskings);
    if k == |frames| { assert frames[..k] == frames && Conversation(frames) + [] == Conversation(frames); }
  }
}
