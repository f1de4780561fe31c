/** WebSocket frames (section 5.2 of RFC 6455) as both ends of LinuxLive write them: one unfragmented
    frame per message, masked by the client (section 5.3) and never by the server. */
module Frames {
  import opened Bytes

  type Opcode = x: int | 0 <= x < 16
  const TEXT: Opcode := 1
  const CLOSE: Opcode := 8
  const PING: Opcode := 9
  const PONG: Opcode := 10

  type Mask = m: seq<byte> | |m| == 4 witness [0, 0, 0, 0]
  datatype Masking = Unmasked | Masked(mask: Mask)

  datatype Frame = Frame(opcode: Opcode, payload: seq<byte>) {
    predicate Sendable() {
      |payload| < 0x1_0000_0000_0000_0000
    }
  }

  /** The second header byte and the extended length. */
  function LengthField(len: nat, maskBit: bool): (b: seq<byte>)
    requires len < 0x1_0000_0000_0000_0000
    ensures 1 <= |b|
  {
    var m := if maskBit then 128 else 0;
    if len < 126 then [m + len]
    else if len <= 65535 then [m + 126] + ToBytes(len, 2)
    else [m + 127] + ToBytes(len, 8)
  }

  function MaskField(masking: Masking): seq<byte> {
    match masking
    case Unmasked => []
    case Masked(mask) => mask
  }

  function Body(payload: seq<byte>, masking: Masking): (b: seq<byte>)
    ensures |b| == |payload|
  {
    match masking
    case Unmasked => payload
    case Masked(mask) => XorCycle(payload, mask)
  }

  function Header(f: Frame, masking: Masking): seq<byte>
    requires f.Sendable()
  {
    [128 + f.opcode] + LengthField(|f.payload|, masking.Masked?) + MaskField(masking)
  }

  function Encode(f: Frame, masking: Masking): seq<byte>
    requires f.Sendable()
  {
    Header(f, masking) + Body(f.payload, masking)
  }

  /** The bytes of the extended length and of the mask of a frame, and of the whole frame. */
  function ExtBytes(f: Frame): nat {
    if |f.payload| < 126 then 0 else if |f.payload| <= 65535 then 2 else 8
  }

  function MaskBytes(masking: Masking): nat {
    if masking.Masked? then 4 else 0
  }

  function FrameSize(f: Frame, masking: Masking): nat {
    2 + ExtBytes(f) + MaskBytes(masking) + |f.payload|
  }

  lemma EncodeSize(f: Frame, masking: Masking)
    requires f.Sendable()
    ensures |Encode(f, masking)| == FrameSize(f, masking)
  {
  }

  lemma BodyUndone(payload: seq<byte>, masking: Masking)
    ensures Body(Body(payload, masking), masking) == payload
  {
    if masking.Masked? { XorCycleUndone(payload, masking.mask); }
  }

  /** The shift loop of both encoders: `len`'s eight bytes, most significant first. */
  method AppendLength64(frame: seq<byte>, len: nat) returns (r: seq<byte>)
    requires len < 0x1_0000_0000_0000_0000
    ensures r == frame + ToBytes(len, 8)
  {
    Pow256Values();
    ShiftRight8Vanishes(len, 8);
    r := frame;
    var i := 7;
    while i >= 0
      invariant -1 <= i <= 7
      invariant r == frame + ToBytes(ShiftRight8(len, i + 1), 7 - i)
    {
      ShiftRight8Step(len, i);
      ghost var before := ToBytes(ShiftRight8(len, i + 1), 7 - i);
      assert ToBytes(ShiftRight8(len, i), 8 - i) == before + [ShiftRight8(len, i) % 256];
      r := r + [ShiftRight8(len, i) % 256];
      i := i - 1;
    }
  }

  lemma TwoBytes(len: nat)
    requires len <= 65535
    ensures ToBytes(len, 2) == [len / 256 % 256, len % 256]
  {
    assert ToBytes(len / 256, 1) == [len / 256 % 256];
  }

  /** The server's frame buffer. */
  method EncodeServerFrame(opcode: Opcode, payload: seq<byte>) returns (frame: seq<byte>)
    requires |payload| < 0x1_0000_0000_0000_0000
    ensures frame == Encode(Frame(opcode, payload), Unmasked)
  {
    var len := |payload|;
    frame := [128 + opcode];
    if len < 126 {
      frame := frame + [len];
    } else if len <= 65535 {
      TwoBytes(len);
      frame := frame + [126];
      frame := frame + [len / 256 % 256];
      frame := frame + [len % 256];
    } else {
      frame := frame + [127];
      frame := AppendLength64(frame, len);
    }
    if len > 0 {
      frame := frame + payload;
    }
  }

  /** The client's frame buffer; `mask` is what RAND_bytes returned. */
  method EncodeClientFrame(opcode: Opcode, payload: seq<byte>, mask: Mask) returns (frame: seq<byte>)
    requires |payload| < 0x1_0000_0000_0000_0000
    ensures frame == Encode(Frame(opcode, payload), Masked(mask))
  {
    var len := |payload|;
    frame := [128 + opcode];
    if len < 126 {
      frame := frame + [128 + len];
    } else if len <= 65535 {
      TwoBytes(len);
      frame := frame + [128 + 126];
      frame := frame + [len / 256 % 256];
      frame := frame + [len % 256];
    } else {
      frame := frame + [128 + 127];
      frame := AppendLength64(frame, len);
    }
    frame := frame + mask;
    ghost var header := frame;
    assert header == Header(Frame(opcode, payload), Masked(mask));
    for i := 0 to len
      invariant frame == header + XorCycle(payload, mask)[..i]
    {
      frame := frame + [Xor(payload[i], mask[i % 4])];
    }
  }

  // ---------------------------------------------------------------- the bytes on the wire

  lemma {:induction false} FourBytes(n: nat, k: nat)
    ensures ToBytes(n, k + 4)
            == ToBytes(n / 0x1_0000_0000, k) + [n / 0x100_0000 % 256, n / 0x1_0000 % 256, n / 0x100 % 256, n % 256]
  {
    var a, b, c, d := n / 0x100, n / 0x1_0000, n / 0x100_0000, n / 0x1_0000_0000;
    assert a / 256 == b && b / 256 == c && c / 256 == d;
    assert ToBytes(n, k + 4) == ToBytes(a, k + 3) + [n % 256];
    assert ToBytes(a, k + 3) == ToBytes(b, k + 2) + [a % 256];
    assert ToBytes(b, k + 2) == ToBytes(c, k + 1) + [b % 256];
    assert ToBytes(c, k + 1) == ToBytes(d, k) + [c % 256];
  }

  lemma {:induction false} UpperHalf(n: nat)
    requires n < 0x1_0000_0000_0000_0000
    ensures var high := n / 0x1_0000_0000;
            && high / 0x100_0000 % 256 == n / 0x100_0000_0000_0000
            && high / 0x1_0000 == n / 0x1_0000_0000_0000
            && high / 0x100 == n / 0x100_0000_0000
  {
  }

  lemma {:induction false} EightBytes(n: nat)
    requires n < 0x1_0000_0000_0000_0000
    ensures ToBytes(n, 8)
            == [n / 0x100_0000_0000_0000, n / 0x1_0000_0000_0000 % 256, n / 0x100_0000_0000 % 256,
                n / 0x1_0000_0000 % 256, n / 0x100_0000 % 256, n / 0x1_0000 % 256, n / 0x100 % 256, n % 256]
  {
    var high := n / 0x1_0000_0000;
    FourBytes(n, 4);
    FourBytes(high, 0);
    UpperHalf(n);
    assert ToBytes(high / 0x1_0000_0000, 0) == [];
  }

  /** The bytes of a frame before its payload, with the final bit, the length in its three forms and the mask. */
  lemma {:induction false} HeaderOnWire(f: Frame, masking: Masking)
    requires f.Sendable()
    ensures var n, m := |f.payload|, if masking.Masked? then 128 else 0;
            var mask := if masking.Masked? then masking.mask else [];
            Header(f, masking)
            == if n < 126 then [128 + f.opcode, m + n] + mask
               else if n < 0x1_0000 then [128 + f.opcode, m + 126, n / 256, n % 256] + mask
               else [128 + f.opcode, m + 127, n / 0x100_0000_0000_0000, n / 0x1_0000_0000_0000 % 256,
                     n / 0x100_0000_0000 % 256, n / 0x1_0000_0000 % 256, n / 0x100_0000 % 256,
                     n / 0x1_0000 % 256, n / 0x100 % 256, n % 256] + mask
  {
    var n := |f.payload|;
    if 126 <= n < 0x1_0000 { TwoBytes(n); }
    if 0x1_0000 <= n { EightBytes(n); }
  }

  /** Each byte of the payload as it is on the wire: unchanged, or combined bit by bit with the byte of the mask
      that is due. */
  lemma {:induction false} PayloadOnWire(f: Frame, masking: Masking, i: nat, p: nat)
    requires f.Sendable() && i < |f.payload| && p in {1, 2, 4, 8, 16, 32, 64, 128}
    ensures |Encode(f, masking)| == |Header(f, masking)| + |f.payload|
    ensures var sent, meant := Encode(f, masking)[|Header(f, masking)| + i], f.payload[i];
            match masking
            case Unmasked => sent == meant
            case Masked(mask) => sent / p % 2 == 1 <==> meant / p % 2 != mask[i % 4] / p % 2
  {
    match masking
    case Unmasked =>
    case Masked(mask) => XorBit(f.payload[i], mask[i % 4], p);
  }

  // ---------------------------------------------------------------- sequences of frames

  predicate AllSendable(frames: seq<Frame>) {
    forall i :: 0 <= i < |frames| ==> frames[i].Sendable()
  }

  function EncodeAll(frames: seq<Frame>, maskings: seq<Masking>): seq<byte>
    requires |maskings| == |frames|
    requires AllSendable(frames)
  {
    if frames == [] then [] else Encode(frames[0], maskings[0]) + EncodeAll(frames[1..], maskings[1..])
  }

  lemma {:induction false} EncodeAllAppend(frames: seq<Frame>, maskings: seq<Masking>, f: Frame, masking: Masking)
    requires |maskings| == |frames|
    requires AllSendable(frames) && f.Sendable()
    ensures EncodeAll(frames + [f], maskings + [masking]) == EncodeAll(frames, maskings) + Encode(f, masking)
  {
    if frames == [] {
      assert EncodeAll([f][1..], [masking][1..]) == [];
    } else {
      assert (frames + [f])[1..] == frames[1..] + [f];
      assert (maskings + [masking])[1..] == maskings[1..] + [masking];
      EncodeAllAppend(frames[1..], maskings[1..], f, masking);
    }
  }
}
