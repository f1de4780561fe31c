/** A TCP connection's incoming bytes, cut into segments, and the two ways LinuxLive reads them.

    The server issues one `recv` per header field; the client repeats `recv` until the field is
    complete. Everything else about the two frame readers is the same. */
module Streams {
  import opened Basics
  import opened Bytes
  import opened Frames

  type Segments = seq<seq<byte>>

  function Flat(segs: Segments): seq<byte> {
    if segs == [] then [] else segs[0] + Flat(segs[1..])
  }

  /** One `recv` of at most `n` bytes: it never crosses a segment boundary and returns nothing only
      at the end of the stream. */
  function Recv(segs: Segments, n: nat): (r: (seq<byte>, Segments))
    ensures |r.0| <= n
    ensures r.0 + Flat(r.1) == Flat(segs)
    ensures n > 0 ==> (r.0 == [] <==> Flat(segs) == [])
  {
    if segs == [] then ([], [])
    else if segs[0] == [] then Recv(segs[1..], n)
    else if |segs[0]| <= n then (segs[0], segs[1..])
    else
      assert segs[0] == segs[0][..n] + segs[0][n..];
      (segs[0][..n], [segs[0][n..]] + segs[1..])
  }

  /** Reading until `n` bytes or the end of the stream, at most 4096 per request. */
  function Gather(segs: Segments, n: nat): (r: (seq<byte>, Segments))
    ensures |r.0| <= n
    ensures r.0 + Flat(r.1) == Flat(segs)
    ensures |r.0| < n ==> Flat(r.1) == []
    decreases n
  {
    if n == 0 then ([], segs)
    else
      var (got, rest) := Recv(segs, if n < 4096 then n else 4096);
      if got == [] then ([], rest)
      else
        var (more, end) := Gather(rest, n - |got|);
        Associates(got, more, Flat(end));
        (got + more, end)
  }

  datatype Policy = OneRecv | Exact

  /** How a header field of `n` bytes is read. */
  function Fetch(policy: Policy, segs: Segments, n: nat): (r: (seq<byte>, Segments))
    ensures |r.0| <= n
    ensures r.0 + Flat(r.1) == Flat(segs)
    ensures n > 0 && Flat(segs) != [] ==> r.0 != []
  {
    match policy
    case OneRecv => Recv(segs, n)
    case Exact => Gather(segs, n)
  }

  /** A frame as read: `Broken` when a field came back short, and whether that was the first one. */
  datatype Reading = Broken(atHeader: bool) | Read(frame: Frame, rest: Segments)

  /** The extended length announced by the low seven bits of the second header byte. */
  function ExtendedSize(len7: nat): nat {
    if len7 == 126 then 2 else if len7 == 127 then 8 else 0
  }

  function Zeros(n: nat): (z: seq<byte>)
    ensures |z| == n
  {
    seq(n, _ => 0)
  }

  function AnnouncedLength(len7: nat, ext: seq<byte>): nat {
    if len7 < 126 then len7 else FromBytes(ext)
  }

  /** The payload: what the stream still holds of it, and zeros for the rest. */
  function ReadBody(frame0: byte, len: nat, mask: Masking, segs: Segments): Reading {
    var (got, rest) := Gather(segs, len);
    Read(Frame(frame0 % 16, Body(got + Zeros(len - |got|), mask)), rest)
  }

  function ReadMask(policy: Policy, hdr: seq<byte>, len: nat, segs: Segments): Reading
    requires |hdr| == 2
  {
    if hdr[1] >= 128 then
      var (mask, rest) := Fetch(policy, segs, 4);
      if |mask| < 4 then Broken(false) else ReadBody(hdr[0], len, Masked(mask), rest)
    else ReadBody(hdr[0], len, Unmasked, segs)
  }

  function ReadLength(policy: Policy, hdr: seq<byte>, segs: Segments): Reading
    requires |hdr| == 2
  {
    var len7 := hdr[1] % 128;
    var n := ExtendedSize(len7);
    if n == 0 then ReadMask(policy, hdr, AnnouncedLength(len7, []), segs)
    else
      var (ext, rest) := Fetch(policy, segs, n);
      if |ext| < n then Broken(false) else ReadMask(policy, hdr, AnnouncedLength(len7, ext), rest)
  }

  function ReadFrame(policy: Policy, segs: Segments): (r: Reading)
    ensures r.Read? ==> |Flat(r.rest)| < |Flat(segs)|
  {
    var (hdr, rest) := Fetch(policy, segs, 2);
    if |hdr| < 2 then Broken(true) else
      ReadLengthShrinks(policy, hdr, rest);
      ReadLength(policy, hdr, rest)
  }

  lemma ReadLengthShrinks(policy: Policy, hdr: seq<byte>, segs: Segments)
    requires |hdr| == 2
    ensures ReadLength(policy, hdr, segs).Read? ==> |Flat(ReadLength(policy, hdr, segs).rest)| <= |Flat(segs)|
  {
  }

  // ---------------------------------------------------------------- the read loops

  /** What a read loop does, in order. */
  datatype Action = Deliver(text: seq<byte>) | Send(frame: Frame) | NotifyClosed

  /** What one received frame makes either end do. */
  function React(f: Frame): seq<Action> {
    if f.opcode == TEXT then [Deliver(f.payload)]
    else if f.opcode == CLOSE then [Send(Frame(CLOSE, []))]
    else if f.opcode == PING then [Send(Frame(PONG, f.payload))]
    else []
  }

  function ServerLoop(segs: Segments): seq<Action>
    decreases |Flat(segs)|
  {
    match ReadFrame(OneRecv, segs)
    case Broken(_) => []
    case Read(f, rest) =>
      if f.opcode == CLOSE then React(f) else React(f) + ServerLoop(rest)
  }

  /** The client also reports the connection as closed, when a close frame arrives or when the
      stream ends at a frame boundary or inside a two-byte header. */
  function ClientLoop(segs: Segments): seq<Action>
    decreases |Flat(segs)|
  {
    match ReadFrame(Exact, segs)
    case Broken(atHeader) => if atHeader then [NotifyClosed] else []
    case Read(f, rest) =>
      if f.opcode == CLOSE then React(f) + [NotifyClosed] else React(f) + ClientLoop(rest)
  }

  /** The reactions by opcode number: 1 is delivered, 8 is answered with an empty 8, 9 with a 10 that has its
      payload, and nothing else is acted on. */
  lemma ReactByNumber(opcode: Opcode, payload: seq<byte>)
    ensures React(Frame(opcode, payload))
            == if opcode == 1 then [Deliver(payload)]
               else if opcode == 8 then [Send(Frame(8, []))]
               else if opcode == 9 then [Send(Frame(10, payload))]
               else []
  {
  }

  // ---------------------------------------------------------------- loops that both ends have

  lemma ZerosAfter(b: seq<byte>, t: nat, n: nat)
    requires t + n <= |b| && b[t..] == Zeros(|b| - t)
    ensures b[t + n..] == Zeros(|b| - t - n)
  {
    assert b[t + n..] == b[t..][n..];
  }

  method CopyInto(buffer: array<byte>, at: nat, got: seq<byte>)
    requires at + |got| <= buffer.Length
    modifies buffer
    ensures buffer[..] == old(buffer[..at]) + got + old(buffer[at + |got|..])
  {
    forall i | 0 <= i < |got| {
      buffer[at + i] := got[i];
    }
  }

  /** The big-endian fold of the 64-bit length: `(acc << 8) | b` in `uint64_t`. */
  method FoldLength(ext: seq<byte>) returns (len: nat)
    requires |ext| == 8
    ensures len == FromBytes(ext) && len < 0x1_0000_0000_0000_0000
  {
    len := 0;
    for i := 0 to 8
      invariant len == FromBytes(ext[..i]) && len < Pow256(i)
    {
      assert ext[..i + 1][..i] == ext[..i];
      Pow256Monotone(i + 1, 8);
      Pow256Values();
      len := len * 256 % 0x1_0000_0000_0000_0000 + ext[i];
    }
    assert ext[..8] == ext;
    Pow256Values();
  }

  method FoldTwo(ext: seq<byte>) returns (len: nat)
    requires |ext| == 2
    ensures len == FromBytes(ext) && len < 0x1_0000
  {
    assert ext[..1][..0] == [];
    assert FromBytes(ext[..1]) == ext[0];
    var high: int, low: int := ext[0], ext[1];
    len := high * 256 + low;
  }
}
