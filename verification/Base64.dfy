/** The relay's base64 encoder, and the decoder of section 4 of RFC 4648 that it must satisfy. */
module Base64 {
  import opened Bytes
  import opened Basics

  const UPPER := "ABCDEFGHIJKLMNOPQRSTUVWXYZ"
  const LOWER := "abcdefghijklmnopqrstuvwxyz"
  const REST := "0123456789+/"
  const TABLE := UPPER + LOWER + REST
  const PAD: byte := 61

  /** The alphabet by ranges. */
  function Symbol(v: nat): byte
    requires v < 64
  {
    if v < 26 then 65 + v
    else if v < 52 then 97 + (v - 26)
    else if v < 62 then 48 + (v - 52)
    else if v == 62 then 43
    else 47
  }

  lemma TableIsAlphabet(v: nat)
    requires v < 64
    ensures |TABLE| == 64 && TABLE[v] as int == Symbol(v)
  {
    if v < 26 {
      assert TABLE[v] == UPPER[v];
    } else if v < 52 {
      assert TABLE[v] == LOWER[v - 26];
    } else {
      assert TABLE[v] == REST[v - 52];
    }
  }

  /** The 24 bits of three bytes. */
  function Bits(x: int, y: int, z: int): int {
    x * 0x1_0000 + y * 0x100 + z
  }

  function SymbolValue(c: byte): (v: int)
    ensures -1 <= v < 64
    ensures v >= 0 ==> Symbol(v) == c
  {
    if 65 <= c < 91 then c - 65
    else if 97 <= c < 123 then c - 97 + 26
    else if 48 <= c < 58 then c - 48 + 52
    else if c == 43 then 62
    else if c == 47 then 63
    else -1
  }

  lemma ValueOfSymbol(v: nat)
    requires v < 64
    ensures SymbolValue(Symbol(v)) == v && Symbol(v) != PAD
  {
  }

  /** Four symbols for the 24 bits of `n`, the last `pad` of them replaced by padding. */
  function Quad(n: nat, pad: nat): (q: seq<byte>)
    requires n < 0x100_0000 && pad <= 2
    ensures |q| == 4
  {
    [Symbol(n / 0x4_0000), Symbol(n / 0x1000 % 64),
     if pad >= 2 then PAD else Symbol(n / 64 % 64), if pad >= 1 then PAD else Symbol(n % 64)]
  }

  /** One, two or three bytes as four symbols. */
  function Group(g: seq<byte>): (q: seq<byte>)
    requires 1 <= |g| <= 3
    ensures |q| == 4
  {
    Quad(Bits(g[0], if |g| >= 2 then g[1] else 0, if |g| == 3 then g[2] else 0), 3 - |g|)
  }

  function Encode(data: seq<byte>): seq<byte> {
    if data == [] then []
    else if |data| <= 3 then Group(data)
    else Group(data[..3]) + Encode(data[3..])
  }

  /** One group of four symbols: padding only in the last group, with zero bits under it. */
  function DecodeQuad(q: seq<byte>, last: bool): Option<seq<byte>>
    requires |q| == 4
  {
    var a, b, c, d := SymbolValue(q[0]), SymbolValue(q[1]), SymbolValue(q[2]), SymbolValue(q[3]);
    if a < 0 || b < 0 then None
    else if c >= 0 && d >= 0 then Some([a * 4 + b / 16, b % 16 * 16 + c / 4, c % 4 * 64 + d])
    else if last && c >= 0 && q[3] == PAD && c % 4 == 0 then Some([a * 4 + b / 16, b % 16 * 16 + c / 4])
    else if last && q[2] == PAD && q[3] == PAD && b % 16 == 0 then Some([a * 4 + b / 16])
    else None
  }

  function Decode(text: seq<byte>): Option<seq<byte>> {
    if text == [] then Some([])
    else if |text| < 4 then None
    else
      match DecodeQuad(text[..4], |text| == 4)
      case None => None
      case Some(head) =>
        match Decode(text[4..])
        case None => None
        case Some(tail) => Some(head + tail)
  }

  lemma SplitSextets(a: nat, b: nat, c: nat, d: nat)
    requires a < 64 && b < 64 && c < 64 && d < 64
    ensures var n := a * 0x4_0000 + b * 0x1000 + c * 64 + d;
            n / 0x4_0000 == a && n / 0x1000 % 64 == b && n / 64 % 64 == c && n % 64 == d
  {
    var n := a * 0x4_0000 + b * 0x1000 + c * 64 + d;
    assert n / 0x1000 == a * 64 + b;
    assert n / 64 == (a * 64 + b) * 64 + c;
  }

  /** The four sextets of three bytes. */
  lemma Sextets(x: byte, y: byte, z: byte)
    ensures 0 <= Bits(x, y, z) < 0x100_0000
    ensures Bits(x, y, z) / 0x4_0000 == x / 4
    ensures Bits(x, y, z) / 0x1000 % 64 == x % 4 * 16 + y / 16
    ensures Bits(x, y, z) / 64 % 64 == y % 16 * 4 + z / 64
    ensures Bits(x, y, z) % 64 == z % 64
  {
    var a, b, c, d := x / 4, x % 4 * 16 + y / 16, y % 16 * 4 + z / 64, z % 64;
    assert Bits(x, y, z) == a * 0x4_0000 + b * 0x1000 + c * 64 + d;
    SplitSextets(a, b, c, d);
  }

  lemma Regroup(x: byte, y: byte, z: byte)
    ensures x / 4 * 4 + (x % 4 * 16 + y / 16) / 16 == x
    ensures (x % 4 * 16 + y / 16) % 16 * 16 + (y % 16 * 4 + z / 64) / 4 == y
    ensures (y % 16 * 4 + z / 64) % 4 * 64 + z % 64 == z
  {
    assert (x % 4 * 16 + y / 16) / 16 == x % 4;
    assert (x % 4 * 16 + y / 16) % 16 == y / 16;
    assert (y % 16 * 4 + z / 64) / 4 == y % 16;
    assert (y % 16 * 4 + z / 64) % 4 == z / 64;
  }

  /** The symbols of a quad, read back. */
  lemma QuadValues(x: byte, y: byte, z: byte, pad: nat)
    requires pad <= 2
    ensures 0 <= Bits(x, y, z) < 0x100_0000
    ensures var q := Quad(Bits(x, y, z), pad);
            && SymbolValue(q[0]) == x / 4
            && SymbolValue(q[1]) == x % 4 * 16 + y / 16
            && (if pad >= 2 then q[2] == PAD else SymbolValue(q[2]) == y % 16 * 4 + z / 64)
            && (if pad >= 1 then q[3] == PAD else SymbolValue(q[3]) == z % 64)
  {
    Sextets(x, y, z);
    ValueOfSymbol(x / 4);
    ValueOfSymbol(x % 4 * 16 + y / 16);
    ValueOfSymbol(y % 16 * 4 + z / 64);
    ValueOfSymbol(z % 64);
  }

  /** `q` spells the bytes of `g` as the sextets `a`, `b`, `c`, `d`. */
  ghost predicate Spells(q: seq<byte>, g: seq<byte>, a: nat, b: nat, c: nat, d: nat) {
    && |q| == 4 && 1 <= |g| <= 3
    && SymbolValue(q[0]) == a && SymbolValue(q[1]) == b
    && (if |g| >= 2 then SymbolValue(q[2]) == c else q[2] == PAD)
    && (if |g| == 3 then SymbolValue(q[3]) == d else q[3] == PAD)
    && g[0] == a * 4 + b / 16
    && (if |g| >= 2 then g[1] == b % 16 * 16 + c / 4 else b % 16 == 0)
    && (if |g| == 3 then g[2] == c % 4 * 64 + d else |g| == 2 ==> c % 4 == 0)
  }

  lemma LowBitsZero(x: byte)
    ensures (x % 16 * 4 + 0 / 64) % 4 == 0
    ensures (x % 4 * 16 + 0 / 16) % 16 == 0
  {
  }

  lemma GroupSpells(g: seq<byte>) returns (a: nat, b: nat, c: nat, d: nat)
    requires 1 <= |g| <= 3
    ensures Spells(Group(g), g, a, b, c, d)
  {
    var y := if |g| >= 2 then g[1] else 0;
    var z := if |g| == 3 then g[2] else 0;
    QuadValues(g[0], y, z, 3 - |g|);
    Regroup(g[0], y, z);
    LowBitsZero(y);
    LowBitsZero(g[0]);
    a, b, c, d := g[0] / 4, g[0] % 4 * 16 + y / 16, y % 16 * 4 + z / 64, z % 64;
  }

  lemma DecodeSpelled(q: seq<byte>, g: seq<byte>, a: nat, b: nat, c: nat, d: nat, last: bool)
    requires Spells(q, g, a, b, c, d) && (|g| < 3 ==> last)
    ensures DecodeQuad(q, last) == Some(g)
  {
    assert SymbolValue(PAD) == -1;
    if |g| == 3 {
      assert g == [g[0], g[1], g[2]];
    } else if |g| == 2 {
      assert g == [g[0], g[1]];
    } else {
      assert g == [g[0]];
    }
  }

  lemma DecodeGroup(g: seq<byte>, last: bool)
    requires 1 <= |g| <= 3 && (|g| < 3 ==> last)
    ensures DecodeQuad(Group(g), last) == Some(g)
  {
    var a, b, c, d := GroupSpells(g);
    DecodeSpelled(Group(g), g, a, b, c, d, last);
  }

  lemma DecodeOneQuad(q: seq<byte>)
    requires |q| == 4
    ensures Decode(q) == DecodeQuad(q, true)
  {
    assert q[..4] == q && q[4..] == [];
    assert Decode([]) == Some([]);
    if DecodeQuad(q, true).Some? {
      assert DecodeQuad(q, true).value + [] == DecodeQuad(q, true).value;
    }
  }

  lemma DecodeMoreQuads(q: seq<byte>, rest: seq<byte>)
    requires |q| == 4 && rest != []
    requires DecodeQuad(q, false).Some? && Decode(rest).Some?
    ensures Decode(q + rest) == Some(DecodeQuad(q, false).value + Decode(rest).value)
  {
    assert (q + rest)[..4] == q && (q + rest)[4..] == rest;
  }

  /** Decoding undoes encoding, for every byte sequence. */
  lemma {:induction false} DecodeEncode(data: seq<byte>)
    ensures Decode(Encode(data)) == Some(data)
  {
    if data == [] {
    } else if |data| <= 3 {
      DecodeGroup(data, true);
      DecodeOneQuad(Group(data));
    } else {
      DecodeGroup(data[..3], false);
      DecodeEncode(data[3..]);
      DecodeMoreQuads(Group(data[..3]), Encode(data[3..]));
      assert data == data[..3] + data[3..];
    }
  }

  lemma EncodeThree(g: seq<byte>, rest: seq<byte>)
    requires |g| == 3
    ensures Encode(g + rest) == Group(g) + Encode(rest)
  {
    if rest == [] {
      assert g + rest == g;
    } else {
      assert (g + rest)[..3] == g && (g + rest)[3..] == rest;
    }
  }

  /** The bytes of a decoded quad are a group that encodes to it. */
  lemma EncodeDecodedQuad(q: seq<byte>, last: bool)
    requires |q| == 4 && DecodeQuad(q, last).Some?
    ensures var g := DecodeQuad(q, last).value;
            1 <= |g| <= 3 && (|g| < 3 ==> last) && Group(g) == q
  {
    var a, b, c, d := SymbolValue(q[0]), SymbolValue(q[1]), SymbolValue(q[2]), SymbolValue(q[3]);
    var g := DecodeQuad(q, last).value;
    if |g| == 3 {
      assert Bits(g[0], g[1], g[2]) == a * 0x4_0000 + b * 0x1000 + c * 64 + d;
      SplitSextets(a, b, c, d);
    } else if |g| == 2 {
      assert Bits(g[0], g[1], 0) == a * 0x4_0000 + b * 0x1000 + c * 64;
      SplitSextets(a, b, c, 0);
    } else {
      assert Bits(g[0], 0, 0) == a * 0x4_0000 + b * 0x1000;
      SplitSextets(a, b, 0, 0);
    }
  }

  /** Encoding undoes decoding: the encoder produces the only text that decodes to the data. */
  lemma {:induction false} EncodeDecode(text: seq<byte>)
    requires Decode(text).Some?
    ensures Encode(Decode(text).value) == text
  {
    if text != [] {
      var q, rest := text[..4], text[4..];
      var g := DecodeQuad(q, |text| == 4).value;
      EncodeDecodedQuad(q, |text| == 4);
      EncodeDecode(rest);
      assert text == q + rest;
      if |text| == 4 {
        assert g + [] == g;
      } else {
        EncodeThree(g, Decode(rest).value);
      }
    }
  }

  /** How many groups `n` bytes make, and how many padding characters the last one has. */
  function GroupCount(n: nat): nat {
    if n == 0 then 0 else if n <= 3 then 1 else 1 + GroupCount(n - 3)
  }

  function PadCount(n: nat): nat {
    if n == 0 then 0 else if n <= 3 then 3 - n else PadCount(n - 3)
  }

  lemma {:induction false} CountsAre(n: nat)
    ensures GroupCount(n) == (n + 2) / 3 && PadCount(n) == (3 - n % 3) % 3
  {
    if n > 3 {
      CountsAre(n - 3);
    }
  }

  /** The first `n` characters of `text` are symbols of the alphabet and the others are padding. */
  ghost predicate SymbolsThenPads(text: seq<byte>, n: int) {
    && 0 <= n <= |text|
    && (forall i :: 0 <= i < n ==> SymbolValue(text[i]) >= 0)
    && (forall i :: n <= i < |text| ==> text[i] == PAD)
  }

  lemma {:induction false} EncodeShapeByCounts(data: seq<byte>)
    ensures |Encode(data)| == 4 * GroupCount(|data|)
    ensures SymbolsThenPads(Encode(data), |Encode(data)| - PadCount(|data|))
  {
    if data == [] {
    } else if |data| <= 3 {
      GroupShape(data);
    } else {
      GroupShape(data[..3]);
      EncodeShapeByCounts(data[3..]);
      ShapeConcat(Group(data[..3]), Encode(data[3..]), |Encode(data[3..])| - PadCount(|data|));
    }
  }

  ghost predicate WellShaped(text: seq<byte>, n: nat) {
    |text| == 4 * ((n + 2) / 3) && SymbolsThenPads(text, |text| - (3 - n % 3) % 3)
  }

  lemma ShapeFromCounts(text: seq<byte>, n: nat)
    requires |text| == 4 * GroupCount(n) && SymbolsThenPads(text, |text| - PadCount(n))
    ensures WellShaped(text, n)
  {
    CountsAre(n);
  }

  /** Length `4 * ceil(n / 3)`: symbols of the alphabet, then 0, 2 or 1 padding characters as `n` is
      0, 1 or 2 modulo 3. */
  lemma {:induction false} EncodeShape(data: seq<byte>)
    ensures WellShaped(Encode(data), |data|)
  {
    EncodeShapeByCounts(data);
    ShapeFromCounts(Encode(data), |data|);
  }

  lemma ShapeConcat(a: seq<byte>, b: seq<byte>, n: int)
    requires SymbolsThenPads(a, |a|) && SymbolsThenPads(b, n)
    ensures SymbolsThenPads(a + b, |a| + n)
  {
  }

  lemma GroupShape(g: seq<byte>)
    requires 1 <= |g| <= 3
    ensures SymbolsThenPads(Group(g), 1 + |g|)
  {
    QuadValues(g[0], if |g| >= 2 then g[1] else 0, if |g| == 3 then g[2] else 0, 3 - |g|);
  }

  method TableLookup(v: nat) returns (c: byte)
    requires v < 64
    ensures c == Symbol(v)
  {
    TableIsAlphabet(v);
    c := TABLE[v] as int;
  }

  method EncodeQuad(n: nat, size: nat) returns (out: seq<byte>)
    requires n < 0x100_0000 && 1 <= size <= 3
    ensures out == Quad(n, 3 - size)
  {
    var c0 := TableLookup(n / 0x4_0000 % 64);
    var c1 := TableLookup(n / 0x1000 % 64);
    var c2 := TableLookup(n / 64 % 64);
    var c3 := TableLookup(n % 64);
    out := [c0, c1, if 1 < size then c2 else PAD, if 2 < size then c3 else PAD];
  }

  /** One group of four characters, from the table. */
  method EncodeGroup(g: seq<byte>) returns (out: seq<byte>)
    requires 1 <= |g| <= 3
    ensures out == Group(g)
  {
    var n: int := Bits(g[0], 0, 0);
    if 1 < |g| { n := n + Bits(0, g[1], 0); }
    if 2 < |g| { n := n + g[2]; }
    out := EncodeQuad(n, |g|);
  }

  /** The encoder loop of the relay, three bytes at a time. The client's inline loop over its 16-byte
      nonce is the same loop. */
  method EncodeLoop(data: seq<byte>) returns (out: seq<byte>)
    ensures out == Encode(data)
  {
    out := [];
    var i := 0;
    while i < |data|
      invariant 0 <= i <= |data|
      invariant out + Encode(data[i..]) == Encode(data)
    {
      var end := if i + 3 <= |data| then i + 3 else |data|;
      var group := EncodeGroup(data[i..end]);
      if i + 3 <= |data| {
        assert data[i..] == data[i..end] + data[end..];
        EncodeThree(data[i..end], data[end..]);
      } else {
        assert data[i..end] == data[i..] && data[end..] == [];
      }
      out := out + group;
      i := end;
    }
    assert data[i..] == [];
  }

  /** The test vectors of section 10 of RFC 4648, for the text `foobar` and its beginnings: one group. */
  lemma {:induction false} VectorsOfOneGroup()
    ensures Encode([]) == []
    ensures Encode([102]) == [90, 103, 61, 61]
    ensures Encode([102, 111]) == [90, 109, 56, 61]
    ensures Encode([102, 111, 111]) == [90, 109, 57, 118]
  {
  }

  /** The second groups of the longer vectors. */
  lemma {:induction false} VectorsOfGroups()
    ensures Encode([98]) == [89, 103, 61, 61]
    ensures Encode([98, 97]) == [89, 109, 69, 61]
    ensures Encode([98, 97, 114]) == [89, 109, 70, 121]
  {
  }

  /** The last two symbols of the alphabet. */
  lemma {:induction false} VectorOfLastSymbols()
    ensures Encode([251, 239, 255]) == [43, 43, 47, 47]
  {
  }

  /** The vectors of two groups. */
  lemma {:induction false} VectorsOfTwoGroups()
    ensures Encode([102, 111, 111, 98]) == [90, 109, 57, 118, 89, 103, 61, 61]
    ensures Encode([102, 111, 111, 98, 97]) == [90, 109, 57, 118, 89, 109, 69, 61]
    ensures Encode([102, 111, 111, 98, 97, 114]) == [90, 109, 57, 118, 89, 109, 70, 121]
  {
    VectorsOfOneGroup();
    VectorsOfGroups();
    TwoGroups([102, 111, 111], [98], [102, 111, 111, 98]);
    TwoGroups([102, 111, 111], [98, 97], [102, 111, 111, 98, 97]);
    TwoGroups([102, 111, 111], [98, 97, 114], [102, 111, 111, 98, 97, 114]);
  }

  lemma {:induction false} TwoGroups(g: seq<byte>, rest: seq<byte>, all: seq<byte>)
    requires |g| == 3 && all == g + rest
    ensures Encode(all) == Encode(g) + Encode(rest)
  {
    EncodeThree(g, rest);
  }
}
