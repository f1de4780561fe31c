/** Bytes, exclusive or, big-endian numbers. */
module Bytes {

  type byte = x: int | 0 <= x < 256
  type Key = k: seq<byte> | |k| == 32 witness seq(32, _ => 0)

  function Pow2(n: nat): (p: nat)
    ensures p >= 1
  {
    if n == 0 then 1 else 2 * Pow2(n - 1)
  }

  /** Exclusive or of the `n` low bits. */
  function XorBits(n: nat, a: nat, b: nat): (r: nat)
    ensures r < Pow2(n)
  {
    if n == 0 then 0 else 2 * XorBits(n - 1, a / 2, b / 2) + (a + b) % 2
  }

  lemma LowBitUndone(h: nat, a: nat, b: nat)
    ensures (2 * h + (a + b) % 2) / 2 == h
    ensures (2 * h + (a + b) % 2 + b) % 2 == a % 2
  {
  }

  lemma {:induction false} XorBitsUndone(n: nat, a: nat, b: nat)
    requires a < Pow2(n)
    ensures XorBits(n, XorBits(n, a, b), b) == a
  {
    if n > 0 {
      LowBitUndone(XorBits(n - 1, a / 2, b / 2), a, b);
      XorBitsUndone(n - 1, a / 2, b / 2);
    }
  }

  lemma Pow2Of8()
    ensures Pow2(8) == 256
  {
    assert Pow2(4) == 16;
  }

  function Xor(a: byte, b: byte): byte {
    Pow2Of8();
    XorBits(8, a, b)
  }

  lemma {:induction false} XorBitsOfZero(n: nat, b: nat)
    requires b < Pow2(n)
    ensures XorBits(n, 0, b) == b
  {
    if n > 0 { XorBitsOfZero(n - 1, b / 2); }
  }

  lemma XorOfZero(b: byte)
    ensures Xor(0, b) == b
  {
    Pow2Of8();
    XorBitsOfZero(8, b);
  }

  lemma XorUndone(a: byte, b: byte)
    ensures Xor(Xor(a, b), b) == a
  {
    Pow2Of8();
    XorBitsUndone(8, a, b);
  }

  function Halved(n: nat, i: nat): nat {
    if i == 0 then n else Halved(n / 2, i - 1)
  }

  lemma {:induction false} XorBitsAt(n: nat, a: nat, b: nat, i: nat)
    requires i < n
    ensures Halved(XorBits(n, a, b), i) % 2 == (Halved(a, i) + Halved(b, i)) % 2
  {
    LowBitUndone(XorBits(n - 1, a / 2, b / 2), a, b);
    if i > 0 { XorBitsAt(n - 1, a / 2, b / 2, i - 1); }
  }

  lemma {:induction false} HalvedThrice(n: nat, i: nat)
    ensures Halved(n, 0) == n && Halved(n, 1) == n / 2 && Halved(n, 2) == n / 4
    ensures Halved(n, i + 3) == Halved(n / 8, i)
  {
    assert Halved(n, i + 3) == Halved(n / 2, i + 2) == Halved(n / 2 / 2, i + 1) == Halved(n / 2 / 2 / 2, i);
    assert Halved(n, 2) == Halved(n / 2, 1) == Halved(n / 2 / 2, 0);
  }

  lemma {:induction false} HalvedIs(n: nat)
    ensures Halved(n, 0) == n && Halved(n, 1) == n / 2 && Halved(n, 2) == n / 4 && Halved(n, 3) == n / 8
    ensures Halved(n, 4) == n / 16 && Halved(n, 5) == n / 32 && Halved(n, 6) == n / 64 && Halved(n, 7) == n / 128
  {
    HalvedThrice(n, 0);
    HalvedThrice(n, 1);
    HalvedThrice(n, 2);
    HalvedThrice(n, 3);
    HalvedThrice(n, 4);
    HalvedThrice(n / 8, 0);
    HalvedThrice(n / 8, 1);
  }

  /** Which bit is worth `p`. */
  function Place(p: nat): (i: nat)
    ensures i < 8
  {
    if p == 1 then 0 else if p == 2 then 1 else if p == 4 then 2 else if p == 8 then 3
    else if p == 16 then 4 else if p == 32 then 5 else if p == 64 then 6 else 7
  }

  lemma {:induction false} HalvedAt(n: nat, p: nat)
    requires p in {1, 2, 4, 8, 16, 32, 64, 128}
    ensures Halved(n, Place(p)) == n / p
  {
    HalvedIs(n);
  }

  lemma Parity(r: nat, x: nat, y: nat)
    requires r % 2 == (x + y) % 2
    ensures r % 2 == 1 <==> x % 2 != y % 2
  {
  }

  /** What exclusive or is, bit by bit: the bit worth `p` is set exactly when it is set in one of the two
      bytes and not in the other. */
  lemma {:induction false} XorBit(a: byte, b: byte, p: nat)
    requires p in {1, 2, 4, 8, 16, 32, 64, 128}
    ensures Xor(a, b) / p % 2 == 1 <==> a / p % 2 != b / p % 2
  {
    HalvedAt(a, p);
    HalvedAt(b, p);
    HalvedAt(Xor(a, b), p);
    XorBitsAt(8, a, b, Place(p));
    Parity(Halved(Xor(a, b), Place(p)), Halved(a, Place(p)), Halved(b, Place(p)));
  }

  /** `data` combined with `key`, repeated as often as needed. */
  function XorCycle(data: seq<byte>, key: seq<byte>): (r: seq<byte>)
    requires key != []
    ensures |r| == |data|
    ensures forall i :: 0 <= i < |data| ==> r[i] == Xor(data[i], key[i % |key|])
  {
    seq(|data|, i requires 0 <= i < |data| => Xor(data[i], key[i % |key|]))
  }

  lemma XorCycleUndone(data: seq<byte>, key: seq<byte>)
    requires key != []
    ensures XorCycle(XorCycle(data, key), key) == data
  {
    forall i | 0 <= i < |data|
      ensures XorCycle(XorCycle(data, key), key)[i] == data[i]
    {
      XorUndone(data[i], key[i % |key|]);
    }
  }

  /** The in-place exclusive or with a repeated key. */
  method XorInPlace(data: array<byte>, key: seq<byte>)
    requires key != []
    modifies data
    ensures data[..] == XorCycle(old(data[..]), key)
  {
    var i := 0;
    while i < data.Length
      invariant 0 <= i <= data.Length
      invariant data[..i] == XorCycle(old(data[..]), key)[..i]
      invariant data[i..] == old(data[..])[i..]
    {
      assert data[i] == old(data[..])[i];
      data[i] := Xor(data[i], key[i % |key|]);
      i := i + 1;
    }
  }

  // ---------------------------------------------------------------- big-endian numbers

  function Pow256(k: nat): (p: nat)
    ensures p >= 1
  {
    if k == 0 then 1 else 256 * Pow256(k - 1)
  }

  /** The `k` low bytes of `n`, most significant first. */
  function ToBytes(n: nat, k: nat): (b: seq<byte>)
    ensures |b| == k
  {
    if k == 0 then [] else ToBytes(n / 256, k - 1) + [n % 256]
  }

  function FromBytes(b: seq<byte>): nat {
    if b == [] then 0 else FromBytes(b[..|b| - 1]) * 256 + b[|b| - 1]
  }

  lemma {:induction false} FromToBytes(n: nat, k: nat)
    requires n < Pow256(k)
    ensures FromBytes(ToBytes(n, k)) == n
  {
    if k > 0 {
      FromToBytes(n / 256, k - 1);
      assert ToBytes(n, k)[..k - 1] == ToBytes(n / 256, k - 1);
    }
  }

  lemma {:induction false} FromBytesBound(b: seq<byte>)
    ensures FromBytes(b) < Pow256(|b|)
  {
    if b != [] { FromBytesBound(b[..|b| - 1]); }
  }

  lemma Pow256Values()
    ensures Pow256(1) == 256
    ensures Pow256(2) == 0x1_0000
    ensures Pow256(8) == 0x1_0000_0000_0000_0000
  {
    assert Pow256(4) == 0x1_0000_0000;
  }

  /** `n >> (8 * i)`. */
  function ShiftRight8(n: nat, i: nat): nat {
    if i == 0 then n else ShiftRight8(n / 256, i - 1)
  }

  lemma {:induction false} ShiftRight8Step(n: nat, i: nat)
    ensures ShiftRight8(n, i + 1) == ShiftRight8(n, i) / 256
  {
    if i > 0 { ShiftRight8Step(n / 256, i - 1); }
  }

  lemma {:induction false} ShiftRight8Vanishes(n: nat, i: nat)
    requires n < Pow256(i)
    ensures ShiftRight8(n, i) == 0
  {
    if i > 0 { ShiftRight8Vanishes(n / 256, i - 1); }
  }

  lemma {:induction false} Pow256Monotone(a: nat, b: nat)
    requires a <= b
    ensures Pow256(a) <= Pow256(b)
  {
    if a < b { Pow256Monotone(a, b - 1); }
  }
}
