/** First-occurrence search, decimal and hexadecimal text. */
module Text {
  import opened Basics
  import opened Bytes

  // ---------------------------------------------------------------- std::string::find

  predicate OccursAt<T(==)>(s: seq<T>, pat: seq<T>, i: int) {
    0 <= i && i + |pat| <= |s| && s[i..i + |pat|] == pat
  }

  predicate Contains<T(==)>(s: seq<T>, pat: seq<T>) {
    Find(s, pat, 0) >= 0
  }

  /** The first position from `from` on where `pat` occurs, or -1 for `npos`. */
  function Find<T(==)>(s: seq<T>, pat: seq<T>, from: nat): (r: int)
    ensures r == -1 || (from <= r && OccursAt(s, pat, r))
    decreases |s| - from
  {
    if from + |pat| > |s| then -1
    else if s[from..from + |pat|] == pat then from
    else if from == |s| then -1
    else Find(s, pat, from + 1)
  }

  /** Nothing is skipped: an occurrence bounds the result. */
  lemma {:induction false} FindSkipsNothing<T>(s: seq<T>, pat: seq<T>, from: nat, i: nat)
    requires from <= i && OccursAt(s, pat, i)
    ensures 0 <= Find(s, pat, from) <= i
    decreases i - from
  {
    if from < i && s[from..from + |pat|] != pat { FindSkipsNothing(s, pat, from + 1, i); }
  }

  lemma FindIs<T>(s: seq<T>, pat: seq<T>, from: nat, k: nat)
    requires from <= k && OccursAt(s, pat, k)
    requires forall i :: from <= i < k ==> !OccursAt(s, pat, i)
    ensures Find(s, pat, from) == k
  {
    FindSkipsNothing(s, pat, from, k);
  }

  lemma {:induction false} ContainsIff<T>(s: seq<T>, pat: seq<T>)
    ensures Contains(s, pat) <==> exists i :: OccursAt(s, pat, i)
  {
    if i :| OccursAt(s, pat, i) {
      FindSkipsNothing(s, pat, 0, i);
    }
  }

  /** Searching from within a prefix's end is searching the rest. */
  lemma {:induction false} FindAfterPrefix<T>(p: seq<T>, s: seq<T>, pat: seq<T>, from: nat)
    ensures Find(p + s, pat, |p| + from)
            == if Find(s, pat, from) < 0 then -1 else |p| + Find(s, pat, from)
    decreases |s| - from
  {
    if from + |pat| <= |s| {
      assert (p + s)[|p| + from..|p| + from + |pat|] == s[from..from + |pat|];
      if s[from..from + |pat|] != pat && from < |s| {
        FindAfterPrefix(p, s, pat, from + 1);
      }
    }
  }

  lemma {:induction false} FindSkips(s: string, pat: string, from: nat, k: nat)
    requires from <= k <= |s|
    requires forall i :: from <= i < k ==> !OccursAt(s, pat, i)
    ensures Find(s, pat, from) == Find(s, pat, k)
    decreases k - from
  {
    if from < k {
      assert !OccursAt(s, pat, from);
      if from + |pat| <= |s| { FindSkips(s, pat, from + 1, k); }
    }
  }

  lemma OccursHead(s: string, pat: string, i: nat)
    requires i < |s| && pat != [] && s[i] != pat[0]
    ensures !OccursAt(s, pat, i)
  {
    assert i + |pat| <= |s| ==> s[i..i + |pat|][0] == s[i];
  }

  lemma PrefixOf(a: string, b: string)
    ensures (a + b)[..|a|] == a && (a + b)[|a|..] == b
  {
  }

  lemma FindFrom(s: string, pat: string, k: nat)
    requires k <= |s|
    ensures Find(s, pat, k) == if Find(s[k..], pat, 0) < 0 then -1 else k + Find(s[k..], pat, 0)
  {
    assert s == s[..k] + s[k..];
    FindAfterPrefix(s[..k], s[k..], pat, 0);
  }

  lemma SuffixOfSuffix(s: string, k: nat, n: nat)
    requires k + n <= |s|
    ensures s[k..][n..] == s[k + n..] && s[k..][..n] == s[k..k + n]
  {
  }

  lemma {:induction false} CharFound(s: string, c: char, k: nat)
    requires k < |s| && s[k] == c
    ensures 0 <= Find(s, [c], 0) <= k
  {
    assert s[k..k + 1] == [c];
    FindSkipsNothing(s, [c], 0, k);
  }

  lemma NoCharBefore(s: string, c: char, k: nat)
    requires k <= |s| && (Find(s, [c], 0) < 0 || Find(s, [c], 0) >= k)
    ensures c !in s[..k]
  {
    forall i | 0 <= i < k ensures s[i] != c {
      if s[i] == c { CharFound(s, c, i); }
    }
  }

  /** Searching past a text without the character. */
  lemma {:induction false} FindPast(pre: string, c: char, rest: string)
    requires c !in pre
    ensures Find(pre + rest, [c], 0) == if Find(rest, [c], 0) < 0 then -1 else |pre| + Find(rest, [c], 0)
  {
    var s := pre + rest;
    forall i | 0 <= i < |pre| ensures !OccursAt(s, [c], i) {
      assert s[i] == pre[i];
      OccursHead(s, [c], i);
    }
    FindSkips(s, [c], 0, |pre|);
    FindAfterPrefix(pre, rest, [c], 0);
  }

  // ---------------------------------------------------------------- decimal

  predicate IsDigit(c: char) {
    '0' <= c <= '9'
  }

  function DigitChar(d: nat): (c: char)
    requires d < 10
    ensures IsDigit(c)
  {
    '0' + d as char
  }

  function DigitValue(c: char): (d: nat)
    requires IsDigit(c)
    ensures d < 10
  {
    c as int - '0' as int
  }

  /** The decimal text of a number, without leading zeros. */
  function Decimal(n: nat): (s: string)
    ensures s != []
    ensures forall i :: 0 <= i < |s| ==> IsDigit(s[i])
  {
    if n < 10 then [DigitChar(n)] else Decimal(n / 10) + [DigitChar(n % 10)]
  }

  /** The value of the digits of `s`. */
  function DecimalValue(s: string): nat
    requires forall i :: 0 <= i < |s| ==> IsDigit(s[i])
  {
    if s == [] then 0 else DecimalValue(s[..|s| - 1]) * 10 + DigitValue(s[|s| - 1])
  }

  lemma {:induction false} DecimalRoundTrip(n: nat)
    ensures DecimalValue(Decimal(n)) == n
  {
    if n < 10 {
      assert Decimal(n)[..0] == [];
    } else {
      DecimalRoundTrip(n / 10);
      assert Decimal(n)[..|Decimal(n)| - 1] == Decimal(n / 10);
    }
  }

  lemma DecimalInjective(a: nat, b: nat)
    requires Decimal(a) == Decimal(b)
    ensures a == b
  {
    DecimalRoundTrip(a);
    DecimalRoundTrip(b);
  }

  /** The run of digits that starts at `from`. */
  function DigitRun(s: string, from: nat): (r: string)
    requires from <= |s|
    ensures forall i :: 0 <= i < |r| ==> IsDigit(r[i])
    decreases |s| - from
  {
    if from < |s| && IsDigit(s[from]) then [s[from]] + DigitRun(s, from + 1) else []
  }

  lemma {:induction false} DigitRunIs(s: string, from: nat, k: nat)
    requires from <= k <= |s|
    requires forall i :: from <= i < k ==> IsDigit(s[i])
    requires k == |s| || !IsDigit(s[k])
    ensures DigitRun(s, from) == s[from..k]
    decreases k - from
  {
    if from < k {
      DigitRunIs(s, from + 1, k);
      assert s[from..k] == [s[from]] + s[from + 1..k];
    }
  }

  // ---------------------------------------------------------------- signed numbers

  predicate IsSpace(c: char) {
    c == ' ' || 9 <= c as int <= 13
  }

  function SkipWhite(s: string, from: nat): (r: nat)
    requires from <= |s|
    ensures from <= r <= |s|
    decreases |s| - from
  {
    if from < |s| && IsSpace(s[from]) then SkipWhite(s, from + 1) else from
  }

  /** The number that the digits from `from` on add to `acc`, up to the first other character. */
  function ReadOn(s: string, from: nat, acc: nat): nat
    requires from <= |s|
    decreases |s| - from
  {
    if from < |s| && IsDigit(s[from]) then ReadOn(s, from + 1, acc * 10 + DigitValue(s[from])) else acc
  }

  /** A number after optional white space and sign; what follows it is ignored. */
  function SignedNumber(s: string): Option<int> {
    var i := SkipWhite(s, 0);
    var negative := i < |s| && s[i] == '-';
    var first := if negative || (i < |s| && s[i] == '+') then i + 1 else i;
    if first == |s| || !IsDigit(s[first]) then None
    else Some(if negative then 0 - ReadOn(s, first, 0) else ReadOn(s, first, 0))
  }

  /** `atoi`, as the GNU C library has it: `strtol`, which saturates, cast to `int`. */
  function Atoi(s: string): int32 {
    var n := SignedNumber(s);
    var long := if n.None? then 0
                else if n.value < -0x8000_0000_0000_0000 then -0x8000_0000_0000_0000
                else if n.value > 0x7FFF_FFFF_FFFF_FFFF then 0x7FFF_FFFF_FFFF_FFFF
                else n.value;
    CastInt32(long)
  }

  /** Reading digits forwards gives the value of the run of digits from `b` to `k`. */
  lemma {:induction false} ReadOnIs(s: string, b: nat, from: nat, k: nat)
    requires b <= from <= k <= |s| && (k < |s| ==> !IsDigit(s[k]))
    requires forall i :: b <= i < k ==> IsDigit(s[i])
    ensures ReadOn(s, from, DecimalValue(s[b..from])) == DecimalValue(s[b..k])
    decreases k - from
  {
    if from < k {
      assert s[b..from + 1][..from - b] == s[b..from];
      ReadOnIs(s, b, from + 1, k);
    }
  }

  lemma {:induction false} SkipWhiteIs(s: string, from: nat, k: nat)
    requires from <= k <= |s| && (k < |s| ==> !IsSpace(s[k])) && forall i :: from <= i < k ==> IsSpace(s[i])
    ensures SkipWhite(s, from) == k
    decreases k - from
  {
    if from < k { SkipWhiteIs(s, from + 1, k); }
  }

  /** An optional sign. */
  datatype Sign = NoSign | Plus | Minus {
    function Text(): string {
      match this
      case NoSign => ""
      case Plus => "+"
      case Minus => "-"
    }
  }

  lemma {:induction false} DecimalReadFrom(s: string, first: nat, n: nat)
    requires first + |Decimal(n)| <= |s| && s[first..first + |Decimal(n)|] == Decimal(n)
    requires first + |Decimal(n)| < |s| ==> !IsDigit(s[first + |Decimal(n)|])
    ensures IsDigit(s[first]) && ReadOn(s, first, 0) == n
  {
    var d := Decimal(n);
    var k := first + |d|;
    forall i | first <= i < k
      ensures IsDigit(s[i])
    {
      assert s[i] == d[i - first];
    }
    assert s[first..first] == "";
    ReadOnIs(s, first, first, k);
    DecimalRoundTrip(n);
  }

  predicate IsWhite(s: string) {
    forall c :: c in s ==> c in [' ', '\t', '\n', 11 as char, 12 as char, '\r']
  }

  lemma {:induction false} AfterWhite(white: string, t: string)
    requires IsWhite(white) && t != "" && !IsSpace(t[0])
    ensures SkipWhite(white + t, 0) == |white| && (white + t)[|white|..] == t
  {
    forall i | 0 <= i < |white|
      ensures IsSpace((white + t)[i])
    {
      assert (white + t)[i] == white[i] && white[i] in white;
    }
    SkipWhiteIs(white + t, 0, |white|);
  }

  lemma {:induction false} DecimalThenRest(s: string, first: nat, n: nat, rest: string)
    requires first <= |s| && s[first..] == Decimal(n) + rest && (rest != "" ==> !('0' <= rest[0] <= '9'))
    ensures first < |s| && s[first] == Decimal(n)[0] && ReadOn(s, first, 0) == n
  {
    var d := Decimal(n);
    assert |s| - first == |s[first..]| == |d| + |rest|;
    assert s[first..first + |d|] == s[first..][..|d|] == d;
    assert rest != "" ==> s[first + |d|] == s[first..][|d|] == rest[0];
    assert s[first] == s[first..][0];
    DecimalReadFrom(s, first, n);
  }

  /** White space is any of these six characters; after it and a sign the digits count up to the first other
      character. */
  lemma {:induction false} SignedNumberReads(white: string, sign: Sign, n: nat, rest: string)
    requires IsWhite(white) && (rest != "" ==> !('0' <= rest[0] <= '9'))
    ensures SignedNumber(white + (sign.Text() + (Decimal(n) + rest))) == Some(if sign.Minus? then 0 - n else n)
  {
    var digits := Decimal(n) + rest;
    var t := sign.Text() + digits;
    var s, k := white + t, |white|;
    assert digits[0] == Decimal(n)[0];
    AfterWhite(white, t);
    assert s[k] == t[0];
    if sign.NoSign? {
      DecimalThenRest(s, k, n, rest);
    } else {
      assert s[k + 1..] == t[1..] == digits;
      DecimalThenRest(s, k + 1, n, rest);
    }
  }

  /** A number as it is written. */
  function Numeral(n: int): string {
    if n < 0 then "-" + Decimal(0 - n) else Decimal(n)
  }

  lemma {:induction false} SignedNumberOfNumeral(n: int)
    ensures SignedNumber(Numeral(n)) == Some(n)
  {
    var sign := if n < 0 then Minus else NoSign;
    var d := Decimal(if n < 0 then 0 - n else n);
    SignedNumberReads("", sign, if n < 0 then 0 - n else n, "");
    assert d + "" == d && "" + d == d;
    assert "" + (sign.Text() + (d + "")) == Numeral(n);
  }

  /** `atoi` of a written number is that number when it fits in 32 bits, and differs from it by a multiple of
      their range when it fits in 64. */
  lemma {:induction false} AtoiOfNumeral(n: int)
    ensures -0x8000_0000 <= n < 0x8000_0000 ==> Atoi(Numeral(n)) == n
    ensures -0x8000_0000_0000_0000 <= n < 0x8000_0000_0000_0000 ==> (Atoi(Numeral(n)) - n) % 0x1_0000_0000 == 0
    ensures n < -0x8000_0000_0000_0000 ==> Atoi(Numeral(n)) == 0
    ensures n >= 0x8000_0000_0000_0000 ==> Atoi(Numeral(n)) == -1
  {
    SignedNumberOfNumeral(n);
  }

  /** The digits, and no zero before another digit. */
  lemma {:induction false} DecimalIsWritten(n: nat)
    ensures n < 10 ==> Decimal(n) == ["0123456789"[n]]
    ensures Decimal(n)[0] == '0' ==> Decimal(n) == "0"
  {
    if n >= 10 {
      DecimalIsWritten(n / 10);
      DecimalRoundTrip(n / 10);
    }
  }

  // ---------------------------------------------------------------- hexadecimal

  function HexDigit(d: nat): char
    requires d < 16
  {
    if d < 10 then '0' + d as char else 'a' + (d - 10) as char
  }

  /** Two lower-case digits per byte. */
  function ToHex(key: seq<byte>): (s: string)
    ensures |s| == 2 * |key|
  {
    if key == [] then []
    else
      var b := key[|key| - 1];
      ToHex(key[..|key| - 1]) + [HexDigit(b / 16), HexDigit(b % 16)]
  }

  /** The value of a hexadecimal digit of either case, or -1. */
  function HexValue(c: char): (v: int)
    ensures -1 <= v < 16
  {
    if '0' <= c <= '9' then c as int - '0' as int
    else if 'a' <= c <= 'f' then c as int - 'a' as int + 10
    else if 'A' <= c <= 'F' then c as int - 'A' as int + 10
    else -1
  }

  /** `strtoul` in base 16 on a string of these two characters, cast to `uint8_t`. White space and a
      sign are skipped, and conversion stops at the first other character. */
  function HexByte(c0: char, c1: char): byte {
    var v0, v1 := HexValue(c0), HexValue(c1);
    if v0 >= 0 then if v1 >= 0 then 16 * v0 + v1 else v0
    else if v1 >= 0 && (IsSpace(c0) || c0 == '+') then v1
    else if v1 >= 0 && c0 == '-' then (256 - v1) % 256
    else 0
  }

  function FromHex(hex: string): (key: seq<byte>)
    ensures |key| == |hex| / 2
  {
    seq(|hex| / 2, i requires 0 <= i < |hex| / 2 => HexByte(hex[2 * i], hex[2 * i + 1]))
  }

  lemma HexByteOfDigits(b: byte)
    ensures HexByte(HexDigit(b / 16), HexDigit(b % 16)) == b
  {
  }

  lemma {:induction false} ToHexAt(key: seq<byte>, i: nat)
    requires i < |key|
    ensures ToHex(key)[2 * i] == HexDigit(key[i] / 16) && ToHex(key)[2 * i + 1] == HexDigit(key[i] % 16)
  {
    if i < |key| - 1 {
      ToHexAt(key[..|key| - 1], i);
    }
  }

  /** The hexadecimal loops undo each other on every key. */
  lemma {:induction false} HexRoundTrip(key: seq<byte>)
    ensures FromHex(ToHex(key)) == key
  {
    forall i | 0 <= i < |key|
      ensures FromHex(ToHex(key))[i] == key[i]
    {
      ToHexAt(key, i);
      HexByteOfDigits(key[i]);
    }
  }

  /** The digits of either case; the printer writes lower case. */
  lemma {:induction false} HexCharacters(d: nat)
    requires d < 16
    ensures HexDigit(d) == "0123456789abcdef"[d]
    ensures HexValue("0123456789abcdef"[d]) == d && HexValue("0123456789ABCDEF"[d]) == d
  {
  }

  lemma {:induction false} OtherCharacters(c: char)
    ensures HexValue(c) == -1 <==> !('0' <= c <= '9' || 'a' <= c <= 'f' || 'A' <= c <= 'F')
  {
  }

  /** What `strtoul` makes of one digit and another character: the digit first counts alone, white space and a
      plus before it are skipped, a minus wraps, and anything else is zero. */
  lemma {:induction false} HexByteOfOne(d: nat, c: char)
    requires d < 16 && !('0' <= c <= '9' || 'a' <= c <= 'f' || 'A' <= c <= 'F')
    ensures HexByte("0123456789abcdef"[d], c) == d
    ensures HexByte(c, "0123456789abcdef"[d])
            == if c in [' ', '\t', '\n', 11 as char, 12 as char, '\r', '+'] then d
               else if c == '-' && d > 0 then 256 - d
               else 0
  {
    HexCharacters(d);
    OtherCharacters(c);
  }

  lemma {:induction false} ToHexHasNoQuote(key: seq<byte>)
    ensures forall i :: 0 <= i < |ToHex(key)| ==> HexValue(ToHex(key)[i]) >= 0
  {
    if key != [] { ToHexHasNoQuote(key[..|key| - 1]); }
  }

  method KeyToHex(key: seq<byte>) returns (hex: string)
    ensures hex == ToHex(key)
  {
    hex := "";
    for i := 0 to |key|
      invariant hex == ToHex(key[..i])
    {
      assert key[..i + 1][..i] == key[..i];
      hex := hex + [HexDigit(key[i] / 16), HexDigit(key[i] % 16)];
    }
    assert key[..|key|] == key;
  }

  /** Writes the decoded bytes into `out`; a text of another length leaves it alone. */
  method HexToKey(hex: string, out: array<byte>) returns (ok: bool)
    modifies out
    ensures ok <==> |hex| == 2 * out.Length
    ensures out[..] == if ok then FromHex(hex) else old(out[..])
  {
    if |hex| != out.Length * 2 { return false; }
    var i := 0;
    while i < out.Length
      invariant 0 <= i <= out.Length
      invariant out[..i] == FromHex(hex)[..i]
    {
      out[i] := HexByte(hex[2 * i], hex[2 * i + 1]);
      i := i + 1;
    }
    return true;
  }
}
