/** The identity file: a hand-written printer, and a reader that looks for a quoted key and then for
    the next quotes. The reader does not know about escapes, and the printer writes none. */
module Identity {
  import opened Basics
  import opened Bytes
  import opened Text


  datatype Identity = Identity(publicKey: Key, secretKey: Key, displayName: string, createdAt: uint64)

  const QUOTE: string := ['\"']

  // ---------------------------------------------------------------- the printer

  function Line(key: string, value: string): string {
    "  \"" + key + "\": \"" + value + "\",\n"
  }

  function LastLines(createdAt: uint64): string {
    "  \"created_at\": " + Decimal(createdAt) + "\n" + "}\n"
  }

  /** The text of `id`; the secret key is combined with `pad`, which is stored beside it. */
  function SaveText(id: Identity, pad: Key): string {
    "{\n"
    + (Line("pubkey", ToHex(id.publicKey))
    + (Line("enc_privkey", ToHex(XorCycle(id.secretKey, pad)))
    + (Line("obf_pad", ToHex(pad))
    + (Line("display_name", id.displayName) + LastLines(id.createdAt)))))
  }

  // ---------------------------------------------------------------- the reader

  function Quoted(key: string): string {
    QUOTE + key + QUOTE
  }

  /** The end of the first occurrence of the quoted key, or -1. */
  function KeyEnd(content: string, key: string): (r: int)
    ensures -1 <= r <= |content|
  {
    var pos := Find(content, Quoted(key), 0);
    if pos < 0 then -1 else pos + |Quoted(key)|
  }

  /** The text between the next two quotes. */
  function NextQuoted(s: string, from: nat): string {
    var open := Find(s, QUOTE, from);
    if open < 0 then "" else
      var end := Find(s, QUOTE, open + 1);
      if end < 0 then "" else s[open + 1..end]
  }

  /** The quoted text after the first occurrence of the quoted key. */
  function Extract(content: string, key: string): string {
    var end := KeyEnd(content, key);
    if end < 0 then "" else NextQuoted(content, end)
  }

  function SkipSpaces(s: string, from: nat): (r: nat)
    requires from <= |s|
    ensures from <= r <= |s|
    decreases |s| - from
  {
    if from < |s| && s[from] == ' ' then SkipSpaces(s, from + 1) else from
  }

  /** `strtoull` on a run of digits: it saturates. */
  function Strtoull(digits: string): uint64
    requires forall i :: 0 <= i < |digits| ==> IsDigit(digits[i])
  {
    var v := DecimalValue(digits);
    if v < 0x1_0000_0000_0000_0000 then v else 0xFFFF_FFFF_FFFF_FFFF
  }

  /** The digits after the next colon. */
  function NumberFrom(s: string, from: nat): uint64 {
    var colon := Find(s, ":", from);
    if colon < 0 then 0 else Strtoull(DigitRun(s, SkipSpaces(s, colon + 1)))
  }

  /** The number after the first occurrence of the quoted key. */
  function ExtractNum(content: string, key: string): uint64 {
    var end := KeyEnd(content, key);
    if end < 0 then 0 else NumberFrom(content, end)
  }

  /** The public and secret keys of three extracted texts. A pad that is not 64 characters long is
      ignored; the other two must be. */
  function KeysOf(pub: string, priv: string, pad: string): Option<(Key, Key)> {
    if |pub| != 64 || |priv| != 64 then None
    else Some((FromHex(pub), if |pad| == 64 then XorCycle(FromHex(priv), FromHex(pad)) else FromHex(priv)))
  }

  function LoadText(content: string): Option<Identity> {
    match KeysOf(Extract(content, "pubkey"), Extract(content, "enc_privkey"), Extract(content, "obf_pad"))
    case None => None
    case Some((public, secret)) =>
      Some(Identity(public, secret, Extract(content, "display_name"), ExtractNum(content, "created_at")))
  }

  // ---------------------------------------------------------------- text as pieces between quotes

  ghost predicate QuoteFree(s: string) {
    '\"' !in s
  }

  function Join(pieces: seq<string>): string
    requires pieces != []
  {
    if |pieces| == 1 then pieces[0] else pieces[0] + QUOTE + Join(pieces[1..])
  }

  ghost predicate AllQuoteFree(pieces: seq<string>) {
    forall p :: p in pieces ==> QuoteFree(p)
  }

  /** What follows the first piece, with another after it, that equals `key`. The piece before the first
      quote does not qualify. */
  function After(pieces: seq<string>, key: string): (r: Option<seq<string>>)
    ensures r.Some? ==> r.value != [] && |r.value| < |pieces| && r.value == pieces[|pieces| - |r.value|..]
  {
    if |pieces| < 3 then None
    else if pieces[1] == key then Some(pieces[2..])
    else After(pieces[1..], key)
  }

  /** A pattern that begins with a quote is not found inside a piece. */
  lemma FindPassesPiece(p: string, rest: string, pat: string)
    requires QuoteFree(p) && pat != [] && pat[0] == '\"'
    ensures Find(p + rest, pat, 0) == Find(p + rest, pat, |p|)
  {
    forall i | 0 <= i < |p| ensures !OccursAt(p + rest, pat, i) {
      assert (p + rest)[i] == p[i];
      OccursHead(p + rest, pat, i);
    }
    FindSkips(p + rest, pat, 0, |p|);
  }

  lemma {:induction false} FirstQuote(p: string, rest: string)
    requires QuoteFree(p)
    ensures Find(p + (QUOTE + rest), QUOTE, 0) == |p|
  {
    FindPassesPiece(p, QUOTE + rest, QUOTE);
    assert (p + (QUOTE + rest))[|p|..|p| + 1] == QUOTE;
  }

  lemma NoQuote(p: string)
    requires QuoteFree(p)
    ensures Find(p, QUOTE, 0) == -1
  {
    FindPassesPiece(p, [], QUOTE);
    assert p + [] == p;
  }

  /** The next quote ends the current piece. */
  lemma QuoteEndsPiece(pieces: seq<string>)
    requires pieces != [] && AllQuoteFree(pieces)
    ensures Find(Join(pieces), QUOTE, 0) == if |pieces| == 1 then -1 else |pieces[0]|
  {
    var p := pieces[0];
    assert QuoteFree(p);
    if |pieces| == 1 {
      NoQuote(p);
    } else {
      Associates(p, QUOTE, Join(pieces[1..]));
      FirstQuote(p, Join(pieces[1..]));
    }
  }

  /** A key and its closing quote begin a text exactly when the key is its first piece. */
  lemma {:induction false} KeyAtHead(pieces: seq<string>, key: string)
    requires pieces != [] && AllQuoteFree(pieces) && QuoteFree(key)
    ensures OccursAt(Join(pieces), key + QUOTE, 0) <==> |pieces| >= 2 && pieces[0] == key
  {
    var s, n := Join(pieces), |key| + 1;
    QuoteEndsPiece(pieces);
    if |pieces| >= 2 && pieces[0] == key {
      PrefixOf(key + QUOTE, Join(pieces[1..]));
    }
    if OccursAt(s, key + QUOTE, 0) {
      assert s == (key + QUOTE) + s[n..];
      Associates(key, QUOTE, s[n..]);
      FirstQuote(key, s[n..]);
      PrefixOf(key, QUOTE + s[n..]);
      JoinHead(pieces);
    }
  }

  lemma JoinHead(pieces: seq<string>)
    requires pieces != []
    ensures |pieces[0]| <= |Join(pieces)| && Join(pieces)[..|pieces[0]|] == pieces[0]
  {
    if |pieces| > 1 {
      Associates(pieces[0], QUOTE, Join(pieces[1..]));
      PrefixOf(pieces[0], QUOTE + Join(pieces[1..]));
    }
  }

  lemma OccursAtQuote(p: string, t: string, pat: string)
    ensures OccursAt(p + (QUOTE + t), QUOTE + pat, |p|) <==> OccursAt(t, pat, 0)
  {
    var s, n := p + (QUOTE + t), |pat|;
    if n <= |t| {
      assert s[|p|..|p| + (1 + n)] == QUOTE + t[..n];
      PrefixOf(QUOTE, pat);
      PrefixOf(QUOTE, t[..n]);
    }
  }

  lemma ShiftSuffix(a: string, b: string, k: nat)
    requires k <= |b|
    ensures (a + b)[|a| + k..] == b[k..]
  {
  }

  lemma {:induction false} KeyBetween(p: string, rest: seq<string>)
    requires |rest| >= 2
    ensures (p + (QUOTE + Join(rest)))[|p| + |Quoted(rest[0])|..] == Join(rest[1..])
  {
    var u := Join(rest[1..]);
    PrefixOf(rest[0] + QUOTE, u);
    ShiftSuffix(QUOTE, Join(rest), |rest[0]| + 1);
    ShiftSuffix(p, QUOTE + Join(rest), |rest[0]| + 2);
  }

  lemma {:induction false} KeyAtFirstQuote(p: string, t: string, key: string)
    requires QuoteFree(p)
    ensures var s, pat := p + (QUOTE + t), Quoted(key);
            && Find(s, pat, 0) == Find(s, pat, |p|)
            && (OccursAt(s, pat, |p|) <==> OccursAt(t, key + QUOTE, 0))
  {
    Associates(QUOTE, key, QUOTE);
    FindPassesPiece(p, QUOTE + t, Quoted(key));
    OccursAtQuote(p, t, key + QUOTE);
  }

  lemma {:induction false} FindPastQuote(p: string, t: string, pat: string)
    ensures Find(p + (QUOTE + t), pat, |p| + 1) == if Find(t, pat, 0) < 0 then -1 else |p| + 1 + Find(t, pat, 0)
  {
    Associates(p, QUOTE, t);
    FindAfterPrefix(p + QUOTE, t, pat, 0);
  }

  /** The search for a quoted key in the text after the first quote. */
  lemma {:induction false} KeySearch(p: string, t: string, key: string)
    requires QuoteFree(p)
    ensures var s, pat := p + (QUOTE + t), Quoted(key);
            if OccursAt(t, key + QUOTE, 0) then Find(s, pat, 0) == |p|
            else Find(s, pat, 0) == if Find(t, pat, 0) < 0 then -1 else |p| + 1 + Find(t, pat, 0)
  {
    var s, pat := p + (QUOTE + t), Quoted(key);
    KeyAtFirstQuote(p, t, key);
    if OccursAt(t, key + QUOTE, 0) {
      FindIs(s, pat, |p|, |p|);
    } else {
      FindSkips(s, pat, |p|, |p| + 1);
      FindPastQuote(p, t, pat);
    }
  }

  /** The search for a quoted key in `s` stops before `rest`. */
  ghost predicate Leads(s: string, key: string, rest: string) {
    KeyEnd(s, key) >= 0 && s[KeyEnd(s, key)..] == rest
  }

  lemma {:induction false} KeyHere(p: string, rest: seq<string>)
    requires |rest| >= 2 && AllQuoteFree(rest) && QuoteFree(p)
    ensures Leads(p + (QUOTE + Join(rest)), rest[0], Join(rest[1..]))
  {
    KeySearch(p, Join(rest), rest[0]);
    KeyAtHead(rest, rest[0]);
    KeyBetween(p, rest);
  }

  lemma {:induction false} KeyLater(p: string, t: string, key: string)
    requires QuoteFree(p) && !OccursAt(t, key + QUOTE, 0)
    ensures var s, pos := p + (QUOTE + t), Find(t, Quoted(key), 0);
            if pos < 0 then Find(s, Quoted(key), 0) == -1 else Leads(s, key, t[pos + |Quoted(key)|..])
  {
    KeySearch(p, t, key);
    var pos := Find(t, Quoted(key), 0);
    if pos >= 0 {
      Associates(p, QUOTE, t);
      ShiftSuffix(p + QUOTE, t, pos + |Quoted(key)|);
    }
  }

  /** Where the search for a quoted key stops, in terms of the pieces of the text. */
  lemma {:induction false} KeyFound(pieces: seq<string>, key: string)
    requires pieces != [] && AllQuoteFree(pieces) && QuoteFree(key)
    ensures match After(pieces, key)
            case None => KeyEnd(Join(pieces), key) == -1
            case Some(a) => Leads(Join(pieces), key, Join(a))
  {
    var p := pieces[0];
    assert QuoteFree(p);
    if |pieces| == 1 {
      FindPassesPiece(p, [], Quoted(key));
      assert p + [] == p;
    } else {
      var rest := pieces[1..];
      assert AllQuoteFree(rest);
      Associates(p, QUOTE, Join(rest));
      if |rest| >= 2 && rest[0] == key {
        assert rest[1..] == pieces[2..];
        KeyHere(p, rest);
      } else {
        KeyAtHead(rest, key);
        KeyLater(p, Join(rest), key);
        KeyFound(rest, key);
      }
    }
  }

  lemma JoinTail(pieces: seq<string>)
    requires |pieces| >= 2
    ensures |pieces[0]| < |Join(pieces)| && Join(pieces)[|pieces[0]| + 1..] == Join(pieces[1..])
  {
    PrefixOf(pieces[0] + QUOTE, Join(pieces[1..]));
  }

  /** Past the first quote of some text, the rest of its pieces. */
  lemma {:induction false} NextPiece(s: string, k: nat, pieces: seq<string>)
    requires k <= |s| && pieces != [] && AllQuoteFree(pieces) && s[k..] == Join(pieces)
    ensures |pieces| == 1 ==> Find(s, QUOTE, k) == -1
    ensures |pieces| > 1 ==>
              var open := k + |pieces[0]|;
              Find(s, QUOTE, k) == open < |s| && s[open + 1..] == Join(pieces[1..]) && s[k..open] == pieces[0]
  {
    FindFrom(s, QUOTE, k);
    QuoteEndsPiece(pieces);
    if |pieces| > 1 {
      JoinTail(pieces);
      JoinHead(pieces);
      SuffixOfSuffix(s, k, |pieces[0]|);
      SuffixOfSuffix(s, k, |pieces[0]| + 1);
    }
  }

  lemma {:induction false} NextQuotedIsPiece(s: string, k: nat, a: seq<string>)
    requires k <= |s| && a != [] && AllQuoteFree(a) && s[k..] == Join(a)
    ensures NextQuoted(s, k) == if |a| < 3 then "" else a[1]
  {
    NextPiece(s, k, a);
    if |a| > 1 { NextQuotedFrom(s, k, k + |a[0]| + 1, a[1..]); }
  }

  lemma {:induction false} NextQuotedFrom(s: string, k: nat, o: nat, rest: seq<string>)
    requires k < o <= |s| && rest != [] && AllQuoteFree(rest) && s[o..] == Join(rest) && Find(s, QUOTE, k) == o - 1
    ensures NextQuoted(s, k) == if |rest| < 2 then "" else rest[0]
  {
    NextPiece(s, o, rest);
  }

  // ---------------------------------------------------------------- the pieces of a saved file

  lemma {:induction false} JoinAppend(a: seq<string>, b: seq<string>)
    requires a != [] && b != []
    ensures Join(a + b) == Join(a) + QUOTE + Join(b)
  {
    if |a| == 1 {
      assert (a + b)[1..] == b;
    } else {
      assert (a + b)[1..] == a[1..] + b;
      JoinAppend(a[1..], b);
    }
  }

  /** A text cut at its quotes. */
  function Pieces(s: string): (r: seq<string>)
    ensures r != []
  {
    if s == [] then [""]
    else
      var r := Pieces(s[1..]);
      if s[0] == '\"' then [""] + r else [[s[0]] + r[0]] + r[1..]
  }

  /** The part of a text before its first quote. */
  function UpToQuote(s: string): string {
    if s == [] || s[0] == '\"' then "" else [s[0]] + UpToQuote(s[1..])
  }

  lemma {:induction false} UpToQuoteIsAll(s: string)
    ensures UpToQuote(s) == s <==> QuoteFree(s)
  {
    if s != [] {
      UpToQuoteIsAll(s[1..]);
      assert s == [s[0]] + s[1..];
      if s[0] != '\"' && UpToQuote(s) == s {
        assert UpToQuote(s[1..]) == UpToQuote(s)[1..] == s[1..];
      }
    }
  }

  lemma {:induction false} PiecesJoin(s: string)
    ensures Join(Pieces(s)) == s && AllQuoteFree(Pieces(s)) && Pieces(s)[0] == UpToQuote(s)
    ensures QuoteFree(s) ==> Pieces(s) == [s]
  {
    if s != [] {
      var r := Pieces(s[1..]);
      PiecesJoin(s[1..]);
      assert s == [s[0]] + s[1..];
      assert QuoteFree(r[0]);
      if s[0] == '\"' {
        assert ([""] + r)[1..] == r;
      } else {
        var c := [s[0]] + r[0];
        assert QuoteFree(c);
        assert ([c] + r[1..])[1..] == r[1..];
        if |r| > 1 { Associates([s[0]], r[0] + QUOTE, Join(r[1..])); Associates([s[0]], r[0], QUOTE); }
      }
    }
  }

  lemma JoinThree(a: string, b: string, c: string)
    ensures Join([a, b, c]) == a + QUOTE + (b + QUOTE + c)
  {
    assert [a, b, c][1..] == [b, c] && [b, c][1..] == [c];
    assert Join([c]) == c;
    assert Join([b, c]) == b + QUOTE + c;
  }

  /** The pieces of one printed line and of what follows it. */
  lemma LineJoins(pre: string, key: string, value: string, vs: seq<string>, q: seq<string>, t: string)
    requires vs != [] && q != [] && Join(vs) == value && Join(q) == ",\n" + t
    ensures pre + (Line(key, value) + t) == Join([pre + "  ", key, ": "] + (vs + q))
  {
    var head := [pre + "  ", key, ": "];
    JoinAppend(vs, q);
    JoinAppend(head, vs + q);
    JoinThree(pre + "  ", key, ": ");
    LineRegroups(pre, key, value, t);
  }

  lemma LineRegroups(pre: string, key: string, value: string, t: string)
    ensures pre + (Line(key, value) + t)
            == pre + "  " + QUOTE + (key + QUOTE + ": ") + QUOTE + (value + QUOTE + (",\n" + t))
  {
    assert "  \"" == "  " + QUOTE;
    assert "\": \"" == QUOTE + ": " + QUOTE;
    assert "\",\n" == QUOTE + ",\n";
  }

  function NumberText(n: nat): string {
    ": " + Decimal(n) + "\n}\n"
  }

  function LastPieces(createdAt: uint64): seq<string> {
    [",\n  ", "created_at", NumberText(createdAt)]
  }

  lemma LastJoins(createdAt: uint64)
    ensures Join(LastPieces(createdAt)) == ",\n" + LastLines(createdAt)
  {
    var d := Decimal(createdAt);
    JoinThree(",\n  ", "created_at", ": " + d + "\n}\n");
    assert "  \"created_at\": " == "  " + QUOTE + "created_at" + QUOTE + ": ";
    assert ",\n  " == ",\n" + "  ";
    assert "\n}\n" == "\n" + "}\n";
    LastRegroups(",\n", "  ", "created_at", ": ", d, "\n", "}\n");
  }

  lemma LastRegroups(a: string, b: string, c: string, e: string, d: string, n: string, z: string)
    ensures a + b + QUOTE + (c + QUOTE + (e + d + (n + z))) == a + (b + QUOTE + c + QUOTE + e + d + n + z)
  {
  }

  function FieldPieces(pre: string, key: string, vs: seq<string>, q: seq<string>): seq<string> {
    [pre + "  ", key, ": "] + (vs + q)
  }

  function NamePieces(id: Identity): seq<string> {
    FieldPieces(",\n", "display_name", Pieces(id.displayName), LastPieces(id.createdAt))
  }

  function PadPieces(id: Identity, pad: Key): seq<string> {
    FieldPieces(",\n", "obf_pad", [ToHex(pad)], NamePieces(id))
  }

  function SecretPieces(id: Identity, pad: Key): seq<string> {
    FieldPieces(",\n", "enc_privkey", [ToHex(XorCycle(id.secretKey, pad))], PadPieces(id, pad))
  }

  function FilePieces(id: Identity, pad: Key): seq<string> {
    FieldPieces("{\n", "pubkey", [ToHex(id.publicKey)], SecretPieces(id, pad))
  }

  lemma SaveTextIsJoined(id: Identity, pad: Key)
    ensures SaveText(id, pad) == Join(FilePieces(id, pad))
  {
    var pub, priv, p := ToHex(id.publicKey), ToHex(XorCycle(id.secretKey, pad)), ToHex(pad);
    var t4 := LastLines(id.createdAt);
    var t3 := Line("display_name", id.displayName) + t4;
    var t2 := Line("obf_pad", p) + t3;
    var t1 := Line("enc_privkey", priv) + t2;
    LastJoins(id.createdAt);
    PiecesJoin(id.displayName);
    LineJoins(",\n", "display_name", id.displayName, Pieces(id.displayName), LastPieces(id.createdAt), t4);
    LineJoins(",\n", "obf_pad", p, [p], NamePieces(id), t3);
    LineJoins(",\n", "enc_privkey", priv, [priv], PadPieces(id, pad), t2);
    LineJoins("{\n", "pubkey", pub, [pub], SecretPieces(id, pad), t1);
  }

  // ---------------------------------------------------------------- the round trip

  lemma HexQuoteFree(key: seq<byte>)
    ensures QuoteFree(ToHex(key))
  {
    ToHexHasNoQuote(key);
  }

  lemma DecimalQuoteFree(n: nat)
    ensures QuoteFree(NumberText(n))
  {
    var d := Decimal(n);
    assert forall i :: 0 <= i < |d| ==> IsDigit(d[i]);
  }

  lemma FieldQuoteFree(pre: string, key: string, vs: seq<string>, q: seq<string>)
    requires QuoteFree(pre) && QuoteFree(key) && AllQuoteFree(vs) && AllQuoteFree(q)
    ensures AllQuoteFree(FieldPieces(pre, key, vs, q))
  {
    assert QuoteFree(pre + "  ");
  }

  lemma NameQuoteFree(id: Identity)
    ensures AllQuoteFree(NamePieces(id))
  {
    PiecesJoin(id.displayName);
    DecimalQuoteFree(id.createdAt);
    assert QuoteFree(",\n  ") && QuoteFree("created_at");
    FieldQuoteFree(",\n", "display_name", Pieces(id.displayName), LastPieces(id.createdAt));
  }

  lemma HexLineQuoteFree(pre: string, key: string, value: seq<byte>, q: seq<string>)
    requires QuoteFree(pre) && QuoteFree(key) && AllQuoteFree(q)
    ensures AllQuoteFree(FieldPieces(pre, key, [ToHex(value)], q))
  {
    HexQuoteFree(value);
    FieldQuoteFree(pre, key, [ToHex(value)], q);
  }

  lemma FileQuoteFree(id: Identity, pad: Key)
    ensures AllQuoteFree(FilePieces(id, pad))
  {
    NameQuoteFree(id);
    HexLineQuoteFree(",\n", "obf_pad", pad, NamePieces(id));
    HexLineQuoteFree(",\n", "enc_privkey", XorCycle(id.secretKey, pad), PadPieces(id, pad));
    HexLineQuoteFree("{\n", "pubkey", id.publicKey, SecretPieces(id, pad));
  }

  lemma AfterStep(a: string, q: seq<string>, key: string)
    requires |q| >= 2
    ensures After([a] + q, key) == if q[0] == key then Some(q[1..]) else After(q, key)
  {
    assert ([a] + q)[1..] == q && ([a] + q)[2..] == q[1..];
  }

  lemma FieldNests(pre: string, k: string, vs: seq<string>, q: seq<string>)
    ensures FieldPieces(pre, k, vs, q) == [pre + "  "] + ([k] + ([": "] + (vs + q)))
  {
  }

  /** Searching for a key from a line that has it. */
  lemma {:induction false} KeyInField(pre: string, k: string, vs: seq<string>, q: seq<string>)
    requires vs != []
    ensures After(FieldPieces(pre, k, vs, q), k) == Some([": "] + (vs + q))
  {
    FieldNests(pre, k, vs, q);
    AfterStep(pre + "  ", [k] + ([": "] + (vs + q)), k);
    assert ([k] + ([": "] + (vs + q)))[1..] == [": "] + (vs + q);
  }

  /** Searching for a key from a line that does not have it. */
  lemma {:induction false} KeyNotInField(pre: string, k: string, v: string, q: seq<string>, key: string)
    requires |q| >= 2 && key != k && key != ": " && key != v && key != q[0]
    ensures After(FieldPieces(pre, k, [v], q), key) == After(q, key)
  {
    FieldNests(pre, k, [v], q);
    AfterStep(pre + "  ", [k] + ([": "] + ([v] + q)), key);
    AfterStep(k, [": "] + ([v] + q), key);
    AfterStep(": ", [v] + q, key);
    AfterStep(v, q, key);
  }

  ghost predicate StartsField(q: seq<string>) {
    |q| >= 2 && q[0] == ",\n  "
  }

  /** The three hexadecimal lines, before whatever follows them. */
  lemma {:induction false} HexLines(pub: string, priv: string, pad: string, q: seq<string>, key: string)
    requires |pub| == |priv| == |pad| == 64 && StartsField(q) && 4 < |key| < 64
    ensures var q2 := FieldPieces(",\n", "obf_pad", [pad], q);
            var q1 := FieldPieces(",\n", "enc_privkey", [priv], q2);
            After(FieldPieces("{\n", "pubkey", [pub], q1), key)
            == if key == "pubkey" then Some([": "] + ([pub] + q1))
               else if key == "enc_privkey" then Some([": "] + ([priv] + q2))
               else if key == "obf_pad" then Some([": "] + ([pad] + q))
               else After(q, key)
  {
    var q2 := FieldPieces(",\n", "obf_pad", [pad], q);
    var q1 := FieldPieces(",\n", "enc_privkey", [priv], q2);
    KeyInField("{\n", "pubkey", [pub], q1);
    KeyInField(",\n", "enc_privkey", [priv], q2);
    KeyInField(",\n", "obf_pad", [pad], q);
    if key != "pubkey" {
      KeyNotInField("{\n", "pubkey", pub, q1, key);
      if key != "enc_privkey" {
        KeyNotInField(",\n", "enc_privkey", priv, q2, key);
        if key != "obf_pad" { KeyNotInField(",\n", "obf_pad", pad, q, key); }
      }
    }
  }

  /** Searching a whole saved file for a key. */
  lemma {:induction false} AfterInFile(id: Identity, pad: Key, key: string)
    requires 4 < |key| < 64
    ensures After(FilePieces(id, pad), key)
            == if key == "pubkey" then Some([": "] + ([ToHex(id.publicKey)] + SecretPieces(id, pad)))
               else if key == "enc_privkey"
               then Some([": "] + ([ToHex(XorCycle(id.secretKey, pad))] + PadPieces(id, pad)))
               else if key == "obf_pad" then Some([": "] + ([ToHex(pad)] + NamePieces(id)))
               else After(NamePieces(id), key)
  {
    HexLines(ToHex(id.publicKey), ToHex(XorCycle(id.secretKey, pad)), ToHex(pad), NamePieces(id), key);
  }

  lemma {:induction false} ExtractedValue(id: Identity, pad: Key, key: string, v: string, q: seq<string>)
    requires QuoteFree(key) && q != [] && After(FilePieces(id, pad), key) == Some([": "] + ([v] + q))
    ensures Extract(SaveText(id, pad), key) == v
  {
    var a := [": "] + ([v] + q);
    FileLeads(id, pad, key, a);
    NextQuotedIsPiece(SaveText(id, pad), KeyEnd(SaveText(id, pad), key), a);
  }

  lemma {:induction false} FileLeads(id: Identity, pad: Key, key: string, a: seq<string>)
    requires QuoteFree(key) && After(FilePieces(id, pad), key) == Some(a)
    ensures a != [] && AllQuoteFree(a) && Leads(SaveText(id, pad), key, Join(a))
  {
    SaveTextIsJoined(id, pad);
    FileQuoteFree(id, pad);
    KeyFound(FilePieces(id, pad), key);
  }

  lemma {:induction false} ExtractedKeys(id: Identity, pad: Key)
    ensures var s := SaveText(id, pad);
            && Extract(s, "pubkey") == ToHex(id.publicKey)
            && Extract(s, "enc_privkey") == ToHex(XorCycle(id.secretKey, pad))
            && Extract(s, "obf_pad") == ToHex(pad)
  {
    AfterInFile(id, pad, "pubkey");
    ExtractedValue(id, pad, "pubkey", ToHex(id.publicKey), SecretPieces(id, pad));
    AfterInFile(id, pad, "enc_privkey");
    ExtractedValue(id, pad, "enc_privkey", ToHex(XorCycle(id.secretKey, pad)), PadPieces(id, pad));
    AfterInFile(id, pad, "obf_pad");
    ExtractedValue(id, pad, "obf_pad", ToHex(pad), NamePieces(id));
  }

  /** The display name is found where the printer put it, whatever it is, and ends at a quote. */
  lemma {:induction false} ExtractedName(id: Identity, pad: Key)
    ensures Extract(SaveText(id, pad), "display_name") == UpToQuote(id.displayName)
  {
    var vs, last := Pieces(id.displayName), LastPieces(id.createdAt);
    AfterInFile(id, pad, "display_name");
    KeyInField(",\n", "display_name", vs, last);
    PiecesJoin(id.displayName);
    assert vs + last == [vs[0]] + (vs[1..] + last);
    ExtractedValue(id, pad, "display_name", vs[0], vs[1..] + last);
  }

  /** Digits after one space. */
  lemma DigitsAfterSpace(s: string, o: nat, d: string)
    requires d != [] && (forall i :: 0 <= i < |d| ==> IsDigit(d[i]))
    requires 0 < o && o + |d| < |s| && s[o - 1] == ' ' && s[o..o + |d|] == d && !IsDigit(s[o + |d|])
    ensures DigitRun(s, SkipSpaces(s, o - 1)) == d
  {
    assert forall i :: o <= i < o + |d| ==> s[i] == s[o..o + |d|][i - o];
    assert SkipSpaces(s, o) == o;
    DigitRunIs(s, o, o + |d|);
  }

  lemma PlacesIn(u: string, d: string, z: string)
    requires z != []
    ensures var s, o := u + (": " + d + z), |u| + 2;
            && s[o - 2] == ':' && s[o - 1] == ' ' && s[o..o + |d|] == d && s[o + |d|] == z[0]
  {
    var s := u + (": " + d + z);
    assert s == (u + ": ") + (d + z);
    assert s[|u| + 2..] == d + z;
    SuffixOfSuffix(s, |u| + 2, |d|);
  }

  lemma {:induction false} ColonIs(s: string, k: nat, u: string, pre: string, t: string)
    requires k <= |s| && s == u + pre + t && |u| == k && ':' !in pre && t != [] && t[0] == ':'
    ensures Find(s, ":", k) == k + |pre|
  {
    forall i | k <= i < k + |pre| ensures !OccursAt(s, ":", i) {
      assert s[i] == (u + pre)[i] == pre[i - k];
      OccursHead(s, ":", i);
    }
    FindIs(s, ":", k, k + |pre|);
  }

  lemma {:induction false} NumberAfter(u: string, n: uint64)
    ensures Strtoull(DigitRun(u + NumberText(n), SkipSpaces(u + NumberText(n), |u| + 1))) == n
  {
    PlacesIn(u, Decimal(n), "\n}\n");
    DigitsAfterSpace(u + NumberText(n), |u| + 2, Decimal(n));
    DecimalRoundTrip(n);
  }

  lemma SuffixConcat(s: string, k: nat, a: string, b: string)
    requires k <= |s| && s[k..] == a + b
    ensures s == (s[..k] + a) + b
  {
    assert s == s[..k] + s[k..];
  }

  lemma {:induction false} NumberIs(s: string, k: nat, pre: string, n: uint64)
    requires k <= |s| && s[k..] == pre + NumberText(n) && ':' !in pre
    ensures NumberFrom(s, k) == n
  {
    SuffixConcat(s, k, pre, NumberText(n));
    ColonIs(s, k, s[..k], pre, NumberText(n));
    NumberAfter(s[..k] + pre, n);
  }

  lemma AfterName(a: string, b: string, c: string, name: string, q: seq<string>, key: string)
    requires |q| == 3 && key == q[1] && key != b && key != c && key != q[0]
    ensures After([a] + ([b] + ([c] + ([name] + q))), key) == if name == key then Some(q) else Some(q[2..])
  {
    AfterStep(a, [b] + ([c] + ([name] + q)), key);
    AfterStep(b, [c] + ([name] + q), key);
    AfterStep(c, [name] + q, key);
    assert ([name] + q)[1..] == q;
    AfterStep(name, q, key);
  }

  /** The search for `created_at` stops at the key or, one piece earlier, at a display name equal to it;
      either way the next colon is the one before the number. */
  lemma {:induction false} LastPiecesJoin(name: string, t: string) returns (pre: string)
    ensures var q := [",\n  ", "created_at", t];
            Join(if name == "created_at" then q else q[2..]) == pre + t
    ensures ':' !in pre
  {
    var q := [",\n  ", "created_at", t];
    if name == "created_at" {
      JoinThree(q[0], q[1], t);
      Associates(q[0] + QUOTE, q[1] + QUOTE, t);
      pre := ",\n  " + QUOTE + ("created_at" + QUOTE);
    } else {
      assert q[2..] == [t];
      assert [] + t == t;
      pre := "";
    }
  }

  lemma {:induction false} CreatedAtFound(id: Identity) returns (a: seq<string>, pre: string)
    requires QuoteFree(id.displayName)
    ensures After(NamePieces(id), "created_at") == Some(a) && a != []
    ensures Join(a) == pre + NumberText(id.createdAt) && ':' !in pre
  {
    var name, q := id.displayName, LastPieces(id.createdAt);
    PiecesJoin(name);
    FieldNests(",\n", "display_name", [name], q);
    AfterName(",\n  ", "display_name", ": ", name, q, "created_at");
    pre := LastPiecesJoin(name, q[2]);
    a := After(NamePieces(id), "created_at").value;
  }

  lemma {:induction false} CreatedAtIsLast(id: Identity, pad: Key)
    ensures After(FilePieces(id, pad), "created_at") == After(NamePieces(id), "created_at")
    ensures QuoteFree("created_at")
  {
    AfterInFile(id, pad, "created_at");
  }

  /** The creation time is found even when the display name is `created_at`. */
  lemma {:induction false} ExtractedNumber(id: Identity, pad: Key)
    requires QuoteFree(id.displayName)
    ensures ExtractNum(SaveText(id, pad), "created_at") == id.createdAt
  {
    var a, pre := CreatedAtFound(id);
    CreatedAtIsLast(id, pad);
    FileLeads(id, pad, "created_at", a);
    NumberFound(SaveText(id, pad), "created_at", pre, id.createdAt);
  }

  lemma {:induction false} NumberFound(s: string, key: string, pre: string, n: uint64)
    requires Leads(s, key, pre + NumberText(n)) && ':' !in pre
    ensures ExtractNum(s, key) == n
  {
    NumberIs(s, KeyEnd(s, key), pre, n);
  }

  lemma {:induction false} HexAt(key: Key, hex: string, i: nat)
    requires hex == ToHex(key) && i < 32
    ensures |hex| == 64 && FromHex(hex)[i] == key[i]
    ensures hex[2 * i] == "0123456789abcdef"[key[i] / 16] && hex[2 * i + 1] == "0123456789abcdef"[key[i] % 16]
  {
    HexRoundTrip(key);
    ToHexAt(key, i);
    HexCharacters(key[i] / 16);
    HexCharacters(key[i] % 16);
  }

  lemma {:induction false} CombinedAt(secret: Key, pad: Key, key: Key, i: nat, p: nat)
    requires key == XorCycle(secret, pad) && i < 32 && p in {1, 2, 4, 8, 16, 32, 64, 128}
    ensures key[i] / p % 2 == 1 <==> secret[i] / p % 2 != pad[i] / p % 2
  {
    assert key[i] == Xor(secret[i], pad[i]);
    XorBit(secret[i], pad[i], p);
  }

  /** What is on disk for the secret key: its bytes combined bit by bit with those of the pad, two small
      hexadecimal digits each. */
  lemma {:induction false} SecretOnDisk(id: Identity, pad: Key, i: nat, p: nat) returns (b: byte)
    requires i < 32 && p in {1, 2, 4, 8, 16, 32, 64, 128}
    ensures var hex := Extract(SaveText(id, pad), "enc_privkey");
            && |hex| == 64
            && hex[2 * i] == "0123456789abcdef"[b / 16] && hex[2 * i + 1] == "0123456789abcdef"[b % 16]
    ensures b / p % 2 == 1 <==> id.secretKey[i] / p % 2 != pad[i] / p % 2
  {
    var key := XorCycle(id.secretKey, pad);
    ExtractedKeys(id, pad);
    HexAt(key, ToHex(key), i);
    CombinedAt(id.secretKey, pad, key, i, p);
    b := key[i];
  }

  /** The keys that any file gives: both must have 64 digits; the secret one is combined bit by bit with the pad
      when that has 64 digits too, and taken as it is when not. */
  lemma {:induction false} KeysIff(pub: string, priv: string, pad: string, i: nat, p: nat)
    requires i < 32 && p in {1, 2, 4, 8, 16, 32, 64, 128}
    ensures KeysOf(pub, priv, pad).Some? <==> |pub| == 64 && |priv| == 64
    ensures KeysOf(pub, priv, pad).Some? ==>
              var keys := KeysOf(pub, priv, pad).value;
              && keys.0 == FromHex(pub)
              && (|pad| != 64 ==> keys.1 == FromHex(priv))
              && (|pad| == 64 ==> (keys.1[i] / p % 2 == 1 <==> FromHex(priv)[i] / p % 2 != FromHex(pad)[i] / p % 2))
  {
    if |priv| == 64 && |pad| == 64 {
      CombinedAt(FromHex(priv), FromHex(pad), XorCycle(FromHex(priv), FromHex(pad)), i, p);
    }
  }

  /** All spaces after the colon are skipped. */
  lemma {:induction false} SpacesSkipped(s: string, from: nat, k: nat)
    requires from <= k <= |s| && (k < |s| ==> s[k] != ' ') && forall i :: from <= i < k ==> s[i] == ' '
    ensures SkipSpaces(s, from) == k
    decreases k - from
  {
    if from < k { SpacesSkipped(s, from + 1, k); }
  }

  /** A time that does not fit in 64 bits is read as the largest that does. */
  lemma {:induction false} StrtoullSaturates(n: nat)
    ensures Strtoull(Decimal(n)) == if n < 0x1_0000_0000_0000_0000 then n else 0xFFFF_FFFF_FFFF_FFFF
  {
    DecimalRoundTrip(n);
  }

  lemma {:induction false} SecretRestored(secret: Key, pad: Key)
    ensures XorCycle(FromHex(ToHex(XorCycle(secret, pad))), FromHex(ToHex(pad))) == secret
  {
    HexRoundTrip(XorCycle(secret, pad));
    HexRoundTrip(pad);
    XorCycleUndone(secret, pad);
  }

  /** Loading what was saved restores both keys always, and the display name up to its first quote. */
  lemma {:induction false} LoadAfterSave(id: Identity, pad: Key)
    ensures var r := LoadText(SaveText(id, pad));
            && r.Some? && r.value.publicKey == id.publicKey && r.value.secretKey == id.secretKey
            && r.value.displayName == UpToQuote(id.displayName)
            && (QuoteFree(id.displayName) ==> r.value.createdAt == id.createdAt)
  {
    ExtractedKeys(id, pad);
    ExtractedName(id, pad);
    HexRoundTrip(id.publicKey);
    SecretRestored(id.secretKey, pad);
    if QuoteFree(id.displayName) { ExtractedNumber(id, pad); }
  }

  /** Saving and loading gives the same identity back exactly when its display name has no quote. */
  lemma {:induction false} SaveLoadRoundTripIff(id: Identity, pad: Key)
    ensures LoadText(SaveText(id, pad)) == Some(id) <==> '\"' !in id.displayName
  {
    LoadAfterSave(id, pad);
    UpToQuoteIsAll(id.displayName);
  }

  // ---------------------------------------------------------------- the manager

  /** The identity of a key pair: named and dated as in the file when the file is about the same key. */
  function Adopt(public: Key, secret: Key, loaded: Option<Identity>, now: uint64): Identity {
    if loaded.Some? && loaded.value.publicKey == public
    then Identity(public, secret, loaded.value.displayName, loaded.value.createdAt)
    else Identity(public, secret, "User", now)
  }

  /** The identity that a private key in hexadecimal logs in as. `derive` is Ed25519's public key, or
      nothing when the library refuses the private key. */
  function LoginResult(hex: string, derive: Key -> Option<Key>, now: uint64, file: Option<string>): Option<Identity> {
    if |hex| != 64 then None else
      match derive(FromHex(hex))
      case None => None
      case Some(public) =>
        Some(Adopt(public, FromHex(hex), if file.None? then None else LoadText(file.value), now))
  }

  /** Logging in with the key of the saved identity gives that identity back, under the same condition
      as loading. */
  lemma {:induction false} LoginRestoresIff(id: Identity, pad: Key, derive: Key -> Option<Key>, now: uint64)
    requires derive(id.secretKey) == Some(id.publicKey)
    ensures LoginResult(ToHex(id.secretKey), derive, now, Some(SaveText(id, pad))) == Some(id)
            <==> '\"' !in id.displayName
  {
    LoadAfterSave(id, pad);
    UpToQuoteIsAll(id.displayName);
    HexRoundTrip(id.secretKey);
  }

  /** Logging in with another key never takes the name or the time of the saved identity. */
  lemma {:induction false} LoginIgnoresOthers(
      id: Identity, pad: Key, secret: Key, public: Key, derive: Key -> Option<Key>, now: uint64)
    requires derive(secret) == Some(public) && public != id.publicKey
    ensures LoginResult(ToHex(secret), derive, now, Some(SaveText(id, pad)))
            == Some(Identity(public, secret, "User", now))
  {
    LoadAfterSave(id, pad);
    HexRoundTrip(secret);
  }

  /** Logging in without a file, or with one that does not load, gives the default name and the current time. */
  lemma {:induction false} LoginWithoutFile(secret: Key, public: Key, derive: Key -> Option<Key>, now: uint64,
                                            file: Option<string>)
    requires derive(secret) == Some(public) && (file.Some? ==> LoadText(file.value) == None)
    ensures LoginResult(ToHex(secret), derive, now, file) == Some(Identity(public, secret, "User", now))
  {
    HexRoundTrip(secret);
  }

  class IdentityManager {
    /** The content of `identity.json`, when it exists. */
    var file: Option<string>
    var current: Identity
    var loggedIn: bool

    constructor (file: Option<string>, current: Identity)
      ensures this.file == file && this.current == current && !loggedIn
    {
      this.file, this.current, loggedIn := file, current, false;
    }

    method Save(id: Identity, sha256: Key -> Key, writable: bool) returns (ok: bool)
      modifies this`file
      ensures ok == writable
      ensures file == if writable then Some(SaveText(id, sha256(id.secretKey))) else old(file)
    {
      var pad := sha256(id.secretKey);
      var encPriv := new byte[32](i requires 0 <= i < 32 => id.secretKey[i]);
      assert encPriv[..] == id.secretKey;
      XorInPlace(encPriv, pad);
      if !writable { return false; }
      var pub := KeyToHex(id.publicKey);
      var priv := KeyToHex(encPriv[..]);
      var hexPad := KeyToHex(pad);
      file := Some("{\n" + (Line("pubkey", pub) + (Line("enc_privkey", priv) + (Line("obf_pad", hexPad)
                   + (Line("display_name", id.displayName) + LastLines(id.createdAt))))));
      return true;
    }

    /** The digit loops of `load`. */
    method ReadDigits(content: string, from: nat) returns (n: uint64)
      requires from <= |content|
      ensures n == Strtoull(DigitRun(content, SkipSpaces(content, from)))
    {
      var pos := from;
      while pos < |content| && content[pos] == ' '
        invariant from <= pos <= |content|
        invariant SkipSpaces(content, pos) == SkipSpaces(content, from)
      {
        pos := pos + 1;
      }
      ghost var start := pos;
      var num := "";
      while pos < |content| && IsDigit(content[pos])
        invariant start <= pos <= |content|
        invariant num == content[start..pos]
        invariant forall i :: start <= i < pos ==> IsDigit(content[i])
      {
        num := num + [content[pos]];
        pos := pos + 1;
      }
      DigitRunIs(content, start, pos);
      n := Strtoull(num);
    }

    method ReadNumber(content: string, key: string) returns (n: uint64)
      ensures n == ExtractNum(content, key)
    {
      var pos := Find(content, Quoted(key), 0);
      if pos < 0 { return 0; }
      pos := Find(content, ":", pos + |Quoted(key)|);
      if pos < 0 { return 0; }
      n := ReadDigits(content, pos + 1);
    }

    /** The array steps of `load`. */
    method ReadKeys(pubHex: string, privHex: string, padHex: string) returns (keys: Option<(Key, Key)>)
      ensures keys == KeysOf(pubHex, privHex, padHex)
    {
      if pubHex == "" || privHex == "" { return None; }
      var publicKey, secretKey, pad := new byte[32], new byte[32], new byte[32];
      var ok := HexToKey(pubHex, publicKey);
      if !ok { return None; }
      ok := HexToKey(privHex, secretKey);
      if !ok { return None; }
      if padHex != "" {
        ok := HexToKey(padHex, pad);
        if ok { XorInPlace(secretKey, pad[..]); }
      }
      keys := Some((publicKey[..], secretKey[..]));
    }

    method Load() returns (r: Option<Identity>)
      modifies this`current, this`loggedIn
      ensures r == if file.None? then None else LoadText(file.value)
      ensures if r.Some? then current == r.value && loggedIn else current == old(current) && loggedIn == old(loggedIn)
    {
      if file.None? { return None; }
      var content := file.value;
      var keys := ReadKeys(Extract(content, "pubkey"), Extract(content, "enc_privkey"), Extract(content, "obf_pad"));
      if keys.None? { return None; }
      var createdAt := ReadNumber(content, "created_at");
      current := Identity(keys.value.0, keys.value.1, Extract(content, "display_name"), createdAt);
      loggedIn := true;
      r := Some(current);
    }

    method Login(hex: string, derive: Key -> Option<Key>, now: uint64) returns (r: Option<Identity>)
      modifies this`current, this`loggedIn
      ensures r == LoginResult(hex, derive, now, file)
      ensures if r.Some? then current == r.value && loggedIn else current == old(current) && loggedIn == old(loggedIn)
    {
      var secretKey := new byte[32];
      var ok := HexToKey(hex, secretKey);
      if !ok { return None; }
      var public := derive(secretKey[..]);
      if public.None? { return None; }
      var id := Identity(public.value, secretKey[..], "User", now);
      var loaded := Load();
      if loaded.Some? && loaded.value.publicKey == id.publicKey {
        id := id.(displayName := loaded.value.displayName, createdAt := loaded.value.createdAt);
      }
      current, loggedIn := id, true;
      r := Some(id);
    }

    /** Removes the file, when there is one; nothing is returned when the removal throws. */
    method Clear(removable: bool) returns (outcome: Option<bool>)
      modifies this`file
      ensures outcome == if old(file).Some? && !removable then None else Some(true)
      ensures file == if removable then None else old(file)
    {
      if file.Some? {
        if !removable { return None; }
        file := None;
      }
      return Some(true);
    }
  }
}
