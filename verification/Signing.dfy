/** Event identifiers and signatures. The hash of an event's serialised content and the signature
    scheme are arbitrary functions; what they are applied to is not. */
module Signing {
  import opened Basics
  import opened Bytes
  import opened Text
  import Yaml

  type Signature = s: seq<byte> | |s| == 64 witness seq(64, _ => 0)

  datatype KeyPair = KeyPair(secret: Key, public: Key)
  datatype Scheme = Scheme(sign: (Key, string) -> Signature, verify: (Key, string, Signature) -> bool)

  /** The scheme accepts what `keys` signs. */
  ghost predicate Accepts(scheme: Scheme, keys: KeyPair) {
    forall text :: scheme.verify(keys.public, text, scheme.sign(keys.secret, text))
  }

  /** The part of an event that is hashed. */
  datatype Content = Content(createdAt: uint64, kind: uint16, tags: seq<seq<string>>, text: string)
  type Hash = Content -> Key

  datatype EventData = EventData(id: uint64, content: Content, pubkey: string, sig: string)

  // ---------------------------------------------------------------- what is signed

  /** The first eight bytes of the hash, most significant first. */
  function EventId(hash: Key): (id: uint64)
    ensures ToBytes(id, 8) == hash[..8]
  {
    FromBytesBound(hash[..8]);
    Pow256Values();
    ToFromBytes(hash[..8]);
    FromBytes(hash[..8])
  }

  lemma {:induction false} ToFromBytes(b: seq<byte>)
    ensures ToBytes(FromBytes(b), |b|) == b
  {
    if b != [] {
      ToFromBytes(b[..|b| - 1]);
      assert b == b[..|b| - 1] + [b[|b| - 1]];
    }
  }

  function SignedText(id: uint64, createdAt: uint64, kind: uint16): string {
    Decimal(id) + "\n" + Decimal(createdAt) + "\n" + Decimal(kind) + "\n"
  }

  function TextOf(e: EventData): string {
    SignedText(e.id, e.content.createdAt, e.content.kind)
  }

  /** The event as `keys` signs it. */
  function Signed(e: EventData, keys: KeyPair, hash: Hash, scheme: Scheme): EventData {
    var id := EventId(hash(e.content));
    var text := SignedText(id, e.content.createdAt, e.content.kind);
    EventData(id, e.content, ToHex(keys.public), ToHex(scheme.sign(keys.secret, text)))
  }

  function Verified(e: EventData, scheme: Scheme): bool {
    && |e.pubkey| == 64 && |e.sig| == 128
    && scheme.verify(FromHex(e.pubkey), TextOf(e), FromHex(e.sig))
  }

  // ---------------------------------------------------------------- properties

  /** What `keys` signs is verified exactly when the scheme accepts its own signature of that text. */
  lemma {:induction false} VerifiedIff(e: EventData, keys: KeyPair, hash: Hash, scheme: Scheme)
    ensures var signed := Signed(e, keys, hash, scheme);
            Verified(signed, scheme)
            <==> scheme.verify(keys.public, TextOf(signed), scheme.sign(keys.secret, TextOf(signed)))
  {
    var signed := Signed(e, keys, hash, scheme);
    HexRoundTrip(keys.public);
    HexRoundTrip(scheme.sign(keys.secret, TextOf(signed)));
  }

  /** Every event signed by a key pair that the scheme accepts is verified. */
  lemma {:induction false} SignThenVerify(e: EventData, keys: KeyPair, hash: Hash, scheme: Scheme)
    requires Accepts(scheme, keys)
    ensures Verified(Signed(e, keys, hash, scheme), scheme)
  {
    VerifiedIff(e, keys, hash, scheme);
    assert scheme.verify(keys.public, TextOf(Signed(e, keys, hash, scheme)),
                         scheme.sign(keys.secret, TextOf(Signed(e, keys, hash, scheme))));
  }

  /** Signing leaves nothing of an earlier identifier, key or signature, and keeps the content. */
  lemma {:induction false} SigningForgets(e: EventData, first: KeyPair, keys: KeyPair, hash: Hash, scheme: Scheme)
    ensures Signed(Signed(e, first, hash, scheme), keys, hash, scheme) == Signed(e, keys, hash, scheme)
    ensures Signed(e, keys, hash, scheme).content == e.content
  {
  }

  lemma {:induction false} FirstNewline(d: string, rest: string)
    requires forall i :: 0 <= i < |d| ==> IsDigit(d[i])
    ensures Find(d + "\n" + rest, "\n", 0) == |d|
  {
    var s := d + "\n" + rest;
    forall i | 0 <= i < |d| ensures !OccursAt(s, "\n", i) {
      assert s[i] == d[i];
      assert s[i..i + 1][0] == s[i];
    }
    assert s[|d|..|d| + 1] == "\n";
    FindIs(s, "\n", 0, |d|);
  }

  lemma LinesAgree(a: nat, ra: string, b: nat, rb: string)
    requires Decimal(a) + "\n" + ra == Decimal(b) + "\n" + rb
    ensures a == b && ra == rb
  {
    var s := Decimal(a) + "\n" + ra;
    FirstNewline(Decimal(a), ra);
    FirstNewline(Decimal(b), rb);
    var n := |Decimal(a)|;
    assert s[..n] == Decimal(a) && s[..n] == Decimal(b);
    assert s[n + 1..] == ra && s[n + 1..] == rb;
    DecimalInjective(a, b);
  }

  lemma TextNests(id: uint64, createdAt: uint64, kind: uint16)
    ensures SignedText(id, createdAt, kind)
            == Decimal(id) + "\n" + (Decimal(createdAt) + "\n" + (Decimal(kind) + "\n" + ""))
  {
  }

  /** The signed text determines the three numbers in it. */
  lemma SignedTextInjective(id1: uint64, t1: uint64, k1: uint16, id2: uint64, t2: uint64, k2: uint16)
    ensures SignedText(id1, t1, k1) == SignedText(id2, t2, k2) <==> id1 == id2 && t1 == t2 && k1 == k2
  {
    TextNests(id1, t1, k1);
    TextNests(id2, t2, k2);
    if SignedText(id1, t1, k1) == SignedText(id2, t2, k2) {
      LinesAgree(id1, Decimal(t1) + "\n" + (Decimal(k1) + "\n" + ""),
                 id2, Decimal(t2) + "\n" + (Decimal(k2) + "\n" + ""));
      LinesAgree(t1, Decimal(k1) + "\n" + "", t2, Decimal(k2) + "\n" + "");
      LinesAgree(k1, "", k2, "");
    }
  }

  /** The signed text is three lines: identifier, time and kind in decimal, each ended by a newline. */
  lemma {:induction false} SignedTextIsLines(id: uint64, t: uint64, k: uint16)
    ensures Yaml.Lines(SignedText(id, t, k)) == [Decimal(id), Decimal(t), Decimal(k)]
    ensures SignedText(id, t, k)[|SignedText(id, t, k)| - 1] == '\n'
  {
    var third: seq<string> := [Decimal(k)];
    var second: seq<string> := [Decimal(t), Decimal(k)];
    var lines: seq<string> := [Decimal(id), Decimal(t), Decimal(k)];
    TextNests(id, t, k);
    assert third[1..] == [] && second[1..] == third && lines[1..] == second;
    assert Yaml.Joined(third) == Decimal(k) + "\n" + "";
    assert Yaml.Joined(second) == Decimal(t) + "\n" + Yaml.Joined(third);
    assert Yaml.Joined(lines) == Decimal(id) + "\n" + Yaml.Joined(second);
    Yaml.LinesOfJoined(lines);
  }

  /** Of the texts that events have, a signature is good for one under one key. */
  ghost predicate Binds(scheme: Scheme, public: Key, sig: Signature) {
    forall e1, e2 :: scheme.verify(public, TextOf(e1), sig) && scheme.verify(public, TextOf(e2), sig)
                     ==> TextOf(e1) == TextOf(e2)
  }

  /** When the scheme binds a signature to its text, an event under the key and signature of a signed one
      is verified if and only if it has the same identifier, time and kind. */
  lemma {:induction false} SignatureCoversNumbers(
      e: EventData, keys: KeyPair, hash: Hash, scheme: Scheme, other: EventData)
    requires Accepts(scheme, keys)
    requires var signed := Signed(e, keys, hash, scheme);
             && other.pubkey == signed.pubkey && other.sig == signed.sig
             && Binds(scheme, keys.public, scheme.sign(keys.secret, TextOf(signed)))
    ensures var signed := Signed(e, keys, hash, scheme);
            Verified(other, scheme)
            <==> && other.id == signed.id && other.content.createdAt == e.content.createdAt
                 && other.content.kind == e.content.kind
  {
    var signed := Signed(e, keys, hash, scheme);
    SignThenVerify(e, keys, hash, scheme);
    HexRoundTrip(keys.public);
    HexRoundTrip(scheme.sign(keys.secret, TextOf(signed)));
    SignedTextInjective(signed.id, e.content.createdAt, e.content.kind,
                        other.id, other.content.createdAt, other.content.kind);
    assert scheme.verify(keys.public, TextOf(signed), FromHex(signed.sig));
  }

  /** Verification does not compute the identifier again, so tags and text have no part in it: under any
      scheme, two events that differ only in these get the same verdict. */
  lemma {:induction false} VerdictIgnoresTagsAndText(e: EventData, tags: seq<seq<string>>, text: string, scheme: Scheme)
    ensures Verified(e.(content := e.content.(tags := tags, text := text)), scheme) <==> Verified(e, scheme)
  {
  }

  /** So an event that was signed and then given other tags or text is still verified, and its identifier
      is the one of its new content if and only if the hashes begin alike. */
  lemma {:induction false} ChangedContentIsVerified(
      e: EventData, keys: KeyPair, hash: Hash, scheme: Scheme, tags: seq<seq<string>>, text: string)
    requires Accepts(scheme, keys)
    ensures var signed := Signed(e, keys, hash, scheme);
            var changed := signed.(content := signed.content.(tags := tags, text := text));
            && Verified(changed, scheme)
            && (changed.id == EventId(hash(changed.content)) <==> hash(changed.content)[..8] == hash(e.content)[..8])
  {
    var signed := Signed(e, keys, hash, scheme);
    var changed := signed.(content := signed.content.(tags := tags, text := text));
    SignThenVerify(e, keys, hash, scheme);
    VerdictIgnoresTagsAndText(signed, tags, text, scheme);
    var id := EventId(hash(changed.content));
    assert ToBytes(changed.id, 8) == hash(e.content)[..8] && ToBytes(id, 8) == hash(changed.content)[..8];
  }

  // ---------------------------------------------------------------- the code

  class Event {
    var id: uint64
    var createdAt: uint64
    var kind: uint16
    var tags: seq<seq<string>>
    var text: string
    var pubkey: string
    var sig: string

    function Data(): EventData
      reads this
    {
      EventData(id, Content(createdAt, kind, tags, text), pubkey, sig)
    }
  }

  /** The shift loop: shifting a 64-bit number left drops its high byte. */
  method ComputeEventId(hash: Key) returns (id: uint64)
    ensures id == EventId(hash)
  {
    id := 0;
    for i := 0 to 8
      invariant id == FromBytes(hash[..i])
    {
      FromBytesBound(hash[..i]);
      SmallerPower(i);
      assert hash[..i + 1][..i] == hash[..i];
      id := id * 256 % 0x1_0000_0000_0000_0000 + hash[i];
    }
  }

  lemma SmallerPower(i: nat)
    requires i < 8
    ensures 256 * Pow256(i) <= 0x1_0000_0000_0000_0000
  {
    Pow256Values();
  }

  method SignEvent(e: Event, keys: KeyPair, hash: Hash, scheme: Scheme)
    modifies e`id, e`pubkey, e`sig
    ensures e.Data() == Signed(old(e.Data()), keys, hash, scheme)
  {
    e.id := ComputeEventId(hash(e.Data().content));
    e.pubkey := KeyToHex(keys.public);
    var serialized := SignedText(e.id, e.createdAt, e.kind);
    e.sig := KeyToHex(scheme.sign(keys.secret, serialized));
  }

  method VerifySignature(e: Event, scheme: Scheme) returns (ok: bool)
    ensures ok == Verified(e.Data(), scheme)
  {
    if e.sig == "" || e.pubkey == "" || |e.pubkey| != 64 { return false; }
    var pubkeyBytes := new byte[32];
    var _ := HexToKey(e.pubkey, pubkeyBytes);
    var serialized := SignedText(e.id, e.createdAt, e.kind);
    if |e.sig| != 128 { return false; }
    var sigBytes := new byte[64];
    var _ := HexToKey(e.sig, sigBytes);
    ok := scheme.verify(pubkeyBytes[..], serialized, sigBytes[..]);
  }
}
