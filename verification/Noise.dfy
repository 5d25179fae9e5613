/** The Noise_IKpsk2 handshake of the WireGuard probe over symbolic primitives: the key schedule,
    the initiation message, and the check of the server's response. */
module Noise {
  import opened Prelude

  type Bytes = seq<bv8>

  /** The primitives, as functions of their inputs. `seal` and `open` use the zero nonce and append
      a 16-byte tag; `stream` is the ChaCha20 keystream for a key, a nonce and a length. */
  datatype Crypto = Crypto(
    hash: Bytes -> Bytes, hmac: (Bytes, Bytes) -> Bytes, mac: (Bytes, Bytes) -> Bytes,
    seal: (Bytes, Bytes, Bytes) -> Bytes, open: (Bytes, Bytes, Bytes) -> Option<Bytes>,
    dh: (Bytes, Bytes) -> Bytes, pub: Bytes -> Bytes, stream: (Bytes, Bytes, nat) -> Bytes)

  ghost predicate Lengths(c: Crypto)
  {
    && (forall x :: |c.hash(x)| == 32)
    && (forall k, x :: |c.hmac(k, x)| == 32)
    && (forall k, x :: |c.mac(k, x)| == 16)
    && (forall k, p, ad :: |c.seal(k, p, ad)| == |p| + 16)
    && (forall k, p :: |c.dh(k, p)| == 32)
    && (forall k :: |c.pub(k)| == 32)
    && (forall k, n, len :: |c.stream(k, n, len)| == len)
  }

  ghost predicate Laws(c: Crypto)
  {
    && Lengths(c)
    && (forall a, b {:trigger c.dh(a, c.pub(b))} :: c.dh(a, c.pub(b)) == c.dh(b, c.pub(a)))
    && (forall k, p, ad :: c.open(k, c.seal(k, p, ad), ad) == Some(p))
  }

  /** The laws are consistent, with every DH result non-zero: constants of the right length and a
      tag of zeros satisfy them. */
  lemma LawsAreConsistent()
    ensures exists c: Crypto :: Laws(c) && forall k, p :: !AllZero(c.dh(k, p))
  {
    var c := Constants();
    forall k: Bytes, p: Bytes ensures !AllZero(c.dh(k, p)) { assert c.dh(k, p)[0] in c.dh(k, p); }
    forall k, p, ad: Bytes ensures c.open(k, c.seal(k, p, ad), ad) == Some(p) { assert (p + Fill(16, 0))[..|p|] == p; }
    assert Laws(c);
  }

  function Constants(): Crypto
  {
    Crypto(x => Fill(32, 1), (k, x) => Fill(32, 1), (k, x) => Fill(16, 1),
           (k, p, ad) => p + Fill(16, 0), (k, x, ad) => if |x| >= 16 then Some(x[..|x| - 16]) else None,
           (k, p) => Fill(32, 1), k => Fill(32, 1), (k: Bytes, n: Bytes, len: nat) => Fill(len, 1))
  }

  function Fill(n: nat, b: bv8): (r: Bytes)
    ensures |r| == n && forall i :: 0 <= i < n ==> r[i] == b
  {
    seq(n, _ => b)
  }

  predicate AllZero(x: Bytes) { forall b :: b in x ==> b == 0 }

  // ---- the key schedule ----

  /** T(i) of HKDF-Expand, section 2.3 of RFC 5869. */
  function T(c: Crypto, prk: Bytes, info: Bytes, i: nat): Bytes
  {
    if i == 0 then [] else c.hmac(prk, T(c, prk, info, i - 1) + info + [(i % 256) as bv8])
  }

  /** T(1) | ... | T(n). */
  function Okm(c: Crypto, prk: Bytes, info: Bytes, n: nat): Bytes
  {
    if n == 0 then [] else Okm(c, prk, info, n - 1) + T(c, prk, info, n)
  }

  /** Output i (from 1) of the WireGuard KDF: HKDF with the chaining key as salt and empty info. */
  function Tau(c: Crypto, key: Bytes, input: Bytes, i: nat): Bytes { T(c, c.hmac(key, input), [], i) }

  /** `kdf`: fills out[0..n) and returns the next chaining key. */
  method Kdf(c: Crypto, chainKey: Bytes, out: array<Bytes>, n: nat, input: Bytes) returns (next: Bytes)
    requires 1 <= n <= out.Length
    modifies out
    ensures forall i :: 0 <= i < n ==> out[i] == Tau(c, chainKey, input, i + 1)
    ensures forall i :: n <= i < out.Length ==> out[i] == old(out[i])
    ensures next == Tau(c, chainKey, input, 1)
  {
    var t0 := c.hmac(chainKey, input);
    var prev: Bytes := [];
    for i := 0 to n
      invariant forall j :: 0 <= j < i ==> out[j] == Tau(c, chainKey, input, j + 1)
      invariant forall j :: i <= j < out.Length ==> out[j] == old(out[j])
      invariant prev == T(c, t0, [], i)
    {
      out[i] := Expand(c, t0, prev, i);
      prev := out[i];
    }
    next := out[0];
  }

  /** One pass of the loop: the first block has no predecessor. */
  method Expand(c: Crypto, t0: Bytes, prev: Bytes, i: nat) returns (block: Bytes)
    requires prev == T(c, t0, [], i)
    ensures block == T(c, t0, [], i + 1)
  {
    var counter := [((i + 1) % 256) as bv8];
    if i == 0 {
      assert [] + [] + counter == counter;
      block := c.hmac(t0, counter);
    } else {
      assert prev + [] + counter == prev + counter;
      block := c.hmac(t0, prev + counter);
    }
  }

  /** Output i of the KDF is the i-th 32-byte block of HKDF-Expand's output keying material. */
  lemma {:induction false} TauIsHkdfBlock(c: Crypto, key: Bytes, input: Bytes, i: nat, n: nat)
    requires Lengths(c) && 1 <= i <= n
    ensures var okm := Okm(c, c.hmac(key, input), [], n);
            |okm| == 32 * n && okm[32 * (i - 1)..32 * i] == Tau(c, key, input, i)
  {
    var prk := c.hmac(key, input);
    OkmLength(c, prk, n - 1);
    Blocks(Okm(c, prk, [], n - 1), T(c, prk, [], n), 32 * (i - 1), 32 * i);
    if i < n { TauIsHkdfBlock(c, key, input, i, n - 1); }
  }

  lemma {:induction false} OkmLength(c: Crypto, prk: Bytes, n: nat)
    requires Lengths(c)
    ensures |Okm(c, prk, [], n)| == 32 * n
  {
    if n > 0 { OkmLength(c, prk, n - 1); }
  }

  lemma Blocks(less: Bytes, last: Bytes, from: nat, to: nat)
    requires from <= to
    ensures to <= |less| ==> (less + last)[from..to] == less[from..to]
    ensures from == |less| && to == |less| + |last| ==> (less + last)[from..to] == last
  {}

  // ---- sections 5.4.2 and 5.4.3 of the WireGuard paper ----

  /** Running hash and chaining key. */
  datatype Transcript = Transcript(h: Bytes, ck: Bytes)

  function Ascii(s: string): Bytes { seq(|s|, i requires 0 <= i < |s| => if s[i] < 128 as char then (s[i] as int) as bv8 else 0) }

  const CONSTRUCTION := Ascii("Noise_IKpsk2_25519_ChaChaPoly_BLAKE2s")
  const IDENTIFIER := Ascii("WireGuard v1 zx2c4 Jason@zx2c4.com")
  const LABEL_MAC1 := Ascii("mac1----")

  function MixHash(c: Crypto, t: Transcript, x: Bytes): Transcript { t.(h := c.hash(t.h + x)) }
  function MixKey(c: Crypto, t: Transcript, x: Bytes): Transcript { t.(ck := Tau(c, t.ck, x, 1)) }

  /** Both sides start from the responder's static public key and the initiator's ephemeral. */
  function Opening(c: Crypto, serverPub: Bytes, ephemeral: Bytes): Transcript
  {
    var ck := c.hash(CONSTRUCTION);
    var t := MixHash(c, Transcript(c.hash(ck + IDENTIFIER), ck), serverPub);
    MixHash(c, MixKey(c, t, ephemeral), ephemeral)
  }

  /** Encrypt-and-hash of one handshake field under a key mixed from a DH result. */
  function SealField(c: Crypto, t: Transcript, shared: Bytes, plain: Bytes): (Transcript, Bytes)
  {
    var field := c.seal(Tau(c, t.ck, shared, 2), plain, t.h);
    (MixHash(c, MixKey(c, t, shared), field), field)
  }

  function OpenField(c: Crypto, t: Transcript, shared: Bytes, field: Bytes): Option<(Transcript, Bytes)>
  {
    match c.open(Tau(c, t.ck, shared, 2), field, t.h)
    case None => None
    case Some(plain) => Some((MixHash(c, MixKey(c, t, shared), field), plain))
  }

  /** The second message: mixes the responder's ephemeral, two DH results and the preshared key;
      returns the hash and the key that authenticate its empty payload. */
  function Closing(c: Crypto, t: Transcript, ephemeral: Bytes, dhEphemeral: Bytes, dhStatic: Bytes, psk: Bytes): (Bytes, Bytes)
  {
    var t1 := MixKey(c, MixHash(c, t, ephemeral), ephemeral);
    var t2 := MixKey(c, MixKey(c, t1, dhEphemeral), dhStatic);
    (c.hash(t2.h + Tau(c, t2.ck, psk, 2)), Tau(c, t2.ck, psk, 3))
  }

  // ---- the same, written out ----

  /** The labels are the ASCII codes of their characters. */
  lemma Labels()
    ensures LABEL_MAC1 == [109, 97, 99, 49, 45, 45, 45, 45]
    ensures |CONSTRUCTION| == 37 && |IDENTIFIER| == 34
  {
    assert 109 as bv8 == 109 && 97 as bv8 == 97 && 99 as bv8 == 99 && 49 as bv8 == 49 && 45 as bv8 == 45;
  }

  /** The first three KDF outputs. */
  lemma TauWrittenOut(c: Crypto, key: Bytes, input: Bytes)
    ensures var t0 := c.hmac(key, input);
            var t1 := c.hmac(t0, [1]);
            var t2 := c.hmac(t0, t1 + [2]);
            var t3 := c.hmac(t0, t2 + [3]);
            Tau(c, key, input, 1) == t1 && Tau(c, key, input, 2) == t2 && Tau(c, key, input, 3) == t3
  {
    var t0 := c.hmac(key, input);
    NextBlock(c, t0, 1, 1);
    NextBlock(c, t0, 2, 2);
    NextBlock(c, t0, 3, 3);
    assert T(c, t0, [], 0) + [1] == [1];
  }

  lemma NextBlock(c: Crypto, t0: Bytes, i: nat, counter: bv8)
    requires i > 0 && counter == (i % 256) as bv8
    ensures T(c, t0, [], i) == c.hmac(t0, T(c, t0, [], i - 1) + [counter])
  {
    assert T(c, t0, [], i - 1) + [] + [counter] == T(c, t0, [], i - 1) + [counter];
  }

  /** The transcript both sides start from. */
  lemma OpeningWrittenOut(c: Crypto, serverPub: Bytes, ephemeral: Bytes)
    ensures var ck := c.hash(Ascii("Noise_IKpsk2_25519_ChaChaPoly_BLAKE2s"));
            var h := c.hash(c.hash(ck + Ascii("WireGuard v1 zx2c4 Jason@zx2c4.com")) + serverPub);
            Opening(c, serverPub, ephemeral) == Transcript(c.hash(h + ephemeral), c.hmac(c.hmac(ck, ephemeral), [1]))
  {
    TauWrittenOut(c, c.hash(CONSTRUCTION), ephemeral);
  }

  /** One encrypted field: sealed under the second KDF output with the hash so far as additional data;
      the ciphertext goes into the hash and the first output becomes the chaining key. */
  lemma SealFieldWrittenOut(c: Crypto, t: Transcript, shared: Bytes, plain: Bytes)
    ensures var t0 := c.hmac(t.ck, shared);
            var t1 := c.hmac(t0, [1]);
            var field := c.seal(c.hmac(t0, t1 + [2]), plain, t.h);
            SealField(c, t, shared, plain) == (Transcript(c.hash(t.h + field), t1), field)
  {
    TauWrittenOut(c, t.ck, shared);
  }

  /** Hash and key of the response's empty payload, section 5.4.3 of the WireGuard paper. */
  lemma ClosingWrittenOut(c: Crypto, t: Transcript, e: Bytes, dhEphemeral: Bytes, dhStatic: Bytes, psk: Bytes)
    ensures var ck1 := c.hmac(c.hmac(t.ck, e), [1]);
            var ck2 := c.hmac(c.hmac(ck1, dhEphemeral), [1]);
            var ck3 := c.hmac(c.hmac(ck2, dhStatic), [1]);
            var t0 := c.hmac(ck3, psk);
            var tau := c.hmac(t0, c.hmac(t0, [1]) + [2]);
            Closing(c, t, e, dhEphemeral, dhStatic, psk) == (c.hash(c.hash(t.h + e) + tau), c.hmac(t0, tau + [3]))
  {
    TauWrittenOut(c, t.ck, e);
    var ck1 := Tau(c, t.ck, e, 1);
    TauWrittenOut(c, ck1, dhEphemeral);
    var ck2 := Tau(c, ck1, dhEphemeral, 1);
    TauWrittenOut(c, ck2, dhStatic);
    TauWrittenOut(c, Tau(c, ck2, dhStatic, 1), psk);
  }

  // ---- what the keys are bound to ----

  ghost predicate HmacCollides(c: Crypto)
  {
    exists k, x, k', x' :: (k != k' || x != x') && c.hmac(k, x) == c.hmac(k', x')
  }

  ghost predicate HashCollides(c: Crypto) { exists x, x' :: x != x' && c.hash(x) == c.hash(x') }

  lemma TauBinds(c: Crypto, k: Bytes, x: Bytes, k': Bytes, x': Bytes, i: nat)
    requires i > 0 && Tau(c, k, x, i) == Tau(c, k', x', i) && (k != k' || x != x')
    ensures HmacCollides(c)
  {
    var t0, t0' := c.hmac(k, x), c.hmac(k', x');
    if t0 != t0' {
      var y, y' := T(c, t0, [], i - 1) + [] + [(i % 256) as bv8], T(c, t0', [], i - 1) + [] + [(i % 256) as bv8];
      assert c.hmac(t0, y) == c.hmac(t0', y');
    }
  }

  /** One payload key for two different preshared keys, DH results, ephemerals or chaining keys takes
      an HMAC collision. */
  lemma ClosingBinds(c: Crypto, t: Transcript, e: Bytes, d1: Bytes, d2: Bytes, psk: Bytes,
                     t': Transcript, e': Bytes, d1': Bytes, d2': Bytes, psk': Bytes)
    requires Closing(c, t, e, d1, d2, psk).1 == Closing(c, t', e', d1', d2', psk').1
    requires psk != psk' || d2 != d2' || d1 != d1' || e != e' || t.ck != t'.ck
    ensures HmacCollides(c)
  {
    var a, a' := Tau(c, t.ck, e, 1), Tau(c, t'.ck, e', 1);
    var b, b' := Tau(c, a, d1, 1), Tau(c, a', d1', 1);
    var k, k' := Tau(c, b, d2, 1), Tau(c, b', d2', 1);
    if psk != psk' || k != k' { TauBinds(c, k, psk, k', psk', 3); }
    else if d2 != d2' || b != b' { TauBinds(c, b, d2, b', d2', 1); }
    else if d1 != d1' || a != a' { TauBinds(c, a, d1, a', d1', 1); }
    else { TauBinds(c, t.ck, e, t'.ck, e', 1); }
  }

  /** One payload hash for two different transcripts or ephemerals takes a hash collision. */
  lemma ClosingHashBinds(c: Crypto, t: Transcript, e: Bytes, d1: Bytes, d2: Bytes, psk: Bytes,
                         t': Transcript, e': Bytes, d1': Bytes, d2': Bytes, psk': Bytes)
    requires Lengths(c) && |t.h| == |t'.h| && (t.h != t'.h || e != e')
    requires Closing(c, t, e, d1, d2, psk).0 == Closing(c, t', e', d1', d2', psk').0
    ensures HashCollides(c)
  {
    ClosingWrittenOut(c, t, e, d1, d2, psk);
    ClosingWrittenOut(c, t', e', d1', d2', psk');
    var x, x' := t.h + e, t'.h + e';
    ConcatInjective(t.h, e, t'.h, e');
    var y := c.hash(x) + Tau(c, Tau(c, Tau(c, Tau(c, t.ck, e, 1), d1, 1), d2, 1), psk, 2);
    var y' := c.hash(x') + Tau(c, Tau(c, Tau(c, Tau(c, t'.ck, e', 1), d1', 1), d2', 1), psk', 2);
    assert c.hash(y) == c.hash(y');
    assert y[..32] == c.hash(x) && y'[..32] == c.hash(x');
  }

  lemma ConcatInjective(a: Bytes, b: Bytes, a': Bytes, b': Bytes)
    requires |a| == |a'|
    ensures a + b == a' + b' ==> a == a' && b == b'
  {
    assert (a + b)[..|a|] == a && (a' + b')[..|a|] == a' && (a + b)[|a|..] == b && (a' + b')[|a|..] == b';
  }

  // ---- the responder, as the paper describes it ----

  datatype Consumed = Consumed(t: Transcript, ephemeral: Bytes, clientPub: Bytes, timestamp: Bytes)

  /** What a responder with private key `priv` makes of a 148-byte initiation. */
  function Consume(c: Crypto, priv: Bytes, msg: Bytes): Option<Consumed>
  {
    if |msg| != 148 || c.mac(c.hash(LABEL_MAC1 + c.pub(priv)), msg[..116]) != msg[116..132] then None
    else
      var ephemeral := msg[8..40];
      match OpenField(c, Opening(c, c.pub(priv), ephemeral), c.dh(priv, ephemeral), msg[40..88])
      case None => None
      case Some((t, clientPub)) =>
        match OpenField(c, t, c.dh(priv, clientPub), msg[88..116])
        case None => None
        case Some((t', timestamp)) => Some(Consumed(t', ephemeral, clientPub, timestamp))
  }

  /** The honest response: 92 bytes, addressed to the initiator's sender index. `head` holds the
      type and the responder's own index, `tail` the two MACs. */
  function Respond(c: Crypto, got: Consumed, ephemeralPriv: Bytes, psk: Bytes, head: Bytes, sender: Bytes, tail: Bytes): Bytes
  {
    var ephemeral := c.pub(ephemeralPriv);
    var (h, key) := Closing(c, got.t, ephemeral, c.dh(ephemeralPriv, got.ephemeral), c.dh(ephemeralPriv, got.clientPub), psk);
    head + sender + ephemeral + c.seal(key, [], h) + tail
  }

  // ---- the initiator, as the probe runs it ----

  method Put(msg: array<bv8>, at: nat, data: Bytes)
    requires at + |data| <= msg.Length
    modifies msg
    ensures forall j :: 0 <= j < msg.Length ==> msg[j] == if at <= j < at + |data| then data[j - at] else old(msg[j])
  {
    for i := 0 to |data|
      invariant forall j :: 0 <= j < msg.Length ==> msg[j] == if at <= j < at + i then data[j - at] else old(msg[j])
    {
      msg[at + i] := data[i];
    }
  }

  /** The message layout up to MAC1. */
  method PutFields(msg: array<bv8>, wireType: Bytes, sender: Bytes, ephPub: Bytes, encStatic: Bytes, encTime: Bytes)
    requires msg.Length == 148
    requires |wireType| == |sender| == 4 && |ephPub| == 32 && |encStatic| == 48 && |encTime| == 28
    modifies msg
    ensures msg[..116] == wireType + sender + ephPub + encStatic + encTime && msg[116..] == old(msg[116..])
  {
    Put(msg, 8, ephPub);
    Put(msg, 40, encStatic);
    Put(msg, 88, encTime);
    Put(msg, 0, wireType);
    Put(msg, 4, sender);
    assert msg[..4] == wireType && msg[4..8] == sender && msg[8..40] == ephPub && msg[40..88] == encStatic && msg[88..116] == encTime;
    assert msg[..116] == msg[..4] + msg[4..8] + msg[8..40] + msg[40..88] + msg[88..116];
  }

  /** Fields, then MAC1 over them. */
  method PutMessage(c: Crypto, msg: array<bv8>, serverPub: Bytes, wireType: Bytes, sender: Bytes, ephPub: Bytes, encStatic: Bytes, encTime: Bytes)
    requires Lengths(c) && msg.Length == 148 && msg[116..] == Zeros16() + Zeros16()
    requires |wireType| == |sender| == 4 && |ephPub| == 32 && |encStatic| == 48 && |encTime| == 28
    modifies msg
    ensures var body := wireType + sender + ephPub + encStatic + encTime;
            msg[..] == body + c.mac(c.hash(LABEL_MAC1 + serverPub), body) + Zeros16()
  {
    PutFields(msg, wireType, sender, ephPub, encStatic, encTime);
    var mac1 := c.mac(c.hash(LABEL_MAC1 + serverPub), msg[..116]);
    PutMac1(msg, mac1);
  }

  method PutMac1(msg: array<bv8>, mac1: Bytes)
    requires msg.Length == 148 && |mac1| == 16 && msg[116..] == Zeros16() + Zeros16()
    modifies msg
    ensures msg[..] == old(msg[..116]) + mac1 + Zeros16()
  {
    Put(msg, 116, mac1);
    assert old(msg[132..]) == old(msg[116..])[16..] == Zeros16();
  }

  /** `x25519Shared`: an all-zero result is refused. */
  method Shared(c: Crypto, priv: Bytes, pub: Bytes) returns (ok: bool, out: Bytes)
    ensures out == c.dh(priv, pub) && ok == !AllZero(out)
  {
    out := c.dh(priv, pub);
    for i := 0 to |out|
      invariant forall j :: 0 <= j < i ==> out[j] == 0
    {
      if out[i] != 0 { assert out[i] in out; return true, out; }
    }
    ok := false;
  }

  class HandshakeState {
    var hash: Bytes
    var chainKey: Bytes
    const ephemeral: Bytes
    const staticPriv: Bytes
    const psk: Bytes

    constructor (ephemeral: Bytes, staticPriv: Bytes, psk: Bytes)
      ensures this.ephemeral == ephemeral && this.staticPriv == staticPriv && this.psk == psk
    {
      this.ephemeral, this.staticPriv, this.psk := ephemeral, staticPriv, psk;
      hash, chainKey := [], [];
    }

    /** The initiation block of wgProbeHandshakeRTT. `wireType` and `sender` are the little-endian
        header words. Fails exactly when a DH result is all zero. */
    method Initiate(c: Crypto, serverPub: Bytes, timestamp: Bytes, wireType: Bytes, sender: Bytes)
      returns (ok: bool, msg: array<bv8>)
      requires Lengths(c) && |timestamp| == 12 && |wireType| == 4 && |sender| == 4
      modifies this
      ensures fresh(msg)
      ensures ok == (!AllZero(c.dh(ephemeral, serverPub)) && !AllZero(c.dh(staticPriv, serverPub)))
      ensures ok ==> msg[..] == Initiation(c, serverPub, ephemeral, staticPriv, timestamp, wireType, sender)
      ensures ok ==> Transcript(hash, chainKey) == InitiatorTranscript(c, serverPub, ephemeral, staticPriv, timestamp)
    {
      msg := new bv8[148](_ => 0);
      var ephPub := c.pub(ephemeral);
      Begin(c, serverPub, ephPub);
      var encStatic, encTime;
      ok, encStatic := EncryptAndHash(c, ephemeral, serverPub, c.pub(staticPriv));
      if !ok { return; }
      ok, encTime := EncryptAndHash(c, staticPriv, serverPub, timestamp);
      if !ok { return; }
      PutMessage(c, msg, serverPub, wireType, sender, ephPub, encStatic, encTime);
    }

    method Begin(c: Crypto, serverPub: Bytes, ephPub: Bytes)
      modifies this
      ensures Transcript(hash, chainKey) == Opening(c, serverPub, ephPub)
    {
      chainKey := c.hash(CONSTRUCTION);
      hash := c.hash(chainKey + IDENTIFIER);
      hash := c.hash(hash + serverPub);
      var out := new Bytes[3](_ => []);
      chainKey := Kdf(c, chainKey, out, 1, ephPub);
      hash := c.hash(hash + ephPub);
    }

    /** One encrypted field: mix a DH result, seal, absorb the ciphertext. */
    method EncryptAndHash(c: Crypto, priv: Bytes, serverPub: Bytes, plain: Bytes) returns (ok: bool, field: Bytes)
      modifies this
      ensures ok == !AllZero(c.dh(priv, serverPub))
      ensures ok ==> (Transcript(hash, chainKey), field) == SealField(c, old(Transcript(hash, chainKey)), c.dh(priv, serverPub), plain)
    {
      field := [];
      var shared;
      ok, shared := Shared(c, priv, serverPub);
      if !ok { return; }
      var out := new Bytes[3](_ => []);
      chainKey := Kdf(c, chainKey, out, 2, shared);
      field := c.seal(out[1], plain, hash);
      hash := c.hash(hash + field);
    }

    /** `verifyResponse` works on copies of the state. */
    method VerifyResponse(c: Crypto, resp: Bytes) returns (ok: bool)
      requires |resp| == 92
      ensures ok == Accepts(c, Transcript(hash, chainKey), ephemeral, staticPriv, psk, resp)
    {
      var respEphemeral, respEmpty := resp[12..44], resp[44..60];
      var h, ck := hash, chainKey;
      var out := new Bytes[3](_ => []);
      h := c.hash(h + respEphemeral);
      ck := Kdf(c, ck, out, 1, respEphemeral);
      var shared;
      ok, shared := Shared(c, ephemeral, respEphemeral);
      if !ok { return; }
      ck := Kdf(c, ck, out, 1, shared);
      ok, shared := Shared(c, staticPriv, respEphemeral);
      if !ok { return; }
      ck := Kdf(c, ck, out, 1, shared);
      ck := Kdf(c, ck, out, 3, psk);
      h := c.hash(h + out[1]);
      ok := c.open(out[2], respEmpty, h).Some?;
    }
  }

  function Zeros16(): Bytes { [0, 0, 0, 0, 0, 0, 0, 0, 0, 0, 0, 0, 0, 0, 0, 0] }

  function InitiatorFields(c: Crypto, serverPub: Bytes, eph: Bytes, stat: Bytes, timestamp: Bytes): (Transcript, Bytes, Bytes)
  {
    var (t1, encStatic) := SealField(c, Opening(c, serverPub, c.pub(eph)), c.dh(eph, serverPub), c.pub(stat));
    var (t2, encTime) := SealField(c, t1, c.dh(stat, serverPub), timestamp);
    (t2, encStatic, encTime)
  }

  function InitiatorTranscript(c: Crypto, serverPub: Bytes, eph: Bytes, stat: Bytes, timestamp: Bytes): Transcript
  {
    InitiatorFields(c, serverPub, eph, stat, timestamp).0
  }

  function Initiation(c: Crypto, serverPub: Bytes, eph: Bytes, stat: Bytes, timestamp: Bytes, wireType: Bytes, sender: Bytes): Bytes
  {
    var (_, encStatic, encTime) := InitiatorFields(c, serverPub, eph, stat, timestamp);
    var body := wireType + sender + c.pub(eph) + encStatic + encTime;
    body + c.mac(c.hash(LABEL_MAC1 + serverPub), body) + Zeros16()
  }

  predicate Accepts(c: Crypto, t: Transcript, eph: Bytes, stat: Bytes, psk: Bytes, resp: Bytes)
    requires |resp| == 92
  {
    var er := resp[12..44];
    var (h, key) := Closing(c, t, er, c.dh(eph, er), c.dh(stat, er), psk);
    !AllZero(c.dh(eph, er)) && !AllZero(c.dh(stat, er)) && c.open(key, resp[44..60], h).Some?
  }

  /** The initiation's layout: type, index, ephemeral key, the two sealed fields, then a MAC over the
      first 116 bytes under the hash of "mac1----" and the server's key, and no cookie. */
  lemma InitiationLayout(c: Crypto, serverPub: Bytes, eph: Bytes, stat: Bytes, timestamp: Bytes, wireType: Bytes, sender: Bytes)
    requires Lengths(c) && |timestamp| == 12 && |wireType| == 4 && |sender| == 4
    ensures var m := Initiation(c, serverPub, eph, stat, timestamp, wireType, sender);
            && |m| == 148 && m[..4] == wireType && m[4..8] == sender && m[8..40] == c.pub(eph)
            && m[116..132] == c.mac(c.hash([109, 97, 99, 49, 45, 45, 45, 45] + serverPub), m[..116])
            && m[132..] == [0, 0, 0, 0, 0, 0, 0, 0, 0, 0, 0, 0, 0, 0, 0, 0]
  {
    Labels();
    var (_, encStatic, encTime) := InitiatorFields(c, serverPub, eph, stat, timestamp);
    var m := Initiation(c, serverPub, eph, stat, timestamp, wireType, sender);
    assert m[..116] == wireType + sender + c.pub(eph) + encStatic + encTime;
  }

  /** What the probe accepts, down to HMAC, hash, DH and AEAD. */
  lemma AcceptsWrittenOut(c: Crypto, t: Transcript, eph: Bytes, stat: Bytes, psk: Bytes, resp: Bytes)
    requires |resp| == 92
    ensures var e := resp[12..44];
            var ck1 := c.hmac(c.hmac(t.ck, e), [1]);
            var ck2 := c.hmac(c.hmac(ck1, c.dh(eph, e)), [1]);
            var ck3 := c.hmac(c.hmac(ck2, c.dh(stat, e)), [1]);
            var t0 := c.hmac(ck3, psk);
            var tau := c.hmac(t0, c.hmac(t0, [1]) + [2]);
            Accepts(c, t, eph, stat, psk, resp) <==>
              && (exists b :: b in c.dh(eph, e) && b != 0) && (exists b :: b in c.dh(stat, e) && b != 0)
              && c.open(c.hmac(t0, tau + [3]), resp[44..60], c.hash(c.hash(t.h + e) + tau)).Some?
  {
    ClosingWrittenOut(c, t, resp[12..44], c.dh(eph, resp[12..44]), c.dh(stat, resp[12..44]), psk);
  }

  // ---- agreement ----

  /** Every initiation opens at the intended responder, which then holds the same transcript. */
  lemma InitiationIsConsumed(c: Crypto, server: Bytes, eph: Bytes, stat: Bytes, timestamp: Bytes, wireType: Bytes, sender: Bytes)
    requires Laws(c) && |timestamp| == 12 && |wireType| == 4 && |sender| == 4
    ensures Consume(c, server, Initiation(c, c.pub(server), eph, stat, timestamp, wireType, sender)) ==
              Some(Consumed(InitiatorTranscript(c, c.pub(server), eph, stat, timestamp), c.pub(eph), c.pub(stat), timestamp))
  {
    var pub := c.pub(server);
    var (t2, encStatic, encTime) := InitiatorFields(c, pub, eph, stat, timestamp);
    var msg := Initiation(c, pub, eph, stat, timestamp, wireType, sender);
    var body := wireType + sender + c.pub(eph) + encStatic + encTime;
    assert msg[..116] == body;
    assert msg[8..40] == c.pub(eph) && msg[40..88] == encStatic && msg[88..116] == encTime;
    assert c.dh(server, c.pub(eph)) == c.dh(eph, pub);
    assert c.dh(server, c.pub(stat)) == c.dh(stat, pub);
  }

  /** Whatever ephemeral key the honest responder picks, its response is accepted, unless a DH
      result is the refused all-zero value. */
  lemma HonestResponseAccepted(c: Crypto, server: Bytes, eph: Bytes, stat: Bytes, psk: Bytes, timestamp: Bytes,
                               respEph: Bytes, head: Bytes, sender: Bytes, tail: Bytes, got: Consumed)
    requires Laws(c) && |timestamp| == 12 && |head| == 8 && |sender| == 4 && |tail| == 32
    requires Consume(c, server, Initiation(c, c.pub(server), eph, stat, timestamp, head[..4], sender)) == Some(got)
    ensures var resp := Respond(c, got, respEph, psk, head, sender, tail);
            && |resp| == 92 && resp[8..12] == sender
            && (Accepts(c, InitiatorTranscript(c, c.pub(server), eph, stat, timestamp), eph, stat, psk, resp)
                <==> !AllZero(c.dh(respEph, c.pub(eph))) && !AllZero(c.dh(respEph, c.pub(stat))))
  {
    InitiationIsConsumed(c, server, eph, stat, timestamp, head[..4], sender);
    var er := c.pub(respEph);
    var (h, key) := Closing(c, got.t, er, c.dh(respEph, got.ephemeral), c.dh(respEph, got.clientPub), psk);
    var resp := Respond(c, got, respEph, psk, head, sender, tail);
    assert resp[12..44] == er && resp[44..60] == c.seal(key, [], h) && resp[8..12] == sender;
    assert c.dh(eph, er) == c.dh(respEph, c.pub(eph));
    assert c.dh(stat, er) == c.dh(respEph, c.pub(stat));
  }
}
