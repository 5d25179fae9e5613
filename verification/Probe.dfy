/** The handshake probe around the Noise core: little-endian words, AmneziaWG framing with XOR
    header protection, and the send, retry and receive loop. */
module Probe {
  import opened Noise

  // ---- words ----

  function PutLe32(v: bv32): (r: Bytes)
    ensures |r| == 4
  {
    [(v & 0xff) as bv8, ((v >> 8) & 0xff) as bv8, ((v >> 16) & 0xff) as bv8, ((v >> 24) & 0xff) as bv8]
  }

  function GetLe32(b: Bytes): bv32
    requires |b| >= 4
  {
    (b[0] as bv32) | ((b[1] as bv32) << 8) | ((b[2] as bv32) << 16) | ((b[3] as bv32) << 24)
  }

  lemma Le32RoundTrip(v: bv32)
    ensures GetLe32(PutLe32(v)) == v
  {
    var p := PutLe32(v);
    assert p[0] as bv32 == v & 0xff && p[1] as bv32 == (v >> 8) & 0xff
        && p[2] as bv32 == (v >> 16) & 0xff && p[3] as bv32 == (v >> 24) & 0xff;
  }

  /** Least significant byte first. */
  lemma Le32Order()
    ensures PutLe32(0x0403_0201) == [1, 2, 3, 4] && GetLe32([1, 2, 3, 4]) == 0x0403_0201
  {
    Le32RoundTrip(0x0403_0201);
  }

  // ---- framing ----

  /** What the parameter parser delivers: any int. */
  type int32 = x: int | -0x8000_0000 <= x <= 0x7fff_ffff

  datatype Range = Range(start: nat, end: nat, isSet: bool)

  /** `s1`..`s3` are the junk prefix lengths, `h2` and `h3` the magic header ranges. */
  datatype Junk = Junk(s1: int32, s2: int32, s3: int32, h2: Range, h3: Range, protect: bool, key: Bytes)

  const NONCE_LEN := 12
  const INITIATION_SIZE := 148
  const RESPONSE_SIZE := 92
  const COOKIE_SIZE := 64
  const BUFFER_SIZE := 2048
  const INT_MAX := 0x7fff_ffff

  function Xor(data: Bytes, ks: Bytes): (r: Bytes)
    requires |ks| == |data|
    ensures |r| == |data|
  {
    seq(|data|, i requires 0 <= i < |data| => data[i] ^ ks[i])
  }

  lemma XorTwice(data: Bytes, ks: Bytes)
    requires |ks| == |data|
    ensures Xor(Xor(data, ks), ks) == data
  {
    forall i | 0 <= i < |data| ensures Xor(Xor(data, ks), ks)[i] == data[i] {
      var a, k := data[i], ks[i];
      assert (a ^ k) ^ k == a;
    }
  }

  predicate Protected(j: Junk, s: int) { j.protect && s >= NONCE_LEN }

  /** How a peer puts a message on the wire: junk prefix, the (possibly masked) message, trailer. */
  function Wire(c: Crypto, j: Junk, prefix: Bytes, msg: Bytes, trailer: Bytes): Bytes
    requires |c.stream(j.key, prefix[..Min(NONCE_LEN, |prefix|)], |msg|)| == |msg|
  {
    prefix + (if Protected(j, |prefix|) then Xor(msg, c.stream(j.key, prefix[..NONCE_LEN], |msg|)) else msg) + trailer
  }

  function Min(a: int, b: int): int { if a <= b then a else b }

  /** How a receiver takes `size` bytes after a prefix of `s` bytes out of a datagram. */
  function Unwire(c: Crypto, j: Junk, d: Bytes, s: nat, size: nat): Bytes
    requires s + size <= |d| && (Protected(j, s) ==> |c.stream(j.key, d[..NONCE_LEN], size)| == size)
  {
    if Protected(j, s) then Xor(d[s..s + size], c.stream(j.key, d[..NONCE_LEN], size)) else d[s..s + size]
  }

  /** Header protection is undone exactly, whatever the prefix, key and trailer. */
  lemma WireRoundTrip(c: Crypto, j: Junk, prefix: Bytes, msg: Bytes, trailer: Bytes)
    requires Lengths(c)
    ensures var d := Wire(c, j, prefix, msg, trailer);
            |prefix| + |msg| <= |d| && Unwire(c, j, d, |prefix|, |msg|) == msg
  {
    var d := Wire(c, j, prefix, msg, trailer);
    var s := |prefix|;
    if Protected(j, s) {
      var ks := c.stream(j.key, prefix[..NONCE_LEN], |msg|);
      assert d[s..s + |msg|] == Xor(msg, ks);
      assert d[..NONCE_LEN] == prefix[..NONCE_LEN];
      XorTwice(msg, ks);
    } else {
      assert d[s..s + |msg|] == msg;
    }
  }

  /** The datagram byte by byte: the prefix in the clear; then the message, masked with the keystream
      of the prefix's first twelve bytes iff protection is on and the prefix has that many; then the
      trailer. */
  lemma WireBytes(c: Crypto, j: Junk, prefix: Bytes, msg: Bytes, trailer: Bytes)
    requires Lengths(c)
    ensures var d := Wire(c, j, prefix, msg, trailer);
            && |d| == |prefix| + |msg| + |trailer|
            && d[..|prefix|] == prefix && d[|prefix| + |msg|..] == trailer
            && (!j.protect || |prefix| < 12 ==> d[|prefix|..|prefix| + |msg|] == msg)
            && (j.protect && |prefix| >= 12 ==>
                  forall i :: 0 <= i < |msg| ==> d[|prefix| + i] == msg[i] ^ c.stream(j.key, prefix[..12], |msg|)[i])
  {
    var d := Wire(c, j, prefix, msg, trailer);
    var ks := c.stream(j.key, prefix[..Min(NONCE_LEN, |prefix|)], |msg|);
    var body := if Protected(j, |prefix|) then Xor(msg, ks) else msg;
    assert d == prefix + body + trailer;
  }

  /** `chacha20Apply` on data[at..at+len), the nonce read from the head of the same buffer. */
  method ChachaApply(c: Crypto, key: Bytes, buf: array<bv8>, at: nat, len: nat)
    requires Lengths(c) && NONCE_LEN <= at && at + len <= buf.Length
    modifies buf
    ensures buf[..] == old(buf[..at]) + Xor(old(buf[at..at + len]), c.stream(key, old(buf[..NONCE_LEN]), len)) + old(buf[at + len..])
  {
    var ks := c.stream(key, buf[..NONCE_LEN], len);
    for i := 0 to len
      invariant forall k :: 0 <= k < buf.Length ==> buf[k] == if at <= k < at + i then old(buf[k]) ^ ks[k - at] else old(buf[k])
    {
      buf[at + i] := buf[at + i] ^ ks[i];
    }
    assert buf[..at] == old(buf[..at]) && buf[at + len..] == old(buf[at + len..]);
    assert buf[at..at + len] == Xor(old(buf[at..at + len]), ks);
    assert buf[..] == buf[..at] + buf[at..at + len] + buf[at + len..];
  }

  /** The initiation datagram: S1 random bytes, then the message, masked if the prefix has a nonce.
      `ok`: the packet size fits an int and the message is copied inside the packet; for any other S1
      the source's behaviour is undefined. */
  method BuildInitPacket(c: Crypto, j: Junk, random: Bytes, msg: Bytes) returns (ok: bool, packet: array<bv8>)
    requires Lengths(c) && (j.s1 >= 0 ==> |random| == j.s1) && |msg| == INITIATION_SIZE
    ensures fresh(packet) && ok == (0 <= j.s1 <= INT_MAX - INITIATION_SIZE)
    ensures ok ==> packet[..] == Wire(c, j, random, msg, [])
  {
    var size := ToInt32(j.s1 + INITIATION_SIZE);
    if j.s1 < 0 || size != j.s1 + INITIATION_SIZE {
      packet := new bv8[0];
      return false, packet;
    }
    packet := new bv8[size](i requires 0 <= i < size => if i < |random| then random[i] else msg[i - |random|]);
    assert packet[..] == random + msg;
    if j.protect && j.s1 >= NONCE_LEN {
      assert packet[..j.s1] == random && packet[j.s1..j.s1 + INITIATION_SIZE] == msg && packet[..NONCE_LEN] == random[..NONCE_LEN];
      ChachaApply(c, j.key, packet, j.s1, INITIATION_SIZE);
    }
    assert Wire(c, j, random, msg, []) + [] == Wire(c, j, random, msg, []);
    ok := true;
  }

  // ---- the size guards ----

  function ToInt32(x: int): int { (x + 0x8000_0000) % 0x1_0000_0000 - 0x8000_0000 }

  /** `n >= static_cast<int>(s + size)`: the sum is a 64-bit size_t, narrowed to int. */
  predicate Guard(n: int, s: int, size: int)
  {
    n >= ToInt32((s % 0x1_0000_0000_0000_0000 + size) % 0x1_0000_0000_0000_0000)
  }

  /** The guard keeps reads inside the received bytes for every datagram length exactly when the
      prefix length is non-negative and the sum fits an int. */
  lemma GuardBounds(s: int32, size: int)
    requires 1 < size <= BUFFER_SIZE
    ensures (forall n :: 0 < n <= BUFFER_SIZE && Guard(n, s, size) ==> 0 <= s && s + size <= n)
            <==> 0 <= s <= INT_MAX - size
  {
    if 0 <= s <= INT_MAX - size {
      assert ToInt32((s % 0x1_0000_0000_0000_0000 + size) % 0x1_0000_0000_0000_0000) == s + size;
    } else {
      assert s > INT_MAX - size ==> Guard(1, s, size);
      assert s < 0 ==> Guard(BUFFER_SIZE, s, size) by {
        if s < 0 { assert s % 0x1_0000_0000_0000_0000 == s + 0x1_0000_0000_0000_0000; }
      }
    }
  }

  /** Outside that range: the narrowed sum is negative and a one-byte datagram passes the guard. */
  lemma GuardOverflow()
    ensures Guard(1, 0x7fff_ffff, COOKIE_SIZE)
  {}

  predicate SafeSizes(j: Junk)
  {
    0 <= j.s2 <= INT_MAX - RESPONSE_SIZE && 0 <= j.s3 <= INT_MAX - COOKIE_SIZE
  }

  // ---- which datagrams count as an answer ----

  function Number(word: bv32): nat { word as nat }

  predicate Plausible(r: Range, wireType: bv32, fallback: bv32)
  {
    if r.isSet then r.start <= Number(wireType) <= r.end else wireType == fallback
  }

  /** What the probe knows when it listens. */
  datatype Session = Session(c: Crypto, j: Junk, sender: bv32, t: Transcript, eph: Bytes, stat: Bytes, psk: Bytes)

  ghost predicate Ready(p: Session) { Lengths(p.c) }

  predicate InBounds(n: int, s: int, size: int) { 0 <= s && s + size <= n }

  /** Type and receiver index pass for an answer to this probe. */
  predicate Addressed(p: Session, r: Range, fallback: bv32, wireType: bv32, index: bv32)
  {
    Plausible(r, wireType, fallback) && index == p.sender
  }

  /** A type is plausible in its configured range, or equal to the protocol's own without a range. */
  lemma PlausibleIs(r: Range, wireType: bv32, fallback: bv32)
    ensures r.isSet ==> (Plausible(r, wireType, fallback) <==> r.start <= wireType as int <= r.end)
    ensures !r.isSet ==> (Plausible(r, wireType, fallback) <==> wireType == fallback)
  {}

  /** A message with another receiver index is never an answer. */
  lemma AddressedIs(p: Session, r: Range, fallback: bv32, wireType: bv32, index: bv32)
    ensures index != p.sender ==> !Addressed(p, r, fallback, wireType, index)
    ensures index == p.sender ==> (Addressed(p, r, fallback, wireType, index) <==> Plausible(r, wireType, fallback))
  {}

  predicate IsCookie(p: Session, d: Bytes)
    requires Ready(p)
  {
    InBounds(|d|, p.j.s3, COOKIE_SIZE) &&
    var m := Unwire(p.c, p.j, d, p.j.s3, COOKIE_SIZE);
    Addressed(p, p.j.h3, 3, GetLe32(m), GetLe32(m[4..]))
  }

  predicate IsResponse(p: Session, d: Bytes)
    requires Ready(p)
  {
    InBounds(|d|, p.j.s2, RESPONSE_SIZE) &&
    var m := Unwire(p.c, p.j, d, p.j.s2, RESPONSE_SIZE);
    Addressed(p, p.j.h2, 2, GetLe32(m), GetLe32(m[8..])) && Accepts(p.c, p.t, p.eph, p.stat, p.psk, m)
  }

  /** What one datagram leads to. Strays: the code reads outside the received bytes. */
  datatype Verdict = Answer | Ignored | Strays

  ghost function CookieVerdict(p: Session, d: Bytes): Verdict
    requires Ready(p)
  {
    if Guard(|d|, p.j.s3, COOKIE_SIZE) && !InBounds(|d|, p.j.s3, COOKIE_SIZE) then Strays
    else if IsCookie(p, d) then Answer else Ignored
  }

  ghost function ResponseVerdict(p: Session, d: Bytes): Verdict
    requires Ready(p)
  {
    if Guard(|d|, p.j.s2, RESPONSE_SIZE) && !InBounds(|d|, p.j.s2, RESPONSE_SIZE) then Strays
    else if IsResponse(p, d) then Answer else Ignored
  }

  /** A cookie reply is looked for first. */
  ghost function Judge(p: Session, d: Bytes): Verdict
    requires Ready(p)
  {
    if CookieVerdict(p, d).Ignored? then ResponseVerdict(p, d) else CookieVerdict(p, d)
  }

  /** The guard never turns away a datagram that is long enough. */
  lemma GuardAdmits(n: int, s: int32, size: int)
    requires 0 < n <= BUFFER_SIZE && 1 < size <= BUFFER_SIZE && InBounds(n, s, size)
    ensures Guard(n, s, size)
  {}

  method ExamineCookie(p: Session, buf: Bytes) returns (v: Verdict)
    requires Ready(p) && 0 < |buf| <= BUFFER_SIZE
    ensures v == CookieVerdict(p, buf)
  {
    if InBounds(|buf|, p.j.s3, COOKIE_SIZE) { GuardAdmits(|buf|, p.j.s3, COOKIE_SIZE); }
    if !Guard(|buf|, p.j.s3, COOKIE_SIZE) { return Ignored; }
    if !InBounds(|buf|, p.j.s3, COOKIE_SIZE) { return Strays; }
    var cookie := Unwire(p.c, p.j, buf, p.j.s3, COOKIE_SIZE);
    v := if Plausible(p.j.h3, GetLe32(cookie), 3) && GetLe32(cookie[4..]) == p.sender then Answer else Ignored;
  }

  method ExamineResponse(p: Session, st: HandshakeState, buf: Bytes) returns (v: Verdict)
    requires Ready(p) && 0 < |buf| <= BUFFER_SIZE
    requires p.t == Transcript(st.hash, st.chainKey) && p.eph == st.ephemeral && p.stat == st.staticPriv && p.psk == st.psk
    ensures v == ResponseVerdict(p, buf)
  {
    if InBounds(|buf|, p.j.s2, RESPONSE_SIZE) { GuardAdmits(|buf|, p.j.s2, RESPONSE_SIZE); }
    if !Guard(|buf|, p.j.s2, RESPONSE_SIZE) { return Ignored; }
    if !InBounds(|buf|, p.j.s2, RESPONSE_SIZE) { return Strays; }
    var resp := Unwire(p.c, p.j, buf, p.j.s2, RESPONSE_SIZE);
    if !Plausible(p.j.h2, GetLe32(resp), 2) || GetLe32(resp[8..]) != p.sender { return Ignored; }
    var ok := st.VerifyResponse(p.c, resp);
    v := if ok then Answer else Ignored;
  }

  /** One received datagram (`buf` holds the bytes recv delivered). */
  method Examine(p: Session, st: HandshakeState, buf: Bytes) returns (v: Verdict)
    requires Ready(p) && 0 < |buf| <= BUFFER_SIZE
    requires p.t == Transcript(st.hash, st.chainKey) && p.eph == st.ephemeral && p.stat == st.staticPriv && p.psk == st.psk
    ensures v == Judge(p, buf)
    ensures SafeSizes(p.j) ==> v == if IsCookie(p, buf) || IsResponse(p, buf) then Answer else Ignored
  {
    if SafeSizes(p.j) { SafeJudge(p, buf); }
    v := ExamineCookie(p, buf);
    if v.Ignored? { v := ExamineResponse(p, st, buf); }
  }

  /** With safe prefix lengths a datagram counts exactly if it is a cookie reply or a response. */
  lemma SafeJudge(p: Session, d: Bytes)
    requires Ready(p) && SafeSizes(p.j) && 0 < |d| <= BUFFER_SIZE
    ensures Judge(p, d) == if IsCookie(p, d) || IsResponse(p, d) then Answer else Ignored
  {
    GuardBounds(p.j.s3, COOKIE_SIZE);
    GuardBounds(p.j.s2, RESPONSE_SIZE);
  }

  /** No datagram makes the code read outside the received bytes, exactly when both prefix lengths
      are non-negative and their sums with the message sizes fit an int. */
  lemma NeverStraysIff(p: Session)
    requires Ready(p)
    ensures (forall d: Bytes :: 0 < |d| <= BUFFER_SIZE ==> !Judge(p, d).Strays?) <==> SafeSizes(p.j)
  {
    if SafeSizes(p.j) {
      forall d: Bytes | 0 < |d| <= BUFFER_SIZE ensures !Judge(p, d).Strays? { SafeJudge(p, d); }
    } else {
      var d := StrayingDatagram(p);
      assert Judge(p, d).Strays?;
    }
  }

  lemma StrayingDatagram(p: Session) returns (d: Bytes)
    requires Ready(p) && !SafeSizes(p.j)
    ensures 0 < |d| <= BUFFER_SIZE && Judge(p, d).Strays?
  {
    if !(0 <= p.j.s3 <= INT_MAX - COOKIE_SIZE) {
      var n := StrayingLength(p.j.s3, COOKIE_SIZE);
      d := Fill(n, 0);
    } else {
      var n := StrayingLength(p.j.s2, RESPONSE_SIZE);
      GuardBounds(p.j.s3, COOKIE_SIZE);
      d := NotACookie(p, n);
    }
  }

  lemma StrayingLength(s: int32, size: int) returns (n: nat)
    requires 1 < size <= BUFFER_SIZE && !(0 <= s <= INT_MAX - size)
    ensures 0 < n <= BUFFER_SIZE && Guard(n, s, size) && !InBounds(n, s, size)
  {
    GuardBounds(s, size);
    n :| 0 < n <= BUFFER_SIZE && Guard(n, s, size) && !(0 <= s && s + size <= n);
  }

  /** For every length some datagram is not a cookie reply: a blank one, or else that one with a byte
      of the index changed. */
  lemma NotACookie(p: Session, n: nat) returns (d: Bytes)
    requires Ready(p)
    ensures |d| == n && !IsCookie(p, d)
  {
    d := Fill(n, 0);
    if IsCookie(p, d) {
      var s := p.j.s3;
      var d' := d[s + 4 := 1];
      var m, m' := Unwire(p.c, p.j, d, s, COOKIE_SIZE), Unwire(p.c, p.j, d', s, COOKIE_SIZE);
      assert d[s..s + COOKIE_SIZE][4] == 0 && d'[s..s + COOKIE_SIZE][4] == 1;
      if Protected(p.j, s) {
        assert d'[..NONCE_LEN] == d[..NONCE_LEN];
        XorDiffers(0, 1, p.c.stream(p.j.key, d[..NONCE_LEN], COOKIE_SIZE)[4]);
      }
      assert m[4] != m'[4];
      FirstByteMatters(m[4..], m'[4..]);
      d := d';
    }
  }

  lemma XorDiffers(a: bv8, b: bv8, k: bv8)
    requires a != b
    ensures a ^ k != b ^ k
  {}

  lemma FirstByteMatters(a: Bytes, b: Bytes)
    requires |a| >= 4 && |b| >= 4 && a[0] != b[0]
    ensures GetLe32(a) != GetLe32(b)
  {
    LowByte(a[0], a[1], a[2], a[3]);
    LowByte(b[0], b[1], b[2], b[3]);
    assert (a[0] as bv32) != (b[0] as bv32);
  }

  lemma LowByte(b0: bv8, b1: bv8, b2: bv8, b3: bv8)
    ensures GetLe32([b0, b1, b2, b3]) & 0xff == b0 as bv32
  {}

  // ---- recognised messages, byte by byte ----

  lemma WordAfter(a: Bytes, v: bv32, b: Bytes)
    ensures GetLe32((a + PutLe32(v) + b)[|a|..]) == v
  {
    var tail := (a + PutLe32(v) + b)[|a|..];
    assert tail == PutLe32(v) + b;
    Le32RoundTrip(v);
  }

  /** A cookie reply, framed with the S3 prefix, is recognised iff it fits the receive buffer, carries
      the probe's index right after its type, and its type is in the H3 range (3 without a range). */
  lemma CookieRecognised(p: Session, wireType: bv32, index: bv32, rest: Bytes, s3: Bytes, trailer: Bytes)
    requires Lengths(p.c) && |s3| == p.j.s3 && |rest| == 56
    ensures IsCookie(p, Received(Wire(p.c, p.j, s3, PutLe32(wireType) + PutLe32(index) + rest, trailer))) <==>
              && p.j.s3 + 64 <= 2048 && index == p.sender
              && if p.j.h3.isSet then p.j.h3.start <= wireType as int <= p.j.h3.end else wireType == 3
  {
    var m := PutLe32(wireType) + PutLe32(index) + rest;
    TwoWords(wireType, [], index, rest);
    assert PutLe32(wireType) + [] + PutLe32(index) + rest == m;
    FramedCookie(p, m, wireType, index, s3, trailer);
    AddressedIs(p, p.j.h3, 3, wireType, index);
    PlausibleIs(p.j.h3, wireType, 3);
  }

  /** The first word of a message and the one after a gap. */
  lemma TwoWords(v: bv32, gap: Bytes, u: bv32, rest: Bytes)
    ensures var m := PutLe32(v) + gap + PutLe32(u) + rest;
            |m| == 8 + |gap| + |rest| && GetLe32(m) == v && GetLe32(m[4 + |gap|..]) == u
  {
    WordAfter([], v, gap + PutLe32(u) + rest);
    var m := PutLe32(v) + gap + PutLe32(u) + rest;
    assert m == [] + PutLe32(v) + (gap + PutLe32(u) + rest) && m[0..] == m;
    WordAfter(PutLe32(v) + gap, u, rest);
  }

  lemma FramedCookie(p: Session, m: Bytes, wireType: bv32, index: bv32, s3: Bytes, trailer: Bytes)
    requires Lengths(p.c) && |s3| == p.j.s3 && |m| == 64 && GetLe32(m) == wireType && GetLe32(m[4..]) == index
    ensures IsCookie(p, Received(Wire(p.c, p.j, s3, m, trailer))) <==>
              p.j.s3 + 64 <= 2048 && Addressed(p, p.j.h3, 3, wireType, index)
  {
    ReceivedWire(p.c, p.j, s3, m, trailer);
    FramedIsCookie(p, m, Received(Wire(p.c, p.j, s3, m, trailer)));
  }

  lemma FramedIsCookie(p: Session, m: Bytes, d: Bytes)
    requires Ready(p) && |m| == 64 && p.j.s3 >= 0
    requires p.j.s3 + 64 <= |d| ==> Unwire(p.c, p.j, d, p.j.s3, 64) == m
    ensures IsCookie(p, d) <==> p.j.s3 + 64 <= |d| && Addressed(p, p.j.h3, 3, GetLe32(m), GetLe32(m[4..]))
  {}

  /** A 92-byte message, framed with the S2 prefix, is recognised as a response iff it fits the receive
      buffer, carries the probe's index in its third word and a type in the H2 range (2 without a
      range), and passes the handshake check. */
  lemma ResponseRecognisedIff(p: Session, wireType: bv32, own: Bytes, index: bv32, rest: Bytes, s2: Bytes, trailer: Bytes)
    requires Lengths(p.c) && |s2| == p.j.s2 && |own| == 4 && |rest| == 80
    ensures var m := PutLe32(wireType) + own + PutLe32(index) + rest;
            IsResponse(p, Received(Wire(p.c, p.j, s2, m, trailer))) <==>
              && p.j.s2 + 92 <= 2048 && index == p.sender
              && (if p.j.h2.isSet then p.j.h2.start <= wireType as int <= p.j.h2.end else wireType == 2)
              && Accepts(p.c, p.t, p.eph, p.stat, p.psk, m)
  {
    TwoWords(wireType, own, index, rest);
    FramedResponse(p, PutLe32(wireType) + own + PutLe32(index) + rest, wireType, index, s2, trailer);
    AddressedIs(p, p.j.h2, 2, wireType, index);
    PlausibleIs(p.j.h2, wireType, 2);
  }

  lemma FramedResponse(p: Session, m: Bytes, wireType: bv32, index: bv32, s2: Bytes, trailer: Bytes)
    requires Lengths(p.c) && |s2| == p.j.s2 && |m| == 92 && GetLe32(m) == wireType && GetLe32(m[8..]) == index
    ensures IsResponse(p, Received(Wire(p.c, p.j, s2, m, trailer))) <==>
              p.j.s2 + 92 <= 2048 && Addressed(p, p.j.h2, 2, wireType, index) && Accepts(p.c, p.t, p.eph, p.stat, p.psk, m)
  {
    ReceivedWire(p.c, p.j, s2, m, trailer);
    FramedIsResponse(p, m, Received(Wire(p.c, p.j, s2, m, trailer)));
  }

  lemma FramedIsResponse(p: Session, m: Bytes, d: Bytes)
    requires Ready(p) && |m| == 92 && p.j.s2 >= 0
    requires p.j.s2 + 92 <= |d| ==> Unwire(p.c, p.j, d, p.j.s2, 92) == m
    ensures IsResponse(p, d) <==>
              && p.j.s2 + 92 <= |d| && Addressed(p, p.j.h2, 2, GetLe32(m), GetLe32(m[8..]))
              && Accepts(p.c, p.t, p.eph, p.stat, p.psk, m)
  {}

  // ---- the loop ----

  /** One pass of the loop: the clock at its top, what recv returned (empty: nothing or an error),
      and the clock after it. Times are nanoseconds of a steady clock. */
  datatype Round = Round(now: int, got: Bytes, after: int)

  datatype Outcome = Answered(round: nat) | TimedOut(round: nat) | Strayed(round: nat) | Running

  /** When the one retransmission is due, and when the probe gives up (C++ division truncates). */
  function RetryAt(start: int, timeoutMs: int): int { start + (if timeoutMs >= 0 then timeoutMs / 2 else -(-timeoutMs / 2)) * 1_000_000 }
  function Deadline(start: int, timeoutMs: int): int { start + timeoutMs * 1_000_000 }

  /** A retransmission has happened before round i. */
  ghost predicate Retried(script: seq<Round>, retryAt: int, i: nat)
  {
    exists k :: 0 <= k < i && k < |script| && script[k].now >= retryAt
  }

  ghost predicate Listens(script: seq<Round>, retryAt: int, deadline: int, i: nat)
    requires i < |script|
  {
    script[i].now < if Retried(script, retryAt, i) then deadline else retryAt
  }

  ghost predicate Expires(script: seq<Round>, retryAt: int, deadline: int, i: nat)
    requires i < |script|
  {
    Retried(script, retryAt, i) && script[i].now >= deadline
  }

  /** Round i listens and its datagram, if any, is not ignored. */
  ghost predicate Decides(p: Session, script: seq<Round>, retryAt: int, deadline: int, i: nat, v: Verdict)
    requires Ready(p) && i < |script|
  {
    Listens(script, retryAt, deadline, i) && script[i].got != [] && !v.Ignored? && Judge(p, script[i].got) == v
  }

  /** Round i ends the loop with a genuine answer. */
  ghost predicate Answers(p: Session, script: seq<Round>, retryAt: int, deadline: int, i: nat)
    requires Ready(p) && i < |script|
  {
    Decides(p, script, retryAt, deadline, i, Answer)
  }

  ghost predicate StraysAt(p: Session, script: seq<Round>, retryAt: int, deadline: int, i: nat)
    requires Ready(p) && i < |script|
  {
    Decides(p, script, retryAt, deadline, i, Strays)
  }

  /** Nothing before round i ended the loop. */
  ghost predicate Open(p: Session, script: seq<Round>, retryAt: int, deadline: int, i: nat)
    requires Ready(p) && i <= |script|
  {
    forall k :: 0 <= k < i ==>
      && !Answers(p, script, retryAt, deadline, k) && !StraysAt(p, script, retryAt, deadline, k)
      && !Expires(script, retryAt, deadline, k)
  }

  lemma OpenNext(p: Session, script: seq<Round>, retryAt: int, deadline: int, i: nat)
    requires Ready(p) && i < |script| && Open(p, script, retryAt, deadline, i)
    requires !Answers(p, script, retryAt, deadline, i) && !StraysAt(p, script, retryAt, deadline, i)
    requires !Expires(script, retryAt, deadline, i)
    ensures Open(p, script, retryAt, deadline, i + 1)
    ensures Retried(script, retryAt, i + 1) <==> Retried(script, retryAt, i) || script[i].now >= retryAt
  {}

  /** The half-time mark is half the timeout, rounded down to a millisecond. */
  lemma RetryAtHalf(start: int, timeoutMs: nat)
    ensures var half := RetryAt(start, timeoutMs) - start;
            && half % 1_000_000 == 0 && 2 * half <= timeoutMs * 1_000_000 < 2 * half + 2_000_000
            && RetryAt(start, timeoutMs) <= Deadline(start, timeoutMs) == start + timeoutMs * 1_000_000
  {}

  /** Elapsed time is rounded down to a millisecond. */
  lemma ElapsedRounds(from: int, to: int)
    requires from <= to
    ensures 0 <= ElapsedMs(from, to) && ElapsedMs(from, to) * 1_000_000 <= to - from < (ElapsedMs(from, to) + 1) * 1_000_000
  {}

  function ElapsedMs(from: int, to: int): int { if to >= from then (to - from) / 1_000_000 else -((from - to) / 1_000_000) }

  /** For every script of clock readings and datagrams: the batch is sent once, and once more iff
      the half-time mark was passed; the first round that listens and receives a genuine answer
      ends the loop with its round-trip time, and the first reading past the deadline after a
      retransmission ends it without one. A datagram read out of bounds ends what can be said. */
  method Listen(p: Session, st: HandshakeState, start: int, timeoutMs: int, script: seq<Round>)
    returns (rttMs: int, sends: nat, end: Outcome)
    requires Ready(p) && forall r :: r in script ==> |r.got| <= BUFFER_SIZE
    requires p.t == Transcript(st.hash, st.chainKey) && p.eph == st.ephemeral && p.stat == st.staticPriv && p.psk == st.psk
    ensures LoopResult(p, script, start, RetryAt(start, timeoutMs), Deadline(start, timeoutMs), rttMs, sends, end)
    ensures SafeSizes(p.j) ==> !end.Strayed?
    ensures end.TimedOut? ==> rttMs == -1 && end.round < |script| && script[end.round].now >= start + timeoutMs * 1_000_000
    ensures end.Answered? && timeoutMs >= 0 ==> end.round < |script| && script[end.round].now < start + timeoutMs * 1_000_000
    ensures end.Answered? && 0 <= script[end.round].after - start < 0x8000_0000 * 1_000_000 ==>
              rttMs * 1_000_000 <= script[end.round].after - start < (rttMs + 1) * 1_000_000
  {
    rttMs, sends, end := Loop(p, st, start, timeoutMs, script);
    if end.Answered? {
      if timeoutMs >= 0 { RetryAtHalf(start, timeoutMs); }
      if start <= script[end.round].after { ElapsedRounds(start, script[end.round].after); }
    }
  }

  method Loop(p: Session, st: HandshakeState, start: int, timeoutMs: int, script: seq<Round>)
    returns (rttMs: int, sends: nat, end: Outcome)
    requires Ready(p) && forall r :: r in script ==> |r.got| <= BUFFER_SIZE
    requires p.t == Transcript(st.hash, st.chainKey) && p.eph == st.ephemeral && p.stat == st.staticPriv && p.psk == st.psk
    ensures LoopResult(p, script, start, RetryAt(start, timeoutMs), Deadline(start, timeoutMs), rttMs, sends, end)
    ensures SafeSizes(p.j) ==> !end.Strayed?
  {
    var retryAt, deadline := RetryAt(start, timeoutMs), Deadline(start, timeoutMs);
    rttMs, sends := -1, 1;
    var retried := false;
    for i := 0 to |script|
      invariant Open(p, script, retryAt, deadline, i)
      invariant retried == Retried(script, retryAt, i) && sends == if retried then 2 else 1
    {
      var r := script[i];
      assert r in script;
      var limit := if retried then deadline else retryAt;
      if r.now >= limit {
        if !retried {
          sends := sends + 1;
          retried := true;
          OpenNext(p, script, retryAt, deadline, i);
          continue;
        }
        return rttMs, sends, TimedOut(i);
      }
      if r.got == [] {
        OpenNext(p, script, retryAt, deadline, i);
        continue;
      }
      var v := Examine(p, st, r.got);
      if v.Answer? { return ToInt32(ElapsedMs(start, r.after)), sends, Answered(i); }
      if v.Strays? { return rttMs, sends, Strayed(i); }
      OpenNext(p, script, retryAt, deadline, i);
    }
    end := Running;
  }

  ghost predicate LoopResult(p: Session, script: seq<Round>, start: int, retryAt: int, deadline: int,
                             rttMs: int, sends: nat, end: Outcome)
    requires Ready(p)
  {
    match end
    case Answered(i) =>
      && i < |script| && Open(p, script, retryAt, deadline, i) && Answers(p, script, retryAt, deadline, i)
      && rttMs == ToInt32(ElapsedMs(start, script[i].after))
      && sends == if Retried(script, retryAt, i) then 2 else 1
    case Strayed(i) =>
      i < |script| && Open(p, script, retryAt, deadline, i) && StraysAt(p, script, retryAt, deadline, i)
    case TimedOut(i) =>
      && i < |script| && Open(p, script, retryAt, deadline, i) && Expires(script, retryAt, deadline, i)
      && rttMs == -1 && sends == 2
    case Running =>
      && Open(p, script, retryAt, deadline, |script|) && rttMs == -1
      && sends == if Retried(script, retryAt, |script|) then 2 else 1
  }

  /** End to end: the server unwraps the probe's initiation, consumes it and answers with its own
      framing; with non-zero DH results the probe takes that datagram as an answer exactly when its
      receive buffer has room for prefix and response. */
  lemma HonestExchange(p: Session, server: Bytes, timestamp: Bytes, wireType: bv32, s1: Bytes, respEph: Bytes,
                       respType: bv32, respIndex: Bytes, tail: Bytes, s2: Bytes, trailer: Bytes)
    requires Laws(p.c) && |timestamp| == 12 && |s2| == p.j.s2 && |respIndex| == 4 && |tail| == 32
    requires p.t == InitiatorTranscript(p.c, p.c.pub(server), p.eph, p.stat, timestamp)
    requires Plausible(p.j.h2, respType, 2)
    requires !AllZero(p.c.dh(respEph, p.c.pub(p.eph))) && !AllZero(p.c.dh(respEph, p.c.pub(p.stat)))
    ensures var sent := Wire(p.c, p.j, s1, Initiation(p.c, p.c.pub(server), p.eph, p.stat, timestamp, PutLe32(wireType), PutLe32(p.sender)), []);
            && |s1| + INITIATION_SIZE <= |sent|
            && var got := Consume(p.c, server, Unwire(p.c, p.j, sent, |s1|, INITIATION_SIZE));
               && got.Some?
               && var resp := Respond(p.c, got.value, respEph, p.psk, PutLe32(respType) + respIndex, PutLe32(p.sender), tail);
                  IsResponse(p, Received(Wire(p.c, p.j, s2, resp, trailer))) <==> p.j.s2 + RESPONSE_SIZE <= BUFFER_SIZE
  {
    var msg := Initiation(p.c, p.c.pub(server), p.eph, p.stat, timestamp, PutLe32(wireType), PutLe32(p.sender));
    assert |msg| == INITIATION_SIZE;
    WireRoundTrip(p.c, p.j, s1, msg, []);
    InitiationIsConsumed(p.c, server, p.eph, p.stat, timestamp, PutLe32(wireType), PutLe32(p.sender));
    var got := Consume(p.c, server, msg).value;
    ResponseRecognised(p, server, timestamp, respEph, respType, respIndex, tail, got);
    var resp := Respond(p.c, got, respEph, p.psk, PutLe32(respType) + respIndex, PutLe32(p.sender), tail);
    ReceivedWire(p.c, p.j, s2, resp, trailer);
  }

  /** Truncation only costs the trailer as long as prefix and message fit. */
  lemma ReceivedWire(c: Crypto, j: Junk, prefix: Bytes, msg: Bytes, trailer: Bytes)
    requires Lengths(c)
    ensures var d := Received(Wire(c, j, prefix, msg, trailer));
            && (|prefix| + |msg| <= |d| <==> |prefix| + |msg| <= BUFFER_SIZE)
            && (|prefix| + |msg| <= |d| ==> Unwire(c, j, d, |prefix|, |msg|) == msg)
  {
    if |prefix| + |msg| <= BUFFER_SIZE {
      var room := trailer[..Min(|trailer|, BUFFER_SIZE - |prefix| - |msg|)];
      assert Received(Wire(c, j, prefix, msg, trailer)) == Wire(c, j, prefix, msg, room);
      WireRoundTrip(c, j, prefix, msg, room);
    }
  }

  /** recv cuts a datagram to the buffer. */
  function Received(d: Bytes): Bytes { d[..Min(|d|, BUFFER_SIZE)] }

  lemma ResponseRecognised(p: Session, server: Bytes, timestamp: Bytes, respEph: Bytes, respType: bv32, respIndex: Bytes, tail: Bytes, got: Consumed)
    requires Laws(p.c) && |timestamp| == 12 && |respIndex| == 4 && |tail| == 32
    requires p.t == InitiatorTranscript(p.c, p.c.pub(server), p.eph, p.stat, timestamp)
    requires got == Consumed(p.t, p.c.pub(p.eph), p.c.pub(p.stat), timestamp)
    requires !AllZero(p.c.dh(respEph, p.c.pub(p.eph))) && !AllZero(p.c.dh(respEph, p.c.pub(p.stat)))
    ensures var resp := Respond(p.c, got, respEph, p.psk, PutLe32(respType) + respIndex, PutLe32(p.sender), tail);
            && |resp| == RESPONSE_SIZE && GetLe32(resp) == respType && GetLe32(resp[8..]) == p.sender
            && Accepts(p.c, p.t, p.eph, p.stat, p.psk, resp)
  {
    var head := PutLe32(respType) + respIndex;
    InitiationIsConsumed(p.c, server, p.eph, p.stat, timestamp, head[..4], PutLe32(p.sender));
    HonestResponseAccepted(p.c, server, p.eph, p.stat, p.psk, timestamp, respEph, head, PutLe32(p.sender), tail, got);
    var resp := Respond(p.c, got, respEph, p.psk, head, PutLe32(p.sender), tail);
    assert resp[..4] == PutLe32(respType) && resp[8..][..4] == resp[8..12] == PutLe32(p.sender);
    Le32RoundTrip(respType);
    Le32RoundTrip(p.sender);
    assert GetLe32(resp) == GetLe32(resp[..4]) && GetLe32(resp[8..]) == GetLe32(resp[8..][..4]);
  }
}
