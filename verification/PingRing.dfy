/** PingHelper's 32-slot ring with a 16-bit sequence number, against the unbounded history of sends. */
module PingRing {

  const WINDOW := 32
  const SEQ_MOD := 0x1_0000
  const UINT_MOD := 0x1_0000_0000

  datatype Ping = Ping(timestamp: int, latency: int, sequence: nat)

  /** A slot no ping has used since `start`. */
  const UNUSED := Ping(-1, -1, 0)

  /** The history of sends since `start`, oldest first, each with its latest latency. */
  type History = seq<Ping>

  function Sent(h: History, now: int): History { h + [Ping(now, -1, |h| % SEQ_MOD)] }

  /** The send a reply refers to: one of the last 32 whose 16-bit number matches. */
  ghost predicate Recent(h: History, i: int, sequence: nat)
  {
    0 <= i < |h| && |h| - WINDOW <= i && i % SEQ_MOD == sequence
  }

  /** Across any number of wraparounds at most one of the last 32 sends carries a number. */
  lemma RecentUnique(h: History, i: int, j: int, sequence: nat)
    requires Recent(h, i, sequence) && Recent(h, j, sequence)
    ensures i == j
  {}

  /** Positions in the last 32 sends fall in different slots. */
  lemma SlotUnique(i: nat, j: nat)
    requires i % WINDOW == j % WINDOW && i - WINDOW < j < i + WINDOW
    ensures i == j
  {}

  /** Slot arithmetic survives the 16-bit wraparound. */
  lemma SlotOfSequence(i: nat)
    ensures i % SEQ_MOD % WINDOW == i % WINDOW
  {
    var q, r := i / SEQ_MOD, i % SEQ_MOD;
    assert i == WINDOW * (2048 * q) + r;
  }

  function Replied(h: History, i: nat, now: int): History
    requires i < |h|
  {
    h[i := h[i].(latency := now - h[i].timestamp)]
  }

  /** The ring holds the last 32 sends. */
  ghost predicate Holds(h: History, ring: seq<Ping>)
  {
    |ring| == WINDOW && forall i {:trigger h[i]} :: 0 <= i < |h| && |h| - WINDOW <= i ==> ring[i % WINDOW] == h[i]
  }

  /** Updating the same send in history and ring keeps them in step. */
  lemma RepliedKeepsRing(h: History, ring: seq<Ping>, i: nat, now: int)
    requires Holds(h, ring) && i < |h| && |h| - WINDOW <= i
    ensures Holds(Replied(h, i, now), ring[i % WINDOW := Replied(h, i, now)[i]])
  {
    var h', ring' := Replied(h, i, now), ring[i % WINDOW := Replied(h, i, now)[i]];
    forall k | 0 <= k < |h'| && |h'| - WINDOW <= k ensures ring'[k % WINDOW] == h'[k] {
      assert ring[k % WINDOW] == h[k];
      if k % WINDOW == i % WINDOW { SlotUnique(k, i); }
    }
  }

  class PingHelper {
    const data: array<Ping>
    var sequence: nat
    ghost var history: History

    /** The ring holds exactly the last 32 sends of the history, every other slot is unused. */
    ghost predicate Valid()
      reads this, data
    {
      && data.Length == WINDOW
      && sequence == |history| % SEQ_MOD
      && (forall i {:trigger history[i]} :: 0 <= i < |history| ==> history[i].sequence == i % SEQ_MOD)
      && Holds(history, data[..])
      && (forall k :: |history| <= k < WINDOW ==> data[k] == UNUSED || (k == 0 && Spurious()))
    }

    /** A reply numbered 0 came before the first send and was booked on the blank first slot. */
    ghost predicate Spurious()
      requires data.Length == WINDOW
      reads this, data
    {
      history == [] && data[0] == UNUSED.(latency := data[0].latency)
    }

    constructor ()
      ensures Valid() && history == [] && fresh(data)
    {
      data := new Ping[WINDOW](_ => UNUSED);
      sequence := 0;
      history := [];
    }

    method Start()
      requires data.Length == WINDOW
      modifies this, data
      ensures Valid() && history == []
    {
      sequence := 0;
      history := [];
      for i := 0 to WINDOW
        invariant sequence == 0 && history == []
        invariant forall k :: 0 <= k < i ==> data[k] == UNUSED
      {
        data[i] := UNUSED;
      }
    }

    method NextPing(now: int)
      requires Valid()
      modifies this, data
      ensures Valid() && history == Sent(old(history), now)
    {
      var index := sequence % WINDOW;
      ghost var n := |history|;
      SlotOfSequence(n);
      data[index] := Ping(now, -1, sequence);
      sequence := (sequence + 1) % SEQ_MOD;
      history := Sent(history, now);
      forall i | 0 <= i < |history| && |history| - WINDOW <= i ensures data[i % WINDOW] == history[i] {
        if i < n {
          assert old(history)[i] == history[i];
          if i % WINDOW == n % WINDOW { SlotUnique(i, n); }
        }
      }
    }

    /** A reply changes the history exactly at the recent send with its number; a reply to none of
        the last 32 changes nothing, except number 0 before the first send, which matches a blank
        slot. Returns the reported latency, if any. */
    method PingReceived(seqNo: nat, now: int) returns (reported: bool)
      requires Valid() && seqNo < SEQ_MOD
      modifies this, data
      ensures Valid() && sequence == old(sequence)
      ensures reported <==> (exists i :: Recent(old(history), i, seqNo)) || (old(history) == [] && seqNo == 0)
      ensures |history| == |old(history)|
      ensures old(history) == [] && seqNo == 0 ==> data[0] == Ping(-1, now + 1, 0)
      ensures forall i :: 0 <= i < |history| ==>
                history[i] == if Recent(old(history), i, seqNo) then old(history)[i].(latency := now - old(history)[i].timestamp)
                              else old(history)[i]
    {
      var index := seqNo % WINDOW;
      ghost var i := FindRecent(seqNo);
      reported := data[index].sequence == seqNo;
      if reported {
        data[index] := data[index].(latency := now - data[index].timestamp);
        if i >= 0 {
          history := Replied(history, i, now);
          RepliedKeepsRing(old(history), old(data[..]), i, now);
          assert data[..] == old(data[..])[index := history[i]];
        }
      }
      if i >= 0 {
        forall k | Recent(old(history), k, seqNo) ensures k == i { RecentUnique(old(history), k, i, seqNo); }
      }
    }

    /** The history position behind the slot a number maps to: the recent send it names, or -1. */
    lemma FindRecent(seqNo: nat) returns (i: int)
      requires Valid() && seqNo < SEQ_MOD
      ensures i >= 0 ==> Recent(history, i, seqNo) && i % WINDOW == seqNo % WINDOW && data[seqNo % WINDOW].sequence == seqNo
      ensures i < 0 ==> (forall k :: !Recent(history, k, seqNo))
                        && (data[seqNo % WINDOW].sequence == seqNo <==> history == [] && seqNo == 0)
    {
      var slot, n := seqNo % WINDOW, |history|;
      i := LatestInSlot(n, slot);
      if i >= 0 {
        assert data[i % WINDOW] == history[i];
      }
      forall k | Recent(history, k, seqNo) ensures k == i {
        SlotOfSequence(k);
      }
      if i >= 0 && i % SEQ_MOD != seqNo { i := -1; }
    }

    /** The statistics see the ring in slot order, yet average exactly the last 32 sends. */
    lemma RingMean()
      requires Valid() && (history == [] ==> data[0] == UNUSED)
      ensures Mean(Samples(data[..])) == Mean(Samples(LastSends(history)))
    {
      if |history| < WINDOW { PartialRingMean(history, data[..]); } else { FullRingMean(history, data[..]); }
    }

    /** The average over the last 32 sends, reduced to 32 bits: it is that average exactly when the
        average fits, and then within one half of the true mean. Before the first send it reports
        nothing but a spurious reply. */
    method Latency() returns (mean: int)
      requires Valid()
      ensures history == [] ==> mean == (if data[0].latency < 0 then 0 else data[0].latency) % UINT_MOD
      ensures history != [] ==> Reports(mean, Samples(LastSends(history)))
    {
      mean := Average();
      if history == [] {
        BlankMean(data[..]);
      } else {
        RingMean();
        ReducedMean(Samples(LastSends(history)));
      }
    }

    method Average() returns (mean: int)
      requires data.Length == WINDOW
      ensures mean == Mean(Samples(data[..])) % UINT_MOD
    {
      var recvCount, totalMsec := 0, 0;
      for i := 0 to WINDOW
        invariant recvCount == |Samples(data[..i])| && totalMsec == Total(Samples(data[..i]))
      {
        assert data[..i + 1] == data[..i] + [data[i]];
        SamplesConcat(data[..i], [data[i]]);
        if data[i].latency < 0 { assert Samples(data[..i]) + [] == Samples(data[..i]); continue; }
        assert Samples([data[i]]) == [data[i].latency] && Total([data[i].latency]) == data[i].latency;
        TotalConcat(Samples(data[..i]), [data[i].latency]);
        recvCount := recvCount + 1;
        totalMsec := totalMsec + data[i].latency;
      }
      assert data[..WINDOW] == data[..];
      if recvCount <= 0 { return 0; }
      totalMsec := totalMsec + recvCount / 2;
      return totalMsec / recvCount % UINT_MOD;
    }
  }

  /** The last index below n that falls in a slot, or -1. */
  lemma LatestInSlot(n: nat, slot: nat) returns (i: int)
    requires slot < WINDOW
    ensures n <= slot ==> i == -1
    ensures n > slot ==> 0 <= i < n && n - WINDOW <= i && i % WINDOW == slot
    ensures forall k :: 0 <= k < n && n - WINDOW <= k && k % WINDOW == slot ==> k == i
  {
    if n <= slot { return -1; }
    var q := (n - 1 - slot) / WINDOW;
    i := slot + WINDOW * q;
    forall k | 0 <= k < n && n - WINDOW <= k && k % WINDOW == slot ensures k == i {
      SlotUnique(k, i);
    }
  }

  lemma RotatedSlot(n: nat, j: nat)
    requires n >= WINDOW && j < WINDOW
    ensures var k := n % WINDOW; (if j < k then n - k + j else n - WINDOW - k + j) % WINDOW == j
  {
    var q, k := n / WINDOW, n % WINDOW;
    assert n == WINDOW * q + k;
    if j >= k { assert n - WINDOW - k + j == WINDOW * (q - 1) + j; }
  }

  lemma PartialRingMean(h: History, ring: seq<Ping>)
    requires Holds(h, ring) && |h| < WINDOW && forall k :: |h| <= k < WINDOW ==> ring[k] == UNUSED
    ensures Mean(Samples(ring)) == Mean(Samples(h))
  {
    var n := |h|;
    forall i | 0 <= i < n ensures ring[i] == h[i] { assert ring[i % WINDOW] == h[i]; }
    assert ring == h + ring[n..];
    SamplesNone(ring[n..]);
    SamplesConcat(h, ring[n..]);
    assert Samples(h) + [] == Samples(h);
  }

  lemma FullRingMean(h: History, ring: seq<Ping>)
    requires Holds(h, ring) && |h| >= WINDOW
    ensures Mean(Samples(ring)) == Mean(Samples(LastSends(h)))
  {
    var n, k := |h|, |h| % WINDOW;
    var recent, older := h[n - k..], h[n - WINDOW..n - k];
    forall j | 0 <= j < WINDOW ensures ring[j] == (recent + older)[j] { RingAt(h, ring, j); }
    assert ring == recent + older;
    assert LastSends(h) == older + recent;
    MeanCommutes(recent, older);
  }

  lemma RingAt(h: History, ring: seq<Ping>, j: nat)
    requires Holds(h, ring) && |h| >= WINDOW && j < WINDOW
    ensures var n, k := |h|, |h| % WINDOW; ring[j] == h[if j < k then n - k + j else n - WINDOW - k + j]
  {
    var n, k := |h|, |h| % WINDOW;
    RotatedSlot(n, j);
    assert ring[(if j < k then n - k + j else n - WINDOW - k + j) % WINDOW] == h[if j < k then n - k + j else n - WINDOW - k + j];
  }

  /** The statistics look at the last 32 sends; a send carries the 16 low bits of its number. */
  lemma LastSendsIs(h: History, now: int)
    ensures LastSends(h) == if |h| <= 32 then h else h[|h| - 32..]
    ensures Sent(h, now) == h + [Ping(now, -1, |h| % 65536)]
  {}

  function LastSends(h: History): History { if |h| <= WINDOW then h else h[|h| - WINDOW..] }

  // ---- averaging ----

  /** The latencies of answered pings. */
  function Samples(ps: seq<Ping>): (s: seq<int>)
    ensures forall x :: x in s ==> x >= 0
  {
    if ps == [] then []
    else if ps[0].latency < 0 then Samples(ps[1..]) else [ps[0].latency] + Samples(ps[1..])
  }

  function Total(s: seq<int>): int { if s == [] then 0 else s[0] + Total(s[1..]) }

  function Mean(s: seq<int>): int { if s == [] then 0 else (Total(s) + |s| / 2) / |s| }

  lemma {:induction false} SamplesConcat(a: seq<Ping>, b: seq<Ping>)
    ensures Samples(a + b) == Samples(a) + Samples(b)
  {
    if a == [] {
      assert a + b == b;
    } else {
      assert (a + b)[1..] == a[1..] + b;
      SamplesConcat(a[1..], b);
    }
  }

  /** Exactly the answered pings count, a reply within the same millisecond included. */
  lemma SampleOf(p: Ping)
    ensures Samples([p]) == if p.latency >= 0 then [p.latency] else []
    ensures Total([p.latency]) == p.latency
  {
    assert Total([p.latency]) == p.latency + Total([]);
  }

  lemma {:induction false} SamplesNone(ps: seq<Ping>)
    requires forall k :: 0 <= k < |ps| ==> ps[k].latency < 0
    ensures Samples(ps) == []
  {
    if ps != [] { SamplesNone(ps[1..]); }
  }

  lemma {:induction false} TotalConcat(a: seq<int>, b: seq<int>)
    ensures Total(a + b) == Total(a) + Total(b)
  {
    if a == [] {
      assert a + b == b;
    } else {
      assert (a + b)[1..] == a[1..] + b;
      TotalConcat(a[1..], b);
    }
  }

  lemma MeanCommutes(a: seq<Ping>, b: seq<Ping>)
    ensures Mean(Samples(a + b)) == Mean(Samples(b + a))
  {
    SamplesConcat(a, b);
    SamplesConcat(b, a);
    TotalConcat(Samples(a), Samples(b));
    TotalConcat(Samples(b), Samples(a));
  }

  lemma {:induction false} TotalBounds(s: seq<int>, lo: int, hi: int)
    requires forall i :: 0 <= i < |s| ==> lo <= s[i] <= hi
    ensures lo * |s| <= Total(s) <= hi * |s|
  {
    if s != [] {
      TotalBounds(s[1..], lo, hi);
      assert lo * |s| == lo * (|s| - 1) + lo && hi * |s| == hi * (|s| - 1) + hi;
    }
  }

  /** The reported mean is within one half of the true mean and between the extreme samples. */
  lemma MeanRounds(s: seq<int>, lo: int, hi: int)
    requires s != [] && 0 <= lo && forall i :: 0 <= i < |s| ==> lo <= s[i] <= hi
    ensures -|s| <= 2 * (|s| * Mean(s) - Total(s)) <= |s|
    ensures lo <= Mean(s) <= hi
  {
    TotalBounds(s, lo, hi);
    Rounding(Total(s), |s|, Mean(s));
    Between(Total(s), |s|, Mean(s), lo, hi);
  }

  /** What the 32-bit result says about the samples. */
  ghost predicate Reports(mean: int, s: seq<int>)
  {
    && mean == Mean(s) % UINT_MOD
    && (mean == Mean(s) <==> Mean(s) < UINT_MOD)
    && (s == [] ==> mean == 0)
    && (s != [] && Mean(s) < UINT_MOD ==> -|s| <= 2 * (|s| * mean - Total(s)) <= |s|)
  }

  lemma ReducedMean(s: seq<int>)
    requires forall x :: x in s ==> x >= 0
    ensures Reports(Mean(s) % UINT_MOD, s)
  {
    if s != [] {
      assert forall i :: 0 <= i < |s| ==> s[i] in s;
      MeanRounds(s, 0, Largest(s));
    }
  }

  function Largest(s: seq<int>): (m: int)
    requires s != []
    ensures forall i :: 0 <= i < |s| ==> s[i] <= m
  {
    if |s| == 1 then s[0]
    else var rest := Largest(s[1..]); if s[0] > rest then s[0] else rest
  }

  /** With nothing sent, only the first slot can hold a sample. */
  lemma BlankMean(ring: seq<Ping>)
    requires |ring| == WINDOW && forall k :: 1 <= k < WINDOW ==> ring[k] == UNUSED
    ensures Mean(Samples(ring)) == if ring[0].latency < 0 then 0 else ring[0].latency
  {
    SamplesNone(ring[1..]);
    if ring[0].latency >= 0 {
      assert Samples(ring) == [ring[0].latency];
      assert Total([ring[0].latency]) == ring[0].latency + Total([]);
    }
  }

  lemma Rounding(t: int, n: int, m: int)
    requires n > 0 && m == (t + n / 2) / n
    ensures n * m <= t + n / 2 < n * m + n
  {}

  lemma Between(t: int, n: int, m: int, lo: int, hi: int)
    requires n > 0 && n * m <= t + n / 2 < n * m + n && lo * n <= t <= hi * n
    ensures lo <= m <= hi
  {
    Scale(n, m + 1, lo);
    Scale(n, hi + 1, m);
  }

  lemma Scale(n: int, a: int, b: int)
    requires n > 0
    ensures a <= b ==> n * a <= n * b
  {}
}
