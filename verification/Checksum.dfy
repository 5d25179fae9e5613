/** The Internet checksum of the ping sender: a 32-bit signed accumulator folded twice, against the
    one's-complement sum of RFC 1071. */
module Checksum {

  newtype byte = x: int | 0 <= x < 256

  const INT_MAX := 0x7fff_ffff

  function Word(lo: byte, hi: byte): nat { lo as nat + 256 * hi as nat }

  predicate AllWords(ws: seq<nat>) { forall i :: 0 <= i < |ws| ==> ws[i] < 0x1_0000 }

  /** The 16-bit words of a buffer as a little-endian host reads them; an odd last byte is padded
      with a zero. */
  function Words(data: seq<byte>): (ws: seq<nat>)
    ensures |ws| == (|data| + 1) / 2
    ensures AllWords(ws)
  {
    if |data| == 0 then []
    else if |data| == 1 then [Word(data[0], 0)]
    else [Word(data[0], data[1])] + Words(data[2..])
  }

  function Sum(ws: seq<nat>): nat { if ws == [] then 0 else ws[0] + Sum(ws[1..]) }

  /** One's-complement addition with end-around carry (section 1 of RFC 1071). */
  function OnesAdd(a: nat, b: nat): nat { if a + b >= 0x1_0000 then a + b - 0xffff else a + b }

  function OnesSum(ws: seq<nat>): nat { if ws == [] then 0 else OnesAdd(ws[0], OnesSum(ws[1..])) }

  /** The checksum RFC 1071 defines. */
  function Rfc1071(data: seq<byte>): int { 0xffff - OnesSum(Words(data)) }

  // ---- uniqueness of the folded value ----

  /** `f` is the 16-bit one's-complement representative of a sum. */
  predicate Represents(f: nat, sum: nat)
  {
    f < 0x1_0000 && f % 0xffff == sum % 0xffff && (f == 0 <==> sum == 0)
  }

  lemma RepresentativeUnique(f: nat, g: nat, sum: nat)
    requires Represents(f, sum) && Represents(g, sum)
    ensures f == g
  {}

  lemma AddModulo(a: nat, b: nat, c: nat)
    requires b % 0xffff == c % 0xffff
    ensures (a + b) % 0xffff == (a + c) % 0xffff
  {}

  lemma {:induction false} OnesSumRepresents(ws: seq<nat>)
    requires AllWords(ws)
    ensures Represents(OnesSum(ws), Sum(ws))
  {
    if ws != [] {
      OnesSumRepresents(ws[1..]);
      OnesAddRepresents(ws[0], OnesSum(ws[1..]), Sum(ws[1..]));
    }
  }

  lemma OnesAddRepresents(a: nat, f: nat, sum: nat)
    requires a < 0x1_0000 && Represents(f, sum)
    ensures Represents(OnesAdd(a, f), a + sum)
  {
    AddModulo(a, f, sum);
    if a + f >= 0x1_0000 { MultipleModulo(1, a + f - 0xffff); }
  }

  /** The two folds at the end of inetChecksum. */
  function FoldTwice(sum: nat): nat
  {
    var once := sum / 0x1_0000 + sum % 0x1_0000;
    once + once / 0x1_0000
  }

  /** Two folds suffice for every accumulator value: the low 16 bits are the representative. */
  lemma FoldTwiceRepresents(sum: nat)
    requires sum <= INT_MAX
    ensures Represents(FoldTwice(sum) % 0x1_0000, sum)
  {
    var hi, lo := sum / 0x1_0000, sum % 0x1_0000;
    var once := hi + lo;
    assert sum == 0xffff * hi + once;
    MultipleModulo(hi, once);
    if once >= 0x1_0000 {
      assert FoldTwice(sum) % 0x1_0000 == once - 0xffff;
      MultipleModulo(1, once - 0xffff);
    } else {
      assert FoldTwice(sum) == once;
    }
  }

  lemma MultipleModulo(k: nat, x: nat)
    ensures (0xffff * k + x) % 0xffff == x % 0xffff
  {}

  lemma {:induction false} SumBound(ws: seq<nat>)
    requires AllWords(ws)
    ensures Sum(ws) <= 0xffff * |ws|
  {
    if ws != [] { SumBound(ws[1..]); }
  }

  // ---- the accumulator ----

  /** The word loop of inetChecksum; `sum` never leaves the range of a 32-bit int. */
  method InetChecksum(data: array<byte>) returns (answer: int)
    requires data.Length <= 65537
    ensures answer == Rfc1071(data[..])
  {
    var nleft, sum, w := data.Length, 0, 0;
    ghost var k := 0;
    while nleft > 1
      invariant 0 <= nleft && w + nleft == data.Length && w == 2 * k && k <= 32768
      invariant sum + Sum(Words(data[w..])) == Sum(Words(data[..]))
      invariant 0 <= sum <= 0xffff * k
    {
      assert data[w..][2..] == data[w + 2..];
      sum := sum + Word(data[w], data[w + 1]);
      assert 0 <= sum <= INT_MAX;
      w, nleft := w + 2, nleft - 2;
      k := k + 1;
    }
    if nleft == 1 { sum := sum + Word(data[w], 0); }
    assert sum == Sum(Words(data[..])) && sum <= INT_MAX;
    answer := Finish(sum, Words(data[..]));
  }

  method Finish(sum: nat, ghost ws: seq<nat>) returns (answer: int)
    requires sum == Sum(ws) <= INT_MAX && AllWords(ws)
    ensures answer == 0xffff - OnesSum(ws)
  {
    FoldTwiceRepresents(sum);
    OnesSumRepresents(ws);
    RepresentativeUnique(FoldTwice(sum) % 0x1_0000, OnesSum(ws), sum);
    var once := sum / 0x1_0000 + sum % 0x1_0000;
    var twice := once + once / 0x1_0000;
    answer := 0xffff - twice % 0x1_0000;
  }

  // ---- when the accumulator overflows ----

  function Ones(n: nat): seq<byte> { seq(n, _ => 255) }

  lemma {:induction false} SumOfOnes(n: nat)
    ensures Sum(Words(Ones(2 * n))) == 0xffff * n
  {
    if n > 0 {
      assert Ones(2 * n)[2..] == Ones(2 * (n - 1));
      SumOfOnes(n - 1);
    }
  }

  lemma {:induction false} SumMonotone(data: seq<byte>, k: nat)
    requires 2 * k <= |data|
    ensures Sum(Words(data[..2 * k])) <= Sum(Words(data))
  {
    if k > 0 {
      assert data[..2 * k][2..] == data[2..][..2 * (k - 1)];
      SumMonotone(data[2..], k - 1);
    }
  }

  /** The signed accumulator holds the sum of every buffer of a length iff the length is at most
      65537; above that a buffer of 0xff bytes overflows it. */
  lemma NoOverflowIff(len: nat)
    ensures (forall data: seq<byte> :: |data| == len ==> Sum(Words(data)) <= INT_MAX) <==> len <= 65537
  {
    if len <= 65537 {
      forall data: seq<byte> | |data| == len ensures Sum(Words(data)) <= INT_MAX {
        SumUpTo(data);
      }
    } else {
      SumOfOnes(32769);
      SumMonotone(Ones(len), 32769);
      assert Ones(len)[..65538] == Ones(65538);
      assert Sum(Words(Ones(len))) > INT_MAX;
    }
  }

  lemma SumUpTo(data: seq<byte>)
    requires |data| <= 65537
    ensures Sum(Words(data)) <= INT_MAX
  {
    var k := |data| / 2;
    if |data| == 2 * k {
      EvenBound(data, k);
    } else {
      OddTail(data, k);
      EvenBound(data[..2 * k], k);
    }
  }

  lemma EvenBound(data: seq<byte>, k: nat)
    requires |data| == 2 * k && k <= 32768
    ensures Sum(Words(data)) <= 0x7fff_8000
  {
    SumBound(Words(data));
    assert |Words(data)| == k;
  }

  lemma {:induction false} OddTail(data: seq<byte>, k: nat)
    requires |data| == 2 * k + 1
    ensures Sum(Words(data)) == Sum(Words(data[..2 * k])) + data[2 * k] as nat
  {
    if k > 0 {
      assert data[..2 * k][2..] == data[2..][..2 * (k - 1)];
      OddTail(data[2..], k - 1);
    } else {
      assert Words(data)[1..] == [];
    }
  }

  // ---- storing the checksum, swapping bytes ----

  lemma {:induction false} SumOfUpdate(ws: seq<nat>, k: nat, v: nat)
    requires k < |ws| && ws[k] == 0
    ensures Sum(ws[k := v]) == Sum(ws) + v
  {
    if k > 0 {
      assert ws[k := v][1..] == ws[1..][k - 1 := v];
      SumOfUpdate(ws[1..], k - 1, v);
    } else {
      assert ws[k := v][1..] == ws[1..];
    }
  }

  lemma {:induction false} WordsOfUpdate(data: seq<byte>, k: nat, lo: byte, hi: byte)
    requires 2 * k + 1 < |data|
    ensures Words(data[2 * k := lo][2 * k + 1 := hi]) == Words(data)[k := Word(lo, hi)]
  {
    var next := data[2 * k := lo][2 * k + 1 := hi];
    if k > 0 {
      assert next[2..] == data[2..][2 * (k - 1) := lo][2 * (k - 1) + 1 := hi];
      WordsOfUpdate(data[2..], k - 1, lo, hi);
    } else {
      assert next[2..] == data[2..];
    }
  }

  lemma {:induction false} WordAt(data: seq<byte>, k: nat)
    requires 2 * k + 1 < |data|
    ensures Words(data)[k] == Word(data[2 * k], data[2 * k + 1])
  {
    if k > 0 { WordAt(data[2..], k - 1); }
  }

  /** Storing the checksum in a zeroed aligned word makes the recomputed checksum zero. */
  lemma StoredChecksumVerifies(data: seq<byte>, k: nat)
    requires 2 * k + 1 < |data| && data[2 * k] == 0 && data[2 * k + 1] == 0
    ensures var c := Rfc1071(data);
            && 0 <= c < 0x1_0000
            && Rfc1071(data[2 * k := (c % 256) as byte][2 * k + 1 := (c / 256) as byte]) == 0
  {
    var ws := Words(data);
    OnesSumRepresents(ws);
    var c := Rfc1071(data);
    WordsOfUpdate(data, k, (c % 256) as byte, (c / 256) as byte);
    WordAt(data, k);
    SumOfUpdate(ws, k, c);
    var stored := ws[k := c];
    OnesSumRepresents(stored);
    AddModulo(c, Sum(ws), OnesSum(ws));
    RepresentativeUnique(OnesSum(stored), 0xffff, Sum(stored));
  }

  function SwapWord(w: nat): nat { w % 256 * 256 + w / 256 }

  function SwapAll(ws: seq<nat>): (r: seq<nat>)
    ensures |r| == |ws|
  {
    if ws == [] then [] else [SwapWord(ws[0])] + SwapAll(ws[1..])
  }

  lemma SwapIsTimes256(w: nat)
    requires w < 0x1_0000
    ensures SwapWord(w) < 0x1_0000 && SwapWord(w) % 0xffff == (256 * w) % 0xffff && (SwapWord(w) == 0 <==> w == 0)
  {
    var h, l := w / 256, w % 256;
    assert w == 256 * h + l;
    assert 256 * w == 0xffff * h + SwapWord(w);
    MultipleModulo(h, SwapWord(w));
  }

  lemma {:induction false} SwapAllSum(ws: seq<nat>)
    requires AllWords(ws)
    ensures AllWords(SwapAll(ws))
    ensures Sum(SwapAll(ws)) % 0xffff == (256 * Sum(ws)) % 0xffff
    ensures Sum(SwapAll(ws)) == 0 <==> Sum(ws) == 0
  {
    if ws != [] {
      SwapAllSum(ws[1..]);
      SwapIsTimes256(ws[0]);
      var a, b := SwapWord(ws[0]), Sum(SwapAll(ws[1..]));
      AddModulo(a, b, 256 * Sum(ws[1..]));
      AddModulo(256 * Sum(ws[1..]), a, 256 * ws[0]);
      assert 256 * Sum(ws) == 256 * ws[0] + 256 * Sum(ws[1..]);
    }
  }

  lemma TimesModulo(a: nat)
    ensures (256 * a) % 0xffff == (256 * (a % 0xffff)) % 0xffff
  {
    var q, r := a / 0xffff, a % 0xffff;
    assert a == 0xffff * q + r;
    assert 256 * a == 0xffff * (256 * q) + 256 * r;
    MultipleModulo(256 * q, 256 * r);
  }

  /** Byte-order independence, section 2(B) of RFC 1071: swapping the bytes of every word swaps the
      bytes of the sum, and of its complement. */
  lemma ByteOrderIndependence(ws: seq<nat>)
    requires AllWords(ws)
    ensures OnesSum(ws) < 0x1_0000
    ensures OnesSum(SwapAll(ws)) == SwapWord(OnesSum(ws))
    ensures 0xffff - OnesSum(SwapAll(ws)) == SwapWord(0xffff - OnesSum(ws))
  {
    var f := OnesSum(ws);
    OnesSumRepresents(ws);
    SwapAllSum(ws);
    OnesSumRepresents(SwapAll(ws));
    SwapRepresents(f, Sum(ws), Sum(SwapAll(ws)));
    RepresentativeUnique(OnesSum(SwapAll(ws)), SwapWord(f), Sum(SwapAll(ws)));
    SwapComplement(f);
  }

  /** A buffer with the two bytes of every word exchanged. */
  function SwapBytes(data: seq<byte>): (r: seq<byte>)
    ensures |r| == |data|
  {
    if |data| < 2 then data else [data[1], data[0]] + SwapBytes(data[2..])
  }

  lemma SwapPair(lo: byte, hi: byte)
    ensures SwapWord(Word(lo, hi)) == Word(hi, lo)
  {
    Digits256(lo as nat, hi as nat);
  }

  lemma Digits256(l: nat, h: nat)
    requires l < 256
    ensures (l + 256 * h) % 256 == l && (l + 256 * h) / 256 == h
  {}

  lemma {:induction false} WordsOfSwap(data: seq<byte>, k: nat)
    requires |data| == 2 * k
    ensures Words(SwapBytes(data)) == SwapAll(Words(data))
  {
    if k > 0 {
      var rest := Words(data[2..]);
      SwapPair(data[0], data[1]);
      WordsOfSwap(data[2..], k - 1);
      assert SwapBytes(data)[2..] == SwapBytes(data[2..]);
      SwapAllCons(Word(data[0], data[1]), rest);
    }
  }

  lemma SwapAllCons(w: nat, rest: seq<nat>)
    ensures SwapAll([w] + rest) == [SwapWord(w)] + SwapAll(rest)
  {
    assert ([w] + rest)[1..] == rest;
  }

  /** The checksum of a byte-swapped buffer of even length is the byte-swapped checksum. */
  lemma SwappedBuffer(data: seq<byte>, k: nat)
    requires |data| == 2 * k
    ensures 0 <= Rfc1071(data) && Rfc1071(SwapBytes(data)) == SwapWord(Rfc1071(data))
  {
    WordsOfSwap(data, k);
    SwappedWords(Words(data), Words(SwapBytes(data)));
  }

  lemma SwappedWords(ws: seq<nat>, swapped: seq<nat>)
    requires AllWords(ws) && swapped == SwapAll(ws)
    ensures 0 <= 0xffff - OnesSum(ws) && 0xffff - OnesSum(swapped) == SwapWord(0xffff - OnesSum(ws))
  {
    ByteOrderIndependence(ws);
  }

  lemma SwapRepresents(f: nat, sum: nat, swapped: nat)
    requires Represents(f, sum) && swapped % 0xffff == (256 * sum) % 0xffff && (swapped == 0 <==> sum == 0)
    ensures Represents(SwapWord(f), swapped)
  {
    SwapIsTimes256(f);
    TimesModulo(f);
    TimesModulo(sum);
  }

  lemma SwapComplement(f: nat)
    requires f < 0x1_0000
    ensures 0xffff - SwapWord(f) == SwapWord(0xffff - f)
  {
    var h, l := f / 256, f % 256;
    assert 0xffff - f == 256 * (255 - h) + (255 - l);
  }
}
