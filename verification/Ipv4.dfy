/** A small concrete IPv4 text model: dotted quads, an optional `/prefix`, and the
    decimal numbers inside them. */
module Ipv4 {
  import opened Prelude

  /** Decimal digits of `n`, no leading zero. */
  function ToDecimal(n: nat): (s: string)
    ensures |s| > 0
    ensures forall c | c in s :: '0' <= c <= '9'
  {
    if n < 10 then [Digit(n)] else ToDecimal(n / 10) + [Digit(n % 10)]
  }

  function Digit(d: nat): (c: char)
    requires d < 10
    ensures '0' <= c <= '9'
  {
    '0' + d as char
  }

  /** The value of a non-empty digit string; None for anything else. */
  function ParseDecimal(s: string): Option<nat>
  {
    if s == [] then None
    else
      var c := s[|s| - 1];
      if !('0' <= c <= '9') then None
      else if |s| == 1 then Some((c - '0') as nat)
      else match ParseDecimal(s[..|s| - 1])
           case None => None
           case Some(v) => Some(10 * v + (c - '0') as nat)
  }

  lemma {:induction false} ParseToDecimal(n: nat)
    ensures ParseDecimal(ToDecimal(n)) == Some(n)
  {
    var s := ToDecimal(n);
    if n >= 10 {
      ParseToDecimal(n / 10);
      assert s[..|s| - 1] == ToDecimal(n / 10);
    }
  }

  lemma ToDecimalInjective(m: nat, n: nat)
    requires ToDecimal(m) == ToDecimal(n)
    ensures m == n
  {
    ParseToDecimal(m);
    ParseToDecimal(n);
  }

  /** QString::split: the pieces between separators; always at least one piece. */
  function Split(s: string, sep: char): (parts: seq<string>)
    ensures |parts| > 0
    ensures sep !in s ==> parts == [s]
    ensures sep in s ==> |parts| > 1
  {
    if s == [] then [[]]
    else
      var rest := Split(s[1..], sep);
      if s[0] == sep then [[]] + rest
      else
        assert [s[0]] + s[1..] == s;
        [[s[0]] + rest[0]] + rest[1..]
  }

  lemma {:induction false} SplitPrefix(a: string, sep: char, rest: string)
    requires sep !in a
    ensures Split(a + [sep] + rest, sep) == [a] + Split(rest, sep)
  {
    var s := a + [sep] + rest;
    if a == [] {
      assert s[1..] == rest;
    } else {
      assert s[1..] == a[1..] + [sep] + rest;
      SplitPrefix(a[1..], sep, rest);
      assert [a[0]] + a[1..] == a;
    }
  }

  predicate IsOctet(s: string)
  {
    |s| <= 3 && var v := ParseDecimal(s); v.Some? && v.value < 256
  }

  function OctetValue(s: string): nat
    requires IsOctet(s)
  {
    ParseDecimal(s).value
  }

  /** QHostAddress on a string with exactly three dots. */
  function ParseIpv4(s: string): (r: Option<nat>)
    ensures r.Some? ==> r.value < 0x1_0000_0000
  {
    var p := Split(s, '.');
    if |p| == 4 && IsOctet(p[0]) && IsOctet(p[1]) && IsOctet(p[2]) && IsOctet(p[3])
    then Some(OctetValue(p[0]) * 0x100_0000 + OctetValue(p[1]) * 0x1_0000 + OctetValue(p[2]) * 0x100 + OctetValue(p[3]))
    else None
  }

  /** NetworkUtilities::checkIpSubnetFormat. */
  predicate CheckIpSubnetFormat(s: string)
  {
    if '/' !in s then ParseIpv4(s).Some?
    else
      var p := Split(s, '/');
      && |p| == 2
      && ParseDecimal(p[1]).Some?
      && ParseDecimal(p[1]).value <= 32
      && ParseIpv4(p[0]).Some?
  }

  datatype Subnet = Subnet(address: nat, length: nat)

  /** The network a well-formed entry names: a bare address is a /32. */
  function Denote(s: string): (p: Subnet)
    requires CheckIpSubnetFormat(s)
    ensures p.length <= 32 && p.address < 0x1_0000_0000
  {
    if '/' !in s then Subnet(ParseIpv4(s).value, 32)
    else Subnet(ParseIpv4(Split(s, '/')[0]).value, ParseDecimal(Split(s, '/')[1]).value)
  }

  /** A bare address and the same address with an explicit /32 are two strings for one network. */
  lemma HostAlias(ip: string)
    requires '/' !in ip && ParseIpv4(ip).Some?
    ensures CheckIpSubnetFormat(ip) && CheckIpSubnetFormat(ip + "/32")
    ensures Denote(ip) == Denote(ip + "/32") && ip != ip + "/32"
  {
    SplitPrefix(ip, '/', "32");
    assert ip + ['/'] + "32" == ip + "/32";
    assert ToDecimal(32) == "32";
    ParseToDecimal(32);
    assert '/' in ip + "/32" by { assert (ip + "/32")[|ip|] == '/'; }
  }

  function Dotted(a: nat, b: nat, c: nat, d: nat): string
  {
    ToDecimal(a) + "." + ToDecimal(b) + "." + ToDecimal(c) + "." + ToDecimal(d)
  }

  lemma SplitFour(a: string, b: string, c: string, d: string)
    requires '.' !in a && '.' !in b && '.' !in c && '.' !in d
    ensures Split(a + "." + b + "." + c + "." + d, '.') == [a, b, c, d]
  {
    var cd := c + ['.'] + d;
    var bcd := b + ['.'] + cd;
    assert a + "." + b + "." + c + "." + d == a + ['.'] + bcd;
    SplitPrefix(c, '.', d);
    SplitPrefix(b, '.', cd);
    SplitPrefix(a, '.', bcd);
  }

  lemma ByteDigits(n: nat)
    requires n < 256
    ensures IsOctet(ToDecimal(n)) && OctetValue(ToDecimal(n)) == n
  {
    ParseToDecimal(n);
    if n >= 100 { assert |ToDecimal(n / 100)| == 1; assert n / 10 / 10 == n / 100; }
  }

  /** A dotted form parses back to its four octets. */
  lemma DottedParses(a: nat, b: nat, c: nat, d: nat)
    requires a < 256 && b < 256 && c < 256 && d < 256
    ensures ParseIpv4(Dotted(a, b, c, d)) == Some(a * 0x100_0000 + b * 0x1_0000 + c * 0x100 + d)
  {
    SplitFour(ToDecimal(a), ToDecimal(b), ToDecimal(c), ToDecimal(d));
    ByteDigits(a); ByteDigits(b); ByteDigits(c); ByteDigits(d);
  }

  lemma DottedHasNoSlash(a: nat, b: nat, c: nat, d: nat)
    ensures '/' !in Dotted(a, b, c, d)
  {}

  lemma SplitSlash(ip: string, digits: string)
    requires '/' !in ip && '/' !in digits
    ensures '/' in ip + "/" + digits && Split(ip + "/" + digits, '/') == [ip, digits]
  {
    var text := ip + "/" + digits;
    assert text == ip + ['/'] + digits && text[|ip|] == '/';
    SplitPrefix(ip, '/', digits);
  }

  // ---- networks ----

  function Pow2(n: nat): (r: nat)
    ensures r > 0
  {
    if n == 0 then 1 else 2 * Pow2(n - 1)
  }

  /** What is left of an address without its `low` host bits. */
  function Leading(a: nat, low: nat): nat { if low == 0 then a else Leading(a / 2, low - 1) }

  /** QHostAddress::isInSubnet for IPv4: the leading `length` bits agree. */
  predicate InSubnet(a: nat, net: Subnet)
  {
    net.length <= 32 && Leading(a, 32 - net.length) == Leading(net.address, 32 - net.length)
  }

  /** The key under which a routing table files an entry: prefix length and the bits it covers. */
  datatype Network = Network(bits: nat, length: nat)

  function NetworkOf(s: string): Network
    requires CheckIpSubnetFormat(s)
  {
    KeyOf(Denote(s))
  }

  function KeyOf(d: Subnet): Network
    requires d.length <= 32
  {
    Network(Leading(d.address, 32 - d.length), d.length)
  }

  lemma SlashNetwork(ip: string, digits: string, address: nat, length: nat)
    requires '/' !in ip && '/' !in digits && ParseIpv4(ip) == Some(address) && ParseDecimal(digits) == Some(length) && length <= 32
    ensures CheckIpSubnetFormat(ip + "/" + digits)
    ensures NetworkOf(ip + "/" + digits) == KeyOf(Subnet(address, length))
  {
    SplitSlash(ip, digits);
    SplitDenotes(ip + "/" + digits, [ip, digits], address, length);
  }

  /** Two addresses of one subnet, written with the same prefix length, name one network. */
  lemma SameSlashNetwork(ip: string, ip': string, digits: string, a: nat, a': nat, length: nat)
    requires '/' !in ip && '/' !in ip' && '/' !in digits && ip != ip'
    requires ParseIpv4(ip) == Some(a) && ParseIpv4(ip') == Some(a') && ParseDecimal(digits) == Some(length)
    requires length <= 32 && KeyOf(Subnet(a, length)) == KeyOf(Subnet(a', length))
    ensures CheckIpSubnetFormat(ip + "/" + digits) && CheckIpSubnetFormat(ip' + "/" + digits)
    ensures NetworkOf(ip + "/" + digits) == NetworkOf(ip' + "/" + digits) && ip + "/" + digits != ip' + "/" + digits
  {
    SlashNetwork(ip, digits, a, length);
    SlashNetwork(ip', digits, a', length);
    SlashInjective(ip, ip', digits);
  }

  lemma SplitDenotes(text: string, parts: seq<string>, address: nat, length: nat)
    requires '/' in text && parts == Split(text, '/') && |parts| == 2 && length <= 32
    requires ParseIpv4(parts[0]) == Some(address) && ParseDecimal(parts[1]) == Some(length)
    ensures CheckIpSubnetFormat(text) && Denote(text) == Subnet(address, length)
  {}

  /** What the format check accepts: a bare address, or an address and a length up to 32 around one
      slash. */
  lemma FormatIff(ip: string, digits: string, more: string)
    requires '/' !in ip && '/' !in digits
    ensures CheckIpSubnetFormat(ip) <==> ParseIpv4(ip).Some?
    ensures CheckIpSubnetFormat(ip + "/" + digits) <==>
              ParseIpv4(ip).Some? && ParseDecimal(digits).Some? && ParseDecimal(digits).value <= 32
    ensures !CheckIpSubnetFormat(ip + "/" + (digits + "/" + more))
  {
    SplitSlash(ip, digits);
    SlashTwice(ip, digits, more);
  }

  lemma SlashTwice(ip: string, digits: string, more: string)
    requires '/' !in ip && '/' !in digits
    ensures var text := ip + "/" + (digits + "/" + more); '/' in text && |Split(text, '/')| > 2
  {
    var text, tail := ip + "/" + (digits + "/" + more), digits + "/" + more;
    assert text == ip + ['/'] + tail && text[|ip|] == '/';
    assert tail == digits + ['/'] + more;
    SplitPrefix(ip, '/', tail);
    SplitPrefix(digits, '/', more);
  }

  lemma SlashInjective(ip: string, ip': string, digits: string)
    requires ip != ip'
    ensures ip + "/" + digits != ip' + "/" + digits
  {
    var a, b := ip + "/" + digits, ip' + "/" + digits;
    if |ip| == |ip'| { assert a[..|ip|] == ip && b[..|ip|] == ip'; }
  }

  /** The addresses with given leading bits form one block. */
  lemma {:induction false} LeadingInterval(a: nat, low: nat, k: nat)
    ensures Leading(a, low) == k <==> k * Pow2(low) <= a < k * Pow2(low) + Pow2(low)
  {
    if low > 0 {
      LeadingInterval(a / 2, low - 1, k);
      var h := Pow2(low - 1);
      Twice(k, h);
      Halves(a, k * h, h);
    }
  }

  lemma Twice(k: nat, h: nat)
    ensures k * (2 * h) == 2 * (k * h)
  {}

  lemma Halves(a: nat, m: nat, h: nat)
    ensures m <= a / 2 < m + h <==> 2 * m <= a < 2 * m + 2 * h
  {}

  lemma {:induction false} Pow2Injective(m: nat, n: nat)
    requires Pow2(m) == Pow2(n)
    ensures m == n
  {
    if m > 0 && n > 0 { Pow2Injective(m - 1, n - 1); }
  }

  /** The first and the last number of one block lie in the range of a block that covers it. */
  lemma Ends(m: nat, k: nat, n: nat, l: nat)
    requires forall x: nat :: Leading(x, m) == k ==> Leading(x, n) == l
    ensures l * Pow2(n) <= k * Pow2(m) && k * Pow2(m) + Pow2(m) <= l * Pow2(n) + Pow2(n)
  {
    var first := k * Pow2(m);
    var last := first + Pow2(m) - 1;
    LeadingInterval(first, m, k);
    LeadingInterval(last, m, k);
    LeadingInterval(first, n, l);
    LeadingInterval(last, n, l);
  }

  /** Two entries have one key exactly when they cover the same addresses. */
  lemma SameNetwork(a: string, b: string)
    requires CheckIpSubnetFormat(a) && CheckIpSubnetFormat(b)
    ensures NetworkOf(a) == NetworkOf(b) <==> forall x: nat :: InSubnet(x, Denote(a)) <==> InSubnet(x, Denote(b))
  {
    SameBlock(Denote(a), Denote(b));
  }

  lemma SameBlock(a: Subnet, b: Subnet)
    requires a.length <= 32 && b.length <= 32
    ensures (a.length == b.length && Leading(a.address, 32 - a.length) == Leading(b.address, 32 - b.length))
            <==> forall x: nat :: InSubnet(x, a) <==> InSubnet(x, b)
  {
    if forall x: nat :: InSubnet(x, a) <==> InSubnet(x, b) {
      var m, n := 32 - a.length, 32 - b.length;
      var k, l := Leading(a.address, m), Leading(b.address, n);
      assert forall x: nat :: (InSubnet(x, a) <==> Leading(x, m) == k) && (InSubnet(x, b) <==> Leading(x, n) == l);
      Ends(m, k, n, l);
      Ends(n, l, m, k);
      Pow2Injective(m, n);
      LeadingInterval(k * Pow2(m), m, k);
      LeadingInterval(l * Pow2(m), m, l);
    }
  }

  // ---- resolver answers ----

  /** An address of a resolver's answer; only the IPv4 ones carry a value. */
  datatype Address<+T> = V4(value: T) | V6

  function FirstV4<T>(answer: seq<Address<T>>): Option<T>
  {
    if answer == [] then None else if answer[0].V4? then Some(answer[0].value) else FirstV4(answer[1..])
  }

  /** The value at the least position that holds an IPv4 address. */
  lemma {:induction false} FirstV4Is<T>(answer: seq<Address<T>>)
    ensures FirstV4(answer).None? <==> forall i :: 0 <= i < |answer| ==> answer[i].V6?
    ensures FirstV4(answer).Some? ==>
              exists i :: 0 <= i < |answer| && answer[i] == V4(FirstV4(answer).value) && forall j :: 0 <= j < i ==> answer[j].V6?
  {
    if answer != [] && answer[0].V6? {
      FirstV4Is(answer[1..]);
      if FirstV4(answer).Some? {
        var i :| 0 <= i < |answer| - 1 && answer[1..][i] == V4(FirstV4(answer).value) && forall j :: 0 <= j < i ==> answer[1..][j].V6?;
        assert answer[i + 1] == V4(FirstV4(answer).value);
        forall j | 0 <= j < i + 1 ensures answer[j].V6? { if j > 0 { assert answer[1..][j - 1] == answer[j]; } }
      } else {
        forall i | 0 <= i < |answer| ensures answer[i].V6? { if i > 0 { assert answer[1..][i - 1] == answer[i]; } }
      }
    }
  }

  /** The loop that takes the first IPv4 address of an answer. */
  method PickV4<T>(answer: seq<Address<T>>) returns (r: Option<T>)
    ensures r == FirstV4(answer)
  {
    for i := 0 to |answer|
      invariant FirstV4(answer) == FirstV4(answer[i..])
    {
      if answer[i].V4? { return Some(answer[i].value); }
    }
    return None;
  }
}
