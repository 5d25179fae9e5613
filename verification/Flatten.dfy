/** Flattening a split-tunnel preset bucket: CIDRs as they are, plus the first IPv4 address of each
    resolved host unless a CIDR of the bucket already covers it. */
module Flatten {
  import opened Prelude
  import opened Ipv4

  /** One entry of the flattened list. */
  datatype Entry = Cidr(text: string) | Host(address: nat)

  /** The addresses an entry stands for. */
  predicate Denotes(e: Entry, a: nat)
  {
    match e
    case Cidr(text) => CheckIpSubnetFormat(text) && InSubnet(a, Denote(text))
    case Host(h) => a == h
  }

  ghost predicate DenotedBy(out: seq<Entry>, a: nat) { exists e :: e in out && Denotes(e, a) }

  /** What the bucket should route. */
  ghost predicate Intended(cidrs: seq<string>, infos: seq<seq<Address<nat>>>, a: nat)
  {
    || (exists c :: c in cidrs && CheckIpSubnetFormat(c) && InSubnet(a, Denote(c)))
    || (exists info: seq<Address<nat>> :: info in infos && FirstV4(info) == Some(a))
  }

  /** The CIDRs of a bucket, all in the format the bucket builder checked. */
  predicate WellFormed(cidrs: seq<string>) { forall c :: c in cidrs ==> CheckIpSubnetFormat(c) }

  /** The covered-host test over the parsed networks. */
  method Covered(a: nat, nets: seq<Subnet>) returns (covered: bool)
    ensures covered <==> exists net :: net in nets && InSubnet(a, net)
  {
    for i := 0 to |nets|
      invariant forall k :: 0 <= k < i ==> !InSubnet(a, nets[k])
    {
      if InSubnet(a, nets[i]) { return true; }
    }
    return false;
  }

  /** flattenBucket: `infos` are the resolver's answers, empty for hosts that timed out. */
  method FlattenBucket(cidrs: seq<string>, infos: seq<seq<Address<nat>>>) returns (out: seq<Entry>)
    requires WellFormed(cidrs)
    ensures forall a: nat :: DenotedBy(out, a) <==> Intended(cidrs, infos, a)
    ensures forall i :: 0 <= i < |cidrs| ==> i < |out| && out[i] == Cidr(cidrs[i])
    ensures forall i :: |cidrs| <= i < |out| ==> out[i].Host? && forall c :: c in cidrs ==> !InSubnet(out[i].address, Denote(c))
  {
    var nets;
    out, nets := TakeCidrs(cidrs);
    CidrsDenote(cidrs, out);
    for i := 0 to |infos|
      invariant |out| >= |cidrs|
      invariant forall k :: 0 <= k < |cidrs| ==> out[k] == Cidr(cidrs[k])
      invariant forall k :: |cidrs| <= k < |out| ==> out[k].Host? && forall c :: c in cidrs ==> !InSubnet(out[k].address, Denote(c))
      invariant forall a: nat :: DenotedBy(out, a) <==> Intended(cidrs, infos[..i], a)
    {
      var first := PickV4(infos[i]);
      assert infos[..i + 1] == infos[..i] + [infos[i]];
      ghost var before := out;
      if first.Some? {
        var covered := Covered(first.value, nets);
        if !covered {
          forall c | c in cidrs ensures !InSubnet(first.value, Denote(c)) { assert Denote(c) in nets; }
          out := out + [Host(first.value)];
        }
        NextHost(cidrs, infos, i, before, out, nets, covered);
      } else {
        SkipHost(cidrs, infos, i);
      }
    }
    assert infos[..|infos|] == infos;
  }

  method TakeCidrs(cidrs: seq<string>) returns (out: seq<Entry>, nets: seq<Subnet>)
    requires WellFormed(cidrs)
    ensures |out| == |cidrs| && forall i :: 0 <= i < |cidrs| ==> out[i] == Cidr(cidrs[i])
    ensures |nets| == |cidrs| && forall i :: 0 <= i < |cidrs| ==> nets[i] == Denote(cidrs[i])
  {
    out, nets := [], [];
    for i := 0 to |cidrs|
      invariant |out| == i && forall k :: 0 <= k < i ==> out[k] == Cidr(cidrs[k])
      invariant |nets| == i && forall k :: 0 <= k < i ==> nets[k] == Denote(cidrs[k])
    {
      out := out + [Cidr(cidrs[i])];
      nets := nets + [Denote(cidrs[i])];
    }
  }

  lemma CidrsDenote(cidrs: seq<string>, out: seq<Entry>)
    requires WellFormed(cidrs) && |out| == |cidrs| && forall i :: 0 <= i < |cidrs| ==> out[i] == Cidr(cidrs[i])
    ensures forall a: nat :: DenotedBy(out, a) <==> Intended(cidrs, [], a)
  {
    forall a: nat ensures DenotedBy(out, a) <==> Intended(cidrs, [], a) {
      if DenotedBy(out, a) {
        var e :| e in out && Denotes(e, a);
        assert e.text in cidrs;
      }
      if Intended(cidrs, [], a) {
        var c :| c in cidrs && InSubnet(a, Denote(c));
        assert Cidr(c) in out && Denotes(Cidr(c), a);
      }
    }
  }

  /** A host whose first address is appended, or already covered, extends the denoted set by it. */
  lemma NextHost(cidrs: seq<string>, infos: seq<seq<Address<nat>>>, i: nat, before: seq<Entry>, out: seq<Entry>, nets: seq<Subnet>, covered: bool)
    requires WellFormed(cidrs) && i < |infos| && FirstV4(infos[i]).Some?
    requires |nets| == |cidrs| && forall k :: 0 <= k < |cidrs| ==> nets[k] == Denote(cidrs[k])
    requires forall a: nat :: DenotedBy(before, a) <==> Intended(cidrs, infos[..i], a)
    requires covered <==> exists net :: net in nets && InSubnet(FirstV4(infos[i]).value, net)
    requires out == if covered then before else before + [Host(FirstV4(infos[i]).value)]
    ensures forall a: nat :: DenotedBy(out, a) <==> Intended(cidrs, infos[..i + 1], a)
  {
    var first := FirstV4(infos[i]).value;
    assert infos[..i + 1] == infos[..i] + [infos[i]];
    forall a: nat ensures Intended(cidrs, infos[..i + 1], a) <==> Intended(cidrs, infos[..i], a) || a == first {
      if Intended(cidrs, infos[..i], a) && exists info: seq<Address<nat>> :: info in infos[..i] && FirstV4(info) == Some(a) {
        var info: seq<Address<nat>> :| info in infos[..i] && FirstV4(info) == Some(a);
        assert info in infos[..i + 1];
      }
      if a == first { assert infos[i] in infos[..i + 1]; }
    }
    if covered {
      var net :| net in nets && InSubnet(first, net);
      assert Intended(cidrs, infos[..i], first);
    } else {
      forall a: nat ensures DenotedBy(out, a) <==> DenotedBy(before, a) || a == first {
        if DenotedBy(before, a) {
          var e :| e in before && Denotes(e, a);
          assert e in out;
        }
        if a == first { assert Host(first) in out && Denotes(Host(first), a); }
      }
    }
  }

  lemma SkipHost(cidrs: seq<string>, infos: seq<seq<Address<nat>>>, i: nat)
    requires i < |infos| && FirstV4(infos[i]).None?
    ensures forall a: nat :: Intended(cidrs, infos[..i + 1], a) <==> Intended(cidrs, infos[..i], a)
  {
    assert infos[..i + 1] == infos[..i] + [infos[i]];
    forall a: nat ensures Intended(cidrs, infos[..i + 1], a) <==> Intended(cidrs, infos[..i], a) {
      if exists info: seq<Address<nat>> :: info in infos[..i] && FirstV4(info) == Some(a) {
        var info: seq<Address<nat>> :| info in infos[..i] && FirstV4(info) == Some(a);
        assert info in infos[..i + 1];
      }
    }
  }
}
