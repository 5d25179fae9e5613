/** The WireGuard daemon's bookkeeping: live connections, reference-counted exclusion routes, the
    re-entrancy flag and the handshake poll timer, against a kernel whose calls may fail. */
module DaemonCore {
  import opened Prelude

  datatype HopType = SingleHop | MultiHopEntry | MultiHopExit

  /** A route's key: address text of either family and prefix length. */
  datatype Prefix = Prefix(address: string, length: int)

  datatype Config = Config(
    hop: HopType, privateKey: string, deviceIpv4: string, deviceIpv6: string,
    gatewayIpv4: string, gatewayIpv6: string, serverKey: string,
    allowed: seq<Prefix>, excluded: seq<Prefix>, routeLanThroughVpn: bool)

  /** `handshake` is the time of the first handshake; None while it is awaited. */
  datatype Connection = Connection(config: Config, handshake: Option<int>)

  type Connections = map<HopType, Connection>
  type Refs = map<Prefix, int>

  /** `peers` are the server keys configured on the interface, `dns` the hop whose resolvers are set. */
  datatype Kernel = Kernel(excluded: set<Prefix>, routes: set<Prefix>, peers: set<string>, dns: Option<HopType>)

  const EMPTY := Kernel({}, {}, {}, None)

  /** The kernel's routes and what happened to them so far: every intermediate kernel state, the
      exclusion deletions requested, whether every backend and hook call (`allOk`) or every
      exclusion deletion (`deletesOk`) succeeded, whether the assertion in delExclusionRoute
      fired, and whether a switch since the last full teardown dropped an allowed prefix that
      another hop still uses (`dropped`), or a peer that another hop still uses (`unpeered`). */
  datatype World = World(
    kernel: Kernel, trace: seq<Kernel>, deletions: seq<Prefix>,
    allOk: bool, deletesOk: bool, asserted: bool, dropped: bool, unpeered: bool)

  function Moved(w: World, k: Kernel): World { w.(kernel := k, trace := w.trace + [k]) }

  function Count(refs: Refs, p: Prefix): int { if p in refs then refs[p] else 0 }

  ghost predicate Positive(refs: Refs) { forall p :: p in refs ==> refs[p] >= 1 }

  function ExcludedAt(cs: Connections, h: HopType): multiset<Prefix>
  {
    if h in cs then multiset(cs[h].config.excluded) else multiset{}
  }

  /** All exclusion-list entries of all live connections. */
  function Occurrences(cs: Connections): multiset<Prefix>
  {
    ExcludedAt(cs, SingleHop) + ExcludedAt(cs, MultiHopEntry) + ExcludedAt(cs, MultiHopExit)
  }

  function AllowedAt(cs: Connections, h: HopType): set<Prefix>
  {
    if h in cs then Elems(cs[h].config.allowed) else {}
  }

  /** All allowed prefixes of all live connections. */
  function Allowed(cs: Connections): set<Prefix>
  {
    AllowedAt(cs, SingleHop) + AllowedAt(cs, MultiHopEntry) + AllowedAt(cs, MultiHopExit)
  }

  ghost predicate CoreOf(cs: Connections, r: Refs, w: World)
  {
    Counted(cs, r, w) && Routed(cs, w) && Peered(cs, w)
  }

  /** The server keys of all live connections. */
  function PeerKeys(cs: Connections): set<string>
  {
    PeerAt(cs, SingleHop) + PeerAt(cs, MultiHopEntry) + PeerAt(cs, MultiHopExit)
  }

  function PeerAt(cs: Connections, h: HopType): set<string> { if h in cs then {cs[h].config.serverKey} else {} }

  /** Peers and resolvers: no stray peer, none missing unless several hops are live and one of them
      switched away from a server it shared; resolvers only of a live hop that brings its own. */
  ghost predicate Peered(cs: Connections, w: World)
  {
    w.allOk ==>
      && w.kernel.peers <= PeerKeys(cs)
      && (!w.unpeered ==> w.kernel.peers == PeerKeys(cs))
      && (w.unpeered ==> Several(cs))
      && (w.kernel.dns.Some? ==> w.kernel.dns.value in cs && w.kernel.dns.value != MultiHopEntry)
  }

  ghost predicate SamePeers(w0: World, w: World)
  {
    w.kernel.peers == w0.kernel.peers && w.kernel.dns == w0.kernel.dns
  }

  /** The exclusion side. */
  ghost predicate Counted(cs: Connections, r: Refs, w: World)
  {
    && Positive(r)
    && (forall h :: h in cs ==> cs[h].config.hop == h)
    && (w.allOk ==> w.deletesOk && !w.asserted)
    && (w.deletesOk ==> r.Keys == w.kernel.excluded)
    && (w.allOk ==> forall p :: Count(r, p) == Occurrences(cs)[p])
  }

  /** The side of the allowed prefixes: none is stray, and none is missing unless several hops are live
      and one of them switched away from a prefix it shared. */
  ghost predicate Routed(cs: Connections, w: World)
  {
    w.allOk ==>
      && w.kernel.routes <= Allowed(cs)
      && (!w.dropped ==> w.kernel.routes == Allowed(cs))
      && (w.dropped ==> Several(cs))
  }

  ghost predicate Several(cs: Connections) { exists a, b :: a in cs && b in cs && a != b }

  ghost predicate Awaiting(cs: Connections) { exists h :: h in cs && cs[h].handshake.None? }

  /** The same server can be swapped in place: identical client identity and gateways. */
  predicate Switchable(cs: Connections, c: Config)
  {
    c.hop in cs &&
    var now := cs[c.hop].config;
    && now.privateKey == c.privateKey
    && now.deviceIpv4 == c.deviceIpv4 && now.deviceIpv6 == c.deviceIpv6
    && now.gatewayIpv4 == c.gatewayIpv4 && now.gatewayIpv6 == c.gatewayIpv6
  }

  lemma OccurrenceCount(cs: Connections, p: Prefix)
    ensures Occurrences(cs)[p] == ExcludedAt(cs, SingleHop)[p] + ExcludedAt(cs, MultiHopEntry)[p] + ExcludedAt(cs, MultiHopExit)[p]
  {}

  lemma OccurrencesOfSwap(cs: Connections, c: Config, p: Prefix)
    requires c.hop in cs
    ensures var gone := multiset(cs[c.hop].config.excluded)[p];
            && Occurrences(cs[c.hop := Connection(c, None)])[p] + gone == Occurrences(cs)[p] + multiset(c.excluded)[p]
            && gone <= Occurrences(cs)[p]
  {
    OccurrenceCount(cs, p);
    OccurrenceCount(cs[c.hop := Connection(c, None)], p);
    match c.hop { case SingleHop => case MultiHopEntry => case MultiHopExit => }
  }

  lemma OccurrencesOfNew(cs: Connections, c: Config, p: Prefix)
    requires c.hop !in cs
    ensures Occurrences(cs[c.hop := Connection(c, None)])[p] == Occurrences(cs)[p] + multiset(c.excluded)[p]
  {
    OccurrenceCount(cs, p);
    OccurrenceCount(cs[c.hop := Connection(c, None)], p);
    match c.hop { case SingleHop => case MultiHopEntry => case MultiHopExit => }
  }

  /** Every kernel state recorded after step `n` keeps the given exclusions, routes and peers. */
  ghost predicate Stays(w: World, n: nat, excluded: set<Prefix>, routes: set<Prefix>, peers: set<string>)
  {
    forall i :: n <= i < |w.trace| ==>
      excluded <= w.trace[i].excluded && routes <= w.trace[i].routes && peers <= w.trace[i].peers
  }

  /** The requests logged from `d0` to `d1` name every key exactly once and nothing else. */
  ghost predicate AskedOnce(d0: seq<Prefix>, d1: seq<Prefix>, keys: set<Prefix>)
  {
    d0 <= d1 && multiset(d1[|d0|..]) == multiset(keys)
  }

  datatype Request = ActivateRequest(config: Config) | DeactivateRequest(emitSignals: bool)

  /** Activating `c` would have to deactivate first: its hop is live and cannot be switched. */
  predicate Replaces(cs: Connections, c: Config) { c.hop in cs && !Switchable(cs, c) }

  /** A request that brings up or switches a hop even while a deactivation is in progress. */
  predicate Takes(cs: Connections, r: Request) { r.ActivateRequest? && !Replaces(cs, r.config) }

  function Activations(rs: seq<Request>): nat
  {
    if rs == [] then 0 else (if rs[0].ActivateRequest? then 1 else 0) + Activations(rs[1..])
  }

  /** How many of the activations that arrive during a deactivation are refused when no call fails:
      those whose hop, as left by the requests before them, would have to be replaced. */
  function Refused(cs: Connections, rs: seq<Request>): nat
    decreases |rs|
  {
    if rs == [] then 0
    else if Takes(cs, rs[0]) then Refused(cs[rs[0].config.hop := Connection(rs[0].config, None)], rs[1..])
    else (if rs[0].ActivateRequest? then 1 else 0) + Refused(cs, rs[1..])
  }

  class Daemon {
    var conns: Connections
    var refs: Refs
    var timer: bool
    var deactivating: bool
    var interfaceUp: bool
    var failures: nat      // activationFailure signals emitted
    var disconnects: nat   // disconnected signals emitted
    ghost var w: World

    /** What every member keeps, on every run. */
    ghost predicate Core()
      reads this
    {
      CoreOf(conns, refs, w) && (w.allOk && conns != map[] ==> interfaceUp)
    }

    /** ... and, as long as no call failed, a connection awaiting its handshake is being polled. */
    ghost predicate Inv()
      reads this
    {
      Core() && (w.allOk && !deactivating && Awaiting(conns) ==> timer)
    }

    constructor ()
      ensures Inv() && conns == map[] && refs == map[] && !timer && !deactivating
      ensures w.allOk && w.kernel == EMPTY
    {
      conns, refs, timer, deactivating, interfaceUp, failures, disconnects := map[], map[], false, false, false, 0, 0;
      w := World(EMPTY, [], [], true, true, false, false, false);
    }

    // ---- the backend: any call may fail ----

    method Call() returns (ok: bool)
      modifies this`w
      ensures w == old(w).(allOk := old(w).allOk && ok)
    {
      ok := *;
      w := w.(allOk := w.allOk && ok);
    }

    method KernelAddExclusion(p: Prefix) returns (ok: bool)
      modifies this`w
      ensures ok ==> w == Moved(old(w), old(w).kernel.(excluded := old(w).kernel.excluded + {p}))
      ensures !ok ==> w == old(w).(allOk := false)
    {
      ok := *;
      w := if ok then Moved(w, w.kernel.(excluded := w.kernel.excluded + {p})) else w.(allOk := false);
    }

    method KernelDeleteExclusion(p: Prefix) returns (ok: bool)
      modifies this`w
      ensures ok ==> w == Moved(old(w), old(w).kernel.(excluded := old(w).kernel.excluded - {p})).(deletions := old(w).deletions + [p])
      ensures !ok ==> w == old(w).(deletions := old(w).deletions + [p], allOk := false, deletesOk := false)
    {
      ok := *;
      w := w.(deletions := w.deletions + [p]);
      w := if ok then Moved(w, w.kernel.(excluded := w.kernel.excluded - {p})) else w.(allOk := false, deletesOk := false);
    }

    method KernelAddRoute(p: Prefix) returns (ok: bool)
      modifies this`w
      ensures ok ==> w == Moved(old(w), old(w).kernel.(routes := old(w).kernel.routes + {p}))
      ensures !ok ==> w == old(w).(allOk := false)
    {
      ok := *;
      w := if ok then Moved(w, w.kernel.(routes := w.kernel.routes + {p})) else w.(allOk := false);
    }

    method KernelDeleteRoute(p: Prefix) returns (ok: bool)
      modifies this`w
      ensures ok ==> w == Moved(old(w), old(w).kernel.(routes := old(w).kernel.routes - {p}))
      ensures !ok ==> w == old(w).(allOk := false)
    {
      ok := *;
      w := if ok then Moved(w, w.kernel.(routes := w.kernel.routes - {p})) else w.(allOk := false);
    }

    method KernelUpdatePeer(key: string) returns (ok: bool)
      modifies this`w
      ensures ok ==> w == Moved(old(w), old(w).kernel.(peers := old(w).kernel.peers + {key}))
      ensures !ok ==> w == old(w).(allOk := false)
    {
      ok := *;
      w := if ok then Moved(w, w.kernel.(peers := w.kernel.peers + {key})) else w.(allOk := false);
    }

    method KernelDeletePeer(key: string) returns (ok: bool)
      modifies this`w
      ensures ok ==> w == Moved(old(w), old(w).kernel.(peers := old(w).kernel.peers - {key}))
      ensures !ok ==> w == old(w).(allOk := false)
    {
      ok := *;
      w := if ok then Moved(w, w.kernel.(peers := w.kernel.peers - {key})) else w.(allOk := false);
    }

    /** updateResolvers for a hop, or restoreResolvers (None). */
    method KernelResolvers(h: Option<HopType>) returns (ok: bool)
      modifies this`w
      ensures Resolved(old(w), w, h, ok)
    {
      ok := *;
      w := if ok then Moved(w, w.kernel.(dns := h)) else w.(allOk := false);
    }

    // ---- reference counting ----

    method AddExclusionRoute(p: Prefix) returns (ok: bool)
      modifies this`refs, this`w
      ensures AcquiredOne(old(refs), old(w), refs, w, p, ok)
    {
      if p in refs {
        refs := refs[p := refs[p] + 1];
        return true;
      }
      ok := KernelAddExclusion(p);
      if !ok { return; }
      refs := refs[p := 1];
    }

    /** The release build's behaviour: a missing key reads as 0 and is removed again. */
    method DelExclusionRoute(p: Prefix) returns (ok: bool)
      modifies this`refs, this`w
      ensures ReleasedOne(old(refs), old(w), refs, w, p, ok)
    {
      if p !in refs { w := w.(asserted := true); }
      if p in refs && refs[p] > 1 {
        refs := refs[p := refs[p] - 1];
        return true;
      }
      refs := refs - {p};
      ok := KernelDeleteExclusion(p);
    }

    method AddExclusionRoutes(list: seq<Prefix>)
      requires Positive(refs)
      modifies this`refs, this`w
      ensures Acquired(old(refs), old(w), refs, w, multiset(list))
    {
      ghost var r0, w0, done := refs, w, multiset{};
      for i := 0 to |list|
        invariant done + multiset(list[i..]) == multiset(list)
        invariant Acquired(r0, w0, refs, w, done)
      {
        assert list[i..] == [list[i]] + list[i + 1..];
        ghost var r, v := refs, w;
        var ok := AddExclusionRoute(list[i]);
        AcquireStep(r0, w0, r, v, refs, w, done, list[i], ok);
        done := done + multiset{list[i]};
      }
    }

    method DelExclusionRoutes(list: seq<Prefix>)
      requires Positive(refs)
      modifies this`refs, this`w
      ensures Releasing(old(refs), old(w), refs, w, multiset(list), multiset(list))
    {
      ghost var r0, w0, done, all := refs, w, multiset{}, multiset(list);
      for i := 0 to |list|
        invariant done + multiset(list[i..]) == all
        invariant Releasing(r0, w0, refs, w, done, all)
      {
        assert list[i..] == [list[i]] + list[i + 1..];
        ReleaseNext(list[i], r0, w0, done, all);
        done := done + multiset{list[i]};
      }
    }

    method ReleaseNext(p: Prefix, ghost r0: Refs, ghost w0: World, ghost done: multiset<Prefix>, ghost all: multiset<Prefix>)
      requires Releasing(r0, w0, refs, w, done, all) && done + multiset{p} <= all
      modifies this`refs, this`w
      ensures Releasing(r0, w0, refs, w, done + multiset{p}, all)
    {
      ghost var r, v := refs, w;
      var ok := DelExclusionRoute(p);
      ReleaseStep(r0, w0, r, v, refs, w, done, all, p, ok);
    }

    // ---- routes for allowed prefixes ----

    method UpdateRoutes(list: seq<Prefix>) returns (ok: bool)
      modifies this`w
      ensures RoutesMoved(old(w), w, old(w).kernel.routes) && SamePeers(old(w), w)
      ensures !ok ==> !w.allOk
      ensures w.allOk ==> w.kernel.routes == old(w).kernel.routes + Elems(list)
    {
      for i := 0 to |list|
        invariant RoutesMoved(old(w), w, old(w).kernel.routes) && SamePeers(old(w), w)
        invariant w.allOk ==> w.kernel.routes == old(w).kernel.routes + Elems(list[..i])
      {
        ok := KernelAddRoute(list[i]);
        if !ok { return; }
        assert Elems(list[..i + 1]) == Elems(list[..i]) + {list[i]};
      }
      assert list[..|list|] == list;
      return true;
    }

    method DeleteRoutes(list: seq<Prefix>, keep: seq<Prefix>)
      modifies this`w
      ensures RoutesMoved(old(w), w, old(w).kernel.routes - (Elems(list) - Elems(keep))) && SamePeers(old(w), w)
      ensures w.allOk ==> w.kernel.routes == old(w).kernel.routes - (Elems(list) - Elems(keep))
    {
      ghost var stay := w.kernel.routes - (Elems(list) - Elems(keep));
      for i := 0 to |list|
        invariant RoutesMoved(old(w), w, stay) && SamePeers(old(w), w)
        invariant w.allOk ==> w.kernel.routes == old(w).kernel.routes - (Elems(list[..i]) - Elems(keep))
      {
        if list[i] !in keep { var _ := KernelDeleteRoute(list[i]); }
        assert Elems(list[..i + 1]) == Elems(list[..i]) + {list[i]};
      }
      assert list[..|list|] == list;
    }

    /** Make before break: nothing old and new share leaves the kernel at any intermediate step. */
    method SwitchServer(c: Config) returns (ok: bool)
      requires Core() && c.hop in conns
      modifies this`conns, this`refs, this`w
      ensures Core()
      ensures ok ==> conns == old(conns)[c.hop := Connection(c, None)]
      ensures !ok ==> conns == old(conns) && !w.allOk
      ensures w.allOk ==> old(w).allOk
      ensures w.allOk ==> Switched(old(conns), c, old(w), conns, w)
    {
      ghost var r0, w0 := refs, w;
      var last := conns[c.hop].config;
      ok := SwapRoutes(last, c);
      if !ok { return; }
      ghost var w1 := w;
      ok := DropOldPeer(last, c);
      if !ok { SwapFailed(conns, c, r0, w0, refs, w1, w); return; }
      SwitchDone(conns, c, r0, w0, refs, w1, w);
      conns := conns[c.hop := Connection(c, None)];
      ok := true;
    }

    method DropOldPeer(last: Config, c: Config) returns (ok: bool)
      requires c.hop in conns && last == conns[c.hop].config
      modifies this`w
      ensures ok ==> OldPeerGone(conns, c, old(w), w)
      ensures !ok ==> w == Flagged(conns, c, old(w)).(allOk := false)
    {
      w := Flagged(conns, c, w);
      if c.serverKey != last.serverKey {
        ok := KernelDeletePeer(last.serverKey);
        return;
      }
      return true;
    }

    /** The route part of switchServer: new exclusions, peer and routes in, then the old ones out. */
    method SwapRoutes(last: Config, c: Config) returns (ok: bool)
      requires Core() && c.hop in conns && last == conns[c.hop].config
      modifies this`refs, this`w
      ensures Swapped(conns, c, old(w), refs, w)
      ensures !ok ==> !w.allOk
      ensures w.unpeered == old(w).unpeered && w.kernel.dns == old(w).kernel.dns
      ensures w.allOk ==> w.kernel.peers == old(w).kernel.peers + {c.serverKey}
    {
      ghost var r0, w0 := refs, w;
      AddExclusionRoutes(c.excluded);
      ghost var r1, w1 := refs, w;
      ok := MoveIn(c);
      if !ok { return; }
      ghost var w2 := w;
      DelExclusionRoutes(last.excluded);
      ghost var w3 := w;
      DeleteRoutes(last.allowed, c.allowed);
      SwapLemma(conns, c, r0, w0, r1, w1, w2, refs, w3, w);
    }

    /** The new peer and its routes; a route that fails is only logged. */
    method MoveIn(c: Config) returns (ok: bool)
      modifies this`w
      ensures !ok ==> w == old(w).(allOk := false)
      ensures ok ==> RoutesMoved(old(w), w, old(w).kernel.routes) && w.kernel.dns == old(w).kernel.dns
      ensures ok && w.allOk ==> w.kernel.routes == old(w).kernel.routes + Elems(c.allowed)
      ensures ok && w.allOk ==> w.kernel.peers == old(w).kernel.peers + {c.serverKey}
    {
      ok := KernelUpdatePeer(c.serverKey);
      if !ok { return; }
      ghost var w1 := w;
      var _ := UpdateRoutes(c.allowed);
      MovedChain(old(w), w1, w);
    }

    // ---- activation and deactivation ----

    /** The path of activate for a hop that is not live. */
    method BringUp(c: Config, ipUtils: bool) returns (ok: bool)
      requires Core() && c.hop !in conns
      modifies this`conns, this`refs, this`w, this`timer, this`interfaceUp
      ensures Core()
      ensures ok ==> conns == old(conns)[c.hop := Connection(c, None)] && timer && interfaceUp
      ensures !ok ==> conns == old(conns) && timer == old(timer) && !w.allOk
      ensures w.allOk ==> old(w).allOk
      ensures w.allOk ==> w.kernel.dns == if c.hop == MultiHopEntry then old(w).kernel.dns else Some(c.hop)
    {
      ok := PrepareInterface(ipUtils);
      FlagKeepsCore(conns, refs, old(w), w);
      if !ok { return; }
      ghost var r0, w0 := refs, w;
      AddExclusionRoutes(c.excluded);
      ghost var w1 := w;
      ok := Configure(c);
      if !ok { BroughtUpPartly(conns, r0, w0, refs, w1, w, multiset(c.excluded)); return; }
      BroughtUp(conns, c, r0, w0, refs, w1, w);
      conns := conns[c.hop := Connection(c, None)];
      timer := true;
    }

    /** Peer, resolvers, routes and the Up hook. */
    method Configure(c: Config) returns (ok: bool)
      modifies this`w
      ensures RoutesMoved(old(w), w, old(w).kernel.routes) && (!ok ==> !w.allOk)
      ensures w.allOk ==> Configured(old(w), c, w)
    {
      ok := ConfigurePeer(c);
      if !ok { return; }
      ghost var w1 := w;
      ok := UpdateRoutes(c.allowed);
      MovedChain(old(w), w1, w);
      if !ok { return; }
      ok := Call(); // run(Up)
    }

    method PrepareInterface(ipUtils: bool) returns (ok: bool)
      modifies this`w, this`interfaceUp
      ensures w == old(w).(allOk := w.allOk) && (w.allOk ==> old(w).allOk) && (!ok ==> !w.allOk)
      ensures (ok ==> interfaceUp) && (old(interfaceUp) ==> interfaceUp)
    {
      if !interfaceUp {
        ok := Call(); // addInterface
        if !ok { return; }
        interfaceUp := true;
      }
      if ipUtils {
        ok := Call(); // addInterfaceIPs
        if !ok { return; }
        ok := Call(); // setMTUAndUp
        return;
      }
      return true;
    }

    method ConfigurePeer(c: Config) returns (ok: bool)
      modifies this`w
      ensures RoutesMoved(old(w), w, old(w).kernel.routes) && w.kernel.routes == old(w).kernel.routes && (!ok ==> !w.allOk)
      ensures w.allOk ==> w.kernel.peers == old(w).kernel.peers + {c.serverKey}
      ensures w.allOk ==> w.kernel.dns == if c.hop == MultiHopEntry then old(w).kernel.dns else Some(c.hop)
    {
      if !c.routeLanThroughVpn { var _ := Call(); } // excludeLocalNetworks: a failure is only logged
      ok := KernelUpdatePeer(c.serverKey);
      if !ok { return; }
      ok := MaybeUpdateResolvers(c);
    }

    method MaybeUpdateResolvers(c: Config) returns (ok: bool)
      modifies this`w
      ensures Resolved(old(w), w, if c.hop == MultiHopEntry then old(w).kernel.dns else Some(c.hop), ok)
    {
      if c.hop == MultiHopExit || c.hop == SingleHop {
        ok := KernelResolvers(Some(c.hop)); // updateResolvers
        return;
      }
      return true;
    }

    /** Resolvers and the Switch hook of the switching path. */
    method SwitchResolvers(c: Config) returns (ok: bool)
      requires Core() && c.hop in conns
      modifies this`w
      ensures Core() && (!ok ==> !w.allOk) && (w.allOk ==> old(w).allOk)
      ensures w.allOk ==> w.kernel == old(w).kernel.(dns := if c.hop == MultiHopEntry then None else Some(c.hop))
    {
      ok := KernelResolvers(None); // restoreResolvers
      if ok { ok := MaybeUpdateResolvers(c); }
      if ok { ok := Call(); } // run(Switch)
      ResolversKeepCore(conns, refs, old(w), w);
    }

    /** The server-switching path of activate. */
    method SwitchOver(c: Config) returns (ok: bool)
      requires Core() && c.hop in conns
      modifies this`conns, this`refs, this`w, this`timer
      ensures Core()
      ensures ok ==> conns == old(conns)[c.hop := Connection(c, None)] && timer
      ensures !ok ==> timer == old(timer) && !w.allOk
      ensures !ok ==> conns == old(conns) || conns == old(conns)[c.hop := Connection(c, None)]
      ensures w.allOk ==> old(w).allOk
      ensures w.allOk ==> w.kernel.dns == if c.hop == MultiHopEntry then None else Some(c.hop)
    {
      ok := SwitchServer(c);
      if !ok { return; }
      ok := SwitchResolvers(c);
      if !ok { return; }
      assert conns[c.hop := Connection(c, None)] == conns;
      timer := true;
    }

    /** activate. `inner` are the requests that arrive while a deactivation started here is inside
        its Down hook, `nested` the failures they signalled. `recursed`: the recursive call was
        reached; it is reached at most once, and a failure inside it signals twice. */
    method Activate(c: Config, ipUtils: bool, inner: seq<Request>) returns (ok: bool, recursed: bool, nested: nat)
      requires Inv()
      modifies this
      ensures Inv() && deactivating == old(deactivating) && disconnects == old(disconnects)
      ensures ok ==> timer && conns == (if recursed then map[] else old(conns))[c.hop := Connection(c, None)]
      ensures !ok && (c.hop !in old(conns) || (old(deactivating) && !Switchable(old(conns), c))) ==> conns == old(conns)
      ensures !ok && Replaces(old(conns), c) && !old(deactivating) ==> conns == map[]
      ensures !ok ==> conns == old(conns) || conns == map[] || conns == old(conns)[c.hop := Connection(c, None)]
      ensures old(deactivating) && !ok ==> timer == old(timer)
      ensures old(deactivating) && ok ==> Takes(old(conns), ActivateRequest(c))
      ensures recursed ==> Replaces(old(conns), c) && !old(deactivating)
      ensures w.allOk ==> (recursed <==> Replaces(old(conns), c) && !old(deactivating))
      ensures failures == old(failures) + nested + if ok then 0 else if recursed then 2 else 1
      ensures nested <= Activations(inner)
      ensures !Replaces(old(conns), c) || old(deactivating) ==> nested == 0
      ensures w.allOk && recursed ==> nested == Refused(old(conns), inner)
      ensures w.allOk ==> old(w).allOk
      ensures w.allOk && !ok ==> old(deactivating) && Replaces(old(conns), c)
      ensures ok && !recursed && c.hop in old(conns) ==>
                var now := old(conns)[c.hop].config;
                && now.privateKey == c.privateKey && now.deviceIpv4 == c.deviceIpv4 && now.deviceIpv6 == c.deviceIpv6
                && now.gatewayIpv4 == c.gatewayIpv4 && now.gatewayIpv6 == c.gatewayIpv6
      ensures w.allOk && c.hop in old(conns) ==>
                var now := old(conns)[c.hop].config;
                if now.privateKey != c.privateKey || now.deviceIpv4 != c.deviceIpv4 || now.deviceIpv6 != c.deviceIpv6
                   || now.gatewayIpv4 != c.gatewayIpv4 || now.gatewayIpv6 != c.gatewayIpv6
                then conns == if old(deactivating) then old(conns) else map[c.hop := Connection(c, None)]
                else conns == old(conns)[c.hop := Connection(c, None)]
      ensures w.allOk && ok && c.hop != MultiHopEntry ==> w.kernel.dns == Some(c.hop)
      ensures w.allOk && ok && c.hop == MultiHopEntry ==>
                w.kernel.dns == if c.hop in old(conns) then None else old(w).kernel.dns
      decreases if deactivating then 0 else 1, if c.hop in conns then 3 else 1, 0
    {
      recursed, nested := false, 0;
      if c.hop in conns {
        if Switchable(conns, c) {
          ok := SwitchOver(c);
          if !ok { failures := failures + 1; }
          return;
        }
        var removed, revived;
        removed, revived, nested := Deactivate(false, ipUtils, inner);
        if !removed {
          failures := failures + 1;
          return false, false, nested;
        }
        if c.hop in conns { // a deactivation was already in progress
          failures := failures + 1;
          return false, false, nested;
        }
        recursed := true;
        var again, none;
        ok, again, none := Activate(c, ipUtils, []);
        if !ok { failures := failures + 1; }
        return;
      }
      ok := BringUp(c, ipUtils);
      if !ok { failures := failures + 1; }
    }

    /** deactivate. A re-entrant call changes nothing; an outermost one forgets everything, asks the
        kernel once for each recorded exclusion, and leaves the poll timer off unless an activation
        that arrived in between succeeded. `nested` counts the failures signalled in between. */
    method Deactivate(emitSignals: bool, ipUtils: bool, inner: seq<Request>)
      returns (removed: bool, revived: bool, nested: nat)
      requires Inv()
      modifies this
      ensures Inv() && deactivating == old(deactivating)
      ensures old(deactivating) ==> removed && !revived && nested == 0 && unchanged(this)
      ensures !old(deactivating) ==> conns == map[] && refs == map[] && timer == revived
      ensures !old(deactivating) ==> disconnects == old(disconnects) + if emitSignals then 1 else 0
      ensures failures == old(failures) + nested && nested <= Activations(inner)
      ensures w.allOk && !old(deactivating) ==> (timer <==> exists r :: r in inner && Takes(old(conns), r))
      ensures w.allOk && !old(deactivating) ==> nested == Refused(old(conns), inner)
      ensures Activations(inner) == 0 ==> !revived
      ensures !old(deactivating) && Activations(inner) == 0 ==> AskedOnce(old(w).deletions, w.deletions, old(refs).Keys)
      ensures w.allOk ==> old(w).allOk && removed
      ensures w.allOk && !old(deactivating) ==> w.kernel == EMPTY
      ensures removed && !old(deactivating) ==> !interfaceUp
      decreases if deactivating then 0 else 1, 2, 0
    {
      if deactivating { return true, false, 0; }
      deactivating := true;
      revived, nested := Announce(emitSignals, ipUtils, inner);
      removed := CleanUp();
      deactivating := false;
    }

    /** The first half of deactivate: stop polling, run the Down hook, signal. */
    method Announce(emitSignals: bool, ipUtils: bool, inner: seq<Request>) returns (revived: bool, nested: nat)
      requires Core() && deactivating
      modifies this
      ensures Core() && deactivating && timer == revived
      ensures disconnects == old(disconnects) + if emitSignals then 1 else 0
      ensures failures == old(failures) + nested && nested <= Activations(inner)
      ensures Activations(inner) == 0 ==> !revived && refs == old(refs) && w.deletions == old(w).deletions
      ensures w.allOk ==> old(w).allOk && nested == Refused(old(conns), inner)
      ensures w.allOk ==> (revived <==> exists r :: r in inner && Takes(old(conns), r))
      decreases 0, 5, 0
    {
      timer := false;
      if conns != map[] { var _ := Call(); } // run(Down): a failure is only logged
      if emitSignals { disconnects := disconnects + 1; }
      revived, nested := Reenter(ipUtils, inner);
    }

    /** The unconditional second half of deactivate. */
    method CleanUp() returns (removed: bool)
      requires Core()
      modifies this`conns, this`refs, this`w, this`interfaceUp
      ensures conns == map[] && refs == map[] && Core()
      ensures AskedOnce(old(w).deletions, w.deletions, old(refs).Keys)
      ensures w.allOk ==> old(w).allOk && removed
      ensures w.allOk ==> w.kernel == EMPTY
      ensures removed ==> !interfaceUp
    {
      var _ := KernelResolvers(None); // restoreResolvers: a failure is only logged
      ResolversKeepCore(conns, refs, old(w), w);
      TearDown();
      removed := Call(); // deleteInterface
      if removed { interfaceUp := false; }
    }

    /** Requests delivered while a deactivation is inside its hook or signal. */
    method Reenter(ipUtils: bool, inner: seq<Request>) returns (revived: bool, nested: nat)
      requires Inv() && deactivating
      modifies this
      ensures Inv() && deactivating && disconnects == old(disconnects)
      ensures timer == (old(timer) || revived)
      ensures failures == old(failures) + nested && nested <= Activations(inner)
      ensures Activations(inner) == 0 ==> !revived && unchanged(this)
      ensures w.allOk ==> old(w).allOk && nested == Refused(old(conns), inner)
      ensures w.allOk ==> (revived <==> exists r :: r in inner && Takes(old(conns), r))
      decreases 0, 4, |inner|
    {
      revived, nested := false, 0;
      if inner == [] { return; }
      assert forall r :: r in inner <==> r == inner[0] || r in inner[1..];
      var again, own := false, 0;
      match inner[0] {
        case ActivateRequest(c) =>
          var deeper, none;
          again, deeper, none := Activate(c, ipUtils, []);
          own := if again then 0 else 1;
        case DeactivateRequest(e) =>
          var _, _, _ := Deactivate(e, ipUtils, []);
      }
      revived, nested := Reenter(ipUtils, inner[1..]);
      revived, nested := revived || again, nested + own;
    }

    /** Peers, routes and exclusion routes of everything that is live. */
    method TearDown()
      requires Core() && (w.allOk ==> w.kernel.dns.None?)
      modifies this`conns, this`refs, this`w
      ensures conns == map[] && refs == map[] && Core()
      ensures AskedOnce(old(w).deletions, w.deletions, old(refs).Keys)
      ensures w.allOk ==> old(w).allOk
      ensures w.allOk ==> w.kernel == EMPTY
    {
      DropHops();
      DropExclusions();
      refs := map[];
      conns := map[];
      w := w.(dropped := w.dropped && !w.allOk, unpeered := w.unpeered && !w.allOk);
    }

    /** Routes and peers of every live hop. */
    method DropHops()
      modifies this`w
      ensures w == old(w).(kernel := w.kernel, trace := w.trace, allOk := w.allOk) && (w.allOk ==> old(w).allOk)
      ensures w.kernel.excluded == old(w).kernel.excluded && w.kernel.dns == old(w).kernel.dns
      ensures w.allOk ==> w.kernel.routes == old(w).kernel.routes - Allowed(conns)
      ensures w.allOk ==> w.kernel.peers == old(w).kernel.peers - PeerKeys(conns)
    {
      DropHop(SingleHop);
      DropHop(MultiHopEntry);
      DropHop(MultiHopExit);
    }

    method DropHop(h: HopType)
      modifies this`w
      ensures w == old(w).(kernel := w.kernel, trace := w.trace, allOk := w.allOk) && (w.allOk ==> old(w).allOk)
      ensures w.kernel.excluded == old(w).kernel.excluded
      ensures w.allOk ==> w.kernel.routes == old(w).kernel.routes - AllowedAt(conns, h)
      ensures w.allOk ==> w.kernel.peers == old(w).kernel.peers - PeerAt(conns, h)
      ensures w.kernel.dns == old(w).kernel.dns
    {
      if h in conns {
        DeleteRoutes(conns[h].config.allowed, []);
        assert Elems(conns[h].config.allowed) - Elems<Prefix>([]) == AllowedAt(conns, h);
        var _ := KernelDeletePeer(conns[h].config.serverKey);
      }
    }

    method DropExclusions()
      modifies this`w
      ensures w == old(w).(kernel := w.kernel, trace := w.trace, deletions := w.deletions, allOk := w.allOk, deletesOk := w.deletesOk)
      ensures AskedOnce(old(w).deletions, w.deletions, refs.Keys)
      ensures (w.allOk ==> old(w).allOk) && (w.deletesOk ==> old(w).deletesOk)
      ensures old(w.allOk ==> w.deletesOk) ==> w.allOk ==> w.deletesOk
      ensures w.kernel == old(w).kernel.(excluded := w.kernel.excluded)
      ensures w.deletesOk ==> w.kernel.excluded == old(w).kernel.excluded - refs.Keys
    {
      ghost var asked: seq<Prefix> := [];
      var rest := refs.Keys;
      while rest != {}
        invariant rest <= refs.Keys
        invariant w == old(w).(kernel := w.kernel, trace := w.trace, deletions := w.deletions, allOk := w.allOk, deletesOk := w.deletesOk)
        invariant w.deletions == old(w).deletions + asked && multiset(asked) + multiset(rest) == multiset(refs.Keys)
        invariant (w.allOk ==> old(w).allOk) && (w.deletesOk ==> old(w).deletesOk)
        invariant old(w.allOk ==> w.deletesOk) ==> w.allOk ==> w.deletesOk
        invariant w.kernel == old(w).kernel.(excluded := w.kernel.excluded)
        invariant w.deletesOk ==> w.kernel.excluded == old(w).kernel.excluded - (refs.Keys - rest)
        decreases rest
      {
        var p :| p in rest;
        var _ := KernelDeleteExclusion(p);
        asked := asked + [p];
        rest := rest - {p};
      }
      assert refs.Keys - rest == refs.Keys;
      assert w.deletions[|old(w).deletions|..] == asked;
    }

    // ---- handshake polling ----

    /** The single-shot poll timer fired: record finished handshakes, poll again iff one is awaited. */
    method CheckHandshake(peers: seq<(string, int)>)
      requires Inv()
      modifies this`conns, this`timer
      ensures Inv() && timer == Awaiting(conns) && conns.Keys == old(conns).Keys
      ensures forall h :: h in conns ==> conns[h] == Polled(old(conns)[h], peers)
    {
      var cs, pendingHandshakes := PollAll(conns, peers);
      SameConfigs(conns, cs);
      conns := cs;
      timer := pendingHandshakes > 0;
    }
  }

  datatype Event = Request(request: Request, inner: seq<Request>) | HandshakePoll(peers: seq<(string, int)>)

  /** A deactivation during which no activation arrives. */
  ghost predicate Closes(e: Event)
  {
    e.Request? && e.request.DeactivateRequest? && Activations(e.inner) == 0
  }

  /** Any history of requests (with whatever re-enters their deactivations) and timer polls. On a
      history without a failed call each count is the number of live list entries, the assertion
      never fired and every awaited handshake is polled; with successful deletions the counted keys
      are the installed exclusions; and after a closing deactivation nothing is left. */
  method Serve(d: Daemon, events: seq<Event>, ipUtils: bool)
    requires d.Inv() && !d.deactivating
    modifies d
    ensures d.Inv() && !d.deactivating
    ensures events != [] && Closes(events[|events| - 1]) ==> d.conns == map[] && d.refs == map[] && !d.timer
    ensures events != [] && Closes(events[|events| - 1]) && d.w.allOk ==> d.w.kernel == EMPTY
  {
    for i := 0 to |events|
      invariant d.Inv() && !d.deactivating
      invariant i > 0 && Closes(events[i - 1]) ==> d.conns == map[] && d.refs == map[] && !d.timer
    {
      match events[i]
      case Request(ActivateRequest(c), inner) => var _, _, _ := d.Activate(c, ipUtils, inner);
      case Request(DeactivateRequest(emitSignals), inner) => var _, _, _ := d.Deactivate(emitSignals, ipUtils, inner);
      case HandshakePoll(peers) => if d.timer { d.CheckHandshake(peers); }
    }
  }

  /** The timer is left running with nothing live whenever one activation of a hop that is not live
      arrives during a deactivation and no call fails; the next poll ends it. */
  method TimerOutlivesDeactivation(d: Daemon, c: Config, ipUtils: bool, peers: seq<(string, int)>) returns (left: bool)
    requires d.Inv() && !d.deactivating && c.hop !in d.conns
    modifies d
    ensures d.conns == map[] && !d.timer
    ensures d.w.allOk ==> left
  {
    var inner := [ActivateRequest(c)];
    assert inner[0] in inner && Takes(d.conns, inner[0]);
    var removed, revived, nested := d.Deactivate(true, ipUtils, inner);
    left := d.timer;
    d.CheckHandshake(peers);
  }

  /** The loop over connections of checkHandshake. */
  method PollAll(cs0: Connections, peers: seq<(string, int)>) returns (cs: Connections, pendingHandshakes: nat)
    ensures cs.Keys == cs0.Keys && forall h :: h in cs ==> cs[h] == Polled(cs0[h], peers)
    ensures pendingHandshakes > 0 <==> Awaiting(cs)
  {
    cs, pendingHandshakes := cs0, 0;
    var rest := cs.Keys;
    while rest != {}
      invariant rest <= cs.Keys == cs0.Keys
      invariant forall h :: h in cs ==> cs[h] == if h in rest then cs0[h] else Polled(cs0[h], peers)
      invariant pendingHandshakes > 0 <==> exists h :: h in cs && h !in rest && cs[h].handshake.None?
      decreases rest
    {
      var h :| h in rest;
      rest := rest - {h};
      if cs[h].handshake.Some? { continue; }
      var date := FirstSeen(cs[h].config.serverKey, peers);
      cs := cs[h := cs[h].(handshake := date)];
      if date.None? { pendingHandshakes := pendingHandshakes + 1; }
    }
  }

  /** The loop over peer statuses: the last non-zero handshake reported for the key. */
  method FirstSeen(key: string, peers: seq<(string, int)>) returns (date: Option<int>)
    ensures date == LastHandshake(key, peers)
  {
    date := None;
    for i := 0 to |peers|
      invariant date == LastHandshake(key, peers[..i])
    {
      assert peers[..i + 1][..i] == peers[..i];
      if key == peers[i].0 && peers[i].1 != 0 { date := Some(peers[i].1); }
    }
    assert peers[..|peers|] == peers;
  }

  function LastHandshake(key: string, peers: seq<(string, int)>): Option<int>
  {
    if peers == [] then None
    else
      var p := peers[|peers| - 1];
      if p.0 == key && p.1 != 0 then Some(p.1) else LastHandshake(key, peers[..|peers| - 1])
  }

  /** A handshake is recorded exactly if the peer's own key is reported with a non-zero time, and it
      is the last such time. */
  lemma {:induction false} LastHandshakeIs(key: string, peers: seq<(string, int)>)
    ensures LastHandshake(key, peers).None? <==> forall i :: 0 <= i < |peers| && peers[i].0 == key ==> peers[i].1 == 0
    ensures LastHandshake(key, peers).Some? ==>
              exists i :: 0 <= i < |peers| && peers[i] == (key, LastHandshake(key, peers).value) && peers[i].1 != 0
                          && forall j :: i < j < |peers| && peers[j].0 == key ==> peers[j].1 == 0
  {
    if peers != [] {
      var n := |peers| - 1;
      if peers[n].0 == key && peers[n].1 != 0 {
        assert peers[n] == (key, LastHandshake(key, peers).value);
      } else {
        LastHandshakeIs(key, peers[..n]);
        if LastHandshake(key, peers).Some? {
          var i :| 0 <= i < n && peers[..n][i] == (key, LastHandshake(key, peers).value) && peers[..n][i].1 != 0
                   && forall j :: i < j < n && peers[..n][j].0 == key ==> peers[..n][j].1 == 0;
          assert peers[i] == (key, LastHandshake(key, peers).value);
          forall j | i < j < |peers| && peers[j].0 == key ensures peers[j].1 == 0 {
            if j < n { assert peers[..n][j] == peers[j]; }
          }
        } else {
          forall i | 0 <= i < |peers| && peers[i].0 == key ensures peers[i].1 == 0 {
            if i < n { assert peers[..n][i] == peers[i]; }
          }
        }
      }
    }
  }

  /** What one poll does to a connection: a known handshake stays, an awaited one is looked up. */
  lemma PolledIs(c: Connection, peers: seq<(string, int)>)
    ensures Polled(c, peers).config == c.config
    ensures c.handshake.Some? ==> Polled(c, peers) == c
    ensures c.handshake.None? ==>
              (Polled(c, peers).handshake.None? <==>
               forall i :: 0 <= i < |peers| && peers[i].0 == c.config.serverKey ==> peers[i].1 == 0)
  {
    LastHandshakeIs(c.config.serverKey, peers);
  }

  function Polled(c: Connection, peers: seq<(string, int)>): Connection
  {
    if c.handshake.Some? then c else c.(handshake := LastHandshake(c.config.serverKey, peers))
  }

  lemma SameConfigs(cs: Connections, cs': Connections)
    requires cs.Keys == cs'.Keys && forall h :: h in cs ==> cs'[h].config == cs[h].config
    ensures Occurrences(cs') == Occurrences(cs) && Allowed(cs') == Allowed(cs)
  {
    assert forall h :: ExcludedAt(cs', h) == ExcludedAt(cs, h) && AllowedAt(cs', h) == AllowedAt(cs, h);
  }

  /** What SwapRoutes leaves: keys matching the kernel and, if nothing failed, the new counts, the
      new routes and everything common kept throughout. */
  ghost predicate Swapped(cs: Connections, c: Config, w0: World, r: Refs, w: World)
    requires c.hop in cs
  {
    var last := cs[c.hop].config;
    && Positive(r)
    && (w.deletesOk ==> r.Keys == w.kernel.excluded)
    && w.dropped == w0.dropped
    && (w.allOk ==>
          && w0.allOk && w.deletesOk && !w.asserted
          && (forall p :: Count(r, p) == Occurrences(cs[c.hop := Connection(c, None)])[p])
          && w.kernel.routes == (w0.kernel.routes + Elems(c.allowed)) - (Elems(last.allowed) - Elems(c.allowed))
          && w0.trace <= w.trace
          && Stays(w, |w0.trace|, Elems(last.excluded) * Elems(c.excluded),
                   Elems(last.allowed) * Elems(c.allowed) * w0.kernel.routes, w0.kernel.peers)
          && Elems(last.excluded) * Elems(c.excluded) <= w.kernel.excluded
          && Elems(last.allowed) * Elems(c.allowed) * w0.kernel.routes <= w.kernel.routes)
  }

  /** Route changes that keep `stay` installed throughout. */
  ghost predicate RoutesMoved(w0: World, w: World, stay: set<Prefix>)
  {
    && w == w0.(kernel := w.kernel, trace := w.trace, allOk := w.allOk)
    && w.kernel.excluded == w0.kernel.excluded && stay <= w.kernel.routes && w0.kernel.peers <= w.kernel.peers
    && (w.allOk ==> w0.allOk)
    && w0.trace <= w.trace && Stays(w, |w0.trace|, w0.kernel.excluded, stay, w0.kernel.peers)
  }

  lemma FlagKeepsCore(cs: Connections, r: Refs, w0: World, w: World)
    requires CoreOf(cs, r, w0) && w == w0.(allOk := w.allOk) && (w.allOk ==> w0.allOk)
    ensures CoreOf(cs, r, w)
  {}

  /** Resolver changes: only they and the trace move, and `dns` is set if the call succeeded. */
  ghost predicate Resolved(w0: World, w: World, dns: Option<HopType>, ok: bool)
  {
    && w == w0.(kernel := w.kernel, trace := w.trace, allOk := w0.allOk && ok)
    && w.kernel == w0.kernel.(dns := if ok then dns else w0.kernel.dns)
    && w0.trace <= w.trace && Stays(w, |w0.trace|, w0.kernel.excluded, w0.kernel.routes, w0.kernel.peers)
  }

  /** Setting or restoring resolvers concerns nothing else. */
  lemma ResolversKeepCore(cs: Connections, r: Refs, w0: World, w: World)
    requires CoreOf(cs, r, w0)
    requires w == w0.(kernel := w.kernel, trace := w.trace, allOk := w.allOk) && (w.allOk ==> w0.allOk)
    requires w.kernel == w0.kernel.(dns := w.kernel.dns)
    requires w.kernel.dns.Some? ==> w.kernel.dns == w0.kernel.dns || (w.kernel.dns.value in cs && w.kernel.dns.value != MultiHopEntry)
    ensures CoreOf(cs, r, w)
  {}

  lemma MovedChain(w0: World, w1: World, w2: World)
    requires RoutesMoved(w0, w1, w0.kernel.routes) && w1.kernel.routes == w0.kernel.routes
    requires RoutesMoved(w1, w2, w1.kernel.routes)
    ensures RoutesMoved(w0, w2, w0.kernel.routes)
  {
    StaysChain(w1, w2, |w0.trace|, w0.kernel.excluded, w0.kernel.routes, w0.kernel.peers);
  }

  /** Another hop still uses the server that the switch is about to remove. */
  ghost predicate PeerConflict(cs: Connections, c: Config)
    requires c.hop in cs
  {
    cs[c.hop].config.serverKey != c.serverKey && cs[c.hop].config.serverKey in PeerKeys(cs - {c.hop})
  }

  lemma PeerSplit(cs: Connections, c: Config)
    ensures PeerKeys(cs[c.hop := Connection(c, None)]) == PeerKeys(cs - {c.hop}) + {c.serverKey}
    ensures c.hop in cs ==> PeerKeys(cs) == PeerKeys(cs - {c.hop}) + {cs[c.hop].config.serverKey}
    ensures c.hop !in cs ==> PeerKeys(cs) == PeerKeys(cs - {c.hop})
    ensures cs.Keys <= {c.hop} ==> PeerKeys(cs - {c.hop}) == {}
  {
    var cs', less := cs[c.hop := Connection(c, None)], cs - {c.hop};
    assert forall h :: h != c.hop ==> PeerAt(cs', h) == PeerAt(cs, h) == PeerAt(less, h);
    match c.hop { case SingleHop => case MultiHopEntry => case MultiHopExit => }
  }

  /** A switch keeps the peer side, and with one live hop leaves only the new server. */
  lemma SwitchPeered(cs: Connections, c: Config, w0: World, w: World)
    requires c.hop in cs && Peered(cs, w0) && w.unpeered == (w0.unpeered || PeerConflict(cs, c))
    requires w.allOk ==> w0.allOk && w.kernel.dns == w0.kernel.dns
    requires w.allOk ==> w.kernel.peers == (w0.kernel.peers + {c.serverKey}) - ({cs[c.hop].config.serverKey} - {c.serverKey})
    ensures Peered(cs[c.hop := Connection(c, None)], w)
    ensures w.allOk && !w0.unpeered ==> (w.kernel.peers == PeerKeys(cs[c.hop := Connection(c, None)]) <==> !PeerConflict(cs, c))
    ensures w.allOk && cs.Keys == {c.hop} ==> w.kernel.peers == {c.serverKey}
  {
    PeerSplit(cs, c);
    var cs' := cs[c.hop := Connection(c, None)];
    assert PeerConflict(cs, c) ==> Several(cs') by {
      if PeerConflict(cs, c) {
        var b := if PeerAt(cs - {c.hop}, SingleHop) != {} then SingleHop
                 else if PeerAt(cs - {c.hop}, MultiHopEntry) != {} then MultiHopEntry else MultiHopExit;
        assert b in cs - {c.hop} && b in cs' && c.hop in cs';
      }
    }
    assert Several(cs) ==> Several(cs') by { SeveralStay(cs, c); }
    assert Several(cs) ==> cs.Keys != {c.hop};
  }

  lemma SeveralStay(cs: Connections, c: Config)
    ensures Several(cs) ==> Several(cs[c.hop := Connection(c, None)])
  {
    if Several(cs) {
      var a, b :| a in cs && b in cs && a != b;
      var cs' := cs[c.hop := Connection(c, None)];
      assert a in cs' && b in cs';
    }
  }

  /** Another hop still uses a prefix that the switch is about to delete. */
  ghost predicate Conflict(cs: Connections, c: Config)
    requires c.hop in cs
  {
    Allowed(cs - {c.hop}) * (Elems(cs[c.hop].config.allowed) - Elems(c.allowed)) != {}
  }

  /** What AddExclusionRoute does to one prefix, as a relation. */
  ghost predicate AcquiredOne(r: Refs, v: World, r': Refs, v': World, p: Prefix, ok: bool)
  {
    && (ok ==> r' == r[p := Count(r, p) + 1])
    && (ok ==> v' == if p in r then v else Moved(v, v.kernel.(excluded := v.kernel.excluded + {p})))
    && (!ok ==> p !in r && r' == r && v' == v.(allOk := false))
  }

  lemma AcquireStep(r0: Refs, w0: World, r: Refs, v: World, r': Refs, v': World, done: multiset<Prefix>, p: Prefix, ok: bool)
    requires Acquired(r0, w0, r, v, done) && AcquiredOne(r, v, r', v', p, ok)
    ensures Acquired(r0, w0, r', v', done + multiset{p})
  {
    AcquireCount(r0, w0, r, v, r', v', done, p, ok);
    AcquireWorld(w0, r, v, r', v', p, ok);
  }

  lemma AcquireCount(r0: Refs, w0: World, r: Refs, v: World, r': Refs, v': World, done: multiset<Prefix>, p: Prefix, ok: bool)
    requires AcquiredCounts(r0, w0, r, v, done) && AcquiredOne(r, v, r', v', p, ok)
    ensures AcquiredCounts(r0, w0, r', v', done + multiset{p})
  {}

  lemma AcquireWorld(w0: World, r: Refs, v: World, r': Refs, v': World, p: Prefix, ok: bool)
    requires OnlyExcludes(w0, v) && AcquiredOne(r, v, r', v', p, ok)
    ensures OnlyExcludes(w0, v')
  {}

  /** After counting `added` in: only the exclusion side grew, and keys still match the kernel. */
  ghost predicate Acquired(r0: Refs, w0: World, r: Refs, w: World, added: multiset<Prefix>)
  {
    AcquiredCounts(r0, w0, r, w, added) && OnlyExcludes(w0, w)
  }

  ghost predicate AcquiredCounts(r0: Refs, w0: World, r: Refs, w: World, added: multiset<Prefix>)
  {
    && Positive(r)
    && (r0.Keys == w0.kernel.excluded ==> r.Keys == w.kernel.excluded)
    && (w.allOk ==> w0.allOk && forall p :: Count(r, p) == Count(r0, p) + added[p])
  }

  ghost predicate OnlyExcludes(w0: World, w: World)
  {
    && w == w0.(kernel := w.kernel, trace := w.trace, allOk := w.allOk)
    && w.kernel.routes == w0.kernel.routes && SamePeers(w0, w) && w0.kernel.excluded <= w.kernel.excluded
    && w0.trace <= w.trace && Stays(w, |w0.trace|, w0.kernel.excluded, w0.kernel.routes, w0.kernel.peers)
  }

  /** What DelExclusionRoute does to one prefix, as a relation. */
  ghost predicate ReleasedOne(r: Refs, v: World, r': Refs, v': World, p: Prefix, ok: bool)
  {
    && (Count(r, p) > 1 ==> r' == r[p := r[p] - 1] && v' == v)
    && (Count(r, p) <= 1 ==>
          var v0 := v.(asserted := v.asserted || p !in r, deletions := v.deletions + [p]);
          && r' == r - {p}
          && v' == if ok then Moved(v0, v0.kernel.(excluded := v0.kernel.excluded - {p}))
                   else v0.(allOk := false, deletesOk := false))
  }

  /** After releasing `done`: only the exclusion side moved; keys still match the kernel if deletes succeed. */
  ghost predicate Released(r0: Refs, w0: World, r: Refs, w: World, done: multiset<Prefix>)
  {
    && ReleasedWorld(w0, w)
    && Positive(r)
    && (w.deletesOk && r0.Keys == w0.kernel.excluded ==> r.Keys == w.kernel.excluded)
    && (forall p :: Count(r, p) >= Count(r0, p) - done[p])
  }

  ghost predicate ReleasedWorld(w0: World, w: World)
  {
    && w == w0.(kernel := w.kernel, trace := w.trace, deletions := w.deletions, allOk := w.allOk,
                deletesOk := w.deletesOk, asserted := w.asserted)
    && w.kernel.routes == w0.kernel.routes && SamePeers(w0, w)
    && w0.trace <= w.trace
    && (w.allOk ==> w0.allOk) && (w.deletesOk ==> w0.deletesOk)
    && ((w0.allOk ==> w0.deletesOk) ==> w.allOk ==> w.deletesOk)
  }

  /** If nothing failed and `all` was fully counted, exactly `done` was given back and no assertion fired. */
  ghost predicate ReleasedCounts(r0: Refs, w0: World, r: Refs, w: World, done: multiset<Prefix>, all: multiset<Prefix>)
  {
    w.allOk && (forall p :: all[p] <= Count(r0, p)) ==>
      w.asserted == w0.asserted && forall p :: Count(r, p) == Count(r0, p) - done[p]
  }

  /** Prefixes counted more often than they are about to be released. */
  function Retained(r0: Refs, w0: World, all: multiset<Prefix>): set<Prefix>
  {
    set p | p in w0.kernel.excluded && Count(r0, p) > all[p]
  }

  /** The loop invariant of releasing `all`, of which `done` has been released. */
  ghost predicate Releasing(r0: Refs, w0: World, r: Refs, w: World, done: multiset<Prefix>, all: multiset<Prefix>)
  {
    && Released(r0, w0, r, w, done)
    && ReleasedCounts(r0, w0, r, w, done, all)
    && Retained(r0, w0, all) <= w.kernel.excluded
    && Stays(w, |w0.trace|, Retained(r0, w0, all), w0.kernel.routes, w0.kernel.peers)
  }

  lemma ReleaseStep(r0: Refs, w0: World, r: Refs, v: World, r': Refs, v': World,
                    done: multiset<Prefix>, all: multiset<Prefix>, p: Prefix, ok: bool)
    requires Releasing(r0, w0, r, v, done, all)
    requires ReleasedOne(r, v, r', v', p, ok) && done + multiset{p} <= all
    ensures Releasing(r0, w0, r', v', done + multiset{p}, all)
  {
    ReleaseWorld(w0, r, v, r', v', p, ok);
    ReleaseCount(r0, w0, r, v, r', v', done, all, p, ok);
    if p in Retained(r0, w0, all) {
      assert (done + multiset{p})[p] <= all[p];
      assert Count(r, p) > 1;
    }
  }

  lemma ReleaseWorld(w0: World, r: Refs, v: World, r': Refs, v': World, p: Prefix, ok: bool)
    requires ReleasedWorld(w0, v) && ReleasedOne(r, v, r', v', p, ok)
    ensures ReleasedWorld(w0, v')
  {}

  lemma ReleaseCount(r0: Refs, w0: World, r: Refs, v: World, r': Refs, v': World,
                     done: multiset<Prefix>, all: multiset<Prefix>, p: Prefix, ok: bool)
    requires Released(r0, w0, r, v, done) && ReleasedCounts(r0, w0, r, v, done, all)
    requires ReleasedOne(r, v, r', v', p, ok) && done + multiset{p} <= all && ReleasedWorld(w0, v')
    ensures Released(r0, w0, r', v', done + multiset{p}) && ReleasedCounts(r0, w0, r', v', done + multiset{p}, all)
  {
    forall q ensures Count(r', q) >= Count(r, q) - multiset{p}[q] {}
  }

  lemma AllowedSplit(cs: Connections, c: Config)
    ensures Allowed(cs[c.hop := Connection(c, None)]) == Allowed(cs - {c.hop}) + Elems(c.allowed)
    ensures c.hop in cs ==> Allowed(cs) == Allowed(cs - {c.hop}) + Elems(cs[c.hop].config.allowed)
    ensures c.hop !in cs ==> Allowed(cs) == Allowed(cs - {c.hop})
    ensures cs.Keys <= {c.hop} ==> Allowed(cs - {c.hop}) == {}
  {
    var cs', less := cs[c.hop := Connection(c, None)], cs - {c.hop};
    assert forall h :: h != c.hop ==> AllowedAt(cs', h) == AllowedAt(cs, h) == AllowedAt(less, h);
    match c.hop { case SingleHop => case MultiHopEntry => case MultiHopExit => }
  }

  lemma StaysChain(w1: World, w2: World, n: nat, ex: set<Prefix>, rs: set<Prefix>, ps: set<string>)
    requires n <= |w1.trace| && w1.trace <= w2.trace
    requires Stays(w1, n, ex, rs, ps) && Stays(w2, |w1.trace|, ex, rs, ps)
    ensures Stays(w2, n, ex, rs, ps)
  {
    forall i | n <= i < |w2.trace| ensures ex <= w2.trace[i].excluded && rs <= w2.trace[i].routes && ps <= w2.trace[i].peers {
      if i < |w1.trace| { assert w2.trace[i] == w1.trace[i]; }
    }
  }

  lemma SwitchCounts(cs: Connections, c: Config, r0: Refs, r1: Refs, w1: World, r2: Refs, w2: World)
    requires c.hop in cs && w2.allOk
    requires forall p :: Count(r0, p) == Occurrences(cs)[p]
    requires forall p :: Count(r1, p) == Count(r0, p) + multiset(c.excluded)[p]
    requires var gone := multiset(cs[c.hop].config.excluded); ReleasedCounts(r1, w1, r2, w2, gone, gone)
    ensures w2.asserted == w1.asserted
    ensures forall p :: Count(r2, p) == Occurrences(cs[c.hop := Connection(c, None)])[p]
  {
    forall p ensures multiset(cs[c.hop].config.excluded)[p] <= Count(r1, p) { OccurrencesOfSwap(cs, c, p); }
    forall p ensures Count(r2, p) == Occurrences(cs[c.hop := Connection(c, None)])[p] { OccurrencesOfSwap(cs, c, p); }
  }

  lemma SwitchRoutes(cs: Connections, c: Config)
    requires c.hop in cs
    ensures var gone := Elems(cs[c.hop].config.allowed) - Elems(c.allowed);
            var cs' := cs[c.hop := Connection(c, None)];
            ((Allowed(cs) + Elems(c.allowed)) - gone == Allowed(cs') <==> !Conflict(cs, c))
    ensures var gone := Elems(cs[c.hop].config.allowed) - Elems(c.allowed);
            (Allowed(cs) + Elems(c.allowed)) - gone <= Allowed(cs[c.hop := Connection(c, None)])
    ensures Conflict(cs, c) ==> exists b :: b in cs && b != c.hop
    ensures cs.Keys == {c.hop} ==> !Conflict(cs, c) && Allowed(cs[c.hop := Connection(c, None)]) == Elems(c.allowed)
  {
    AllowedSplit(cs, c);
    var others, was, now := Allowed(cs - {c.hop}), Elems(cs[c.hop].config.allowed), Elems(c.allowed);
    if others * (was - now) != {} {
      var p :| p in others * (was - now);
      assert p in others + now && p !in ((others + was) + now) - (was - now);
    } else {
      assert ((others + was) + now) - (was - now) == others + now by {
        assert forall p :: p in others && p in was - now ==> p in others * (was - now);
      }
    }
  }

  /** What a switch without a failed call leaves: everything common to old and new config in every
      intermediate state; routes and peers with the new ones added and the old-only ones gone, which
      are those of the live connections exactly if no other hop shared one of those; and with one
      live hop nothing but the new config. */
  ghost predicate Switched(cs: Connections, c: Config, w0: World, cs': Connections, w: World)
    requires c.hop in cs
  {
    var last := cs[c.hop].config;
    && w0.trace <= w.trace
    && Stays(w, |w0.trace|, Elems(last.excluded) * Elems(c.excluded),
             Elems(last.allowed) * Elems(c.allowed) * w0.kernel.routes, w0.kernel.peers - {last.serverKey})
    && (forall i :: |w0.trace| <= i < |w.trace| ==> w0.kernel.peers <= w.trace[i].peers || c.serverKey in w.trace[i].peers)
    && w.kernel.routes == (w0.kernel.routes + Elems(c.allowed)) - (Elems(last.allowed) - Elems(c.allowed))
    && (!w0.dropped ==> (w.kernel.routes == Allowed(cs') <==> !Conflict(cs, c)))
    && w.kernel.peers == (w0.kernel.peers + {c.serverKey}) - ({last.serverKey} - {c.serverKey})
    && (!w0.unpeered ==> (w.kernel.peers == PeerKeys(cs') <==> !PeerConflict(cs, c)))
    && w.kernel.dns == w0.kernel.dns
    && (cs'.Keys == {c.hop} ==>
          w.kernel.excluded == Elems(c.excluded) && w.kernel.routes == Elems(c.allowed) && w.kernel.peers == {c.serverKey})
  }

  ghost function Flagged(cs: Connections, c: Config, w: World): World
    requires c.hop in cs
  {
    w.(dropped := w.dropped || Conflict(cs, c), unpeered := w.unpeered || PeerConflict(cs, c))
  }

  /** The old peer leaves the interface unless the new config uses the same server. */
  ghost predicate OldPeerGone(cs: Connections, c: Config, w1: World, w: World)
    requires c.hop in cs
  {
    && w.allOk == w1.allOk && w.deletesOk == w1.deletesOk && w.asserted == w1.asserted
    && w.dropped == (w1.dropped || Conflict(cs, c)) && w.unpeered == (w1.unpeered || PeerConflict(cs, c))
    && w.kernel.excluded == w1.kernel.excluded && w.kernel.routes == w1.kernel.routes && w.kernel.dns == w1.kernel.dns
    && w.kernel.peers == w1.kernel.peers - ({cs[c.hop].config.serverKey} - {c.serverKey})
    && w1.trace <= w.trace && |w.trace| <= |w1.trace| + 1 && (|w.trace| > |w1.trace| ==> w.trace[|w1.trace|] == w.kernel)
  }

  lemma SwapFailed(cs: Connections, c: Config, r0: Refs, w0: World, r: Refs, w1: World, w: World)
    requires c.hop in cs && CoreOf(cs, r0, w0) && Swapped(cs, c, w0, r, w1) && w == Flagged(cs, c, w1).(allOk := false)
    ensures CoreOf(cs, r, w)
  {}

  /** The end of switchServer: `w1` is the state after the routes were swapped. */
  lemma SwitchDone(cs: Connections, c: Config, r0: Refs, w0: World, r: Refs, w1: World, w: World)
    requires c.hop in cs && CoreOf(cs, r0, w0) && Swapped(cs, c, w0, r, w1)
    requires w1.unpeered == w0.unpeered && w1.kernel.dns == w0.kernel.dns
    requires w1.allOk ==> w1.kernel.peers == w0.kernel.peers + {c.serverKey}
    requires OldPeerGone(cs, c, w1, w)
    ensures var cs' := cs[c.hop := Connection(c, None)]; CoreOf(cs', r, w) && (w.allOk ==> Switched(cs, c, w0, cs', w))
  {
    SwitchRouted(cs, c, w0, w);
    SwitchPeered(cs, c, w0, w);
    var cs' := cs[c.hop := Connection(c, None)];
    SwitchCounted(cs, c, r0, w0, r, w1, w);
    if w.allOk {
      SwitchTrace(cs, c, w0, w1, w);
      if cs'.Keys == {c.hop} { SoleKeys(cs', c.hop, r); }
    }
  }

  lemma SwitchCounted(cs: Connections, c: Config, r0: Refs, w0: World, r: Refs, w1: World, w: World)
    requires c.hop in cs && Counted(cs, r0, w0) && Swapped(cs, c, w0, r, w1)
    requires w.kernel.excluded == w1.kernel.excluded && w.allOk == w1.allOk && w.deletesOk == w1.deletesOk && w.asserted == w1.asserted
    ensures Counted(cs[c.hop := Connection(c, None)], r, w)
  {}

  lemma SwitchTrace(cs: Connections, c: Config, w0: World, w1: World, w: World)
    requires c.hop in cs && OldPeerGone(cs, c, w1, w) && w1.kernel.peers == w0.kernel.peers + {c.serverKey}
    requires var last := cs[c.hop].config;
             var ex, rs := Elems(last.excluded) * Elems(c.excluded), Elems(last.allowed) * Elems(c.allowed) * w0.kernel.routes;
             w0.trace <= w1.trace && Stays(w1, |w0.trace|, ex, rs, w0.kernel.peers) && ex <= w1.kernel.excluded && rs <= w1.kernel.routes
    ensures w0.trace <= w.trace
    ensures var last := cs[c.hop].config;
            Stays(w, |w0.trace|, Elems(last.excluded) * Elems(c.excluded),
                  Elems(last.allowed) * Elems(c.allowed) * w0.kernel.routes, w0.kernel.peers - {last.serverKey})
    ensures forall i :: |w0.trace| <= i < |w.trace| ==> w0.kernel.peers <= w.trace[i].peers || c.serverKey in w.trace[i].peers
  {
    var last := cs[c.hop].config;
    StaysChain(w1, w, |w0.trace|, Elems(last.excluded) * Elems(c.excluded),
               Elems(last.allowed) * Elems(c.allowed) * w0.kernel.routes, w0.kernel.peers - {last.serverKey});
    forall i | |w0.trace| <= i < |w.trace| ensures w0.kernel.peers <= w.trace[i].peers || c.serverKey in w.trace[i].peers {
      if i < |w1.trace| { assert w.trace[i] == w1.trace[i]; }
    }
  }

  /** A switch keeps the route side, and with one live hop makes it exactly the new config's. */
  lemma SwitchRouted(cs: Connections, c: Config, w0: World, w: World)
    requires c.hop in cs && Routed(cs, w0) && w.dropped == (w0.dropped || Conflict(cs, c))
    requires w.allOk ==> w0.allOk && w.kernel.routes == (w0.kernel.routes + Elems(c.allowed))
                                                        - (Elems(cs[c.hop].config.allowed) - Elems(c.allowed))
    ensures Routed(cs[c.hop := Connection(c, None)], w)
    ensures w.allOk && !w0.dropped ==> (w.kernel.routes == Allowed(cs[c.hop := Connection(c, None)]) <==> !Conflict(cs, c))
    ensures w.allOk && cs.Keys == {c.hop} ==> w.kernel.routes == Elems(c.allowed)
  {
    SwitchRoutes(cs, c);
    var cs' := cs[c.hop := Connection(c, None)];
    if w.allOk && w.dropped {
      if w0.dropped {
        var a, b :| a in cs && b in cs && a != b;
        assert a in cs' && b in cs';
      } else {
        var b :| b in cs && b != c.hop;
        assert c.hop in cs' && b in cs';
      }
    }
  }

  lemma SwitchStays(last: Config, c: Config, r0: Refs, w0: World, r1: Refs, w1: World, w2: World, r2: Refs, w3: World, w4: World)
    requires w1.allOk
    requires r0.Keys == w0.kernel.excluded && forall p :: Count(r0, p) >= multiset(last.excluded)[p]
    requires Acquired(r0, w0, r1, w1, multiset(c.excluded))
    requires RoutesMoved(w1, w2, w1.kernel.routes)
    requires Releasing(r1, w2, r2, w3, multiset(last.excluded), multiset(last.excluded))
    requires RoutesMoved(w3, w4, w3.kernel.routes - (Elems(last.allowed) - Elems(c.allowed)))
    ensures w0.trace <= w4.trace
    ensures Stays(w4, |w0.trace|, Elems(last.excluded) * Elems(c.excluded),
                  Elems(last.allowed) * Elems(c.allowed) * w0.kernel.routes, w0.kernel.peers)
    ensures Elems(last.excluded) * Elems(c.excluded) <= w4.kernel.excluded
    ensures Elems(last.allowed) * Elems(c.allowed) * w0.kernel.routes <= w4.kernel.routes
  {
    var ex, rs := Elems(last.excluded) * Elems(c.excluded), Elems(last.allowed) * Elems(c.allowed) * w0.kernel.routes;
    forall p | p in ex ensures p in w0.kernel.excluded && p in Retained(r1, w2, multiset(last.excluded)) {
      assert multiset(last.excluded)[p] > 0 && multiset(c.excluded)[p] > 0;
      assert p in r0;
    }
    assert Stays(w1, |w0.trace|, ex, rs, w0.kernel.peers);
    assert Stays(w2, |w1.trace|, ex, rs, w0.kernel.peers);
    StaysChain(w1, w2, |w0.trace|, ex, rs, w0.kernel.peers);
    assert Stays(w3, |w2.trace|, ex, rs, w0.kernel.peers);
    StaysChain(w2, w3, |w0.trace|, ex, rs, w0.kernel.peers);
    assert Stays(w4, |w3.trace|, ex, rs, w0.kernel.peers);
    StaysChain(w3, w4, |w0.trace|, ex, rs, w0.kernel.peers);
  }

  lemma SwapLemma(cs: Connections, c: Config, r0: Refs, w0: World, r1: Refs, w1: World, w2: World, r2: Refs, w3: World, w4: World)
    requires c.hop in cs && (w0.allOk ==> w0.deletesOk && !w0.asserted) && (w0.deletesOk ==> r0.Keys == w0.kernel.excluded)
    requires w0.allOk ==> forall p :: Count(r0, p) == Occurrences(cs)[p]
    requires Acquired(r0, w0, r1, w1, multiset(c.excluded))
    requires RoutesMoved(w1, w2, w1.kernel.routes) && (w2.allOk ==> w2.kernel.routes == w1.kernel.routes + Elems(c.allowed))
    requires var gone := multiset(cs[c.hop].config.excluded); Releasing(r1, w2, r2, w3, gone, gone)
    requires var gone := Elems(cs[c.hop].config.allowed) - Elems(c.allowed);
             RoutesMoved(w3, w4, w3.kernel.routes - gone) && (w4.allOk ==> w4.kernel.routes == w3.kernel.routes - gone)
    ensures Swapped(cs, c, w0, r2, w4)
  {
    if w4.allOk {
      SwitchCounts(cs, c, r0, r1, w2, r2, w3);
      forall p ensures Count(r0, p) >= multiset(cs[c.hop].config.excluded)[p] { OccurrencesOfSwap(cs, c, p); }
      SwitchStays(cs[c.hop].config, c, r0, w0, r1, w1, w2, r2, w3, w4);
    }
  }

  /** With one live connection the counted keys are exactly its exclusion list. */
  lemma SoleKeys(cs: Connections, h: HopType, r: Refs)
    requires cs.Keys == {h} && Positive(r) && forall p :: Count(r, p) == Occurrences(cs)[p]
    ensures r.Keys == Elems(cs[h].config.excluded)
  {
    forall p ensures Count(r, p) == multiset(cs[h].config.excluded)[p] {
      OccurrenceCount(cs, p);
      match h { case SingleHop => case MultiHopEntry => case MultiHopExit => }
    }
    forall p ensures p in r <==> p in Elems(cs[h].config.excluded) {
      assert p in r <==> Count(r, p) > 0;
      assert p in cs[h].config.excluded <==> multiset(cs[h].config.excluded)[p] > 0;
    }
  }

  /** An activation that failed half-way leaks references but keeps the bookkeeping consistent. */
  lemma BroughtUpPartly(cs: Connections, r0: Refs, w0: World, r: Refs, w1: World, w: World, added: multiset<Prefix>)
    requires CoreOf(cs, r0, w0) && Acquired(r0, w0, r, w1, added)
    requires w.kernel.excluded == w1.kernel.excluded && w.deletesOk == w1.deletesOk
    ensures !w.allOk ==> CoreOf(cs, r, w)
  {}

  /** What configuring a hop adds when no call fails. */
  ghost predicate Configured(w0: World, c: Config, w: World)
  {
    && w.kernel.routes == w0.kernel.routes + Elems(c.allowed)
    && w.kernel.peers == w0.kernel.peers + {c.serverKey}
    && w.kernel.dns == if c.hop == MultiHopEntry then w0.kernel.dns else Some(c.hop)
  }

  lemma BroughtUp(cs: Connections, c: Config, r0: Refs, w0: World, r: Refs, w1: World, w: World)
    requires c.hop !in cs && CoreOf(cs, r0, w0) && Acquired(r0, w0, r, w1, multiset(c.excluded))
    requires RoutesMoved(w1, w, w1.kernel.routes) && (w.allOk ==> Configured(w1, c, w))
    ensures CoreOf(cs[c.hop := Connection(c, None)], r, w)
  {
    BroughtUpCounts(cs, c, r0, w0, r, w1, w);
    BroughtUpRoutes(cs, c, w0, w);
    BroughtUpPeers(cs, c, w0, w);
  }

  lemma BroughtUpPeers(cs: Connections, c: Config, w0: World, w: World)
    requires c.hop !in cs && Peered(cs, w0) && w.unpeered == w0.unpeered
    requires w.allOk ==> w0.allOk && w.kernel.peers == w0.kernel.peers + {c.serverKey}
    requires w.allOk ==> w.kernel.dns == if c.hop == MultiHopEntry then w0.kernel.dns else Some(c.hop)
    ensures Peered(cs[c.hop := Connection(c, None)], w)
  {
    PeerSplit(cs, c);
    SeveralStay(cs, c);
  }

  lemma BroughtUpCounts(cs: Connections, c: Config, r0: Refs, w0: World, r: Refs, w1: World, w: World)
    requires c.hop !in cs && Counted(cs, r0, w0) && Acquired(r0, w0, r, w1, multiset(c.excluded))
    requires w == w1.(kernel := w.kernel, trace := w.trace, allOk := w.allOk) && (w.allOk ==> w1.allOk)
    requires w.kernel.excluded == w1.kernel.excluded
    ensures Counted(cs[c.hop := Connection(c, None)], r, w)
  {
    forall p ensures Occurrences(cs[c.hop := Connection(c, None)])[p] == Occurrences(cs)[p] + multiset(c.excluded)[p] {
      OccurrencesOfNew(cs, c, p);
    }
  }

  lemma BroughtUpRoutes(cs: Connections, c: Config, w0: World, w: World)
    requires c.hop !in cs && Routed(cs, w0) && w.dropped == w0.dropped
    requires w.allOk ==> w0.allOk && w.kernel.routes == w0.kernel.routes + Elems(c.allowed)
    ensures Routed(cs[c.hop := Connection(c, None)], w)
  {
    AllowedSplit(cs, c);
    var cs' := cs[c.hop := Connection(c, None)];
    assert Several(cs) ==> Several(cs') by {
      if Several(cs) {
        var a, b :| a in cs && b in cs && a != b;
        assert a in cs' && b in cs';
      }
    }
  }
}
