/** VpnConnection's refresh members as the source writes them: fields updated in place and
    loops over maps and sets, each tied to its step in SplitRefreshSpec. */
module SplitRefresh {
  import opened Prelude
  import opened Ipv4
  import opened SplitRefreshSpec

  class VpnProtocol {
    var state: VpnState

    constructor ()
      ensures state == Unknown
    {
      state := Unknown;
    }

    /** Returns whether connectionStateChanged was emitted. */
    method SetConnectionState(to: VpnState) returns (emitted: bool)
      modifies this
      ensures emitted == Emits(old(state), to)
      ensures emitted <==> old(state) != to && (old(state) != Disconnected || to != Disconnecting)
      ensures state == if emitted then to else old(state)
    {
      if state == to { return false; }
      if state == Disconnected && to == Disconnecting { return false; }
      state := to;
      return true;
    }
  }

  class VpnConnection {
    var conn: VpnState
    var proto: VpnProtocol?
    var timer: bool
    var gen: nat
    var pending: int
    var resolved: set<string>
    var installed: set<string>
    // the outside world: settings, Qt's timers and resolver, the service's route table
    var sites: Sites
    var shots: multiset<nat>
    var lookups: set<Lookup>
    var table: set<string>
    // the latest refresh
    var cycle: nat
    var asked: Sites
    var answered: Answers

    ghost function View(): State
      reads this, proto
    {
      State(conn, if proto == null then None else Some(proto.state), timer, gen, pending, resolved, installed,
            sites, shots, lookups, table, cycle, asked, answered)
    }

    constructor (uninitialised: VpnState, settings: Sites)
      ensures Initially(View()) && Inv(View()) && conn == uninitialised && sites == settings
      ensures fresh(this)
    {
      conn, proto, timer, gen, pending := uninitialised, null, false, 0, 0;
      resolved, installed, sites, shots, lookups, table := {}, {}, settings, multiset{}, {}, {};
      cycle, asked, answered := 0, map[], map[];
      new;
      InitialInv(View());
    }

    method OnConnectionStateChanged(to: VpnState, armed: bool)
      modifies this
      ensures proto == old(proto) && View() == OnStateChanged(old(View()), to, armed)
    {
      if to != Connected {
        timer := false;
        gen := gen + 1;
        pending := 0;
        resolved := {};
        installed := {};
      }
      if to == Connected && armed {
        gen := gen + 1;
        shots := shots + multiset{gen};
      }
    }

    method SetConnectionState(to: VpnState, armed: bool)
      modifies this
      ensures proto == old(proto) && View() == SetState(old(View()), to, armed)
    {
      OnConnectionStateChanged(to, armed);
      if to == Disconnected && conn == Reconnecting { return; }
      conn := to;
    }

    /** A report of the protocol, delivered through its de-duplicating setter. */
    method OnProtocolReport(to: VpnState, armed: bool)
      modifies this, proto
      ensures proto == old(proto) && View() == Report(old(View()), to, armed)
    {
      if proto != null {
        var emitted := proto.SetConnectionState(to);
        if emitted { SetConnectionState(to, armed); }
      }
    }

    method Stop(reports: seq<VpnState>)
      modifies this, proto
      ensures proto == old(proto) && View() == Reports(old(View()), reports)
    {
      for i := 0 to |reports|
        invariant proto == old(proto)
        invariant Reports(View(), reports[i..]) == Reports(old(View()), reports)
      {
        OnProtocolReport(reports[i], false);
        assert reports[i..][1..] == reports[i + 1..];
      }
    }

    method Connect(stopReports: seq<VpnState>, made: bool)
      modifies this, proto
      ensures View() == Step(old(View()), ConnectToVpn(stopReports, made))
      ensures fresh({proto} - {old(proto)} - {null})
    {
      SetConnectionState(Connecting, false);
      Stop(stopReports);
      proto := null;
      if made {
        proto := new VpnProtocol();
      } else {
        SetConnectionState(Error, false);
      }
    }

    method ReconnectToVpn(stopReports: seq<VpnState>)
      modifies this, proto
      ensures proto == old(proto) && View() == Step(old(View()), Reconnect(stopReports))
    {
      if proto == null || conn != Connected { return; }
      SetConnectionState(Reconnecting, false);
      Stop(stopReports);
    }

    method DisconnectFromVpn(stopReports: seq<VpnState>)
      modifies this, proto
      ensures proto == null && View() == Step(old(View()), Disconnect(stopReports))
    {
      if proto == null {
        SetConnectionState(Disconnected, false);
        return;
      }
      SetConnectionState(Disconnecting, false);
      Stop(stopReports);
      proto := null;
    }

    method RefreshSitesRoutes(ipc: bool)
      modifies this
      ensures proto == old(proto) && View() == Refresh(old(View()), ipc)
    {
      if conn != Connected || proto == null { return; }
      if pending > 0 { return; }
      BeginCycle();
      ResolveSites(ipc);
    }

    method BeginCycle()
      modifies this`cycle, this`asked, this`answered
      ensures View() == Begin(old(View()))
    {
      cycle, asked, answered := cycle + 1, sites, map[];
    }

    method ResolveSites(ipc: bool)
      modifies this
      ensures proto == old(proto) && View() == Resolve(old(View()), ipc)
    {
      var subnets, domains := SplitKeys(asked);
      if domains == {} {
        resolved := {};
        ApplySplitRefreshDelta(subnets, ipc);
      } else {
        LaunchLookups(domains);
        resolved := subnets;
        pending := |domains|;
      }
    }

    method LaunchLookups(domains: set<string>)
      requires domains == Domains(asked)
      modifies this`lookups
      ensures View() == old(View()).(lookups := old(lookups) + Launched(old(View())))
    {
      var rest := domains;
      while rest != {}
        invariant rest <= domains
        invariant lookups == old(lookups) + (set d | d in domains - rest :: Lookup(gen, cycle, d, asked[d]))
        decreases rest
      {
        var domain :| domain in rest;
        lookups := lookups + {Lookup(gen, cycle, domain, asked[domain])};
        assert domains - (rest - {domain}) == (domains - rest) + {domain};
        rest := rest - {domain};
      }
      assert domains - rest == domains;
    }

    method ApplySplitRefreshDelta(all: set<string>, ipc: bool)
      modifies this
      ensures proto == old(proto) && View() == ApplyDelta(old(View()), all, ipc)
    {
      if conn != Connected { return; }
      var added := Missing(all, installed);
      var removed := Missing(installed, all);
      installed := all;
      if added == {} && removed == {} { assert Patch(table, old(installed), all) == table; return; }
      if ipc {
        if added != {} { table := table + added; }
        if removed != {} { table := table - removed; }
      }
    }

    /** The connect-time installation: subnets as they are, and each domain's last known address. */
    method AddSitesRoutes(ipc: bool)
      modifies this
      ensures proto == old(proto) && View() == AddSites(old(View()), ipc)
    {
      var ips := InitialRoutes(sites);
      installed := ips;
      if ipc { table := table + ips; }
    }

    /** The callback of the connect-time resolution of one site. */
    method OnSiteResolved(site: string, ip: string, known: set<string>, ipc: bool)
      modifies this
      ensures proto == old(proto) && View() == OnSiteAnswer(old(View()), site, ip, known, ipc)
    {
      if ip in known { return; }
      if ipc { table := table + {ip}; }
      sites := sites[site := ip];
      installed := installed + {ip};
    }

    /** One event of the connection's thread. */
    method Handle(e: Event)
      requires Enabled(View(), e)
      modifies this, proto
      ensures View() == Step(old(View()), e)
      ensures proto == old(proto) || proto == null || fresh(proto)
    {
      match e
      case ProtocolReport(to, armed) => OnProtocolReport(to, armed);
      case ConnectToVpn(rs, made) => Connect(rs, made);
      case StartFailed => SetConnectionState(Error, false);
      case Reconnect(rs) => ReconnectToVpn(rs);
      case Disconnect(rs) => DisconnectFromVpn(rs);
      case Shot(g, ipc) => OnFirstShot(g, ipc);
      case Tick(ipc) => RefreshSitesRoutes(ipc);
      case Answer(l, answer, ipc) =>
        var addresses := if answer.Some? then [V6, V4(answer.value)] else [V6];
        OnLookupDone(l, addresses, ipc);
      case InstallSites(ipc) => AddSitesRoutes(ipc);
      case SiteAnswer(site, ip, known, ipc) => OnSiteResolved(site, ip, known, ipc);
      case EditSites(edited) => sites := edited;
      case ClearSavedRoutes => table := {};
    }

    /** Any run of the connection object: it takes the steps of the specification, so the refresh
        bookkeeping holds whenever the event loop is idle. */
    method Serve(es: seq<Event>)
      requires Inv(View()) && Runs(View(), es)
      modifies this, proto
      ensures View() == Run(old(View()), es) && Inv(View())
    {
      for i := 0 to |es|
        invariant proto == old(proto) || proto == null || fresh(proto)
        invariant Inv(View()) && Runs(View(), es[i..]) && Run(View(), es[i..]) == Run(old(View()), es)
      {
        assert es[i..][0] == es[i] && es[i..][1..] == es[i + 1..];
        StepInv(View(), es[i]);
        Handle(es[i]);
      }
      assert es[|es|..] == [];
    }

    method OnFirstShot(g: nat, ipc: bool)
      requires g in shots
      modifies this
      ensures proto == old(proto) && View() == OnShot(old(View()), g, ipc)
    {
      shots := shots - multiset{g};
      ghost var s1 := View();
      assert s1 == old(View()).(shots := old(shots) - multiset{g});
      if g != gen || conn != Connected { return; }
      RefreshSitesRoutes(ipc);
      timer := true;
    }

    /** The resolver's callback; an address's text is never empty. */
    method OnLookupDone(l: Lookup, addresses: seq<Address<string>>, ipc: bool)
      requires l in lookups
      requires forall a :: a in addresses && a.V4? ==> a.value != ""
      modifies this
      ensures proto == old(proto) && View() == OnAnswer(old(View()), l, FirstV4(addresses), ipc)
    {
      lookups := lookups - {l};
      if l.gen != gen || conn != Connected { return; }
      var ip := PickV4(addresses);
      Absorb(l, ip);
      SettleCycle(ipc);
    }

    method Absorb(l: Lookup, ip: Option<string>)
      modifies this
      ensures proto == old(proto) && View() == Absorbed(old(View()), l, ip)
    {
      if ip.Some? {
        resolved := resolved + {ip.value};
        sites := sites[l.domain := ip.value];
      } else if CheckIpSubnetFormat(l.lastKnown) {
        resolved := resolved + {l.lastKnown};
      }
      assert resolved == old(resolved) + Kept(ip, l.lastKnown);
      answered := answered[l.domain := ip];
      pending := pending - 1;
    }

    method SettleCycle(ipc: bool)
      modifies this
      ensures proto == old(proto) && View() == Settle(old(View()), ipc)
    {
      if pending == 0 {
        var all := resolved;
        resolved := {};
        ApplySplitRefreshDelta(all, ipc);
      }
    }
  }

  /** The key loop of refreshSitesRoutes: subnets are used as they are, the rest re-resolved. */
  method SplitKeys(sites: Sites) returns (subnets: set<string>, domains: set<string>)
    ensures subnets == Subnets(sites) && domains == Domains(sites)
  {
    subnets, domains := {}, {};
    var rest := sites.Keys;
    while rest != {}
      invariant rest <= sites.Keys
      invariant subnets == Subnets(sites) - rest && domains == Domains(sites) - rest
      decreases rest
    {
      var key :| key in rest;
      if CheckIpSubnetFormat(key) { subnets := subnets + {key}; } else { domains := domains + {key}; }
      rest := rest - {key};
    }
  }

  /** The key loop of addSitesRoutes. */
  method InitialRoutes(sites: Sites) returns (ips: set<string>)
    ensures ips == Initial(sites)
  {
    ips := {};
    var rest := sites.Keys;
    while rest != {}
      invariant rest <= sites.Keys
      invariant forall ip :: ip in ips <==> (ip in Subnets(sites) && ip !in rest) || KnownAddress(sites, rest, ip)
      decreases rest
    {
      var key :| key in rest;
      if CheckIpSubnetFormat(key) {
        ips := ips + {key};
      } else if CheckIpSubnetFormat(sites[key]) {
        ips := ips + {sites[key]};
      }
      rest := rest - {key};
    }
  }

  /** Some domain outside `rest` has the valid last known address `ip`. */
  ghost predicate KnownAddress(sites: Sites, rest: set<string>, ip: string)
  {
    CheckIpSubnetFormat(ip) && exists d :: d in Domains(sites) && d !in rest && sites[d] == ip
  }

  /** The two collecting loops of applySplitRefreshDelta. */
  method Missing(from: set<string>, other: set<string>) returns (list: set<string>)
    ensures list == from - other
  {
    list := {};
    var rest := from;
    while rest != {}
      invariant rest <= from && list == (from - rest) - other
      decreases rest
    {
      var ip :| ip in rest;
      if ip !in other { list := list + {ip}; }
      rest := rest - {ip};
    }
  }
}
