/** The split-tunnel refresh of VpnConnection as a step system: connection-state
    notifications, the one-shot and periodic timers, DNS callbacks and route deltas
    interleave freely; each event below runs to completion on the connection's thread. */
module SplitRefreshSpec {
  import opened Prelude
  import opened Ipv4

  datatype VpnState =
    | Unknown | Disconnected | Preparing | Connecting | Connected | Disconnecting | Reconnecting | Error

  /** A DNS lookup in flight with what its callback captured. `cycle` numbers the
      refresh that launched it. */
  datatype Lookup = Lookup(gen: nat, cycle: nat, domain: string, lastKnown: string)

  type Sites = map<string, string>
  type Answers = map<string, Option<string>>

  /** `proto` is the protocol's own state (None: no protocol object). `shots` holds the
      generations captured by pending one-shot timers. `table` is the split part of the
      kernel's route table. `cycle`, `asked` and `answered` record the latest refresh. */
  datatype State = State(
    conn: VpnState, proto: Option<VpnState>,
    timer: bool, gen: nat, pending: int,
    resolved: set<string>, installed: set<string>,
    sites: Sites, shots: multiset<nat>, lookups: set<Lookup>, table: set<string>,
    cycle: nat, asked: Sites, answered: Answers)

  // ---- what one refresh should compute, independently of callback order ----

  function Subnets(sites: Sites): set<string> { set k | k in sites && CheckIpSubnetFormat(k) }

  function Domains(sites: Sites): set<string> { set k | k in sites && !CheckIpSubnetFormat(k) }

  /** The route a domain contributes: its fresh address, else its last known valid one. */
  function Kept(answer: Option<string>, lastKnown: string): set<string>
  {
    if answer.Some? then {answer.value}
    else if CheckIpSubnetFormat(lastKnown) then {lastKnown} else {}
  }

  /** The routes wanted once the domains in `answers` have been answered. */
  ghost predicate Wanted(sites: Sites, answers: Answers, route: string)
  {
    || route in Subnets(sites)
    || exists d :: d in answers && d in sites && route in Kept(answers[d], sites[d])
  }

  ghost predicate IsFresh(sites: Sites, answers: Answers, routes: set<string>)
  {
    forall r :: r in routes <==> Wanted(sites, answers, r)
  }

  // ---- steps ----

  /** VpnConnection::onConnectionStateChanged. `armed`: the service answered, the container
      routes through tun2socks and site splitting is on in one of its two modes. */
  function OnStateChanged(s: State, to: VpnState, armed: bool): State
  {
    if to != Connected then
      s.(timer := false, gen := s.gen + 1, pending := 0, resolved := {}, installed := {})
    else if armed then
      s.(gen := s.gen + 1, shots := s.shots + multiset{s.gen + 1})
    else s
  }

  /** VpnConnection::setConnectionState. */
  function SetState(s: State, to: VpnState, armed: bool): State
  {
    var s1 := OnStateChanged(s, to, armed);
    if to == Disconnected && s1.conn == Reconnecting then s1 else s1.(conn := to)
  }

  /** VpnProtocol::setConnectionState: does this report change the protocol's state? */
  predicate Emits(from: VpnState, to: VpnState)
  {
    from != to && !(from == Disconnected && to == Disconnecting)
  }

  function Report(s: State, to: VpnState, armed: bool): State
  {
    if s.proto.Some? && Emits(s.proto.value, to)
    then SetState(s.(proto := Some(to)), to, armed)
    else s
  }

  function Reports(s: State, tos: seq<VpnState>): State
    decreases |tos|
  {
    if tos == [] then s else Reports(Report(s, tos[0], false), tos[1..])
  }

  /** VpnConnection::applySplitRefreshDelta. */
  function ApplyDelta(s: State, wanted: set<string>, ipc: bool): State
  {
    if s.conn != Connected then s
    else s.(installed := wanted, table := if ipc then Patch(s.table, s.installed, wanted) else s.table)
  }

  /** routeAddList(added) followed by routeDeleteList(removed). */
  function Patch<T(==)>(table: set<T>, installed: set<T>, wanted: set<T>): set<T>
  {
    (table + (wanted - installed)) - (installed - wanted)
  }

  /** VpnConnection::refreshSitesRoutes. */
  function Refresh(s: State, ipc: bool): State
  {
    if s.conn != Connected || s.proto.None? || s.pending > 0 then s
    else Resolve(Begin(s), ipc)
  }

  function Begin(s: State): State { s.(cycle := s.cycle + 1, asked := s.sites, answered := map[]) }

  /** The rest of refreshSitesRoutes, once a cycle has begun with the current site list. */
  function Resolve(s: State, ipc: bool): State
  {
    if Domains(s.asked) == {} then ApplyDelta(s.(resolved := {}), Subnets(s.asked), ipc)
    else s.(resolved := Subnets(s.asked), pending := |Domains(s.asked)|, lookups := s.lookups + Launched(s))
  }

  /** The lookups one refresh puts in flight. */
  function Launched(s: State): set<Lookup> { LookupsFor(s.gen, s.cycle, s.asked) }

  function LookupsFor(gen: nat, cycle: nat, asked: Sites): set<Lookup>
  {
    set d | d in Domains(asked) :: Lookup(gen, cycle, d, asked[d])
  }

  /** The one-shot timer armed on Connected. */
  function OnShot(s: State, g: nat, ipc: bool): State
  {
    var s1 := s.(shots := s.shots - multiset{g});
    if g != s.gen || s.conn != Connected then s1 else Refresh(s1, ipc).(timer := true)
  }

  predicate Current(s: State, l: Lookup) { l.gen == s.gen && s.conn == Connected }

  /** The DNS callback. `answer` is the first IPv4 address of the reply, if any. */
  function OnAnswer(s: State, l: Lookup, answer: Option<string>, ipc: bool): State
  {
    var s1 := s.(lookups := s.lookups - {l});
    if !Current(s1, l) then s1
    else Settle(Absorbed(s1, l, answer), ipc)
  }

  /** One current answer is recorded. */
  function Absorbed(s: State, l: Lookup, answer: Option<string>): State
  {
    s.(resolved := s.resolved + Kept(answer, l.lastKnown),
       sites := if answer.Some? then s.sites[l.domain := answer.value] else s.sites,
       answered := s.answered[l.domain := answer],
       pending := s.pending - 1)
  }

  /** The end of the callback: the last answer applies the accumulated set. */
  function Settle(s: State, ipc: bool): State
  {
    if s.pending == 0 then ApplyDelta(s.(resolved := {}), s.resolved, ipc) else s
  }

  /** VpnConnection::addSitesRoutes, the installation made at connect time. */
  function AddSites(s: State, ipc: bool): State
  {
    var ips := Initial(s.sites);
    s.(installed := ips, table := if ipc then s.table + ips else s.table)
  }

  function Initial(sites: Sites): set<string>
  {
    Subnets(sites) + set d | d in Domains(sites) && CheckIpSubnetFormat(sites[d]) :: sites[d]
  }

  /** The connect-time resolution of one site: unguarded by the generation. */
  function OnSiteAnswer(s: State, site: string, ip: string, known: set<string>, ipc: bool): State
  {
    if ip in known then s
    else s.(installed := s.installed + {ip}, sites := s.sites[site := ip],
            table := if ipc then s.table + {ip} else s.table)
  }

  datatype Event =
    | ProtocolReport(to: VpnState, armed: bool)
    | ConnectToVpn(stopReports: seq<VpnState>, made: bool)
    | StartFailed
    | Reconnect(stopReports: seq<VpnState>)
    | Disconnect(stopReports: seq<VpnState>)
    | Shot(g: nat, ipc: bool)
    | Tick(ipc: bool)
    | Answer(l: Lookup, answer: Option<string>, ipc: bool)
    | InstallSites(ipc: bool)
    | SiteAnswer(site: string, ip: string, known: set<string>, ipc: bool)
    | EditSites(edited: Sites)
    | ClearSavedRoutes

  /** When an event can happen. Stopping a protocol never makes it report Connected. */
  predicate Enabled(s: State, e: Event)
  {
    match e
    case ConnectToVpn(rs, _) => Connected !in rs
    case Shot(g, _) => g in s.shots
    case Tick(_) => s.timer
    case Answer(l, answer, _) => l in s.lookups && (answer.Some? ==> answer.value != "")
    case _ => true
  }

  function Step(s: State, e: Event): State
  {
    match e
    case ProtocolReport(to, armed) => Report(s, to, armed)
    case ConnectToVpn(rs, made) =>
      var s1 := Reports(SetState(s, Connecting, false), rs).(proto := if made then Some(Unknown) else None);
      if made then s1 else SetState(s1, Error, false)
    case StartFailed => SetState(s, Error, false)
    case Reconnect(rs) =>
      if s.proto.None? || s.conn != Connected then s else Reports(SetState(s, Reconnecting, false), rs)
    case Disconnect(rs) =>
      if s.proto.None? then SetState(s, Disconnected, false)
      else Reports(SetState(s, Disconnecting, false), rs).(proto := None)
    case Shot(g, ipc) => OnShot(s, g, ipc)
    case Tick(ipc) => Refresh(s, ipc)
    case Answer(l, answer, ipc) => OnAnswer(s, l, answer, ipc)
    case InstallSites(ipc) => AddSites(s, ipc)
    case SiteAnswer(site, ip, known, ipc) => OnSiteAnswer(s, site, ip, known, ipc)
    case EditSites(edited) => s.(sites := edited)
    case ClearSavedRoutes => s.(table := {})
  }

  predicate Runs(s: State, es: seq<Event>)
    decreases |es|
  {
    es == [] || (Enabled(s, es[0]) && Runs(Step(s, es[0]), es[1..]))
  }

  function Run(s: State, es: seq<Event>): State
    decreases |es|
  {
    if es == [] then s else Run(Step(s, es[0]), es[1..])
  }

  /** A freshly constructed VpnConnection; the constructor leaves `conn` uninitialised. */
  ghost predicate Initially(s: State)
  {
    s.proto.None? && !s.timer && s.pending == 0 && s.resolved == {} && s.lookups == {} && s.shots == multiset{}
  }

  // ---- the invariant ----

  function Outstanding(s: State): set<Lookup> { OfGeneration(s.lookups, s.gen) }

  function OfGeneration(lookups: set<Lookup>, gen: nat): set<Lookup> { set l | l in lookups && l.gen == gen }

  ghost predicate Inv(s: State)
  {
    Bookkeeping(s) && (s.conn == Connected && s.proto.Some? ==> s.proto == Some(Connected))
  }

  /** The part of the invariant that does not look at the protocol. */
  ghost predicate Bookkeeping(s: State)
  {
    && (s.timer ==> s.conn == Connected)
    && (forall g :: g in s.shots ==> g <= s.gen)
    && (forall l :: l in s.lookups ==> l.gen <= s.gen)
    && s.pending == |Outstanding(s)|
    && (s.pending == 0 ==> s.resolved == {})
    && (s.pending > 0 ==> InCycle(s))
  }

  /** While lookups are outstanding they all belong to the latest refresh, ask for exactly
      the domains not answered yet, and `resolved` is fresh for the answers so far. */
  ghost predicate InCycle(s: State)
  {
    && s.conn == Connected
    && (forall l :: l in Outstanding(s) <==> l in Launched(s) && l.domain !in s.answered)
    && s.answered.Keys <= Domains(s.asked)
    && IsFresh(s.asked, s.answered, s.resolved)
  }

  lemma OutstandingEmpty(s: State)
    requires forall l :: l in s.lookups ==> l.gen < s.gen
    ensures Outstanding(s) == {}
  {}

  /** A notification keeps the bookkeeping unless it repeats Connected. */
  lemma SetStateInv(s: State, to: VpnState, armed: bool)
    requires Bookkeeping(s)
    requires to == Connected ==> s.conn != Connected
    ensures Bookkeeping(SetState(s, to, armed))
    ensures to != Connected ==> SetState(s, to, armed).conn != Connected
  {
    var s' := SetState(s, to, armed);
    if to != Connected || armed {
      OutstandingEmpty(s');
    }
  }

  /** The protocol's de-duplication separates two Connected notifications by another one. */
  lemma ReportInv(s: State, to: VpnState, armed: bool)
    requires Inv(s)
    ensures Inv(Report(s, to, armed))
    ensures to != Connected && s.conn != Connected ==> Report(s, to, armed).conn != Connected
  {
    if s.proto.Some? && Emits(s.proto.value, to) {
      SetStateInv(s.(proto := Some(to)), to, armed);
    }
  }

  lemma {:induction false} ReportsInv(s: State, tos: seq<VpnState>)
    requires Inv(s)
    ensures Inv(Reports(s, tos))
    ensures Connected !in tos && s.conn != Connected ==> Reports(s, tos).conn != Connected
    decreases |tos|
  {
    if tos != [] {
      ReportInv(s, tos[0], false);
      ReportsInv(Report(s, tos[0], false), tos[1..]);
    }
  }

  /** A non-Connected notification from any state. */
  lemma LeaveInv(s: State, to: VpnState)
    requires Inv(s) && to != Connected
    ensures Inv(SetState(s, to, false)) && SetState(s, to, false).conn != Connected
  {
    SetStateInv(s, to, false);
  }

  lemma {:induction false} LaunchedSize(s: State, ds: set<string>)
    requires ds <= Domains(s.asked)
    ensures |set d | d in ds :: Lookup(s.gen, s.cycle, d, s.asked[d])| == |ds|
    decreases |ds|
  {
    if ds != {} {
      var x :| x in ds;
      LaunchedSize(s, ds - {x});
      var whole := set d | d in ds :: Lookup(s.gen, s.cycle, d, s.asked[d]);
      var less := set d | d in ds - {x} :: Lookup(s.gen, s.cycle, d, s.asked[d]);
      assert whole == less + {Lookup(s.gen, s.cycle, x, s.asked[x])};
    }
  }

  /** Launching from an idle state: the outstanding set becomes exactly the launched one. */
  lemma LaunchInv(s: State, ipc: bool)
    requires Inv(s) && s.conn == Connected && s.pending == 0 && s.answered == map[] && Domains(s.asked) != {}
    ensures Inv(Resolve(s, ipc))
  {
    var s' := Resolve(s, ipc);
    assert Launched(s') == Launched(s);
    assert forall l :: l in s.lookups ==> l !in Outstanding(s);
    assert Outstanding(s') == Launched(s');
    LaunchedSize(s', Domains(s'.asked));
    assert IsFresh(s'.asked, s'.answered, s'.resolved);
  }

  lemma ResolveInv(s: State, ipc: bool)
    requires Inv(s) && s.conn == Connected && s.pending == 0 && s.answered == map[]
    ensures Inv(Resolve(s, ipc)) && Resolve(s, ipc).conn == Connected
  {
    if Domains(s.asked) != {} {
      LaunchInv(s, ipc);
    } else {
      assert Outstanding(Resolve(s, ipc)) == Outstanding(s);
    }
  }

  lemma RefreshInv(s: State, ipc: bool)
    requires Inv(s)
    ensures Inv(Refresh(s, ipc)) && Refresh(s, ipc).conn == s.conn
  {
    if s.conn == Connected && s.proto.Some? && s.pending <= 0 {
      assert Outstanding(Begin(s)) == Outstanding(s);
      ResolveInv(Begin(s), ipc);
    }
  }

  lemma FreshGrows(s: State, l: Lookup, answer: Option<string>)
    requires IsFresh(s.asked, s.answered, s.resolved)
    requires l.domain in s.asked && l.lastKnown == s.asked[l.domain] && l.domain !in s.answered
    ensures IsFresh(s.asked, s.answered[l.domain := answer], s.resolved + Kept(answer, l.lastKnown))
  {
    var next := s.answered[l.domain := answer];
    forall r ensures Wanted(s.asked, next, r) <==> Wanted(s.asked, s.answered, r) || r in Kept(answer, l.lastKnown) {
      if Wanted(s.asked, s.answered, r) && r !in Subnets(s.asked) {
        var d :| d in s.answered && d in s.asked && r in Kept(s.answered[d], s.asked[d]);
        assert d in next && next[d] == s.answered[d];
      }
      if r in Kept(answer, l.lastKnown) {
        assert l.domain in next && r in Kept(next[l.domain], s.asked[l.domain]);
      }
    }
  }

  /** One current answer: `pending` drops with the outstanding set; the last one finds every
      domain answered and installs the fresh set. */
  lemma AnswerInv(s: State, l: Lookup, answer: Option<string>, ipc: bool)
    requires Inv(s) && l in s.lookups && Current(s, l)
    ensures Inv(OnAnswer(s, l, answer, ipc))
    ensures s.pending == 1 ==>
              var s' := OnAnswer(s, l, answer, ipc);
              s'.answered.Keys == Domains(s.asked) && IsFresh(s.asked, s'.answered, s'.installed)
  {
    AbsorbedInCycle(s, l, answer);
    var s2 := Absorbed(s.(lookups := s.lookups - {l}), l, answer);
    if s2.pending == 0 { AllAnswered(s2); }
    assert Outstanding(OnAnswer(s, l, answer, ipc)) == Outstanding(s2);
  }

  lemma AbsorbedInCycle(s: State, l: Lookup, answer: Option<string>)
    requires Inv(s) && l in s.lookups && Current(s, l)
    ensures var s2 := Absorbed(s.(lookups := s.lookups - {l}), l, answer);
            InCycle(s2) && s2.pending == |Outstanding(s2)| && s2.lookups <= s.lookups
  {
    var s2 := Absorbed(s.(lookups := s.lookups - {l}), l, answer);
    assert l in Outstanding(s) && InCycle(s);
    assert l in Launched(s);
    FreshGrows(s, l, answer);
    assert Outstanding(s2) == Outstanding(s) - {l};
  }

  lemma AllAnswered(s: State)
    requires InCycle(s) && Outstanding(s) == {}
    ensures s.answered.Keys == Domains(s.asked)
  {
    forall d | d in Domains(s.asked) ensures d in s.answered {
      assert Lookup(s.gen, s.cycle, d, s.asked[d]) in Launched(s);
    }
  }

  /** A callback of another generation, or outside Connected, only leaves the in-flight set. */
  lemma StaleAnswer(s: State, l: Lookup, answer: Option<string>, ipc: bool)
    requires Inv(s) && l in s.lookups && !Current(s, l)
    ensures OnAnswer(s, l, answer, ipc) == s.(lookups := s.lookups - {l})
    ensures Inv(OnAnswer(s, l, answer, ipc))
  {
    var s' := OnAnswer(s, l, answer, ipc);
    assert Outstanding(s') == Outstanding(s);
    assert Launched(s') == Launched(s);
  }

  lemma ConnectInv(s: State, rs: seq<VpnState>, made: bool)
    requires Inv(s) && Connected !in rs
    ensures Inv(Step(s, ConnectToVpn(rs, made)))
  {
    LeaveInv(s, Connecting);
    var s0 := SetState(s, Connecting, false);
    ReportsInv(s0, rs);
    var s1 := Reports(s0, rs);
    if !made { LeaveInv(s1.(proto := None), Error); }
  }

  lemma DisconnectInv(s: State, rs: seq<VpnState>)
    requires Inv(s)
    ensures Inv(Step(s, Disconnect(rs)))
  {
    if s.proto.None? {
      LeaveInv(s, Disconnected);
    } else {
      LeaveInv(s, Disconnecting);
      var s0 := SetState(s, Disconnecting, false);
      ReportsInv(s0, rs);
    }
  }

  lemma ReconnectInv(s: State, rs: seq<VpnState>)
    requires Inv(s)
    ensures Inv(Step(s, Reconnect(rs)))
  {
    LeaveInv(s, Reconnecting);
    ReportsInv(SetState(s, Reconnecting, false), rs);
  }

  lemma ShotInv(s: State, g: nat, ipc: bool)
    requires Inv(s)
    ensures Inv(OnShot(s, g, ipc))
  {
    var s1 := s.(shots := s.shots - multiset{g});
    SameCycle(s, s1);
    if g == s.gen && s.conn == Connected {
      RefreshInv(s1, ipc);
      SameCycle(Refresh(s1, ipc), Refresh(s1, ipc).(timer := true));
    }
  }

  lemma StepInv(s: State, e: Event)
    requires Inv(s) && Enabled(s, e)
    ensures Inv(Step(s, e))
  {
    match e {
      case ProtocolReport(to, armed) => ReportInv(s, to, armed);
      case ConnectToVpn(rs, made) => ConnectInv(s, rs, made);
      case StartFailed => LeaveInv(s, Error);
      case Reconnect(rs) => ReconnectInv(s, rs);
      case Disconnect(rs) => DisconnectInv(s, rs);
      case Shot(g, ipc) => ShotInv(s, g, ipc);
      case Tick(ipc) => RefreshInv(s, ipc);
      case Answer(l, answer, ipc) =>
        if Current(s, l) { AnswerInv(s, l, answer, ipc); } else { StaleAnswer(s, l, answer, ipc); }
      case _ => SameCycle(s, Step(s, e));
    }
  }

  /** Steps that touch none of the refresh bookkeeping. */
  lemma SameCycle(s: State, s': State)
    requires Inv(s)
    requires s' == s.(timer := s'.timer, shots := s'.shots, sites := s'.sites, installed := s'.installed, table := s'.table)
    requires s'.timer ==> s.conn == Connected
    requires s'.shots <= s.shots
    ensures Inv(s')
  {
    assert Outstanding(s') == Outstanding(s);
    assert Launched(s') == Launched(s);
  }

  /** In every interleaving the pending count is the number of outstanding lookups of the
      current generation, they form one refresh, and the timer runs only while Connected. */
  lemma {:induction false} RunInv(s: State, es: seq<Event>)
    requires Inv(s) && Runs(s, es)
    ensures Inv(Run(s, es))
    decreases |es|
  {
    if es != [] {
      StepInv(s, es[0]);
      RunInv(Step(s, es[0]), es[1..]);
    }
  }

  lemma InitialInv(s: State)
    requires Initially(s)
    ensures Inv(s)
  {
    assert Outstanding(s) == {};
  }

  lemma EveryRun(s: State, es: seq<Event>)
    requires Initially(s) && Runs(s, es)
    ensures Inv(Run(s, es))
  {
    InitialInv(s);
    RunInv(s, es);
  }

  /** Why de-duplication matters: an armed Connected repeated while Connected breaks the
      invariant exactly when a refresh is in flight; its lookups turn stale and refreshing stalls. */
  lemma RepeatedConnected(s: State)
    requires Inv(s) && s.conn == Connected
    ensures Inv(SetState(s, Connected, true)) <==> s.pending == 0
    ensures s.pending > 0 ==> Stuck(SetState(s, Connected, true))
  {
    var s' := SetState(s, Connected, true);
    OutstandingEmpty(s');
  }

  /** Answers are counted as pending, but none of those in flight will be taken. */
  ghost predicate Stuck(s: State) { s.pending > 0 && forall l :: l in s.lookups ==> l.gen < s.gen }

  /** Until the connection state changes no timer, callback or edit ends the stall: no refresh
      begins and the pending count never moves. */
  lemma {:induction false} StuckForever(s: State, es: seq<Event>)
    requires Stuck(s) && Runs(s, es) && forall e :: e in es ==> InSession(e)
    ensures Stuck(Run(s, es)) && Run(s, es).pending == s.pending && Run(s, es).cycle == s.cycle
    decreases |es|
  {
    if es != [] {
      assert InSession(es[0]);
      StuckForever(Step(s, es[0]), es[1..]);
    }
  }

  // ---- routes ----

  /** Steps inside one established connection, with the service answering. */
  predicate InSession(e: Event)
  {
    match e
    case Shot(_, ipc) => ipc
    case Tick(ipc) => ipc
    case Answer(_, _, ipc) => ipc
    case SiteAnswer(_, _, _, ipc) => ipc
    case EditSites(_) => true
    case _ => false
  }

  /** However many refresh cycles run, patching keeps the table equal to the installed set. */
  lemma {:induction false} SessionTable(s: State, es: seq<Event>)
    requires s.table == s.installed && Runs(s, es) && forall e :: e in es ==> InSession(e)
    ensures Run(s, es).table == Run(s, es).installed
    decreases |es|
  {
    if es != [] {
      assert InSession(es[0]);
      SessionStep(s, es[0]);
      SessionTable(Step(s, es[0]), es[1..]);
    }
  }

  /** The connect-time installation into an empty table starts such a session. */
  lemma SessionFromConnect(s: State, es: seq<Event>)
    requires s.table == {} && Runs(AddSites(s, true), es) && forall e :: e in es ==> InSession(e)
    ensures Run(AddSites(s, true), es).table == Run(AddSites(s, true), es).installed
  {
    SessionTable(AddSites(s, true), es);
  }

  lemma SessionStep(s: State, e: Event)
    requires s.table == s.installed && InSession(e)
    ensures Step(s, e).table == Step(s, e).installed
  {
    match e {
      case Answer(l, answer, ipc) => assert forall w :: Patch(s.table, s.installed, w) == w;
      case Shot(g, ipc) => assert forall w :: Patch(s.table, s.installed, w) == w;
      case Tick(ipc) => assert forall w :: Patch(s.table, s.installed, w) == w;
      case _ =>
    }
  }

  /** A finished cycle leaves in the table exactly what a full reinstall of the freshly
      resolved set would: subnets, each domain's new address, and for a domain that failed
      its last known valid address. */
  lemma CycleRefinesReinstall(s: State, es: seq<Event>, l: Lookup, answer: Option<string>)
    requires Inv(s) && s.table == s.installed && Runs(s, es) && forall e :: e in es ==> InSession(e)
    requires l in Run(s, es).lookups && Current(Run(s, es), l) && Run(s, es).pending == 1
    ensures var s' := OnAnswer(Run(s, es), l, answer, true);
            && s'.answered.Keys == Domains(s'.asked)
            && (forall r :: r in s'.table <==> Wanted(s'.asked, s'.answered, r))
            && (forall d :: d in Domains(s'.asked) && s'.answered[d].None? && CheckIpSubnetFormat(s'.asked[d]) ==>
                  s'.asked[d] in s'.table)
  {
    var s1 := Run(s, es);
    RunInv(s, es);
    SessionTable(s, es);
    AnswerInv(s1, l, answer, true);
    SessionStep(s1, Answer(l, answer, true));
    var s' := OnAnswer(s1, l, answer, true);
    forall d | d in Domains(s'.asked) && s'.answered[d].None? && CheckIpSubnetFormat(s'.asked[d])
      ensures s'.asked[d] in s'.table
    {
      assert s'.asked[d] in Kept(s'.answered[d], s'.asked[d]);
      assert Wanted(s'.asked, s'.answered, s'.asked[d]);
    }
  }

  /** A refresh of a list without domains ends at once, with exactly the listed subnets in the table. */
  lemma SubnetCycle(s: State, es: seq<Event>)
    requires s.table == s.installed && Runs(s, es) && forall e :: e in es ==> InSession(e)
    requires var s1 := Run(s, es);
             s1.conn == Connected && s1.proto.Some? && s1.pending <= 0 && Domains(s1.sites) == {}
    ensures var s1 := Run(s, es); var s' := Refresh(s1, true);
            && s'.table == s'.installed == Subnets(s1.sites) && s'.table == s1.sites.Keys
            && s'.pending == s1.pending && s'.lookups == s1.lookups
  {
    SessionTable(s, es);
    var s1 := Run(s, es);
    assert Patch(s1.table, s1.installed, Subnets(s1.sites)) == Subnets(s1.sites);
    forall k | k in s1.sites ensures k in Subnets(s1.sites) { assert k !in Domains(s1.sites); }
  }

  predicate Touches(e: Event, d: string)
  {
    match e
    case Answer(l, _, _) => l.domain == d
    case SiteAnswer(site, _, _, _) => site == d
    case EditSites(_) => true
    case _ => false
  }

  /** A resolved address stays the domain's last known one until that domain is answered again
      or the user edits the list, so the next refresh asks with it. */
  lemma {:induction false} Remembered(s: State, es: seq<Event>, d: string)
    requires Runs(s, es) && d in s.sites && forall e :: e in es ==> !Touches(e, d)
    ensures d in Run(s, es).sites && Run(s, es).sites[d] == s.sites[d]
    decreases |es|
  {
    if es != [] {
      assert !Touches(es[0], d);
      StepSites(s, es[0], d);
      Remembered(Step(s, es[0]), es[1..], d);
    }
  }

  lemma StepSites(s: State, e: Event, d: string)
    requires d in s.sites && !Touches(e, d)
    ensures d in Step(s, e).sites && Step(s, e).sites[d] == s.sites[d]
  {
    match e {
      case ConnectToVpn(rs, made) => ConnectSites(s, rs, made);
      case Reconnect(rs) => ReconnectSites(s, rs);
      case Disconnect(rs) => DisconnectSites(s, rs);
      case Shot(g, ipc) => RefreshSites(s.(shots := s.shots - multiset{g}), ipc);
      case Tick(ipc) => RefreshSites(s, ipc);
      case Answer(l, answer, ipc) => AnswerSites(s, l, answer, ipc, d);
      case ProtocolReport(to, armed) => ReportKeepsSites(s, to, armed);
      case StartFailed => SetStateKeepsSites(s, Error, false);
      case _ =>
    }
  }

  /** Neither the site list nor the lookups in flight change; the generation may grow. */
  predicate KeepsSites(s: State, s': State) { s'.sites == s.sites && s'.lookups == s.lookups && s'.gen >= s.gen }

  lemma ConnectSites(s: State, rs: seq<VpnState>, made: bool)
    ensures KeepsSites(s, Step(s, ConnectToVpn(rs, made)))
  {
    ReportsSites(SetState(s, Connecting, false), rs);
  }

  lemma ReconnectSites(s: State, rs: seq<VpnState>)
    ensures KeepsSites(s, Step(s, Reconnect(rs)))
  {
    ReportsSites(SetState(s, Reconnecting, false), rs);
  }

  lemma DisconnectSites(s: State, rs: seq<VpnState>)
    ensures KeepsSites(s, Step(s, Disconnect(rs)))
  {
    ReportsSites(SetState(s, Disconnecting, false), rs);
  }

  lemma AnswerSites(s: State, l: Lookup, answer: Option<string>, ipc: bool, d: string)
    requires d in s.sites && l.domain != d
    ensures d in OnAnswer(s, l, answer, ipc).sites && OnAnswer(s, l, answer, ipc).sites[d] == s.sites[d]
  {}

  lemma RefreshSites(s: State, ipc: bool)
    ensures Refresh(s, ipc).sites == s.sites
  {}

  lemma {:induction false} ReportsSites(s: State, tos: seq<VpnState>)
    ensures KeepsSites(s, Reports(s, tos))
    decreases |tos|
  {
    if tos != [] { ReportsSites(Report(s, tos[0], false), tos[1..]); }
  }

  // ---- sites the user has removed ----

  /** Nothing that outlives this generation is still asking for `d`. */
  ghost predicate NoneFor(s: State, d: string)
  {
    d !in s.sites && forall l :: l in s.lookups && l.domain == d ==> l.gen < s.gen
  }

  /** The user does not list `d` again and no connect-time lookup answers for it. */
  ghost predicate Unprompted(e: Event, d: string)
  {
    match e
    case SiteAnswer(site, _, _, _) => site != d
    case EditSites(edited) => d !in edited
    case _ => true
  }

  lemma StaysRemoved(s: State, e: Event, d: string)
    requires NoneFor(s, d) && Enabled(s, e) && Unprompted(e, d)
    ensures NoneFor(Step(s, e), d)
  {
    match e {
      case ConnectToVpn(rs, made) => ConnectSites(s, rs, made);
      case Reconnect(rs) => ReconnectSites(s, rs);
      case Disconnect(rs) => DisconnectSites(s, rs);
      case Shot(g, ipc) => RefreshStaysRemoved(s.(shots := s.shots - multiset{g}), ipc, d);
      case Tick(ipc) => RefreshStaysRemoved(s, ipc, d);
      case Answer(l, answer, ipc) => AnswerStaysRemoved(s, l, answer, ipc, d);
      case ProtocolReport(to, armed) => ReportKeepsSites(s, to, armed);
      case StartFailed => SetStateKeepsSites(s, Error, false);
      case _ =>
    }
  }

  lemma ReportKeepsSites(s: State, to: VpnState, armed: bool)
    ensures KeepsSites(s, Report(s, to, armed))
  {
    SetStateKeepsSites(s.(proto := Some(to)), to, armed);
  }

  lemma SetStateKeepsSites(s: State, to: VpnState, armed: bool)
    ensures KeepsSites(s, SetState(s, to, armed))
  {
    assert KeepsSites(s, OnStateChanged(s, to, armed));
  }

  /** A refresh asks for the listed domains only. */
  lemma RefreshStaysRemoved(s: State, ipc: bool, d: string)
    requires NoneFor(s, d)
    ensures NoneFor(Refresh(s, ipc), d)
  {
    assert forall l :: l in Launched(Begin(s)) ==> l.domain in s.sites;
  }

  lemma AnswerStaysRemoved(s: State, l: Lookup, answer: Option<string>, ipc: bool, d: string)
    requires NoneFor(s, d) && l in s.lookups
    ensures NoneFor(OnAnswer(s, l, answer, ipc), d)
  {
    var s' := OnAnswer(s, l, answer, ipc);
    assert s'.gen == s.gen && s'.lookups == s.lookups - {l};
  }

  lemma {:induction false} RunStaysRemoved(s: State, es: seq<Event>, d: string)
    requires NoneFor(s, d) && Runs(s, es) && forall e :: e in es ==> Unprompted(e, d)
    ensures NoneFor(Run(s, es), d)
    decreases |es|
  {
    if es != [] {
      assert Unprompted(es[0], d);
      StaysRemoved(s, es[0], d);
      RunStaysRemoved(Step(s, es[0]), es[1..], d);
    }
  }

  /** A run that brings `d` back although nobody listed it again. */
  ghost predicate BringsBack(s: State, es: seq<Event>, d: string)
  {
    Runs(s, es) && (forall e :: e in es ==> Unprompted(e, d)) && d in Run(s, es).sites
  }

  /** A removed site can come back by itself exactly when the running refresh is still waiting for
      its answer: the answer is stored under the removed name. */
  lemma ResurrectedIff(s: State, d: string)
    requires Inv(s) && d !in s.sites
    ensures (exists es :: BringsBack(s, es, d)) <==> exists l :: l in Outstanding(s) && l.domain == d
  {
    if l :| l in Outstanding(s) && l.domain == d {
      AnsweredBack(s, l);
      assert BringsBack(s, [Answer(l, Some("0.0.0.0"), true)], d);
    } else {
      assert NoneFor(s, d);
      forall es | Runs(s, es) && forall e :: e in es ==> Unprompted(e, d) ensures !BringsBack(s, es, d) {
        RunStaysRemoved(s, es, d);
      }
    }
  }

  lemma AnsweredBack(s: State, l: Lookup)
    requires Inv(s) && l in Outstanding(s)
    ensures var es := [Answer(l, Some("0.0.0.0"), true)]; Runs(s, es) && l.domain in Run(s, es).sites
  {
    var e := Answer(l, Some("0.0.0.0"), true);
    assert s.conn == Connected && Current(s, l);
    assert l.domain in Step(s, e).sites;
    assert [e][1..] == [] && Runs(Step(s, e), []) && Run(Step(s, e), []) == Step(s, e);
    assert Run(s, [e]) == Run(Step(s, e), [e][1..]);
  }

  /** Where table and installed set disagree. */
  function Drift(s: State): set<string> { (s.table - s.installed) + (s.installed - s.table) }

  function Changed(s: State, wanted: set<string>): set<string> { (s.installed - wanted) + (wanted - s.installed) }

  /** A delta that reaches the service repairs the drift of every route it changes and of no
      other; one that does not (service down: the installed set moves on regardless) flips it. */
  lemma DeltaDrift(s: State, wanted: set<string>)
    requires s.conn == Connected
    ensures Drift(ApplyDelta(s, wanted, true)) == Drift(s) - Changed(s, wanted)
    ensures Drift(ApplyDelta(s, wanted, false)) == (Drift(s) - Changed(s, wanted)) + (Changed(s, wanted) - Drift(s))
    ensures Drift(s) == {} ==> (Drift(ApplyDelta(s, wanted, false)) == {} <==> wanted == s.installed)
  {
    if Drift(s) == {} {
      assert Drift(ApplyDelta(s, wanted, false)) == Changed(s, wanted);
      assert Changed(s, wanted) == {} <==> wanted == s.installed by {
        if Changed(s, wanted) == {} {
          assert forall x :: x in s.installed - wanted ==> x in Changed(s, wanted);
          assert forall x :: x in wanted - s.installed ==> x in Changed(s, wanted);
        }
      }
    }
  }

  // ---- the same delta seen by a kernel that keys routes by network, not by text ----

  ghost predicate AllWellFormed(xs: set<string>) { forall x :: x in xs ==> CheckIpSubnetFormat(x) }

  function Networks(xs: set<string>): set<Network>
    requires AllWellFormed(xs)
  {
    set x | x in xs :: NetworkOf(x)
  }

  /** The table after a delta, if it starts with the installed networks. */
  function PatchedNetworks(installed: set<string>, wanted: set<string>): set<Network>
    requires AllWellFormed(installed) && AllWellFormed(wanted)
  {
    (Networks(installed) + Networks(wanted - installed)) - Networks(installed - wanted)
  }

  /** With routes keyed by network the delta still installs exactly the wanted networks if and
      only if no removed entry names the network of a wanted one. */
  lemma DeltaByNetwork(installed: set<string>, wanted: set<string>)
    requires AllWellFormed(installed) && AllWellFormed(wanted)
    ensures PatchedNetworks(installed, wanted) == Networks(wanted)
            <==> forall a, b :: a in wanted && b in installed - wanted ==> NetworkOf(a) != NetworkOf(b)
  {
    var after := PatchedNetworks(installed, wanted);
    assert Networks(wanted) <= Networks(installed) + Networks(wanted - installed);
    if after == Networks(wanted) {
      forall a, b | a in wanted && b in installed - wanted ensures NetworkOf(a) != NetworkOf(b) {
        assert NetworkOf(a) in after;
        assert NetworkOf(b) in Networks(installed - wanted);
      }
    }
    if forall a, b :: a in wanted && b in installed - wanted ==> NetworkOf(a) != NetworkOf(b) {
      forall n | n in after ensures n in Networks(wanted) {
        if n in Networks(installed) {
          var x :| x in installed && NetworkOf(x) == n;
          assert x !in wanted ==> x in installed - wanted;
        }
      }
      assert after == Networks(wanted);
    }
  }

  /** Replacing `was` by `now` leaves no route at all. */
  ghost predicate DropsRoute(was: string, now: string)
  {
    CheckIpSubnetFormat(was) && CheckIpSubnetFormat(now) && PatchedNetworks({was}, {now}) == {}
  }

  /** Replacing one text of a network by another deletes the network's route. */
  lemma AliasDropsRoute(was: string, now: string)
    requires CheckIpSubnetFormat(was) && CheckIpSubnetFormat(now) && was != now && NetworkOf(was) == NetworkOf(now)
    ensures DropsRoute(was, now)
  {
    assert {now} - {was} == {now} && {was} - {now} == {was};
    assert Networks({was}) == {NetworkOf(was)};
    assert Networks({now}) == {NetworkOf(now)};
  }

  /** One failing family: a bare address and its /32 (a user drops the /32 entry while a domain
      resolves to the same host). */
  lemma HostDropsRoute(ip: string)
    requires '/' !in ip && ParseIpv4(ip).Some?
    ensures DropsRoute(ip + "/32", ip)
  {
    HostAlias(ip);
    AliasDropsRoute(ip + "/32", ip);
  }

  /** The other: two addresses of one subnet, written with the same prefix length. */
  lemma HostBitsDropRoute(ip: string, ip': string, digits: string, a: nat, a': nat, length: nat)
    requires '/' !in ip && '/' !in ip' && '/' !in digits && ip != ip'
    requires ParseIpv4(ip) == Some(a) && ParseIpv4(ip') == Some(a') && ParseDecimal(digits) == Some(length)
    requires length <= 32 && KeyOf(Subnet(a, length)) == KeyOf(Subnet(a', length))
    ensures DropsRoute(ip + "/" + digits, ip' + "/" + digits)
  {
    SameSlashNetwork(ip, ip', digits, a, a', length);
    AliasDropsRoute(ip + "/" + digits, ip' + "/" + digits);
  }

  /** Such as any two addresses of one /8: 10.0.0.1/8 and 10.0.0.0/8. */
  lemma SlashEightDropsRoute(a: nat, b: nat, c: nat, d: nat, b': nat, c': nat, d': nat)
    requires a < 256 && b < 256 && c < 256 && d < 256 && b' < 256 && c' < 256 && d' < 256
    requires b * 0x1_0000 + c * 0x100 + d != b' * 0x1_0000 + c' * 0x100 + d'
    ensures DropsRoute(Dotted(a, b, c, d) + "/" + ToDecimal(8), Dotted(a, b', c', d') + "/" + ToDecimal(8))
  {
    DottedParses(a, b, c, d);
    DottedParses(a, b', c', d');
    DottedHasNoSlash(a, b, c, d);
    DottedHasNoSlash(a, b', c', d');
    OneSlashEight(Dotted(a, b, c, d), Dotted(a, b', c', d'), ToDecimal(8), a, b * 0x1_0000 + c * 0x100 + d, b' * 0x1_0000 + c' * 0x100 + d');
  }

  lemma OneSlashEight(ip: string, ip': string, digits: string, a: nat, rest: nat, rest': nat)
    requires '/' !in ip && '/' !in ip' && digits == ToDecimal(8)
    requires rest < 0x100_0000 && rest' < 0x100_0000 && rest != rest'
    requires ParseIpv4(ip) == Some(a * 0x100_0000 + rest) && ParseIpv4(ip') == Some(a * 0x100_0000 + rest')
    ensures DropsRoute(ip + "/" + digits, ip' + "/" + digits)
  {
    ParseToDecimal(8);
    Low24(a, rest);
    Low24(a, rest');
    HostBitsDropRoute(ip, ip', digits, a * 0x100_0000 + rest, a * 0x100_0000 + rest', 8);
  }

  lemma Low24(a: nat, rest: nat)
    requires rest < 0x100_0000
    ensures Leading(a * 0x100_0000 + rest, 24) == a
  {
    assert Pow2(6) == 64;
    assert Pow2(12) == 64 * Pow2(6);
    assert Pow2(18) == 64 * Pow2(12);
    assert Pow2(24) == 64 * Pow2(18);
    LeadingInterval(a * 0x100_0000 + rest, 24, a);
  }
}
