/** What single steps and whole cycles of the split-tunnel refresh amount to, stated over the site list,
    the timers and the route table alone. */
module SplitRefreshCycle {
  import opened Prelude
  import opened Ipv4
  import opened SplitRefreshSpec

  /** Idle and allowed to refresh. */
  predicate Idle(s: State) { s.conn == Connected && s.proto.Some? && s.pending == 0 }

  // ---- entering and leaving a connection ----

  /** Leaving Connected forgets the session: no timer, no count, no routes booked, and everything in
      flight belongs to an older generation. */
  lemma LeavingForgets(s: State, to: VpnState, armed: bool)
    requires Inv(s) && to != Connected
    ensures var s' := SetState(s, to, armed);
            && !s'.timer && s'.pending == 0 && s'.resolved == {} && s'.installed == {}
            && (forall g :: g in s'.shots ==> g < s'.gen) && (forall l :: l in s'.lookups ==> l.gen < s'.gen)
            && s'.table == s.table && s'.sites == s.sites && s'.proto == s.proto
  {}

  /** A one-shot timer of another generation, or outside Connected, does nothing. */
  lemma StaleShot(s: State, g: nat, ipc: bool)
    requires g != s.gen || s.conn != Connected
    ensures OnShot(s, g, ipc) == s.(shots := s.shots - multiset{g})
  {}

  /** Reaching Connected with site splitting on arms exactly one timer of the new generation. */
  lemma ConnectedArms(s: State)
    requires Inv(s) && s.conn != Connected && s.proto.Some? && s.proto != Some(Connected)
    ensures var s1 := Report(s, Connected, true);
            && Inv(s1) && s1.conn == Connected && s1.proto == Some(Connected) && s1.pending == 0 && s1.sites == s.sites
            && s1.shots[s1.gen] == 1 && (forall g :: g in s1.shots && g != s1.gen ==> g < s1.gen)
  {
    ReportInv(s, Connected, true);
    assert s.shots[s.gen + 1] == 0;
    OutstandingEmpty(Report(s, Connected, true));
  }

  /** When that timer fires, the first refresh begins and the periodic timer runs. */
  lemma FirstRefresh(s: State, ipc: bool)
    requires Inv(s) && Idle(s) && s.shots[s.gen] == 1
    ensures var s' := OnShot(s, s.gen, ipc);
            && s'.timer && s'.cycle == s.cycle + 1 && s'.asked == s.sites && s.gen !in s'.shots
            && s' == Refresh(s.(shots := s.shots - multiset{s.gen}), ipc).(timer := true)
  {
    var s1 := s.(shots := s.shots - multiset{s.gen});
    assert Refresh(s1, ipc) == Resolve(Begin(s1), ipc);
  }

  /** The state after a notification is the notified one, except that Reconnecting survives
      Disconnected. */
  lemma NotifiedState(s: State, to: VpnState, armed: bool)
    ensures SetState(s, to, armed).conn == to <==> !(s.conn == Reconnecting && to == Disconnected)
    ensures s.conn == Reconnecting && to == Disconnected ==> SetState(s, to, armed).conn == Reconnecting
  {}

  /** A report changes nothing unless the protocol is there and in another state, and it is not the
      one from Disconnected back to Disconnecting. */
  lemma ReportedState(s: State, to: VpnState, armed: bool)
    ensures s.proto.Some? && s.proto.value != to && (s.proto.value != Disconnected || to != Disconnecting)
            ==> Report(s, to, armed).proto == Some(to)
                && (Report(s, to, armed).conn == to || (s.conn == Reconnecting == Report(s, to, armed).conn && to == Disconnected))
    ensures s.proto == Some(to) || s.proto.None? || (s.proto == Some(Disconnected) && to == Disconnecting)
            ==> Report(s, to, armed) == s
  {}

  /** A connect ends outside Connected with a protocol object in its initial state, or in Error
      without one; a silent stop leaves Connecting. */
  lemma ConnectEnds(s: State, rs: seq<VpnState>, made: bool)
    requires Inv(s) && Connected !in rs
    ensures var s' := Step(s, ConnectToVpn(rs, made));
            && s'.conn != Connected && !s'.timer && s'.installed == {}
            && (if made then s'.proto == Some(Unknown) else s'.proto == None && s'.conn == Error)
            && (made && rs == [] ==> s'.conn == Connecting)
  {
    var s0 := SetState(s, Connecting, false);
    LeaveInv(s, Connecting);
    ReportsInv(s0, rs);
    ReportsForget(s0, rs);
  }

  /** A disconnect always ends without a protocol object; a silent stop leaves Disconnecting, and
      without an object there was nothing to stop. */
  lemma DisconnectEnds(s: State, rs: seq<VpnState>)
    ensures var s' := Step(s, Disconnect(rs));
            && s'.proto == None
            && (s.proto.Some? && rs == [] ==> s'.conn == Disconnecting)
            && (s.proto.None? ==> s'.conn == if s.conn == Reconnecting then Reconnecting else Disconnected)
  {}

  /** A reconnect keeps the protocol object and, through its stop reporting Disconnected, the
      Reconnecting state; outside Connected it is ignored. */
  lemma ReconnectEnds(s: State)
    requires Inv(s) && s.proto.Some?
    ensures s.conn == Connected ==>
              var s' := Step(s, Reconnect([Disconnected]));
              s'.conn == Reconnecting && s'.proto == Some(Disconnected) && !s'.timer && s'.installed == {}
    ensures s.conn != Connected ==> Step(s, Reconnect([Disconnected])) == s
  {
    var s0 := SetState(s, Reconnecting, false);
    assert Reports(s0, [Disconnected]) == Reports(Report(s0, Disconnected, false), [Disconnected][1..]);
  }

  lemma {:induction false} ReportsForget(s: State, rs: seq<VpnState>)
    requires Connected !in rs && !s.timer && s.installed == {}
    ensures !Reports(s, rs).timer && Reports(s, rs).installed == {}
    decreases |rs|
  {
    if rs != [] { ReportsForget(Report(s, rs[0], false), rs[1..]); }
  }

  /** Outside Connected, without a protocol object or with answers outstanding, a refresh does nothing. */
  lemma RefreshIgnored(s: State, ipc: bool)
    requires Inv(s)
    ensures Refresh(s, ipc).cycle == s.cycle <==> s.conn != Connected || s.proto.None? || s.pending > 0
    ensures Refresh(s, ipc).cycle == s.cycle ==> Refresh(s, ipc) == s
  {}

  /** A connect-time answer outside the list captured at connect is installed, booked and stored; any
      other changes nothing. No guard protects it. */
  lemma SiteAnswerStored(s: State, site: string, ip: string, known: set<string>, ipc: bool)
    ensures var s' := OnSiteAnswer(s, site, ip, known, ipc);
            && (ip in known ==> s' == s)
            && (ip !in known ==> ip in s'.installed && site in s'.sites && s'.sites[site] == ip && (ipc ==> ip in s'.table))
            && (forall k :: k in s.sites && k != site ==> k in s'.sites && s'.sites[k] == s.sites[k])
            && s.installed <= s'.installed && s.table <= s'.table
  {}

  /** The connect-time installation: every listed subnet and every valid stored address of a domain,
      booked, and added to the table if the service answers. */
  lemma InstallsListed(s: State, ipc: bool)
    ensures var s' := AddSites(s, ipc);
            && (forall r :: r in s'.installed <==>
                  exists k :: k in s.sites && CheckIpSubnetFormat(r) && r == if CheckIpSubnetFormat(k) then k else s.sites[k])
            && (forall r :: r in s'.table <==> r in s.table || (ipc && r in s'.installed))
  {
    var s' := AddSites(s, ipc);
    forall r ensures r in s'.installed <==>
                       exists k :: k in s.sites && CheckIpSubnetFormat(r) && r == if CheckIpSubnetFormat(k) then k else s.sites[k]
    {
      if r in Subnets(s.sites) {
        assert r in s.sites && CheckIpSubnetFormat(r);
      } else if r in s'.installed {
        var d :| d in Domains(s.sites) && CheckIpSubnetFormat(s.sites[d]) && s.sites[d] == r;
        assert d in s.sites && !CheckIpSubnetFormat(d);
      }
      if k :| k in s.sites && CheckIpSubnetFormat(r) && r == if CheckIpSubnetFormat(k) then k else s.sites[k] {
        if CheckIpSubnetFormat(k) { assert r in Subnets(s.sites); } else { assert k in Domains(s.sites); }
      }
    }
  }

  // ---- a whole cycle, over the site list alone ----

  /** A refresh asks once for every listed key that is not a subnet, with the value stored for it,
      and counts them. */
  lemma RefreshAsks(s: State, ipc: bool)
    requires Inv(s) && Idle(s)
    ensures var s' := Refresh(s, ipc);
            && s'.pending == |Outstanding(s')| == |set d | d in s.sites && !CheckIpSubnetFormat(d)|
            && (forall l :: l in s'.lookups && l.gen == s'.gen <==>
                  l.gen == s.gen && l.cycle == s.cycle + 1 && l.domain in s.sites
                  && !CheckIpSubnetFormat(l.domain) && l.lastKnown == s.sites[l.domain])
            && (forall d :: d in s.sites && !CheckIpSubnetFormat(d) ==>
                  Lookup(s.gen, s.cycle + 1, d, s.sites[d]) in s'.lookups)
  {
    var s' := Refresh(s, ipc);
    RefreshOutstanding(s, ipc);
    assert Domains(s.sites) == set d | d in s.sites && !CheckIpSubnetFormat(d);
    AskedFor(s.gen, s.cycle + 1, s.sites);
    assert forall l :: l in s'.lookups && l.gen == s'.gen <==> l in Outstanding(s');
  }

  lemma AskedFor(gen: nat, cycle: nat, sites: Sites)
    ensures forall l :: l in LookupsFor(gen, cycle, sites) <==>
              l.gen == gen && l.cycle == cycle && l.domain in sites
              && !CheckIpSubnetFormat(l.domain) && l.lastKnown == sites[l.domain]
    ensures forall d :: d in sites && !CheckIpSubnetFormat(d) ==> Lookup(gen, cycle, d, sites[d]) in LookupsFor(gen, cycle, sites)
  {
    assert forall d :: d in sites && !CheckIpSubnetFormat(d) ==> d in Domains(sites);
  }

  lemma RefreshOutstanding(s: State, ipc: bool)
    requires Inv(s) && Idle(s)
    ensures var s' := Refresh(s, ipc);
            && s'.gen == s.gen && Outstanding(s') == LookupsFor(s.gen, s.cycle + 1, s.sites)
            && s'.pending == |Outstanding(s')| == |Domains(s.sites)|
  {
    var s1 := Begin(s);
    assert Outstanding(s1) == Outstanding(s) == {};
    ResolveOutstanding(s1, ipc);
  }

  lemma ResolveOutstanding(s: State, ipc: bool)
    requires s.conn == Connected && s.pending == 0 && Outstanding(s) == {}
    ensures var s' := Resolve(s, ipc);
            && s'.gen == s.gen && Outstanding(s') == Launched(s)
            && s'.pending == |Outstanding(s')| == |Domains(s.asked)|
  {
    var s' := Resolve(s, ipc);
    assert forall l :: l in s.lookups ==> l !in Outstanding(s);
    assert Outstanding(s') == Launched(s);
    LaunchedSize(s, Domains(s.asked));
  }

  /** The callbacks of a refresh, one per domain of `order`. */
  function Callbacks(s: State, order: seq<string>, answers: Answers): (es: seq<Event>)
    requires forall d :: d in order ==> d in s.asked && d in answers
    ensures |es| == |order|
  {
    seq(|order|, i requires 0 <= i < |order| =>
          Answer(Lookup(s.gen, s.cycle, order[i], s.asked[order[i]]), answers[order[i]], true))
  }

  /** The rest of a cycle: `order` lists the domains still to be answered. */
  ghost predicate Awaits(s: State, order: seq<string>, answers: Answers)
  {
    && Inv(s) && s.conn == Connected && s.table == s.installed
    && (forall i, j :: 0 <= i < j < |order| ==> order[i] != order[j])
    && (forall d :: d in order ==> d in answers && (answers[d].Some? ==> answers[d].value != ""))
    && (forall d :: d in order <==> d in Domains(s.asked) && d !in s.answered)
    && s.pending == |order|
  }

  lemma AwaitedCallback(s: State, order: seq<string>, answers: Answers)
    requires Awaits(s, order, answers) && order != []
    ensures order[0] in s.asked && order[0] in answers
    ensures var l := Lookup(s.gen, s.cycle, order[0], s.asked[order[0]]);
            && l in s.lookups && Current(s, l)
            && (|order| > 1 ==> Awaits(OnAnswer(s, l, answers[order[0]], true), order[1..], answers))
  {
    assert order[0] in order && order[0] in Domains(s.asked);
    var l, answer := Lookup(s.gen, s.cycle, order[0], s.asked[order[0]]), answers[order[0]];
    assert l in Launched(s) && l in Outstanding(s);
    AnswerInv(s, l, answer, true);
    if |order| > 1 {
      var s' := OnAnswer(s, l, answer, true);
      assert s'.answered == s.answered[order[0] := answer] && s'.asked == s.asked;
      forall d ensures d in order[1..] <==> d in order && d != order[0] {
        if d in order && d != order[0] {
          var i :| 0 <= i < |order| && order[i] == d;
          assert order[1..][i - 1] == d;
        }
      }
    }
  }

  /** What the run of callbacks leaves behind. */
  ghost predicate Finished(s: State, s': State, order: seq<string>, answers: Answers)
  {
    && s'.pending == 0 && s'.table == s'.installed && s'.asked == s.asked
    && s'.answered.Keys == Domains(s.asked)
    && IsFresh(s.asked, s'.answered, s'.installed)
    && (forall d :: d in s'.answered ==>
          if d in s.answered then s'.answered[d] == s.answered[d] else d in answers && s'.answered[d] == answers[d])
    && (forall d :: d in s'.sites <==> d in s.sites || (d in order && d in answers && answers[d].Some?))
    && (forall d :: d in s'.sites ==>
          if d in order && d in answers && answers[d].Some? then s'.sites[d] == answers[d].value
          else d in s.sites && s'.sites[d] == s.sites[d])
  }

  lemma {:induction false} CallbacksFinish(s: State, order: seq<string>, answers: Answers)
    requires Awaits(s, order, answers) && order != []
    ensures forall d :: d in order ==> d in s.asked && d in answers
    ensures var es := Callbacks(s, order, answers); Runs(s, es) && Finished(s, Run(s, es), order, answers)
    decreases |order|
  {
    AwaitedCallback(s, order, answers);
    var es := Callbacks(s, order, answers);
    var l, answer := Lookup(s.gen, s.cycle, order[0], s.asked[order[0]]), answers[order[0]];
    var s1 := OnAnswer(s, l, answer, true);
    assert es[0] == Answer(l, answer, true) && Step(s, es[0]) == s1;
    if |order| == 1 {
      assert es[1..] == [];
      AnswerInv(s, l, answer, true);
      LastCallback(s, order, answers);
    } else {
      assert es[1..] == Callbacks(s1, order[1..], answers);
      CallbacksFinish(s1, order[1..], answers);
      FinishedEarlier(s, s1, Run(s1, es[1..]), order, answers);
    }
  }

  lemma LastCallback(s: State, order: seq<string>, answers: Answers)
    requires Awaits(s, order, answers) && |order| == 1 && order[0] in s.asked && order[0] in answers
    requires Lookup(s.gen, s.cycle, order[0], s.asked[order[0]]) in s.lookups
    ensures Finished(s, OnAnswer(s, Lookup(s.gen, s.cycle, order[0], s.asked[order[0]]), answers[order[0]], true), order, answers)
  {
    var l, answer := Lookup(s.gen, s.cycle, order[0], s.asked[order[0]]), answers[order[0]];
    AnswerInv(s, l, answer, true);
    SessionStep(s, Answer(l, answer, true));
    var s' := OnAnswer(s, l, answer, true);
    assert s'.answered == s.answered[order[0] := answer];
    assert forall d :: d in order <==> d == order[0];
  }

  lemma FinishedEarlier(s: State, s1: State, s': State, order: seq<string>, answers: Answers)
    requires |order| > 1 && order[0] in s.asked && order[0] in answers && order[0] !in s.answered
    requires s1.asked == s.asked && s1.answered == s.answered[order[0] := answers[order[0]]]
    requires s1.sites == if answers[order[0]].Some? then s.sites[order[0] := answers[order[0]].value] else s.sites
    requires forall i, j :: 0 <= i < j < |order| ==> order[i] != order[j]
    requires Finished(s1, s', order[1..], answers)
    ensures Finished(s, s', order, answers)
  {
    assert order == [order[0]] + order[1..];
    assert forall d :: d in order <==> d == order[0] || d in order[1..];
    assert order[0] !in order[1..];
  }

  /** The route a key of the list ends up contributing. */
  ghost predicate Contributes(sites: Sites, answers: Answers, key: string, route: string)
    requires key in sites
  {
    if CheckIpSubnetFormat(key) then
      route == key
    else
      && key in answers
      && (answers[key] == Some(route) || (answers[key] == None && route == sites[key] && CheckIpSubnetFormat(route)))
  }

  /** What a cycle over the list of `s` has to leave: it is idle; the table holds exactly what the keys
      contribute; every answer is stored for its domain and no other key changes. */
  ghost predicate CycleDone(s: State, answers: Answers, s': State)
  {
    && s'.pending == 0
    && (forall r :: r in s'.table <==> exists k :: k in s.sites && Contributes(s.sites, answers, k, r))
    && s'.sites.Keys == s.sites.Keys
    && (forall k :: k in s.sites ==>
          if !CheckIpSubnetFormat(k) && k in answers && answers[k].Some? then s'.sites[k] == answers[k].value
          else s'.sites[k] == s.sites[k])
  }

  /** A whole cycle: a refresh and then one answer per listed domain, in any order. */
  lemma WholeCycle(s: State, order: seq<string>, answers: Answers)
    requires Inv(s) && Idle(s) && s.table == s.installed
    requires forall i, j :: 0 <= i < j < |order| ==> order[i] != order[j]
    requires forall d :: d in order <==> d in s.sites && !CheckIpSubnetFormat(d)
    requires forall d :: d in order ==> d in answers && (answers[d].Some? ==> answers[d].value != "")
    ensures var s1 := Refresh(s, true);
            && (forall d :: d in order ==> d in s1.asked)
            && var es := Callbacks(s1, order, answers); Runs(s1, es) && CycleDone(s, answers, Run(s1, es))
  {
    var s1 := Refresh(s, true);
    assert s1.asked == s.sites;
    assert forall d :: d in order <==> d in Domains(s.sites);
    if order == [] {
      EmptyDomains(s, order);
      assert Callbacks(s1, order, answers) == [];
      CycleOfSubnets(s, answers);
    } else {
      CycleOfDomains(s, order, answers);
    }
  }

  lemma CycleOfSubnets(s: State, answers: Answers)
    requires Idle(s) && s.table == s.installed && Domains(s.sites) == {}
    ensures CycleDone(s, answers, Refresh(s, true))
  {
    var s1 := Refresh(s, true);
    assert Patch(s.table, s.installed, Subnets(s.sites)) == Subnets(s.sites);
    assert IsFresh(s.sites, map[], s1.table);
    FreshContributes(s.sites, answers, map[], s1.table);
    forall k | k in s.sites ensures CheckIpSubnetFormat(k) { assert k !in Domains(s.sites); }
  }

  lemma CycleOfDomains(s: State, order: seq<string>, answers: Answers)
    requires Inv(s) && Idle(s) && s.table == s.installed && order != []
    requires forall i, j :: 0 <= i < j < |order| ==> order[i] != order[j]
    requires forall d :: d in order <==> d in Domains(s.sites)
    requires forall d :: d in order ==> d in answers && (answers[d].Some? ==> answers[d].value != "")
    ensures var s1 := Refresh(s, true);
            && (forall d :: d in order ==> d in s1.asked)
            && var es := Callbacks(s1, order, answers); Runs(s1, es) && CycleDone(s, answers, Run(s1, es))
  {
    var s1 := Refresh(s, true);
    RefreshInv(s, true);
    assert order[0] in Domains(s.sites);
    OrderSize(s.sites, order);
    assert Awaits(s1, order, answers);
    CallbacksFinish(s1, order, answers);
    var s' := Run(s1, Callbacks(s1, order, answers));
    FreshContributes(s.sites, answers, s'.answered, s'.table);
  }

  lemma EmptyDomains(s: State, order: seq<string>)
    requires order == [] && forall d :: d in order <==> d in Domains(s.sites)
    ensures Domains(s.sites) == {}
  {}

  lemma OrderSize(sites: Sites, order: seq<string>)
    requires forall i, j :: 0 <= i < j < |order| ==> order[i] != order[j]
    requires forall d :: d in order <==> d in Domains(sites)
    ensures |Domains(sites)| == |order|
  {
    assert Domains(sites) == Elems(order);
    DistinctSize(order);
  }

  lemma {:induction false} DistinctSize(order: seq<string>)
    requires forall i, j :: 0 <= i < j < |order| ==> order[i] != order[j]
    ensures |Elems(order)| == |order|
  {
    if order != [] {
      var rest := order[..|order| - 1];
      DistinctSize(rest);
      assert order == rest + [order[|order| - 1]];
      assert Elems(order) == Elems(rest) + {order[|order| - 1]};
    }
  }

  lemma FreshContributes(sites: Sites, answers: Answers, answered: Answers, routes: set<string>)
    requires IsFresh(sites, answered, routes) && answered.Keys == Domains(sites)
    requires forall d :: d in answered ==> d in answers && answered[d] == answers[d]
    ensures forall r :: r in routes <==> exists k :: k in sites && Contributes(sites, answers, k, r)
  {
    forall r ensures Wanted(sites, answered, r) <==> exists k :: k in sites && Contributes(sites, answers, k, r) {
      if r in Subnets(sites) { assert r in sites && Contributes(sites, answers, r, r); }
      if d :| d in answered && d in sites && r in Kept(answered[d], sites[d]) {
        assert d in Domains(sites) && Contributes(sites, answers, d, r);
      }
      if k :| k in sites && Contributes(sites, answers, k, r) {
        if CheckIpSubnetFormat(k) { assert r in Subnets(sites); } else { assert k in answered && r in Kept(answered[k], sites[k]); }
      }
    }
  }
}
