# Dopamine: a verified model of the stateful core

Dopamine is a Qt VPN client with a privileged daemon. This project models, in Dafny 4.11, the parts
of it that keep state or do arithmetic, and proves what they promise for every input and every run.
`dafny verify dfyconfig.toml` checks everything.

| file | models |
|---|---|
| `SplitRefreshSpec.dfy`, `SplitRefreshCycle.dfy`, `SplitRefresh.dfy` | the asynchronous split-tunnel refresh of `VpnConnection` as a step system (state notifications, timers, DNS callbacks, deltas), what its steps and whole cycles amount to, and the class whose methods take those steps |
| `DaemonCore.dfy` | the WireGuard daemon: live connections, reference-counted exclusion routes, server switching, re-entrant deactivation, handshake polling, against a kernel whose calls may fail |
| `Noise.dfy`, `Probe.dfy` | the Noise_IKpsk2 handshake probe: key schedule, initiation, response check, AmneziaWG framing, receive loop |
| `Checksum.dfy` | the Internet checksum of the ping sender |
| `PingRing.dfy` | the 32-slot ping ring against the unbounded history of sends |
| `Framing.dfy` | newline framing on both ends of the local socket |
| `SecureSettings.dfy` | the settings cache over the partly encrypted store; backup and restore |
| `Netmask.dfy` | three netmask constructions, the dotted form, the contiguity test |
| `Flatten.dfy` | flattening a preset bucket into addresses |
| `Presets.dfy` | merging API presets with the built-in ones |
| `ServerNames.dfy` | the next free server name |
| `Ipv4.dfy`, `Prelude.dfy` | IPv4 text, decimal numbers, shared types |

State that the source updates in place is a class with those fields. Its methods are tied to pure step
functions or relations (`View() == Step(old(View()))`, `Acquired`, `Swapped`, `Progress`), and the run
properties are lemmas about those. The outside world is explicit: kernel tables and in-flight lookups
are fields, backend calls return a success flag chosen freely, clocks and datagrams are parameters, and
cryptographic primitives are function values with length, inverse and commutativity laws only.

## Where the code and the intended property differ

Each of these is part of a proved contract; "iff" marks an exact condition.

- Split-route deltas compare route texts. Seen by a kernel that keys routes by network, a delta installs
  the wanted networks iff no removed text names the network of a wanted one (`DeltaByNetwork`); replacing
  `a.b.c.d/32` by `a.b.c.d`, or 10.0.0.1/8 by 10.0.0.0/8, drops the route (`HostDropsRoute`,
  `HostBitsDropRoute`).
- A site removed while a refresh is waiting for its answer is stored again by that answer; apart
  from the unguarded connect-time callback this is the only way it can come back by itself
  (`ResurrectedIff`).
- A delta that does not reach the service still moves the installed set; table and installed set then
  agree iff nothing changed (`DeltaDrift`).
- A failure inside the recursive call of `activate` emits `activationFailure` twice (`Activate`).
- With several live hops a switch leaves the allowed prefixes of all of them installed iff no other hop
  uses a prefix that only the old config allowed, and likewise for a shared server key (`SwitchServer`).
- Switching the entry hop restores the system's resolvers and sets none, although the exit hop is live;
  after a switch the VPN's resolvers are set iff the hop is not the entry (`Activate`).
- After an outermost `deactivate` in which no call failed, the poll timer is off iff no request that
  arrived meanwhile activates a hop that is not live or can be switched (`Deactivate`,
  `TimerOutlivesDeactivation`).
- The probe's size guards narrow a 64-bit sum to `int`; reads stay inside the datagram iff the prefix
  length is non-negative and the sum fits (`GuardBounds`, `GuardOverflow`, `NeverStraysIff`).
- A backup taken without the encryption key loses a server list that is not cached, and a restore without
  it skips the list; every list is carried over iff both keys are there (`CarriedIff`).
- The checksum's accumulator holds every buffer of a length iff it is at most 65537 bytes (`NoOverflowIff`).
- A reply with number 0 before the first ping matches a blank slot (`PingReceived`).
- Removing a settings key drops its whole subtree from the store but only the key from the cache: the
  cache stays coherent iff nothing below it is cached (`Remove`); storing a plain byte array that
  carries the encryption marker breaks it unless it decodes to itself (`SetValue`).
- Merging presets is idempotent iff no built-in that the API lacks lists an empty domain
  (`MergeIdempotentIff`).

## Model

| member | source | states |
|---|---|---|
| SplitRefreshSpec.EveryRun | client/vpnconnection.cpp:123-346 | from construction, after any interleaving of notifications, timers, DNS callbacks, installs and edits: pending count = number of outstanding lookups of the current generation; they belong to one refresh and ask exactly the unanswered domains; the accumulator holds exactly the routes wanted for the answers so far; periodic timer only while Connected |
| SplitRefreshSpec.StepInv | client/vpnconnection.cpp:280-346 | every single event keeps that invariant |
| SplitRefreshSpec.ReportInv | client/protocols/vpnprotocol.cpp:72-92 | any report passed through the protocol's de-duplication keeps the invariant, repeated Connected reports included |
| SplitRefreshSpec.RepeatedConnected | client/vpnconnection.cpp:170-181 | without it: an armed Connected repeated while Connected breaks the invariant iff a refresh is in flight, and leaves refreshing stuck |
| SplitRefreshSpec.StuckForever | client/vpnconnection.cpp:282-287 | once stuck, no sequence of timers, callbacks or edits in that connection begins another refresh or moves the pending count |
| SplitRefreshCycle.LeavingForgets | client/vpnconnection.cpp:126-132 | leaving Connected ends timer, count and booked routes, and everything in flight is then of an older generation |
| SplitRefreshCycle.ConnectedArms | client/vpnconnection.cpp:170-174 | reaching Connected with site splitting on arms exactly one timer of the new generation |
| SplitRefreshCycle.FirstRefresh | client/vpnconnection.cpp:173-180 | when that timer fires the first refresh begins and the periodic timer runs |
| SplitRefreshCycle.StaleShot | client/vpnconnection.cpp:175-177 | a timer of another generation or outside Connected does nothing |
| SplitRefreshCycle.NotifiedState | client/vpnconnection.cpp:878-886 | the state becomes the notified one, except that Reconnecting survives Disconnected |
| SplitRefreshCycle.ReportedState | client/protocols/vpnprotocol.cpp:72-92 | which reports of the protocol change anything, and to what |
| SplitRefreshCycle.ConnectEnds | client/vpnconnection.cpp:406-458 | a connect ends outside Connected with a fresh protocol object, or in Error without one |
| SplitRefreshCycle.DisconnectEnds | client/vpnconnection.cpp:841-876 | a disconnect ends without a protocol object, in Disconnecting after a silent stop |
| SplitRefreshCycle.ReconnectEnds | client/vpnconnection.cpp:820-834 | a reconnect keeps the object and stays Reconnecting while its stop reports Disconnected; outside Connected it is ignored |
| SplitRefreshSpec.StaleAnswer | client/vpnconnection.cpp:319-321 | a callback of another generation or outside Connected changes nothing but the in-flight set |
| SplitRefreshSpec.AnswerInv | client/vpnconnection.cpp:323-344 | a current callback keeps the invariant, and the last one finds every domain answered and installs the fresh set |
| SplitRefreshSpec.SessionTable | client/vpnconnection.cpp:348-378 | with the service answering, any interleaving of timers, callbacks and edits in one connection keeps the route table equal to the installed set, over any number of refresh cycles |
| SplitRefreshSpec.SessionFromConnect | client/vpnconnection.cpp:223-247 | the same from the connect-time installation into an empty table |
| SplitRefreshSpec.CycleRefinesReinstall | client/vpnconnection.cpp:294-343 | with the service answering, a finished cycle leaves in the table exactly subnets, new addresses, and for failed domains their last known valid address: what a full reinstall would install |
| SplitRefreshSpec.SubnetCycle | client/vpnconnection.cpp:306-311 | a refresh of a list without domains ends at once with exactly the listed subnets installed and in the table |
| SplitRefreshCycle.RefreshAsks | client/vpnconnection.cpp:294-319 | from any idle Connected state a refresh leaves exactly one outstanding lookup for every listed key that is not a subnet, carrying its stored value, and counts them |
| SplitRefreshCycle.WholeCycle | client/vpnconnection.cpp:280-346 | a refresh followed by one answer per listed domain, in any order, ends idle; the table is exactly the listed subnets, each answer, and for a failed domain its valid stored address; each answer is stored for its domain and no other key changes |
| SplitRefreshCycle.RefreshIgnored | client/vpnconnection.cpp:282-287 | a refresh begins iff Connected with a protocol and nothing outstanding; otherwise nothing changes |
| SplitRefreshSpec.Remembered | client/vpnconnection.cpp:330-332 | a stored address stays the domain's last known one through any run in which that domain is not answered again and the list is not edited |
| SplitRefreshSpec.ResurrectedIff | client/vpnconnection.cpp:319-332 | some run brings a removed site back without anyone listing it again iff the running refresh still waits for its answer |
| SplitRefreshSpec.DeltaDrift | client/vpnconnection.cpp:366-377 | how a delta changes the disagreement between table and installed set, with and without the service; exact condition for agreement when the service is down |
| SplitRefreshSpec.DeltaByNetwork | client/vpnconnection.cpp:353-377 | with routes keyed by network (prefix length and the bits it covers) a delta installs exactly the wanted networks iff no removed text names the network of a wanted one |
| Ipv4.SameNetwork | client/core/networkUtilities.cpp:162-177 | two entries have one network key iff they cover the same addresses |
| SplitRefreshSpec.AliasDropsRoute | client/vpnconnection.cpp:358-376 | replacing any text of a network by another text of it leaves no route |
| SplitRefreshSpec.HostDropsRoute | client/vpnconnection.cpp:358-376 | failing family: an address and its /32 |
| SplitRefreshSpec.HostBitsDropRoute | client/vpnconnection.cpp:358-376 | failing family: two addresses of one subnet written with the same prefix length |
| SplitRefreshSpec.SlashEightDropsRoute | client/vpnconnection.cpp:358-376 | a concrete instance of the second: any two addresses of one /8, such as 10.0.0.1/8 and 10.0.0.0/8 |
| SplitRefresh.VpnProtocol.SetConnectionState | client/protocols/vpnprotocol.cpp:72-92 | emits iff the state really changes, and not for Disconnected to Disconnecting |
| SplitRefresh.VpnConnection.OnConnectionStateChanged | client/vpnconnection.cpp:123-184 | the notification step: reset off Connected, new generation and one-shot timer when armed |
| SplitRefresh.VpnConnection.SetConnectionState | client/vpnconnection.cpp:878-886 | the notification step with Reconnecting surviving Disconnected |
| SplitRefresh.VpnConnection.Connect | client/vpnconnection.cpp:406-458 | Connecting first, old protocol stopped and dropped, new one unconnected or Error |
| SplitRefresh.VpnConnection.ReconnectToVpn | client/vpnconnection.cpp:820-834 | ignored unless Connected with a protocol; otherwise Reconnecting, then stop |
| SplitRefresh.VpnConnection.DisconnectFromVpn | client/vpnconnection.cpp:841-876 | Disconnecting, stop and drop, or Disconnected when there is no protocol |
| SplitRefresh.VpnConnection.RefreshSitesRoutes | client/vpnconnection.cpp:280-346 | the refresh step, loops included; what that step does is `RefreshAsks` and `WholeCycle` |
| SplitRefresh.VpnConnection.ApplySplitRefreshDelta | client/vpnconnection.cpp:348-378 | installed := wanted, table patched by added then removed |
| SplitRefresh.VpnConnection.OnFirstShot | client/vpnconnection.cpp:173-180 | the one-shot timer acts only in its own generation while Connected |
| SplitRefresh.VpnConnection.OnLookupDone | client/vpnconnection.cpp:319-344 | the callback step: first IPv4 address, else last known valid one |
| SplitRefresh.VpnConnection.AddSitesRoutes | client/vpnconnection.cpp:223-247 | connect-time installation of subnets and last known addresses |
| SplitRefresh.VpnConnection.OnSiteResolved | client/vpnconnection.cpp:251-264 | the connect-time callback: an address outside the list it captured is added everywhere, any other changes nothing |
| SplitRefreshCycle.SiteAnswerStored | client/vpnconnection.cpp:251-264 | a connect-time answer outside the captured list is installed, booked and stored, any other changes nothing |
| SplitRefreshCycle.InstallsListed | client/vpnconnection.cpp:229-247 | the connect-time installation is exactly the listed subnets and the valid stored addresses of the domains |
| SplitRefresh.VpnConnection.Serve | client/vpnconnection.cpp:123-346 | the object driven by any run of events takes exactly the steps of the specification and keeps its invariant |
| SplitRefresh.SplitKeys | client/vpnconnection.cpp:294-304 | the key loop separates exactly subnets and domains |
| SplitRefresh.InitialRoutes | client/vpnconnection.cpp:229-243 | the connect-time key loop collects exactly subnets and valid last known addresses |
| SplitRefresh.Missing | client/vpnconnection.cpp:353-362 | the two collecting loops compute set differences |
| Ipv4.PickV4 | client/vpnconnection.cpp:323-329 | the loop returns the first IPv4 address of an answer, and none iff there is none |
| Ipv4.FirstV4Is | client/vpnconnection.cpp:323-329 | the value at the least position holding an IPv4 address, none iff there is no such position |
| Ipv4.FormatIff | client/core/networkUtilities.cpp:162-177 | the format check accepts a bare address, or an address and a length up to 32 around one slash, and never two slashes |
| DaemonCore.Serve | client/daemon/daemonlocalserverconnection.cpp:106-124 | any history of requests, re-entrant requests and polls keeps: positive counts; counted keys = installed exclusions if every deletion succeeded; if nothing failed, each count = occurrences over all live exclusion lists, no assertion fired, awaited handshakes polled, interface up while anything is live, no stray route or peer, routes = allowed prefixes and peers = server keys unless several hops are live and one switched away from a shared one since the last teardown, resolvers only of a live exit or single hop; a closing deactivation leaves no connection, no reference, no timer and, if nothing failed, an empty kernel |
| DaemonCore.Daemon.Activate | client/daemon/daemon.cpp:56-188 | terminates from every state, also during a deactivation, with at most one recursive call. A live hop is switched in place only if private key, both device addresses and both gateways are unchanged; if nothing failed, equal ones keep the other hops and any different one leaves only the new connection (or nothing changed while a deactivation is in progress). Its own activationFailure signals are 0 on success, 2 when the recursive call failed, 1 otherwise, for every set of re-entrant requests, whose signals are counted apart. Exact connection map on success, and on failure unchanged, empty or switched by branch; resolvers afterwards are the hop's own, none after switching the entry hop |
| DaemonCore.Daemon.Deactivate | client/daemon/daemon.cpp:498-548 | re-entrant: no change; outermost: no connections, no references, flag restored, interface down if it was deleted, disconnected emitted iff asked; if nothing failed the poll timer is on iff some re-entrant request activates a hop that is not live or can be switched, exactly the refused ones signal a failure, and exclusions, routes, peers and resolvers are all gone; if no activation arrived, each recorded exclusion is asked for exactly once |
| DaemonCore.TimerOutlivesDeactivation | client/daemon/daemon.cpp:498-548 | the failing family: any activation of a hop that is not live, arriving during a deactivation, leaves the timer running with nothing live; the next poll ends it |
| DaemonCore.Daemon.SwitchServer | client/daemon/daemon.cpp:570-618 | if nothing failed: exclusions common to old and new config, installed allowed prefixes common to both, and all other peers are in every intermediate kernel state, and no state lacks both the old peers and the new one (make before break); final routes and peers are the old ones plus the new minus the old-only ones, equal to those of the live connections iff no other hop shares a removed one; with one live hop exclusions, routes and peers are exactly the new config's, whatever happened before; on failure the connection map is unchanged |
| DaemonCore.Daemon.BringUp | client/daemon/daemon.cpp:124-187 | bringing up a new hop keeps the bookkeeping on success and on every failure path, and sets the resolvers iff the hop is not the entry |
| DaemonCore.Daemon.SwitchOver | client/daemon/daemon.cpp:73-98 | the switching path of activate; on failure the connection map is the old one or the switched one |
| DaemonCore.Daemon.AddExclusionRoute | client/daemon/daemon.cpp:234-244 | count up, or install and count one; no change on failure |
| DaemonCore.Daemon.DelExclusionRoute | client/daemon/daemon.cpp:246-254 | count down, or forget and ask the kernel to delete |
| DaemonCore.Daemon.AddExclusionRoutes | client/daemon/daemon.cpp:579-582 | if nothing failed a list adds its multiplicities; nothing installed ever leaves the kernel meanwhile |
| DaemonCore.Daemon.DelExclusionRoutes | client/daemon/daemon.cpp:596-602 | if nothing failed, a fully counted list gives back exactly its multiplicities and fires no assertion; in every case prefixes counted more often stay installed throughout |
| DaemonCore.Daemon.CheckHandshake | client/daemon/daemon.cpp:651-685 | records the reported handshake of each awaiting peer; polls again iff one is still awaited |
| DaemonCore.PollAll | client/daemon/daemon.cpp:656-679 | the loop over connections, and its pending count |
| DaemonCore.LastHandshakeIs | client/daemon/daemon.cpp:666-675 | a handshake is recorded iff the peer's own key is reported with a non-zero time, and it is the last such time |
| DaemonCore.PolledIs | client/daemon/daemon.cpp:658-678 | a poll leaves a known handshake alone and looks an awaited one up |
| DaemonCore.OccurrencesOfSwap | client/daemon/daemon.cpp:579-618 | what replacing one connection does to the number of list entries per prefix |
| DaemonCore.SwitchRoutes | client/daemon/daemon.cpp:589-607 | routes after a switch never exceed those of the live connections, and equal them iff no other hop loses a prefix, which takes a second hop |
| DaemonCore.SwitchPeered | client/daemon/daemon.cpp:610-615 | peers after a switch never exceed those of the live connections, and equal them iff no other hop uses the removed server |
| DaemonCore.SwitchStays | client/daemon/daemon.cpp:579-607 | common prefixes stay through all four phases of a switch |
| DaemonCore.SoleKeys | client/daemon/daemon.cpp:234-254 | with one live connection the counted keys are its exclusion list |
| Noise.Kdf | client/core/wgHandshakeProbe.cpp:190-215 | output i of the loop is the i-th KDF value, the chaining key becomes the first |
| Noise.TauIsHkdfBlock | client/core/wgHandshakeProbe.cpp:189-215 | that value is the i-th 32-byte block of HKDF-Expand with empty info (section 2.3 of RFC 5869) |
| Noise.TauWrittenOut | client/core/wgHandshakeProbe.cpp:190-215 | the first three outputs in HMAC alone |
| Noise.OpeningWrittenOut | client/core/wgHandshakeProbe.cpp:522-545 | starting hash and chaining key written out with both protocol strings |
| Noise.SealFieldWrittenOut | client/core/wgHandshakeProbe.cpp:547-563 | key, additional data, hash and chaining key of an encrypted field written out |
| Noise.ClosingWrittenOut | client/core/wgHandshakeProbe.cpp:455-478 | payload hash and key of section 5.4.3 of the WireGuard paper in hash and HMAC alone |
| Noise.ClosingBinds | client/core/wgHandshakeProbe.cpp:459-475 | one payload key for two different preshared keys, DH results, ephemerals or chaining keys takes an HMAC collision |
| Noise.ClosingHashBinds | client/core/wgHandshakeProbe.cpp:459-478 | one payload hash for two different transcripts or ephemerals takes a hash collision |
| Noise.HandshakeState.Initiate | client/core/wgHandshakeProbe.cpp:521-591 | message bytes, hash and chaining key are those of section 5.4.2 of the WireGuard paper; fails iff a DH result is all zero |
| Noise.InitiationLayout | client/core/wgHandshakeProbe.cpp:570-591 | every field of the 148 bytes at its offset, MAC1 under the hash of its label and the server key, no cookie |
| Noise.HandshakeState.VerifyResponse | client/core/wgHandshakeProbe.cpp:449-482 | accepts iff both DH results are non-zero and the payload opens under the key that `AcceptsWrittenOut` spells out |
| Noise.AcceptsWrittenOut | client/core/wgHandshakeProbe.cpp:449-482 | the acceptance condition down to HMAC, hash, DH and AEAD, with the byte offsets |
| Noise.InitiationIsConsumed | client/core/wgHandshakeProbe.cpp:521-585 | a responder holding the private key passes MAC1, recovers key and timestamp, and reaches the initiator's transcript |
| Noise.HonestResponseAccepted | client/core/wgHandshakeProbe.cpp:449-482 | every honest response is accepted iff its DH results are non-zero |
| Noise.Shared | client/core/wgHandshakeProbe.cpp:297-319 | the zero scan refuses exactly the all-zero secret |
| Noise.PutMessage | client/core/wgHandshakeProbe.cpp:576-591 | byte layout of the initiation with MAC1 over the first 116 bytes |
| Probe.Le32RoundTrip | client/core/wgHandshakeProbe.cpp:92-103 | reading a written little-endian word returns it |
| Probe.WireRoundTrip | client/core/wgHandshakeProbe.cpp:649-662 | junk prefix and header protection are undone exactly, for every prefix, key and trailer |
| Probe.WireBytes | client/core/wgHandshakeProbe.cpp:649-662 | the datagram byte by byte: clear prefix, message masked iff protection is on and the prefix has twelve bytes, trailer |
| Probe.ReceivedWire | client/core/wgHandshakeProbe.cpp:703-744 | truncation to the receive buffer costs only the trailer iff prefix and message fit |
| Probe.ChachaApply | client/core/wgHandshakeProbe.cpp:263-278 | XORs exactly the given range with the keystream |
| Probe.BuildInitPacket | client/core/wgHandshakeProbe.cpp:649-662 | the packet fits an int and holds the message inside iff 0 <= S1 <= INT_MAX - 148, and is then the framed message |
| Probe.GuardBounds | client/core/wgHandshakeProbe.cpp:716-735 | the size guards keep every read inside the datagram iff 0 <= s <= INT_MAX - size |
| Probe.GuardOverflow | client/core/wgHandshakeProbe.cpp:716-718 | one prefix length outside that range for which a one-byte datagram passes the guard |
| Probe.Examine | client/core/wgHandshakeProbe.cpp:709-754 | for every prefix length: the verdict on a datagram (answer, ignored, or read outside the received bytes), cookie test first; with safe lengths it is an answer iff the datagram is a plausible cookie reply or a verified response carrying the probe's own index |
| Probe.CookieRecognised | client/core/wgHandshakeProbe.cpp:716-731 | a framed cookie reply is recognised iff it fits the buffer, carries the probe's index in its second word and a type in the H3 range |
| Probe.ResponseRecognisedIff | client/core/wgHandshakeProbe.cpp:733-754 | a framed 92-byte message is recognised iff it fits the buffer, carries the probe's index in its third word and a type in the H2 range, and passes the handshake check |
| Probe.NeverStraysIff | client/core/wgHandshakeProbe.cpp:716-744 | no datagram makes the code read outside the received bytes iff both prefix lengths are non-negative and their sums with the message sizes fit an int |
| Probe.Listen | client/core/wgHandshakeProbe.cpp:670-755 | for every script of clock readings and datagrams: one send, and a second iff the half-time mark was passed; the first listening round with an answer ends the loop before the deadline with its round-trip time rounded down to milliseconds; the first reading past the deadline after a retransmission ends it with -1; with safe prefix lengths no round reads out of bounds |
| Probe.RetryAtHalf | client/core/wgHandshakeProbe.cpp:671-673 | the retransmission is due at half the timeout, rounded down to a millisecond |
| Probe.ElapsedRounds | client/core/wgHandshakeProbe.cpp:706-707 | elapsed time is rounded down to a millisecond |
| Probe.HonestExchange | client/core/wgHandshakeProbe.cpp:521-755 | end to end, for non-zero DH results and a header in range: the honest server opens the framed initiation, and its framed response is recognised iff prefix and response fit the receive buffer |
| Checksum.InetChecksum | client/mozilla/pingsender.cpp:13-48 | for every buffer up to 65537 bytes the accumulator stays in range and the result is the one's-complement checksum of section 1 of RFC 1071 |
| Checksum.FoldTwiceRepresents | client/mozilla/pingsender.cpp:43-46 | two folds suffice: the low 16 bits are the one's-complement representative of every non-negative accumulator value |
| Checksum.OnesSumRepresents | client/mozilla/pingsender.cpp:31-41 | end-around-carry addition and the plain sum have the same representative |
| Checksum.NoOverflowIff | client/mozilla/pingsender.cpp:14-34 | no buffer of a length overflows the accumulator iff the length is at most 65537 |
| Checksum.StoredChecksumVerifies | client/mozilla/pingsender.cpp:13-48 | storing the checksum in a zeroed aligned word makes the recomputed checksum zero |
| Checksum.ByteOrderIndependence | client/mozilla/pingsender.cpp:24-34 | swapping the bytes of every word swaps the result (section 2(B) of RFC 1071) |
| Checksum.SwappedBuffer | client/mozilla/pingsender.cpp:13-48 | for every even-length buffer, exchanging the bytes of each word exchanges the bytes of the checksum |
| PingRing.PingHelper.Start | client/mozilla/pinghelper.cpp:62-68 | empties ring and history |
| PingRing.PingHelper.NextPing | client/mozilla/pinghelper.cpp:84-99 | through any number of 16-bit wraparounds the ring holds exactly the last 32 sends |
| PingRing.PingHelper.PingReceived | client/mozilla/pinghelper.cpp:101-114 | a reply updates exactly the one recent send with its number, nothing otherwise; number 0 before the first send is booked on the blank slot, and the ring stays consistent |
| PingRing.RecentUnique | client/mozilla/pinghelper.cpp:89-92 | at most one of the last 32 sends carries a number |
| PingRing.PingHelper.Latency | client/mozilla/pinghelper.cpp:116-135 | over every history: the 32-bit result is the rounded mean of the answered pings among the last 32 iff that mean is below 2^32, and then within one half of the true mean; before the first send it reports only a spurious reply |
| PingRing.PingHelper.RingMean | client/mozilla/pinghelper.cpp:116-135 | which is the mean over the last 32 sends, although the ring is rotated |
| PingRing.MeanRounds | client/mozilla/pinghelper.cpp:132-134 | within one half of the true mean and between the extreme samples |
| PingRing.SampleOf | client/mozilla/pinghelper.cpp:120-126 | exactly the answered pings count, a reply within the same millisecond included |
| Framing.Reader.ReadAllThenSplit | client/mozilla/localsocketcontroller.cpp:402-428 | however the stream is cut, commands dispatched = non-blank trimmed lines of the whole stream, tail buffered |
| Framing.Reader.SplitThenRead | client/daemon/daemonlocalserverconnection.cpp:48-76 | the same for the daemon's read-when-empty loop |
| Framing.SplitConcat | client/mozilla/localsocketcontroller.cpp:407-417 | splitting a concatenation continues from the unterminated tail |
| Framing.StreamOfLines | client/mozilla/localsocketcontroller.cpp:407-417 | every stream is its complete lines with their terminators and then its tail |
| Framing.TrimIs | client/mozilla/localsocketcontroller.cpp:416-423 | trimming removes blanks from both ends and nothing else, leaves no blank at an end, and empties exactly the blank lines |
| Framing.LinesOfWritten | client/daemon/daemonlocalserverconnection.cpp:169-172 | newline-free messages written with terminators split back into themselves |
| Framing.Delivered | client/mozilla/localsocketcontroller.cpp:587-592 | delivery is exact iff every message is non-blank and trimmed |
| SecureSettings.SecureQSettings.Value | client/secure_qsettings.cpp:41-83 | a cached read equals a cold read; without the key an encrypted value reads invalid and is not cached |
| SecureSettings.SecureQSettings.SetValue | client/secure_qsettings.cpp:85-109 | exact new store and cache; the server list goes in marked and encrypted, every other key as it is; coherence kept iff encrypted or decoding the value returns it |
| SecureSettings.SecureQSettings.Remove | client/secure_qsettings.cpp:111-117 | the key and everything below it read as the default, every other key as before (an empty key removes all); coherence kept iff no key below the removed one is cached |
| SecureSettings.SecureQSettings.BackupAppConfig | client/secure_qsettings.cpp:119-153 | exactly the keys under Conf/ and Servers/ except Conf/installationUuid, at their cold-read value; without the key an encrypted entry that is not cached goes in as invalid |
| SecureSettings.SecureQSettings.RestoreAppConfig | client/secure_qsettings.cpp:155-172 | restored keys read as converted; the installation id, encrypted keys while the key is missing, and all other keys keep their value; empty input refused |
| SecureSettings.Replay | client/secure_qsettings.cpp:41-179 | over every sequence of reads, writes, removals and clears on keys none of which lies below another, writing no marker-prefixed plain byte array, a read returns the last value written to its key since the last removal or clear, else the default, or the initial value if the history never concerned the key; cached and cold reads agree |
| SecureSettings.Migrate | client/secure_qsettings.cpp:119-172 | restoring a backup elsewhere, each side with or without its key: exactly which keys are written, with which value, and nothing else changes |
| SecureSettings.CarriedIff | client/secure_qsettings.cpp:57-101 | every encrypted server list survives a migration iff the source can decrypt and the target can encrypt |
| SecureSettings.ReadAfterWrite | client/secure_qsettings.cpp:89-106 | a value written encrypted, or written plain without the marker, is read back exactly, and other keys are unaffected |
| Netmask.ShiftedLeadingOnes | client/core/networkUtilities.cpp:93-93 | for prefixes 1 to 32 the shifted mask has exactly that many leading ones |
| Netmask.SameMask | service/server/helper_route_mac.c:1177-1185 | byte fill, CIDR argument and shift denote one mask |
| Netmask.MaskAccepted | service/server/helper_route_mac.c:837-846 | the scan accepts iff the mask is zeros below some position and ones from there on |
| Netmask.BuiltMasksPass | service/server/helper_route_mac.c:906-910 | every mask built by shift, byte fill or CIDR length passes |
| Netmask.ContiguousIffLeadingOnes | service/server/helper_route_mac.c:837-846 | the helper's test of a mask in network order passes at a length iff the mask has exactly that many leading ones |
| Netmask.NetMaskText | client/core/networkUtilities.cpp:83-96 | the text produced for address/prefix is the dotted form of that mask |
| Netmask.HostMaskText | client/core/networkUtilities.cpp:85-91 | without a prefix, or with one that is not a number, the mask is 255.255.255.255 |
| Netmask.TextToKernel | client/core/networkUtilities.cpp:83-96 | the mask text of address/p parses to a number that exactly one mask has; that mask has exactly p leading ones, equals the byte-filled one and passes the helper's test |
| Netmask.MaskTextParses | client/core/networkUtilities.cpp:95-95 | the dotted form of any mask parses, and two masks parse alike iff they are equal |
| Flatten.FlattenBucket | client/vpnconnection.cpp:614-673 | the output denotes exactly the bucket's CIDRs and each host's first IPv4 address; CIDRs come first and no appended host lies in one |
| Flatten.Covered | client/vpnconnection.cpp:658-664 | covered iff some parsed network contains the address |
| Presets.MergeWithApi | client/core/builtinSplitPresets.cpp:214-258 | for built-ins with distinct ids: missing built-ins in order, then every API preset in place, the last one of a shared id merged |
| Presets.MergeIdempotentIff | client/core/builtinSplitPresets.cpp:214-258 | idempotent iff no missing built-in has an empty domain |
| Presets.MergeKeepsApi | client/core/builtinSplitPresets.cpp:239-256 | API presets keep place and id; the last of a shared id ends with all non-empty domains of both sides, every other one is unchanged |
| Presets.MergedDomains | client/core/builtinSplitPresets.cpp:239-242 | exact contents of a merged list; no API-added entry is repeated |
| Presets.MergedTexts | client/core/builtinSplitPresets.cpp:243-249 | id, name and description of a merged preset, the last two falling back to the built-in's |
| Presets.MissingInOrder | client/core/builtinSplitPresets.cpp:226-237 | the missing built-ins come in their own order |
| Presets.IndexById | client/core/builtinSplitPresets.cpp:217-223 | the index agrees with a last-match scan |
| Presets.UnionDomains | client/core/builtinSplitPresets.cpp:114-126 | base, then the unseen non-empty extras in order |
| Presets.DomainsFromJson | client/core/builtinSplitPresets.cpp:101-112 | drops exactly the empty entries |
| ServerNames.NextAvailableServerName | client/settings.cpp:217-234 | the least positive number whose name no server uses, within one more round than there are servers |
| ServerNames.TakenNamesBound | client/settings.cpp:222-231 | pigeonhole: n taken names need n servers |

## Left out

- SplitRefreshSpec.EveryRun: the 64-bit generation counter is unbounded, so its wrap-around after 2^64 notifications is not modelled.
- SplitRefreshSpec.StepInv: each event is atomic, so an event loop nested inside a service call is not modelled; stopping the old protocol on connect is taken never to report Connected; a failing start is an event of its own.
- SplitRefreshSpec.SessionTable: a second connect-time install, the clearing of saved routes and calls that miss the service are steps of the model but outside this claim; `DeltaDrift` says what a missed call does.
- SplitRefreshSpec.ResurrectedIff: the connect-time callbacks, which store without any guard, are the other way a removed site returns and are set apart.
- DaemonCore.Daemon.Deactivate: re-entrant requests arrive between the Down hook and the clean-up, not between two kernel calls of the clean-up.
- DaemonCore.Daemon.Activate: a peer is its server key and a resolver setting the hop it came from; other peer parameters, the resolver list, LAN exclusions, hooks and interface addresses are calls with a success flag only.
- DaemonCore.Serve: exclusion entries are taken as already parsed prefixes.
- Noise.HandshakeState.Initiate: OpenSSL failures other than the refused all-zero secret, and the choice of timestamp, index and magic header, are not modelled.
- Probe.Listen: a script of rounds stands for the clock and the socket; failing keystream calls are not modelled.
- Probe.Examine: what the code does after a read outside the received bytes is undefined in the source and ends the model's claims.
- Probe.BuildInitPacket: likewise for a negative S1 or one whose packet size does not fit an int.
- PingRing.PingHelper.Latency: standard deviation, maximum and loss are left out as easy.
- SecureSettings.SecureQSettings.Value: keychain storage and memoisation of the key are one availability flag per call; JSON text is a value.
- Netmask.SameMask: the byte fill is modelled byte by byte on values, not as memset on the global; prefix 0 is outside the shift, and the class-based default mask is left out.
- Netmask.NetMaskText: numbers are plain digit strings; signs and surrounding blanks that QString accepts are not modelled.
- Flatten.FlattenBucket: sorting presets into buckets and the shared-CDN filter are left out.
- Presets.MergeWithApi: a missing JSON member and an empty string are the same value.
- Kernel routing, firewall, process launches, sockets, UI, logging, migrations and the iOS, Android and Windows branches are not part of this model.
