# Saguaro network appliance: a verified model

Saguaro is the control plane of a network appliance. It compiles a declarative gateway
configuration into an nftables ruleset, edits Kea's DHCP configuration through a
test-and-roll-back transaction, hands out OpenVPN addresses, and keeps a few small state
machines: login lockout, alert aggregation, configuration snapshots, stable port names, event
retention and reverse-DNS routing. This project models that logic in Dafny and proves what it
guarantees, for all inputs and over all runs.

`dafny verify dfyconfig.toml` checks everything.

## How it is organised

Three parts, each with its own modules.

**The firewall compiler.** `GatewayConfig` is the configuration and its validator. `Nft` is the
target: named sets, chains of rules (a list of matches and a verdict), and a first-match
interpreter for one IPv4 packet. A packet carries its interfaces, addresses, protocol, port,
conntrack state, the time, and whether its source is over the management rate limit.
`FilterSets`, `ForwardChain`, `InputChain` and `NatTable` emit the ruleset with the generator's
own loops. `ForwardMeaning`, `InputMeaning` and `NatMeaning` say what the configuration means for a
packet, without any order among the default grants, and prove that the emitted chains mean exactly
that on every packet; `Generator` puts it together. On top of this stand `ZoneIsolation`, `RuleTester` (the second
evaluator of the custom rules), `SetClosure`, `BlockList` (block/unblock runs) and the OpenVPN
grants in `OpenVpn`.

**The address plan.** `Ipv4` holds the power-of-two arithmetic. `KeaSubnets` edits the Dhcp4
configuration in place, `SubnetBook` keeps the book of what was asked beside it, `Conflicts` is the independent detector, and `KeaTransaction` is the
get, mutate, test, set, verify, roll back sequence against a Kea whose every reply may be a
failure, with the MAC blocklist kept in step through it. Ids remember whether they came through
JSON, because only those are recognised.

**Timed and versioned state.** `LoginLimiter`, `AlertAggregator`, `ConfigVersions`, `PortMap` with
`PortMapAgain`, `Retention` and `ReverseDns`, over the text and decimal lemmas of `Text`.

Objects the program updates in place are classes whose methods are proved against a function of
the old state; the properties over runs are then proved about that function.

## Where the code and its documentation differ

The model follows the code. Each case has a concrete witness or an exact condition.

- The rule tester is documented to mirror the generated rules; it ignores schedules
  (`RuleTester.TesterMirrorsCompiler`, `Witnesses.TesterIgnoresTheSchedule`).
- A stale matrix row "can never widen access", but a matrix of stale rows only makes the table
  name a set it does not declare (`SetClosure.ClosureIsExact`, `Witnesses.StaleMatrixDoesNotLoad`).
- Guests are documented as isolated; a LAN zone bound to the WAN port is reachable for them
  and leads them on to the DMZ (`ZoneIsolation.ReachIsExact`, `ZoneIsolation.NoWayBackToLan`,
  `Witnesses.GuestReachesLanOnTheWanPort`, `Witnesses.GuestReachesDmzThroughLan`).
- The validator promises a way in; a management path bound to an interface named `lo` counts for it
  (`InputMeaning.ManagementIsNeverLost`, `Witnesses.LoopbackOnlyIsLockedOut`).
- Forwards may be bound to one public address; reflection ignores the address
  (`NatTable.ReflectionAgreesExactly`, `Witnesses.ReflectionIgnoresTheAddress`,
  `Witnesses.ReflectionTakesOtherAddresses`).
- VPN clients are documented to be masqueraded onto the LAN; the chain holding that rule is not
  emitted for the VPN alone (`NatTable.VpnMasqueradeIsExact`, `Witnesses.VpnAloneIsNotMasqueraded`).
- The management ports are documented as never forwarded; a 1:1 entry takes them along
  (`NatTable.ManagementPortsStay`, `Witnesses.OneToOneTakesTheGuiPort`).
- Blocking appends a host address to an alias of any type (`BlockList.BlockKeepsValidityExactly`,
  `Witnesses.BlockingBreaksANetworkAlias`), and may change the verdict on packets of other addresses
  (`BlockList.RunSparesOthersExactly`, `Witnesses.BlockingOpensReplies`).
- A port on an OpenVPN rule for any protocol is not enforced (`OpenVpn.PortIsEnforcedExactly`,
  `Witnesses.AnyProtocolIgnoresThePort`).
- OpenVPN grants without gateway mode, rules, tunnels or geo-block let a client open connections
  whose replies are dropped (`ForwardMeaning.RepliesAreExact`, `Witnesses.RepliesToTheVpnAreDropped`).
- Next month's partition is not created on days that month lacks
  (`Retention.NextMonthIsEnsuredExactly`, `Retention.JanuaryThirtyFirstSkipsFebruary`).
- With ten or more spare ports the automatic port map refuses to run a second time
  (`PortMapAgain.StabilityIsExact`, `Witnesses.TenPortsAreMappedOnce`).
- A restore rolls back API tokens, which no change of their own snapshots
  (`ConfigVersions.TokensComeBackExactly`, `Witnesses.TokensAreLost`), and a snapshot that failed to
  be written is not retried (`ConfigVersions.FailedSnapshotIsLost`,
  `Witnesses.FailedSnapshotIsNotRetried`).
- Pruning the login limiter also forgets the failure count (`LoginLimiter.PruneForgetsTheCount`,
  `Witnesses.PruneFreesAGuess`).
- Repeats are documented to be summed up; an offer after an unflushed window drops their count
  (`AlertAggregator.LossIsExact`, `Witnesses.UnflushedRepeatIsLost`).
- Kea's DROP class is documented as following the stored list; a failed write of either is only
  reported, and a restart then separates them (`KeaTransaction.RestartIsExact`,
  `KeaTransaction.RunRestartIsExact`, `Witnesses.RestartForgetsABlock`).

## Model

| member | source | states |
|---|---|---|
| `GatewayConfig.ValidateAliases` | internal/adapters/nftgen/nftgen.go:288-308 | accepts exactly the alias lists whose entries are well formed with pairwise distinct names, and returns their names |
| `GatewayConfig.ValidateZones` | internal/adapters/nftgen/nftgen.go:311-347 | accepts exactly the zone lists that are well formed with distinct names and distinct effective interfaces, VLAN suffix included |
| `GatewayConfig.ValidateRules` | internal/adapters/nftgen/nftgen.go:348-389 | accepts exactly the rule lists with distinct names whose every rule is well formed and refers only to known aliases and zones |
| `GatewayConfig.ValidateObjects` | internal/adapters/nftgen/nftgen.go:287-391 | the three passes together: accepted if and only if all objects are well formed, distinct and closed under reference |
| `GatewayConfig.Validate` | internal/adapters/nftgen/nftgen.go:723-829 | accepted if and only if the objects, ports, interfaces and management path all satisfy the stated conditions; ports 22 and 443 are never forwarded |
| `GatewayConfig.AcceptedNamesAreInert` | internal/adapters/nftgen/nftgen.go:287-391 | every zone, interface, alias and rule name the validator accepts is printable and free of the characters that end a string, statement, set or line in nft |
| `GatewayConfig.SubInterfacesAreApart` | internal/adapters/nftgen/nftgen.go:138-143 | an untagged zone is on its port, and tagged zones are on one sub-interface if and only if they share port and tag |
| `GatewayConfig.ZoneIfaceFinds` | internal/adapters/nftgen/nftgen.go:394-400 | with distinct zone names the name-to-interface map returns the interface of the zone carrying the name |
| `FilterSets.GatherInternalNetworks` | internal/adapters/nftgen/nftgen.go:472-507 | the two loops with their seen-map compute the deduplicated list of internal networks |
| `FilterSets.ZoneNetworksAreTheInternalOnes` | internal/adapters/nftgen/nftgen.go:472-488 | a network is listed if and only if some non-WAN zone has it, and none is listed twice |
| `FilterSets.InternalNetworksCover` | internal/adapters/nftgen/nftgen.go:493-507 | an address is covered by the list if and only if it lies in the client network or in a non-WAN zone's network |
| `FilterSets.DeclareSets` | internal/adapters/nftgen/nftgen.go:841-864 | the emitted declarations, in order |
| `FilterSets.GeoSetContains` | internal/adapters/nftgen/nftgen.go:859-861 | the set geo4 holds exactly the geo-blocked addresses, whatever other sets are declared |
| `FilterSets.MgmtSetContains` | internal/adapters/nftgen/nftgen.go:841-843 | the set mgmt4 holds exactly the admin network |
| `FilterSets.AliasSetContains` | internal/adapters/nftgen/nftgen.go:862-864 | the set of an alias holds exactly the alias's members; no alias name can shadow a built-in set |
| `Nft.RangesAreExact` | internal/adapters/nftgen/nftgen.go:554-584 | a range of one address is that host, a network is the range of its addresses, and a range is the two ranges it is cut into |
| `ForwardMeaning.ScheduleMatchIsExact` | internal/adapters/nftgen/nftgen.go:87-114 | the rendered weekday and clock matches hold exactly when the schedule allows the packet's time, wrap past midnight and repeated weekdays included |
| `Nft.WindowRunsForward` | internal/adapters/nftgen/nftgen.go:104-110 | a clock window is the stretch from its start forward to its end, across midnight when the end is earlier |
| `ForwardMeaning.DistinctIsDistinct` | internal/adapters/nftgen/nftgen.go:92-102 | the rendered weekday set names no day twice and leaves a list without repeats as it is |
| `ForwardMeaning.CompiledRuleIsExact` | internal/adapters/nftgen/nftgen.go:664-704 | the match list rendered for a valid custom rule hits exactly the packets the rule asks for: zones, aliases, protocol, port and schedule |
| `ForwardChain.EmitCustomRules` | internal/adapters/nftgen/nftgen.go:980-989 | the loop emits one compiled rule per enabled custom rule, in order |
| `ForwardMeaning.CustomBlockMeans` | internal/adapters/nftgen/nftgen.go:980-989 | first match in the emitted block gives the action of the first enabled rule that applies, and nothing when none applies |
| `ForwardChain.EmitZoneEgress` | internal/adapters/nftgen/nftgen.go:995-1000 | the egress loop: one accept to the WAN port per internal zone not on it |
| `ForwardChain.EmitZonePairRules` | internal/adapters/nftgen/nftgen.go:1001-1014 | the nested loops: one accept per ordered pair of zones of strictly falling trust |
| `ForwardChain.EmitTunnels` | internal/adapters/nftgen/nftgen.go:1018-1025 | two accepts per tunnel that has both ends, none otherwise |
| `ForwardChain.EmitPublish` | internal/adapters/nftgen/nftgen.go:1026-1048 | LAN to WAN, port forwards, 1:1 hosts and hairpin accepts, in that order, in gateway mode only |
| `ForwardChain.EmitOvpn` | internal/adapters/nftgen/nftgen.go:1052-1076 | the per-client OpenVPN accepts; a client without an address yields nothing |
| `ForwardChain.EmitForwardChain` | internal/adapters/nftgen/nftgen.go:954-1080 | the emitted chain is the blocks in their fixed order |
| `ForwardMeaning.GrantsMean` | internal/adapters/nftgen/nftgen.go:990-1076 | some default accept is hit if and only if one of the order-free grants (zone egress, zone pair, LAN to WAN, tunnel, port forward, 1:1, hairpin, OpenVPN) holds of the packet |
| `ForwardMeaning.ForwardChainMeansPolicy` | internal/adapters/nftgen/nftgen.go:954-1080 | compiler correctness: for every configuration with valid objects and every IPv4 packet, the emitted chain run first-match under its drop policy gives exactly the verdict of the order-free policy (conntrack, geo-block, inspection queue, first applicable custom rule, any grant, drop) |
| `ForwardMeaning.RepliesAreExact` | internal/adapters/nftgen/nftgen.go:965-969 | reply traffic is accepted if and only if gateway mode, an enabled rule, a tunnel or a geo-block activates the chain; OpenVPN grants alone do not |
| `ForwardMeaning.FallThroughIsExact` | internal/adapters/nftgen/nftgen.go:954-1079 | a packet falls through to the chain's silent policy if and only if nothing but the VPN uses the chain and the packet is not from the tunnel; every other packet hits a rule |
| `ZoneIsolation.ZoneTrafficIsExact` | internal/adapters/nftgen/nftgen.go:990-1027 | with zones only, a new packet between any two zones passes if and only if it is not geo-blocked and the source zone ranks strictly higher, or the destination zone sits on the WAN port itself and the source may leave through it |
| `ZoneIsolation.ReachIsExact` | internal/adapters/nftgen/nftgen.go:990-1027 | which zone reaches which by any number of default accepts: by falling trust, by the way out, by falling trust after the way out into a zone on the WAN port, or back to that zone from below it, and in no other way |
| `ZoneIsolation.RouteDescends` | internal/adapters/nftgen/nftgen.go:1001-1014 | along any chain of default accepts of any length between internal zones off the WAN port, trust strictly falls |
| `ZoneIsolation.NoWayBackToLan` | internal/adapters/nftgen/nftgen.go:990-1027 | some chain of default accepts, of any length and from anywhere, ends in a LAN zone if and only if that zone sits on the WAN port, another zone may leave through it and some source is not geo-blocked |
| `RuleTester.EvaluateForward` | internal/adapters/nftgen/nftgen.go:604-647 | the loop reports the first enabled rule the tester matches, with its name, action and 1-based position among the enabled rules, or no rule; the rows below say what it matches |
| `RuleTester.ZoneOfIsHome` | internal/adapters/nftgen/nftgen.go:588-602 | the zone named for an address is the first whose network contains it, and none if and only if no network does; an unparsable address is in no zone |
| `RuleTester.MatchIsExact` | internal/adapters/nftgen/nftgen.go:604-641 | a rule matches a probe, wildcards included, if and only if it applies at some time to some packet the probe stands for, entering and leaving where its addresses live |
| `RuleTester.UnparsedIsExact` | internal/adapters/nftgen/nftgen.go:609-635 | an address that does not parse matches exactly the rules that ask nothing of that side |
| `RuleTester.TesterMirrorsCompiler` | internal/adapters/nftgen/nftgen.go:584-647 | for a probe without wildcards and any packet it stands for, the report and the first hit in the emitted block agree in rule name, position and action if and only if the reported rule's schedule is in force (which the tester never looks at) |
| `RuleTester.TesterIsRightWithoutSchedules` | internal/adapters/nftgen/nftgen.go:584-647 | without schedules the tester always names the rule that decides |
| `RuleTester.WildcardReportIsExact` | internal/adapters/nftgen/nftgen.go:584-647 | with wildcards, a reported rule is the first the emitted block hits for some packet the probe stands for, and when none is reported the block hits no such packet at any time |
| `InputChain.ServiceAclRows` | internal/adapters/nftgen/nftgen.go:425-449 | the loop resolves the matrix rows in order and drops exactly those without an interface |
| `InputMeaning.RowsResolveExactly` | internal/adapters/nftgen/nftgen.go:423-449 | a row takes effect exactly on the interface its zone has now; a row for a vanished zone never does |
| `InputChain.EmitInputChain` | internal/adapters/nftgen/nftgen.go:866-953 | the emitted input chain is its blocks in order; InputMeaning.InputChainMeansPolicy says what they do to every packet |
| `InputMeaning.InputChainMeansPolicy` | internal/adapters/nftgen/nftgen.go:866-953 | compiler correctness for the input chain, for every configuration and every IPv4 packet |
| `InputMeaning.VpnIsExact` | internal/adapters/nftgen/nftgen.go:903-946 | a new UDP packet from an unblocked source, not on loopback and not to port 53 or 67, is accepted if and only if its port is a listed VPN port from 1 to 65535 and either no matrix row resolves or a row with VPN access stands on its interface |
| `InputMeaning.ManagementIsExact` | internal/adapters/nftgen/nftgen.go:887-939 | a new TCP packet to 22 or 443, not on loopback, is accepted if and only if it is not geo-blocked, not over an enabled brute-force limit, and comes from the admin network or on an interface where a resolved matrix row (or, when none resolves, a legacy toggle) opens that port |
| `InputMeaning.ReachabilityIsExact` | internal/adapters/nftgen/nftgen.go:453-466 | some such packet is answered if and only if an unblocked source exists that lies in the admin network or finds an interface that answers |
| `InputMeaning.ValidatorCountsPaths` | internal/adapters/nftgen/nftgen.go:763-788 | the validator's management requirement is met if and only if there is an admin network or some interface, loopback included, on which the input chain has an open management port |
| `InputMeaning.ManagementIsNeverLost` | internal/adapters/nftgen/nftgen.go:763-788 | a configuration the validator accepts answers some management packet from any unblocked eligible source if and only if it has an admin network or a management path that is not bound to loopback |
| `SetClosure.SetsAreDeclaredOnce` | internal/adapters/nftgen/nftgen.go:841-864 | no set of the filter table is declared twice |
| `SetClosure.ClosureIsExact` | internal/adapters/nftgen/nftgen.go:851-853 | every set the emitted chains refer to is declared if and only if the device-access matrix is empty or some row resolves, and every alias named by an emitted OpenVPN grant exists |
| `NatTable.EmitPrerouting` | internal/adapters/nftgen/nftgen.go:1096-1123 | the destination rewrites in order: port forwards, 1:1 hosts, reflections; NatMeaning.PreroutingMeansPolicy says what they do to every packet |
| `NatTable.EmitPostrouting` | internal/adapters/nftgen/nftgen.go:1124-1155 | the source rewrites in order: pinned sources, 1:1 hosts, masquerade, VPN masquerade, reflections; NatMeaning.PostroutingMeansPolicy says what they do to every packet |
| `NatMeaning.PreroutingMeansPolicy` | internal/adapters/nftgen/nftgen.go:1093-1123 | every packet is sent on as the configuration says: the first forward for it at the WAN port, else the first 1:1 entry for its address there, else with reflection on the first forward of its service for an internal client, else unchanged |
| `NatMeaning.PostroutingMeansPolicy` | internal/adapters/nftgen/nftgen.go:1093-1155 | every packet leaves as the configuration says: on the WAN port the address of the first source rule containing its source, else of the first 1:1 entry for it, else the masquerade when NAT is on; elsewhere masqueraded from the tunnel to the LAN port or to a published host; else untouched |
| `NatTable.PortForwardPipeline` | internal/adapters/nftgen/nftgen.go:1099-1106 | a new WAN packet hitting a port forward is rewritten to the first matching forward's target, and the forward chain accepts the rewritten packet wherever it is routed unless the geo-block, inspection or a custom rule decides first |
| `NatTable.ReflectedFlow` | internal/adapters/nftgen/nftgen.go:1111-1121 | an internal client using the public address, whose packet no WAN rule takes, is sent to the first matching forward's target, accepted likewise, and source-masqueraded when it leaves anywhere but the WAN port |
| `NatTable.ReflectionAgreesExactly` | internal/adapters/nftgen/nftgen.go:1099-1121 | an internal and an outside client asking for the same address and port are sent by the same forward if and only if the first forward of that port is bound to no other address, and to the same host if and only if the two forwards agree; the outside one is left alone when no forward or 1:1 entry is for that address |
| `Witnesses.ReflectionTakesOtherAddresses` | internal/adapters/nftgen/nftgen.go:1111-1121 | a valid configuration with one bound forward in which the appliance's LAN address leads an internal client to the host and an outside client nowhere |
| `NatTable.ManagementPortsStay` | internal/adapters/nftgen/nftgen.go:800-803 | ports 22 and 443 are rewritten if and only if a 1:1 entry maps the very address on the WAN port: port forwards and reflections never take them |
| `NatTable.OneToOneIsExact` | internal/adapters/nftgen/nftgen.go:1108-1110 | first-match translation honours every entry of a 1:1 list, both ways, if and only if the list is a bijection |
| `NatTable.OneToOneRoundTrip` | internal/adapters/nftgen/nftgen.go:1134-1136 | for such a list, unshadowed inbound and outbound translation are inverse |
| `NatTable.VpnMasqueradeIsExact` | internal/adapters/nftgen/nftgen.go:1124-1144 | a tunnel packet leaving on the LAN port is masqueraded if and only if NAT, hairpin, a pinned source or a 1:1 entry opens the postrouting chain: the VPN subnet alone does not |
| `Generator.Generate` | internal/adapters/nftgen/nftgen.go:832-1159 | refuses exactly the configurations the validator refuses, and otherwise returns a ruleset whose input, forward, prerouting and postrouting chains mean the configuration on every packet |
| `Generator.EmittedRulesetImplements` | internal/adapters/nftgen/nftgen.go:832-1159 | the emitted chains and sets implement the input and forward policies and both translations for every packet |
| `Witnesses.TesterIgnoresTheSchedule` | internal/adapters/nftgen/nftgen.go:584-587 | a valid configuration and packet on which tester and compiled rules disagree |
| `Witnesses.StaleMatrixDoesNotLoad` | internal/adapters/nftgen/nftgen.go:851-853 | a valid configuration whose table names an undeclared set |
| `Witnesses.GuestReachesLanOnTheWanPort` | internal/adapters/nftgen/nftgen.go:990-1000 | a valid configuration in which a guest reaches a LAN zone bound to the WAN port |
| `Witnesses.GuestReachesDmzThroughLan` | internal/adapters/nftgen/nftgen.go:990-1014 | a valid configuration in which a guest reaches the DMZ in two hops through such a zone, though not in one |
| `Witnesses.LoopbackOnlyIsLockedOut` | internal/adapters/nftgen/nftgen.go:453-466 | a valid configuration that answers no management packet from outside, its only path being an interface named lo |
| `Witnesses.RepliesToTheVpnAreDropped` | internal/adapters/nftgen/nftgen.go:965-969 | a valid configuration in which a VPN client's new packet is accepted and the reply is not |
| `Witnesses.AnyProtocolIgnoresThePort` | internal/adapters/nftgen/nftgen.go:1067-1071 | a valid configuration in which a grant for port 443 over any protocol lets a client reach port 22 |
| `Witnesses.ReflectionIgnoresTheAddress` | internal/adapters/nftgen/nftgen.go:1111-1121 | a valid configuration in which asking for the second public address leads outside clients to its host and inside clients to the first one's |
| `Witnesses.VpnAloneIsNotMasqueraded` | internal/adapters/nftgen/nftgen.go:1140-1144 | a valid configuration whose VPN subnet is not masqueraded onto the LAN |
| `Witnesses.OneToOneTakesTheGuiPort` | internal/adapters/nftgen/nftgen.go:1107-1110 | a valid configuration whose 1:1 entry takes port 443 of the appliance |
| `BlockList.GatewayStore.BlockIp` | cmd/saguaro/firewall_block.go:85-114 | the stored configuration after the loops is the specified one |
| `BlockList.GatewayStore.UnblockIp` | cmd/saguaro/firewall_block.go:143-173 | likewise, with alias and rule removed together when the list runs empty |
| `BlockList.RunHoldsExactlyTheBlocked` | cmd/saguaro/firewall_block.go:80-173 | after any run of blocks and unblocks on a configuration without the alias and the rule, the configuration is the original one plus exactly the currently blocked addresses, each once, nothing else moved |
| `BlockList.RunIsSafe` | cmd/saguaro/firewall_block.go:80-173 | every run keeps the objects valid, gives every forwarded packet from a blocked address exactly this verdict: accept when its connection is already open, queue when new and inspected and not geo-blocked, drop otherwise; and is back at the original configuration when nothing is blocked |
| `BlockList.RunSparesOthersExactly` | cmd/saguaro/firewall_block.go:80-173 | over every run, the verdict on a packet from an address that is not blocked is the one before if and only if it is not one of an open connection on a host whose chain was empty, nor one that lacks only a grant and has a VPN grant naming the alias for a destination now blocked |
| `Witnesses.BlockingOpensReplies` | cmd/saguaro/firewall_block.go:103-114 | a valid configuration on which blocking any address lets a reply pass that was dropped |
| `BlockList.BlockKeepsValidityExactly` | cmd/saguaro/firewall_block.go:85-102 | with an alias of that name already present, blocking keeps the configuration valid if and only if it is a host alias |
| `BlockList.BlockingSparesTheInputChain` | cmd/saguaro/firewall_block.go:14-17 | blocking leaves the verdict of the input chain unchanged on every packet |
| `Witnesses.BlockingBreaksANetworkAlias` | cmd/saguaro/firewall_block.go:87-98 | a valid configuration that blocking makes invalid |
| `OpenVpn.NextFreeAddr` | internal/adapters/openvpn/openvpn.go:85-108 | the search loop with its used-map returns the first free address from offset 2 on |
| `OpenVpn.OffsetIsInside` | internal/adapters/openvpn/openvpn.go:110-113 | the n-th address after the base is inside the subnet if and only if n is below the block size, 32-bit wrap-around included |
| `OpenVpn.AllocationIsExact` | internal/adapters/openvpn/openvpn.go:85-108 | the answer lies in the subnet, is not the server's and is held by no active client; there is none if and only if every offset 2 to 253 inside the subnet is taken |
| `Witnesses.LastAddressIsHandedOut` | internal/adapters/openvpn/openvpn.go:98-106 | in a /30 the second client gets the last address of the block |
| `OpenVpn.ClientStore.AddClient` | cmd/saguaro/openvpn.go:259-286 | refuses exactly a name already active; otherwise appends the client with the allocated address |
| `OpenVpn.ClientStore.RevokeClient` | cmd/saguaro/openvpn.go:376-386 | marks exactly the active clients of that name and reports whether there was one |
| `OpenVpn.ClientStore.SetAccess` | cmd/saguaro/openvpn.go:350-360 | replaces the access list of exactly the active clients of that name |
| `OpenVpn.RunIsSound` | cmd/saguaro/openvpn.go:254-286 | over every run of adds, revocations and access changes, active clients have distinct names and distinct addresses, all inside the subnet and none the server's |
| `OpenVpn.RunReflectsRequests` | cmd/saguaro/openvpn.go:254-386 | over every run, exactly the names added and not revoked since have an active client, and its access list is the one last granted since it was added, or empty |
| `OpenVpn.UnaddressedExactlyWhenFull` | cmd/saguaro/openvpn.go:285-286 | a new client is left without an address if and only if the subnet is exhausted |
| `OpenVpn.RevocationIsExact` | cmd/saguaro/openvpn.go:376-386 | after a revocation the name is not active, and exactly the addresses held by other active names stay held |
| `OpenVpn.GrantIsExact` | cmd/saguaro/openvpn.go:350-360 | after an access change the emitted tunnel rules hold the named client to exactly the new list, an empty one opening everything, and every other client to its own |
| `OpenVpn.RevokedReachNothing` | cmd/saguaro/openvpn.go:376-386 | after a revocation the named client's packets hit no tunnel rule, everyone else's do as before |
| `OpenVpn.BuildAccess` | cmd/saguaro/firewall_objects.go:80-96 | the loop yields one entry per active client with an address |
| `OpenVpn.TunnelAccessIsTheHolders` | cmd/saguaro/firewall_objects.go:80-96 | in every reachable client list the emitted OpenVPN rules accept a new tunnel packet if and only if its source is held by an active client, necessarily a single one, that has no access list or a rule for the packet |
| `OpenVpn.PortIsEnforcedExactly` | internal/adapters/nftgen/nftgen.go:1061-1073 | the rule emitted for a grant with a port admits only that port if and only if the grant names tcp or udp, or its destination contains no address |
| `Ipv4.ContainsIsInterval` | internal/adapters/kea/subnets.go:188-195 | mask membership is membership in the interval from the masked address over the block size |
| `Ipv4.NestedOrDisjoint` | internal/adapters/kea/subnets.go:187-195 | two blocks sharing an address are nested |
| `Ipv4.OverlapIsExact` | internal/adapters/kea/subnets.go:187-195 | the two-point overlap test holds if and only if the blocks share an address |
| `KeaSubnets.Dhcp4.EnsureDefaults` | internal/adapters/kea/subnets.go:120-150 | missing socket settings are filled in, nothing else changes |
| `KeaSubnets.Dhcp4.EnsureInterface` | internal/adapters/kea/subnets.go:104-116 | the interface is added to the listen list unless it or the wildcard is there |
| `KeaSubnets.ListeningIsEnsured` | internal/adapters/kea/subnets.go:101-116 | afterwards Kea listens on the interface or on all, nothing listened on before is lost, and a second call changes nothing |
| `KeaSubnets.RunKeepsServing` | internal/adapters/kea/subnets.go:101-150 | over every run of edits Kea listens wherever a subnet is bound, on everything it listened on before, and with every socket setting the operator chose |
| `KeaSubnets.Dhcp4.AddSubnet` | internal/adapters/kea/subnets.go:199-233 | adds with the next id if and only if the spec is sound and no existing subnet equals or overlaps it; the whole new state, also of a refused call |
| `KeaSubnets.Dhcp4.UpdateSubnet` | internal/adapters/kea/subnets.go:237-261 | rewrites if and only if the spec is sound and the first subnet with the id has that CIDR; the whole new state, also of a refused call |
| `KeaSubnets.SpecIsSound` | internal/adapters/kea/subnets.go:66-99 | a spec is taken if and only if its pool holds an address, the pool's addresses and the router all lie in the subnet, and the interface name is one |
| `KeaSubnets.AddReadsBack` | internal/adapters/kea/subnets.go:199-233 | an accepted add appends one entry under the new id that reads back as asked; the other entries stay, and missing socket settings get their defaults |
| `KeaSubnets.UpdateReadsBack` | internal/adapters/kea/subnets.go:237-261 | after an accepted update the entry reads back as asked under its old id and with everything else it carried; the other entries stay |
| `SubnetBook.EditIsNoted` | internal/adapters/kea/subnets.go:199-279 | one request is taken on the same condition, and with the same effect, as in a book of what was last asked for each id |
| `SubnetBook.RunFollowsTheBook` | internal/adapters/kea/subnets.go:199-279 | after every run of edits each subnet says what was last asked for its id, and the ids are those the requests left |
| `KeaSubnets.UpdateCanBeUndone` | internal/adapters/kea/subnets.go:235-261 | updating with the previous values restores every subnet entry exactly, so an update loses nothing and touches no other entry |
| `KeaSubnets.DeleteUndoesAdd` | internal/adapters/kea/subnets.go:199-279 | deleting what an add created restores every subnet entry exactly |
| `KeaSubnets.Dhcp4.DeleteSubnet` | internal/adapters/kea/subnets.go:264-279 | removes exactly the entries with the id, in order, and reports whether there was one |
| `KeaSubnets.Dhcp4.SetDropClass` | internal/adapters/kea/blocklist.go:22-45 | the DROP class is rebuilt from the list, or removed with it |
| `KeaSubnets.RunKeepsPlan` | internal/adapters/kea/subnets.go:199-279 | from the empty list or any sound plan, every run of adds, updates and deletes keeps ids positive and distinct, subnets pairwise disjoint, and pools ordered and inside their subnet |
| `KeaSubnets.TwoAddsWithoutReloadCollide` | internal/adapters/kea/subnets.go:157-164 | two adds on the same in-memory map always get the same id, because only ids read back from JSON are recognised |
| `Conflicts.DetectConflicts` | cmd/saguaro/conflicts.go:39-138 | a finding of any kind is reported if and only if it is true of the subnets, pools, reservations and blocked MACs, and once, but for a MAC reserved again in one subnet, which is reported for every repetition |
| `Conflicts.RepeatsAreAllButOne` | cmd/saguaro/conflicts.go:100-104 | those repetitions are all reservations of the MAC in the subnet but the first |
| `Conflicts.TwiceMeansTwo` | cmd/saguaro/conflicts.go:91-104 | the seen-flags fire for an address or a subnet and MAC pair if and only if two reservations share it |
| `Conflicts.DetectorIsExact` | cmd/saguaro/conflicts.go:39-136 | with distinct ids, silence about subnets and pools is exactly soundness of the address plan (every pool's addresses in its subnet, no address in two pools or two subnets), and silence about reservations exactly their soundness |
| `Conflicts.ReachablePlanIsQuiet` | cmd/saguaro/conflicts.go:39-89 | on every configuration reachable from an empty subnet list by subnet edits, the detector reports nothing about subnets and pools |
| `KeaTransaction.Transact` | cmd/saguaro/dhcp.go:81-122 | the step-by-step transaction, with in-place mutation and a serialised backup, ends in the specified running configuration, outcome and written copy |
| `KeaTransaction.TransactionIsAtomic` | cmd/saguaro/dhcp.go:77-122 | success means Kea runs exactly the mutated configuration that passed the test; every error except the reported double failure leaves the configuration from before |
| `KeaTransaction.WithDropKeepsOthers` | internal/adapters/kea/blocklist.go:19-45 | rebuilding the DROP class keeps every other client class in order |
| `KeaTransaction.Appliance.RecordAudit` | cmd/saguaro/main.go:615-623 | the audit entry of any request writes the whole state, the stored list included, or nothing when the write fails |
| `KeaTransaction.Appliance.ChangeSubnets` | cmd/saguaro/dhcp.go:124-193 | one subnet request with its outcome, followed by its audit entry whether it succeeded or not |
| `KeaTransaction.Appliance.Block` | cmd/saguaro/dhcp_block.go:40-71 | one block request: idempotent for a listed MAC, stored only after Kea took it |
| `KeaTransaction.Appliance.Unblock` | cmd/saguaro/dhcp_block.go:73-104 | one unblock request, refused for an unlisted MAC |
| `KeaTransaction.StepSyncIsExact` | cmd/saguaro/dhcp_block.go:25-104 | from any state, a request keeps every other client class in order whatever fails; afterwards the DROP class is the stored list if and only if the request was a blocklist change that went through, or it was before and the request was not one whose verification and rollback both failed |
| `KeaTransaction.RunSyncIsExact` | cmd/saguaro/dhcp_block.go:25-104 | over any mix of subnet and blocklist requests and whatever fails, every other class keeps its order, and the DROP class is the stored list if and only if each blocklist change left hanging was followed by one that went through |
| `KeaTransaction.RestartIsExact` | cmd/saguaro/dhcp.go:114-121 | after one request, a restart that reloads what Kea and the appliance wrote is in step if and only if the request was not a blocklist change that went through with only one of the two writes working |
| `KeaTransaction.RunRestartIsExact` | cmd/saguaro/dhcp.go:114-193 | over any mix of requests from a state in step on disk too, such a restart is in step if and only if the list Kea showed when it last wrote its file is the list stored when the state file was last written |
| `Witnesses.NextRequestSavesTheList` | cmd/saguaro/dhcp.go:180-190 | a list that could not be saved reaches the disk with the audit entry of a refused deletion, and a restart is then in step |
| `Witnesses.RestartForgetsABlock` | cmd/saguaro/dhcp.go:114-116 | a MAC blocked while Kea could not write its file is listed and served after a restart |
| `KeaTransaction.SyncMeansExactlyTheStoredMacs` | internal/adapters/kea/blocklist.go:8-21 | in step means the clients Kea ignores are exactly the stored MACs |
| `KeaTransaction.NextSuccessRepairs` | cmd/saguaro/dhcp_block.go:60-68 | however the two drifted apart, the next blocklist change that goes through brings them together |
| `KeaTransaction.RunKeepsPlan` | cmd/saguaro/dhcp.go:81-193 | the address plan survives every mix of requests, failed rollbacks included |
| `ConfigVersions.ChangedSections` | cmd/saguaro/config_versions.go:81-97 | the two loops report exactly the sections added, removed or modified |
| `ConfigVersions.NothingChangedIsEqual` | cmd/saguaro/config_versions.go:79-97 | for fingerprints of real configurations, nothing changed means equal |
| `ConfigVersions.VersionedStore.constructor` | cmd/saguaro/config_versions.go:102-115 | a fresh store holds one baseline snapshot |
| `ConfigVersions.VersionedStore.PruneVersions` | cmd/saguaro/config_versions.go:159-168 | exactly the newest forty snapshots are kept |
| `ConfigVersions.VersionedStore.SnapshotLocked` | cmd/saguaro/config_versions.go:136-157 | a snapshot is added and the rest pruned, or nothing happens when the write fails |
| `ConfigVersions.VersionedStore.SaveLocked` | cmd/saguaro/main.go:597-613 | a save snapshots if and only if some section changed since the last one |
| `ConfigVersions.VersionedStore.EditConfig` | cmd/saguaro/dhcp_block.go:16-21 | a setter: the sections are replaced and the store saved |
| `ConfigVersions.VersionedStore.AddAudit` | cmd/saguaro/main.go:615-623 | an audit entry is put in front of at most 5000 |
| `ConfigVersions.VersionedStore.TakeCheckpoint` | cmd/saguaro/config_versions.go:245-256 | a checkpoint snapshots unconditionally and adds its own audit entry |
| `ConfigVersions.VersionedStore.RestoreVersion` | cmd/saguaro/config_versions.go:264-299 | a restore rolls back all but audit trail and services, saves, adds its own audit entry and reports the changed sections; an unknown version changes nothing |
| `ConfigVersions.RecordIsSilent` | cmd/saguaro/main.go:609-623 | an audit entry alone never takes a snapshot and touches nothing else |
| `ConfigVersions.RunIsCurrent` | cmd/saguaro/config_versions.go:102-168 | over every orderly run from a fresh store, the newest snapshot has the live configuration's fingerprints and at most forty are kept, in time order |
| `ConfigVersions.WrittenIsExact` | cmd/saguaro/config_versions.go:136-157 | a new snapshot leaves the listing in time order, with every older snapshot of another time and the new one in place of one of its own time |
| `ConfigVersions.PrunedIsNewest` | cmd/saguaro/config_versions.go:159-168 | beyond forty, exactly the newest forty snapshots stay |
| `ConfigVersions.RunKeepsTrueSnapshots` | cmd/saguaro/config_versions.go:102-168 | over every run, with failing writes and a clock that jumps, at most forty snapshots are kept, one per time, and each is of a state the store really had then |
| `ConfigVersions.RunKeepsTheTrail` | cmd/saguaro/config_versions.go:260-299 | over every run, restores included, the audit trail is everything ever recorded, newest first and cut at 5000, and the service list is untouched |
| `ConfigVersions.RunShowsTheLastEdit` | cmd/saguaro/config_versions.go:102-134 | the sections and tokens last put in are there until the next edit or restore |
| `ConfigVersions.RestoreCanBeUndone` | cmd/saguaro/config_versions.go:260-299 | every restore installs exactly the snapshot's sections, and afterwards some kept snapshot restores the prior ones; services and audit trail are never rolled back, each restore adding one entry |
| `ConfigVersions.FailedSnapshotIsLost` | cmd/saguaro/config_versions.go:120-131 | after a failed snapshot write the newest snapshot matches the live configuration if and only if the save changed no section; the write is never retried |
| `ConfigVersions.TokensComeBackExactly` | cmd/saguaro/config_versions.go:46-77 | after API tokens are set and a version is restored, another restore can bring them back if and only if that version held them or a snapshot did that the restore kept |
| `Witnesses.TokensAreLost` | cmd/saguaro/config_versions.go:282-289 | tokens set after the only snapshot are gone after a restore, and no later restore brings them back |
| `Witnesses.FailedSnapshotIsNotRetried` | cmd/saguaro/config_versions.go:120-131 | a section changed while the snapshot could not be written is in no snapshot after the next save either |
| `Text.SameLengthSortsByValue` | cmd/saguaro/config_versions.go:164-164 | decimal file names of equal length sort as text the way they sort as numbers |
| `Text.DecimalReadsBack` | cmd/saguaro/config_versions.go:164-164 | a number is written in base ten without leading zeroes and reads back as itself |
| `LoginLimiter.Limiter.Check` | cmd/saguaro/ratelimit.go:37-45 | locked if and only if now is not after the lock time, with the exact remaining time |
| `LoginLimiter.Limiter.Fail` | cmd/saguaro/ratelimit.go:49-72 | the doubling loop computes min(cap, base * 2^(failures - 6)) for every failure count above five, and the entry is updated with it |
| `LoginLimiter.Limiter.Success` | cmd/saguaro/ratelimit.go:75-79 | the key is forgotten, no other |
| `LoginLimiter.Limiter.Prune` | cmd/saguaro/ratelimit.go:83-91 | exactly the idle and unlocked entries are dropped |
| `LoginLimiter.DelayDoubles` | cmd/saguaro/ratelimit.go:47-72 | five failures are free; the sixth costs half a minute, and every further one twice the last up to a quarter of an hour |
| `LoginLimiter.RunCountsTheStreak` | cmd/saguaro/ratelimit.go:37-91 | over every run on any keys the map holds exactly each key's failures since it last succeeded or was forgotten, the last one's time and the lock that goes with them; a key is forgotten only by a prune more than a quarter of an hour after its last failure |
| `LoginLimiter.LockoutBound` | cmd/saguaro/ratelimit.go:47-72 | in any check-then-fail run on one key, failure n + 1 comes more than the sum of the delays for failures 6 to n after failure 6 |
| `LoginLimiter.SteadyState` | cmd/saguaro/ratelimit.go:63-69 | from the eleventh failure on every guess costs the full fifteen minutes, and the delays of failures 6 to n come to exactly 930 s and 900 s for each failure past the tenth |
| `LoginLimiter.LocksAreBounded` | cmd/saguaro/ratelimit.go:49-91 | in every reachable map no lock ends later than the last failure plus the cap |
| `LoginLimiter.PruneIsInvisible` | cmd/saguaro/ratelimit.go:81-91 | pruning never changes what a later check answers |
| `LoginLimiter.PruneForgetsTheCount` | cmd/saguaro/ratelimit.go:81-91 | the failure after a prune is free if and only if the key was pruned or had fewer than five failures |
| `Witnesses.PruneFreesAGuess` | cmd/saguaro/ratelimit.go:81-91 | a seventh failure that would cost a minute is free after a prune |
| `AlertAggregator.Aggregator.Offer` | internal/mail/aggregate.go:39-51 | an alert is sent if and only if the key is new or its window is over; otherwise the repeat is counted |
| `AlertAggregator.Aggregator.Flush` | internal/mail/aggregate.go:55-69 | exactly one summary with the right count and last message for every closed key with repeats, none for others; closed keys are forgotten |
| `AlertAggregator.OffersAreAccountedFor` | internal/mail/aggregate.go:39-69 | over every run and per key, offers = immediate alerts + summarised + still pending + overwritten by a late offer |
| `AlertAggregator.LossIsExact` | internal/mail/aggregate.go:43-46 | counts are overwritten if and only if some offer comes after the close of a window that saw repeats and that no flush at or after its close has summarised |
| `AlertAggregator.NothingIsOverwritten` | internal/mail/aggregate.go:43-46 | nothing is overwritten when a flush at or after window close precedes the next offer after it |
| `Witnesses.UnflushedRepeatIsLost` | internal/mail/aggregate.go:39-51 | a run of three offers without a flush whose repeat is never reported |
| `AlertAggregator.AlertsAreAWindowApart` | internal/mail/aggregate.go:8-10 | two immediate alerts for one key are at least one window apart |
| `PortMap.Gather` | internal/adapters/portmap/portmap.go:56-70 | the pass stops if and only if two usable ports share a MAC, and otherwise keeps exactly the usable ones in order |
| `PortMap.Auto` | internal/adapters/portmap/portmap.go:49-108 | succeeds if and only if the roles differ and are found, MACs are distinct and the derived map is valid; the result is that map |
| `PortMapAgain.MapIsExact` | internal/adapters/portmap/portmap.go:49-108 | the map holds exactly the ports whose MAC parses and is not all zeroes, in kernel-name order |
| `PortMapAgain.NamesAreExact` | internal/adapters/portmap/portmap.go:88-103 | the LAN port is named lan0, the WAN port wan1, and any other port by its number among those without a role |
| `PortMap.Validate` | internal/adapters/portmap/portmap.go:111-141 | accepts exactly the maps with valid distinct names, distinct MACs and no name that is another mapped port's kernel name |
| `PortMap.RenamesNeverCollide` | internal/adapters/portmap/portmap.go:172-180 | for a valid map, performing the plan's renames one at a time in any order never takes a name another mapped port holds at that moment, and ends with every port on its logical name |
| `PortMapAgain.NineSparesAreStable` | internal/adapters/portmap/portmap.go:45-108 | with at most nine spare ports, running again on the renamed ports succeeds with an empty plan |
| `PortMapAgain.TenSparesAreRefused` | internal/adapters/portmap/portmap.go:53-54 | with ten or more the second run is refused, because net10 sorts before net2 |
| `PortMapAgain.StabilityIsExact` | internal/adapters/portmap/portmap.go:45-108 | running again is a fixed point if and only if at most nine ports are spare |
| `PortMapAgain.UntouchedMachineIsMapped` | internal/adapters/portmap/portmap.go:45-108 | with no role given, ports with distinct MACs and kernel names starting with e are all spares, and are mapped if and only if the last spare name fits fourteen characters |
| `Witnesses.TenPortsAreMappedOnce` | internal/adapters/portmap/portmap.go:53-54 | ten such ports, on which the first run succeeds and the second is refused |
| `Retention.AddMonthsNormalises` | internal/events/events.go:161-161 | the date a number of months away is the one real date that lies as many days after the first of the target month as today lies after the first of this one: calendar overflow |
| `Retention.BoundsAreGregorian` | internal/events/events.go:152-156 | the bounds of each month lie at the Gregorian day counts: 365 days a year, one more for each leap year, and the days gone in this one |
| `Retention.PartitionsTileTime` | internal/events/events.go:152-156 | every instant lies in exactly one monthly interval |
| `Retention.InstantsAreInOrder` | internal/events/events.go:147-156 | instants come in the order of their dates and seconds |
| `Retention.OwnPartition` | internal/events/events.go:149-156 | an event lies in the partition of its own date and in no other |
| `Retention.EventStore.EnsurePartitions` | internal/events/events.go:160-170 | the loop steps the tables as specified, and reports whether both statements worked |
| `Retention.EnsureIsExact` | internal/events/events.go:158-170 | this month's partition and the one AddDate gives are there afterwards, in that order, until a statement fails |
| `Retention.EventStore.PruneOldPartitions` | internal/events/events.go:177-216 | the two loops over the listing and the candidates step the tables as specified, a failed listing included |
| `Retention.DroppedExactly` | internal/events/events.go:209-214 | a table disappears if and only if it comes up for dropping before any drop has failed |
| `Retention.PruneIsExact` | internal/events/events.go:177-216 | a prune that sees all tables succeeds if and only if every partition before the cutoff can be dropped, and then exactly those are gone; a failed one has dropped only such partitions and left one that cannot be dropped |
| `Retention.CutoffIsExact` | internal/events/events.go:178-202 | a month is before the cutoff if and only if it has ended by the day that lies keep months back, counted in days from the first of that month |
| `Retention.RetentionWindow` | internal/events/events.go:174-181 | months from m - k + 1 on are never before the cutoff, months before m - k always are |
| `Retention.NothingRecentIsDropped` | internal/events/events.go:160-216 | over any interleaving of the two jobs, whatever statements fail, a month that has its partition keeps it while inside the window |
| `Retention.NothingOldSurvives` | internal/events/events.go:177-216 | after a prune that sees all tables and reports success, no month before m - k has a partition |
| `Retention.RunIsItsHistory` | internal/events/events.go:158-216 | after any run of the two jobs, on any days and whatever statements fail, a month has its partition if and only if some job made it and no later one dropped it |
| `Retention.NextMonthIsEnsuredExactly` | internal/events/events.go:158-170 | the next month's partition is created if and only if that month has today's day; on days 1 to 28 exactly m and m + 1 are created |
| `Retention.JanuaryThirtyFirstSkipsFebruary` | internal/events/events.go:161-161 | on 31 January 2026 the second partition created is March |
| `ReverseDns.SuffixIsLabelSuffix` | cmd/saguaro/dns.go:267-267 | a dotted name ends in a dot and another name if and only if its labels end, properly, in the other's |
| `ReverseDns.PtrNameIsSpelled` | cmd/saguaro/dns.go:184-193 | the PTR name of a.b.c.d is d.c.b.a.in-addr.arpa. in decimal, for every address |
| `ReverseDns.PtrNameIsUnique` | cmd/saguaro/dns.go:184-193 | two addresses have the same PTR name if and only if they are equal |
| `ReverseDns.ReverseZoneIsSpelled` | cmd/saguaro/dns.go:162-182 | the zone of a /8, /16 or /24 spells the leading octets of any address in it in reverse, and no other prefix has a zone |
| `ReverseDns.ZoneCoversExactlyItsBlock` | cmd/saguaro/dns.go:162-193 | the PTR name of an address ends in a dot and the reverse zone of a /8, /16 or /24 if and only if the address lies in that block |
| `ReverseDns.FindZone` | cmd/saguaro/dns.go:261-272 | for any zone list the search returns a covering reverse zone of greatest length, or nothing if and only if none covers |
| `ReverseDns.LongestIsUnique` | cmd/saguaro/dns.go:266-270 | two covering zones of equal length are the same zone |
| `ReverseDns.LongestZoneIsMostSpecific` | cmd/saguaro/dns.go:266-270 | among reverse zones covering an address, a longer name is exactly a longer prefix |
| `ReverseDns.RecordGoesToTheMostSpecific` | cmd/saguaro/dns.go:261-277 | on the reverse zones of any list of /8, /16 and /24 blocks, a PTR record goes to the zone of the longest prefix containing its address, and is refused if and only if no block contains it |

## Left out

- NatTable.OneToOneRoundTrip: for packets no port forward or pinned source takes first, since those come earlier in the chains.
- PortMapAgain.StabilityIsExact: for ports with non-empty kernel names, as the kernel gives them.
- RuleTester.TesterMirrorsCompiler: for packets on the interfaces of the zones the tester places their addresses in; the tester sees no interfaces.
- ZoneIsolation.ZoneTrafficIsExact: stated with inline inspection off; with it on, new packets are queued before the default accepts and Suricata's verdict is not part of this model.
- ConfigVersions.RunIsCurrent: for a clock that moves forward and snapshot writes that succeed; `ConfigVersions.FailedSnapshotIsLost` is the other case.
- KeaTransaction.TransactionIsAtomic: takes a failed config-set to leave Kea as it was.
- Address, CIDR, pool and clock text: values arrive parsed, so whitespace that some checks trim and others do not is not modelled (a padded subnet text can escape the overlap test).
- The nft text itself: comments, counters, log prefixes, quoting, and the text order of the internal networks; also nft's own refusal of overlapping interval elements or reversed ranges.
- The Dual-WAN mark chain and the validation of its uplinks; country codes, of which only the resolved blocks matter here.
- IPv6 packets; the inside of the rate-limit set, which enters as a flag of the packet.
- The order in which the conflict detector lists its findings.
- The HTTP handlers around the state changes: JSON decoding, status codes, the gateway-configured guards, the refusal to delete a subnet with reservations, audit details other than the entry itself.
- The root adapters and the 120-second confirm window; reload failures of OpenVPN between a state change and its storage.
- Interleavings of handlers: each is one atomic step, and the value slice an unblock shares with the stored configuration is a value here.
- Certificates, passwords, tokens, SQL, and the syntax of DHCP options; MAC normalisation.
- Subnet ids beyond the exact range of a JSON number.
- In `ConfigVersions`, failed writes of the main state file (`KeaTransaction` models them for the blocklist), hash collisions between section fingerprints, and the directory listing, which is taken in time order (`Text.SameLengthSortsByValue` is why file names sort that way).
- The choice Go's unstable sort makes among equal kernel names, and names held by ports without a MAC.
- Canonical spelling of DNS zone names, which are taken as canonical; partition names beyond year 9999.
- Validators and line parsers of other services, WireGuard and IPsec configuration, and the user interface.
