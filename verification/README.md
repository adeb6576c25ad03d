# microbe, modelled in Dafny

microbe brings up stacks of virtual machines: a command-line tool plans
addresses and names, a root daemon creates links and nftables rules, and a
guest agent serves exec sessions over vsock. This project models the parts of
it where a mistake is hard to see, and proves what they promise. Check it with
`dafny verify dfyconfig.toml`.

Five groups of modules:

- **The nftables compiler and reconciler** (`NftMachine`, `NftCompile`,
  `NftTable`, `NftRuns`, `PortMappings`, `StackPolicy`). Packets are bytes,
  expressions run on sixteen-byte registers, and the daemon's calls change the
  chains of one table. Field offsets follow section 3 of RFC 8200, section 3.1
  of RFC 9293 and RFC 768. Main results: `StackPolicy.TrafficIsAsDeclared` (the
  compiled table means what the configuration declares), `NftRuns.RunRefines`
  and `NftRuns.RunMeaning` (over any calls the chains are the set of specs),
  `StackPolicy.PublishedPortReachesGuest`.
- **The vsock exec protocol** (`Frames`, `Connections`, `FrameWriters`,
  `Sessions`). Two codecs, a handshake, goroutines that share a connection
  under a lock as a state machine whose steps write any number of bytes, and
  the two demultiplexers. Main results: `Frames.RoundTripAll`,
  `FrameWriters.Reachable`, `Sessions.StdinInEveryRun`,
  `Sessions.SizesPreserved`, `Sessions.OutputInEveryRun`.
- **Dependency order and health-gated start** (`Dependencies`, `StartOrder`,
  `StartLoop`). Main results: `Dependencies.DetectCycle`,
  `StartOrder.ComputeStartOrder`, `StartOrder.SearchesAgree`,
  `StartLoop.StartServices`, `StartLoop.UpServices`.
- **Device ownership** (`DeviceNames`, `Devices`, `Taps`). Completed commands
  are steps on a stack's links and state, as are ups that fail half-way, and the
  configuration is free at every step. Main results: `Devices.NoDeviceLeaks`,
  `Devices.DownExactly`, `Devices.PurgeExactly` (name by name what a command
  leaves), `Devices.PurgeSparesLive`, `Devices.PurgeAllClears`,
  `Devices.PartialDownKeepsTaps`, `Devices.PartialUpSparesTaps`,
  `Taps.EnsureConverges`.
- **Address, prefix, MAC and CID planning** (`Addresses`, `HostPrefix`,
  `Sorting`, `Assignments`). Main results: `Addresses.AddressesArePermanent`,
  `HostPrefix.OnePrefix` (section 3.1 of RFC 4193 for the form),
  `Assignments.MacsDistinct`, `Assignments.AssignCIDs`.

`Common` holds bytes, big-endian numbers and separator facts, `Decimal` Go's
`strconv.Itoa` and `strconv.Atoi`.

What the model takes as a parameter: `net.ParseIP` (`Host.parseIP`, sixteen
bytes, an IPv4 address in mapped form) and the machine's byte order;
`netip.ParsePrefix` and address printing (`Addresses.Codec`); SHA-256 in hex
(`DeviceNames.Hash`, 64 hexadecimal digits). The hypotheses about them are
explicit: texts that parse as addresses contain no `>`
(`StackPolicy.PlainAddresses`), a truncated digest does not confuse two given
names (`DeviceNames.NoClash`), a printed prefix is not empty, and once a write on
a connection has failed nothing more reaches the wire (`FrameWriters.Does`: the
code ignores write errors and goes on writing). Random bytes, read
sizes, failed writes, map order and the outcome of every host action are
nondeterministic.

Where a natural claim is false of the code, the model says exactly when it
holds, in equivalences: `NftCompile.RuleTagAmbiguous`, `NftCompile.RuleTagsEqual`
and `NftRuns.LostExactly` (when rule tags collide and a rule is lost;
`NftRuns.UntidyRuleIsLost` is a run that loses one), `NftCompile.PortTagInjective`,
`DeviceNames.TapIDsEqual` and `Devices.PartialDownKeepsTaps` (with
`DeviceNames.HyphenatedTapsCollide`), and `Devices.FailedUpIsSafe`,
`Devices.CallIsSafe` and `Devices.NoDeviceLeaks` (when a failed up or a purge of
volumes can leak, from what is known before the call; `Devices.FailedUpLeaks` is
one that does). `Sessions.OversizedEndsSession` and `Devices.DownDeletesBridge`
(with `Devices.BridgeTakenAway`) say what happens instead: the planner's comment
says that the bridge survives a partial down
(`internal/cmd/lifecycle.go:295-299`), the daemon deletes it regardless, and the
model follows the code.

## Model

| member | source | states |
|---|---|---|
| `NftMachine.ExecPayloadGuard` | internal/provisiond/nft.go:248-257 | a payload load followed by an equality test continues exactly when the header holds those bytes at that offset, whatever the registers held; a header too short never continues |
| `NftMachine.ExecProtoGuard` | internal/provisiond/nft.go:285-286 | a protocol load followed by an equality test continues exactly for that protocol; a packet without a transport header never continues |
| `NftMachine.ChainAccepts` | internal/provisiond/nft.go:331-343 | a default-deny chain of accepting rules accepts exactly when some rule fires, in any order and with registers carried from rule to rule |
| `NftCompile.AcceptedAddresses` | internal/provisiond/nft.go:237-241 | an address text is accepted exactly when it parses to sixteen bytes that are not ten zeros, ff ff and four more, and as those bytes |
| `NftCompile.UniqueLocalAccepted` | internal/provisiond/nft.go:237-241 | so no address under a generated prefix, whose first byte is 0xfd, is refused |
| `NftCompile.TagTexts` | internal/provisiond/nft.go:296-304 | the texts of the tags, field by field |
| `NftCompile.DnatTagInjective` | internal/provisiond/nft.go:296-298 | a DNAT tag determines its whole port spec although addresses contain the separator |
| `NftCompile.PortTagInjective` | internal/provisiond/nft.go:302-304 | two forward-accept tags are equal if and only if guest address and guest port are; the host port is not part of it |
| `NftCompile.RuleTagInjective` | internal/provisiond/nft.go:456-458 | a rule tag determines its spec when no source address contains ">" and no protocol contains ":" |
| `NftCompile.RuleTagAmbiguous` | internal/provisiond/nft.go:456-458 | a spec shares its tag with another, tidy one if and only if its source contains ">" or its protocol contains ":" |
| `NftCompile.RuleTagsEqual` | internal/provisiond/nft.go:456-458 | exactly when two specs share a tag: cut at the first ">" and the last ":", both read back as the same spec |
| `NftCompile.TagClassesDisjoint` | internal/provisiond/nft.go:48-57 | the four kinds of tag never coincide, and each tag carries its own prefix |
| `NftCompile.RuleExprsMeaning` | internal/provisiond/nft.go:474-508 | a compiled rule accepts exactly packets with its source, destination, protocol and (unless 0) destination port, and otherwise falls through |
| `NftCompile.PortAcceptMeaning` | internal/provisiond/nft.go:279-293 | a compiled port accept accepts exactly TCP to its guest address and port |
| `NftCompile.DnatMeaning` | internal/provisiond/nft.go:237-265 | a compiled DNAT rule redirects exactly TCP to its host port, to its guest address and port |
| `NftCompile.MaskedState` | internal/provisiond/nft.go:373-385 | in either byte order the mask leaves a non-zero value exactly when the established or the related bit is set |
| `NftCompile.EstablishedMeaning` | internal/provisiond/nft.go:373-387 | the established rule accepts exactly packets whose connection state has the established or the related bit |
| `NftTable.FingerprintSet` | internal/provisiond/nft.go:317-325 | exactly the non-empty tags with the prefix among the chain's rules |
| `NftTable.Kernel.EnsureForwardChain` | internal/provisiond/nft.go:331-365 | adds the established rule only if no rule carries its tag, and changes nothing else; one rule with that tag is then there |
| `NftTable.Kernel.PruneLegacyHostLocalNAT` | internal/provisiond/nft.go:196-226 | removes exactly the output rules tagged "microbe:..." and the postrouting rules tagged "microbe-masq-loopback" and keeps the rest in order |
| `NftTable.PrunedIs` | internal/provisiond/nft.go:196-226 | rule by rule which legacy rules are gone and that all others stay |
| `NftTable.EnsuredForward` | internal/provisiond/nft.go:331-365 | the established rule is appended exactly when no rule of the chain has its tag |
| `NftTable.Kernel.ApplyPorts` | internal/provisiond/nft.go:64-121 | succeeds exactly when every guest address is a text `NftCompile.AcceptedAddresses` takes; a failure adds no port rule, a success appends the missing DNAT and accept rules, in order; the legacy rules are gone either way |
| `NftTable.PortsOkIs` | internal/provisiond/nft.go:237-241 | a list of ports compiles if and only if the daemon takes every guest address in it |
| `NftTable.Kernel.QueuePorts` | internal/provisiond/nft.go:101-119 | the queued additions are the compiled specs whose tags the two listings lacked |
| `NftTable.Kernel.TeardownPorts` | internal/provisiond/nft.go:125-171 | removes from each chain exactly the rules carrying a tag of the given specs |
| `NftTable.Kernel.DeleteTagged` | internal/provisiond/nft.go:146-152 | the rules kept are those whose tag is not wanted, in order |
| `NftTable.Kernel.ApplyRules` | internal/provisiond/nft.go:393-424 | succeeds exactly when every rule whose tag is new has two addresses the daemon takes; a failure adds nothing, a success appends the missing rules |
| `NftTable.RulesOkIs` | internal/provisiond/nft.go:405-412 | rules compile if and only if the daemon takes both addresses of each whose tag is new |
| `NftTable.Kernel.TeardownRules` | internal/provisiond/nft.go:428-453 | removes exactly the forward rules carrying a tag of the given specs |
| `NftRuns.KeyedChains` | internal/provisiond/nft.go:36-39 | where tags are keys, adding by tag is set union and deleting by tag is set difference |
| `NftRuns.StepRefines` | internal/provisiond/nft.go:64-171 | each call takes a table representing a set of specs to one representing the union or difference; the established rule stays unique and first |
| `NftRuns.RunRefines` | internal/provisiond/nft.go:393-453 | after any sequence of calls from an empty table, with rule texts as `NftCompile.RuleTagInjective` asks, the chains hold exactly the compiled specs of the resulting sets, established rule unique at index 0 |
| `NftRuns.UntidyRuleIsLost` | internal/provisiond/nft.go:408-412 | a run that shows why rule texts must be tidy: of two rules between real addresses that share a tag, the second is skipped and is not in the table |
| `NftRuns.LostExactly` | internal/provisiond/nft.go:408-412 | of two rules that compile, applied in turn, the second is lost if and only if both tags read back as one spec and the rules differ |
| `NftRuns.StepIdempotent` | internal/provisiond/nft.go:60-63 | repeating any call changes nothing, on any table |
| `NftRuns.TeardownRestoresPorts` | internal/provisiond/nft.go:123-171 | tearing down ports that were not there before restores every chain in content and order |
| `NftRuns.TeardownRestoresRules` | internal/provisiond/nft.go:426-453 | tearing down rules that were not there before restores the forward chain in content and order |
| `NftRuns.EstablishedKept` | internal/provisiond/nft.go:327-363 | after every call the forward chain has the established rule |
| `NftRuns.OkIsCompile` | internal/provisiond/nft.go:408-412 | skipping rules already present never hides a spec that does not compile |
| `NftRuns.ForwardMeaning` | internal/provisiond/nft.go:20-27 | the forward chain accepts exactly established traffic and what some rule or endpoint of the represented sets grants; all else is dropped |
| `NftRuns.RunMeaning` | internal/provisiond/nft.go:331-387 | the same after any sequence of calls on an initially empty table |
| `NftRuns.PreroutingMeaning` | internal/provisiond/nft.go:11-19 | a packet is redirected exactly when it is TCP to some published host port, and then to the target of such a port |
| `NftRuns.PreroutingTarget` | internal/provisiond/nft.go:237-265 | with distinct host ports the redirection is to that very spec's target |
| `Decimal.AtoiIs` | internal/cmd/lifecycle.go:270-276 | a text reads as a number exactly when it is an optional sign and at least one digit, with that value, in the 64-bit range |
| `Decimal.AtoiItoa` | internal/config/validate.go:312-313 | every 64-bit number is read back from its own text |
| `Decimal.NoLeadingZero` | internal/config/validate.go:295-297 | no number but 0 is written with a leading zero, so a number has one text |
| `PortMappings.ParsePortIs` | internal/cmd/lifecycle.go:264-278 | a mapping parses as (host, guest) if and only if it reads "a:b" with a the host port and b the guest port, both 1 to 65535 |
| `PortMappings.PortsReadBack` | internal/cmd/lifecycle.go:264-278 | so every pair of ports is read back from its own "host:guest" |
| `PortMappings.HostPortIs` | internal/config/validate.go:295-316 | the validator reads host port p exactly from "p:guest" or "address:p:guest", perhaps followed by "/" and a protocol, and otherwise no port at all |
| `PortMappings.ReadersAgree` | internal/config/validate.go:298-316 | whatever the lifecycle's parser accepts, the validator accepts and normalises to the same host port |
| `PortMappings.ValidatePorts` | internal/config/validate.go:162-177 | succeeds exactly when every mapping of every service is well formed and no two share a host port, in any map order |
| `PortMappings.SeeHosts` | internal/config/validate.go:165-174 | the mappings of one service pass exactly when they are well formed, pairwise distinct and not taken |
| `PortMappings.PortSpecs` | internal/cmd/lifecycle.go:538-562 | the specs of the selected services in order, or an error as soon as one mapping does not parse |
| `PortMappings.SpecsComplete` | internal/cmd/lifecycle.go:538-562 | a spec is in the result if and only if it comes from a mapping of a selected service, with that service's address |
| `PortMappings.HostPortsDistinct` | internal/config/validate.go:162-177 | if validation and port-spec derivation both succeed, all host ports are pairwise distinct |
| `StackPolicy.ValidateRules` | internal/config/validate.go:124-160 | succeeds exactly when all rules name two different services, a known protocol and ports in 1 to 65535, no rule lists a port twice and no two rules of the same services and protocol share a port |
| `StackPolicy.KeysDistinct` | internal/config/validate.go:146-157 | the keys of all rules are distinct if and only if no rule repeats a port and no two rules overlap |
| `StackPolicy.SeePorts` | internal/config/validate.go:146-157 | one rule's ports pass exactly when in range and their keys are new and distinct |
| `StackPolicy.RuleSpecs` | internal/cmd/lifecycle.go:321-342 | the resolved specs, rule by rule and port by port |
| `StackPolicy.RuleSpecsMembers` | internal/cmd/lifecycle.go:316-342 | a spec is in the result if and only if it resolves some declared rule with one of its ports, an empty list meaning 0 |
| `StackPolicy.DeclaredIsGranted` | internal/cmd/lifecycle.go:316-342 | a packet is declared by a rule if and only if one of the specs resolved from it grants it |
| `StackPolicy.Provision` | internal/cmd/up.go:336-349 | on an empty table succeeds exactly when all mappings parse and all specs compile, and then leaves the table of the three calls |
| `StackPolicy.UpRepresents` | internal/cmd/up.go:336-349 | after provisioning from an empty table, the table represents exactly the stack's port and rule specs |
| `StackPolicy.TrafficIsAsDeclared` | internal/cmd/up.go:336-349 | compilation preserves meaning: after provisioning, the forward chain accepts an IPv6 packet exactly when established, granted by a declared rule, or TCP to a published guest address and port |
| `StackPolicy.PublishedPortReachesGuest` | internal/provisiond/nft.go:237-293 | for a service whose mapping reads "host:guest", a TCP packet to that host port is redirected to the service's address and that guest port, and the redirected packet passes the default-deny chain |
| `Frames.BothWriteAlike` | internal/nix/flakegen/agent/main.go:53-63 | the agent and the host write every frame identically |
| `Frames.WireFormat` | internal/vsockexec/protocol.go:53-67 | byte by byte on either side: type, length with the most significant byte first, payload |
| `Frames.RoundTrip` | internal/vsockexec/protocol.go:55-86 | in all four writer and reader pairings a frame is read back with the rest of the stream intact exactly when it is within the reader's bound, and is an error otherwise |
| `Frames.PrefixIsError` | internal/vsockexec/protocol.go:70-86 | a strict prefix of a frame is always an error |
| `Frames.RoundTripAll` | internal/nix/flakegen/agent/main.go:53-78 | the same for any sequence of frames, followed by anything |
| `Frames.WholeFramesOnly` | internal/vsockexec/protocol.go:55-86 | whole frames followed by part of one are read as exactly the whole ones |
| `Frames.ResizeFormat` | internal/vsockexec/protocol.go:112-123 | rows then columns, most significant bytes first |
| `Frames.ExitFormat` | internal/nix/flakegen/agent/main.go:87-89 | the code in two's complement, most significant byte first, on either side |
| `Frames.ResizeRoundTrip` | internal/vsockexec/protocol.go:118-136 | every pair of 16-bit sizes survives encoding and either side's own decoding |
| `Frames.ExitRoundTrip` | internal/vsockexec/protocol.go:140-152 | every 32-bit signed exit code survives either side's encoding and the host's decoding |
| `Connections.Conn.ReadFull` | internal/vsockexec/protocol.go:72-84 | whatever sizes reads return, exactly n bytes are delivered, or an error exactly when fewer remain |
| `Connections.WriteFrame` | internal/vsockexec/protocol.go:55-67 | on success the connection has received exactly the encoded frame; on failure a strict prefix of it |
| `Connections.ReadFrame` | internal/vsockexec/protocol.go:70-86 | under any chunking: the frame the format defines and exactly its bytes consumed, or an error where it defines none |
| `Connections.ReadLine` | internal/vsockexec/dial.go:47-62 | succeeds exactly when a newline comes within the limit; consumes exactly the bytes through the first newline |
| `Connections.ConnectIs` | internal/vsockexec/dial.go:28 | the request is one ASCII line: "CONNECT ", the port in decimal digits, a newline |
| `Connections.DialHybridVsock` | internal/vsockexec/dial.go:23-42 | on success the request was sent, the reply line has at most 256 bytes and starts with "OK ", and the stream stands right after it; a failure after sending means there was no such reply |
| `Connections.HandshakeKeepsFrames` | internal/vsockexec/dial.go:44-62 | however the reply reads, the frames after it reach the host whole |
| `FrameWriters.LockStep` | internal/cmd/agentsession.go:67-76 | only the lock holder is inside a frame write |
| `FrameWriters.BoundedStep` | internal/nix/flakegen/agent/main.go:197-206 | no writer gets past its frame, and nothing is written after a failed write |
| `FrameWriters.WholeFramesStep` | internal/cmd/agentsession.go:63-76 | each step keeps: whole frames plus at most one partial frame, the holder's or the failed one |
| `FrameWriters.InOrderStep` | internal/nix/flakegen/agent/main.go:194-218 | each step keeps every writer's frames in the order it asked for them, with none lost unless a write failed |
| `FrameWriters.ExitLastStep` | internal/nix/flakegen/agent/main.go:280-298 | because the session's goroutine writes the exit frame after waiting for its pumps, each step keeps an exit frame last, with every goroutine done writing |
| `FrameWriters.JoiningStep` | internal/nix/flakegen/agent/main.go:295-317 | each step keeps: returned pumps are out of their writes, and the session's goroutine is past its wait only when all pumps have returned |
| `FrameWriters.Reachable` | internal/cmd/agentsession.go:67-93 | all of these hold at every moment of every concurrent execution |
| `FrameWriters.ReaderSees` | internal/cmd/agentsession.go:63-76 | at every moment a reader of the wire gets exactly the completed frames, or those and the one just written by the holder |
| `FrameWriters.WriteIsPath` | internal/vsockexec/protocol.go:55-67 | a call that gets any number of bytes of its frame out is a path of its goroutine: lock, header and payload as far as they get, release |
| `Sessions.PumpStdin` | internal/cmd/agentsession.go:81-93 | everything read is sent in order as non-empty chunks, then one empty frame |
| `Sessions.WriteLocked` | internal/cmd/agentsession.go:72-76 | the locked write on a working connection leads, whatever its outcome, where the steps of the concurrent model lead |
| `Sessions.PumpInput` | internal/nix/flakegen/agent/main.go:226-251 | the sink gets the data and end-of-file events, and in tty mode the sizes, of exactly the frames before the first error |
| `Sessions.AgentHasPrefix` | internal/cmd/agentsession.go:81-93 | the stdin frames the agent has received are a prefix of those the pump sent, and all of them once the writers are idle |
| `Sessions.StdinPreserved` | internal/nix/flakegen/agent/main.go:226-251 | under any interleaving with resize frames the agent's sink gets the chunks in order, then one end of file outside tty mode, and always a prefix of that |
| `Sessions.StdinInEveryRun` | internal/cmd/agentsession.go:81-131 | so it is in every state of every concurrent run of the host's writers |
| `Sessions.AgentHasPrefixOf` | internal/cmd/agentsession.go:67-76 | the frames of any type that one goroutine alone sends arrive as a prefix of its sequence, and all of them once the writers are idle |
| `Sessions.SizesPreserved` | internal/nix/flakegen/agent/main.go:243-248 | in tty mode the sizes the host's terminal sends are applied in order, a prefix of them at every moment and all in the end, under any interleaving with stdin; without a tty none are |
| `Sessions.ReceiveLoop` | internal/cmd/agentsession.go:168-188 | the loop prints and returns what the session function of the byte stream says |
| `Sessions.ReceiveOutput` | internal/cmd/agentsession.go:168-188 | the frames before any exit frame are printed on their streams or, of unknown types, ignored; what follows decides the outcome |
| `Sessions.ReceiveEnds` | internal/cmd/agentsession.go:168-188 | the session ends unexpectedly at what is no frame, and at an exit frame: badly unless it has four bytes, else with the signed code they spell, success exactly for 0 |
| `Sessions.OutputPreserved` | internal/nix/flakegen/agent/main.go:301-318 | once the exit frame is written the host's stdout and stderr equal the agent's chunks of each kind, under any interleaving, and the session succeeds exactly when the code is 0 |
| `Sessions.OutputInEveryRun` | internal/nix/flakegen/agent/main.go:253-318 | so it is in every concurrent run of the agent's writers, from the moment the exit frame is out |
| `Sessions.FailedStartReported` | internal/nix/flakegen/agent/main.go:255-258 | if the command cannot be started the host prints exactly the agent's message and ends with its exit code |
| `Sessions.OversizedEndsSession` | internal/vsockexec/protocol.go:39-42 | the 1 MiB bound is needed: one larger frame ends the session with an error |
| `Dependencies.OrderedIsAcyclic` | internal/config/validate.go:193-224 | a graph whose nodes all occur once, dependencies first, has no cycle |
| `Dependencies.BackEdgeIsCycle` | internal/config/validate.go:204-205 | a dependency back into the current path is a cycle |
| `Dependencies.AcyclicIs` | internal/config/validate.go:193-224 | acyclic written out: every closed list of names has one whose successor is not among its dependencies |
| `Dependencies.CycleDetector.Visit` | internal/config/validate.go:200-215 | terminates; on success the name and all it reaches are finished, on failure the reported path extends the given one and closes on itself |
| `Dependencies.DetectCycle` | internal/config/validate.go:193-224 | succeeds if and only if the graph is acyclic; otherwise reports a dependency path whose last name depends on a name of the path |
| `Dependencies.ValidateDependsOn` | internal/config/validate.go:179-191 | succeeds if and only if every dependency is another existing service and the graph is acyclic |
| `StartOrder.Orderer.Visit` | internal/cmd/lifecycle.go:576-596 | terminates; on success the name is placed after its selected dependencies, failure means the selection has a cycle |
| `StartOrder.ComputeStartOrder` | internal/cmd/lifecycle.go:565-603 | fails if and only if the selection's own graph has a cycle; otherwise each selected name once, every selected direct dependency before its dependent |
| `StartOrder.SelectionStaysAcyclic` | internal/cmd/lifecycle.go:564-590 | selecting services cannot create a cycle, so ordering never fails after validation |
| `StartOrder.SearchesAgree` | internal/config/validate.go:193-224 | run on the same graph, any graph, the validator's search reports no cycle if and only if the lifecycle's search can order all services |
| `StartOrder.OrderValidated` | internal/cmd/lifecycle.go:564-603 | after a successful validation no selection of services fails to order |
| `StartLoop.StartOne` | internal/cmd/up.go:361-469 | aborted or not, the events of the turn keep the gating, tell what the host did, and start this service's VM exactly when the turn gets that far; an abort exactly for the listed failures; degraded exactly when the probe says so; the pids recorded are those the host gave |
| `StartLoop.TurnFailsWhen` | internal/cmd/up.go:365-442 | the failures that abort a turn: a volume, virtiofsd or its sockets, the VM, a forwarder, the probe |
| `StartLoop.StartServices` | internal/cmd/up.go:361-470 | on every run, also an aborted one, the VMs started are a prefix of the order, each after its selected direct dependencies were started and found healthy, and nothing follows a degraded service |
| `StartLoop.TurnReached` | internal/cmd/up.go:409-467 | a service's turn keeps the record of events, pids and statuses, with the host's pids, and the gating |
| `StartLoop.DegradedEndsTheRun` | internal/cmd/up.go:443-467 | nothing later in the order has an event, a pid or a status |
| `StartLoop.BuildService` | internal/cmd/lifecycle.go:668-705 | the entry of a configured service: its networks, pids and status of this run, and its identity kept |
| `StartLoop.BuildServices` | internal/cmd/lifecycle.go:656-725 | one such entry per configured service, one stale entry per service the configuration lost, in any map order |
| `StartLoop.RecordedState` | internal/cmd/lifecycle.go:676-683 | never-reached services are stopped without pids; the others have the VM and virtiofsd pids the host gave, but a degraded one, so marked, loses each pid that could be stopped |
| `StartLoop.UpServices` | internal/cmd/up.go:351-487 | on every run, also one that ends in an error: each VM started once and only after its healthy selected dependencies, nothing after a degraded service, and the events true of the host; an error exactly for a cycle or a failing turn; a saving run records for every configured service the pid of its Started event and its virtiofsd pid, 0 for what was not started or could be stopped again, the status those events make, and the identity kept |
| `DeviceNames.NamesFit` | internal/hostnet/ops.go:82-89 | tap and bridge names have 1 to 15 characters and a tap is never a bridge |
| `DeviceNames.NameForms` | internal/nix/flakegen/stack.go:168-175 | a tap is "mvc-stack-service-network" and a bridge "br-stack" if that has at most 15 characters, else the prefix and the leading digits of its digest, 15 characters |
| `DeviceNames.BridgesEqual` | internal/hostnet/ops.go:82-89 | two stacks share a bridge name if and only if they are one stack, where the digest does not confuse them |
| `DeviceNames.FormsDiffer` | internal/nix/flakegen/stack.go:168-175 | a readable tap name never equals a hashed one |
| `DeviceNames.TapIDsEqual` | internal/nix/flakegen/stack.go:168-175 | within a stack, without a digest clash, two tap names are equal if and only if "service-network" reads the same |
| `DeviceNames.TapIDInjective` | internal/nix/flakegen/stack.go:168-175 | so they determine service and network when service names have no hyphen |
| `DeviceNames.HyphenatedTapsCollide` | internal/nix/flakegen/stack.go:169 | with hyphens they do not |
| `Devices.DedupeNames` | internal/cmd/lifecycle.go:345-357 | each non-empty name once, sorted |
| `Devices.CollectTaps` | internal/cmd/lifecycle.go:460-483 | the taps of the chosen services and whether any is attached, in any map order |
| `Devices.DownPlan` | internal/cmd/down.go:175-223 | what a down deletes by plan, sweeps as orphans and records as still provisioned, as sets; the bridge exactly when something is attached and nothing outside the selection is |
| `Devices.SweepPlan` | internal/cmd/purge.go:256-299 | what a purge sweeps and what stays recorded, as sets |
| `Devices.UpPlan` | internal/cmd/up.go:475-482 | what an up records as provisioned: nothing forgotten, what it ensures added |
| `Devices.DownServices` | internal/cmd/down.go:104-257 | fails exactly on a service that is not in the state; otherwise the selected services are stopped with no pids, and dropped if stale or their volumes removed; the others are as they were |
| `Devices.StopStackVMs` | internal/cmd/purge.go:364-402 | exactly the services with a pid or a found process are reset to stopped |
| `Devices.UpExactly` | internal/cmd/up.go:472-485 | name by name what an up leaves on the host and on record: what was there, the selected taps, and the bridge if any service is attached |
| `Devices.DownExactly` | internal/cmd/down.go:175-223 | name by name what a down leaves: on record exactly what services outside the selection attach to; of the links neither bridge nor selected taps, and else what is retained or unknown |
| `Devices.PurgeExactly` | internal/cmd/purge.go:256-299 | name by name: a link stays if and only if the configuration or a service that may be running uses it, or nothing names it; a record stays if and only if one of those uses it |
| `Devices.PurgeSparesLive` | internal/cmd/lifecycle.go:391-419 | so a purge of the networks keeps the taps and the bridge, as links and on record, of every service with a pid or an answering socket, and those the configuration names |
| `Devices.StepKeepsNoLeak` | internal/cmd/down.go:193-223 | a command whose call was safe beforehand keeps every link of the stack recorded; of the actual outcome: it does so if and only if a failed up made only recorded links, or a purge of volumes forgot none |
| `Devices.FailedUpIsSafe` | internal/cmd/up.go:336-405 | an up can fail at any point without leaking if and only if every name it would provision was recorded before the call, in a state that exists |
| `Devices.CallIsSafe` | internal/cmd/up.go:336-485 | for every command: no outcome of the call leaks if and only if the configuration, state and links before it meet that condition, or the one for purging volumes |
| `Devices.NoDeviceLeaks` | internal/cmd/up.go:472-485 | over any sequence of commands, failed ups included and any configuration at each: no outcome of any of its calls could leak a device if and only if each call was safe beforehand, and none did leak if and only if each actual outcome kept to the record |
| `Devices.CompletedNeverLeak` | internal/cmd/up.go:472-485 | no device leaks over any sequence of completed commands other than purges of volumes |
| `Devices.StepLeaks` | internal/cmd/purge.go:256-299 | also after a leak, only a failed up and a purge of volumes lose track of further links |
| `Devices.FailedUpLeaks` | internal/cmd/up.go:343-405 | a first up that fails after creating the bridge and a tap leaves both on no record, and purging everything does not find them |
| `Devices.PurgeVolumesLeaks` | internal/cmd/purge.go:473-510 | purging volumes alone keeps the links recorded if and only if there is no service or no link |
| `Devices.PurgeAllClears` | internal/cmd/purge.go:512-531 | with no API socket answering any more, purging everything leaves no link |
| `Devices.UnambiguousNames` | internal/nix/flakegen/stack.go:168-175 | hyphen-free service names make the taps of configuration and state unambiguous |
| `Devices.SharedTaps` | internal/nix/flakegen/stack.go:168-175 | without a digest clash a tap is one of a selected service if and only if a selected "service-network" reads the same |
| `Devices.HyphenFreeNames` | internal/nix/flakegen/stack.go:169 | among service names without hyphens none does |
| `Devices.PartialDownKeepsTaps` | internal/cmd/lifecycle.go:450-483 | a partial down keeps the tap of a service outside the selection, in the configuration or only in the state, if and only if it is no tap of a selected service: without a digest clash, if and only if no selected "service-network" reads the same |
| `Devices.PartialUpSparesTaps` | internal/cmd/lifecycle.go:485-531 | a partial up neither deletes nor recreates a tap that is not also one of a selected service, whether or not ensuring the taps succeeds, and it stays on its bridge; without a digest clash it names the tap if and only if a selected "service-network" reads the same |
| `Devices.TapSpecs` | internal/cmd/lifecycle.go:500-531 | one spec per attachment of a selected service, sorted, each with that attachment's tap name, the stack's bridge, the given owner and group and the service's queue flag |
| `Devices.DownDeletesBridge` | internal/provisiond/netops.go:73-78 | over any run, from a down until a later command creates it again the stack has no bridge, also where services that stay up use it, the planner keeps it and the state records it |
| `Devices.BridgeTakenAway` | internal/provisiond/netops.go:73-78 | a concrete partial down after which the service that stays up has its tap and no bridge, while the state records the bridge |
| `Taps.RecreateUnlessRight` | internal/provisiond/netops.go:152-157 | an existing link is recreated if and only if it is not a tap of exactly the requested kind |
| `Taps.IdsAreKept` | internal/provisiond/netops.go:176-184 | an owner or group from 0 to 2^32-1 is the requested number itself, a negative one wraps |
| `Taps.OneTapExactly` | internal/provisiond/netops.go:81-113 | one tap, link by link: kept if it is a tap with the requested owner, group and queue flag, else replaced by a new link and its slaves released; then enslaved and up if the bridge exists; nothing else changes |
| `Taps.Host.EnsureTaps` | internal/provisiond/netops.go:81-113 | taps are handled in order up to the first missing bridge, as the specification function says |
| `Taps.EnsureConverges` | internal/provisiond/netops.go:81-113 | for distinct tap names that are no bridges: succeeds if and only if the bridges exist, and then every tap is right, up and enslaved, other links untouched, right taps keep their identity; otherwise the same of the taps before the first missing bridge |
| `Taps.OthersKept` | internal/provisiond/netops.go:81-113 | whatever the specs and whether or not it succeeds, a call neither deletes nor recreates a link that no spec names, nor takes it from such a link |
| `Taps.CorrectIsStable` | internal/provisiond/netops.go:94-101 | on taps that are all right, a call changes nothing |
| `Taps.SecondCallIsNoOp` | internal/provisiond/netops.go:80-113 | after a successful call a second one changes nothing |
| `Addresses.RandomAddr` | internal/hostnet/plan.go:83-98 | the prefix's bytes followed by the random ones; only whole-byte IPv6 prefixes are accepted |
| `Addresses.InPrefixIs` | internal/hostnet/plan.go:83-98 | lying in a whole-byte prefix is agreeing with it bit by bit |
| `Addresses.StaticAddrIs` | internal/hostnet/plan.go:140-147 | no address is pinned if and only if no attachment has one; otherwise it is the first that an attachment has |
| `Addresses.AllocateOne` | internal/hostnet/plan.go:56-72 | the first address of an attachment wins, a locked one is reused, else one is generated and locked |
| `Addresses.AllocateAddrs` | internal/hostnet/plan.go:38-75 | on success every service with an addressed attachment gets the first such address, every other locked one keeps its own, new ones are generated in the prefix, plan and lock agree on every service; fails only without a prefix or when an address must be generated |
| `Addresses.AddressesArePermanent` | internal/hostnet/plan.go:19-25 | over any sequence of plans a locked address changes only at one whose configuration gives an attachment of the service an address |
| `Addresses.AddressesHaveASource` | internal/hostnet/plan.go:19-25 | from an empty lock every address was some configuration's first for an attachment of the service or lies in the lock's prefix, which is then IPv6 and ends at a byte |
| `Addresses.PrefixStays` | internal/hostnet/plan.go:38-75 | no sequence of plans changes the lock's prefix |
| `Addresses.PlanningAgain` | internal/hostnet/plan.go:30-36 | planning again with the same configuration leaves the lock as it is |
| `HostPrefix.GenerateULA` | internal/provisiond/prefix.go:54-64 | 0xfd, the five random bytes, ten zeros |
| `HostPrefix.ULAIsULA64` | internal/provisiond/prefix.go:50-64 | that form, with its random bytes, determines the address |
| `HostPrefix.HostState.EnsurePrefix` | internal/provisiond/prefix.go:28-49 | a call returns what is then persisted, which it changes only from nothing to a generated prefix, and whatever its outcome the steps of the concurrent model lead there |
| `HostPrefix.InvAlways` | internal/provisiond/prefix.go:28-49 | in every interleaving: one caller past the lock, what it loaded is what is persisted, all returned prefixes are the persisted one |
| `HostPrefix.PersistedForGood` | internal/provisiond/prefix.go:28-49 | once set the persisted prefix never changes, and a new value is a generated ULA prefix |
| `HostPrefix.OnePrefix` | internal/provisiond/prefix.go:21-49 | all successful calls, of any callers and despite any failures, return the same prefix, the persisted one |
| `Sorting.SortedUnique` | internal/hostnet/plan.go:111-116 | a collection has only one sorted sequence, so the order of collection cannot matter |
| `Sorting.SortBySorts` | internal/hostnet/plan.go:111-116 | sorting is a permutation and sorts |
| `Sorting.CharsLessIs` | internal/hostnet/plan.go:111-116 | texts are ordered by their first difference, a prefix first |
| `Sorting.SortedNames` | internal/nix/flakegen/stack.go:119-123 | the keys of a map, each once, sorted, in whatever order it is walked |
| `Assignments.AllocateMACs` | internal/hostnet/plan.go:100-122 | exactly the attachments get addresses, pairwise distinct, each the one its place in the sorted list gives, in whatever order the map is walked |
| `Assignments.PairLessIs` | internal/hostnet/plan.go:111-116 | attachments are ordered by service, and for one service by network |
| `Assignments.MacText` | internal/hostnet/plan.go:117-121 | the i-th address is a locally administered prefix of five bytes and i + 1 in hexadecimal |
| `Assignments.MacsIndependentOfWalk` | internal/hostnet/plan.go:106-116 | any two walks of the configuration give the same sequence and so the same addresses |
| `Assignments.MacInjective` | internal/hostnet/plan.go:118-119 | the formatted address determines the position, at any length |
| `Assignments.MacsDistinct` | internal/hostnet/plan.go:117-121 | distinct attachments have distinct addresses, however many there are |
| `Assignments.TwoDigitOctets` | internal/hostnet/plan.go:119 | the last octet has two digits exactly for the first 255 attachments |
| `Assignments.AssignCIDs` | internal/nix/flakegen/stack.go:119-142 | each CID is 3 plus the service's rank, so the CIDs are exactly 3 to n+2, each used once |
| `Assignments.CIDsAreRanks` | internal/nix/flakegen/stack.go:124-127 | numbering the sorted names gives each its rank |

## Left out

- NftRuns.RunRefines: calls with rules whose source contains ">" or whose protocol contains ":" are excluded (so too in `NftRuns.StepRefines`, `NftRuns.OkIsCompile` and `NftRuns.RunMeaning`); their tags are ambiguous, addresses that parse and validated protocols contain neither.
- StackPolicy.TrafficIsAsDeclared: speaks of a table that starts empty; for other tables `NftRuns.ForwardMeaning` says what the represented sets grant.
- Failures of the nftables and netlink transport: a failed flush leaves the table of the last successful one; link deletions are taken to succeed, because the daemon ignores their errors.
- Deletion by kernel handle: a rule is deleted by its place in the listing that was just read.
- The JSON header frame, pty, terminal, signal and process handling, and the liveness of sessions; the header frame precedes the streams modelled.
- Readers that deliver data together with an error during the handshake, or nothing without one: connection reads return at least one byte or the end of the stream.
- `/proc` scanning, stopping processes and API sockets are outcomes given to the model; timeouts are not modelled.
- Several stacks on one host: `Devices` follows the links and the state of one stack; table rules are shared, as in the daemon.
- Port-forwarder pids and the ports of the state file, MACs, volumes and runner paths of a service entry, and dry runs.
- Gateway addresses of bridges and their assignment; nix rendering; `ParseVolumeSize`; state migration; reconciling recorded with live VM state; printing.
- The other validators (`internal/config/validate.go:73-122`, `226-296`): loops of independent checks like the ones modelled.
- The pids of unselected running services after a partial up: the code resets them to 0, and `StartLoop.BuildServices` says so.
- Service rules of services that stay up during a partial down: the code removes the rules of the whole configuration.
- Two host ports published to one guest endpoint share their accept rule (`NftCompile.PortTagInjective`), so tearing one down removes the accept rule of both.
- Rules that differ only in "" and "tcp" pass validation and resolve to the same spec; the chain then holds the rule twice, which means the same.
- Uniqueness of addresses: a pinned address is not compared with locked ones by the code.
- Order through unselected intermediate dependencies: the code orders direct dependencies only.
