# A verified model of the L4 load balancer

This project models the parts of the load balancer in which most can go wrong, and proves what they promise.
Everything outside the modelled code (system calls, kernel helpers, clocks, callbacks, file contents) is a finite
script of outcomes, so a statement about all scripts is a statement about all runs. An exhausted script answers
"nothing more to do": EAGAIN, success, no time passed, or a stop signal. Contracts refer to the script as it was
before the call, so they say what the code makes of each answer and not only that it made something of it. Every
environment counts its faults in a ghost field, and a failing exit is traced to one of them or to an exhausted counter.

The components, with the files that hold them:

- **TCP forwarding** (`TcpState`, `TcpKernel`, `TcpStop`, `TcpSession`, `TcpReactor`). Two ring buffers per session,
  back-pressure, half-close, epoll interests, endpoint tokens that outlive descriptors, and the two-stage stop.
  `Socket` carries ghost streams of what really was received and sent; `Session.Stream` says that what was sent,
  followed by what the ring holds in read order, is what was received. `TcpReactor.Steady` is what holds between any
  two events: tables that name each other, sound sessions, and no stranded session.
- **UDP probe checker** (`ProbeHealth`, `ProbeNonce`, `ProbeRound`, `ProbeLog`, `UdpProbeChecker`). The ghost log of
  each target records sends, echoes and misses with their times; `LogOk` is what the protocol promises about it and
  `Agrees` ties the probe to it. One poll is `AfterPoll`, about which the real-time bounds are proved. Each socket has
  its own queue of sends and of arrivals; `Verdict` is what a queue decides about a round, `EchoIsAnswer` and
  `MissIsFailure` say which queues those are, and `PollProbeTransitions` follows them.
- **XDP programs** (`RuntimeSchema`, `XdpPacket`, `XdpPrograms`, `XdpAgreement`). Both packet programs as imperative
  code over a byte array, each proved against one description of what leaves where.
- **Publication** (`SnapshotMaps`, `RuntimeMapStore`). Outer map, inner maps and packets are a state machine; packets
  take arbitrary steps before every kernel call of the publisher and in the middle of its writes.
- **Runtime configuration and control loop** (`DsrConfig`, `RuntimeDsrConfig`, `RuntimeDsrService`). From the literals of
  a configuration to a snapshot, and the loop that keeps configuration, checker and applied snapshot in agreement
  with the kernel. `ServesHealthy` says what the kernel should serve: the Healthy targets and no others, each in its slot.
- **UDP forwarding and metrics** (`UdpFlows`, `UdpReactor`, `Metrics`). The flow table as two inverse indexes, the
  transaction that creates a flow, which datagram goes where, and one event per datagram.
- **Selection and endpoint syntax** (`RoundRobin`, `EndpointParser`).

`Common` holds the shared types.

## Where the code does less than it seems to

- `parseUnsignedDecimal` subtracts a digit from the maximum in unsigned arithmetic. It does what it is for on every
  text if and only if the maximum is at least 2; for 0 and 1 it reads 4294967296 as 0 (`EndpointParser.CorrectFromTwo`,
  `EndpointParser.WrapAccepts`). The maxima in use are 255 and 65535.
- A UDP datagram gets exactly one datagram or dropped event in all cases but one. `resolveFlowTokenForDatagram` closes
  an expired flow outside the `try` that counts the datagram as dropped (src/net/UdpReactor.cpp:605-622). If a callback
  throws during that close, the datagram gets no event. `UdpReactor.UdpReactor.LosesDatagram` is the exact condition,
  `ForwardRequest` counts a loss exactly under it, and `LossHappens` gives an instance. As the exception ends the
  loop, a run loses at most one datagram.
- `createFlow` announces a flow after both indexes hold it (src/net/UdpReactor.cpp:416-421). If the observation or the
  flow callback throws there, the creation fails and its datagram is counted as dropped, but key and token stay in
  the indexes. This is the only way a failed creation leaves them (`UdpReactor.CreateFlow`, an instance is
  `FailedCreationLeavesFlow`).
- The collector refuses to count more than 1024 active flows, and the UDP reactor does not look at the refusal. So the
  gauge is the number of live flows in every run if and only if the flow limit is at most 1024, as it is by default
  (`GaugeIsExact`, `GaugeFallsBehind`).
- The saturation flag of the metrics is also raised when a counter reaches 2^64 - 1 without anything being cut off
  (`Metrics.SaturationFlag`).
- A stop signal that interrupts `shutdown(SHUT_WR)` makes the session fail instead of draining: exactly if a call is
  interrupted and polling then finds a stop (`ShutdownOf` on the scripts, `TcpSession.Session.ShutdownDestination`, an
  instance is `InterruptedShutdown`; src/net/TcpReactor.cpp:655-667).
- The balance of `readRuntimeStatistics` is stated for counters at rest. While packets run, a total may be
  ahead of its tallies, since the programs count it first.
- `RuntimePublishError` is only ever thrown with `committed` set, so the branches for an uncommitted one are dead.

## Model

| member | source | states |
|---|---|---|
| TcpState.RingAppend | src/net/TcpState.h:29-32 | bytes put into the contiguous free span extend the queue in read order, wherever the ring wraps |
| TcpState.RingConsume | src/net/TcpState.h:34-39 | reading k bytes leaves exactly the remaining bytes, across the wrap |
| TcpState.RingFront | src/net/TcpState.h:23-26 | the contiguous readable span holds the first queued bytes |
| TcpState.TcpPendingBuffer.WritableBytes | src/net/TcpState.h:24 | the free span stays inside the 64 KiB array, is empty only when the queue is full, and reaches the end of the array otherwise |
| TcpState.TcpPendingBuffer.CommitWrittenBytes | src/net/TcpState.h:29-32 | the queue grows by exactly the bytes written, or the call is refused and nothing changes |
| TcpState.TcpPendingBuffer.ConsumeReadableBytes | src/net/TcpState.h:34-39 | the queue loses exactly its first bytes, or the call is refused |
| TcpState.EndpointTokens.RegisterEndpoint | src/net/TcpState.h:69-74 | a token never issued before, until the counter is exhausted |
| TcpStop.StopControl.ConsumeStopSignals | src/net/TcpReactor.cpp:249-301 | the flags say how many stop signals were consumed; the first fixes a drain deadline that never moves, a second or the deadline makes the stop final |
| TcpSession.Session.WriteBufferedDirection | src/net/TcpReactor.cpp:578-612 | stream integrity under arbitrary short counts, EAGAIN and EINTR; `sent` counts the bytes sent, and the pause ends exactly at the low-water mark |
| TcpSession.Session.ReadSessionDirection | src/net/TcpReactor.cpp:614-643 | stream integrity while filling; a source pauses exactly when its queue is full; nothing is received once a stop was consumed |
| TcpSession.Session.ShutdownDestination | src/net/TcpReactor.cpp:655-667 | SHUT_WR succeeds only after EOF with an empty queue, and is recorded exactly when it succeeded; it ends as the scripts of calls and signals say, and fails although only a drain has begun exactly if a call is interrupted and a stop signal is waiting |
| TcpSession.InterruptedShutdown | src/net/TcpReactor.cpp:655-667 | an instance: one interrupted call and one waiting stop signal make a healthy session fail |
| TcpSession.Session.AdvanceSessionIo | src/net/TcpReactor.cpp:645-670 | a step keeps both streams intact, leaves bytes queued only if the kernel refused them or the budget is spent, reads each open unpaused source until it refuses, ends settled, and asks for a close exactly when both streams are complete, or in a drain when both queues are empty |
| TcpSession.Session.ShutMeansDelivered | src/net/TcpReactor.cpp:655-667 | once an end was shut down it has been sent exactly what the other end ever sent, and nothing was sent to it afterwards |
| TcpSession.Session.CompleteDelivers | src/net/TcpReactor.cpp:645-670 | a session closed as drained delivered both byte streams completely |
| TcpSession.Session.NeverStranded | src/net/TcpReactor.cpp:540-576 | between events every end is either deferred or held by the kernel with its exact mask: armed for output exactly if bytes are queued towards it, for input exactly if it is open and not paused; a pause means more than the low-water mark is queued, and some end is armed or deferred |
| TcpSession.Session.ConnectingIsArmed | src/net/TcpReactor.cpp:540-576 | while its connection is pending, the backend end is armed for output alone and the client end for a hang-up alone, unless deferred |
| TcpSession.Session.DrainingIsArmed | src/net/TcpReactor.cpp:540-576 | in a drain an end is armed exactly for the output that is queued towards it, unless deferred |
| TcpSession.Session.UpdateSessionInterests | src/net/TcpReactor.cpp:540-576 | afterwards both ends wait for exactly what they need, or a retry is pending |
| TcpSession.Session.CheckSocketError | src/net/TcpReactor.cpp:688-699 | SO_ERROR is read exactly for an error event or a decision on a pending connect; its failure or its value ends the session, and otherwise the connect succeeded |
| TcpSession.Session.ServeSession | src/net/TcpReactor.cpp:701-716 | a served session is done for an earned reason, is live again, or in a drain still has bytes to send; each direction moved bytes until the kernel refused or the budget was spent; a hang-up on which nothing moved suspends exactly that end for 100 ms |
| TcpSession.Session.RetryDeferred | src/net/TcpReactor.cpp:746-756 | a session is retried exactly when a deferral has run out, and the deferral is cleared |
| TcpReactor.FirstOfIsFirst | src/net/TcpReactor.cpp:303-314 | what is kept of several failures is the first one |
| TcpReactor.FirstOfAppend | src/net/TcpReactor.cpp:408-437 | keeping the first failure of each part keeps the first failure of the whole |
| TcpReactor.TcpReactor.CloseSession | src/net/TcpReactor.cpp:408-437 | the tables forget the session and exactly its tokens before any callback runs, all callbacks are attempted, and the first failure is returned |
| TcpReactor.TcpReactor.CloseAllSessions | src/net/TcpReactor.cpp:303-314 | it ends with no session and no token whichever callbacks fail, one notice per session, and the first failure kept |
| TcpReactor.TcpReactor.DispatchEndpointEvent | src/net/TcpReactor.cpp:672-721 | a retired token is ignored; any other resolves to a live session, which is the only one that can disappear, under a reason it earned and never a timeout; no survivor is stranded, and its directions moved bytes as far as the kernel let them |
| TcpReactor.TcpReactor.DueMeans | src/net/TcpReactor.cpp:735-745 | a session is over its time exactly if its last progress is the connect or the idle timeout ago |
| TcpReactor.TcpReactor.CheckDeadline | src/net/TcpReactor.cpp:735-769 | a session whose connect or idle time is over is closed with that reason; one that is neither over its time nor overdue for a retry is left as it is, with everything in it; any other close follows a retry and is no timeout; a survivor is live and has no overdue retry left |
| TcpReactor.TcpReactor.ScanDeadlines | src/net/TcpReactor.cpp:735-769 | over the whole table: every session that is neither over its time nor overdue for a retry survives, every one over its time goes unless a failure or a stop cuts the scan short, and each notice is a timeout exactly if its session was over its time |
| TcpReactor.TcpReactor.ProcessSessionDeadlines | src/net/TcpReactor.cpp:723-770 | after a scan that was not stopped exactly the sessions over their time are timed out; a session that was neither over its time nor overdue for a retry is still there; no deferral of a session and no back-off of the listener that had run out is left; every lookup succeeded although sessions were closed meanwhile, and survivors are live |
| TcpReactor.TcpReactor.AdvanceStopDrain | src/net/TcpReactor.cpp:316-332 | after a drain pass that was not cut short every surviving session is established and still has bytes to send; no new session appears |
| TcpReactor.TcpReactor.DrainSession | src/net/TcpReactor.cpp:316-332 | a session that is still connecting is closed at once, an established one is served until its queues are empty, after every deferral that had run out was lifted |
| TcpReactor.TcpReactor.AcceptStep | src/net/TcpReactor.cpp:453-511 | what one attempt does for each answer of accept4: a client is taken, an interrupted call is repeated and not counted, a dry queue ends the batch, a transient error uses up an attempt, exhaustion suspends the listener, and any other error ends the service |
| TcpReactor.TcpReactor.FinishStep | src/net/TcpReactor.cpp:699-720 | a finished session is closed under the reason it earned: drained only if complete, stop-drained only if both queues are empty |
| TcpReactor.TcpReactor.AcceptClientSessions | src/net/TcpReactor.cpp:449-511 | at most 64 calls that are not interrupted, none after a stop signal, and fewer only if the queue is dry, resources are exhausted or a stop came; every accepted client gets a session, finds no backend, or finds the table full, the last only if old and new sessions together reach the limit; existing sessions are untouched |
| TcpReactor.TcpReactor.AdmitClient | src/net/TcpReactor.cpp:481-509 | a client is turned away exactly if the table is full or the selector offers no backend; otherwise a session is created, wired and live, or closed again |
| TcpReactor.TcpReactor.DispatchTcpReadyEvents | src/net/TcpReactor.cpp:229-247 | an old batch of events cannot reach a new session through a reused identity, and everything stays steady |
| TcpReactor.TcpReactor.RunTcpEventLoop | src/net/TcpReactor.cpp:187-227 | every pass ends steady, and until the stop is final every ready event is dispatched in order; from any point in a drain on no queue grows and no session appears; a regular return means that a stop was consumed and every table is empty; unless it throws, no callback of closing a session threw |
| TcpReactor.RunTcpReactor | src/net/TcpReactor.cpp:774-784 | over a whole run nothing is received, accepted or listened for after the first stop, a clean reason is reported only where earned, and a regular exit follows one or two stop signals, leaves nothing behind and hides no exception of a callback |
| ProbeHealth.CountersAreRuns | src/health/HealthState.h:12-24 | the counters are the trailing run lengths of the history, capped at 2 and 3 |
| ProbeHealth.StatusIsLatestRun | src/health/HealthState.h:12-24 | the status is decided by the latest run that reached 2 successes or 3 failures |
| ProbeHealth.ReplayContinues | src/health/UdpProbeChecker.cpp:179-189 | importing a state continues the history that led to it |
| ProbeHealth.ReplayIsImportable | src/health/UdpProbeChecker.cpp:181-183 | every state a history can produce passes the check of the import |
| ProbeHealth.HealthState.ApplyProbeResult | src/health/HealthState.h:12-24 | this copy of the machine follows the replay of all its results and reports exactly the changes |
| ProbeNonce.BigEndianRoundTrip | src/health/UdpProbeChecker.cpp:145-148 | eight big-endian bytes decode to the number they encode |
| ProbeNonce.EncodeInjective | src/health/UdpProbeChecker.cpp:139-151 | different epochs or sequence numbers give different packets |
| ProbeNonce.BuildPacket | src/health/UdpProbeChecker.cpp:144-150 | the byte loop with its shifts builds exactly that encoding |
| ProbeNonce.ProbeNonceSequence.GenerateProbePacket | src/health/UdpProbeChecker.cpp:139-151 | the sequence strictly increases and refuses to wrap |
| ProbeRound.PollArms | src/health/UdpProbeChecker.cpp:240-267 | after a poll at t the next wakeup lies in (t, t + 1 s], and a send comes at least 1 s after the previous one |
| ProbeRound.SilentTargetIsUnhealthy | src/health/UdpProbeChecker.cpp:240-308 | with polls at most g apart and no echo after t0 the target is Unhealthy by t0 + 3.5 s + 4 g |
| ProbeRound.AnsweredTargetIsHealthy | src/health/UdpProbeChecker.cpp:240-308 | the mirror: with polls at most g apart and every round sent and answered in time the target is Healthy by t0 + 2.5 s + 2 g |
| ProbeLog.NoStaleEcho | src/health/UdpProbeChecker.cpp:304-306 | a counted success is the exact packet of its own round, before its deadline, never one of an earlier round, nor one numbered up to where this checker began |
| ProbeLog.NumbersIncrease | src/health/UdpProbeChecker.cpp:250-252 | sends of one target carry increasing numbers and are at least 1 s apart |
| UdpProbeChecker.ReloadContinues | src/health/UdpProbeChecker.cpp:174-190 | after a reload that keeps the identity the health is that of an uninterrupted checker |
| UdpProbeChecker.EchoIsAnswer | src/health/UdpProbeChecker.cpp:276-307 | from the datagrams waiting on a socket a round succeeds exactly if its own packet is among them, received before the deadline, behind nothing but datagrams and interruptions that do not end the round |
| UdpProbeChecker.MissIsFailure | src/health/UdpProbeChecker.cpp:276-307 | it fails exactly if, behind such ones, a receive completes after the deadline or reports an error |
| UdpProbeChecker.UdpProbeChecker.CompleteProbeResult | src/health/UdpProbeChecker.cpp:215-238 | this copy of the machine takes one step of the same specification, and the round enters the log |
| UdpProbeChecker.UdpProbeChecker.SendOne | src/health/UdpProbeChecker.cpp:242-266 | the deadline has priority, and a due target sends exactly one fresh packet on its own socket, whose echo is what the round waits for; the round fails at once exactly if the socket did not take the 24 bytes |
| UdpProbeChecker.UdpProbeChecker.ReceiveOne | src/health/UdpProbeChecker.cpp:276-307 | the first thing waiting on the socket, taken before the call, decides: the exact 24-byte echo completed before the deadline is a success, a late receive or an error a failure, an empty socket ends the target, and everything else is skipped; the checker ends exactly on a broken transport or a clock that went back |
| UdpProbeChecker.UdpProbeChecker.ReceivePendingProbeReplies | src/health/UdpProbeChecker.cpp:269-311 | every waiting target is asked, starting at a cursor that rotates, unless the budget of 256 events is spent; if it is not spent, every round ends as the datagrams waiting on its socket decide |
| UdpProbeChecker.UdpProbeChecker.PollProbeTransitions | src/health/UdpProbeChecker.cpp:313-333 | on success every target takes exactly one step of the round machine at this poll time, and the results are its transitions; a send fails and an echo counts exactly as the script of the socket says before the call; failure has one of the causes in the source and cancels everything |
| UdpProbeChecker.UdpProbeChecker.CancelAllProbes | src/health/UdpProbeChecker.cpp:205-213 | nothing is in flight afterwards, every handle is closed, and no health is lost |
| UdpProbeChecker.UdpProbeChecker.Populate | src/health/UdpProbeChecker.cpp:153-201 | a candidate is built with the imported health of each identity, or everything opened is closed again |
| UdpProbeChecker.UdpProbeChecker.NextProbeWakeup | src/health/UdpProbeChecker.cpp:351-357 | the earliest deadline or due time of all targets |
| UdpProbeChecker.UdpProbeChecker.WakeupInTime | src/health/UdpProbeChecker.cpp:351-357 | that wakeup lies in (t, t + 1 s] after a successful poll at t |
| RuntimeSchema.ValidMacMeaning | src/xdp/xdp_udp_runtime.bpf.c:36-38 | the bit test means a non-zero unicast address |
| XdpPacket.TwoFoldsAreOnesSum | src/xdp/xdp_udp_runtime.bpf.c:59-65 | two folds of the 32-bit sum are exactly the one's-complement sum of section 1 of RFC 1071 |
| XdpPacket.FlagBits | src/xdp/xdp_udp_runtime.bpf.c:51-53 | the mask 0xbf admits no fragment flag or offset but "don't fragment" |
| XdpPacket.MaskIsNoOp | src/xdp/xdp_udp_runtime.bpf.c:88-91 | masking an index below 64 with 63 changes nothing |
| XdpPacket.CheckFrame | src/xdp/xdp_udp_runtime.bpf.c:50-65 | a frame passes if and only if it is an unfragmented, option-free IPv4 UDP packet with consistent lengths and a correct header checksum |
| XdpPacket.HashFlow | src/xdp/xdp_udp_runtime.bpf.c:84-87 | the loop computes the 32-bit FNV-1a hash of addresses, ports and protocol |
| XdpPacket.FnvRecurrence | src/xdp/xdp_udp_runtime.bpf.c:84-87 | the hash starts at 2166136261, and a byte turns h into (h xor byte) * 16777619 modulo 2^32 |
| XdpPacket.OneByteMatters | src/xdp/xdp_udp_runtime.bpf.c:84-87 | flows that differ in exactly one byte have different hashes |
| XdpPacket.HashIndex | src/xdp/xdp_udp_runtime.bpf.c:88-89 | the picked index is the remainder of the hash by the pool size |
| XdpPrograms.RuntimeProgram | src/xdp/xdp_udp_runtime.bpf.c:42-113 | verdict, frame and counters are those of the exit, for every frame and configuration; a redirected frame carries the addresses of the backend whose index is congruent to the flow hash modulo the pool size |
| XdpPrograms.RuntimeVerdict | src/xdp/xdp_udp_runtime.bpf.c:66-112 | a supported packet is redirected exactly if the snapshot is readable, the packet is for the service address and port, the backend at hash modulo pool size is usable and the helper succeeds; it is dropped exactly if it is for the service and the pool is empty or only the helper fails |
| XdpPrograms.StaticProgram | src/xdp/xdp_udp_dsr.bpf.c:41-106 | the same for the static program, with the same rule for the backend |
| XdpPrograms.StaticVerdict | src/xdp/xdp_udp_dsr.bpf.c:66-106 | the same decision for the static program, which passes a packet on when the pool is empty |
| XdpAgreement.ProgramsAgree | src/xdp/xdp_udp_dsr.bpf.c:41-106 | for corresponding configurations both programs take the same exit and leave the same frame; the verdicts differ exactly for service packets on an empty pool, PASS against DROP |
| XdpAgreement.RunBoth | src/xdp/xdp_udp_runtime.bpf.c:42-113 | run on copies of one frame and one set of counters the two programs cannot be told apart while the pool is not empty |
| XdpAgreement.RedirectTouchesOnlyMacs | src/xdp/xdp_udp_runtime.bpf.c:101-104 | a redirect changes only bytes 0-11, to the addresses of the picked backend; every other exit leaves the frame alone |
| XdpAgreement.RedirectIsStable | src/xdp/xdp_udp_runtime.bpf.c:84-104 | the rewritten frame is still supported and picks the same backend again |
| XdpAgreement.SameFlowSameBackend | src/xdp/xdp_udp_runtime.bpf.c:84-92 | packets of one flow go to one backend while the pool does not change |
| XdpAgreement.PacketKeepsBalance | src/xdp/xdp_udp_runtime.bpf.c:79-112 | every packet keeps total = pass + redirect + drop modulo 2^64, and pass and drop equal to the sums of their reasons |
| XdpAgreement.ReadRuntimeStatistics | src/xdp/RuntimeMapStore.cpp:243-255 | the sum over all CPUs is exact modulo 2^64 and keeps both balances |
| SnapshotMaps.ValidatedNeverInvalid | src/xdp/xdp_udp_runtime.bpf.c:69-95 | under a validated snapshot no packet leaves through the invalid-configuration exit |
| SnapshotMaps.StepKeeps | src/xdp/xdp_udp_runtime.bpf.c:66-92 | no step of a packet changes a map or a publication |
| SnapshotMaps.StoreKeeps | src/xdp/RuntimeMapStore.cpp:198-200 | writing a map that is not frozen, torn or not, is invisible to every packet |
| SnapshotMaps.SwapKeeps | src/xdp/RuntimeMapStore.cpp:213-222 | swapping in a frozen map with a valid snapshot keeps the invariant of all packets |
| SnapshotMaps.PacketIsAtomic | src/xdp/xdp_udp_runtime.bpf.c:66-104 | however its loads interleave with publications, down to single bytes of the copied addresses, a packet leaves with the exit and the frame of one complete published snapshot at its outer lookup |
| SnapshotMaps.GenerationsMonotone | src/xdp/xdp_udp_runtime.bpf.c:66-68 | the generations of successive outer lookups never decrease |
| SnapshotMaps.LookUpIsFresh | src/xdp/xdp_udp_runtime.bpf.c:66-68 | a lookup sees the latest publication |
| RuntimeMapStore.ValidateCandidateSnapshot | src/xdp/RuntimeMapStore.cpp:101-120 | a snapshot passes if and only if it is well formed for the next generation |
| RuntimeMapStore.RuntimeMapStore.Prepare | src/xdp/RuntimeMapStore.cpp:189-211 | a candidate is a frozen, unpublished map that holds exactly the snapshot, or a failure that leaves no descriptor open |
| RuntimeMapStore.RuntimeMapStore.PublishSnapshot | src/xdp/RuntimeMapStore.cpp:186-228 | under arbitrary packets and faults either nothing was published and the store is as before, or exactly this snapshot was and the store follows it; success means that every kernel call did what it was asked, and one descriptor stays open |
| DsrConfig.PrintingSpells | src/control/DsrConfigSync.cpp:66-85 | the printed form of an address is a literal for it |
| DsrConfig.SpellingIsPrinting | src/control/DsrConfigSync.cpp:66-85 | every literal of an address is its printed form up to the case of the digits |
| DsrConfig.PrintedFormSpells | src/control/DsrConfigSync.cpp:66-85 | conversely every text that is the printed form up to the case of the digits is a literal of the address |
| DsrConfig.ParseMac | src/control/DsrConfigSync.cpp:66-85 | a text is accepted exactly if it spells a non-zero unicast address, which is the result |
| DsrConfig.ValidMacLiteral | src/control/RuntimeDsrConfig.cpp:43-57 | the check of a configuration line accepts exactly the texts that parseMac accepts |
| DsrConfig.PortText | src/control/XdpConfigSync.cpp:26-33 | a port is read from exactly the printed forms of 1 to 65535, with any number of zeros before them |
| DsrConfig.UnicastMeans | src/control/XdpConfigSync.cpp:35-37 | the address test on four bytes is the test on the 32-bit number: not 0, not 2^32 - 1, no multicast |
| DsrConfig.ParseDsrConfiguration | src/control/DsrConfigSync.cpp:88-128 | it succeeds exactly if some configuration stands for the literals, and returns that one; none is accepted through the ingress or twice |
| DsrConfig.ResolvesOne | src/control/DsrConfigSync.cpp:88-128 | literals stand for at most one configuration |
| RuntimeDsrConfig.CheckEntries | src/control/RuntimeDsrConfig.cpp:115-121 | a list of entries passes exactly if each literal is valid, ids do not repeat, and there are at most 64 |
| RuntimeDsrConfig.LinkMeans | src/control/RuntimeDsrConfig.cpp:167-171 | the joined literal EGRESS@MAC means its two halves again |
| RuntimeDsrConfig.LoadRuntimeConfig | src/control/RuntimeDsrConfig.cpp:162-191 | it succeeds exactly if some configuration stands for the entries, and returns that one |
| RuntimeDsrConfig.LoadedOne | src/control/RuntimeDsrConfig.cpp:162-191 | entries stand for at most one configuration |
| RuntimeDsrConfig.SameRuntimeConfig | src/control/RuntimeDsrConfig.cpp:193-207 | the comparison loop decides equality of service address and targets, egress names aside |
| RuntimeDsrConfig.UnchangedKeepsIdentities | src/control/RuntimeDsrConfig.cpp:193-207 | a reload counts as unchanged exactly if the service address and the identity of every probe are unchanged |
| RuntimeDsrConfig.LoadedTargetsAreGood | src/control/RuntimeDsrService.cpp:128-143 | the checker's own tests accept the targets of every loaded configuration with positive interface indexes |
| RuntimeDsrConfig.HealthyAreTargets | src/control/RuntimeDsrService.cpp:153-160 | the healthy targets are those of the configuration that the probes call Healthy, each with the interface and addresses configured for it |
| RuntimeDsrConfig.HealthySlots | src/health/UdpProbeChecker.cpp:343-349 | as many targets are selected as are Healthy; the Healthy target number i takes the slot given by the number of Healthy ones before it, and no slot holds any other |
| RuntimeDsrConfig.BuildRuntimeSnapshot | src/control/RuntimeDsrService.cpp:145-163 | the snapshot serves exactly the Healthy targets: its count is their number, each occupies one slot with its own interface, destination and source address, in the order of the configuration, and all further slots are zero; the range check cannot fail |
| RuntimeDsrConfig.PoolIsUnique | src/control/RuntimeDsrService.cpp:145-163 | two snapshots that serve the Healthy targets of the same probes hold the same pool |
| RuntimeDsrConfig.LoadedIsPublishable | src/control/RuntimeDsrConfig.cpp:162-191 | a loaded configuration that the checker accepts has a usable backend for every target and a non-zero service address and port |
| RuntimeDsrConfig.SnapshotIsValid | src/control/RuntimeDsrService.cpp:145-169 | whatever the health of its targets, its snapshot passes the validation of the store at the next generation |
| RuntimeDsrService.MakeChecker | src/control/RuntimeDsrService.cpp:318-320 | the candidate checker probes exactly the targets of the candidate, each with the health its identity had, and begins above every number issued so far |
| RuntimeDsrService.RuntimeDsrService.PrepareCandidate | src/control/RuntimeDsrService.cpp:312-320 | a reload without a candidate is refused only if the file offers none that can be built or a socket failed, and unchanged only if the file says the same |
| RuntimeDsrService.RuntimeDsrService.Publish | src/control/RuntimeDsrService.cpp:216-223 | the store never rejects a snapshot of the loop, and attempts are at least 1 s apart |
| RuntimeDsrService.RuntimeDsrService.PublishAndAdopt | src/control/RuntimeDsrService.cpp:326-334 | configuration, checker and applied snapshot change together with the kernel or not at all, unless the failure is after the commit |
| RuntimeDsrService.RuntimeDsrService.Reload | src/control/RuntimeDsrService.cpp:305-364 | continuing means agreement: either nothing was committed and everything is as before, for one of the reasons the operator is told, or the changed candidate in the file was published and adopted as a whole; any failure after the commit and every RuntimeControlError is fatal |
| RuntimeDsrService.RuntimeDsrService.NoEchoOfReplaced | src/health/UdpProbeChecker.cpp:97-102 | in every state between passes no success of the present checker was counted for a packet of any checker it replaced |
| RuntimeDsrService.RuntimeDsrService.PublishChangedHealthySnapshot | src/control/RuntimeDsrService.cpp:202-243 | when due and without a kernel fault, the kernel afterwards serves exactly the targets that are Healthy now, each in its slot with its own addresses; if it did already, nothing is published; the output says applied or failed accordingly |
| RuntimeDsrService.RuntimeDsrService.Iterate | src/control/RuntimeDsrService.cpp:290-379 | every pass that continues ends with kernel, applied snapshot, generation, configuration and checker in agreement, has met no RuntimeControlError, and has answered a reload request that was due; without kernel faults, when a publication was allowed, the kernel then serves exactly the Healthy targets, each in its slot with its own addresses; every other ending has a cause among signals, output, kernel, sockets and exhausted counters |
| RuntimeDsrService.RuntimeDsrService.Run | src/control/RuntimeDsrService.cpp:290-402 | a regular exit follows a stop request and leaves kernel and applied snapshot in agreement, the statistics printed and the program detached once; it stays attached only if the kernel refused to detach it; an exception has a cause outside the loop |
| RuntimeDsrService.RunRuntimeDsrControlLoop | src/control/RuntimeDsrService.cpp:257-402 | from the first load to the end, whatever fails, publications only grow and packets see only complete ones; a regular exit leaves kernel and applied snapshot in agreement and the program detached, and it stays attached only if the kernel refused |
| Metrics.SaturationFlag | src/metrics/Metrics.cpp:10-18 | the sum is cut at 2^64 - 1, and the flag is raised exactly when the exact sum reaches that value |
| Metrics.MetricsCollector.RecordStatEvent | src/metrics/Metrics.cpp:58-103 | every counter is min(2^64 - 1, exact sum), the gauge is exact, and a refused event changes nothing |
| UdpFlows.Inverse | src/net/UdpReactor.cpp:605-607 | the key index and the token index are inverse to each other, and reserved tokens name no flow |
| UdpFlows.RemoveKeeps | src/net/UdpReactor.cpp:314-320 | closing a flow removes exactly its entries from both indexes |
| UdpFlows.TakeKeeps | src/net/UdpReactor.cpp:397-399 | the token taken was never bound before |
| UdpFlows.InsertKeeps | src/net/UdpReactor.cpp:429-433 | a new flow keeps the indexes inverse |
| UdpFlows.RollbackIsExact | src/net/UdpReactor.cpp:434-447 | undoing an insertion, or half of one, restores the indexes exactly |
| UdpReactor.UdpReactor.CloseFlow | src/net/UdpReactor.cpp:314-341 | the flow leaves both indexes before any report, each report is attempted, and the first failure is kept |
| UdpReactor.UdpReactor.CloseAllFlows | src/net/UdpReactor.cpp:196-207 | the table ends empty whichever callbacks fail, with the first failure of all |
| UdpReactor.UdpReactor.ExpireIdleFlows | src/net/UdpReactor.cpp:343-354 | no flow that is not due is closed, and on success none that is due is left |
| UdpReactor.UdpReactor.RegisterFlow | src/net/UdpReactor.cpp:424-450 | the transaction inserts everything or leaves the table as it was |
| UdpReactor.UdpReactor.CreateFlow | src/net/UdpReactor.cpp:356-422 | the new key and token are in both indexes afterwards exactly if everything up to the registration succeeds; so a failed creation leaves them exactly if a callback that announces the flow throws; a new flow has a token never used before and the backend that was selected; it leaves the gauge behind exactly if it makes more than 1024 flows |
| UdpReactor.UdpReactor.FillIndexes | src/net/UdpReactor.cpp:429-447 | the three steps of the registration succeed together or leave both indexes as they were |
| UdpReactor.AnswerIsSubmission | src/net/UdpReactor.cpp:528-557 | up to four calls come to a submission exactly if one of them takes the whole datagram and all before it were interrupted |
| UdpReactor.FailedCreationLeavesFlow | src/net/UdpReactor.cpp:416-421 | an instance of a creation that fails and leaves its flow in both indexes |
| UdpReactor.UdpReactor.SendFlowDatagram | src/net/UdpReactor.cpp:504-558 | if that is what the calls come to, exactly this datagram was submitted to the bound backend, or to the client from the local address it came to, and the idle time of the flow restarts; otherwise nothing was and the datagram is dropped, and the error closes the flow, is reported, or ends the service as its kind demands; one event in every case |
| UdpReactor.UdpReactor.HandleSocketError | src/net/UdpReactor.cpp:483-502 | by kind of error: the service ends, the flow is closed, or it is counted and reported, and which of these happens is exact |
| UdpReactor.UdpReactor.ResolveFlowToken | src/net/UdpReactor.cpp:605-625 | a live flow of the key is used as it is; a failed creation counts the datagram as dropped; a failing close of the expired flow does not |
| UdpReactor.UdpReactor.ForwardRequest | src/net/UdpReactor.cpp:594-599 | a client datagram gets exactly one event unless its own flow had expired and closing it threw; a live flow submits it to its bound backend and a new one to the backend selected, exactly if the calls come to a submission |
| UdpReactor.UdpReactor.HandleListenerRead | src/net/UdpReactor.cpp:560-603 | the listener is read until it has nothing more or 64 receives are spent, and all accounts hold throughout |
| UdpReactor.UdpReactor.ListenerStep | src/net/UdpReactor.cpp:560-603 | every datagram acquired from the listener is accounted for, except exactly in the one case above, and is submitted as the calls of sendmsg say to the backend of its flow; a failed receive changes no flow |
| UdpReactor.UdpReactor.BackendStep | src/net/UdpReactor.cpp:627-661 | an expired flow is closed before anything is read; otherwise a reply goes to the client of the flow, from the address the client had sent to, exactly if the calls come to a submission, and is accounted for once; an error is treated by its kind |
| UdpReactor.UdpReactor.DispatchFlowEvent | src/net/UdpReactor.cpp:663-715 | a stale token changes nothing; an event reads from its own socket only, and after a hang-up from none; an expired or hung-up flow is closed, a hang-up of the listener ends the service; every event keeps table, gauge and accounts |
| UdpReactor.UdpReactor.EveryDatagram | src/net/UdpReactor.cpp:504-558 | at every step boundary the datagrams received are those the kernel took as a whole, those counted as dropped, and the lost one |
| UdpReactor.RunUdpReactor | src/net/UdpReactor.cpp:719-733 | every run, with any flow limit, closes every flow it created, bindings never change, and at most one datagram, whose loss ended the run, has no event |
| UdpReactor.UdpReactor.GaugeIsExact | src/metrics/Metrics.cpp:62-71 | with a limit of at most 1024 flows the gauge is the number of live flows at every step boundary; it never exceeds it |
| UdpReactor.GaugeFallsBehind | src/metrics/Metrics.cpp:62-66 | for every larger limit a run of 1025 creations leaves the gauge at 1024 |
| UdpReactor.LossHappens | src/net/UdpReactor.cpp:605-612 | a run of a reactor in which a datagram is lost: its flow went idle and the flow callback of closing it throws |
| UdpReactor.ForwardStep | src/net/UdpReactor.cpp:533-538 | datagram and byte counters stay exactly those of the datagrams the kernel took |
| RoundRobin.RoundRobinScheduler.SelectNextBackendIndex | src/core/RoundRobinScheduler.h:16-21 | the cursor moves by one, around the pool |
| RoundRobin.SelectEligibleBackendIndex | src/control/HealthSelection.cpp:12-23 | the first eligible backend from the cursor on; the logic_error is unreachable, and without an eligible backend the cursor stays |
| RoundRobin.NoStarvation | src/control/HealthSelection.cpp:12-23 | a backend that stays eligible is picked within as many selections as the cursor is steps away, however the others change |
| RoundRobin.ChosenInEveryN | src/control/HealthSelection.cpp:12-23 | so it is picked at least once in any n successive selections |
| RoundRobin.LeadOfNearer | src/core/RoundRobinScheduler.h:16-21 | of two eligible backends one is ahead by one exactly while the cursor is between them |
| RoundRobin.Fairness | src/core/RoundRobinScheduler.h:16-21 | for a fixed set of k eligible backends any m selections pick each floor(m/k) or ceil(m/k) times |
| EndpointParser.ParseUnsignedDecimal | src/config/Config.cpp:31-45 | the loop with 32-bit wrap-around, equal to the recursive form that the lemmas are about |
| EndpointParser.ParseExact | src/config/Config.cpp:31-45 | for a maximum of at least 2 it returns a value exactly for canonical decimal numbers up to the maximum, and that value |
| EndpointParser.AcceptedDigit | src/config/Config.cpp:36-41 | no intermediate product overflows 32 bits when the maximum is at least 2 |
| EndpointParser.WrapAccepts | src/config/Config.cpp:36-44 | for the maxima 0 and 1 it accepts 4294967296 |
| EndpointParser.CorrectFromTwo | src/config/Config.cpp:31-45 | it is correct for every text if and only if the maximum is at least 2 |
| EndpointParser.ReadPrints | src/control/TcpService.cpp:12-16 | every canonical number is the printed form of its value |
| EndpointParser.ParseInvertsPrint | src/config/Config.cpp:31-45 | reading succeeds exactly on the printed forms of the numbers in range |
| EndpointParser.OctetsInvert | src/config/Config.cpp:57-65 | four octets are read from exactly their dotted form |
| EndpointParser.ParseIpv4Endpoint | src/config/Config.cpp:47-73 | a text is accepted exactly if it is the printed form of a permitted endpoint, which is the result |
| EndpointParser.PrintEndpointInjective | src/control/TcpService.cpp:12-16 | different permitted endpoints have different printed forms |

## Left out

- TcpReactor.RunTcpReactor: session ids are unbounded, so their 64-bit counter never wraps; the endpoint tokens do refuse to wrap.
- TcpStop.StopControl.ConsumeStopSignals: the stop state is a class of its own here, so that session I/O can poll it without touching the session table.
- TcpSession.Session.ShutdownDestination: the errno of an interrupted call that fails the session is EINTR here; in the source the calls of stop handling may have overwritten it.
- TcpReactor.TcpReactor.CloseSession: which text a callback receives is not modelled; a callback is its success or its failure.
- TcpReactor.TcpReactor.AcceptClientSessions: of the callbacks outside the close path, statistics and diagnostics are taken not to throw; backend selection and maintenance may, which ends the service.
- RuntimeDsrService.RunRuntimeDsrControlLoop: allocation failures are not modelled; of the output queue only the RuntimeControlError it may raise is.
- RuntimeDsrConfig.LoadRuntimeConfig: starts from parsed entries; reading the file and splitting its lines into fields is left out, the checks of the entries are not.
- DsrConfig.ParseDsrConfiguration: inet_pton and the interface ioctls are maps given as input.
- RuntimeMapStore.RuntimeMapStore.PublishSnapshot: descriptors are named by the map they refer to; EPERM and EACCES are answered only for a frozen map; a failed outer update has no effect, and a held inner map stays valid.
- SnapshotMaps.PacketIsAtomic: a packet before the first publication is not modelled, since the program is attached after it.
- UdpReactor.UdpReactor.ListenerStep: the parsing of packet control data is an input, a key or none; the address family, port and IP_PKTINFO tests are left out.
- UdpReactor.UdpReactor.DispatchFlowEvent: the rate limit of diagnostics is part of the script that says whether a report throws; the statistics callback does not throw.
- Metrics.MetricsCollector.RecordStatEvent: the ten named counters are one sequence, indexed by the kind of event.
- The object and map metadata checks, attachment, and the initialisation of the template map: foreign calls without further logic.
- synchronizeXdpConfig and synchronizeDsrConfig: fixed copy, compare and freeze loops.
- The poll timeout of the event loops, epoll and signalfd set-up, and socket options: only what they report is an input.
- The TCP health checker: a simpler instance of the probe checker; its state machine, HealthState, is modelled.
- Command line, configuration lines, log and metrics formatting, and the quality of the flow hash.
