# A Dafny model of fletsv6-companion

fletsv6-companion listens for IPv6 router advertisements, keeps a MikroTik RouterOS router
configured for the advertised prefix and gateway, and answers neighbour solicitations for addresses
in that prefix. This project models its logic and proves what that logic keeps and reaches.

| module | models |
|---|---|
| `Bpf` | the classic BPF machine: registers, scratch memory, packet loads that end the run when out of bounds, forward jumps |
| `Dot1Q` | `bpfWithDot1Q`, which puts a VLAN-matching preamble in front of a filter and moves its packet loads behind the tag; the four shipped filters as instances |
| `Prefix` | `maskedIPAssign` and CIDR masks, and the 128-bit arithmetic they amount to |
| `FlexibleIPs` | addresses written relative to the advertised prefix: parsing, `ResolveFIP`, `FlexibleIP.String` as an ownership key |
| `Tables` | a remote table as a desired-state controller sees it: read, stop, update an own row, or add one |
| `RouterOS` | the router's three tables, its commands, and the three reconcilers `SetIPv6Gateway`, `AssignIPv6`, `ExportIPv6Pool` |
| `Reconciliation` | what runs of reconcilers keep and reach when commands fail before or after taking effect |
| `RaWorker`, `RaRuns` | the router advertisement worker and its whole runs |
| `RouterRows`, `RaRows` | what the reconcilers and the worker do to the rows of the router's tables, field by field |
| `RaRepair` | what becomes of commands that were lost |
| `RaPrefixes` | which prefix the worker knows, in terms of the options it has received |
| `ConnectionPool` | every interleaving of `RunArgs` calls and the keepalive worker, as a state machine |
| `Keepalive` | the pooled list as the code changes it when nobody interferes, up to a whole keepalive pass |
| `Outcomes` | a run for every outcome of a call and of a keepalive round, from every state |
| `Undisturbed` | every run of the state machine in which one call, round or pass is not interfered with |
| `Rotation` | which connections successive calls and rounds work on |
| `Epoll` | `epollOnce` with its backward `goto`, and `ReadMultiSocksOnce` |
| `NdProxy` | the neighbour discovery receive loop and its decision, alone and next to the advertisement worker |

Code that changes things in place is a method over an array, or of a class with the source's fields,
proved equal to a function of the old state; the lemmas are about that function, and the ones on rows,
flags, frames and indices say what it means without it. `ListAfter`, `Poll`,
`Apply` and `Run` are such functions. Failures are inputs: each router command carries a fate (read
fails, write lost before its effect, write lost after its effect, done), each wait a batch of events
or an error, each activation of a worker the outcome of opening its socket.

## Where the program falls short

- The VLAN rewriter keeps an instruction's meaning exactly when it is movable: no absolute load
  across byte 12, none whose offset wraps at +4, no load relative to X, no header-length load at or
  behind byte 12 (`MovableExactly`). Around every other load there is a legal program that breaks
  (`ProgramExactly`).
- A movable program keeps its meaning exactly when its results do not depend on what the preamble
  leaves in A, the VLAN id or for id 0 the EtherType (`KeepsMeaningExactly`). Writing A before reading
  it is enough, and a check of the program text (`WritesAFirstIsIndifferent`); returning A is not
  (`DirtyABreaks`). An id over twelve bits matches no frame, and every other one does
  (`VlanExistsExactly`).
- A resolved network stays inside the advertised prefix if and only if it is the bare form or its
  own length is at least the advertised one (`InsideThePrefix`); a shorter one holds addresses outside.
- Reconciling converges in one pass if and only if the configuration has no conflict: no two
  different assignments share interface and key, no two different pools share a name, and the
  external interface name has no `%` (`ReconcileConvergesExactly`). Exact duplicates are harmless.
  The same condition is exact for whole runs from the program's start (`ListeningIsSettledExactly`)
  and for reconciling only on change (`SkippingIsSoundExactly`). With a `%` the gateway is written on
  every pass (`GatewayConvergesExactly`).
- A lost command stays lost, whatever else happens, until an advertisement differs from the known one
  or the worker is restarted (`NothingElseActs`); these make up for it exactly when the wishes do not
  clash (`RepairedExactly`). For every configuration with something to do there is a run that loses its
  commands like that (`LostUntilChangeOrRestart`).
- Neither the solicitation nor the listen loop asks for a usable prefix length. The known prefix is
  unusable if and only if the last advertisement taken in had no Prefix Information option, which only
  the listen loop accepts (`SolicitationAcceptsExactly`), or one longer than 128, which both accept
  (`UnusableExactly`, `SolicitedUnusable`). Then, and with length 0, the bare `ra-prefix` holds every
  address, and the proxy takes up every target that is not excluded (`TakesUpEverythingExactly`).
- The comment in `ReadMultiSocksOnce` calls index -1 without an error a timeout. It comes after a
  timeout that only hang-ups preceded, or when all sockets hung up one by one, the last without data,
  and in no other case (`NoSocketExactly`). The receive loop in nd.go waits without a timeout and uses
  the index unchecked, so it panics in exactly the second case, or after a wait for no sockets at all
  (`PanicsExactly`).
- A completion signal that comes before its caller waits is lost. The caller can then only time out
  (`LostSignalMeansTimeout`) and the connection is closed, never shared or leaked. In the same way a
  keepalive probe that is answered too early costs its connection (`RoundExactly`).
- Calls take the pooled list's first connection to its end, rounds its last one to the front, so they
  undo each other (`ListIsTurned`). With one call before each round a single connection is used and
  probed every time and no other one is kept alive (`AlternationStarves`).

## Model

| member | source | states |
|---|---|---|
| Bpf.LegalNeverStuck | util.go:27-62 | a program whose jumps stay in range returns a value on every packet, from every register state |
| Bpf.InitialAIrrelevant | util.go:38-61 | a program that writes A before reading it (a static path check) gives the same result whatever A a preamble leaves behind |
| Bpf.RunSuffix | util.go:49 | jumps are relative: code behind any preamble runs as it does alone |
| Dot1Q.BpfWithDot1Q | util.go:27-62 | the append and the in-place shifting loop compute the specified program, for both branches, into fresh storage; the caller's slice is not modified |
| Dot1Q.MovableExactly | util.go:51-58 | the rewritten instruction does on every frame of at least 16 bytes, from every register state, what the original does on the frame without its tag, if and only if it is movable |
| Dot1Q.ProgramExactly | util.go:38-61 | for every load instruction a legal program that writes A first and keeps its meaning on all tagged frames if and only if the load is movable |
| Dot1Q.ShiftedRun | util.go:51-58 | the shifted program runs in lock step with the original on the frame without its tag, from every position and register state |
| Dot1Q.TaggedPreamble | util.go:39-46 | the preamble hands over, with the id left in A, exactly on frames of at least 16 bytes with an 0x8100 tag carrying the id; every other frame gives 0, whatever follows |
| Dot1Q.WrappedRun | util.go:27-62 | what wrapping does on every frame, for both branches and whatever the program makes of A: a run of the original on the inner frame, with the id or the EtherType in A, or 0 |
| Dot1Q.WithDot1QMeaning | util.go:27-62 | on every frame: the original's verdict on the frame without its tag if the outermost tag carries the id, for id 0 on frames of at least 14 bytes with none of the EtherTypes 0x8100, 0x88a8, 0x9100, otherwise 0; for programs indifferent to what the preamble leaves in A |
| Dot1Q.WritesAFirstIsIndifferent | util.go:38-61 | a program that writes A before reading it, on a static check of its paths, is indifferent |
| Dot1Q.KeepsMeaningExactly | util.go:27-62 | a program keeps its meaning on all frames of the id if and only if it is indifferent to what is left in A, or the id fits no frame |
| Dot1Q.NoSuchVlan | util.go:44 | an id that needs more than twelve bits matches no frame |
| Dot1Q.VlanExistsExactly | util.go:42-44 | some frame carries the id if and only if it fits into twelve bits; the filters for an id accept nothing, whatever the program, if and only if it does not |
| Dot1Q.WrappedIsWrappable | util.go:27-62 | the output is again legal, movable (by one tag less) and writes A first |
| Dot1Q.StackMeaning | util.go:27-62 | a program wrapped once per id means, on every frame, the original on the frame after peeling the tags from the outside, where id 0 stands for no further tag, or 0 when one does not match |
| Dot1Q.StackedTagsTransparent | util.go:38-61 | on a frame with that stack of tags the wrapped filter gives the original's verdict on the bare frame |
| Dot1Q.OneCallOneTag | util.go:41 | one call alone matches one tag: behind two tags the program sees the inner one |
| Dot1Q.DirtyABreaks | util.go:42-44 | the legal program that returns A is indifferent for no id but the non-zero multiples of 2^32 |
| Dot1Q.ReadingAIsHarmless | util.go:42-44 | a legal program that reads A first and is indifferent for every id |
| Dot1Q.FiltersAreWrappable | sock.go:258-327 | the four shipped filters meet all conditions of the stack theorem for up to a million tags |
| Dot1Q.ICMPv6AcceptsExactly | sock.go:283-327 | on every frame: the two filters accept exactly frames of at least 55 bytes with EtherType 0x86dd, next header 0x3a and the message type, 134 or the given one |
| Dot1Q.NDAcceptsExactly | sock.go:298-313 | the same with type 135 and a destination that begins with 33:33 |
| Dot1Q.MulticastAcceptsExactly | sock.go:258-281 | the multicast filter and its negation on every frame; a frame too short for their loads is refused by both |
| Prefix.MaskedIPAssign | util.go:92-100 | the in-place loop leaves prefix bits under the mask and host bits elsewhere, does nothing when lengths differ, and is right even when the buffers are the same one |
| Prefix.SubstituteIsArithmetic | util.go:92-100 | the masked bytes spell (P div 2^r)·2^r + H mod 2^r, for buffers of any length and every mask length |
| Prefix.ValueInjective | util.go:92-100 | byte strings of one length that spell the same number are equal, so the arithmetic determines the bytes |
| Prefix.CoversIsArithmetic | nd.go:248-276 | byte-wise network membership is equality of the numbers' leading bits |
| Prefix.CoversSubstituted | ra.go:279-309 | membership in a spliced network: agree with the prefix above and with the host part between |
| Prefix.ShorterCidrLeaks | ra.go:293-302 | a shorter length gives an address inside the resolved network and outside the prefix |
| FlexibleIPs.ParsedIsValid | config.go:313-336 | a parsed address has length -1 only in the bare `ra-prefix` form, with no own address; otherwise 16 bytes and a length of 0..128; and which ownership key it gets |
| FlexibleIPs.ParsedExactly | config.go:313-336 | address, length and failure in terms of the two library parsers, for an absolute text, for one behind the marker, and for the marker alone; a text that is only an address gets length 128 |
| FlexibleIPs.Copy | ra.go:281 | Go's copy on byte slices |
| FlexibleIPs.ResolveFIP | ra.go:279-309 | the method with its buffers computes the specified resolution, and dereferences router information only under the stated guard |
| FlexibleIPs.ParsedIsResolvable | ra.go:279-302 | every parsed address is safe to resolve, and has no resolution exactly while it wants a prefix and none was received |
| FlexibleIPs.ResolvedValue | ra.go:279-309 | the resolved address is the prefix number above bit 128-L and below it the configured number, or 0 for the bare form; and its mask |
| FlexibleIPs.UnusablePrefixKeepsHost | util.go:92-95 | with an advertised prefix without a mask the result is the configured address and length, or nothing but zeros for the bare form |
| FlexibleIPs.ResolutionIgnoresLowBits | ra.go:292-294 | advertisements that differ only behind the prefix length resolve alike |
| FlexibleIPs.ResolvedMembers | ra.go:279-309 | with own length at least L: exactly the addresses of the advertised prefix that agree with the host part on bits L..cidr |
| FlexibleIPs.BareIsThePrefix | ra.go:297-299 | the bare form resolves to exactly the advertised prefix's members |
| FlexibleIPs.InsideThePrefix | ra.go:279-309 | the resolved network is inside the advertised prefix if and only if it is the bare form or cidr >= L |
| FlexibleIPs.MissingPrefixHoldsEverything | ra.go:297-299 | without an advertised prefix the bare form contains every address |
| FlexibleIPs.BareHoldsEverythingExactly | ra.go:279-309 | the bare form contains every address if and only if the advertised prefix has no mask or length 0 |
| FlexibleIPs.SameTextSameResolution | ra.go:248-249 | prefixes that print alike resolve alike, so comparing texts loses nothing |
| Tables.ReplyDecides | ros.go:258-289 | a filtered reply that leaves out only irrelevant rows decides like the whole table, including which row a set goes to |
| Tables.FirstIndex | ros.go:329-333 | the row the pool reconciler looks at is the first own one |
| Tables.WrittenAt | ros.go:268-297 | the row a set goes to is the last own one, for pools the first |
| Tables.WrittenRows | ros.go:291-312 | a write updates one own row in place under its id, or appends one row when there was none; ids stay distinct |
| Tables.WriteKeepsAtMostOne | ros.go:439-456 | no write gives an owner a second row |
| Tables.WriteSettles | ros.go:439-456 | after an effective write the controller finds what it wants |
| Tables.WriteKeepsSettled | ros.go:439-456 | a write that does not concern a controller leaves it content |
| RouterOS.SplitParts | ros.go:273-274 | splitting at '%' gives parts without '%', and one part if and only if there was none |
| RouterRows.SplitJoins | ros.go:273-274 | nothing of a text is lost by splitting it at '%' |
| RouterOS.Router.Run | ros.go:187-211 | a command changes the tables as specified or, lost before its effect, not at all; it reports success exactly when nothing was lost |
| RouterOS.ROSClient.SetIPv6Gateway | ros.go:253-315 | scan, early return, set or add: new router state and success flag for every fate of read and write |
| RouterOS.ROSClient.ExportIPv6Pool | ros.go:317-357 | the same for pools, where only the first row of the reply is looked at |
| RouterOS.ROSClient.AssignIPv6 | ros.go:405-459 | the same for addresses, where the last commented row is the target and any matching one ends the call |
| Reconciliation.ApplyKeepsSingle | ros.go:253-459 | no reconciler call, lost or not, gives any owner a second entry |
| Reconciliation.SuccessSettles | ros.go:253-459 | a reconciler that returns no error has reached its wish, for the gateway with an interface name without '%' |
| Reconciliation.ApplyKeepsSettled | ros.go:253-459 | a reached wish stays reached while others are worked on, whatever fails |
| Reconciliation.RunKeepsSingle | ros.go:405-459 | over any sequence of calls with changing wishes and commands lost before or after their effect, each owner keeps at most one entry: address per interface and comment, default route, pool name |
| Reconciliation.RunTouchesOwnRowsOnly | ros.go:253-459 | over any such sequence rows keep position, id and owner, and rows that no call owns keep all their data |
| Reconciliation.EachSuccessLasts | ra.go:202-229 | a failure stops nothing: over a pass of consistent wishes with any failures, every wish whose own call did not fail is reached at the end |
| Reconciliation.PassSettles | ra.go:202-229 | one error-free pass over consistent wishes reaches all of them |
| Reconciliation.ConvergesExactly | ra.go:202-229 | one error-free pass reaches every wish if and only if no two wishes about one entry differ and the gateway text can be read back |
| Reconciliation.SilentExactly | ra.go:202-229 | an error-free pass sends no command if and only if everything is as wished, and then changes nothing |
| Reconciliation.SecondPassSilentExactly | ra.go:202-229 | a second pass sends no command if and only if the wishes are consistent |
| Reconciliation.GatewayConvergesExactly | ros.go:253-315 | after a successful gateway update a repeated call writes nothing if and only if the interface name has no '%' |
| RouterRows.AddressRows | ros.go:405-459 | nothing to do if and only if a static address of interface and comment has the address, advertise and eui-64; otherwise the last own row gets these three fields, or a row with them is added; no other row or table changes |
| RouterRows.RouteRows | ros.go:253-315 | nothing to do if and only if some default route has the gateway address and the interface; otherwise the last commented default route gets the gateway text, or one is added |
| RouterRows.PoolRows | ros.go:317-357 | nothing to do if and only if the first pool of the name has prefix and length; otherwise that row gets them, or one is added |
| RouterRows.CallInRows | ros.go:253-459 | each call for each fate: when it sends a command, when the tables change, and when it returns an error |
| RouterRows.SuccessInRows | ros.go:253-459 | after a successful call the router holds the asked-for row, field by field; the gateway with an interface name without '%' |
| RouterRows.NothingAccumulates | ros.go:253-459 | over any calls with any fates: at most one static address per interface and comment, one commented default route and one pool per name, if it was so before |
| RaWorker.ReceivePrefix | ra.go:157-163 | the option loop yields the last Prefix Information option's prefix, or none; it ends in an index out of range if and only if some such option has no byte or no 30 bytes up to the end of its buffer |
| RaWorker.LastPrefixAt | ra.go:157-163 | with several such options the last one counts: bytes 14..30 and its first byte as the length |
| RaWorker.LastPrefixFromOption | ra.go:157-163 | that prefix is absent if and only if no such option was there, and otherwise has 16 bytes and a real mask or none |
| RaWorker.RAClient.AssignList | ra.go:210-221 | the assignment loops execute their part of the plan, each call with its own fate |
| RaWorker.RAClient.ExportList | ra.go:222-227 | the pool loop executes its part of the plan |
| RaWorker.RAClient.ApplyGateway | ra.go:205-209 | the gateway is worked on first, and only with an external interface configured |
| RaWorker.RAClient.ReconcileRos | ra.go:203-228 | an error in one operation does not stop the rest: the whole plan is applied in order |
| RaWorker.RAClient.Reconcile | ra.go:202-229 | nothing happens unless the mode is "ros" |
| RaWorker.RAClient.FirstAdvert | ra.go:183-199 | the solicited advertisement must carry a prefix; then it is stored and reconciled |
| RaWorker.RAClient.NextAdvert | ra.go:243-258 | a listened-to advertisement is stored and reconciled exactly when prefix text or gateway changed |
| RaWorker.RAClient.WorkInternal | ra.go:231-259 | one activation over any input equals the specified run, up to its first error |
| RaRuns.NoConflictIsConsistent | ra.go:202-229 | a configuration without conflict gives a consistent plan for every advertisement |
| RaRuns.Separated | ra.go:279-309 | two different configured addresses are told apart by some advertisement |
| RaRuns.ConsistentExactly | ra.go:19-27 | the plan is consistent for every advertisement if and only if the configuration has no conflict |
| RaRuns.ReconcileConvergesExactly | ra.go:202-229 | one error-free reconcile reaches the desired configuration, for every advertisement and router, if and only if the configuration has no conflict |
| RaRows.PlanInRows | ra.go:202-229 | the plan is reached if and only if every configured assignment is on its interface under its key with its resolved address and its own advertise and eui-64, the first pool of each name has its resolved prefix and length, and with an external interface some default route has the gateway and that interface |
| RaRows.ReconciledInRows | ra.go:202-229 | that holds after one error-free reconcile, for a configuration without conflict |
| RaRows.ReconcileTouchesConfiguredOnly | ra.go:202-229 | whatever fails, rows stay in place under their id, rows that are not configured keep all data, and other modes change nothing |
| RaRows.RoutesLeftAlone | ra.go:205-209 | without an external interface no route changes, whatever fails |
| RaRows.ListeningAsConfigured | ra.go:231-259 | in every error-free run from the program's start: everything configured is on the router whenever the worker waits for the next advertisement |
| RaRows.NoRunAccumulates | ra.go:231-259 | no run of the worker adds a second own row, in rows |
| RaRows.DesiredIsConfigured | ra.go:202-229 | what repairs are about is the configuration on the router, in rows |
| RaRuns.ListeningIsSettled | ra.go:231-259 | over whole error-free runs with restarts: whenever the worker waits for the next advertisement the router is as desired for the current information |
| RaRuns.PlanAlike | ra.go:248-249 | advertisements that compare as unchanged have the same plan |
| RaRuns.SkippingIsSound | ra.go:248-257 | reconciling only on change leaves the same tables, after the same commands, as reconciling on every advertisement |
| RaRuns.CanBeAdvertised | ra.go:157-163 | the prefixes assumed in these theorems are exactly those an option list can carry: each has an advertisement |
| RaRuns.ListeningIsSettledExactly | ra.go:231-259 | over all error-free runs from the program's start, in front of every router: as desired in every waiting state if and only if the configuration has no conflict |
| RaRuns.SkippingIsSoundExactly | ra.go:248-257 | over all error-free runs from the program's start: skipping unchanged advertisements is indistinguishable, commands included, if and only if the configuration has no conflict |
| RaRuns.ConflictShowsInWrites | ra.go:248-257 | for each configuration with a conflict, a run from the program's start in which the skipped advertisement would have caused a command |
| RaRuns.InfoStays | ra.go:170-257 | router information never disappears and the worker listens only with it, whatever fails |
| RaRuns.FailureEndsActivation | ra.go:183-246 | a failed or timed-out receive, while soliciting or listening, ends the activation and changes nothing else; a worker that is down receives nothing |
| RaRuns.ActiveSinceStart | ra.go:231-240 | a worker that waits was started after the last failure, with a socket, and with known information or a sent solicitation |
| RaRuns.RunsNeverAccumulate | ra.go:231-259 | no run of the worker gives an owner a second entry, whatever commands are lost |
| RaRuns.SolicitedHasPrefix | ra.go:187-189 | the worker leaves the solicitation only with an advertisement that carried a 16-byte prefix address |
| RaRuns.RepeatedAdvertsDoNothing | ra.go:248-257 | advertisements that repeat the known information change nothing, even when an earlier command was lost |
| RaRepair.NothingElseActs | ra.go:231-259 | without a change or a restart the tables and the known information stay as they are, for every configuration and whatever fails |
| RaRepair.PassReachesExactly | ra.go:202-229 | an error-free reconcile reaches the wishes if and only if they do not clash, for a configuration without conflict or a router with at most one entry per owner |
| RaRepair.StepDesiredExactly | ra.go:231-259 | after an error-free step, under that condition: as desired if and only if the step was a change or restart and the wishes do not clash, or it was neither and the router was as desired |
| RaRepair.RepairedExactly | ra.go:231-259 | the same over any error-free run: a change or restart repairs every command lost earlier if and only if the wishes do not clash, and nothing else repairs one |
| RaRepair.AdvertRepairsExactly | ra.go:248-257 | the same for one advertisement while listening: it repairs only if its prefix text or gateway differs |
| RaRepair.RestartRepairsExactly | ra.go:235-240 | a failed receive and a restart repair without a new advertisement, if and only if the wishes do not clash |
| RaRepair.LostCommandsWriteNothing | ra.go:202-229 | a pass whose commands are all lost leaves an empty router empty |
| RaRepair.LostUntilChangeOrRestart | ra.go:248-257 | for every configuration with something to do, a run from the program's start that leaves the router unconfigured through every future, failing or not, up to the first change or restart, and what these then do |
| RaPrefixes.LastPrefixHasLastLength | ra.go:157-163 | address and mask of the received prefix in terms of the last option's length byte |
| RaPrefixes.NilTextExactly | ra.go:157-163 | a received prefix prints as nothing if and only if its option is missing or longer than 128 |
| RaPrefixes.SolicitationAcceptsExactly | ra.go:187-189 | the solicitation accepts an advertisement if and only if it has the option, whatever its length |
| RaPrefixes.TakenInIsKnown | ra.go:187-256 | an advertisement that ends in listening is known afterwards: same prefix text, same gateway |
| RaPrefixes.KnownIsLastTakenIn | ra.go:170-256 | in every run from the program's start, whatever fails, the worker knows the prefix text and gateway of the last advertisement taken in, and nothing before the first |
| RaPrefixes.UnusableExactly | ra.go:157-256 | the known prefix is unusable if and only if that advertisement's last option is missing or longer than 128 |
| RaPrefixes.HoldsEverythingExactly | ra.go:279-309 | the bare form holds every address if and only if that option is missing, longer than 128, or of length 0 |
| RaPrefixes.SolicitedUnusable | ra.go:187-189 | a run in which the solicitation itself leaves an unusable prefix, for each length of 129..255 |
| ConnectionPool.StepLists | ros.go:52-161 | every action keeps pooled, closed and keepalive-dialled connections duplicate-free and apart |
| ConnectionPool.StepHeld | ros.go:52-211 | every action keeps connections in use off all lists and with one user |
| ConnectionPool.StepRunning | ros.go:187-211 | every action keeps a command in flight on its own user's connection or on a closed one, and alone |
| ConnectionPool.RunKeepsInv | ros.go:52-211 | every interleaving keeps the pool's invariant |
| ConnectionPool.OwnershipIsExclusive | ros.go:52-211 | in every interleaving: no duplicates in the pool, nothing both pooled and in use or closed, nothing used or closed twice, no command in flight on a pooled connection, no two commands on one connection |
| ConnectionPool.ConnectionsAreConserved | ros.go:99-211 | in every interleaving each connection ever dialled is in exactly one of: pooled, in use, closed, dialled by the keepalive worker, which never pools it |
| ConnectionPool.SleepDivisorIsPositive | ros.go:102-113 | the keepalive worker never divides by zero |
| ConnectionPool.SleepReckons | ros.go:99-113 | in every interleaving the divisor of a sleep is the number of connections counted at the pick, one less if the probed one was discarded, never less than one |
| ConnectionPool.LostSignalMeansTimeout | ros.go:195-210 | a caller whose signal was lost is moved by no action but its timeout |
| ConnectionPool.SignalArrivesExactly | ros.go:195-206 | the non-blocking signal arrives if and only if the caller already waits |
| Outcomes.CallOutcomes | ros.go:142-211 | from every state a call can end in time, too late or too early, on a pooled or a dialled connection: lists and commands in flight for each |
| Outcomes.DialCanFail | ros.go:152-154 | a call that finds nothing pooled can fail to dial, and then pools and closes nothing |
| Outcomes.FirstConnectionIsPooled | ros.go:152-205 | from the program's start some run ends with its first connection pooled |
| Outcomes.LateCommandCanEnd | ros.go:195-201 | a command left in flight can still end, and changes no list |
| Outcomes.RoundOutcomes | ros.go:52-113 | from every state in which the worker picks, its round can end with a reply, with an error, too late or too early, or by dialling when nothing is pooled: lists and commands in flight for each |
| Undisturbed.RoundExactly | ros.go:52-113 | every run of a round in which nobody takes, returns or closes a connection: the last one goes to the front if and only if a reply came while the worker waited, and is closed otherwise; the command stays in flight if and only if it has not ended, and then the round expired |
| Undisturbed.CallExactly | ros.go:187-211 | every such run of a call, on a pooled or a dialled connection: pooled last if and only if the completion came while the caller waited, otherwise closed after a timeout; the command stays in flight if and only if it has not ended |
| Undisturbed.NothingArrivesLate | ros.go:195-210 | a use that is decided is not changed by a completion that comes later |
| Undisturbed.PassExactly | ros.go:52-113 | every such run of as many rounds as connections leaves exactly those whose reply came in time, in order, and closes the others from the back |
| Rotation.CallTurns | ros.go:142-161 | a successful call works on the first connection and turns the list one step |
| Rotation.RoundTurns | ros.go:52-92 | a successful round works on the last connection and turns the list one step back |
| Rotation.ListIsTurned | ros.go:52-211 | over every run of successful undisturbed calls and rounds the list is the first one turned by calls minus rounds |
| Rotation.EachTurnWorksOn | ros.go:52-211 | each of them works on exactly the connection that calls minus rounds so far point at, a round on the one before |
| Rotation.ProbedExactly | ros.go:52-211 | a connection is kept alive if and only if calls minus rounds come to point behind it before some round |
| Rotation.AlternationStarves | ros.go:52-211 | with one call before each round every turn works on the first connection, and no other is ever probed |
| Rotation.RoundsAloneProbeAll | ros.go:52-113 | without calls, as many rounds as connections probe each one |
| Keepalive.ROSConnectionPool.MakeConnection | ros.go:120-140 | a dial gives a fresh connection or none |
| Keepalive.ROSConnectionPool.Get | ros.go:142-155 | the first pooled connection, or a new one that is not pooled |
| Keepalive.ROSConnectionPool.Put | ros.go:157-161 | appends |
| Keepalive.ROSConnectionPool.RunArgs | ros.go:187-211 | what one call does to the list, the closed connections and the dial count in each of its four outcomes |
| Keepalive.ROSConnectionPool.Round | ros.go:52-113 | one round's effect on the list, who is probed and closed, and the sleep |
| Keepalive.ROSConnectionPool.Pass | ros.go:52-113 | as many rounds as connections: each is probed once, from the back; exactly those whose reply comes in time are left, in order; the others are closed; when all answer the list is unchanged and the sleeps take ten seconds, less than n nanoseconds short |
| Keepalive.PassStep | ros.go:52-113 | one more round moves the boundary between probed and unprobed by one |
| Keepalive.SurvivorsAnswer | ros.go:86-94 | the survivors are exactly the pooled connections that answer in time |
| Keepalive.SurvivorsInOrder | ros.go:91 | survivors of two parts stand in the order of the parts |
| Keepalive.AllSurvive | ros.go:91 | if all answer, all are left as they were |
| Keepalive.PassLastsTenSeconds | ros.go:113 | n truncated sleeps add up to more than 10^10 - n and at most 10^10 nanoseconds |
| Epoll.Register | sock.go:191-199 | registration succeeds if and only if all descriptors differ and the kernel takes each |
| Epoll.HandleBatch | sock.go:210-232 | the loop over one batch: remaining count, socket to read, sockets marked invalid, and whether it goes back to waiting |
| Epoll.EpollOnce | sock.go:176-237 | the goto loop terminates and its result, its wait count and every socket's validity are as specified, for every kernel, also when the epoll set cannot be made |
| Epoll.ReadMultiSocksOnce | sock.go:132-149 | never reaches its "unexpected" error; otherwise all outcomes: the epoll set or a wait fails, no socket, or the index of the socket to read with the result of reading it |
| Epoll.WaitsBound | sock.go:203-232 | at most one wait per socket, and one without sockets, whatever the kernel reports |
| Epoll.RemainCountsRegistered | sock.go:203-232 | with a kernel that reports registered descriptors once each, remainsock is the number still registered, so never negative, and nothing is taken out twice |
| Epoll.PickIsReadable | sock.go:203-232 | the socket to read was reported readable in some wait, also across retries; without one, the last wait reported none readable |
| Epoll.RetriesExactlyOnHangUp | sock.go:221-227 | while sockets are left, the call goes back to waiting after exactly the batches with a hang-up |
| Epoll.TakenOutExactly | sock.go:221-224 | in every batch the first of the sockets reported with EPOLLERR or EPOLLHUP is taken out and marked invalid, and no descriptor that no batch reported with either |
| Epoll.SeenFromKernel | sock.go:204-208 | the batches are what the waits reported, in order, and a failed call ends with a failed wait |
| Epoll.ReadOutcomeExactly | sock.go:132-149 | fails before a socket is chosen if and only if the epoll set cannot be created, a descriptor comes twice or is refused, or a wait fails; else the chosen socket was reported readable and gives what it delivers |
| Epoll.NoSocketExactly | sock.go:132-138 | for any number of sockets: no socket and no error if and only if a timeout came after nothing but hang-ups, or all hung up one by one, the last without data |
| Epoll.UntimedNoSocketExactly | sock.go:132-138 | without a timeout: if and only if the epoll set was made, no wait failed, and all sockets hung up like that or there were none |
| Epoll.HangUpsGiveNoSocket | sock.go:132-138 | any number of sockets can end like that, and all are then taken out |
| NdProxy.NDClient.Decide | nd.go:246-274 | dispatches if and only if some prefix resolves and contains the target and no resolvable exclude does, each resolved with the router information found at that moment |
| NdProxy.NDClient.OneRound | nd.go:234-276 | one round of the loop over a real multi-socket read: its end and what it dispatches |
| NdProxy.NDClient.WorkInternal | nd.go:233-277 | dispatches, in order, the targets of exactly those solicitations that some resolved prefix contains and no resolved exclude does; ends with an error exactly when reading fails and panics exactly when a read gives no socket |
| NdProxy.TargetsExactly | nd.go:246-276 | what is dispatched, by index: the wanted packets and no others, in order, over the networks that the addresses resolve to |
| NdProxy.RoundEndExactly | nd.go:235-239 | a round goes on, fails or panics exactly by the outcome of the read |
| NdProxy.PanicsExactly | nd.go:235-239 | waiting without a timeout, a round panics if and only if its waits succeed and all external sockets hung up, the last without data, or there are none |
| NdProxy.NothingBeforeFirstAdvert | nd.go:248-265 | in every interleaving of both workers, down to single resolutions, with `ra-prefix` prefixes only, nothing is dispatched before the first accepted advertisement |
| NdProxy.StepKeepsVerdict | nd.go:246-274 | a single resolution leaves the verdict as the remaining ones will find it |
| NdProxy.InterleavedDecision | nd.go:246-274 | however the advertisement worker interferes, a decision dispatches exactly what the information found by each resolution calls for, all of it known during the run |
| NdProxy.DecisionExactly | nd.go:246-276 | such a decision dispatches its target if and only if some resolved prefix contains it and no resolved exclude does |
| NdProxy.HeardIsDecided | nd.go:234-276 | a target heard while the loop waits is decided on after at most one resolution per configured address and two more steps, and with steady router information dispatched if and only if wanted for it |
| NdProxy.PrefixWithoutOwnAddress | nd.go:248-276 | bare prefix with one excluded address: dispatched if and only if in the advertised prefix and not that address |
| NdProxy.MissingPrefixTakesUpEverything | nd.go:248-276 | with a known prefix without a mask, a bare prefix among others makes every target that is not excluded dispatched |
| NdProxy.TakesUpEverythingExactly | nd.go:248-276 | over runs from the program's start: the bare prefix takes up every target that is not excluded if and only if the last option of the last advertisement taken in is missing, longer than 128, or of length 0 |

## Left out

- Raw sockets, attaching filters, epoll system calls and VLAN devices: only the batches of events are inputs. The epoll descriptor that `epollOnce` leaves open on its error paths is not part of the state.
- Packet building and parsing: advertisements are a source address and an option list, solicitations a target. Runs do not go on behind an option on which the option loop panics (`GoodEvent`, `ReceivePrefix`).
- BPF extension loads and the kernel's own meaning of offsets from 2^31: the machine is that of golang.org/x/net/bpf.
- Printing and parsing of addresses: texts are values that determine their bytes, IPv4-mapped addresses are excluded, and router replies hold CIDR text that parses (the code would dereference nil otherwise). Gateway texts are split at '%' as real strings.
- FlexibleIPs.ParsedIsValid: takes the two library parsers as parameters that give 16-byte addresses and lengths of at most 128.
- The RouterOS wire protocol, dialling and the router's own normalisation such as addresses changed by eui-64: the router stores what is written, and nobody else edits it.
- A command that takes effect after its timeout was reported and later commands were sent: a lost command has its effect at once or never.
- Keepalive.ROSConnectionPool.Pass: is about a pass in which no call uses the pool; what interleavings with calls keep is in `ConnectionPool`.
- The reply and error variables that a late command goroutine still writes in `RunArgs`.
- Epoll.WaitsBound: counts waits; the time bound, that count times the timeout, is not stated separately.
- `processNd`, `LookupNeighbor`, `solicitInternal`, `initSockGroup` and the proxied answer itself.
- Environment loading, logging, the hold-off timers of `Work`, and cancellation by context other than as a failed receive.
