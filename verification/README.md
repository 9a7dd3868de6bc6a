# A verified model of the algorithms and protocols in INET

INET is a framework for network simulation. Most of its code talks to the simulation kernel; this project models the
parts that are algorithms or protocols of their own and proves what they promise.

| files | what they model |
|---|---|
| `Adjacency`, `ShortestPaths`, `Topology` | the mutable graph of `Topology` and its weighted and unweighted searches |
| `DhcpMessages`, `DhcpServer`, `DhcpAnswers`, `DhcpClient`, `DhcpReactions`, `DhcpSystem`, `DhcpRuns`, `DhcpExchange`, `DhcpSharing`, `DhcpTimers` | the DHCP server and client (RFC 2131) and what they send, a network of them and its runs, an undisturbed exchange, two clients with one address, and the client's timers |
| `StateTree`, `Statechart`, `RunToCompletion`, `Machine` | hierarchical state machines: entry, exit, history, boxes and run-to-completion of `Macho` |
| `GlobPattern`, `GlobPieces`, `Tokenizer`, `SubstringMatch`, `PatternText`, `PatternParts`, `PatternMeaning`, `PatternCoverage`, `PatternMatcher` | the glob patterns of `PatternMatcher`: elements, tokens, and what a pattern text says |
| `Bits`, `TwosComplement`, `Numerals`, `Int128` | 128-bit integers made of two 64-bit words |
| `Reassembly` | reassembly of fragmented datagrams |
| `ModuleTree`, `Lifecycle`, `LifecycleController`, `NodeStatus` | staged operations over a module tree, and the status of a node |
| `ByteFifo` | the chunked byte queue `ByteArrayBuffer` |
| `SaturatedStreams` | the round robin of `NetPerfMeter` over saturated streams |
| `Options`, `CStrings` | optional values and C strings, shared |

Objects that the source updates in place are classes whose methods are proved against functions on values; the theorems
are about those functions. A graph, a DHCP client, a state machine and a running operation each have such a value
(`AsGraph`, `View`), and a whole life of the object is a sequence of its steps.

Where the code and its documentation disagree, the model follows the code:

- a DHCP client reads the hardware address of its interface only if its node is up at initialization; one that is
  started later sends 0 all its life, so that all such clients are one to the server and share an address
  (`AddressesAreUnique`, `TwoShareAnAddress`);
- a DHCP client is meant to give its address up when its lease ends (RFC 2131, section 4.4.5), but its lease timer is
  cancelled on entering REBINDING and never fires; it loses the address only to a NAK while it renews or rebinds
  (`LosesAddressExactlyWhen`), and keeps it past the lease's end, for good, if nobody answers (`AddressOutlivesLease`);
- a link association is meant to start DHCP, but before DHCP has started for the first time it sends through a socket
  that has no output gate, which stops the simulation (`T2IsNeverWrong`, `FailsExactlyWhen`);
- the DHCP server ignores packets that are no DHCP messages, such as ICMP error indications, but they stop a client
  (`T2IsNeverWrong`, `FailsExactlyWhen`);
- the DHCP server acknowledges a REQUEST for an address that is listed for another client, with an ACK to that client,
  unless the REQUEST takes an offer; and what it compares before it refuses a remembered address is the address with
  itself, so that it never does (`RequestIsAnswered`);
- a node crash is documented as having one stage and has two (`NumStages`);
- `PatternMatcher` compares a final literal after `**` exactly even where letter case is to be ignored, and only there
  departs from what its patterns are meant to say (`DenotesExactly`, `SuffixIsComparedExactly`);
- an escaped `[` in a pattern starts a numeric range if and only if one stands there (`EscapedBracket`,
  `EscapedRangeInstance`);
- `operator<` of `Int128` is not the integer order for some pairs of negative numbers (`LessIsOrderExactly`);
- `Int128` reads one letter too many as a digit: "a" as ten in decimal, "g" as sixteen in hexadecimal
  (`DigitsInEitherCase`);
- a pattern that need not match the whole line does not match every line with a part that matches, if it has numeric
  ranges (`SubstringMeans`, `NumberIsNotCut`).

## Model

| member | source | states |
|---|---|---|
| `TopologyModel.Topology.CalculateWeightedSingleShortestPathsTo` | inet/src/base/Topology.cc:409-467 | for positive link weights and non-negative node weights, either of them possibly infinite, the search ends; exactly the nodes with finite distance have been taken from the queue, each once and in order of distance; no path over enabled links and nodes is cheaper than the recorded distance, and where that is finite the recorded links lead to the target at exactly that cost; a null target is refused |
| `TopologyModel.Topology.CalculateUnweightedSingleShortestPathsTo` | inet/src/base/Topology.cc:365-407 | the same for the breadth-first search, where every link costs one and nodes cost nothing |
| `TopologyModel.Topology.WalksArePaths` | inet/src/base/Topology.cc:432-447 | the paths that the searches are about are exactly the walks over enabled links, each from an enabled node, and they cost the weights of their links and of the nodes between them |
| `TopologyModel.Topology.Consider` | inet/src/base/Topology.cc:429-465 | relaxing one link keeps the search invariant; a node with finite distance that is improved is still in the queue and moves to its place in distance order |
| `TopologyModel.Topology.ConsiderAll` | inet/src/base/Topology.cc:435-466 | the inner loop relaxes every usable link into the node |
| `TopologyModel.Topology.Visit` | inet/src/base/Topology.cc:385-406 | visiting one link keeps the invariant of the breadth-first search, in which the queue never spans more than one hop |
| `TopologyModel.Topology.VisitAll` | inet/src/base/Topology.cc:389-405 | the inner loop visits every usable link into the node |
| `ShortestPaths.ShorterSource` | inet/src/base/Topology.cc:451-454 | a node that can be improved has not left the queue, and is in it if and only if its distance is finite |
| `TopologyModel.Topology.FindPlace` | inet/src/base/Topology.cc:459-463 | the place in the ordered list behind all nodes that are no farther |
| `TopologyModel.Topology.ClearPaths` | inet/src/base/Topology.cc:415-422 | every distance is infinite but the target's, and no paths are recorded |
| `ShortestPaths.SearchEnd` | inet/src/base/Topology.cc:420-466 | once the queue is empty the search invariant means that the network is solved |
| `ShortestPaths.AllPopped` | inet/src/base/Topology.cc:420-466 | and that exactly the nodes with finite distance have been in it, each once |
| `ShortestPaths.LastIsFarthest` | inet/src/base/Topology.cc:420-466 | nodes leave the queue in order of distance, so none that has left can be improved |
| `ShortestPaths.SolutionIsUnique` | inet/src/base/Topology.cc:409-467 | the network determines the distances, whatever paths are chosen |
| `ShortestPaths.FewestHops` | inet/src/base/Topology.cc:365-407 | the unweighted distance of a node is the number of links of the recorded path, and no path has fewer |
| `ShortestPaths.HopsAgreeWithWeights` | inet/src/base/Topology.cc:365-467 | with unit link weights and free nodes both searches compute the same distances |
| `TopologyModel.Topology.GetNodeFor` | inet/src/base/Topology.cc:356-363 | the binary search in the unsigned order of ids finds a node if and only if one with that id is in the graph |
| `TopologyModel.Topology.LowerBound` | inet/src/base/Topology.h:337-339 | the first place whose id is not less in the unsigned order |
| `TopologyModel.Topology.AddNode` | inet/src/base/Topology.cc:240-255 | a node without a module id goes to the end, any other to the first place whose node has no lesser id; nothing else changes |
| `TopologyModel.Topology.PlaceFor` | inet/src/base/Topology.cc:242-254 | that place keeps the order of module ids, -1 last |
| `TopologyModel.Topology.AddLink` | inet/src/base/Topology.cc:283-300 | a new or a reconnected link ends up exactly once in the list of its new source and of its new destination, and in no other list |
| `TopologyModel.Topology.DeleteLink` | inet/src/base/Topology.cc:325-347 | the link leaves both lists and the graph |
| `TopologyModel.Topology.UnlinkFromSourceNode` | inet/src/base/Topology.cc:332-338 | the link is out of the list of its source and nothing else changes |
| `TopologyModel.Topology.UnlinkFromDestNode` | inet/src/base/Topology.cc:340-347 | likewise for its destination |
| `TopologyModel.Topology.DeleteNode` | inet/src/base/Topology.cc:257-281 | the node goes, and with it exactly the links that start or end there, self-loops and parallel links included; all other links stay in their places in the lists of the other nodes |
| `TopologyModel.Topology.DeleteLinksOf` | inet/src/base/Topology.cc:259-274 | the two loops take out exactly the node's links |
| `TopologyModel.Topology.DeleteOutgoing` | inet/src/base/Topology.cc:259-265 | the links that start at the node are gone and all others stay |
| `TopologyModel.Topology.DeleteIncoming` | inet/src/base/Topology.cc:267-273 | likewise for those that end there |
| `Adjacency.WithNodeWellLinked` | inet/src/base/Topology.cc:240-255 | an insertion at the lower bound keeps nodes sorted and listed once |
| `Adjacency.WithLinkWellLinked` | inet/src/base/Topology.cc:283-300 | a (re)connection keeps every link exactly once in both of its lists |
| `Adjacency.Unlinking` | inet/src/base/Topology.cc:332-347 | taking a link out of the lists of its two ends takes it out of all lists |
| `Adjacency.DetachAll` | inet/src/base/Topology.cc:259-274 | half of a node's deletion: once its links are out of the lists at their other ends, its own list can be cleared at once |
| `DhcpServerModel.LeaseByMac` | inet/src/applications/dhcp/DHCPServer.cc:427-442 | the first entry, in address order, with the hardware address; none if and only if there is none |
| `DhcpServerModel.DhcpServer.GetLeaseByMac` | inet/src/applications/dhcp/DHCPServer.cc:427-442 | the loop over the table finds that entry |
| `DhcpServerModel.DhcpServer.GetAvailableLease` | inet/src/applications/dhcp/DHCPServer.cc:444-485 | a requested address is handed out (and its entry overwritten if it is leased), else the first address of the pool that is unused or not leased |
| `DhcpAnswers.AvailableIsFirstFree` | inet/src/applications/dhcp/DHCPServer.cc:444-485 | without a requested address the first free address of the configured range is found, and none if and only if every address of the range is leased |
| `DhcpAnswers.PoolSearch` | inet/src/applications/dhcp/DHCPServer.cc:464-484 | the search of the range finds the first address without an entry or not leased |
| `DhcpAnswers.PoolIsInterval` | inet/src/applications/dhcp/DHCPServer.cc:446-466 | a range that does not go past the largest address is the interval from its start, in order |
| `DhcpServerModel.DhcpServer.ProcessDHCPMessage` | inet/src/applications/dhcp/DHCPServer.cc:169-320 | table and reply after a message are those of `React`, which follows sections 4.3.1 and 4.3.2 of RFC 2131 as the code does |
| `DhcpAnswers.UnknownIsOfferedLeast` | inet/src/applications/dhcp/DHCPServer.cc:189-221 | an unknown client is offered the least free address from the start of the range on, and gets no offer if and only if all addresses of the range are leased |
| `DhcpAnswers.UnknownIsOffered` | inet/src/applications/dhcp/DHCPServer.cc:189-221 | the same for every range, with the offer field by field and the entry that is made |
| `DhcpAnswers.KnownOrAsking` | inet/src/applications/dhcp/DHCPServer.cc:189-221 | a known client is offered its own address, and an unknown one that asks for an address is offered that |
| `DhcpAnswers.RequestIsAnswered` | inet/src/applications/dhcp/DHCPServer.cc:223-306 | when a REQUEST is refused, when it gets no answer, and the ACK otherwise, field by field, with what becomes of the table |
| `DhcpAnswers.OthersAreIgnored` | inet/src/applications/dhcp/DHCPServer.cc:184-320 | no other message is answered |
| `DhcpServerModel.DhcpServer.SendOffer` | inet/src/applications/dhcp/DHCPServer.cc:385-425 | the offer carries the lease's address, owner and transaction id and the configured times; the lease notes the time |
| `DhcpServerModel.DhcpServer.Acknowledge` | inet/src/applications/dhcp/DHCPServer.cc:342-383 | the same for an acknowledgement, which also marks the lease as leased |
| `DhcpSystem.FreshFromPool` | inet/src/applications/dhcp/DHCPServer.cc:464-484 | while all entries are leased, the pool search gives an address of the pool without an entry; it gives none only when the whole pool is in the table; which addresses these are, `PoolSearch` says |
| `DhcpExchange.OfferedUnlessExhausted` | inet/src/applications/dhcp/DHCPServer.cc:193-221 | a DISCOVER gets no offer if and only if the client is unknown and the pool is exhausted |
| `DhcpSystem.DiscoverReaction` | inet/src/applications/dhcp/DHCPServer.cc:189-221 | a DISCOVER is answered with the address the client has in the table, or with one nobody has |
| `DhcpSystem.RequestReaction` | inet/src/applications/dhcp/DHCPServer.cc:223-306 | a REQUEST for the client's own address is acknowledged in each of its three forms and never refused |
| `DhcpSystem.ServerKeepsInv` | inet/src/applications/dhcp/DHCPServer.cc:169-320 | every step of the server keeps the invariant of the whole system |
| `DhcpSystem.TimerOutcome` | inet/src/applications/dhcp/DHCPClient.cc:232-293 | a timer that fires at whatever time leaves the client with its own address and a request for it |
| `DhcpSystem.MessageOutcome` | inet/src/applications/dhcp/DHCPClient.cc:423-537 | a message of the network, however late or repeated, leaves a client with its own address |
| `DhcpSystem.ClientKeepsInv` | inet/src/applications/dhcp/DHCPClient.cc:206-293 | every step of a client, on a node that is up or down, keeps the invariant of the whole system |
| `DhcpRuns.AddressesAreUnique` | inet/src/applications/dhcp/DHCPClient.cc:97-103 | in every run, with messages lost, repeated and reordered, timers firing at any time and clients restarting, two clients that have an address have the same one if and only if neither node was up at initialization |
| `DhcpSharing.TwoShareAnAddress` | inet/src/applications/dhcp/DHCPClient.cc:97-103 | from every initial state in which two nodes are down, a run leads to both clients being bound to one address |
| `DhcpSharing.StartsAndBinds` | inet/src/applications/dhcp/DHCPClient.cc:232-293 | a client that is known to the server or finds the pool unexhausted can start and be bound, whatever happened before, while nobody else changes |
| `DhcpRuns.MacsStay` | inet/src/applications/dhcp/DHCPClient.cc:53-106 | the hardware address a client sends never changes after initialization |
| `DhcpRuns.OneAddressPerClient` | inet/src/applications/dhcp/DHCPServer.cc:189-306 | all offers and acknowledgements ever sent to a hardware address carry one address, the one that the clients who send it have if they have any, and it is never sent a NAK |
| `DhcpRuns.FailsExactlyWhen` | inet/src/applications/dhcp/DHCPClient.cc:206-293 | a client fails if and only if, while its node is up, another packet than a DHCP message comes in, an interface is deleted, a link is associated before DHCP has started for the first time or T2 fires outside RENEWING, which time rules out, or it is started on a configured interface; in particular it never works on a lease it does not have |
| `DhcpExchange.ExchangeBinds` | inet/src/applications/dhcp/DHCPClient.cc:402-475 | if the four messages of an exchange get through, the client is bound to the address it was offered, which the table has down as its |
| `DhcpExchange.DiscoverKeepsOwners` | inet/src/applications/dhcp/DHCPServer.cc:444-462 | a DISCOVER leaves every address with its owner if and only if the client is known, requests no address, or requests one without an entry |
| `DhcpClientModel.DhcpClient.HandleTimer` | inet/src/applications/dhcp/DHCPClient.cc:232-293 | state, timers and message after a timer are those of `OnTimer`, errors included |
| `DhcpClientModel.DhcpClient.HandleDHCPMessage` | inet/src/applications/dhcp/DHCPClient.cc:423-537 | likewise for a message and `OnMessage` |
| `DhcpClientModel.DhcpClient.constructor` | inet/src/applications/dhcp/DHCPClient.cc:53-106 | the hardware address is read and a start scheduled if and only if the node is up |
| `DhcpClientModel.DhcpClient.HandleMessage` | inet/src/applications/dhcp/DHCPClient.cc:206-230 | while the node is down everything is dropped; else timers and DHCP messages are handled, and any other packet is an error |
| `DhcpClientModel.DhcpClient.ReceiveChangeNotification` | inet/src/applications/dhcp/DHCPClient.cc:539-564 | the association of the own interface restarts the client, and the deletion of an interface is an error, while the node is up |
| `DhcpClientModel.DhcpClient.SendRequest` | inet/src/applications/dhcp/DHCPClient.cc:566-625 | which of server id, requested address and client address a request carries in which state (RFC 2131, section 4.3.6, table 4) |
| `DhcpReactions.RenewalSends` | inet/src/applications/dhcp/DHCPClient.cc:260-283 | after T1 and T2 a client names its address as its own and neither a requested address nor a server |
| `DhcpReactions.StartSends` | inet/src/applications/dhcp/DHCPClient.cc:236-249 | a client that starts with a lease names its address as the requested one; without a lease it sends a DISCOVER |
| `DhcpReactions.OfferIsTaken` | inet/src/applications/dhcp/DHCPClient.cc:443-456 | a client that accepts an offer names the offered address as the requested one, and the server of the offer |
| `DhcpReactions.TimeoutSearches` | inet/src/applications/dhcp/DHCPClient.cc:250-259 | a timeout starts the search anew; the lease's end does so without the address |
| `DhcpReactions.AckBinds` | inet/src/applications/dhcp/DHCPClient.cc:680-709 | an awaited ACK binds the client to the address of its lease, with three timers from the ACK |
| `DhcpReactions.NakSearches` | inet/src/applications/dhcp/DHCPClient.cc:481-533 | an awaited NAK starts the search anew, in RENEWING and REBINDING without the address |
| `DhcpReactions.OthersAreDropped` | inet/src/applications/dhcp/DHCPClient.cc:423-537 | no other message changes anything |
| `DhcpReactions.StartIsScheduled` | inet/src/applications/dhcp/DHCPClient.cc:727-757 | a node that comes up starts its client at the later of now and the configured time, unless the interface has an address |
| `DhcpReactions.DownIsSilent` | inet/src/applications/dhcp/DHCPClient.cc:734-776 | a node that goes down leaves no timer, and timers, messages and notices change nothing until it is up again |
| `DhcpReactions.ChangesAreNoticed` | inet/src/applications/dhcp/DHCPClient.cc:539-564 | the own interface's association starts the search anew, another's does nothing, and a removal is an error |
| `DhcpClientModel.DhcpClient.HandleDHCPACK` | inet/src/applications/dhcp/DHCPClient.cc:680-687 | an ACK sets the three timers from its times and configures the address of the lease, not the one in the ACK |
| `DhcpClientModel.DhcpClient.InitClient` | inet/src/applications/dhcp/DHCPClient.cc:402-414 | restarting cancels every timer but the start, and waits for an offer |
| `DhcpClientModel.DhcpClient.InitRebootedClient` | inet/src/applications/dhcp/DHCPClient.cc:416-421 | a client with a lease asks for its address again and waits for an ACK |
| `DhcpClientModel.DhcpClient.ScheduleTimerTO` | inet/src/applications/dhcp/DHCPClient.cc:689-695 | the response timeout is 60 seconds from now and of the kind asked for |
| `DhcpClientModel.DhcpClient.UnboundLease` | inet/src/applications/dhcp/DHCPClient.cc:388-400 | the address goes, with all timers but the start; the lease is kept |
| `DhcpClientModel.DhcpClient.StopApp` | inet/src/applications/dhcp/DHCPClient.cc:734-745 | no timer is pending; lease, state and address are kept |
| `DhcpClientModel.DhcpClient.StartApp` | inet/src/applications/dhcp/DHCPClient.cc:727-732 | a start is scheduled no earlier than now, and refused on an interface that has an address |
| `DhcpTimers.DisciplineIsKept` | inet/src/applications/dhcp/DHCPClient.cc:232-293 | the pending timers are determined by the state: a response timeout alone in SELECTING, REQUESTING, REBOOTING and REBINDING, T1 before T2 before the lease's end in BOUND, the response timeout and T2 before the lease's end in RENEWING |
| `DhcpTimers.OverlapEnds` | inet/src/applications/dhcp/DHCPClient.cc:236-260 | a client that is started again in the moment in which an ACK comes in asks for its address with the timers of its lease pending; T1 then comes first, and leads back into the discipline |
| `DhcpTimers.StepIsOrderly` | inet/src/applications/dhcp/DHCPClient.cc:206-293 | every happening of a life, other packets, starts, stops and crashes included, keeps what holds between happenings or is one of those that fail |
| `DhcpTimers.T2IsNeverWrong` | inet/src/applications/dhcp/DHCPClient.cc:206-293 | in the whole life of a client, with packets, links, stops, crashes and restarts in whatever order, T2 finds the client in RENEWING and the lease timer never fires; it fails if and only if, while its node is up, another packet than a DHCP message comes in, an interface is deleted or a link is associated before DHCP has started for the first time, or it is started on a configured interface |
| `DhcpTimers.SomeTimerIsPending` | inet/src/applications/dhcp/DHCPClient.cc:232-293 | a client that is up always has a timer pending, and without a pending start its timers are those of its state or of an overlapping restart |
| `DhcpTimers.LosesAddressExactlyWhen` | inet/src/applications/dhcp/DHCPClient.cc:388-400 | in its whole life a client loses its address if and only if a NAK refuses to renew or rebind the lease, or its interface is cleared while the node is down |
| `DhcpTimers.UnansweredSteps` | inet/src/applications/dhcp/DHCPClient.cc:232-293 | a client that nobody answers goes from timer to timer, each step being one of a life |
| `DhcpTimers.UnansweredKeepsAddress` | inet/src/applications/dhcp/DHCPClient.cc:250-275 | such a client keeps its address through any number of timers |
| `DhcpTimers.LifeIsConfigured` | inet/src/applications/dhcp/DHCPClient.cc:680-687 | throughout a life the address of the lease is configured while T1 or T2 is pending, and in BOUND, RENEWING and REBINDING while no start is pending |
| `DhcpTimers.LifeUnanswered` | inet/src/applications/dhcp/DHCPClient.cc:232-293 | any number of the next timers can fire in a row as part of a life |
| `DhcpTimers.AddressOutlivesLease` | inet/src/applications/dhcp/DHCPClient.cc:271-274 | every life in which the client is bound goes on, if nobody answers, with its timers alone past any given time, the end of its lease included, and the client has the address of its lease then |
| `DhcpTimers.StartIsClean` | inet/src/applications/dhcp/DHCPClient.cc:236-249 | starting DHCP leads into that discipline if and only if there is no lease or none of its timers is pending |
| `DhcpTimers.RestartIsClean` | inet/src/applications/dhcp/DHCPClient.cc:727-745 | a node that goes down and comes up again starts clean if nothing comes before the start |
| `DhcpTimers.ServerIsTimely` | inet/src/applications/dhcp/DHCPServer.cc:365-368 | the server's ACKs have 0 < T1 < T2 < lease time if and only if its lease time is positive |
| `StateTree.TransitionChains` | inet/src/util/Macho.cc:139-175 | a transition from s to t leaves the chain from s up to the join, innermost first, and enters the chain from there down to t |
| `StateTree.JoinIsJoin` | inet/src/util/Macho.cc:139-175 | the join is the lowest state that is properly above t and is s or above it |
| `StateTree.JoinCases` | inet/src/util/Macho.cc:146-166 | it is the least common superstate, or the parent of t when t is s or above s |
| `StateTree.HistoryIsRemembered` | inet/src/util/Macho.h:275-296 | after s is left every superstate with deep history remembers s, every one with shallow history its substate on the way to s, and nothing else changes, however many states without history lie between |
| `StateTree.SavedAt` | inet/src/util/Macho.h:734-746 | the same for the part of the bubbling above a given state |
| `StateTree.MemoryStaysOk` | inet/src/util/Macho.h:734-746 | what a state remembers is always properly below it |
| `Statechart.TransitionKeepsInv` | inet/src/util/Macho.cc:360-395 | after a transition the states entered and not left are exactly the target and what is above it, they were entered outside-in and left inside-out, boxes that do not persist exist for exactly those, and each of them has its box |
| `Statechart.SettleWithin` | inet/src/util/Macho.cc:356-411 | run-to-completion ends below its first target; every further target, from init actions and from history, is a proper substate |
| `Statechart.SettleKeepsInv` | inet/src/util/Macho.cc:356-411 | the invariant holds whenever run-to-completion ends |
| `Statechart.LifeKeepsInv` | inet/src/util/Macho.cc:352-422 | and in every life of a machine, whatever its handlers and init actions ask for |
| `Statechart.ShutdownLeavesNothing` | inet/src/util/Macho.cc:278-288 | shutting down leaves no state active and only persistent boxes |
| `Statechart.BoxesToDelete` | inet/src/util/Macho.cc:157-175 | a box that exit deletes is always there |
| `Statechart.SettlingKeepsHistory` | inet/src/util/Macho.cc:356-411 | a run-to-completion that goes neither into, above nor below a state leaves what the leaving made it remember |
| `Statechart.AwayKeepsHistory` | inet/src/util/Macho.cc:352-422 | while the machine is neither in, above nor below a state, through whatever events, what it remembers stands |
| `Statechart.HistoryReturns` | inet/src/util/Macho.cc:177-191 | after a stay elsewhere, through whatever events, a transition to a state's history leads back to the state that was left, or with shallow history to its substate on the way there |
| `RunToCompletion.SettleCompletes` | inet/src/util/Macho.cc:356-411 | run-to-completion begins with the transition asked for and the initialization of its target or of what it remembers; every request of an init action is carried out by entering the states from the one initialized down to its target; it stops in a state that was just initialized, asked for nothing and remembers nothing |
| `RunToCompletion.LifeCompletes` | inet/src/util/Macho.cc:352-422 | the same holds throughout a life, whatever its events |
| `RunToCompletion.EventsAreHandled` | inet/src/util/Macho.cc:352-422 | each event's request is run to completion before the next event is handled |
| `RunToCompletion.SettleParts` | inet/src/util/Macho.cc:177-191 | one turn of the inner loop, with what becomes of the history of the state that is initialized |
| `RunToCompletion.HistoryIsEntered` | inet/src/util/Macho.cc:177-191 | after a stay elsewhere, through whatever events, a transition to a state's history enters that state, goes down to the state that was left, or with shallow history to the one on the way there, and initializes it |
| `MachineModel.Machine.Entry` | inet/src/util/Macho.cc:139-155 | the recursion calls entry actions and creates boxes along the entry chain |
| `MachineModel.Machine.Exit` | inet/src/util/Macho.cc:157-175 | likewise for exit |
| `MachineModel.Machine.CreateBox` | inet/src/util/Macho.h:924-928 | a state without a box of its own gets one, if it is of a kind that has one |
| `MachineModel.Machine.DeleteBox` | inet/src/util/Macho.cc:170-171 | the box goes unless it is persistent; it is there to be deleted |
| `MachineModel.Machine.SetHistorySuper` | inet/src/util/Macho.h:741-746 | the superstate chooses what to remember |
| `MachineModel.Machine.SaveHistory` | inet/src/util/Macho.h:275-296 | setting a state's history and bubbling up while a superstate has a strategy |
| `MachineModel.Machine.Init` | inet/src/util/Macho.cc:177-191 | the pending state comes from history if that is asked for and there is any, else from the init action; the history is cleared either way |
| `MachineModel.Machine.Perform` | inet/src/util/Macho.cc:357-411 | one turn of the inner loop is one transition with its init, and keeps the invariant |
| `MachineModel.Machine.RattleOn` | inet/src/util/Macho.cc:352-422 | both loops end and compute `Rattle`, for which `LifeCompletes` says that nothing more is asked for |
| `MachineModel.Machine.SetState` | inet/src/util/Macho.cc:246-250 | a transition from outside settles before the call returns |
| `MachineModel.Machine.ClearHistoryDeep` | inet/src/util/Macho.cc:310-318 | a state and everything below it forget, and nothing else does |
| `MachineModel.Machine.Shutdown` | inet/src/util/Macho.cc:278-288 | no state is active afterwards and only persistent boxes are left |
| `GlobPattern.MeaningIsDenotation` | inet/src/util/PatternMatcher.cc:223-314 | taking elements off a pattern from the left means the same as splitting the line into one piece per element |
| `GlobPattern.FinalAnySeq` | inet/src/util/PatternMatcher.cc:277-282 | the shortcut for a final `**` is exact |
| `GlobPattern.FinalAnySeqLiteral` | inet/src/util/PatternMatcher.cc:283-284 | so is the shortcut for a final literal after `**`, which is compared exactly in every mode |
| `GlobPattern.NumRangeMeaning` | inet/src/util/PatternMatcher.cc:269-276 | a numeric range takes the maximal run of digits |
| `GlobPattern.DenotesExactly` | inet/src/util/PatternMatcher.cc:223-314 | the matcher decides what a pattern is meant to say, with letter case or without, except that a pattern that ends in `**` and a literal asks for exactly that literal at the end of the line |
| `GlobPattern.CaseSensitiveIsNatural` | inet/src/util/PatternMatcher.cc:223-314 | with letter case that is no exception |
| `GlobPattern.SuffixIsComparedExactly` | inet/src/util/PatternMatcher.cc:283-284 | without it is one: a pattern and a line that it is meant to match and does not |
| `PatternMatcherModel.PatternMatcher.DoMatch` | inet/src/util/PatternMatcher.cc:223-314 | from any element on, true if and only if the rest of the pattern means the line; a call that starts at a final literal after `**` may ignore letter case |
| `PatternMatcherModel.PatternMatcher.MatchPiece` | inet/src/util/PatternMatcher.cc:232-276 | an element that consumes one piece fits, and leaves the text that the rest must match |
| `PatternMatcherModel.PatternMatcher.MatchChar` | inet/src/util/PatternMatcher.cc:245-268 | whether a character fits an element that stands for one |
| `PatternMatcherModel.PatternMatcher.Matches` | inet/src/util/PatternMatcher.cc:316-342 | true if and only if the line splits into pieces that fit the elements, and ends exactly in the literal of a final `**literal`; the check of the last two characters rejects nothing that matches |
| `PatternMatcherModel.PatternMatcher.SetPattern` | inet/src/util/PatternMatcher.cc:50-96 | ends for every text, with the tokens or with what is wrong; what the tokens say of a line, `PatternSays` tells from the text |
| `PatternMatcherModel.PatternMatcher.NextToken` | inet/src/util/PatternMatcher.cc:58-79 | the next element is the one that the text at the cursor and the element before it determine; which part of the text it stands for, `PatternSays` tells |
| `PatternMatcherModel.PatternMatcher.IsInSet` | inet/src/util/PatternMatcher.cc:209-221 | whether a character lies in one of the set's ranges |
| `PatternMatcherModel.PatternMatcher.ParseNumRange` | inet/src/util/PatternMatcher.cc:156-183 | recognizes exactly the ranges, with missing bounds as -1 |
| `PatternMatcherModel.PatternMatcher.ParseSet` | inet/src/util/PatternMatcher.cc:98-137 | the pairs of a set, or that its brace is not closed |
| `PatternMatcherModel.PatternMatcher.ParseLiteralString` | inet/src/util/PatternMatcher.cc:139-154 | the text up to a wildcard or a range in brackets, escapes resolved |
| `Tokenizer.TokenProgress` | inet/src/util/PatternMatcher.cc:57-80 | every step moves on in the text or, at an opening bracket, in the elements |
| `Tokenizer.TokenizedIsWellFormed` | inet/src/util/PatternMatcher.cc:50-96 | a parsed pattern has its only END at the end, nonempty literals and sets made of pairs |
| `Tokenizer.SetIsUnclosed` | inet/src/util/PatternMatcher.cc:108-136 | a set is not closed if and only if no closing brace follows but as its first member |
| `Tokenizer.BraceFailsExactly` | inet/src/util/PatternMatcher.cc:68-71 | a step fails for a missing brace exactly at a brace that is never closed |
| `Tokenizer.FailureCause` | inet/src/util/PatternMatcher.cc:134-151 | parsing comes to such a brace if and only if it fails for one, and else fails if and only if the text ends in a backslash that is not escaped |
| `Tokenizer.PatternFailsExactly` | inet/src/util/PatternMatcher.cc:50-96 | a whole pattern is parsed if and only if neither is the case |
| `Tokenizer.EscapedBracket` | inet/src/util/PatternMatcher.cc:144-153 | an escaped `[` ends its literal if and only if a numeric range stands there |
| `Tokenizer.EscapedRangeIsRange` | inet/src/util/PatternMatcher.cc:63-67 | and then the next element is that range |
| `Tokenizer.EscapedRangeInstance` | inet/src/util/PatternMatcher.cc:139-154 | such a pattern and its elements |
| `Tokenizer.PlainPatternMatchesItself` | inet/src/util/PatternMatcher.cc:370-376 | a pattern without wildcards matches its own text and nothing else |
| `PatternMeaning.PatternSays` | inet/src/util/PatternMatcher.cc:50-183 | a pattern text is accepted whose parts are texts with escapes, "?", "*", "**", characters in braces, and numeric ranges, and a line matches it if and only if it can be cut into one piece for each part: a text stands for itself, "?" for one character and "*" for any number of them, on dotted paths without dots, "**" for anything, braces for one of the characters or ranges in them or, with "^", any other, a range for a number in it |
| `PatternMeaning.PatternMatches` | inet/src/util/PatternMatcher.cc:50-183 | with letter case that is what the matcher compares |
| `PatternCoverage.AcceptedIsWritten` | inet/src/util/PatternMatcher.cc:50-183 | no other text is accepted |
| `PatternCoverage.PartsOf` | inet/src/util/PatternMatcher.cc:50-183 | every accepted text has such parts, and says of every line what they say |
| `PatternMeaning.StarBetween` | inet/src/util/PatternMatcher.cc:73-76 | a "*" between two plain texts matches exactly the lines with anything between them, or on dotted paths anything without a dot |
| `PatternMeaning.EscapedMatchesItself` | inet/src/util/PatternMatcher.cc:139-154 | a text with every character escaped matches itself and nothing else |
| `PatternText.RangeIsFound` | inet/src/util/PatternMatcher.cc:156-183 | a numeric range that stands there is found, with its bounds |
| `PatternText.RangeStands` | inet/src/util/PatternMatcher.cc:156-183 | and nothing else is |
| `PatternText.SetIsTaken` | inet/src/util/PatternMatcher.cc:98-137 | the characters up to the closing brace are taken; a closing brace that comes first is one of them |
| `SubstringMatch.SubstringMeans` | inet/src/util/PatternMatcher.cc:82-92 | a pattern that need not match the whole line matches it if and only if some part of the line fits it where it stands; without numeric ranges that is a part that matches by itself |
| `SubstringMatch.NumberIsNotCut` | inet/src/util/PatternMatcher.cc:82-92 | a pattern and a line that show the difference |
| `PatternMeaning.PatternSaysOfPart` | inet/src/util/PatternMatcher.cc:50-183 | what a pattern text says then |
| `Int128Model.Int128.Div` | inet/src/util/int128.cc:246-298 | truncated division with a remainder of the dividend's sign, also when the remainder is the dividend itself or the divisor; the partial remainder never reaches the sign bit; the divisor 0 is a trap |
| `Int128Model.Int128.AbsoluteValue` | inet/src/util/int128.cc:253-254 | the magnitude, which INT128_MIN does not have |
| `Int128Model.Int128.LeadingBits` | inet/src/util/int128.cc:267-274 | the first loop ends with the leading bits of the dividend that reach the divisor, less than twice the divisor, and the number of bits that are left |
| `Int128Model.Int128.Restore` | inet/src/util/int128.cc:276-290 | the second loop ends with quotient and remainder |
| `Int128Model.Int128.ModAssign` | inet/src/util/int128.h:138-142 | the remainder, though div writes it into its own dividend; INT128_MIN stays as it is |
| `Int128Model.Int128.DivAssign` | inet/src/util/int128.h:132-137 | the quotient, or 0 for the dividend INT128_MIN |
| `Int128Model.MinDivisorNeverEnds` | inet/src/util/int128.cc:253-290 | with the divisor INT128_MIN every turn of the second loop subtracts, and it never ends |
| `Int128Model.MinDividendIsNotDivided` | inet/src/util/int128.cc:256-261 | what div returns for the dividend INT128_MIN is right for no other divisor |
| `Int128Model.QuotientBit` | inet/src/util/int128.cc:276-290 | the quotient bit that restoring division sets is the next one of the quotient |
| `Int128Model.Int128.MulAssign` | inet/src/util/int128.cc:221-244 | multiplication modulo 2^128 in two's complement, negative multipliers included |
| `Int128Model.Int128.AddAssign` | inet/src/util/int128.cc:209-219 | addition modulo 2^128 |
| `Int128Model.Int128.SubAssign` | inet/src/util/int128.h:128-131 | subtraction modulo 2^128 |
| `Int128Model.Int128.Negate` | inet/src/util/int128.cc:167-173 | negation modulo 2^128 |
| `Int128Model.Int128.ShlAssign` | inet/src/util/int128.cc:363-394 | multiplication by 2^n modulo 2^128 for every n |
| `Int128Model.Int128.ShrAssign` | inet/src/util/int128.cc:329-361 | floor division by 2^n for every n |
| `Int128Model.Int128.SetBit` | inet/src/util/int128.cc:311-327 | sets or clears one bit and keeps the others |
| `Int128Model.Int128.Bit` | inet/src/util/int128.cc:300-309 | bit n of the two's complement |
| `TwosComplement.LessIsOrderExactly` | inet/src/util/int128.cc:396-407 | operator< is the integer order if and only if it does not compare two negative numbers with equal high words whose low words differ in the top bit |
| `TwosComplement.AddWords` | inet/src/util/int128.cc:209-219 | the carry makes the two words add up modulo 2^128 |
| `TwosComplement.ShlWords` | inet/src/util/int128.cc:363-394 | a left shift across the two words |
| `TwosComplement.ShrWords` | inet/src/util/int128.cc:329-361 | a right shift across the two words rounds down |
| `Int128Model.Int128.ToString` | inet/src/util/int128.cc:37-61 | prints what `Print` says, within the buffer of 256 characters |
| `Int128Model.Int128.Set` | inet/src/util/int128.cc:63-112 | reads what `Parse` says |
| `Int128Model.Int128.ReadNumber` | inet/src/util/int128.cc:92-106 | the loop over the digits, up to the first character that is none |
| `Numerals.DecimalRoundTrip` | inet/src/util/int128.cc:37-112 | reading what was printed in base 10 gives the number back, if and only if it is not INT128_MIN |
| `Numerals.HexRoundTrip` | inet/src/util/int128.cc:37-112 | so does base 16 after "0x", for non-negative numbers |
| `Numerals.OctalRoundTrip` | inet/src/util/int128.cc:37-112 | and base 8 after "0" |
| `Numerals.NegativeHexRoundTrip` | inet/src/util/int128.cc:37-112 | and base 16 for negative numbers, with the prefix after the sign |
| `Numerals.ParseIgnoresCase` | inet/src/util/int128.cc:63-112 | upper and lower case digits read alike; only the "x" of the prefix must be lower case |
| `Numerals.DigitsInEitherCase` | inet/src/util/int128.cc:92-103 | what each character counts as in a radix, including the one letter too many |
| `Numerals.ReadingStops` | inet/src/util/int128.cc:92-112 | what follows a printed decimal number is not read |
| `Numerals.PrintsUpperCase` | inet/src/util/int128.cc:50-55 | the digits printed are those of the radix, letters in upper case |
| `Reassembly.ReassemblyBuffer.AddFragment` | inet/src/base/ReassemblyBuffer.cc:39-45 | the buffer holds the longest contiguous prefix of what was received, and the result is true if and only if a fragment marked last and every byte before its end are there; if nothing lies beyond such a fragment, that end is the prefix's |
| `Reassembly.ReassemblyBuffer.Merge` | inet/src/base/ReassemblyBuffer.cc:47-81 | a fragment joins the prefix, is parked, or is known already |
| `Reassembly.ReassemblyBuffer.MergeFragments` | inet/src/base/ReassemblyBuffer.cc:83-128 | the merge loop ends with no parked fragment touching the prefix |
| `Reassembly.ReassemblyBuffer.GetTotalLength` | inet/src/base/ReassemblyBuffer.h:81 | of a complete datagram, the length of the prefix, which is the end of the last fragment if nothing lies beyond it |
| `Reassembly.OrderIndependence` | inet/src/base/ReassemblyBuffer.cc:39-128 | two buffers that received the same fragments, in whatever order and however often, agree |
| `Reassembly.StableIsPrefix` | inet/src/base/ReassemblyBuffer.cc:39-81 | the state between two calls determines prefix and completeness |
| `ModuleTree.PreorderLists` | inet/src/base/LifecycleController.cc:114-136 | the traversal lists every module that takes part, at whatever depth and under whatever modules that do not, each at its place in the tree: a module before what is inside it, and what is inside a child before what is inside later ones |
| `ModuleTree.PreorderListsOnce` | inet/src/base/LifecycleController.cc:114-136 | it lists the ids of exactly the modules that take part, and each once if and only if no two share an id |
| `Lifecycle.StageByStage` | inet/src/base/LifecycleController.cc:94-156 | under every order of completions the participants are called stage by stage, in the order of the traversal, once a stage; the operation waits for a module or is over |
| `Lifecycle.StagesAreBarriers` | inet/src/base/LifecycleController.cc:94-156 | no module is called for a stage before every participant is done with all earlier ones |
| `Lifecycle.OverWhen` | inet/src/base/LifecycleController.cc:85-112 | initiateOperation ends the operation if and only if no module is ever pending; otherwise it takes exactly as many completions as modules were pending |
| `Lifecycle.CompletionsAddUp` | inet/src/base/LifecycleController.cc:138-156 | completions made and outstanding always add up to the same number |
| `Lifecycle.CallbackOnce` | inet/src/base/LifecycleController.cc:108-111 | the completion callback is invoked once when an operation that was pending is over, and never when it was over at once |
| `Lifecycle.EveryStageOnce` | inet/src/base/LifecycleController.cc:94-136 | when the operation is over each module of the tree that takes part, at whatever depth, has been called for stages 0, 1, 2, and so on, once each |
| `LifecycleControllerModel.Controller.InitiateOperation` | inet/src/base/LifecycleController.cc:85-92 | true if and only if no module of the tree that takes part is ever pending |
| `LifecycleControllerModel.Controller.DoOneStage` | inet/src/base/LifecycleController.cc:114-136 | calls the participants under a module in preorder and parks a callback of its own for each that is not done, reusing the spare one only if nobody has it |
| `LifecycleControllerModel.Controller.CallModule` | inet/src/base/LifecycleController.cc:116-129 | one module is called with a callback that nobody else has |
| `LifecycleControllerModel.Controller.ResumeOperation` | inet/src/base/LifecycleController.cc:94-112 | goes on through the stages until somebody is pending or all are over |
| `LifecycleControllerModel.Controller.ModuleOperationStageCompleted` | inet/src/base/LifecycleController.cc:138-156 | takes the completed module off the list and resumes the operation when it was the last |
| `NodeStatusModel.OperationChangesStatus` | inet/src/status/NodeStatus.cc:54-101 | a start that is over has taken every node status in the tree from DOWN to UP, and a shutdown or crash from UP to DOWN, with the final assertion holding, or the operation was refused for a wrong status at the beginning |
| `NodeStatusModel.StagesInOrder` | inet/src/status/NodeStatus.cc:54-101 | between its first and last stage a node is GOING_UP in a start and GOING_DOWN in a shutdown or crash, and afterwards UP or DOWN |
| `NodeStatusModel.NodeStatus.HandleOperationStage` | inet/src/status/NodeStatus.cc:54-101 | the status after a stage, or that it is an error |
| `ByteFifo.ByteArrayBuffer.GetBytesToBuffer` | inet/src/base/ByteArrayBuffer.cc:51-71 | copies exactly the bytes from the offset on, as far as there are any, across empty and partly skipped slices, and nothing beyond them |
| `ByteFifo.ByteArrayBuffer.PopBytesToBuffer` | inet/src/base/ByteArrayBuffer.cc:73-76 | takes the front of the queue and leaves the rest; what was taken joins the history of the queue |
| `ByteFifo.ByteArrayBuffer.Drop` | inet/src/base/ByteArrayBuffer.cc:78-103 | removes exactly that many bytes from the front; they join the history of the queue |
| `ByteFifo.ByteArrayBuffer.Push` | inet/src/base/ByteArrayBuffer.cc:43-49 | appends to the queue and to its history |
| `ByteFifo.ByteArrayBuffer.Clear` | inet/src/base/ByteArrayBuffer.cc:105-113 | empties the queue and begins its history anew |
| `ByteFifo.ByteArrayBuffer.GetLength` | inet/src/base/ByteArrayBuffer.h:53 | the length kept is the length of the queue |
| `ByteFifo.NothingIsLost` | inet/src/base/ByteArrayBuffer.cc:43-103 | over every sequence of pushes, pops and drops, what was taken and what is left make up what was pushed |
| `ByteFifo.ByteArrayBuffer.Conserved` | inet/src/base/ByteArrayBuffer.cc:43-103 | whatever has been done to a queue, the bytes taken from it and those in it are the bytes pushed, in order |
| `ByteFifo.CopyChunk` | inet/src/base/ByteArray.cc:52-61 | copies as much as there is from the offset on, and nothing beyond it; the queue and the byte arrays share it |
| `ByteFifo.ClipsExactly` | inet/src/base/ByteArray.cc:57-58 | the length copied is right if and only if the 32-bit sum of offset and length does not wrap around |
| `ByteFifo.ByteArray.CopyDataToBuffer` | inet/src/base/ByteArray.cc:52-61 | the same for a byte array |
| `ByteFifo.ByteArray.TruncateData` | inet/src/base/ByteArray.cc:70-87 | cuts off both ends |
| `ByteFifo.ByteArray.AddDataFromBuffer` | inet/src/base/ByteArray.cc:37-50 | appends |
| `ByteFifo.ByteArray.SetDataFromBuffer` | inet/src/base/ByteArray.cc:19-29 | replaces |
| `SaturatedStreams.OneTurnEach` | inet/src/applications/netperfmeter/NetPerfMeter.cc:978-995 | a round visits every stream once |
| `SaturatedStreams.EqualShares` | inet/src/applications/netperfmeter/NetPerfMeter.cc:975-996 | without decoupling all saturated streams with a positive frame size send equally many frames, and the others none |
| `SaturatedStreams.WithinContingent` | inet/src/applications/netperfmeter/NetPerfMeter.cc:982-990 | a decoupled stream that sends ends below its contingent plus one frame |
| `SaturatedStreams.LessThanARoundTooMuch` | inet/src/applications/netperfmeter/NetPerfMeter.cc:975-996 | what is sent exceeds what is available by less than one round of the saturated streams |
| `SaturatedStreams.StopsForAReason` | inet/src/applications/netperfmeter/NetPerfMeter.cc:975-996 | sending stops only when enough is queued or no stream may send |
| `SaturatedStreams.WhoSends` | inet/src/applications/netperfmeter/NetPerfMeter.cc:975-996 | a stream sends in a call exactly when it is saturated, its frames have bytes and, if decoupled, its queue is below the contingent at first |
| `SaturatedStreams.CountedIsCarried` | inet/src/applications/netperfmeter/NetPerfMeter.cc:985-991 | the bytes counted are the bytes the messages carry |
| `SaturatedStreams.MessagesCarryTheFrame` | inet/src/applications/netperfmeter/NetPerfMeter.cc:831-890 | the messages of a frame add up to it, only the last is short of the limit, and none is empty unless the frame is |
| `SaturatedStreams.FrameIsCarried` | inet/src/applications/netperfmeter/NetPerfMeter.cc:804-894 | the messages of a stream's frame carry its bytes; over TCP one does |
| `SaturatedStreams.NetPerfMeter.TransmitFrame` | inet/src/applications/netperfmeter/NetPerfMeter.cc:804-894 | sends those messages |
| `SaturatedStreams.NetPerfMeter.PerformRound` | inet/src/applications/netperfmeter/NetPerfMeter.cc:976-995 | the inner loop comes back to where it began after one turn of every stream |
| `SaturatedStreams.NetPerfMeter.Occupation` | inet/src/applications/netperfmeter/NetPerfMeter.cc:945-963 | what counts as queued, and the contingent of a stream |
| `SaturatedStreams.ContingentsFit` | inet/src/applications/netperfmeter/NetPerfMeter.cc:945-961 | the contingents of all streams stay within what may be queued, with less than a byte a stream to spare |
| `SaturatedStreams.WithinShare` | inet/src/applications/netperfmeter/NetPerfMeter.cc:945-996 | before the last frame of a decoupled stream, what is queued for it is less than its share of the limit |
| `SaturatedStreams.NetPerfMeter.SendDataOfSaturatedStreams` | inet/src/applications/netperfmeter/NetPerfMeter.cc:939-997 | both loops end, and the frames sent are those of whole rounds that begin with the next stream |

## Left out

- Kernel calls (sending, scheduling, gates, signals, display strings, XML parameters): messages are results, timers are
  optional deadlines, and the numbers drawn and the current time are parameters.
- Topology: extraction from a running network and the select predicates; addLink from gates; weights that are NaN.
- DHCP: routing tables, netmasks and interfaces beyond the address; message options other than addresses, server id and
  times; DHCPDECLINE, which the client never sends; the memory of a server that stops; interfaces that have an address
  before DHCP is initialized, and the choice of an interface; message types beyond the eight of RFC 2131, which some
  states refuse; lifecycle operations other than start, shutdown and crash.
- DhcpRuns.AddressesAreUnique: assumes transaction ids drawn fresh and not 0 (the client tells replies apart by them alone), interfaces with distinct hardware addresses other than 0, one server with an address, and a pool without the address 0; DHCP messages come from the server and these clients only.
- DhcpTimers.T2IsNeverWrong: assumes ACKs that confirm an address with 0 < T1 < T2 < lease time and offers of an address, as this server sends them, and that packets reach a client only through an open socket.
- The expiry rule of RFC 2131, section 4.4.5, which the client does not follow.
- Macho: templates, parameters of init actions, aliases, deprecated box setters, and snapshots. Histories and boxes are
  kept by state in the machine instead of in an object per state. Entry and exit actions are only recorded, since they
  may not transition; an init action is an arbitrary function of what has been called before.
- MachineModel.Machine.RattleOn: the events that handlers post are a finite list, so that an endless chain of events is not modelled.
- PatternMatcher: patternPrefixMatches and the suffix length it passes on; characters above 127; numbers in patterns and
  lines that do not fit a long.
- Int128: conversions from and to floating point, increments, assignment from negative built-in integers. Overflow of
  the signed high word is taken to wrap around.
- Int128Model.Int128.Div: excludes the divisor INT128_MIN, for which the source does not end.
- Int128Model.Int128.DivAssign: likewise.
- Int128Model.Int128.ModAssign: likewise.
- Reassembly: fragments that overlap without being equal, which the code excludes; empty fragments marked last that
  lie before others; the absence of the vector of parked regions before it is first needed.
- Lifecycle: commands from scenario scripts, nested operations, and callbacks that are invoked twice or while the stage
  is still being traversed. Module ids are distinct.
- ByteFifo.ByteArrayBuffer.GetBytesToBuffer: asks that the offset within the first slice it copies from and the length add up within 32 bits; else the source reads past the slice. The list of slices holds byte strings, as the source's list holds its byte arrays by value.
- ByteFifo.CopyChunk: the same for one slice.
- ByteFifo.ByteArray.CopyDataToBuffer: the same for one byte array.
- SaturatedStreams.NetPerfMeter.SendDataOfSaturatedStreams: rates and sizes of a stream are fixed during a call, and frame sizes fit 32 bits.
- Statistics, traffic generators, applications, packet dumping, queues with counters, and code on floating-point
  numbers.
