# A verified model of the mesh's coordinator and node logic

The repository is a self-healing UDP mesh. A coordinator (`cmd/server`) builds
an overlay graph over the online nodes and hands it out; each node
(`cmd/mesh-node`) computes routes over that graph, relays frames for others,
translates LAN prefixes at gateways, and opens paths through symmetric NATs
with the coordinator's help. This project models the parts of both programs
that decide something, and proves what they promise:

- **Overlay graph.** The ring backbone with chords, the attachment of clients,
  the union-find repair of connectivity, the decoration of costs, and the whole
  `links` pipeline (`Backbone`, `ClientLinks`, `Components`, `Bridges`,
  `Repair`, `Repaired`, `LinkCosts`, `LinkBuild`, over `Graph`).
- **Routing.** Lazy-deletion Dijkstra with a restricted first hop, primary and
  fallback tables, and forwarding along the tables of successive nodes
  (`Walks`, `Routes`, `RouteTables`, `Forwarding`).
- **Site-to-site translation.** The first-fit allocator of virtual prefixes,
  the stored routes as a state machine, translation as the coordinator and as
  the gateway do it, and the incremental checksum update (`Prefixes`,
  `VirtualPool`, `SiteRoutes`, `RouteStore`, `Translation`, `Checksum`,
  `PacketTranslation`).
- **Data plane.** The binary frame, relaying with a hop limit, duplicate
  suppression, reassembly, the compact codec, and which addresses a node may
  take for a direct path (`FastFrame`, `Dedup`, `Reassembly`, `Hex`, `Compact`,
  `DirectPath`).
- **Symmetric-NAT rendezvous.** The scan table of a node, the coordinator's
  bindings and pending requests, and the three-party protocol over both; the
  order in which a scan tries ports (`ScanSessions`, `ScanTable`,
  `ControlPlane`, `Rendezvous`, `PortScan`).

Code that updates state in place is a class or a method over an array, proved
against a function or a step of a state machine; the main results are lemmas
over that function or over every run of the machine. A section under one mutex
is one atomic step, time is a parameter, costs are reals, and HMAC, AEAD and
the JSON codec are functions of which only `open(seal(x)) = x` and
`decode(encode(x)) = x` are known. Locals of a loop that many helper methods
share are passed and returned as values.

Where the code and its comments disagree, the model follows the code. The
comments at `cmd/server/topology.go:291-293` and `312-314` promise that
blocking a link keeps the remaining nodes reachable. `ensureConnected` only
tries neighbouring components in the order of their root IDs, so one blocked
pair can strand a node that unblocked links would reach
(`Repaired.StrandedByOneBlock`), and the whole build publishes such a graph
(`LinkBuild.BuildStranded`). `LinkBuild.Links` states exactly when the result
is connected, from the graph before the repair.

Two more properties one might expect fail, and are settled the same way. A
resave can move a kept LAN's virtual prefix to a new LAN listed before it
(`SiteRoutes.NewLanTakesPrefix`), exactly when `SiteRoutes.KeptIff` says so
from the table before the save. A translated UDP checksum can turn into zero,
since no 0xffff is substituted for it (`PacketTranslation.ChecksumLost`),
exactly under the congruence of `PacketTranslation.UdpZeroIff`.

## Model

| member | source | states |
|---|---|---|
| `Routes.BuildAdjacency` | cmd/mesh-node/symmetric.go:64-68 | the adjacency lists hold exactly the neighbours and costs of the links, in both directions |
| `Routes.PopMin` | cmd/mesh-node/symmetric.go:106 | the heap hands out some entry of least cost |
| `Routes.RelaxKeeps` | cmd/mesh-node/symmetric.go:119-124 | an improving relaxation never touches a settled node and keeps tree, queue and order of the search |
| `Routes.PopStale` | cmd/mesh-node/symmetric.go:106-109 | dropping an outdated entry keeps every open node queued at its current cost |
| `Routes.PopFresh` | cmd/mesh-node/symmetric.go:106-110 | a current minimum belongs to an unsettled node, and settling it keeps settled nodes no dearer than open ones |
| `Routes.ClosedIsShortest` | cmd/mesh-node/symmetric.go:100-128 | once all known nodes are settled, every permitted walk ends at a known node and costs at least its recorded cost |
| `Routes.FirstHopTable` | cmd/mesh-node/symmetric.go:100-128 | terminates, and `previous` is a tree of cheapest walks that spans exactly the nodes reachable without leaving self through an unusable or excluded neighbour |
| `RouteTables.FirstHopFrom` | cmd/mesh-node/symmetric.go:129-138 | returns a hop exactly for reachable destinations, and it is a usable first hop of a cheapest permitted walk |
| `RouteTables.PrimaryRoutes` | cmd/mesh-node/symmetric.go:69-86 | a usable neighbour routes to itself; any other destination has a route exactly when a permitted walk reaches it, by the first hop of a cheapest one; relayed destinations are grouped by their hop |
| `RouteTables.FallbacksFor` | cmd/mesh-node/symmetric.go:87-97 | one more search gives each destination behind a hop a fallback exactly when a walk avoiding that first hop reaches it, by a cheapest such walk, never the hop itself |
| `RouteTables.ComputeRoutes` | cmd/mesh-node/symmetric.go:44-99 | both tables for every directory entry: routes and fallbacks exist exactly when permitted walks do, and are first hops of cheapest ones |
| `Forwarding.OneHop` | cmd/mesh-node/symmetric.go:69-86 | when all nodes hold the same positive links and every link is usable, following one table entry arrives or strictly decreases the true distance |
| `Forwarding.ComputeMesh` | cmd/mesh-node/symmetric.go:44-99 | the tables that `ComputeRoutes` gives at every node for the same positive, usable links are consistent, as loop freedom asks |
| `Forwarding.LoopFree` | cmd/mesh-node/symmetric.go:69-86 | following the tables of successive nodes reaches the destination, never visits a node twice, and decreases the distance at every hop |
| `Graph.EdgeKeyNamesPair` | cmd/server/topology.go:334-339 | two keys are equal exactly for the same unordered pair of IDs |
| `Graph.LessIff` | cmd/server/broadcasts.go:497 | the order of IDs is lexicographic |
| `Graph.PathsAreCuts` | cmd/server/broadcasts.go:526-576 | two nodes are joined by a path exactly when no set closed under links separates them |
| `Components.HalvingKeeps` | cmd/server/broadcasts.go:535-541 | path halving keeps the parent map an acyclic forest of the same classes |
| `Components.Find` | cmd/server/broadcasts.go:535-541 | terminates at the root of the node's class and keeps the forest |
| `Components.UnionKeeps` | cmd/server/broadcasts.go:549-551 | hanging one root below another gives a forest of the merged classes |
| `Components.UnionAll` | cmd/server/broadcasts.go:530-552 | after all edges the forest has the classes of the simple quick-find definition |
| `Components.ClassesAreComponents` | cmd/server/broadcasts.go:526-576 | those classes are exactly the connected components |
| `Bridges.BridgeNodes` | cmd/server/broadcasts.go:577-607 | finds a pair exactly when some pair is unblocked, and none is better: more superpeers, then a lower weighted score, then IDs in order |
| `Bridges.RankingMeans` | cmd/server/broadcasts.go:592-603 | the compared rank says just that |
| `Repair.SortStrings` | cmd/server/broadcasts.go:562-566 | the roots come out in increasing order, each once |
| `Repair.GroupByRoot` | cmd/server/broadcasts.go:553-557 | the groups are exactly the classes, each with its nodes in directory order |
| `Repaired.BridgedConnects` | cmd/server/broadcasts.go:567-575 | a bridge between every two neighbouring components connects everything |
| `Repaired.MissingBridgeCuts` | cmd/server/broadcasts.go:567-575 | without a bridge between two neighbours in root order nothing joins the components before and after |
| `Repaired.EnsureConnected` | cmd/server/broadcasts.go:526-576 | keeps all edges in order, adds fewer edges than there are components, each between two components and none blocked, and is connected exactly when all neighbouring components in root order have an unblocked pair |
| `Repaired.NothingBlocked` | cmd/server/broadcasts.go:526-576 | with nothing blocked that condition always holds |
| `Repaired.StrandedByOneBlock` | cmd/server/broadcasts.go:567-575 | three isolated nodes and one blocked pair: the condition fails although unblocked pairs exist to every node |
| `Backbone.BackboneLinks` | cmd/server/broadcasts.go:483-525 | computes the backbone, a function of superpeers and degree: the ring, all chords up to half the clamped degree and, for an odd degree, all opposite pairs, and nothing else; no self-loop and no pair twice |
| `Backbone.BackboneIsChords` | cmd/server/broadcasts.go:488-523 | two superpeers are linked exactly when neighbours on the ring, within half the clamped degree of each other round the ring, or opposite for an odd degree |
| `Backbone.BackboneConnected` | cmd/server/broadcasts.go:483-525 | two or more superpeers are connected |
| `Backbone.BackboneSurvives` | cmd/server/broadcasts.go:483-525 | with three or more, losing any one leaves the others connected |
| `Backbone.BackboneDegree` | cmd/server/broadcasts.go:488-524 | no superpeer has more neighbours than the degree clamped to at least 2 and at most n - 1 |
| `ClientLinks.AttachClient` | cmd/server/broadcasts.go:699-731 | one client ends with the larger of the links it had and the smaller of what it wants and what is linked or unblocked; adds only unblocked pairs |
| `ClientLinks.AttachInOrder` | cmd/server/broadcasts.go:721-731 | no peer that could be linked is passed over for a later one in the client's order |
| `ClientLinks.AttachCosts` | cmd/server/broadcasts.go:728 | the n-th link of a client costs a tenth more than the one before, from 1 |
| `ClientLinks.AddAutomaticClientLinks` | cmd/server/broadcasts.go:688-734 | after all clients each still has at least that minimum, and exactly that number when no client is a peer of another |
| `LinkCosts.DecoratedCostBounds` | cmd/server/broadcasts.go:340-398 | whatever the metrics and uptimes, a decorated cost stays within 0.5 and 240 times its positive base |
| `LinkCosts.PerfectCostsBase` | cmd/server/broadcasts.go:340-343 | a perfect link costs its weight, or 1 without a positive one |
| `LinkCosts.TwoReports` | cmd/server/broadcasts.go:325-339 | two fresh reports count as their mean latency, where both have one, their worse loss, and the state and path both confirm |
| `LinkCosts.OneReport` | cmd/server/broadcasts.go:370-378 | a single report leaves the state unknown: twice the cost of two like it when up, the same when down |
| `LinkCosts.NoReport` | cmd/server/broadcasts.go:370-378 | no report costs twice a perfect link |
| `LinkCosts.StatusAndPath` | cmd/server/broadcasts.go:370-391 | down costs four times up, and a path local in both directions half |
| `LinkCosts.LatencyCosts` | cmd/server/broadcasts.go:344-353 | latency multiplies by one plus its hundredths of milliseconds, up to six: 100 ms double the cost |
| `LinkCosts.LossCosts` | cmd/server/broadcasts.go:354-361 | loss multiplies by the expected transmissions, up to five |
| `LinkCosts.WorseCostsMore` | cmd/server/broadcasts.go:344-361 | worse latency or loss never lowers the cost |
| `LinkCosts.UptimeCosts` | cmd/server/broadcasts.go:364-369 | a fresh node doubles the cost and the surcharge falls with its hours, exactly |
| `LinkCosts.FreshCounts` | cmd/server/broadcasts.go:321-335 | a report of 45 seconds or more counts as absent; fresh reports and the shorter uptime count as they stand |
| `LinkCosts.DecorateLinks` | cmd/server/broadcasts.go:308-401 | every link keeps its place and ends and gets the cost measured from the fresh reports of both ends and their uptimes, which is positive and within those bounds |
| `LinkBuild.RemoveBlocked` | cmd/server/broadcasts.go:624-635 | keeps exactly the unblocked edges |
| `LinkBuild.UnblockedInOrder` | cmd/server/broadcasts.go:624-635 | and keeps their order |
| `LinkBuild.Finish` | cmd/server/broadcasts.go:480-482 | the unblocked edges come first, in order and at measured cost; then fewer unblocked repairs than there are components, each between two of them; connected exactly under the repair's condition |
| `LinkBuild.BaseLinks` | cmd/server/broadcasts.go:460-479 | computes base links and peers as functions of directory and policy: the unblocked manual links when any are stored, else the backbone, and the superpeers or, lacking both, all nodes; no blocked link touches a client |
| `LinkBuild.BaseIs` | cmd/server/broadcasts.go:460-471 | with a manual link between online nodes the base is exactly the unblocked manual links, otherwise the backbone |
| `LinkBuild.PeersAre` | cmd/server/broadcasts.go:472-479 | clients attach to superpeers, or to everyone when there are neither superpeers nor manual links |
| `LinkBuild.OfflineBlocksNothing` | cmd/server/broadcasts.go:617-623 | a block counts exactly when both its nodes are online |
| `LinkBuild.SuperpeersInOrder` | cmd/server/broadcasts.go:608-616 | the superpeers keep their directory order |
| `LinkBuild.Links` | cmd/server/broadcasts.go:455-482 | the output begins with the graph before the repair, a function of the inputs, at measured costs; it is connected exactly when all neighbouring components of that graph have an unblocked pair, in particular when nothing is blocked; it holds no blocked pair and no unknown node; every client keeps at least the peers it wants by its NAT type, and one, as far as it could get them, and attachment gives exactly that number when superpeers exist |
| `LinkBuild.BuildStranded` | cmd/server/broadcasts.go:460-466 | three superpeers whose one manual link is blocked: whatever the other inputs the published graph is disconnected, though unblocked links would connect all three |
| `Prefixes.MaskedInterval` | cmd/server/topology.go:86-99 | a masked prefix is an interval of addresses of its size |
| `Prefixes.OverlapsMeaning` | cmd/server/topology.go:78-85 | two prefixes overlap exactly when some address lies in both |
| `VirtualPool.PrefixOverlapsAny` | cmd/server/topology.go:78-85 | true exactly when the prefix overlaps a listed one |
| `VirtualPool.AllocateVirtual` | cmd/server/topology.go:86-99 | returns the lowest aligned block of 10.77.0.0/16 that overlaps nothing in use, and nothing exactly when every block overlaps something |
| `VirtualPool.FirstFitUnique` | cmd/server/topology.go:86-99 | that specification determines the result |
| `VirtualPool.FirstFitIs` | cmd/server/topology.go:86-99 | a plain recursive search, which a caller can evaluate, finds that result |
| `VirtualPool.PoolIs` | cmd/server/topology.go:86-99 | blocks are those of 10.77.0.0/16 |
| `SiteRoutes.SaveKeeps` | cmd/server/broadcasts.go:57-95 | replacing a node's LAN list keeps all virtual prefixes disjoint, off the mesh network, inside the pool, aligned and as long as their LANs |
| `SiteRoutes.AddKeeps` | cmd/server/routes.go:98-123 | adding one LAN keeps that invariant |
| `SiteRoutes.RemoveKeeps` | cmd/server/routes.go:135-193 | removing one LAN keeps that invariant |
| `SiteRoutes.WithoutInOrder` | cmd/server/routes.go:157-172 | removing a LAN keeps exactly the others, in order |
| `SiteRoutes.RemoveNodeKeeps` | cmd/server/nodes.go:42 | deleting a node's whole row keeps that invariant and frees exactly its prefixes |
| `SiteRoutes.RunKeeps` | cmd/server/routes.go:66-193 | the invariant holds after any sequence of serialised saves, adds, removals and node deletions |
| `SiteRoutes.SaveIffPlanned` | cmd/server/broadcasts.go:57-95 | a save is possible exactly when the plan computed from table, list and mesh network finds a prefix for every LAN, and then stores that plan |
| `SiteRoutes.OldVirtualIff` | cmd/server/broadcasts.go:67-69 | the prefix a LAN may keep is that of its last entry in the stored row |
| `SiteRoutes.KeptIff` | cmd/server/broadcasts.go:79-94 | on a resave a LAN keeps its virtual prefix exactly when no LAN listed before it both needs a new prefix and has its first fit overlap the old one, all computed from the table before the save |
| `SiteRoutes.NewLanTakesPrefix` | cmd/server/broadcasts.go:79-94 | a concrete resave with a new LAN listed first moves the kept LAN's prefix to the new one |
| `SiteRoutes.KeptFirstIsStable` | cmd/server/broadcasts.go:79-94 | a resave that lists kept LANs first keeps all their prefixes |
| `RouteStore.CheckLans` | cmd/server/broadcasts.go:38-56 | accepts exactly lists of distinct LANs of routable length |
| `RouteStore.Allocate` | cmd/server/broadcasts.go:78-95 | the allocation loop follows the specification entry by entry and stops early only at a LAN that can keep no prefix while every block is taken |
| `RouteStore.Store.CollectUsed` | cmd/server/broadcasts.go:57-77 | the list holds exactly the prefixes of all other nodes and the mesh network |
| `RouteStore.Store.SaveNetwork` | cmd/server/broadcasts.go:57-95 | success is a save step of an accepted request, failure changes nothing and, for an accepted list, means exhaustion |
| `RouteStore.Store.AddRoute` | cmd/server/routes.go:66-134 | success is an add step for a known node, failure changes nothing and means a duplicate or exhaustion |
| `RouteStore.Store.RemoveRoute` | cmd/server/routes.go:135-193 | succeeds exactly for a stored LAN, and then removes it |
| `RouteStore.Store.RemoveNode` | cmd/server/nodes.go:30-42 | deletes the row and frees exactly its prefixes |
| `Translation.PublishedIff` | cmd/server/routes.go:27-54 | a LAN address is published exactly when an advertised LAN with a virtual prefix covers it |
| `Translation.ShiftedIsExact` | cmd/server/routes.go:42-51 | between masked prefixes of equal length the 32-bit shift keeps the host part and is undone by the shift back |
| `Translation.RoundTrip` | cmd/mesh-node/tun_forward.go:726-752 | the gateway maps the published virtual address back to the same LAN address, even when its LANs overlap |
| `Translation.GatewayAgrees` | cmd/mesh-node/tun_forward.go:726-752 | in both directions the gateway picks exactly the address that the coordinator computes from the stored row |
| `Translation.PublishedReturns` | cmd/server/routes.go:27-54 | the coordinator's own two directions undo each other on every published address |
| `Translation.OnlyRoute` | cmd/mesh-node/topology.go:73-98 | only one of the routes a node collects can cover one of its virtual addresses |
| `Checksum.FoldFully` | cmd/mesh-node/keepalive.go:678-680 | folding terminates in 16 bits and keeps the one's-complement value |
| `Checksum.PacketChecksum` | cmd/mesh-node/keepalive.go:674-689 | the complement of the folded sum of big-endian words, an odd byte padded |
| `Checksum.AdjustedKeepsSum` | cmd/mesh-node/keepalive.go:690-699 | the single folds fit 16 bits, and field plus address keep their sum modulo 65535 |
| `Checksum.IncrementalIsScratch` | cmd/mesh-node/keepalive.go:690-699 | the updated field is exactly the checksum computed from scratch over the changed words |
| `Checksum.AdjustedZeroIff` | cmd/mesh-node/keepalive.go:690-699 | a non-zero field becomes zero exactly when field and old address are congruent to the new address modulo 65535, save for one all-ones case |
| `PacketTranslation.AdjustAddressChecksum` | cmd/mesh-node/keepalive.go:690-699 | rewrites just the two bytes of the field, with the value the lemmas above are about |
| `PacketTranslation.FindRoute` | cmd/mesh-node/tun_forward.go:726-744 | the first own route that covers the address decides |
| `PacketTranslation.TranslateLocalPacket` | cmd/mesh-node/tun_forward.go:717-769 | the in-place method leaves the packet of the specification and its verdict |
| `PacketTranslation.OnlyAddressChanges` | cmd/mesh-node/tun_forward.go:745-768 | the new address is in place, and every byte outside it and the two checksum fields is as before |
| `PacketTranslation.HeaderChecksumKept` | cmd/mesh-node/tun_forward.go:745-754 | the header checksum verifies after an address change exactly when it did before |
| `PacketTranslation.TransportChecksumKept` | cmd/mesh-node/tun_forward.go:755-768 | so does the checksum of a TCP segment with a whole checksum field, or of a UDP datagram that carries one, in a first fragment |
| `PacketTranslation.TranslationKeepsChecksums` | cmd/mesh-node/tun_forward.go:717-769 | both, for every well-formed packet, route list and direction, in terms of the packet bytes alone |
| `PacketTranslation.ChangedBytes` | cmd/mesh-node/tun_forward.go:751-768 | no byte changes but the one address, the header checksum, bytes 16-17 behind the header of TCP, and bytes 6-7 behind that of checksummed UDP; none more for other protocols and later fragments |
| `PacketTranslation.UdpZeroIff` | cmd/mesh-node/tun_forward.go:763-766 | a UDP checksum turns into zero, the mark of no checksum, exactly under that congruence of its field and the two addresses |
| `PacketTranslation.TranslatedZeroIff` | cmd/mesh-node/tun_forward.go:717-769 | the same for the whole translation: exactly when a route covers the address and its replacement is congruent |
| `PacketTranslation.ChecksumLost` | cmd/mesh-node/tun_forward.go:763-766 | a concrete datagram with valid header and UDP checksums, the latter non-zero, leaves the gateway with UDP checksum zero |
| `PacketTranslation.GatewayDelivers` | cmd/mesh-node/tun_forward.go:717-769 | a packet to the address published for a LAN host leaves the gateway addressed to that host, same source, checksums as valid as before |
| `PacketTranslation.GatewayPublishes` | cmd/mesh-node/tun_forward.go:717-769 | a packet from a LAN host leaves under exactly the address the coordinator publishes for it, and is refused when there is none |
| `PortScan.SymmetricScanPortPass` | cmd/mesh-node/discovery.go:10-42 | visits the ports of one residue class, outside in around the centre, until the visitor stops |
| `PortScan.SymmetricScanPorts` | cmd/mesh-node/keepalive.go:302-312 | visits the scan order until the visitor stops, and nothing for an invalid centre or step |
| `PortScan.ScanIsPermutation` | cmd/mesh-node/keepalive.go:302-312 | the scan order holds every port from 1 to the maximum exactly once, for any maximum |
| `PortScan.CenterEndsFirstPass` | cmd/mesh-node/discovery.go:10-42 | the centre comes last in the first pass |
| `PortScan.VisitIsPrefix` | cmd/mesh-node/discovery.go:10-42 | whatever the visitor does, what it sees is a prefix of the order, and all of it when it never stops |
| `PortScan.VisitStops` | cmd/mesh-node/discovery.go:28-41 | the visitor accepted every port it saw but the last, and that one too unless the scan stops there |
| `PortScan.PassInOrder` | cmd/mesh-node/discovery.go:27-41 | in a pass the port one step below comes first, then upwards those above, then upwards the rest below, then the centre |
| `PortScan.ScanInOrder` | cmd/mesh-node/keepalive.go:306-311 | over the whole scan an earlier offset comes before a later one |
| `Dedup.RememberSlides` | cmd/mesh-node/tun_forward.go:119-136 | remembering a new ID keeps map and ring equal and free of repeats, and slides the window of the last 156 IDs |
| `Dedup.FastSeen.RememberFast` | cmd/mesh-node/tun_forward.go:108-137 | true exactly when the ID is not among its shard's last 156 accepted IDs; other shards are untouched |
| `Dedup.ShardsCommute` | cmd/mesh-node/tun_forward.go:80-137 | calls on different shards give the same answers and histories in either order |
| `Dedup.DuplicateRefused` | cmd/mesh-node/tun_forward.go:108-137 | an accepted ID is refused exactly while its shard has accepted fewer than 156 others since |
| `Dedup.FnvAppend` | cmd/mesh-node/tun_forward.go:80-90 | the shard is the 32-bit FNV-1a hash of the ID modulo 64 |
| `Dedup.FnvByteIs` | cmd/mesh-node/tun_forward.go:80-90 | each byte is mixed in by exclusive or and the 32-bit FNV prime |
| `Reassembly.AbsorbKeeps` | cmd/mesh-node/keepalive.go:508-543 | an assembly keeps its byte total equal to its chunks and within 1350, and its indices below its count |
| `Reassembly.OutcomeIsCollected` | cmd/mesh-node/keepalive.go:508-543 | the state after any fragments is decided by the first chunk received for every index |
| `Reassembly.AnyOrderDelivers` | cmd/mesh-node/keepalive.go:508-543 | any order with any duplicates of all pieces delivers their concatenation |
| `Reassembly.KeyNamesFragment` | cmd/mesh-node/keepalive.go:484-496 | for full node IDs the key of an assembly determines sender and fragment ID |
| `Reassembly.MakeRoom` | cmd/mesh-node/keepalive.go:498-504 | evicts only from a full table, and leaves room for one more assembly |
| `Reassembly.AbsorbFragment` | cmd/mesh-node/keepalive.go:508-543 | the loop that joins the chunks delivers the specified packet |
| `Reassembly.Reassembler.AcceptFragment` | cmd/mesh-node/keepalive.go:462-543 | ignores malformed fragments, otherwise makes one step of the table; keeps at most 128 valid assemblies and delivers at most 1350 bytes |
| `Reassembly.ForeignKeeps` | cmd/mesh-node/keepalive.go:497-543 | a fragment of another assembly leaves this one alone unless it is the one evicted or expired |
| `Reassembly.RunFollows` | cmd/mesh-node/keepalive.go:462-543 | among arbitrary fragments of other senders and IDs and malformed ones, without expiry or eviction of its key, one assembly has the outcome of its own fragments alone, filtered in order of arrival |
| `Reassembly.DeliversAmongTraffic` | cmd/mesh-node/keepalive.go:462-543 | in any such run the arrival of the last missing piece delivers exactly the packet, and no earlier fragment of it delivers or drops anything |
| `Reassembly.AcceptedIff` | cmd/mesh-node/keepalive.go:463-471 | of the byte strings ID, index, count, chunk, exactly those with 1 to 128 pieces, an index below the count and at most 1350 bytes are accepted |
| `Reassembly.SurvivesIff` | cmd/mesh-node/keepalive.go:474-479 | an assembly outlives up to ten seconds without a new piece and not more |
| `Reassembly.PacketDelivers` | cmd/mesh-node/keepalive.go:462-543 | over the bytes on the wire: among all other traffic, with the table never full and no piece ten seconds late, the last piece of a packet delivers exactly the packet |
| `Hex.EncodeDecode` | internal/protocol/protocol.go:494-505 | a decoded ID encodes to the same text exactly when it was lower case |
| `Hex.DecodesIff` | internal/protocol/protocol.go:494-505 | exactly texts of an even number of hex digits decode |
| `Compact.TimeRoundTrip` | internal/protocol/protocol.go:511 | 64-bit timestamps, negative ones included, survive their eight bytes both ways |
| `Compact.DecodeEncode` | internal/protocol/protocol.go:480-617 | decoding an encoded packet gives back type, IDs in lower case, timestamp and ping ID, from exactly 70 or 82 bytes |
| `Compact.EncodeDecode` | internal/protocol/protocol.go:574-617 | every accepted byte string is the encoding of the packet it decodes to |
| `Compact.AcceptedIff` | internal/protocol/protocol.go:574-617 | exactly the encodings of packets are accepted |
| `Compact.EncodableIff` | internal/protocol/protocol.go:480-532 | a packet has a compact form exactly when its type is one of the four, its identifiers are hex of their length, a PONG names its ping, and a handshake has no session |
| `Compact.WireLayout` | internal/protocol/protocol.go:506-543 | the bytes on the wire: magic, type, both IDs, packet ID, big-endian time, ping ID, and 16 bytes of the hash |
| `Compact.CompactBody` | internal/protocol/protocol.go:480-532 | fails exactly for a packet without a compact form, otherwise appends its fields in the layout |
| `Compact.CompactFramed` | internal/protocol/protocol.go:537-543 | the frame does not depend on what the reused MAC state was fed before |
| `Compact.EncodeCompactReuse` | internal/protocol/protocol.go:555-561 | equals the codec the round trips are about, for any earlier use of the holder |
| `Compact.DecodeCompactReuse` | internal/protocol/protocol.go:574-617 | equals that codec too, with all its refusals |
| `FastFrame.SendIP` | cmd/mesh-node/tun_forward.go:630-674 | refuses exactly packets over 1350 bytes, otherwise the buffer holds the specified frame within the frame limit |
| `FastFrame.RelayInPlace` | cmd/mesh-node/keepalive.go:572-598 | forwards exactly when the relay rule allows, changing only the hop limit byte, and otherwise nothing |
| `FastFrame.ChainPasses` | cmd/mesh-node/keepalive.go:572-598 | a frame passes a chain of relays exactly when all are willing and fewer than its hop limit, and only the hop limit differs |
| `FastFrame.ReceivedIsSent` | cmd/mesh-node/keepalive.go:599-621 | the destination opens the frame with matching associated data and delivers the packet when it has at least 20 bytes |
| `FastFrame.EndToEnd` | cmd/mesh-node/keepalive.go:572-621 | a packet of 20 to 1350 bytes fits the limit, passes 0 to 7 willing relays and is delivered unchanged |
| `FastFrame.HopLimit` | cmd/mesh-node/keepalive.go:572-598 | eight or more relays are never passed, loops included |
| `FastFrame.NeverForwarded` | cmd/mesh-node/keepalive.go:572-598 | a frame under 77 or over 1439 bytes, or outside hop limits 2 to 8, is never passed on |
| `FastFrame.AadBinds` | cmd/mesh-node/keepalive.go:568-571 | frames that differ in an ID or the packet ID do not share associated data |
| `FastFrame.PlainIsOnePiece` | cmd/mesh-node/keepalive.go:462-543 | the plaintext of a fast frame is a packet of one piece, which the reassembly table delivers at once |
| `FastFrame.OnlyOnePieceDelivers` | cmd/mesh-node/keepalive.go:462-543 | of all pieces the fast path delivers at once exactly those of a packet of one piece and of 20 to 1350 bytes |
| `DirectPath.MeshNode.HandleDatagram` | cmd/mesh-node/dataplane.go:790-828 | a replayed datagram does nothing; otherwise the node records and passes on what the two laws below say |
| `DirectPath.ForwardIff` | cmd/mesh-node/dataplane.go:821-826 | a node passes a datagram on exactly when it is a superpeer, not the destination, and the hop limit exceeds one; what it sends decodes to the packet with one hop less |
| `DirectPath.TouchIff` | cmd/mesh-node/dataplane.go:818-820 | it takes the address exactly from a HELLO, HELLO_ACK, PING or PONG for itself with hop limit 8 |
| `DirectPath.CompactOnlyWhen` | cmd/mesh-node/discovery.go:82-92 | the compact form goes out exactly for a fresh handshake without a session, toward a peer that speaks it |
| `DirectPath.ChainPasses` | cmd/mesh-node/dataplane.go:821-826 | a packet passes a chain of nodes exactly when all are willing superpeers and fewer than its hop limit |
| `DirectPath.RelayedIsHonest` | cmd/mesh-node/discovery.go:82-92 | a relayed datagram, in whichever format it came, decodes with a hop limit that shows it was relayed |
| `DirectPath.NextKeepsSafe` | cmd/mesh-node/dataplane.go:790-828 | every emission and every handling keeps hop limits honest and recorded addresses genuine |
| `DirectPath.DirectPathSafety` | cmd/mesh-node/dataplane.go:790-828 | in every run a datagram with a full hop limit was sent by the source it names, every recorded address is one its peer sent from, and nothing is relayed more than 7 times |
| `ScanSessions.ScanEndsIff` | cmd/mesh-node/keepalive.go:225-275 | every locked section keeps the table equal to the running scans, and ends a scan exactly when meant for it: not by a stale acknowledgement, nor by the exit of another scan |
| `ScanSessions.ReachableTable` | cmd/mesh-node/symmetric.go:18-38 | in every reachable state listed channels are open and belong to the recorded session, and no channel was closed twice |
| `ScanSessions.SecondClosePanics` | cmd/mesh-node/symmetric.go:27-32 | closing a closed channel, or one channel twice at once, would panic |
| `ScanSessions.LivesUntilEnded` | cmd/mesh-node/keepalive.go:267-275 | over any stretch of a run a scan stays listed exactly until a step that ends it, and never returns |
| `ScanSessions.CompletesOwnScan` | cmd/mesh-node/discovery.go:51-66 | a HELLO_ACK takes effect exactly when the running scan of that peer is for its session, and closes that scan's channel |
| `ScanSessions.ForcedStartArms` | cmd/mesh-node/symmetric.go:754-778 | a forced start always leaves a running scan for its session |
| `ScanSessions.StartsIff` | cmd/mesh-node/keepalive.go:234-254 | an unforced start is ignored exactly for a scan under way for the session or a usable connected neighbour; any other start starts its scan |
| `ScanSessions.OnlyStartsStart` | cmd/mesh-node/keepalive.go:251-254 | no step but a start starts a scan |
| `ScanSessions.ConnectedIff` | cmd/mesh-node/symmetric.go:18-38 | a peer counts as connected exactly from the acknowledgement of a scan under way until a step that forgets it |
| `ScanSessions.SessionAfter` | cmd/mesh-node/symmetric.go:767-777 | an event puts its session on record at once, and ending a scan takes the record away |
| `ScanSessions.OthersUntouched` | cmd/mesh-node/symmetric.go:18-38 | a step changes nothing about peers it is not about |
| `ScanTable.Table.StartSymmetricScan` | cmd/mesh-node/keepalive.go:225-255 | is the start step, and closes only an open channel |
| `ScanTable.Table.ScanExit` | cmd/mesh-node/keepalive.go:268-275 | is the exit step |
| `ScanTable.Table.HandleScanEvent` | cmd/mesh-node/symmetric.go:767-777 | is the event step, and closes only an open channel |
| `ScanTable.Table.CompleteSymmetricScan` | cmd/mesh-node/discovery.go:51-66 | is the completion step, and closes only an open channel |
| `ScanTable.Table.CancelObsolete` | cmd/mesh-node/symmetric.go:18-38 | the loop is the obsolete step, and closes each channel once, in any order |
| `ScanTable.Table.ResetSymmetricRelay` | cmd/mesh-node/symmetric.go:608-617 | is the relay reset step |
| `ScanTable.Table.ResetTransportState` | cmd/mesh-node/recovery.go:279-294 | the loop is the full reset step, and closes each channel once |
| `ControlPlane.NewestWins` | cmd/server/control.go:69-102 | after a register the ID is held by the newest of the registering and the holding connections, bindings stay unique, and no later-accepted connection loses its binding |
| `ControlPlane.BoundOnce` | cmd/server/control.go:69-102 | in every reachable state a node ID is bound to at most one connection |
| `ControlPlane.NeverMovesBack` | cmd/server/control.go:84-97 | while no connection from the holder on hangs up or changes its ID, the ID stays with the holder or a newer connection |
| `ControlPlane.Coordinator.Register` | cmd/server/control.go:69-102 | the loop performs the rebinding, and closes only older connections of the same ID |
| `ControlPlane.Coordinator.SendControlEvent` | cmd/server/control.go:129-153 | sends to a connection that holds the ID and accepts the frame, and fails exactly when none does |
| `ControlPlane.Coordinator.Store` | cmd/server/control.go:183-191 | drops exactly the expired requests, then stores the new one for 30 seconds |
| `ControlPlane.AnswersFor30` | cmd/server/control.go:190-222 | a stored request matches its own relay and source for 30 seconds, and nothing else |
| `ControlPlane.OthersKept` | cmd/server/control.go:185-189 | a store drops only requests past their time, which could not be acknowledged any more |
| `ControlPlane.SessionIff` | cmd/server/control.go:155-158 | session IDs are exactly 32 hex digits |
| `ControlPlane.Coordinator.SymmetricScanRequest` | cmd/server/control.go:160-205 | the exact condition of every status, over source, body and directory: a request is stored exactly when the source is registered, the session is 32 hex digits, both nodes are known, the source is symmetric with an endpoint and the target a cone superpeer; it is withdrawn exactly when the target cannot be reached |
| `ControlPlane.Coordinator.SymmetricScanACK` | cmd/server/control.go:207-236 | the exact condition of every status: only a request of that source, for that target, before its deadline is consumed, and forwarded to a connection of its source |
| `Rendezvous.TakeKeeps` | cmd/server/control.go:219-229 | an acknowledgement is matched only when its relay has armed the scan, and uses up the request |
| `Rendezvous.ArmKeeps` | cmd/mesh-node/symmetric.go:764-786 | the relay's scan is armed before its acknowledgement can leave |
| `Rendezvous.SignalKeeps` | cmd/mesh-node/control.go:187-203 | an acknowledgement event fires a waiter only for the relay that waiter's node asked |
| `Rendezvous.ResetForgetsWaiters` | cmd/mesh-node/recovery.go:279-294 | of a node's scan steps only the transport reset drops waiters, exactly the node's own |
| `Rendezvous.NextKeeps` | cmd/server/control.go:160-236 | every step of source, coordinator or relay, in any interleaving, keeps the protocol invariant |
| `Rendezvous.RendezvousSafety` | cmd/mesh-node/keepalive.go:21-55 | in every run a waiter fires only after the relay asked armed a scan for that session and source; each stored request yields at most one forwarded acknowledgement; bindings are unique; all scan tables are sound |
| `Rendezvous.HandshakeCompletes` | cmd/mesh-node/keepalive.go:21-55 | for any two nodes, session and time some run fires the source's waiter, so the safety statement is not empty |

## Left out

- Sockets, TUN devices, operating-system routes, STUN, DNS, self-update, the admin pages and the command line: input, output and glue.
- SQLite, HTTP handlers, accounts, invites and parsing: only the tables of routes, bindings and pending requests are kept; request validation is folded into the parameters `accepted` and `known`.
- HMAC, AEAD and the JSON envelope: abstract functions with the laws named above.
- Floating point: costs are reals, so rounding and NaN are not captured.
- `container/heap`: any entry of least cost, without the heap's own order among equals.
- `send`, `nextHop` and `fallbackHop`: route caching and the timing of a switch to the fallback; forwarding is proved for tables that all nodes compute from the same links.
- `handlePong` and the smoothing of round-trip times and loss: the resulting metrics are inputs of the cost decoration.
- `cachedTopologyLinks`: costs depend on the clock, and the branch over 64 entries clears the map before it writes to it.
- Legacy `/register` matching, primary-socket promotion and the random eviction of the control-plane replay cache.
- Links: the order in which equally good peers are tried comes from telemetry and is a parameter, any permutation of the peers.
- AllocateVirtual: takes at least one prefix bit, as every LAN that validation lets through has.
- RunFollows: as in DeliversAmongTraffic, expiry or eviction of the assembly in question starts it anew and is excluded.
- HandleDatagram: the replay cache's answer and the preference for a fresh LAN address are parameters, and payload handling after the relay decision is not modelled.
- DirectPathSafety: nodes hold the network key and put their own ID in the packets they create; forged packets are outside the model.
- RendezvousSafety: connections register the ID of the node that opened them and session IDs are fresh; a frame whose sending reported an error counts as not sent.
- `handleSymmetricBurst`: its rate limit is not modelled; the scans it starts are ordinary start steps, which the run theorems allow at any time.
