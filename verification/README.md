# A verified model of tinc

tinc is a peer-to-peer VPN daemon. Daemons tell each other about the edges of a meta graph, compute
routes and a broadcast tree from it, exchange keys with SPTPS, look up who owns an address in a
table of subnets, and rewrite the packets they forward. This project models these parts in Dafny and
proves what they promise.

- **Graph engine** (`Names`, `Edges`, `Cuts`, `Mst`, `MstOptimal`, `Sssp`, `SsspBfs`, `SsspDiverges`,
  `Flooding`, `Broadcast`). `mst_kruskal` with its restarts computes a minimum spanning tree of the component of
  its start node. `sssp_bfs` visits exactly the reachable nodes, and finds shortest routes where no
  edge is indirect. A broadcast over the tree reaches every reachable node exactly once, in any order
  of deliveries.
- **Edges and events** (`EdgeTrees`, `TreeRefinement`, `EdgeStore`, `Daemon`, `Snapshot`). The per-node trees, the tree
  by weight and the reverse pointers stay consistent through every message, and between events a node
  is marked reachable exactly if it is. What a daemon then holds is what the broadcast theorem asks of
  it.
- **SPTPS** (`SptpsSpec`, `SptpsAuth`, `SptpsPeer`, `SptpsAgreement`, `SptpsStream`, `SptpsBytes`,
  `Sptps`). The functions of `SptpsSpec` are what the class `Sptps` is proved to do; two of them connected
  by FIFO byte streams never reject a record, whatever rekeyings are forced. Whatever else arrives, keys
  are used only after a signature over both exchanges has verified, and if none is forged both ends agree.
- **Replay windows** (`BitWindow`, `ReplayWindow`, `LegacyWindow`). Circular bitmaps refine a record
  of everything accepted.
- **Splay tree** (`SplayShape`, `SplaySteps`, `SplayBottomUp`, `SplayRotate`, `SplayTopDown`,
  `SplaySearch`, `SplayList`, `SplayInsert`, `SplayTree`). Nodes are objects with five links; the
  links are mirrored by a ghost tree and a context with a hole, and every rotation, cut and merge is
  proved on the links.
- **Subnets** (`HashCache`, `Masks`, `Subnets`, `SubnetTable`). The lossy cache agrees with the scan,
  and the scan is longest-prefix match.
- **IPv4** (`Checksum`, `Ipv4`, `Fragments`). The Internet checksum, its incremental updates, and
  fragmentation against reassembly.
- **Codecs** (`Codecs`). Hexadecimal and tinc's base64, within one buffer.

Cryptographic primitives are parameters that obey the usual laws (`SptpsSpec.Crypto.Lawful`), random
draws come from a tape, hash functions and the order of the node tree are parameters, and messages
arrive parsed.

Where a promise is false of the code, a member gives an input for which it fails, and another one says
when it holds:

- `sssp_bfs` is documented to take time linear in the edges. Without indirect edges it ends within a
  bound in nodes times edges (`SsspBfs.SsspBfsWithin`); with them it need not end at all
  (`SsspDiverges.NeverEnds`), so there is no bound to state.
- Clamping the TCP maximum segment size keeps the checksum right exactly if the option's value is at an
  even offset, or the two values agree modulo 257 (`Ipv4.ClampCorrect`); the options of
  `Ipv4.OddPacket` lead to an odd one.
- Fragments reassemble to the payload exactly if the offset of the last one fits in 13 bits
  (`Fragments.PacketReassembly`, `Fragments.BeyondReach`).
- Edges are ordered by weight exactly if all weights pairwise differ by less than 2^31
  (`Edges.OrderedByWeight`); otherwise the order can be cyclic (`Edges.WrappedWeightsCycle`).
- The legacy window, if it is not empty, accepts a number again exactly if its position is within a
  window of 2^32 and enough far-future packets have been counted, or number 0 comes again after 2^32-1
  (`LegacyWindow.ReplayExactly`, `LegacyWindow.AcceptedTwice`, `LegacyWindow.AcceptedForEver`). For that
  of SPTPS the first half holds until 2^32-1 has been accepted (`ReplayWindow.ReplayExactly`,
  `ReplayWindow.AcceptedTwice`); right then everything within the first window is accepted again
  (`ReplayWindow.ReplayAfterWrap`, `ReplayWindow.AcceptedAfterWrap`).
- The edges from the local node are those of activated connections after an ACK exactly if the
  connection was not activated before (`Daemons.Daemon.Ack`, `Daemons.SecondAck`).
- The cache of subnets keeps a single value for each key exactly if no key is inserted that is cached
  behind an emptied slot (`HashCaches.HashCache.Insert`, `HashCaches.LeaveBehind`); lookups insert only
  keys that are not cached.
- The comparison of subnets is strictly transitive on entries whose weights can be compared
  (`Subnets.SubnetCompareTransitive`, `Subnets.LighterFirst`). Not strictly, it is transitive exactly if
  no ownerless entry stands between two owned ones that differ from it and from each other in nothing but
  the owner, in the wrong order (`Subnets.SubnetCompareExactly`, `Subnets.ClashIsNoOrder`). A table in
  order refuses entries that clash, and stays in order.

The TCP option walk of `clamp_mss` looks at the length byte of the first option instead of the one it
has found, and `do_decrement_ttl` looks at byte 11 of the header for the protocol; the model follows the
code in the first case, and the second only decides about a reply that is not modelled. A comment in
`generate_key_material` puts the label before the nonces; the model has it behind them, as the code does.

## Model

| member | source | states |
|---|---|---|
| `Names.StrCmp` | src/edge.c:37-46 | zero exactly for equal names |
| `Names.StrCmpFirst` | src/edge.c:37-46 | the first differing character decides |
| `Names.StrCmpPrefix` | src/edge.c:37-46 | or else the shorter string comes first |
| `Edges.EdgeWeightCompareZero` | src/edge.c:31-47 | zero exactly for the same weight and ends, whatever the 32-bit weights |
| `Edges.LighterFirst` | src/edge.c:31-47 | the lighter of two edges comes first exactly if the difference of the weights fits in a signed 32-bit number |
| `Edges.OrderedByWeight` | src/edge.c:31-47 | a set of edges is ordered by weight exactly if that holds of all its pairs |
| `Edges.TiesByName` | src/edge.c:31-47 | among edges of one weight the near end's name decides, then the far end's |
| `Edges.EdgeWeightCompareAntisymmetric` | src/edge.c:31-47 | swapping the edges negates the result exactly if the weights are not 2^31 apart |
| `Edges.EdgeWeightCompareTransitive` | src/edge.c:31-47 | an order on edges whose weights pairwise differ by less than 2^31 |
| `Edges.WrappedWeightsCycle` | src/edge.c:31-47 | without that, three edges can each come before the next, in a circle |
| `Cuts.Component` | src/graph.c:125-210 | reachability as the least closed set, the reference for both algorithms |
| `Cuts.Exchange` | src/graph.c:80-116 | a crossing edge can replace one of a spanning tree and leave a spanning tree |
| `Mst.First` | src/graph.c:93-97 | the scan stops at the first edge with exactly one visited end and a reverse |
| `Mst.FindStart` | src/graph.c:80-87 | the start is the `from` end of the first edge whose `from` is reachable |
| `Mst.MarkConnections` | src/graph.c:102-108 | the connections of a chosen edge and of its reverse are marked |
| `Mst.MstKruskal` | src/graph.c:65-117 | the scan with its restarts ends, and chooses what repeatedly taking the first crossing edge chooses |
| `MstOptimal.FirstIsLightest` | src/graph.c:80-116 | each chosen edge is a lightest one leaving the visited set, on any list in weight order whose weights can be compared |
| `MstOptimal.GrowSpansComponent` | src/graph.c:65-117 | the chosen edges span the component of the start node and have no cycle |
| `MstOptimal.MinimumSpanningTree` | src/graph.c:65-117 | no spanning tree of that component weighs less |
| `SsspBfs.ExamineNode` | src/graph.c:148-207 | one pass of the outer loop does what the pure function `Pass` does, keeps the search invariant, and without indirect edges makes a measure smaller |
| `Sssp.FollowsOn` | src/graph.c:177-196 | the route through an edge follows the walk to its near end and then the edge: distance, indirectness and via node |
| `Sssp.HopKept` | src/graph.c:185-189 | the next hop of a visited node changes only if its path stays as long as it was |
| `SsspBfs.SsspBfs` | src/graph.c:125-210 | without indirect edges the search ends, visits the component, and finds shortest routes |
| `SsspBfs.SsspBfsWithin` | src/graph.c:125-210 | with any options: it finishes exactly if iterating `Pass` empties the list within the given passes; when it does, it has visited exactly the component, and every route was found along a walk of two-way edges as long as its distance and ending in its previous edge, is indirect exactly if some edge of the walk is, and has as its via node the last one reached without an indirect edge; every next hop is a neighbour and the first hop of some walk; without indirect edges a bound in the numbers of nodes and edges suffices |
| `SsspBfs.LessRank` | src/graph.c:148-207 | without indirect edges, every change of routes makes the measure smaller |
| `SsspBfs.RankBound` | src/graph.c:148-207 | which is at most nodes times edges |
| `SsspDiverges.RingsValid` | src/graph.c:125-210 | a graph of eight nodes, some of whose edges are indirect, is one the search accepts |
| `SsspDiverges.RingsSorted` | src/edge.c:53-55 | its trees are in the order the edges are kept in |
| `SsspDiverges.ScanShows` | src/graph.c:155-205 | which nodes a pass changes, and how, depends only on distances, indirectness and weights of previous edges |
| `SsspDiverges.WholeTurn` | src/graph.c:177-196 | twelve passes on that graph lead back to the same list with every distance three larger |
| `SsspDiverges.NeverEnds` | src/graph.c:148-207 | so the search never ends there, however many passes it is given |
| `SsspDiverges.SearchRings` | src/graph.c:125-210 | the loop itself, run on that graph, never finishes |
| `SsspBfs.VisitedIsComponent` | src/graph.c:148-207 | an empty list means that the visited nodes are the reachable ones |
| `SsspBfs.RoutesAreShortest` | src/graph.c:148-207 | distances are hop counts, previous edges lightest from the previous level, next hops first hops |
| `SsspBfs.NextHopIsFirstHop` | src/graph.c:185-189 | the recorded next hop is the first hop of the chain of previous edges |
| `Flooding.OneEdgeIn` | src/net_packet.c:1607-1632 | a spanning tree has one edge from what is reached to each node beyond |
| `Flooding.FloodExactlyOnce` | src/net_packet.c:1607-1632 | forwarding over a spanning tree to all but the sender delivers once to everyone, and stops |
| `Broadcast.BroadcastPacket` | src/net_packet.c:1607-1632 | a packet goes to every flagged connection with an edge but the one towards its source |
| `Broadcast.DaemonForwards` | src/net_packet.c:1607-1632 | those are the tree neighbours but the one the packet came from |
| `Broadcast.SharedTreeSpans` | src/graph.c:65-117 | all daemons of a component grow the same spanning tree of it |
| `Broadcast.RunIsFlood` | src/net_packet.c:1607-1632 | any run of the daemons is a flood over that tree |
| `Broadcast.BroadcastExactlyOnce` | src/net_packet.c:1607-1632 | every other reachable node gets exactly one copy in any order of deliveries, nobody else gets one, and the flood ends |
| `Broadcast.ComputeGraph` | src/graph.c:320-325 | graph() leaves a daemon with what the broadcast theorem asks of it |
| `Snapshots.TwoWayStored` | src/edge.c:82-112 | the edges of the weight tree that have a reverse pointer are the two-way edges of the store |
| `Snapshots.WeightTreeSorted` | src/edge.c:31-47 | the weight tree of a valid store is in the order `mst_kruskal` needs |
| `Snapshots.ConnectionsMatch` | src/protocol_auth.c:1016-1049 | the connection list of a valid daemon matches its own edges as the broadcast theorem asks |
| `Snapshots.Snapshot` | src/graph.c:320-325 | any daemon that is valid between two events, and has no indirect two-way edge, is after graph() one of the daemons of the broadcast theorem |
| `EdgeTrees.SortedUnique` | src/edge.c:31-55 | a set of edges is kept in one order only |
| `Snapshots.SameStores` | src/edge.c:82-112 | stores with the same edges have the same weight tree and the same reverse pointers |
| `Snapshots.TakeAll` | src/graph.c:320-325 | graph() at daemons that are valid and know the same edges gives a network for the broadcast theorem |
| `Snapshots.DaemonsBroadcast` | src/net_packet.c:1607-1632 | in such a network every other reachable node gets exactly one copy in any order of deliveries, nobody else gets one, and the flood ends |
| `EdgeTrees.WeightOrder` | src/edge.c:31-47 | on weights from any 2^31 consecutive values the weight order meets what the splay tree asks of a comparison |
| `EdgeTrees.ToOrder` | src/edge.c:53-55 | so does the order of a node's edge tree |
| `EdgeTrees.Insert` | src/edge.c:82-103 | an element is inserted unless an equal one is there; the order stays |
| `EdgeTrees.Delete` | src/edge.c:105-112 | exactly the equal element goes; the order stays |
| `EdgeTrees.Overwrite` | src/protocol_edge.c:162-176 | data the order does not depend on can change in place |
| `TreeRefinement.InsertTogether` | src/splay_tree.c:409-435 | the splay tree holds afterwards what the sequence does |
| `TreeRefinement.DeleteTogether` | src/splay_tree.c:545-555 | the same for removal |
| `TreeRefinement.FindTogether` | src/splay_tree.c:327-334 | both find the same element, or none |
| `EdgeStores.StoreUnique` | src/edge.c:82-121 | there is at most one edge from one node to another |
| `EdgeStores.ReverseAdd` | src/edge.c:91-95 | after an edge is added, reverse pointers are an involution between opposite edges |
| `EdgeStores.ReverseDel` | src/edge.c:105-112 | and after one is removed |
| `EdgeStores.EdgeStore.Lookup` | src/edge.c:114-121 | finds the edge exactly if there is one |
| `EdgeStores.EdgeStore.Add` | src/edge.c:82-103 | the edge is in both trees unless its ends have one, and all of the store's invariant holds |
| `EdgeStores.EdgeStore.Del` | src/edge.c:105-112 | the edge is in neither tree, the rest is unchanged |
| `EdgeStores.EdgeStore.Change` | src/protocol_edge.c:162-182 | the edge has its new data in both trees, and the tree by weight is in order across a change of weight |
| `EdgeStores.EdgeStore.AddNode` | src/protocol_edge.c:113-121 | a node without edges |
| `EdgeStores.EdgeStore.DelNode` | src/node.c:134-147 | a node that no edge touches |
| `Daemons.SubComponent` | src/net.c:50-93 | removing edges outside a component does not change it |
| `Daemons.DeadEdge` | src/protocol_edge.c:307-319 | deleting an edge of an unreachable node after graph() has run changes nobody's reachability |
| `Daemons.NetOf` | src/graph.c:125-210 | the routes are computed over exactly the two-way edges of the store |
| `Daemons.Daemon.constructor` | src/graph.c:212-222 | at first only the local node is reachable |
| `Daemons.Daemon.Graph` | src/graph.c:219-222 | afterwards a node is marked reachable exactly if it is; it finishes exactly if the search over the edges there are ends within the passes, which it does if no two-way edge is indirect and they suffice for the nodes and edges there are |
| `Daemons.Daemon.AddEdge` | src/protocol_edge.c:64-217 | the message's edge is recorded with its weight, options and addresses, no other edge changes, a tunnel server ignores edges between others, at most its two ends are new nodes, messages about our own edges change nothing, and the invariant holds, if only the search over the edges then there ends |
| `Daemons.Daemon.Forget` | src/protocol_edge.c:307-319 | the edge to us of a node goes exactly if the node is unreachable; the invariant holds although graph() is not run again |
| `Daemons.Daemon.DelEdge` | src/protocol_edge.c:224-322 | the edge goes, and with it exactly the edge to us of its far end if that has become unreachable, our own edges stay, and the invariant holds, if only the search over the edges then there ends |
| `Daemons.Daemon.Terminate` | src/net.c:118-153 | the connection and its edge go, and with a report exactly the edge to us of its node if that has become unreachable, and the invariant holds, if only the search over the edges then there ends |
| `Daemons.Daemon.CloseActive` | src/net.c:118-150 | the same for an activated connection |
| `Daemons.Daemon.MakeRoom` | src/protocol_auth.c:951-977 | the node exists and has no connection any more, if only the search over the edges then there ends; no edge is added |
| `Daemons.Daemon.Activate` | src/protocol_auth.c:979-1049 | the connection becomes the one of its node and one edge is added; connections and edges match exactly if the connection is on the list |
| `Daemons.Daemon.Ack` | src/protocol_auth.c:951-1049 | the connection is the only one of its node and has the one edge to it, with half the sum of the weights, if only the search over the edges then there ends; the invariant holds exactly if it was not activated before |
| `Daemons.SecondAck` | src/protocol_auth.c:966-980 | one connection and two ACKs over it leave a node whose connection is not on the list, and an edge for it |
| `Daemons.Daemon.PurgeEdges` | src/net.c:67-73 | all edges of an unreachable node go, and nothing else changes |
| `Daemons.Daemon.Purge` | src/net.c:50-93 | exactly the edges of unreachable nodes go, exactly the nodes of `Purgeable` are deleted, nobody's reachability changes |
| `Daemons.Daemon.PurgeNodes` | src/net.c:79-92 | exactly the unreachable nodes that need not be kept are deleted, up to the first one an edge leads to |
| `Daemons.PurgeableMeans` | src/net.c:79-92 | that is: no edge leads to it or to any unreachable node before it in the list |
| `Daemons.Step` | src/protocol_edge.c:64-322 | whatever the event, edges from the local node are those of activated connections and reachability is right afterwards, unless the event was a second ACK; if all edges are direct they stay so and the handler finishes outright within a bound in the nodes and edges before the event |
| `Daemons.Handle` | src/protocol_edge.c:64-322 | every handler adds at most one edge, with the ends and options of its message, and no other nodes |
| `Daemons.Grown` | src/graph.c:148-207 | so the passes needed grow by no more than one edge and two nodes account for |
| `SptpsPeer.KeysAgree` | src/sptps.c:227-264 | the n-th outgoing key of one end is the n-th incoming key of the other |
| `SptpsPeer.AcceptKex` | src/sptps.c:389-447 | a key exchange is accepted where it can arrive |
| `SptpsPeer.AcceptSecondary` | src/sptps.c:389-447 | one that starts a rekeying is answered and accepted |
| `SptpsPeer.AcceptSig` | src/sptps.c:319-376 | so is a signature, after which the outgoing cipher is switched |
| `SptpsPeer.AcceptAck` | src/sptps.c:272-290 | so is an acknowledgement, after which the incoming cipher is switched |
| `SptpsPeer.HandshakeAccepted` | src/sptps.c:389-447 | the next handshake record of the peer is accepted in every state it can meet |
| `SptpsAgreement.HeadDecodes` | src/sptps.c:604-705 | a record is opened with the key and sequence number it was sealed with |
| `SptpsAgreement.SendKeepsInv` | src/sptps.c:159-171 | sending application data keeps the two ends in step |
| `SptpsAgreement.ForceKeepsInv` | src/sptps.c:379-386 | forcing a rekeying keeps them in step |
| `SptpsAgreement.DeliverKeepsInv` | src/sptps.c:389-447 | so does every delivery, and none is rejected |
| `SptpsAgreement.Agreement` | src/sptps.c:227-447 | in every interleaving of sends, forced rekeyings at either end and deliveries no record is rejected, and each end gets a prefix of what the other sent |
| `SptpsAgreement.QuietMeansFinished` | src/sptps.c:272-447 | when nothing is under way both ends have finished the same number of exchanges with the same keys, and everything has arrived |
| `SptpsAuth.SigAccepted` | src/sptps.c:319-376 | a signature record is accepted only if it verifies under the peer's key over the role of the other end, its exchange, ours and the label; the keys set are those of these two exchanges |
| `SptpsAuth.KeysAreAuthentic` | src/sptps.c:272-447 | in every run, whatever records arrive, a session sends and receives under a key only if it comes from one of its own exchanges and one it received, and a record received after that verified as the peer's signature over both |
| `SptpsAuth.NewKeysAreSigned` | src/sptps.c:319-447 | new keys are set, or sending under keys begins, by nothing but a record that verifies over the exchanges then pending |
| `SptpsAuth.NewInKeyIsAcknowledged` | src/sptps.c:272-290 | the incoming key changes only with the first signature, or with an empty acknowledgement |
| `SptpsAuth.SignaturesAreOwn` | src/sptps.c:208-224 | in every run a session signs only its role, one of its own exchanges, one it received and the label |
| `SptpsAuth.PeerAgrees` | src/sptps.c:227-264 | if no signature of the other end is forged, the keys a session has accepted come from an exchange the other end sent; it had received ours when it signed, and derives the same keys |
| `SptpsAuth.KeysAgree` | src/sptps.c:353-376 | so a session seals what it sends under the half of that key material which the other end takes for incoming records |
| `SptpsAuth.SendsOnly` | src/sptps.c:133-224 | nothing goes out but application records, exchanges, signatures and acknowledgements, in the clear until there are keys and then sealed under the key in use, each under the next number |
| `SptpsAuth.HandsUp` | src/sptps.c:670-705 | what is handed to the application was opened under the key and number due; besides it is told of finished exchanges |
| `SptpsStream.FeedConcat` | src/sptps.c:604-705 | how a stream is cut into pieces does not matter |
| `SptpsStream.FeedPartial` | src/sptps.c:616-668 | bytes short of a record are only collected |
| `SptpsStream.FeedRecord` | src/sptps.c:604-705 | the bytes of one record, cut anywhere, are handled as that record |
| `SptpsStream.BrokenStays` | src/sptps.c:604-705 | after an error nothing more is taken |
| `SptpsBytes.ArriveByte` | src/sptps.c:604-705 | each byte that arrives keeps the streams in step with the records |
| `SptpsBytes.StreamAgreement` | src/sptps.c:133-156 | agreement over byte streams cut in any way: printing and parsing records are inverse to each other |
| `Sptps.Sptps.Start` | src/sptps.c:708-754 | the session is as specified after its first exchange is sent |
| `Sptps.Sptps.SendRecordPriv` | src/sptps.c:133-156 | state and bytes sent are those specified |
| `Sptps.Sptps.SendRecord` | src/sptps.c:159-171 | application data is refused before the keys are there, and otherwise sent as specified |
| `Sptps.Sptps.SendKex` | src/sptps.c:174-194 | as specified |
| `Sptps.Sptps.SendSig` | src/sptps.c:208-224 | as specified |
| `Sptps.Sptps.ReceiveAck` | src/sptps.c:272-290 | as specified, errors included |
| `Sptps.Sptps.ReceiveKex` | src/sptps.c:293-316 | as specified, errors included |
| `Sptps.Sptps.ReceiveSig` | src/sptps.c:319-376 | as specified, errors included; what is specified is `SptpsAuth.SigAccepted` |
| `Sptps.Sptps.SwitchKeys` | src/sptps.c:353-376 | the outgoing cipher is switched as specified |
| `Sptps.Sptps.ForceKex` | src/sptps.c:379-386 | as specified |
| `Sptps.Sptps.ReceiveHandshake` | src/sptps.c:389-447 | as specified in every state |
| `Sptps.Sptps.HandleRecord` | src/sptps.c:670-705 | a complete record is decrypted, counted and handed on as specified |
| `Sptps.Sptps.ReceiveData` | src/sptps.c:604-705 | takes at least one byte or fails, and does what feeding these bytes one by one does |
| `Sptps.Sptps.ReceiveAll` | src/sptps.c:604-705 | the caller's loop does what feeding the whole piece does |
| `BitWindow.DistinctBits` | src/sptps.c:449-511 | numbers less than a window apart have different bits |
| `BitWindow.OtherBits` | src/sptps.c:449-511 | setting or clearing a bit leaves the others of the window alone |
| `ReplayWindow.NeverTwice` | src/sptps.c:449-511 | no number is accepted twice |
| `ReplayWindow.TimelyAccepted` | src/sptps.c:449-511 | numbers less than a window from the expected one are all accepted, in any order, if each comes once |
| `ReplayWindow.VerdictMeaning` | src/sptps.c:449-511 | below the wrap-around the computed verdict is the reference's |
| `ReplayWindow.ReplayExactly` | src/sptps.c:457-482 | before 2^32-1 has been accepted, some number accepted before is accepted again exactly if the next expected number is within a window of 2^32 and enough far-future packets have been counted |
| `ReplayWindow.AcceptedTwice` | src/sptps.c:449-511 | a run of a new window, of any size that fits, in which one number is accepted twice |
| `ReplayWindow.ReplayAfterWrap` | src/sptps.c:457-482 | right after it has been, when number 0 is expected, exactly if a number of the first window was accepted, or any was and enough far-future packets have been counted |
| `ReplayWindow.AcceptedAfterWrap` | src/sptps.c:449-511 | a run of a new window through 2^32-1 in which a number of the handshake is accepted again, with no far-future packet counted |
| `ReplayWindow.ReplayWindow.constructor` | src/sptps.c:708-754 | a new window refines a record of nothing but the numbers of the handshake |
| `ReplayWindow.ReplayWindow.Judge` | src/sptps.c:455-491 | the verdict, and the far-future count |
| `ReplayWindow.ReplayWindow.CheckSeqno` | src/sptps.c:449-511 | the verdict, position and count as computed, in every state; below the wrap-around verdict and new state are the reference's, also after a far-future jump; a dry run gives the same verdict and changes nothing |
| `LegacyWindow.AcceptedIsNew` | src/net_packet.c:512-543 | what is accepted is new and less than a window old |
| `LegacyWindow.NeverTwice` | src/net_packet.c:512-543 | between key resets no number is accepted twice |
| `LegacyWindow.TimelyAccepted` | src/net_packet.c:512-543 | numbers less than a window from the last one are all accepted, in any order, if each comes once |
| `LegacyWindow.VerdictMeaning` | src/net_packet.c:512-543 | below the wrap-around the computed verdict is the reference's |
| `LegacyWindow.ReplayExactly` | src/net_packet.c:512-543 | in every state of a window, some number accepted before is accepted again exactly if the last number is within a window of 2^32 and enough far-future packets have been counted, or it is 2^32-1 and number 0 has been accepted |
| `LegacyWindow.AcceptedTwice` | src/net_packet.c:512-543 | a run of a new window in which 2^32-2 is accepted twice |
| `LegacyWindow.AcceptedForEver` | src/net_packet.c:512-543 | a run in which, after 2^32-1, number 0 is accepted as often as it comes |
| `LegacyWindow.SoundReceived` | src/net_packet.c:536-538 | marking a number as received leaves no bit of the window that admits a number already accepted, wherever the sums have wrapped |
| `LegacyWindow.LegacyWindow.Reset` | src/protocol_key.c:385-391 | a key reset starts a new record |
| `LegacyWindow.LegacyWindow.Judge` | src/net_packet.c:512-535 | the verdict as computed, for all numbers, and below the wrap-around the bits of the numbers skipped |
| `LegacyWindow.LegacyWindow.CheckSeqno` | src/net_packet.c:512-543 | the verdict as computed, in every state; no bit ever admits a number already accepted; below the wrap-around verdict and new state are the reference's |
| `SplayShape.PlugInorder` | src/splay_tree.c:170-263 | filling a hole puts a subtree's nodes in their place in the sequence |
| `SplaySteps.LiftLeftShape` | src/splay_tree.c:195-200 | lifting a left child above its parent gives the rotated tree |
| `SplaySteps.LiftRightShape` | src/splay_tree.c:209-214 | the mirror image |
| `SplayBottomUp.ZigZigLeft` | src/splay_tree.c:194-207 | the links after a left zig-zig form the rotated tree |
| `SplayBottomUp.ZigZigRight` | src/splay_tree.c:208-221 | after a right zig-zig |
| `SplayBottomUp.ZigZagLeftRight` | src/splay_tree.c:222-235 | after a left-right zig-zag |
| `SplayBottomUp.ZigZagRightLeft` | src/splay_tree.c:236-250 | after a right-left zig-zag |
| `SplayBottomUp.Settle` | src/splay_tree.c:252-258 | hanging the node from the great-grandparent completes the step |
| `SplayRotate.StepUp` | src/splay_tree.c:173-260 | one pass brings the node up and keeps the sequence |
| `SplayRotate.SplayUp` | src/splay_tree.c:170-263 | the node becomes the root, the sequence and the list links stay |
| `SplayTopDown.CutRightSplit` | src/splay_tree.c:77-84 | moving the root to the right tree leaves three disjoint parts |
| `SplayTopDown.CutLeftSplit` | src/splay_tree.c:122-129 | the mirror image |
| `SplayTopDown.LiftLeftSplit` | src/splay_tree.c:46-58 | so does lifting the left child first |
| `SplayTopDown.LiftRightSplit` | src/splay_tree.c:91-103 | the mirror image |
| `SplayTopDown.MergeLeftShape` | src/splay_tree.c:139-147 | merging gives the root the whole left tree |
| `SplayTopDown.MergeRightShape` | src/splay_tree.c:149-157 | the mirror image |
| `SplaySearch.CutRightSearching` | src/splay_tree.c:42-86 | what goes right is after the key, and the sequence stays |
| `SplaySearch.CutLeftSearching` | src/splay_tree.c:87-131 | what goes left is before it |
| `SplaySearch.DescendLeft` | src/splay_tree.c:42-86 | one pass to the left keeps the search state |
| `SplaySearch.DescendRight` | src/splay_tree.c:87-131 | one pass to the right |
| `SplaySearch.Descend` | src/splay_tree.c:41-135 | the loop ends at a node with nothing left to search on the key's side |
| `SplaySearch.SearchEnds` | src/splay_tree.c:41-135 | that node is the neighbour of the key |
| `SplaySearch.SplayDown` | src/splay_tree.c:27-168 | the root is the equal element or the neighbour on the side the result tells; the sequence stays |
| `SplayList.ThreadedInsert` | src/splay_tree.c:480-488 | linking a node in threads the list through the longer sequence |
| `SplayList.ThreadedRemove` | src/splay_tree.c:558-568 | unlinking one threads it through the shorter |
| `SplayList.Locate` | src/splay_tree.c:170-173 | every node of a tree is somewhere in it, with its context |
| `SplayInsert.PutBeforeShape` | src/splay_tree.c:492-502 | the new root has the old one on its right |
| `SplayInsert.PutAfterShape` | src/splay_tree.c:530-540 | or on its left |
| `SplayInsert.ExciseLeftShape` | src/splay_tree.c:572-578 | hanging the right subtree from the predecessor gives a tree of the rest |
| `SplayTrees.SplayTree.constructor` | src/splay_tree.c:267-275 | an empty valid tree |
| `SplayTrees.SplayTree.BringUp` | src/splay_tree.c:170-263 | splaying keeps contents and shape |
| `SplayTrees.SplayTree.SearchClosest` | src/splay_tree.c:377-379 | the neighbour of the key, its comparison, and unchanged contents |
| `SplayTrees.SplayTree.SearchClosestNoSplay` | src/splay_tree.c:336-375 | the same without changing anything |
| `SplayTrees.SplayTree.Search` | src/splay_tree.c:327-334 | finds the key exactly if it is there |
| `SplayTrees.SplayTree.SearchClosestSmaller` | src/splay_tree.c:381-392 | the last element not after the key, or none |
| `SplayTrees.SplayTree.SearchClosestGreater` | src/splay_tree.c:394-405 | the first element not before the key, or none |
| `SplayTrees.SplayTree.Neighbours` | src/splay_tree.c:377-405 | next and prev lead to the neighbours in order |
| `SplayTrees.SplayTree.InsertTop` | src/splay_tree.c:462-467 | a tree of one node |
| `SplayTrees.SplayTree.InsertBefore` | src/splay_tree.c:469-505 | the contents have the node just before the position; tree, list, ends and count agree |
| `SplayTrees.SplayTree.InsertAfter` | src/splay_tree.c:507-543 | just after it |
| `SplayTrees.SplayTree.InsertNode` | src/splay_tree.c:437-460 | inserted in order exactly if no equal element is there |
| `SplayTrees.SplayTree.Insert` | src/splay_tree.c:409-435 | the same with a new node |
| `SplayTrees.SplayTree.UnlinkNode` | src/splay_tree.c:557-588 | the contents lack exactly that node; order, tree, list, ends and count agree |
| `SplayTrees.SplayTree.Unlink` | src/splay_tree.c:545-555 | removes the equal element, or nothing if there is none |
| `HashCaches.MaskIsModulo` | src/hash.h:40-42 | for the two table sizes masking is taking the remainder |
| `HashCaches.PutOther` | src/hash.h:43-56 | storing a key forgets at most the key of the slot it takes |
| `HashCaches.PutValid` | src/hash.h:43-56 | and keeps every live key the first match of its probes |
| `HashCaches.PutStale` | src/hash.h:43-56 | storing a cached key in an emptied slot before it leaves the former value behind |
| `HashCaches.Emptied` | src/hash.h:67-76 | deleting a key forgets that key and no other |
| `HashCaches.HashCache.Search` | src/hash.h:57-66 | what the cache knows |
| `HashCaches.HashCache.Insert` | src/hash.h:43-56 | the key is stored at the first of three probes whose slot is free or its own, or else at the fourth; the key in that slot is forgotten, and none if there is room in the first three; every live key stays the first match of its probes exactly if the key was not cached behind an emptied slot |
| `HashCaches.LeaveBehind` | src/hash.h:43-76 | a run of a new cache that leaves a value behind: two keys with one home, the first deleted, the second inserted again |
| `HashCaches.HashCache.Delete` | src/hash.h:67-76 | the key is not known, all others as before |
| `HashCaches.HashCache.Clear` | src/hash.h:77-80 | nothing is known |
| `Masks.BytesThenBits` | src/subnet_parse.c:32-50 | whole bytes and a masked one agree exactly if the bits do |
| `Masks.MaskCmp` | src/subnet_parse.c:32-50 | zero exactly if the first bits are the same |
| `Masks.MaskCheck` | src/subnet_parse.c:98-115 | true exactly if all further bits are zero |
| `Masks.Mask` | src/subnet_parse.c:52-66 | the first bits stay, the others are zero |
| `Masks.MaskCpy` | src/subnet_parse.c:68-85 | the first bits are copied, the others are zero |
| `Masks.CleanEqual` | src/subnet_parse.c:87-115 | clean addresses with the same prefix are equal |
| `Subnets.SubnetCheck` | src/subnet_parse.c:87-96 | true exactly for clean addresses |
| `Subnets.SubnetCompareZero` | src/subnet_parse.c:119-208 | zero exactly for equal entries and for an ownerless and an owned one that differ in nothing else, whatever the weights |
| `Subnets.FirstDifference` | src/subnet_parse.c:119-208 | kinds in the order MAC, IPv4, IPv6, then longer prefixes, then smaller addresses come first |
| `Subnets.SubnetCompareAntisymmetric` | src/subnet_parse.c:119-208 | swapping the entries negates the result exactly if they are not the same net with weights 2^31 apart |
| `Subnets.SubnetCompareTransitive` | src/subnet_parse.c:119-208 | on entries whose weights pairwise differ by less than 2^31 it is strictly transitive, clashes or not |
| `Subnets.SubnetCompareExactly` | src/subnet_parse.c:119-208 | not strictly, it is transitive exactly if no ownerless entry stands between two owned ones it clashes with in the wrong order |
| `Subnets.LighterFirst` | src/subnet_parse.c:119-208 | of two entries for one net the lighter comes first exactly if the difference of the weights fits in a signed 32-bit number |
| `Subnets.ClashIsNoOrder` | src/subnet_parse.c:119-208 | three such entries |
| `Subnets.ScanMeans` | src/subnet.c:267-279 | the scan finds the first live match, or else the last match, or nothing if there is none |
| `Subnets.LongestPrefixMatch` | src/subnet.c:267-279 | that is the longest prefix, then the lowest weight, then the least owner among the live matches, and otherwise the last in that order |
| `Subnets.ScanAll` | src/subnet.c:267-279 | the loop computes the scan |
| `Subnets.ScanWithout` | src/subnet.c:267-279 | an entry that does not match does not matter |
| `SubnetTables.TreeInsert` | src/subnet.c:194-204 | an entry is inserted in order unless an equal one is there; a clean entry with a comparable weight leaves an orderly table orderly, and is refused exactly if an equal or clashing one is there |
| `SubnetTables.SignsFall` | src/splay_tree.c:336-375 | along an orderly table an entry comes after some, is equal to some and comes before the rest, so that any search tree finds an equal one |
| `SubnetTables.TreeDelete` | src/subnet.c:206-214 | exactly the equal entry goes; a table in order stays so |
| `SubnetTables.OtherLookups` | src/subnet.c:166-190 | an entry for one address matters to no other address |
| `SubnetTables.SubnetTable.constructor` | src/subnet.c:132-137 | an empty table, in order, whose caches agree with it |
| `SubnetTables.SubnetTable.LookupIpv4` | src/subnet.c:256-288 | the result of the uncached scan, whatever is cached, and cached from then on; in an orderly table that is the longest-prefix match |
| `SubnetTables.SubnetTable.LookupIpv6` | src/subnet.c:290-322 | the same for IPv6 |
| `SubnetTables.SubnetTable.FlushTables` | src/subnet.c:159-164 | both caches are empty |
| `SubnetTables.SubnetTable.Flush` | src/subnet.c:166-190 | after a change of one entry both caches agree with the table again; the cache of the other kind stays, and for a single address so does everything else |
| `SubnetTables.SubnetTable.Add` | src/subnet.c:194-204 | the table has the entry, both caches agree with it, and adding a clean entry with a comparable weight keeps it orderly, whatever it clashes with |
| `SubnetTables.SubnetTable.Del` | src/subnet.c:206-214 | the table lacks the entry, both caches agree with it, and it stays orderly |
| `SubnetTables.SubnetTable.Graph` | src/graph.c:320-323 | reachability may change arbitrarily, both caches agree afterwards |
| `Checksum.FoldAll` | src/route.c:79-81 | adding carries back in is ones' complement normalisation |
| `Checksum.InetChecksum` | src/route.c:63-84 | the complement of the normalised sum, without overflow of 32 bits |
| `Checksum.Padded` | src/route.c:74-77 | an odd byte counts as if a zero byte followed |
| `Checksum.Chaining` | src/route.c:63-84 | carrying a checksum on to the next part is the checksum of the whole (section 2 of RFC 1071) |
| `Checksum.StoredIsCorrect` | src/route.c:606-609 | storing the checksum of a header makes it verify |
| `Checksum.Incremental` | src/route.c:351-363 | changing two fields by what cancels in ones' complement keeps the sum |
| `Ipv4.AgedIsCorrect` | src/route.c:351-363 | after the update a header checksum is as right or wrong as it was, whatever options follow |
| `Ipv4.AgedFields` | src/route.c:351-363 | nothing but the time to live and the checksum changes |
| `Ipv4.DecrementTtl` | src/route.c:328-388 | which packets travel on, the new time to live, the checksum, and that nothing else changes before a reply is made |
| `Ipv4.ClampCorrect` | src/route.c:465-486 | a right TCP checksum stays right exactly if the value is at an even offset or the two values agree modulo 257 |
| `Ipv4.ClampCorrectWithin` | src/route.c:465-486 | the same for a segment shorter than the buffer |
| `Ipv4.ClampedFields` | src/route.c:465-486 | the value is in its field, and nothing but that and the checksum has changed |
| `Ipv4.NewMssFits` | src/route.c:467 | a segment of the new size with its headers just fits the path MTU, exactly if the headers do |
| `Ipv4.TwoFolds` | src/route.c:479-484 | the two folds normalise the sum of three words |
| `Ipv4.FindTcp` | src/route.c:400-428 | the TCP header behind the VLAN, outer and inner headers, exactly if there is one within the packet |
| `Ipv4.MssOptionMeans` | src/route.c:437-463 | the walk finds an option exactly if skipping options that fit leads to it, it fits, is of kind 2, and the first option's length byte is 4 |
| `Ipv4.FindMss` | src/route.c:430-463 | the option the walk stops at, exactly if it is one to clamp |
| `Ipv4.ClampMss` | src/route.c:390-489 | exactly a larger value in the option found is replaced, with the checksum, and nothing else; with its headers the segment then just fits the MTU; if the value is at an even offset, as behind no other option, a right checksum stays right |
| `Ipv4.OddPacket` | src/route.c:437-463 | there is a packet whose options are one of kind 30, a NOP and a maximum segment size |
| `Ipv4.OddOptionsClamped` | src/route.c:437-486 | of any such packet the value at an odd offset is clamped, and a right checksum becomes wrong |
| `Ipv4.PseudoHeader` | src/route.c:465-486 | and some pseudo header makes it right before |
| `Fragments.CutIsPart` | src/route.c:600-617 | each piece is a part of the payload at its offset, and not too long |
| `Fragments.CutEnds` | src/route.c:600-617 | all but the last piece are full multiples of eight with more to follow; the last ends the payload with the datagram's own flag |
| `Fragments.CutLast` | src/route.c:600-617 | the offset of the last piece, as a formula in the length |
| `Fragments.FragmentReceived` | src/route.c:606-612 | a fragment has a right checksum and length, says which piece it is, up to 13 bits of offset, and has everything else of the header from the packet, addresses and the other flags included |
| `Fragments.FragmentIpv4` | src/route.c:570-618 | sends exactly the fragments of these pieces, each with the header of the packet but for length, place and checksum, and fitting the MTU, or none for options or a wrong length; what is received gives back the payload exactly if the offset of the last, computed from length, offset field and MTU, fits in 13 bits |
| `Fragments.FragmentFits` | src/route.c:594-617 | each fits the path MTU or 590 bytes |
| `Fragments.FragmentsReceived` | src/route.c:570-618 | so every fragment sent carries the packet's own header fields, and the receiver reads the pieces in order |
| `Fragments.ReassembleAny` | src/route.c:600-617 | pieces in any order, with repetitions, give back the payload (section 3.2 of RFC 791) |
| `Fragments.ReassemblyWorks` | src/route.c:570-618 | so do the fragments if the last offset fits its field |
| `Fragments.ReassemblyExactly` | src/route.c:570-618 | and only then; the condition is a formula in length, offset and size of the pieces |
| `Fragments.PacketReassembly` | src/route.c:570-618 | the fragments of a packet, received in any order and with repetitions, give back its payload exactly if the last offset fits |
| `Fragments.WithinReach` | src/route.c:570-618 | it does for every datagram that ends within the 65536 bytes offsets can reach |
| `Fragments.BeyondReach` | src/route.c:570-618 | a packet for which it does not |
| `Codecs.HexRoundTrip` | src/utils.c:58-80 | decoding undoes encoding |
| `Codecs.DigitsAre` | src/utils.c:48-57 | the sixteen digits in both cases and what they stand for |
| `Codecs.PairIs` | src/utils.c:58-67 | the first digit of a pair counts sixteen |
| `Codecs.OnlyDigits` | src/utils.c:62 | and nothing else is a digit |
| `Codecs.HexCase` | src/utils.c:48-67 | decoding does not depend on the case of letters |
| `Codecs.Hex2Bin` | src/utils.c:58-67 | the bytes of the digit pairs up to the first other character, also within one buffer |
| `Codecs.Bin2Hex` | src/utils.c:69-80 | the digits of all bytes, also within one buffer |
| `Codecs.Base64RoundTrip` | src/utils.c:82-187 | decoding undoes encoding for every length and both alphabets |
| `Codecs.Base64String` | src/utils.c:82-187 | also from a buffer that holds more |
| `Codecs.LettersAre` | src/utils.c:26-29 | the two alphabets |
| `Codecs.EncodedAt` | src/utils.c:140-187 | each three bytes are encoded by themselves, low bits first |
| `Codecs.DecodeFails` | src/utils.c:82-107 | decoding fails exactly for strings with a character of neither alphabet |
| `Codecs.B64Encode` | src/utils.c:140-187 | the encoded bytes, also within one buffer |
| `Codecs.B64Decode` | src/utils.c:82-120 | the decoded bytes or nothing, also within one buffer |

## Left out

- SsspBfs.SsspBfsWithin: with indirect edges a bound on the passes is a parameter, because the loop need not end there (SsspDiverges.NeverEnds); which graphs with indirect edges it ends on is not characterised.
- Daemons.Daemon.Graph: takes such a bound too, and so do the handlers that run it; with indirect two-way edges they promise the invariant if the search over the edges then there ends within it.
- Daemons.Daemon.Ack: for connections to other nodes, since id_h refuses the local node's own name; the weight that results is in the store's range.
- Daemons.Daemon.AddEdge: weights are from 2^31 consecutive values, which may start anywhere; bad and repeated messages are dropped before.
- EdgeStores.EdgeStore.Add: weights are from 2^31 consecutive values, which may start anywhere; with others the weight tree has no order to keep.
- EdgeStores.EdgeStore.Change: the same.
- Daemons.Daemon.DelEdge: repeated messages are dropped before.
- SubnetTables.TreeInsert: with weights that cannot be compared there is no order, and the place in the tree is not the source's.
- SubnetTables.SubnetTable.Add: the subnet trees of the owners are not kept.
- ReplayWindow.ReplayWindow.CheckSeqno: what the bitmap means once a number within a window of 2^32 has been accepted is not stated, only the verdict as computed.
- LegacyWindow.LegacyWindow.CheckSeqno: once a sum has wrapped, which skipped numbers are still admitted is not stated, only that none of them was accepted.
- Ipv4.DecrementTtl: the reply to a packet that may not travel further, which may be built in the same buffer, is not modelled; the contract speaks of the buffer before that.
- Ipv4.ClampMss: the decision whether to clamp and between which nodes is the caller's; the buffer has two bytes of slack behind the packet.
- Codecs.B64Decode: the table of values has signed characters.
- The subset of `splay_tree.c` that frees nodes and trees, and walking over all nodes.
- Broadcasting in direct mode.
- Agreement of SPTPS when sending or key generation fails, and rekeying over reordering datagrams.
- Lookups of MAC addresses, whose cache serves two kinds of lookup.
- Cryptographic primitives, sockets, devices, scripts, timers, path MTU probing, configuration and the text formats of messages and subnets.
- Messages that the handlers send, and what becoming reachable does to keys and addresses.
- Memory management.
