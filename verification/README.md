# Distance-vector router: routing-state engine

A Dafny model of the state machine at the heart of `akannan4_proj2.c`, a
single-process distance-vector router. The router keeps:

- a table of N servers, each with id, ip, port, route cost, next hop,
  `is_neighbor`, `is_alive` and a count of silent update intervals;
- the N x N cost matrix `adj_matrix`, whose row `my_id-1` is the router's own
  distance vector and whose other rows are the vectors last received from
  each server;
- its own id and the count of accepted update packets.

Every transition that changes this state is a pure function from state to
state:

| file | module | transition |
|---|---|---|
| `types.dfy` | `Types` | the state record, `USHRT_MAX` as `INF`, -1 as "no next hop", the `Valid` shape |
| `topology.dfy` | `Topology` | loading an already-parsed topology: server lines, matrix set-up, link lines, self route |
| `routing.dfy` | `Routing` | `bellman_ford`, as the loop the code runs and against a declarative reference |
| `codec.dfy` | `Codec` | `prepare_update_pkt` + `serialize_packet` (the 1000-byte datagram) and `process_pkt` |
| `liveness.dfy` | `Liveness` | `reset_skip_flag` and the timeout branch of the event loop (`Tick`) |
| `commands.dfy` | `Commands` | `disable`, `update` (without the broadcast that follows) and `packets` |
| `receiver.dfy` | `Receiver` | `deserialize_pkt`: row write, then recompute/count/reset for a live neighbor |
| `scenarios.dfy` | `Scenarios` | consequences spanning several transitions |

Conventions:

- **Types.** Costs and matrix cells are 16-bit values (`u16`). Addresses are
  opaque 32-bit values. Datagrams are sequences of bytes.
- **Ids.** Server ids are 1-based positions (`servers[i].id == i+1`), because
  the code indexes by `id-1` but compares next hops against `server_id`.
- **Undefined behaviour becomes a precondition.** Cases where the C code
  reads or writes out of bounds, or uses an uninitialised value, are
  excluded by preconditions rather than modelled:
  - a packet whose sender ip is unknown;
  - decoded ids outside 1..N;
  - command ids of 0 or below that the code uses as an index;
  - tables too big for the 1000-byte buffer.

How each transition is modelled:

- **Bellman-Ford** is written as the loop the code runs (`Step`, `Scan`,
  `RecomputeDest`, `Prefix`). It is then related to a declarative reference:
  - `Relaxed` is a poison-free relaxation. The result is minimal among the
    candidates and is the first one to reach that minimum.
  - `PoisonPending` says exactly when the poison fires: the current next hop
    advertises `USHRT_MAX`, and no earlier candidate improved the running
    minimum.

  Destinations are processed in index order. A later destination's scan
  sees costs the same pass has already rewritten, and the model keeps that
  order.
- **Order-independent loops** are written as the code's loop and proved
  equal, cell by cell and server by server, to a pointwise reference
  definition. These are the demotion loop of the tick and the clearing loop
  of `update ... inf`.

## Model

| member | source | states |
|---|---|---|
| Topology.ApplyLinks | akannan4_proj2.c:839-853 | after the link lines, each matrix cell holds the cost of the last link line through it (either direction) or its old value; each server named as `to` by some line is a neighbor reached directly from self at the last such line's cost, every other server is untouched |
| Topology.InitLoads | akannan4_proj2.c:798-858 | specifies `Topology.Init`: every cell equals the last configured link's cost, else 0 on the diagonal and USHRT_MAX off it (diagonal 0 when no link joins a server to itself); every server has its line's id/ip/port, starts alive with no skips, and is a neighbor exactly when a link names it as `to`; self has cost 0 and next hop my_id; every other server has the last link's cost with next hop my_id, or USHRT_MAX with no next hop |
| Routing.ScanRelaxes | akannan4_proj2.c:170-200 | with no poison pending, the code's inner loop yields the reference relaxation: not above the starting minimum or any candidate's wrapped sum, and either the start unchanged or the first live-neighbor candidate with a finite entry reaching the strict minimum (ties keep the earlier hop) |
| Routing.ScanPoisons | akannan4_proj2.c:174-180 | when the poison is pending, the scan's result is that of a fresh scan from (USHRT_MAX, no hop) starting just past the poisoned next hop |
| Routing.ScanOutcome | akannan4_proj2.c:162-205 | the whole scan of one destination is the reference relaxation from its current route, or from (USHRT_MAX, no hop) past the poisoned hop exactly when the poison is pending |
| Routing.Prefix | akannan4_proj2.c:162-207 | after the first d destinations: only row my_id-1 changed, only routes of destinations before d changed, identity and liveness fields are untouched, and each recomputed destination's cost equals its new row entry |
| Routing.BellmanFord | akannan4_proj2.c:153-210 | the pass writes only row my_id-1 and never its diagonal, leaves self's route and every non-route field unchanged, and leaves every other destination's cost equal to its new row entry |
| Routing.BellmanFordRoute | akannan4_proj2.c:162-207 | each destination's final route is the reference relaxation over the pass's input with the intermediates before it at their final cost (`Routing.PassView`), from its old route or, when the poison fires, from (USHRT_MAX, no hop) just past the old next hop |
| Routing.BellmanFordLowersUnlessPoisoned | akannan4_proj2.c:167-205 | each row entry other than self's ends no higher than it started, unless the poison fires for that destination |
| Codec.ParseEncodedEntry | akannan4_proj2.c:663-684 | reading back the 12 bytes of an encoded entry (big-endian ip, port, 2 padding bytes, id, cost) gives the entry |
| Codec.SerializeParse | akannan4_proj2.c:511-547 | a serialized packet of at most 1000 bytes parses back to the same header and entries |
| Codec.Prepare | akannan4_proj2.c:481-494 | the packet carries N, self's port and ip, and one entry per server in table order with its ip, port, id and self's current cost to it |
| Codec.Encode | akannan4_proj2.c:481-547 | the 1000-byte buffer reads back as N, self's port, self's ip, then per server its ip, port, two zero bytes, id j+1 and matrix[my_id-1][j], and every byte after the last entry is zero |
| Codec.SenderIndex | akannan4_proj2.c:649-653 | the sender is the last server whose ip matches, and -1 exactly when none matches |
| Codec.WriteRow | akannan4_proj2.c:663-688 | the entry loop changes only the sender's row; each column gets the cost of the last entry naming it and keeps its value when none does |
| Codec.ProcessPkt | akannan4_proj2.c:631-698 | decoding a packet rewrites row sender-1 column by column from its entries and touches neither the table, the counter nor any other row |
| Codec.ProcessPktIdempotent | akannan4_proj2.c:631-698 | decoding the same buffer twice leaves the state that decoding it once left |
| Codec.AdvertisementRoundTrip | akannan4_proj2.c:642-688 | a receiver that lists the same ips in the same order, with no server after the sender sharing its ip, and decodes this router's advertisement identifies it as the sender and ends up with the sender's own distance vector as that row, every other row unchanged |
| Liveness.ResetSkipFlag | akannan4_proj2.c:143-146 | only the named server's skip count changes, to 0 |
| Liveness.TickSpec | akannan4_proj2.c:995-1023 | specifies `Liveness.Tick`: after a timeout: every neighbor's count is one higher; a neighbor reaching exactly 3 is dead, no longer a neighbor, at USHRT_MAX with no next hop, and both matrix cells between it and self are USHRT_MAX; every other route through a demoted server is unreachable; every other cell and field is unchanged (no recomputation) |
| Liveness.TickClearsRoutesViaDemoted | akannan4_proj2.c:1003-1016 | after a timeout no server's next hop is a server demoted by it, and the demoted server is dead, not a neighbor and at USHRT_MAX in both directions |
| Liveness.TickKeepsNonNeighbors | akannan4_proj2.c:995-1023 | a non-neighbor that does not route through a demoted server comes out of a timeout unchanged |
| Liveness.SilentNeighborDemotedOnThirdTick | akannan4_proj2.c:995-1016 | a neighbor with count 0 is still a neighbor after one and after two silent timeouts and is demoted by the third |
| Commands.Disable | akannan4_proj2.c:362-386 | an id beyond the table gives "invalid" and a non-neighbor gives "not a neighbor", both with no change; otherwise the server stops being a neighbor and becomes unreachable, both cells between it and self become USHRT_MAX, and nothing else changes |
| Commands.DisableTwice | akannan4_proj2.c:368-371 | disabling the same server again is refused as "not a neighbor" and changes nothing |
| Commands.DisableKeepsLiveness | akannan4_proj2.c:375-379 | disable leaves the server's is_alive and skip count as they were |
| Commands.Refusal | akannan4_proj2.c:420-441 | an update is refused exactly unless neither id is past the table, one end is self, the ends differ and `to` is a neighbor; otherwise the first failing check, in the code's order, names the message: `from` past the table, `to` past the table, neither end self, a self link, `to` not a neighbor |
| Commands.UpdateLinkCost | akannan4_proj2.c:406-464 | a refused update returns its message and changes nothing; the update succeeds exactly when no check refuses it |
| Commands.UpdateSpec | akannan4_proj2.c:445-463 | a successful update, cell by cell and server by server: both link cells and `to`'s cost hold the new cost with next hop `from` (none for inf); after inf every other route through `to` is unreachable and the cells between `from` and that server are USHRT_MAX; everything else is unchanged |
| Commands.InfUpdateCutsRoutes | akannan4_proj2.c:445-463 | after `update ... inf`, `to` is at USHRT_MAX with no next hop, both link cells are USHRT_MAX, and no server routes through `to` |
| Commands.UpdateIdempotent | akannan4_proj2.c:406-464 | repeating a successful update succeeds again and changes nothing |
| Commands.Packets | akannan4_proj2.c:1050-1052 | `packets` reports the counter and resets it to 0, changing nothing else |
| Receiver.Receive | akannan4_proj2.c:709-726 | the counter grows by exactly one when the sender is alive and a neighbor and otherwise stays, a packet from any other sender changes only its row, and no address or liveness flag changes |
| Receiver.ReceiveAccepted | akannan4_proj2.c:714-721 | an accepted packet leaves the Bellman-Ford result of the row-written state, with the sender's skip count cleared and every other count unchanged |
| Receiver.ReceiveAcceptedRoutes | akannan4_proj2.c:714-721 | after an accepted packet only self's row differs from the row-written state, self's own entry is kept, and every other route's cost is its row entry |
| Receiver.ReceiveAllCounts | akannan4_proj2.c:709-726 | over any sequence of datagrams, the counter grows by the number whose sender was, initially, alive and a neighbor |
| Receiver.PacketsReportsAccepted | akannan4_proj2.c:1050-1052 | `packets` reports exactly the number of datagrams accepted since the previous `packets` |
| Receiver.HeardNeighborSurvivesTicks | akannan4_proj2.c:720 | a live neighbor heard from is still a live neighbor after the next two timeouts |
| Scenarios.InfLinkUndercutsByWrap | akannan4_proj2.c:192 | after `update self k inf`, k is still a live-neighbor candidate at route cost USHRT_MAX, and the 16-bit sum makes any destination k advertises at v (1 <= v < USHRT_MAX) look reachable at v-1 |

## Left out

- Socket set-up, the `select` loop, `recvfrom`/`sendto` and the per-neighbor
  send loop of `send_update_pkt` are network I/O. Only the buffer a
  broadcast sends (`Codec.Encode`) and the handling of one received buffer
  (`Receiver.Receive`) are modelled. The timer reset and the broadcast that
  end the timeout branch, and the broadcast after a successful `update`, are
  left out for the same reason.
- `get_my_ip_address` resolves the host's address through the OS. `my_id` is a
  parameter of `Topology.Init`, and the model requires it to lie in 1..N.
- Reading and tokenising the topology file, `getopt`, and the command parser
  `parse` are text I/O. Initialisation takes already-parsed server and link
  lines, and commands take already-converted arguments. For `update` the cost
  is `Finite(v)` or `Infinite`, standing for `inf`/`INF`. The `atoi` of an
  out-of-range cost is not modelled.
- Printing (`display_routes`, `print_*`, the response text) is console output.
  Responses are a datatype naming the message.
- The `crash` and `step` commands only close the socket or broadcast. Neither
  touches the routing state.
- Ip addresses are opaque 32-bit values. `inet_addr` and the byte order of
  the host are not modelled. The wire format is the big-endian layout that
  `htonl`/`htons` produce.
- `pktsReceived` is an unbounded natural number. The C counter is a signed
  int whose overflow is undefined.
- `skips` is an unbounded natural number. The C field is an int that can
  only reach 3 before its server stops being a neighbor and stops counting.
- Commands.Disable: an id of 0 or below is outside the precondition, since
  `disable` reads `servers[id-1]` without a lower-bound check.
- Commands.UpdateLinkCost: two cases are outside the precondition. The first
  is `to` of 0 or below with `from` equal to `my_id`: the neighbor check
  then reads `servers[to-1]` out of bounds. The second is an update that
  passes every check with `from` of 0 or below: the writes then index
  `adj_matrix[from-1]`. Every other non-positive id is refused as the code
  refuses it, by the check that comes first.
- Codec.ProcessPkt: a sender ip that matches no server, or an entry id
  outside 1..N, is outside the precondition. The C code then reads an
  uninitialised id or writes out of bounds.

Behaviour of the code worth knowing:

- The sender of a packet is found by its ip alone, and the last server with
  that ip wins. Two routers on one ip cannot be told apart: a packet from
  the earlier one is written to the later one's row.
- A poison throws away every candidate scanned before the poisoned next hop.
  The scan restarts from (USHRT_MAX, no hop) just past that hop
  (`Routing.ScanPoisons`). So a destination whose next hop now advertises
  USHRT_MAX can end up unreachable even though a live neighbor earlier in
  the table offers a finite route to it. The bound "own cost of d is at
  most matrix[k][d] + cost(k) for every live neighbor k" therefore does not
  hold after a pass.

- `disable` does not mark the server dead.
- The timeout branch does not rerun Bellman-Ford.
- A link configured with cost 65535 gives a neighbor whose cost is
  USHRT_MAX but whose next hop is self. So "no next hop exactly when the
  cost is USHRT_MAX" is not an invariant of the code, and the model does not
  assume it.
- The Bellman-Ford sum is a 16-bit value that wraps.
  `Scenarios.InfLinkUndercutsByWrap` shows a consequence of this.
