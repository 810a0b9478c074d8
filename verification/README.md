# Models of the port mapper, the intrusive list and the MAD library

This project models parts of an rdma-core tree and proves what they are relied on for. It
covers five components.

* **The iWARP port mapper daemon** (`iwpmd/`). Any number of daemons run a request / accept /
  acknowledge / reject protocol over a network that loses, duplicates and reorders datagrams.
  `iwpm_table.dfy` is the reference-counted table of mapped ports, `iwpm_requests.dfy` the
  list of outstanding requests and its sweep, `iwpm_wire.dfy` the message format,
  `iwpm_host.dfy` one daemon as a state with steps, `iwpm_daemon.dfy` the same daemon as a
  class whose handlers change its two lists in place, `iwpm_replies.dfy` what a host does with
  each message, `iwpm_protocol.dfy` the daemons with their network, `iwpm_duplicates.dfy`
  repeated answers, `iwpm_waiting.dfy` queries that still wait, `iwpm_rejects.dfy` what a
  reject rests on, `iwpm_messages.dfy` the messages kept for retransmission,
  `iwpm_history.dfy` what a run is for one host, `iwpm_completion.dfy` when the handshake
  gets through, `iwpm_acks.dfy` its third message, and `iwpm_wakeup.dfy` the timer thread and
  the main thread, instruction by instruction. A handler is split where it posts its request
  under the mutex, so that timer sweeps can come in between.
* **The intrusive list** (`ccan/list.h`, `ccan/list.c`): circular rings of nodes on the heap,
  and list heads as sequences of nodes (`ccan_list.dfy`, `ccan_list_ops.dfy`).
* **The MAD library** (`libibmad/`): the bit-field codec (`mad_bits.dfy`, `mad_fields.dfy`,
  `mad_codec.dfy`), the header builder and the responder (`mad_header.dfy`), what the packets
  they build hold (`mad_contents.dfy`), and the send-and-retry loop (`mad_rpc.dfy`). A byte is a sequence of eight bits, least significant
  first. The address of a bit counts bytes in the flipped order that `3 ^ idx` gives.
* **Integer logarithms** (`ccan/ilog.c`, `ccan/ilog.h`) on machine words (`ilog.dfy`), and
  **counter aggregation** (`infiniband-diags/perfquery.c`) on top of the codec
  (`perf_counters.dfy`).
* **The library graph** (`buildlib/sanitize_static_lib.py`): the symbol graph and its pruning
  (`lib_graph.dfy`), what its completed runs are (`lib_runs.dfy`), and a theory of finite
  directed graphs (`digraph.dfy`).

Code that changes things in place is modelled by classes, arrays and loops. Each method is
tied to a specification function, and the theorems are about that function.

## What is proved

1. **Agreement.** In every run, a success reported to a connecting client names the remote
   address the client asked for and the mapped address the answering host held in its table
   when it answered; an incoming connection is reported with the addresses of the query that
   caused it; the two reports for one answer agree; and a reject is reported only if the host
   that owns the remote address had no port for it when the request arrived. From every
   reachable state an undisturbed handshake ends in these reports if and only if no answer
   with its handle is outstanding, and its acknowledgement ends all retransmission.
2. **At most once.** In every run, each query is reported to its client at most once, and
   afterwards no answer with its handle does more than repeat the acknowledgement. As long
   as it waits, any accept or reject that gets through to its port reports it, and an accept
   is acknowledged.
3. **The table.** After every history of client operations, and in every run, no two ports
   conflict, every object is linked once or freed once, and the reference counts add up to
   acquisitions minus releases. A new port has the owner, the local address and the mapped
   address it was asked and granted for.
4. **Requests.** In every run, the message of an unanswered request is put on the network
   again by exactly its second to tenth sweep, and the request is gone at the eleventh; once
   a message has found a request, it is not sent again. In every interleaving of the two
   threads no wakeup is lost.
5. **Lists.** The consistency check terminates on every heap closed under `next` and accepts
   exactly the rings. The list operations are edits of a sequence.
6. **The codec.** Fields read back what was written. When a field leaves the other bits
   alone, and when it is read right, is stated as an if-and-only-if in terms of its offset
   and length. Writes to disjoint fields commute.
7. **Packets and responses.** Every field of a built packet, and its payload, reads back.
   Responses pair with their requests, carry their payload and the status given, and are
   taken for the answer. The retry loop is answered exactly by the first good reception
   before a failure or the last retry.
8. **Logarithms, counters, graph.** All forms of the logarithm agree. Aggregated counters
   are capped exact sums in any port order and survive re-encoding. The pruned graph is the
   unique transitive reduction, whatever the iteration order, and the computation can
   complete if and only if the graph has no cycle.

## Where the code does not do what one might expect

* A zero handle defeats the suppression of repeated requests, because the stored entry gets
  another handle (`IwpmHost.RepeatedRequest`).
* Outstanding answers are told apart by handle and mapped address, not by sender. A request
  of another host that happens to have the same handle is taken for a repetition and passed
  over without answer or reject (`IwpmCompletion.OtherHostIsIgnored`, and
  `IwpmCompletion.IgnoredInARun` for a run in which it happens). The exact condition for an
  answer is `IwpmHost.RequestAnsweredIff`.
* A query is done as soon as an accept has found it, even if its client cannot be told: the
  report is then lost for good (`IwpmWaiting.UndeliveredIsLost`).
* Searches for mapped addresses, and searches for a wildcard, depend on the order of the
  list if several ports match (`IwpmTable.LookupIgnoresOrder`; `IwpmTable.TwoCandidates` is
  such a table).
* `_set_field` does not mask the last byte. Bits outside of a well-formed field survive if
  and only if no bit of the value spills (`MadCodec.FrameExact`). The status field of
  direct-route packets does spill (`MadCodec.StatusSpills`), which the header builder repairs
  by its next write (`MadCodec.DirectionRepairs`). A field that is not well formed overwrites
  its successors even with values in range (`MadCodec.FrameNeedsShape`), while it is read
  right, and reads back what was written, exactly when it is 32 bits long
  (`MadCodec.GetExact`, `MadCodec.RoundTripExact`; `MadCodec.IllFormedField` is one).
* `list_swap` on a node that is alone does not replace it: both end up in one ring
  (`CcanListOps.Swap`).
* A response to a request with transaction ID zero has a new transaction ID
  (`MadHeader.ResponsePairs`) and is not taken for its answer, unless the new one has no low
  bits either (`MadRpc.ResponseMatches`).
* QP1Dropped and VL15Dropped are decoded from the same bits (`PerfCounters.RowAddresses`).
  Both still decode to their own aggregates after output, as these are equal
  (`PerfCounters.OutputReadsBack`).
* On a symbol graph with a cycle `compute_graph` never completes (`LibGraph.EndsIffAcyclic`;
  `LibGraph.MutualNeed` is the smallest one).
* The comment on `create_iwpm_map_request` calls the handle unique per host. It is the
  address of the request object, so this holds while no address is used again. The protocol
  model takes handles to be nonzero and new for each query of a host.

## Model

| member | source | states |
|---|---|---|
| IwpmTypes.SameAddrIff | iwpmd/iwarp_pm_helper.c:350-384 | two addresses are the same if and only if the bytes that count for their family agree; an equivalence on supported families; a wildcard is the same as the zero address |
| IwpmWire.ParseForm | iwpmd/iwarp_pm_common.c:379-438 | parsing a formed message gives back every parameter that travels; only a request carries the mapped connecting address |
| IwpmWire.FormParse | iwpmd/iwarp_pm_common.c:379-438 | forming a parsed message reproduces it if and only if it is a request or has no stray mapped address in it |
| IwpmWire.WireLayout | iwpmd/iwarp_pm_common.c:420-438 | version, type and IP version share the first byte at bits 6, 4 and 0, and every other parameter has its own field |
| IwpmTable.Find | iwpmd/iwarp_pm_helper.c:394-438 | the first port that matches, or none if no port does, for both lookups |
| IwpmTable.HitIsConflict | iwpmd/iwarp_pm_helper.c:394-413 | the loose search for the address of a port finds exactly what conflicts with it |
| IwpmTable.AddKeeps | iwpmd/iwarp_pm_server.c:338-398 | adding keeps the table invariant, changes the reference total by one exactly when it succeeds, and leaves the ports exactly as they were when it fails |
| IwpmTable.QueryKeeps | iwpmd/iwarp_pm_server.c:447-531 | the same for a query; a port it acquires is no wildcard and has the address asked for, if that is concrete |
| IwpmTable.RemoveKeeps | iwpmd/iwarp_pm_server.c:559-575 | removing keeps the invariant and takes one reference away only for the owner |
| IwpmTable.MapInfoKeeps | iwpmd/iwarp_pm_server.c:925-946 | mapping info keeps the invariant; a duplicate changes nothing |
| IwpmTable.AddOutcome | iwpmd/iwarp_pm_server.c:338-355 | a mapping is refused as a duplicate if and only if a port in its way is not the same wildcard; what is acquired has the address asked for |
| IwpmTable.QueryOutcome | iwpmd/iwarp_pm_server.c:447-462 | for a concrete address, a query whose request can be posted gets a port if and only if no wildcard holds the TCP port and a port matches or one is granted |
| IwpmTable.RemoveOutcome | iwpmd/iwarp_pm_server.c:559-575 | a mapping is released if and only if the client owns a port with this address; the object is freed exactly with its last reference, and no other port changes |
| IwpmTable.MapInfoOutcome | iwpmd/iwarp_pm_server.c:925-946 | for a concrete address, mapping info is ignored if and only if the table has exactly this mapping, and refused if and only if it has another one in its way |
| IwpmTable.AddMaps | iwpmd/iwarp_pm_helper.c:278-298 | where no port is in the way, a mapping fails if and only if none is granted or the reply cannot be sent; else the client owns a new port, first in the list, mapped to its IP address with the granted TCP port, or to itself if it is not to be mapped |
| IwpmTable.QueryMaps | iwpmd/iwarp_pm_server.c:447-531 | the same for a query, which is refused a wildcard |
| IwpmTable.MapInfoMaps | iwpmd/iwarp_pm_helper.c:306-331 | a reopened port belongs to the client and has the mapped address it names, with the granted TCP port; it fails if and only if the families differ or none is granted |
| IwpmTable.SharedMapping | iwpmd/iwarp_pm_server.c:338-344 | a second client of a wildcard mapping, or a query from the address of a port, shares that port: one reference more is all that changes |
| IwpmTable.FinishWithLinked | iwpmd/iwarp_pm_server.c:383-389 | taking a reference on a linked port and giving it back restores the table; the object is not freed |
| IwpmTable.FinishWithFresh | iwpmd/iwarp_pm_helper.c:337-344 | a fresh port is linked on success and freed, once, on failure |
| IwpmTable.TableSafety | iwpmd/iwarp_pm_server.c:314-578 | after any history no two ports conflict, every object ever created is either linked once or freed once, and the references are the acquisitions minus the releases |
| IwpmTable.ApplyPersists | iwpmd/iwarp_pm_server.c:314-578 | no operation changes a port other than in its reference count, and new ports have new identities |
| IwpmTable.UniqueCandidate | iwpmd/iwarp_pm_helper.c:394-413 | a concrete address has at most one candidate in the table |
| IwpmTable.LookupIgnoresOrder | iwpmd/iwarp_pm_helper.c:394-438 | the answer of a lookup is the same port in every order of the list if and only if at most one port matches, which every exact search for a local address and every search for a concrete local address guarantees |
| IwpmTable.TwoCandidates | iwpmd/iwarp_pm_helper.c:394-413 | two added ports with one TCP port both answer a search for the wildcard |
| IwpmRequests.FindReq | iwpmd/iwarp_pm_helper.c:125-160 | the first request with this handle, address and one of these kinds, or none if there is none |
| IwpmRequests.SweepPair | iwpmd/iwarp_pm_server.c:115-138 | every survivor of a sweep is an older request one tick later, and survivors keep their order |
| IwpmRequests.ResentPair | iwpmd/iwarp_pm_server.c:115-123 | requests are chosen for retransmission in list order |
| IwpmRequests.ResentOnce | iwpmd/iwarp_pm_server.c:115-138 | a sweep chooses each request for retransmission at most once |
| IwpmRequests.RequestLife | iwpmd/iwarp_pm_helper.c:48-160 | in every history: timeouts stay within 0 and 10, a completed request has timeout 0 and is no acknowledgement, exactly acknowledgements have no message, and the record of each request fits its age |
| IwpmRequests.UnansweredRequest | iwpmd/iwarp_pm_server.c:115-138 | a request no update has found is still listed after ten sweeps, gone after eleven, and was chosen for retransmission exactly nine times |
| IwpmRequests.RenewedEntry | iwpmd/iwarp_pm_helper.c:146-149 | an acknowledgement entry is listed exactly through the ten sweeps after it was last found |
| IwpmRequests.AnsweredStaysQuiet | iwpmd/iwarp_pm_server.c:117-131 | completed requests and acknowledgements are never chosen again |
| IwpmHost.SweepSendsIff | iwpmd/iwarp_pm_server.c:115-123 | a sweep sends a message if and only if it is kept by a request that is no acknowledgement and has a timeout between 0 and 10 |
| IwpmHost.ResendHasMessage | iwpmd/iwarp_pm_server.c:118-122 | every request that is sent again has a message to send |
| IwpmHost.RequestAnsweredIff | iwpmd/iwarp_pm_server.c:653-705 | with memory, a request is answered if and only if a port serves the address and no answer with its handle and mapped address is outstanding, whoever asked; otherwise the state stays as it is |
| IwpmHost.RepeatedRequest | iwpmd/iwarp_pm_server.c:674-683 | as long as the entry of an answer is listed and its port serves the address, a request with the same handle for the same address, from whatever host, is passed over; with a zero handle it is answered anew |
| IwpmReplies.RequestRejected | iwpmd/iwarp_pm_server.c:653-663 | a request for an address no port serves is rejected to its sender and changes nothing |
| IwpmReplies.RequestAccepted | iwpmd/iwarp_pm_server.c:664-716 | a request that is served, with no answer outstanding, is accepted to its sender with the mapped address, the accept is kept for retransmission, and the client is told if the accept could be sent |
| IwpmReplies.RequestPassedOver | iwpmd/iwarp_pm_server.c:674-702 | with an answer outstanding, or without memory, nothing happens |
| IwpmReplies.QueryAsks | iwpmd/iwarp_pm_server.c:464-517 | a query that gets a port is posted with its client message, and its request, with remote, local and mapped address, goes to the host of the remote; one that gets none only changes the table |
| IwpmReplies.AcceptAnswers | iwpmd/iwarp_pm_server.c:746-796 | an accept for a waiting query completes it in any case, reports it if the client can be told, and, with memory, is remembered and acknowledged to its sender |
| IwpmReplies.AcceptRepeats | iwpmd/iwarp_pm_server.c:762-768 | an accept that was acknowledged before is acknowledged again and its entry renewed; one for a completed query is passed over |
| IwpmReplies.RejectAnswers | iwpmd/iwarp_pm_server.c:824-851 | a reject for a waiting query completes it and reports it if the client can be told |
| IwpmReplies.UnawaitedAnswer | iwpmd/iwarp_pm_server.c:747-760 | an accept or reject without port or request changes nothing |
| IwpmReplies.AckEnds | iwpmd/iwarp_pm_server.c:861-882 | an acknowledgement completes the accept it is for if and only if a port is mapped to the address the accept gave, and does nothing else |
| IwpmReplies.UnmatchedAck | iwpmd/iwarp_pm_server.c:877-881 | an acknowledgement without open accept changes nothing |
| IwpmReplies.DoneIsGone | iwpmd/iwarp_pm_server.c:131-133 | a completed request is gone after the next sweep |
| IwpmProtocol.RequestHandler | iwpmd/iwarp_pm_server.c:640-716 | a delivered request keeps the invariant of the run: what is posted, sent and reported rests on a recorded query addressed to this host |
| IwpmProtocol.AcceptOrigin | iwpmd/iwarp_pm_server.c:735-796 | an accept that arrives was decided on by its sender for a query of this host |
| IwpmProtocol.AcceptHandler | iwpmd/iwarp_pm_server.c:735-796 | a delivered accept keeps the invariant; what it reports rests on the answer it carries |
| IwpmProtocol.RejectEffect | iwpmd/iwarp_pm_server.c:806-855 | a delivered reject keeps the invariant; what it reports is a query of this host, with the addresses of that query |
| IwpmProtocol.QueryHandler | iwpmd/iwarp_pm_server.c:418-531 | a query keeps the invariant and is recorded with the port it was given |
| IwpmProtocol.SweepChange | iwpmd/iwarp_pm_server.c:115-138 | a sweep keeps the invariant, also between a handler's search and its post; all it sends was decided on before |
| IwpmProtocol.InvStep | iwpmd/iwarp_pm_server.c:1245-1291 | every step of the daemons and the network keeps the invariant |
| IwpmProtocol.ReportSpends | iwpmd/iwarp_pm_server.c:735-855 | a step reports at most one query, one that was waiting before and is not afterwards |
| IwpmProtocol.AtMostOneReport | iwpmd/iwarp_pm_server.c:735-855 | in every run no query is reported twice, be it as success or as reject |
| IwpmProtocol.OneAcceptEntry | iwpmd/iwarp_pm_server.c:671-715 | no reachable request list has two accept entries for one handle and mapped local address |
| IwpmProtocol.ReachableHosts | iwpmd/iwarp_pm_helper.c:278-463 | in every reachable state of every host the table invariant holds and every request is in good order |
| IwpmProtocol.AnswersHappened | iwpmd/iwarp_pm_server.c:653-706 | each recorded answer belongs to a step in which that host received that request while the port was in its table |
| IwpmProtocol.HandshakeAgreement | iwpmd/iwarp_pm_server.c:735-796 | a reported success belongs to a query of this host, names the remote asked for and the mapped address the host owning it held when it decided on an answer to that very query, and the local mapping of the query if that was kept |
| IwpmProtocol.IncomingAgreement | iwpmd/iwarp_pm_server.c:693-716 | a reported incoming connection answers a query addressed to this host and names its local and mapped addresses and a port of the table that matches the address asked for |
| IwpmProtocol.BothEndsAgree | iwpmd/iwarp_pm_server.c:640-796 | the accepting side was told the local and mapped addresses the connecting side was told, for a concrete local address of the remote's family and a mapping kept until the answer; and if both reports rest on one answer, the connecting side was told the mapped address of the port the accepting side reports |
| IwpmDuplicates.StepKeepsBoth | iwpmd/iwarp_pm_server.c:418-882 | every step keeps at most one query per handle and host, and no step lets a handle that was answered wait for an answer again |
| IwpmDuplicates.ReportQuiets | iwpmd/iwarp_pm_server.c:735-855 | a report leaves no query with its handle waiting |
| IwpmDuplicates.ReportedStaysQuiet | iwpmd/iwarp_pm_server.c:735-855 | in every run, once a query has been reported, every accept with its handle, from whatever host, reports nothing, leaves the table alone and at most repeats the acknowledgement, and every reject with it changes nothing at all |
| IwpmWaiting.AcksStayQuiet | iwpmd/iwarp_pm_server.c:782-790 | every step keeps that acknowledgement entries only exist for handles no query waits for |
| IwpmWaiting.WaitingIsReported | iwpmd/iwarp_pm_server.c:735-796 | in every run, whenever a query waits, with a concrete local address of the remote's family, the delivery of any accept with its handle reports exactly this query as connected, if and only if a port with its local address is still in the table |
| IwpmWaiting.WaitingIsAcknowledged | iwpmd/iwarp_pm_server.c:782-792 | in every run, an accept that reports a waiting query is acknowledged to its sender by the post that follows, if there is memory |
| IwpmWaiting.RejectOrigin | iwpmd/iwarp_pm_server.c:653-663 | a reject that arrives was sent by the host a query of this host was issued to and carries the addresses of that query |
| IwpmWaiting.RejectIsReported | iwpmd/iwarp_pm_server.c:806-851 | in every run, whenever a query waits, with a concrete local address of the remote's family, the delivery of any reject with its handle reports exactly this query as rejected, if and only if a port with its local address is still in the table |
| IwpmWaiting.UndeliveredIsLost | iwpmd/iwarp_pm_server.c:752-781 | in every run, if an accept finds a waiting query and its client cannot be told, no later accept or reject reports it |
| IwpmRejects.RejectsHappened | iwpmd/iwarp_pm_server.c:653-663 | every reject on the network was caused by the delivery of a request that no port served |
| IwpmRejects.RejectAgreement | iwpmd/iwarp_pm_server.c:806-851 | in every run, a reported reject belongs to a query of this host and names the remote asked for, and the host owning it had no port for that address when it received the request |
| IwpmMessages.OwnStep | iwpmd/iwarp_pm_helper.c:48-82 | every step keeps that each request has its own message: type, handle and, for an accept, address |
| IwpmMessages.MessagesInRun | iwpmd/iwarp_pm_server.c:502-513 | in every run, a query keeps the request to the host it was issued for, and no two requests of a host keep the same message |
| IwpmMessages.SentOnce | iwpmd/iwarp_pm_server.c:115-123 | a sweep sends the message of a request once if it is chosen, and else not at all |
| IwpmAcks.AckAnswers | iwpmd/iwarp_pm_server.c:792 | an acknowledgement that arrives is for an answer this host gave to its sender, with the mapped address of that answer |
| IwpmAcks.AckIsHeeded | iwpmd/iwarp_pm_server.c:861-882 | in every run, an acknowledgement for an open accept completes it if and only if a port is mapped to the address the accept gave; it sends and reports nothing |
| IwpmAcks.AckIsFinal | iwpmd/iwarp_pm_server.c:861-882 | in every run, no sweep sends an acknowledged accept again |
| IwpmHistory.TableIsHistory | iwpmd/iwarp_pm_server.c:314-578 | in every run, the table of a host is the history of the table operations its clients asked for |
| IwpmHistory.ReferencesInRun | iwpmd/iwarp_pm_server.c:314-578 | in every run, the references in a host's table are the acquisitions minus the releases, and no two ports conflict |
| IwpmHistory.ListIsHistory | iwpmd/iwarp_pm_helper.c:88-160 | in every run, the request list of a host is the history of its posts, of the updates by messages and of its sweeps |
| IwpmHistory.UnansweredInRun | iwpmd/iwarp_pm_server.c:115-138 | in every run, a request that no message finds is listed through exactly ten sweeps of its host, and, but for acknowledgement entries, these sweeps send its message exactly nine times |
| IwpmHistory.SentBySweep | iwpmd/iwarp_pm_server.c:115-138 | in every run, the message of a query or accept that no message finds is among what a sweep puts on the network if and only if it is the second to tenth one since the post |
| IwpmHistory.FoundStaysQuiet | iwpmd/iwarp_pm_helper.c:146-154 | in every run, once a message has found a request, no sweep sends it again |
| IwpmHistory.RenewedInRun | iwpmd/iwarp_pm_helper.c:146-149 | in every run, an acknowledgement entry is listed through exactly ten sweeps after an accept has found it last |
| IwpmHistory.AtMostNineTimes | iwpmd/iwarp_pm_server.c:115-138 | in every run, the sweeps of a host send the message of a request at most nine times |
| IwpmCompletion.AcceptFinds | iwpmd/iwarp_pm_server.c:746-759 | an accept for the address asked from finds the port and the request of that query again |
| IwpmCompletion.HandshakeCompletes | iwpmd/iwarp_pm_server.c:418-796 | from every state that satisfies the invariant, a query, its request and the accept for it, undisturbed, are possible and lead to one report at either host if and only if the accepting host has no answer outstanding with this handle and mapped address; if it has one, the request changes nothing |
| IwpmAcks.HandshakeSettles | iwpmd/iwarp_pm_server.c:418-882 | from every state that satisfies the invariant, with no answer outstanding, seven undisturbed steps lead from the query to its acknowledgement, which completes the accept if and only if its address is that of a mapped port, as it is for a wildcard and for a port of the family asked for |
| IwpmCompletion.OtherHostIsIgnored | iwpmd/iwarp_pm_server.c:674-683 | when two hosts ask for one address with one handle, the request that comes after the answer to the other changes nothing |
| IwpmCompletion.IgnoredInARun | iwpmd/iwarp_pm_server.c:674-683 | a run of three hosts in which this happens |
| IwpmDaemon.Daemon.constructor | iwpmd/iwarp_pm_helper.c:36 | both lists start empty |
| IwpmDaemon.Daemon.FindMapping | iwpmd/iwarp_pm_helper.c:394-413 | the loop finds the first port with the same TCP port and the same or a wildcard address |
| IwpmDaemon.Daemon.FindSameMapping | iwpmd/iwarp_pm_helper.c:423-438 | the loop finds the first port with the same address |
| IwpmDaemon.Daemon.UpdateMapRequest | iwpmd/iwarp_pm_helper.c:125-160 | the first matching request is copied as it was and, if asked for and incomplete, updated; the list is otherwise unchanged |
| IwpmDaemon.Daemon.AddMappedPort | iwpmd/iwarp_pm_helper.c:337-344 | performs the linking step of the table model |
| IwpmDaemon.Daemon.GiveBack | iwpmd/iwarp_pm_server.c:383-389 | performs the give-back step of the table model |
| IwpmDaemon.Daemon.ProcessAddMapping | iwpmd/iwarp_pm_server.c:338-398 | refines the add operation of the table model, outcome included |
| IwpmDaemon.Daemon.ProcessQueryMapping | iwpmd/iwarp_pm_server.c:447-531 | refines the query step of the host model and the post that ends it |
| IwpmDaemon.Daemon.FinishQuery | iwpmd/iwarp_pm_server.c:458-531 | with a port at hand: the table outcome, and a request posted and sent exactly if the port is acquired |
| IwpmDaemon.Daemon.ProcessRemoveMapping | iwpmd/iwarp_pm_server.c:559-575 | refines the remove operation of the table model |
| IwpmDaemon.Daemon.ProcessMapInfo | iwpmd/iwarp_pm_server.c:925-946 | refines the mapping info operation of the table model |
| IwpmDaemon.Daemon.ProcessWireRequest | iwpmd/iwarp_pm_server.c:640-716 | refines the request step of the host model |
| IwpmDaemon.Daemon.ProcessWireAccept | iwpmd/iwarp_pm_server.c:735-796 | refines the accept step of the host model |
| IwpmDaemon.Daemon.FinishAccept | iwpmd/iwarp_pm_server.c:768-796 | with the request at hand: refines the part of the accept step that reports, posts and acknowledges |
| IwpmDaemon.Daemon.ProcessWireReject | iwpmd/iwarp_pm_server.c:806-855 | refines the reject step of the host model |
| IwpmDaemon.Daemon.ProcessWireAck | iwpmd/iwarp_pm_server.c:861-882 | refines the acknowledgement step of the host model |
| IwpmDaemon.Daemon.SweepRequests | iwpmd/iwarp_pm_server.c:115-138 | the loop that deletes while it iterates ages, resends and drops exactly the requests the sweep of the model does, in list order |
| IwpmWakeup.WakeStep | iwpmd/iwarp_pm_server.c:95-142 | every instruction of either thread keeps the wakeup invariant |
| IwpmWakeup.NoLostWakeup | iwpmd/iwarp_pm_helper.c:88-96 | in every interleaving a blocked timer thread has an empty list, or a signal is pending or about to be sent by the holder of the mutex; the threads exclude each other |
| IwpmWakeup.SweepComes | iwpmd/iwarp_pm_server.c:100-138 | from every such state with a request on the list the timer thread gets to a sweep of that list by moves of its own, each of them possible |
| IwpmWakeup.Nearer | iwpmd/iwarp_pm_server.c:100-138 | while there are requests, every move of the timer thread brings the sweep nearer, and the main thread neither puts it off nor takes a request away |
| IwpmWakeup.PostedIsSwept | iwpmd/iwarp_pm_server.c:100-138 | in every run and whatever the main thread does, the timer thread makes at most eleven moves before it sweeps, as the model of the sweep says, a list that still has all the requests, and until then it can move unless the main thread is in its critical section and can move itself |
| IwpmWakeup.PostIsAtomic | iwpmd/iwarp_pm_helper.c:88-96 | in every run, when the main thread has left its critical section, the list is what it was with the new request in front |
| CcanList.Node.constructor | ccan/list.h:155-158 | an initialised node is a ring of its own |
| CcanList.CheckNode | ccan/list.c:20-36 | terminates on every heap closed under `next`, whatever `prev` holds, and returns the node if and only if the nodes reached from it form a ring |
| CcanList.NotOnRing | ccan/list.c:26-33 | a wrong `prev` at the end of the chain visited so far rules out every ring |
| CcanList.RingIffInverse | ccan/list.c:20-36 | on a finite heap closed under `next`, a node lies on a ring if and only if `prev` undoes `next` at every node reached from it |
| CcanListOps.AddAfter | ccan/list.h:178-188 | the ring with the node inserted after the given one |
| CcanListOps.AddBefore | ccan/list.h:227-237 | the ring with the node inserted before the given one |
| CcanListOps.Del | ccan/list.h:324-333 | the ring without the node, which keeps its links; a lone node is unaffected |
| CcanListOps.DelInit | ccan/list.h:350-354 | the ring without the node, and the node as a ring of its own |
| CcanListOps.Swap | ccan/list.h:405-417 | the ring with the node replaced; for a lone node, a ring of both |
| CcanListOps.SewLast | ccan/list.h:644-651 | four assignments join two rings, one behind the other |
| CcanListOps.SewBehind | ccan/list.h:676-683 | four assignments join two rings, one before the other |
| CcanListOps.SewFirst | ccan/list.h:676-683 | so one ring comes after the first node of the other |
| CcanListOps.MoveLast | ccan/list.h:644-656 | the same without the second head, which becomes a ring of its own |
| CcanListOps.MoveFirst | ccan/list.h:676-688 | the same without the second head, which becomes a ring of its own |
| CcanListOps.ListHead.constructor | ccan/list.h:143-146 | an initialised head has no entries |
| CcanListOps.ListHead.Empty | ccan/list.h:267-271 | true exactly for a list without entries |
| CcanListOps.ListHead.Top | ccan/list.h:451-456 | the first entry, or null |
| CcanListOps.ListHead.Tail | ccan/list.h:503-508 | the last entry, or null |
| CcanListOps.ListHead.Add | ccan/list.h:204-209 | the entry comes first |
| CcanListOps.ListHead.AddTail | ccan/list.h:250-255 | the entry comes last |
| CcanListOps.ListHead.Remove | ccan/list.h:324-333 | the entries without this one, in order |
| CcanListOps.ListHead.Replace | ccan/list.h:405-417 | an entry of a list is always replaced in place |
| CcanListOps.ListHead.Pop | ccan/list.h:475-484 | takes the first entry off, or returns null on an empty list |
| CcanListOps.ListHead.Append | ccan/list.h:640-656 | the entries of the other list follow, in order, and the other list is empty, also when either was |
| CcanListOps.ListHead.Prepend | ccan/list.h:672-688 | the entries of the other list come first, in order, and the other list is empty, also when either was |
| CcanListOps.ForEachSafe | ccan/list.h:698-706 | a loop that deletes some of its current nodes visits every original entry once, in order, and leaves exactly the others |
| MadFields.SetField | libibmad/fields.c:1051-1081 | the in-place byte loop writes the bits of the specification, including those that spill from the last byte |
| MadFields.SetSpan | libibmad/fields.c:1067-1081 | the general branch: partly used first byte, whole bytes, partly used last byte |
| MadFields.OneByteBranch | libibmad/fields.c:1060-1065 | the single-byte branch changes the bits of the field and no other |
| MadFields.WriteBytes | libibmad/fields.c:1073-1075 | the loop writes the next bits of the value, byte by byte, and shifts them out |
| MadFields.PostBits | libibmad/fields.c:1077-1080 | the last byte is or-ed with all that is left of the value |
| MadFields.GetField | libibmad/fields.c:1083-1109 | the loop reads the bits of the specification |
| MadFields.ReadBytes | libibmad/fields.c:1104-1106 | the loop collects whole bytes from the last to the first |
| MadCodec.GetExact | libibmad/fields.c:1083-1109 | reading returns the bits of the field on every packet if and only if the field is well formed or 32 bits long |
| MadCodec.RoundTrip | libibmad/fields.c:1051-1109 | a field that is well formed or 32 bits long reads back as the value written, cut to its length |
| MadCodec.RoundTripExact | libibmad/fields.c:1051-1109 | a field reads back what was written, on every packet and for every value, if and only if it is well formed or 32 bits long |
| MadCodec.RoundTripNumber | libibmad/fields.c:1051-1109 | as a number, the value written modulo 2 to the length |
| MadCodec.FrameExact | libibmad/fields.c:1077-1080 | all other bits of every packet stay as they are if and only if no bit of the value falls into the rest of the last byte |
| MadCodec.StatusSpills | libibmad/fields.c:79 | the status field of direct-route packets spills into the direction bit |
| MadCodec.DirectionRepairs | libibmad/mad.c:113-114 | the direction bit, written next, is as if the status had been cut to its 15 bits |
| MadCodec.FrameNeedsShape | libibmad/fields.c:1055-1057 | values in range leave all other bits of every packet alone if and only if the field is well formed |
| MadCodec.IllFormedField | libibmad/fields.c:1055-1057 | a field of 16 bits at bit 4 is not read right, does not read back, and changes other bits |
| MadCodec.BitStringView | libibmad/fields.c:49-51 | a field placed by BITSOFFS inside a word has the bits of that piece of the packet's bit string, most significant bit first, and its value is the big-endian word shifted down and cut |
| MadCodec.SetField64 | libibmad/fields.c:1033-1041 | the eight bytes are replaced by the number in network order, and no other |
| MadCodec.LongRoundTrip | libibmad/fields.c:1033-1049 | a 64-bit field reads back as written |
| MadCodec.ApplyBit | libibmad/fields.c:1033-1081 | a write decides exactly the bits it covers |
| MadCodec.ReadsBack | libibmad/fields.c:1166-1202 | in any sequence of writes, each reads back if no later one overlaps it |
| MadCodec.OrderDoesNotMatter | libibmad/fields.c:1166-1202 | writes to pairwise disjoint fields give the same packet in any order |
| MadHeader.Encode | libibmad/mad.c:82-159 | the statements, in their order, perform the listed writes and no other; the transaction ID used is returned |
| MadHeader.CopyIn | libibmad/mad.c:151-152 | the payload copy is a sequence of byte writes |
| MadHeader.WritesOk | libibmad/mad.c:82-159 | every field the header builder writes is well formed, inside the packet and given a value that does not spill |
| MadHeader.HeaderApart | libibmad/mad.c:82-159 | no write touches the bits of a header field written before it |
| MadHeader.EncodedFirst | libibmad/mad.c:87-96 | method, response bit and class of a built packet are those of the parameters |
| MadHeader.EncodedVersions | libibmad/mad.c:91-96 | class version 2 for subnet administration and congestion control and 1 for all others, base version 1, and the status of the parameters |
| MadHeader.EncodedNext | libibmad/mad.c:118-124 | attribute, modifier and transaction ID of a built packet are those of the parameters, with a new transaction ID for none |
| MadHeader.EncodedOui | libibmad/mad.c:154-156 | the organisation of a vendor range 2 packet is that of the parameters |
| MadContents.HeaderPlaces | libibmad/fields.c:68-85 | the header fields in bytes and network order: base version, class, class version, response bit and method, status, transaction ID, attribute and modifier |
| MadContents.EncodedKey | libibmad/mad.c:127 | the M_Key of a built packet is that of the parameters, unless the class has its own key there |
| MadContents.EncodedMask | libibmad/mad.c:143-144 | the component mask of a subnet administration packet is that of the parameters |
| MadContents.EncodedCcKey | libibmad/mad.c:146-149 | the key of a congestion control packet is that of the parameters |
| MadContents.PayloadReads | libibmad/mad.c:151-152 | every byte of the payload is where it was meant to be, wherever the payload starts, except under the organisation of a vendor packet |
| MadContents.OthersStay | libibmad/mad.c:82-159 | without payload, all bytes but those of the fields stay as they are |
| MadHeader.Gather | libibmad/serv.c:114-132 | the parameters of the response are read from the request |
| MadHeader.Respond | libibmad/serv.c:114-151 | the request buffer is turned into the response of the specification |
| MadHeader.ResponsePairs | libibmad/serv.c:114-151 | for any packet that is not direct-route: same class, attribute and modifier, the response method, the status given, the same organisation for vendor range 2, and the same transaction ID unless it is zero |
| MadHeader.RequestResponse | libibmad/serv.c:114-151 | for any encoded LID-routed request: Get and Set are answered by a Get response, other methods are kept, the response bit is set unless the method is Send, and the status is the one given |
| MadContents.ResponseCarries | libibmad/serv.c:114-151 | behind the header a response has the bytes of its request, but for a cleared component mask; its M_Key is cleared |
| MadRpc.LowTridIs | libibmad/rpc.c:145-146 | what is compared is the transaction ID modulo 2 to the 32, the fourth word of the packet |
| MadRpc.ResponseMatches | libibmad/rpc.c:172-174 | a response is taken for the answer to its request, if and only if the request has a transaction ID or the new one has no low bits |
| MadRpc.Await | libibmad/rpc.c:160-176 | skips receptions of other transactions and stops at a match or a failure |
| MadRpc.Converse | libibmad/rpc.c:148-188 | the outcome and the number of sends in terms of the receptions used |
| MadRpc.DoMadRpc | libibmad/rpc.c:119-189 | success only by a reception with the same low 32 bits of transaction ID and a good status; never more sends than retries; one send per matching reception |
| MadRpc.AnsweredIff | libibmad/rpc.c:148-188 | answered by reception k if and only if k is the first good one, no failure comes before, fewer matches than retries do, and every send up to then succeeds |
| PerfCounters.Saturate | infiniband-diags/perfquery.c:116-140 | despite wrap-around the result is the smaller of the cap and the exact sum |
| PerfCounters.SaturateFull | infiniband-diags/perfquery.c:142-156 | the same for counters of the full word, where only the wrap-around is tested |
| PerfCounters.RowAddresses | libibmad/fields.c:243-262 | all rows have the addresses and widths of the field table; QP1Dropped and VL15Dropped have the same |
| PerfCounters.Aggregator.constructor | infiniband-diags/perfquery.c:158-202 | the counters start at zero |
| PerfCounters.Aggregator.AddPort | infiniband-diags/perfquery.c:158-202 | after each port every counter is the smaller of its cap and the exact sum over the ports so far |
| PerfCounters.AggregateIgnoresOrder | infiniband-diags/perfquery.c:158-202 | the aggregates are the same for any order of the ports |
| PerfCounters.WriteCounts | infiniband-diags/perfquery.c:204-236 | the buffer is changed by the listed writes, in this order, and no other |
| PerfCounters.OutputReadsBack | infiniband-diags/perfquery.c:204-236 | after the output every counter decodes to its aggregate, the aliased pair included |
| PerfCounters.OutputSelects | infiniband-diags/perfquery.c:208-212 | the output is marked as that of all ports, with the given selection |
| Ilog.Branchless32 | ccan/ilog.c:35-52 | the number of bits: 2^(r-1) <= v < 2^r, or zero for zero |
| Ilog.Branchless64 | ccan/ilog.c:74-95 | the same for 64 bits, through the cut to 32 |
| Ilog.DeBruijn32 | ccan/ilog.c:54-65 | the same by smearing, multiplication and table lookup |
| Ilog.DeBruijn64 | ccan/ilog.c:115-133 | the same for 64 bits |
| Ilog.DeBruijnHalves | ccan/ilog.c:97-113 | the same for machines without 64-bit words |
| Ilog.Lookup32 | ccan/ilog.c:62-63 | the table names the exponent of every power of two by the top bits of the product |
| Ilog.Lookup64 | ccan/ilog.c:130-131 | the same for 64 bits |
| Ilog.Static5IsLog | ccan/ilog.h:139-147 | the macros compute the number of bits of 32-bit numbers |
| Ilog.Static6IsLog | ccan/ilog.h:139-149 | the macros compute the number of bits of 64-bit numbers |
| Ilog.Agree32 | ccan/ilog.h:139-147 | a form computes the number of bits if and only if it agrees with the macros |
| Ilog.Agree64 | ccan/ilog.h:139-149 | the same for 64 bits |
| LibGraph.Libraries.constructor | buildlib/sanitize_static_lib.py:140-141 | before the graph is computed there are no edges |
| LibGraph.Libraries.Link | buildlib/sanitize_static_lib.py:200-203 | both records hold exactly the pairs in which the second library needs a symbol of the first |
| LibGraph.WantedIff | buildlib/sanitize_static_lib.py:200-203 | there is an edge from one library to another if and only if the second needs a symbol the first provides |
| LibGraph.OneWay | buildlib/sanitize_static_lib.py:200-203 | the one edge of two libraries of which the second needs a symbol of the first |
| LibGraph.Libraries.Prune | buildlib/sanitize_static_lib.py:206-210 | terminates on acyclic graphs, keeps both records in step, and removes exactly the edges to what can be reached from the current library; the set it goes through stays the same |
| LibGraph.Libraries.PruneFrom | buildlib/sanitize_static_lib.py:213-214 | removes exactly the edges of this library that a longer path also provides |
| LibGraph.Libraries.ComputeGraph | buildlib/sanitize_static_lib.py:197-214 | whatever the order of iteration, both records hold the transitive reduction: the same reachability and no edge that a longer path provides; a library that needs a symbol of another is reached from it along `needed`, and all in `needs` provide a symbol that is needed |
| LibRuns.NotOnCycle | buildlib/sanitize_static_lib.py:206-214 | pruning for a library on a cycle does not complete: the recursion never ends, or a set changes while it is gone through |
| LibRuns.RunsOnlyIfAcyclic | buildlib/sanitize_static_lib.py:197-214 | a computation that completes started from a graph without cycles |
| LibGraph.EndsIffAcyclic | buildlib/sanitize_static_lib.py:197-214 | some order of iteration lets the computation complete if and only if the graph has no cycle |
| LibGraph.MutualNeed | buildlib/sanitize_static_lib.py:197-214 | two libraries that need a symbol of each other have no completed computation |
| Digraph.EdgeSurvives | buildlib/sanitize_static_lib.py:205-214 | whatever superfluous edges of an acyclic graph are dropped, every edge can still be travelled |
| Digraph.DetourSurvives | buildlib/sanitize_static_lib.py:205-214 | an edge is superfluous after such a removal if and only if it was before |
| Digraph.ReductionIsReduced | buildlib/sanitize_static_lib.py:205-214 | the reduction preserves reachability and has no superfluous edge |
| Digraph.ReductionIsUnique | buildlib/sanitize_static_lib.py:205-214 | it is the only such graph |

## Left out

- Sockets, binding, netlink parsing, error messages to clients, registration, hello and mapping counts of the port mapper: only success or failure of these calls is modelled, as parameters.
- The thread that sends queued messages: it is part of the network, which may lose any message.
- Byte order of the handle on the wire and unused tail bytes of IPv4 address buffers.
- Reuse of the address of a freed request as a new handle: handles are taken to be new for each query of a host.
- Direct-route packets, the RMPP header, the transaction ID counter, array fields and the redirect loop of the MAD library.
- MadHeader.EncodedNext: speaks of payloads that start behind the first 24 bytes, because a payload copied over the header replaces it.
- MadHeader.EncodedFirst: the same.
- MadHeader.EncodedVersions: the same.
- MadHeader.HeaderApart: the same.
- MadHeader.RequestResponse: the same.
- MadContents.EncodedKey: speaks of payloads that do not touch the field, which a payload copied over it replaces.
- MadContents.EncodedMask: the same.
- MadContents.EncodedCcKey: the same.
- MadHeader.Encode: not for the direct-route class, which writes further fields.
- MadHeader.Respond: not for direct-route requests.
- IwpmCompletion.HandshakeCompletes: speaks of two hosts and of five steps in a row; whatever comes in between is covered, one message at a time, by IwpmWaiting.WaitingIsReported, IwpmWaiting.RejectIsReported and IwpmAcks.AckIsHeeded.
- IwpmAcks.HandshakeSettles: the same, with seven steps.
- MadRpc.DoMadRpc: takes every received buffer to hold a whole MAD, as the receive buffer of the program does.
- PerfCounters.Aggregator.AddPort: the eighteen decode-and-aggregate pairs of the program are a loop over a table of the eighteen rows.
- PerfCounters.WriteCounts: the eighteen encode statements are a loop over the same table.
- The extended performance counters, which are further copies of the 64-bit saturating sum, and all printing.
- LibGraph.Libraries.ComputeGraph: as a method for acyclic symbol graphs only; on a cycle the program does not complete, which is stated about its runs.
- LibGraph.Libraries.PruneFrom: the same.
- LibGraph.Libraries.Prune: the same.
- Reading symbols from object files and rewriting the libraries.
- IwpmDaemon.Daemon.SweepRequests: the request and port lists of the daemon class are sequences; the pointers they are made of are modelled separately as the intrusive list.
- Debug mode, reverse iteration and container conversions of the intrusive list.
- Compiler intrinsics for the logarithm.
- The mlx5 provider and the remaining diagnostic tools.
