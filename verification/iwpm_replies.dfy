/** What a host does with each message of another host, in full: what it sends back, what it
    tells its clients, and what becomes of its request list. A handler is taken together
    with the post it ends in. */
module IwpmReplies {
  import opened IwpmTypes
  import opened IwpmWire
  import opened IwpmRequests
  import opened IwpmHost
  import Tbl = IwpmTable

  /** Message `s` goes to `dest`, is of type `mt`, and names handle and addresses. */
  predicate Says(s: SendMsg, dest: nat, mt: bv8, handle: nat, ap: SockAddr, cp: SockAddr) {
    && s.dest == dest
    && var pm := ParseMsg(s.data);
       && pm.Some? && pm.value.mt == mt && pm.value.handle == handle
       && ApAddr(pm.value) == ap && CpAddr(pm.value) == cp
  }

  // ----- requests

  /** A request for an address that no port serves is rejected, back to its sender, and
      changes nothing else. */
  lemma RequestRejected(h: Host, m: MsgParms, src: nat, env: WireEnv)
    requires h.cont.Idle? && Sendable(m) && forall i :: !Serves(h, m, i)
    ensures var c := Complete(RequestStep(h, m, src, env));
            && c.host == h && c.notes == [] && |c.sends| == (if env.queued then 1 else 0)
            && (env.queued ==> Says(c.sends[0], src, MT_REJ, m.handle, ApAddr(m), CpAddr(m)))
  {
    var f := Tbl.Find(h.table.ports, Tbl.Loose(ApAddr(m), true));
    assert f.Some? ==> Serves(h, m, f.value);
    ParseForm(m.(mt := MT_REJ));
  }

  /** The entry by which a host remembers an answer. */
  ghost predicate AcceptEntry(r: MapRequest, m: MsgParms, p: MappedPort, src: nat, env: WireEnv) {
    && r.kind == Accept && r.src == MappedLocal(m, p) && r.remote == CpAddr(m)
    && r.handle == (if m.handle == 0 then env.ptr else m.handle) && r.timeout == 10 && !r.complete
    && r.sendMsg.Some? && Says(r.sendMsg.value, src, MT_ACC, m.handle, MappedLocal(m, p), CpAddr(m))
  }

  lemma OutstandingIff(h: Host, handle: nat, mapped: SockAddr)
    ensures FindReq(h.reqs, handle, mapped, {Accept}).Some? <==> Outstanding(h, handle, mapped)
  {
    var g := FindReq(h.reqs, handle, mapped, {Accept});
    assert g.None? ==> forall k :: 0 <= k < |h.reqs| ==> !ReqHit(h.reqs[k], handle, mapped, {Accept});
    assert g.Some? ==> h.reqs[g.value].kind == Accept;
  }

  lemma AcceptPosts(h: Host, m: MsgParms, src: nat, env: WireEnv, i: nat)
    requires h.cont.Idle? && Sendable(m) && Serves(h, m, i) && env.memory
    requires !Outstanding(h, m.handle, MappedLocal(m, h.table.ports[i]))
    ensures var e, p := RequestStep(h, m, src, env), h.table.ports[i];
            && e.sends == [] && e.notes == [] && e.host.table == h.table && e.host.reqs == h.reqs
            && e.host.cont.Posting?
            && var c := e.host.cont;
               && AcceptEntry(c.req, m, p, src, env)
               && c.sends == (if env.queued then [c.req.sendMsg.value] else [])
               && c.notes == if env.queued && env.delivered
                             then [Incoming(m.handle, p.local, CpAddr(m), p.mapped, MappedCpAddr(m), p.id)] else []
  {
    var p := h.table.ports[i];
    assert Tbl.Find(h.table.ports, Tbl.Loose(ApAddr(m), true)) == Some(i);
    OutstandingIff(h, m.handle, MappedLocal(m, p));
    ParseForm(AcceptParms(m, p));
  }

  /** A request that port `i` serves, with no answer to it outstanding, is answered by an
      accept to its sender, which is kept for retransmission; and the client of the port is
      told, unless the accept could not be sent. */
  lemma RequestAccepted(h: Host, m: MsgParms, src: nat, env: WireEnv, i: nat)
    requires h.cont.Idle? && Sendable(m) && Serves(h, m, i) && env.memory
    requires !Outstanding(h, m.handle, MappedLocal(m, h.table.ports[i]))
    ensures var c, p := Complete(RequestStep(h, m, src, env)), h.table.ports[i];
            && c.host.table == h.table && |c.host.reqs| == |h.reqs| + 1 && c.host.reqs[1..] == h.reqs
            && AcceptEntry(c.host.reqs[0], m, p, src, env)
            && c.sends == (if env.queued then [c.host.reqs[0].sendMsg.value] else [])
            && c.notes == if env.queued && env.delivered
                          then [Incoming(m.handle, p.local, CpAddr(m), p.mapped, MappedCpAddr(m), p.id)] else []
  {
    AcceptPosts(h, m, src, env, i);
    CompletePosts(RequestStep(h, m, src, env));
  }

  lemma CompletePosts(e: Effect)
    requires e.host.cont.Posting? && e.sends == []
    ensures var c := Complete(e);
            && c.host.table == e.host.table && |c.host.reqs| == |e.host.reqs| + 1 && c.host.reqs[1..] == e.host.reqs
            && c.host.reqs[0] == e.host.cont.req && c.host.cont.Idle?
            && c.sends == e.host.cont.sends && c.notes == e.notes + e.host.cont.notes
  {
  }

  /** A request that is served is passed over if an answer to it is outstanding, or if there
      is no memory for one. */
  lemma RequestPassedOver(h: Host, m: MsgParms, src: nat, env: WireEnv, i: nat)
    requires h.cont.Idle? && Serves(h, m, i)
    requires !env.memory || Outstanding(h, m.handle, MappedLocal(m, h.table.ports[i]))
    ensures RequestStep(h, m, src, env) == Quiet(h)
  {
    assert Tbl.Find(h.table.ports, Tbl.Loose(ApAddr(m), true)) == Some(i);
    OutstandingIff(h, m.handle, MappedLocal(m, h.table.ports[i]));
  }

  // ----- queries of clients

  /** A query that gets a port is posted, to be answered to the client message behind it, and
      its request goes to the host of the remote address; one that gets none does nothing
      but what it does to the table. */
  lemma QueryAsks(h: Host, q: QueryArgs)
    requires h.cont.Idle? && q.ptr != 0
    ensures var c, o := Complete(QueryStep(h, q)), QueryTable(h, q).1;
            && c.host.table == QueryTable(h, q).0 && c.notes == []
            && (!o.Acquired? ==> c.host.reqs == h.reqs && c.sends == [])
            && (o.Acquired? ==>
                  && |c.host.reqs| == |h.reqs| + 1 && c.host.reqs[1..] == h.reqs
                  && QueryEntry(c.host.reqs[0], q, o.port)
                  && c.sends == if q.queued then [c.host.reqs[0].sendMsg.value] else [])
  {
    var o := QueryTable(h, q).1;
    if o.Acquired? {
      CompletePosts(QueryStep(h, q));
      ParseForm(QueryParms(q.local, q.remote, o.port.mapped, q.ptr));
    }
  }

  /** The entry by which a host remembers a query. */
  ghost predicate QueryEntry(r: MapRequest, q: QueryArgs, p: MappedPort) {
    && r.kind == Query && r.src == p.local && r.remote == q.remote && r.nl == q.nl && r.handle == q.ptr
    && r.timeout == 10 && !r.complete && r.sendMsg.Some?
    && var f := q.remote.family;
       && Says(r.sendMsg.value, q.dest, MT_REQ, q.ptr, MakeAddr(f, IpAs(f, q.remote), q.remote.port),
               MakeAddr(f, IpAs(f, q.local), q.local.port))
       && MappedCpAddr(ParseMsg(r.sendMsg.value.data).value) == MakeAddr(f, IpAs(f, p.mapped), p.mapped.port)
  }

  // ----- accepts

  /** Request `k` is the first one an answer for port `i` can be for. */
  ghost predicate Awaits(h: Host, m: MsgParms, i: int, k: int, kinds: set<ReqKind>) {
    && 0 <= i < |h.table.ports| && SameAddr(CpAddr(m), h.table.ports[i].local)
    && 0 <= k < |h.reqs| && ReqHit(h.reqs[k], m.handle, h.table.ports[i].local, kinds)
    && forall j :: 0 <= j < k ==> !ReqHit(h.reqs[j], m.handle, h.table.ports[i].local, kinds)
  }

  lemma AwaitsIsFound(h: Host, m: MsgParms, i: nat, k: nat, kinds: set<ReqKind>)
    requires Tbl.TableInv(h.table) && Awaits(h, m, i, k, kinds)
    ensures Tbl.Find(h.table.ports, Tbl.Exact(CpAddr(m), true)) == Some(i)
    ensures FindReq(h.reqs, m.handle, h.table.ports[i].local, kinds) == Some(k)
  {
    var f := Tbl.Find(h.table.ports, Tbl.Exact(CpAddr(m), true));
    assert Tbl.Hit(Tbl.Exact(CpAddr(m), true), h.table.ports[i]);
    Tbl.UniqueCandidate(h.table, Tbl.Exact(CpAddr(m), true), f.value, i);
  }

  /** Host `h` with request `k` done: it waits for nothing and goes with the next sweep. */
  function Done(h: Host, k: nat): Host
    requires k < |h.reqs|
  {
    h.(reqs := h.reqs[k := h.reqs[k].(timeout := 0, complete := true)])
  }

  /** The entry by which a host remembers that it has acknowledged the answer to query `r`. */
  ghost predicate AckEntry(a: MapRequest, r: MapRequest) {
    && a.kind == Ack && a.handle == r.handle && a.src == r.src && a.remote == r.remote
    && a.timeout == 10 && !a.complete && a.sendMsg.None?
  }

  /** An accept for a query that waits. The query is done in any case. If its client can be
      told, it is told the two mapped addresses, and if there is memory for an entry to
      remember it by, the accept is acknowledged, back to its sender. */
  lemma AcceptAnswers(h: Host, m: MsgParms, src: nat, env: WireEnv, i: nat, k: nat)
    requires h.cont.Idle? && Tbl.TableInv(h.table) && Sendable(m) && Awaits(h, m, i, k, {Query, Ack})
    requires h.reqs[k].kind == Query && !h.reqs[k].complete && h.reqs[k].handle != 0
    ensures var c, p, r := Complete(AcceptStep(h, m, src, env)), h.table.ports[i], h.reqs[k];
            && c.host.table == h.table
            && c.notes == (if env.delivered
                           then [Connected(r.rid, r.handle, p.local, r.remote, p.mapped, ApAddr(m), p.id, r.nl)]
                           else [])
            && (env.delivered && env.memory ==>
                  && |c.host.reqs| == |h.reqs| + 1 && c.host.reqs[1..] == Done(h, k).reqs && AckEntry(c.host.reqs[0], r)
                  && |c.sends| == (if env.queued then 1 else 0)
                  && (env.queued ==> Says(c.sends[0], src, MT_ACK, m.handle, ApAddr(m), CpAddr(m))))
            && (!(env.delivered && env.memory) ==> c.host == Done(h, k) && c.sends == [])
  {
    AwaitsIsFound(h, m, i, k, {Query, Ack});
    ParseForm(m.(mt := MT_ACK));
  }

  /** An accept for what was acknowledged before is acknowledged again, and the entry that
      remembers it starts its time anew. One for a query that is done is passed over. */
  lemma AcceptRepeats(h: Host, m: MsgParms, src: nat, env: WireEnv, i: nat, k: nat)
    requires h.cont.Idle? && Tbl.TableInv(h.table) && Sendable(m) && Awaits(h, m, i, k, {Query, Ack})
    requires h.reqs[k].kind == Ack || h.reqs[k].complete
    ensures var c := Complete(AcceptStep(h, m, src, env));
            && c.notes == [] && (h.reqs[k].complete ==> c.host == h && c.sends == [])
            && (!h.reqs[k].complete ==>
                  && c.host == h.(reqs := h.reqs[k := h.reqs[k].(timeout := 10)])
                  && |c.sends| == (if env.queued then 1 else 0)
                  && (env.queued ==> Says(c.sends[0], src, MT_ACK, m.handle, ApAddr(m), CpAddr(m))))
  {
    AwaitsIsFound(h, m, i, k, {Query, Ack});
    ParseForm(m.(mt := MT_ACK));
    assert h.reqs[k].complete ==> h.reqs[k := h.reqs[k]] == h.reqs;
  }

  // ----- rejects

  /** A reject for a query that waits: the query is done, and its client is told. */
  lemma RejectAnswers(h: Host, m: MsgParms, env: WireEnv, i: nat, k: nat)
    requires h.cont.Idle? && Tbl.TableInv(h.table) && Awaits(h, m, i, k, {Query}) && !h.reqs[k].complete
    ensures var e, p, r := RejectStep(h, m, env), h.table.ports[i], h.reqs[k];
            && e.host == Done(h, k) && e.sends == []
            && e.notes == if env.delivered
                          then [Rejected(r.rid, r.handle, p.local, r.remote, p.mapped, p.id, r.nl)] else []
  {
    AwaitsIsFound(h, m, i, k, {Query});
  }

  /** An answer for which there is no port, or no request, changes nothing. */
  lemma UnawaitedAnswer(h: Host, m: MsgParms, src: nat, env: WireEnv)
    requires h.cont.Idle?
    ensures (forall i, k :: !Awaits(h, m, i, k, {Query, Ack})) ==> AcceptStep(h, m, src, env) == Quiet(h)
    ensures (forall i, k :: !Awaits(h, m, i, k, {Query})) ==> RejectStep(h, m, env) == Quiet(h)
  {
    var f := Tbl.Find(h.table.ports, Tbl.Exact(CpAddr(m), true));
    if f.Some? {
      var g := FindReq(h.reqs, m.handle, h.table.ports[f.value].local, {Query, Ack});
      assert g.Some? ==> Awaits(h, m, f.value, g.value, {Query, Ack});
      var g' := FindReq(h.reqs, m.handle, h.table.ports[f.value].local, {Query});
      assert g'.Some? ==> Awaits(h, m, f.value, g'.value, {Query});
    }
  }

  // ----- acknowledgements

  /** A port is mapped to this address, or to its TCP port where wildcards leave the rest
      open. */
  ghost predicate MappedTo(h: Host, addr: SockAddr) {
    exists i :: 0 <= i < |h.table.ports| && PortOf(h.table.ports[i].mapped) == PortOf(addr)
                && (SameAddr(addr, h.table.ports[i].mapped) || h.table.ports[i].wcard || IsWild(addr))
  }

  /** Request `k` is the first accept entry the acknowledgement can be for. */
  ghost predicate Acknowledged(h: Host, m: MsgParms, k: int) {
    && 0 <= k < |h.reqs| && ReqHit(h.reqs[k], m.handle, ApAddr(m), {Accept})
    && forall j :: 0 <= j < k ==> !ReqHit(h.reqs[j], m.handle, ApAddr(m), {Accept})
  }

  /** An acknowledgement ends the retransmission of the accept it is for, if and only if a
      port is mapped to the address the accept gave. It never does anything else. */
  lemma AckEnds(h: Host, m: MsgParms, k: nat)
    requires h.cont.Idle? && Acknowledged(h, m, k) && !h.reqs[k].complete
    ensures AckStep(h, m) == if MappedTo(h, ApAddr(m)) then Quiet(Done(h, k)) else Quiet(h)
  {
    AckFinds(h, m);
    assert FindReq(h.reqs, m.handle, ApAddr(m), {Accept}) == Some(k);
  }

  lemma AckFinds(h: Host, m: MsgParms)
    ensures Tbl.Find(h.table.ports, Tbl.Loose(ApAddr(m), false)).Some? <==> MappedTo(h, ApAddr(m))
  {
    var f := Tbl.Find(h.table.ports, Tbl.Loose(ApAddr(m), false));
    if i :| 0 <= i < |h.table.ports| && PortOf(h.table.ports[i].mapped) == PortOf(ApAddr(m))
            && (SameAddr(ApAddr(m), h.table.ports[i].mapped) || h.table.ports[i].wcard || IsWild(ApAddr(m))) {
      assert Tbl.Hit(Tbl.Loose(ApAddr(m), false), h.table.ports[i]);
    }
  }

  lemma UnmatchedAck(h: Host, m: MsgParms)
    requires h.cont.Idle? && forall k :: Acknowledged(h, m, k) ==> h.reqs[k].complete
    ensures AckStep(h, m) == Quiet(h)
  {
    var g := FindReq(h.reqs, m.handle, ApAddr(m), {Accept});
    if g.Some? {
      assert Acknowledged(h, m, g.value);
      assert h.reqs[g.value := h.reqs[g.value]] == h.reqs;
    }
  }

  /** What is done is not sent again, and gone after the next sweep. */
  lemma DoneIsGone(h: Host, k: nat)
    requires k < |h.reqs| && h.reqs[k].timeout == 0 && DistinctRids(h.reqs)
    ensures !Listed(SweepStep(h).host.reqs, h.reqs[k].rid)
  {
    forall a | 0 <= a < |Sweep(h.reqs)|
      ensures Sweep(h.reqs)[a].rid != h.reqs[k].rid
    {
      var i, _ := SweepPair(h.reqs, a, a);
      assert i < k || k < i;
    }
  }
}
