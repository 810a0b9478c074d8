/** One daemon: its table, its request list, and what each message does to them. */
module IwpmHost {
  import opened IwpmTypes
  import opened IwpmWire
  import opened IwpmRequests
  import Tbl = IwpmTable

  /** A handler posts its request under the list mutex, so the timer may run between the
      moment it searched the list and the moment it posts. `Posting` is the main thread in
      between: the request it is about to add, and what it sends and reports afterwards. */
  datatype Cont = Idle | Posting(req: MapRequest, sends: seq<SendMsg>, notes: seq<Note>)

  datatype Host = Host(table: Tbl.Table, reqs: seq<MapRequest>, nextRid: nat, cont: Cont)

  /** The new state, the messages queued for the wire, and the messages to clients. */
  datatype Effect = Effect(host: Host, sends: seq<SendMsg>, notes: seq<Note>)

  /** Whether memory was found, whether the wire message could be queued, whether the client
      message could be sent, and the address of a new request object. */
  datatype WireEnv = WireEnv(memory: bool, queued: bool, delivered: bool, ptr: nat)

  const INIT_HOST := Host(Tbl.EMPTY_TABLE, [], 0, Idle)

  function Quiet(h: Host): Effect {
    Effect(h, [], [])
  }

  // ----- client request to reach a remote peer

  datatype QueryArgs = QueryArgs(local: SockAddr, remote: SockAddr, client: int, noMap: bool, nl: NlHeader,
                                 env: Tbl.CreateEnv, memory: bool, queued: bool, ptr: nat, dest: nat)

  /** The parameters of the request message: addresses are read under the remote family. */
  function QueryParms(local: SockAddr, remote: SockAddr, mapped: SockAddr, handle: nat): MsgParms {
    var f := remote.family;
    MsgParms(if f == V4 then 4 else 6, f, IpAs(f, remote), remote.port, IpAs(f, local), local.port,
             IpAs(f, mapped), mapped.port, 0, MT_REQ, 0, handle)
  }

  function QueryTable(h: Host, q: QueryArgs): (Tbl.Table, Tbl.Outcome) {
    Tbl.QueryMapping(h.table, q.local, q.client, q.noMap, q.env, q.remote.family != Other && q.memory)
  }

  function QueryMsg(q: QueryArgs, p: MappedPort): SendMsg {
    SendMsg(q.dest, FormMsg(QueryParms(q.local, q.remote, p.mapped, q.ptr)))
  }

  function QueryStep(h: Host, q: QueryArgs): Effect
    requires h.cont.Idle?
  {
    var (t, o) := QueryTable(h, q);
    if !o.Acquired? then Quiet(h.(table := t))
    else
      var msg := QueryMsg(q, o.port);
      var req := NewRequest(h.nextRid, q.nl, o.port.local, q.remote, 0, Query, Some(msg), q.ptr);
      Quiet(h.(table := t, nextRid := h.nextRid + 1,
               cont := Posting(req, if q.queued then [msg] else [], [])))
  }

  /** add_iwpm_map_request and what follows it. */
  function PostStep(h: Host): Effect
    requires h.cont.Posting?
  {
    Effect(h.(reqs := [h.cont.req] + h.reqs, cont := Idle), h.cont.sends, h.cont.notes)
  }

  /** A handler with the post it ends in. */
  function Complete(e: Effect): Effect {
    if e.host.cont.Idle? then e
    else
      var f := PostStep(e.host);
      Effect(f.host, e.sends + f.sends, e.notes + f.notes)
  }

  // ----- messages from the wire

  function ApAddr(m: MsgParms): SockAddr { MakeAddr(m.family, m.apIp, m.apPort) }

  function CpAddr(m: MsgParms): SockAddr { MakeAddr(m.family, m.cpIp, m.cpPort) }

  function MappedCpAddr(m: MsgParms): SockAddr { MakeAddr(m.family, m.mappedCpIp, m.mappedCpPort) }

  /** The accept message: the mapped port, and the mapped address unless it is a wildcard. */
  function AcceptParms(m: MsgParms, p: MappedPort): MsgParms {
    if p.wcard then m.(apPort := PortOf(p.mapped), mt := MT_ACC)
    else m.(apIp := IpAs(m.family, p.mapped), apPort := p.mapped.port, mt := MT_ACC)
  }

  function RequestStep(h: Host, m: MsgParms, src: nat, env: WireEnv): Effect
    requires h.cont.Idle?
  {
    match Tbl.Find(h.table.ports, Tbl.Loose(ApAddr(m), true))
    case None =>
      Effect(h, if env.queued then [SendMsg(src, FormMsg(m.(mt := MT_REJ)))] else [], [])
    case Some(i) =>
      var p := h.table.ports[i];
      var acc := AcceptParms(m, p);
      var mappedLocal := ApAddr(acc);
      if FindReq(h.reqs, m.handle, mappedLocal, {Accept}).Some? then Quiet(h)
      else if !env.memory then Quiet(h)
      else
        var msg := SendMsg(src, FormMsg(acc));
        var nl := NlHeader(0, 0, 0);
        var req := NewRequest(h.nextRid, nl, mappedLocal, CpAddr(m), m.handle, Accept, Some(msg), env.ptr);
        var note := Incoming(m.handle, p.local, CpAddr(m), p.mapped, MappedCpAddr(m), p.id);
        Quiet(h.(nextRid := h.nextRid + 1,
                 cont := Posting(req, if env.queued then [msg] else [],
                                 if env.queued && env.delivered then [note] else [])))
  }

  function AcceptStep(h: Host, m: MsgParms, src: nat, env: WireEnv): Effect
    requires h.cont.Idle?
  {
    match Tbl.Find(h.table.ports, Tbl.Exact(CpAddr(m), true))
    case None => Quiet(h)
    case Some(i) =>
      var p := h.table.ports[i];
      var h1 := h.(reqs := UpdateReq(h.reqs, m.handle, p.local, {Query, Ack}));
      var ack := SendMsg(src, FormMsg(m.(mt := MT_ACK)));
      match FindReq(h.reqs, m.handle, p.local, {Query, Ack})
      case None => Quiet(h1)
      case Some(k) => if h.reqs[k].complete then Quiet(h1) else FinishAccept(h1, p, h.reqs[k], m, ack, env)
  }

  /** The accept once the request it answers is found, incomplete. */
  function FinishAccept(h: Host, p: MappedPort, r: MapRequest, m: MsgParms, ack: SendMsg, env: WireEnv): Effect {
    if r.kind == Ack then Effect(h, if env.queued then [ack] else [], [])
    else if !env.delivered then Quiet(h)
    else
      var note := Connected(r.rid, r.handle, p.local, r.remote, p.mapped, ApAddr(m), p.id, r.nl);
      if !env.memory then Effect(h, [], [note])
      else
        var req := NewRequest(h.nextRid, NlHeader(0, 0, 0), r.src, r.remote, r.handle, Ack, None, env.ptr);
        Effect(h.(nextRid := h.nextRid + 1, cont := Posting(req, if env.queued then [ack] else [], [])), [], [note])
  }

  function RejectStep(h: Host, m: MsgParms, env: WireEnv): Effect
    requires h.cont.Idle?
  {
    match Tbl.Find(h.table.ports, Tbl.Exact(CpAddr(m), true))
    case None => Quiet(h)
    case Some(i) =>
      var p := h.table.ports[i];
      var h1 := h.(reqs := UpdateReq(h.reqs, m.handle, p.local, {Query}));
      match FindReq(h.reqs, m.handle, p.local, {Query})
      case None => Quiet(h1)
      case Some(k) =>
        var r := h.reqs[k];
        if r.complete || !env.delivered then Quiet(h1)
        else Effect(h1, [], [Rejected(r.rid, r.handle, p.local, r.remote, p.mapped, p.id, r.nl)])
  }

  function AckStep(h: Host, m: MsgParms): Effect
    requires h.cont.Idle?
  {
    if Tbl.Find(h.table.ports, Tbl.Loose(ApAddr(m), false)).None? then Quiet(h)
    else Quiet(h.(reqs := UpdateReq(h.reqs, m.handle, ApAddr(m), {Accept})))
  }

  /** process_iwpm_msg. */
  function WireStep(h: Host, data: WireMsg, src: nat, env: WireEnv): Effect
    requires h.cont.Idle?
  {
    match ParseMsg(data)
    case None => Quiet(h)
    case Some(m) =>
      if m.mt == MT_REQ then RequestStep(h, m, src, env)
      else if m.mt == MT_ACC then AcceptStep(h, m, src, env)
      else if m.mt == MT_ACK then AckStep(h, m)
      else RejectStep(h, m, env)
  }

  // ----- the timer

  /** The messages kept in these requests. */
  function Messages(reqs: seq<MapRequest>): seq<SendMsg> {
    if reqs == [] then []
    else (if reqs[0].sendMsg.Some? then [reqs[0].sendMsg.value] else []) + Messages(reqs[1..])
  }

  function SweepStep(h: Host): Effect {
    Effect(h.(reqs := Sweep(h.reqs)), Messages(Resent(h.reqs)), [])
  }

  predicate ListOk(reqs: seq<MapRequest>) {
    forall i :: 0 <= i < |reqs| ==> ReqOk(reqs[i])
  }

  lemma {:induction false} MessagesMember(reqs: seq<MapRequest>, m: SendMsg)
    ensures m in Messages(reqs) <==> exists i :: 0 <= i < |reqs| && reqs[i].sendMsg == Some(m)
  {
    if reqs == [] {
    } else {
      MessagesMember(reqs[1..], m);
      if reqs[0].sendMsg != Some(m) {
        if i :| 0 <= i < |reqs| && reqs[i].sendMsg == Some(m) {
          assert reqs[1..][i - 1].sendMsg == Some(m);
        }
        if i :| 0 <= i < |reqs[1..]| && reqs[1..][i].sendMsg == Some(m) {
          assert reqs[i + 1].sendMsg == Some(m);
        }
      }
    }
  }

  /** A sweep sends exactly the messages of the requests in their first to ninth second after
      the first sweep, acknowledgements excepted. */
  lemma SweepSendsIff(h: Host, m: SendMsg)
    ensures m in SweepStep(h).sends <==>
            exists i :: 0 <= i < |h.reqs| && 0 < h.reqs[i].timeout < 10 && h.reqs[i].kind != Ack
                        && h.reqs[i].sendMsg == Some(m)
  {
    var again := Resent(h.reqs);
    MessagesMember(again, m);
    if k :| 0 <= k < |again| && again[k].sendMsg == Some(m) {
      ResentMember(h.reqs, again[k]);
    }
    if i :| 0 <= i < |h.reqs| && Resends(h.reqs[i]) && h.reqs[i].sendMsg == Some(m) {
      ResentMember(h.reqs, h.reqs[i]);
    }
  }

  /** The sweep never reaches for a message that is not there. */
  lemma {:induction false} ResendHasMessage(reqs: seq<MapRequest>)
    requires ListOk(reqs)
    ensures |Messages(Resent(reqs))| == |Resent(reqs)|
    ensures forall i :: 0 <= i < |Resent(reqs)| ==> Resent(reqs)[i].sendMsg == Some(Messages(Resent(reqs))[i])
  {
    if reqs != [] {
      ResendHasMessage(reqs[1..]);
      if Resends(reqs[0]) {
        assert Resent(reqs)[1..] == Resent(reqs[1..]);
        assert reqs[0].sendMsg.Some?;
      } else {
        assert Resent(reqs) == Resent(reqs[1..]);
      }
    }
  }

  // ----- when a request is answered

  /** The address under which an answer by port `p` is kept. */
  function MappedLocal(m: MsgParms, p: MappedPort): SockAddr {
    ApAddr(AcceptParms(m, p))
  }

  /** Port `i` is the one the lookup gives for the address asked for. */
  ghost predicate Serves(h: Host, m: MsgParms, i: int) {
    && 0 <= i < |h.table.ports| && Tbl.Hit(Tbl.Loose(ApAddr(m), true), h.table.ports[i])
    && forall j :: 0 <= j < i ==> !Tbl.Hit(Tbl.Loose(ApAddr(m), true), h.table.ports[j])
  }

  /** An answer with this handle and mapped address is outstanding, to whatever host. */
  ghost predicate Outstanding(h: Host, handle: nat, mapped: SockAddr) {
    exists k :: 0 <= k < |h.reqs| && h.reqs[k].kind == Accept && h.reqs[k].handle == handle
                && SameAddr(mapped, h.reqs[k].src)
  }

  /** With memory at hand, a request is answered if and only if a port serves the address
      and no answer with its handle and mapped address is outstanding. Otherwise the state
      stays as it is, and all that is sent is a reject, for an address that no port serves. */
  lemma RequestAnsweredIff(h: Host, m: MsgParms, src: nat, env: WireEnv)
    requires h.cont.Idle? && env.memory
    ensures var e := RequestStep(h, m, src, env);
            && (e.host.cont.Posting? <==>
                  exists i :: Serves(h, m, i) && !Outstanding(h, m.handle, MappedLocal(m, h.table.ports[i])))
            && (!e.host.cont.Posting? ==> e.host == h && e.notes == [])
            && (!e.host.cont.Posting? && e.sends != [] ==> forall i :: !Serves(h, m, i))
  {
    var f := Tbl.Find(h.table.ports, Tbl.Loose(ApAddr(m), true));
    assert f.Some? ==> Serves(h, m, f.value);
    assert forall i :: Serves(h, m, i) ==> f == Some(i);
    if f.Some? {
      var mapped := MappedLocal(m, h.table.ports[f.value]);
      var g := FindReq(h.reqs, m.handle, mapped, {Accept});
      assert g.Some? ==> h.reqs[g.value].kind == Accept;
      assert g.None? ==> forall k :: 0 <= k < |h.reqs| ==> !ReqHit(h.reqs[k], m.handle, mapped, {Accept});
    }
  }

  /** Suppression of repetitions. Host `h` answered `m`, and host state `h'` still lists the
      entry of that answer and serves the address by the same port. A request for the same
      address with the same handle, from whatever host, is then passed over if the handle
      is not zero; and it is answered anew if it is zero, because a zero handle is replaced
      before it is stored. */
  lemma RepeatedRequest(h: Host, m: MsgParms, src: nat, env: WireEnv, h': Host, m': MsgParms, src': nat,
                        env': WireEnv, i: nat)
    requires h.cont.Idle? && RequestStep(h, m, src, env).host.cont.Posting? && m.family != Other
    requires h'.cont.Idle? && env'.memory && m'.handle == m.handle && ApAddr(m') == ApAddr(m)
    requires exists k :: 0 <= k < |h'.reqs| && Like(RequestStep(h, m, src, env).host.cont.req, h'.reqs[k])
    requires Serves(h', m', i) && MappedLocal(m', h'.table.ports[i]) == RequestStep(h, m, src, env).host.cont.req.src
    ensures m.handle != 0 ==> RequestStep(h', m', src', env') == Quiet(h')
    ensures m.handle == 0 && (forall k :: 0 <= k < |h'.reqs| ==> h'.reqs[k].handle != 0) ==>
              RequestStep(h', m', src', env').host.cont.Posting?
  {
    var req := RequestStep(h, m, src, env).host.cont.req;
    var f := Tbl.Find(h'.table.ports, Tbl.Loose(ApAddr(m'), true));
    assert f == Some(i);
    var k :| 0 <= k < |h'.reqs| && Like(req, h'.reqs[k]);
    assert m.handle != 0 ==> ReqHit(h'.reqs[k], m.handle, req.src, {Accept});
  }
}
