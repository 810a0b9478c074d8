/** Every request keeps its own message: in every run, what is kept with a query is the
    request it sent, what is kept with an answer is the accept, and no two requests of a host
    keep the same message. */
module IwpmMessages {
  import opened IwpmTypes
  import opened IwpmWire
  import opened IwpmRequests
  import opened IwpmHost
  import opened IwpmProtocol
  import opened IwpmDuplicates
  import Tbl = IwpmTable

  /** The message has the type and handle of the request; an accept also has its address. */
  predicate Belongs(r: MapRequest, m: SendMsg) {
    var pm := ParseMsg(m.data);
    && pm.Some? && pm.value.handle == r.handle
    && match r.kind
       case Query => pm.value.mt == MT_REQ
       case Accept => pm.value.mt == MT_ACC && ApAddr(pm.value) == r.src
       case Ack => pm.value.mt == MT_ACK
  }

  predicate Own(r: MapRequest) {
    r.kind != Ack ==> r.sendMsg.Some? && Belongs(r, r.sendMsg.value)
  }

  /** Of a request that is about to be posted: what is sent is the message it keeps, or the
      acknowledgement that its entry is about. */
  predicate Sends(r: MapRequest, m: SendMsg) {
    Belongs(r, m) && (r.kind != Ack ==> r.sendMsg == Some(m))
  }

  ghost predicate AllOwn(h: Host) {
    && (forall i :: 0 <= i < |h.reqs| ==> Own(h.reqs[i]))
    && (h.cont.Posting? ==>
          Own(h.cont.req) && forall i :: 0 <= i < |h.cont.sends| ==> Sends(h.cont.req, h.cont.sends[i]))
  }

  // ----- what every step keeps

  lemma OwnAfterUpdate(h: Host, handle: nat, addr: SockAddr, kinds: set<ReqKind>)
    requires AllOwn(h)
    ensures AllOwn(h.(reqs := UpdateReq(h.reqs, handle, addr, kinds)))
  {
    var reqs' := UpdateReq(h.reqs, handle, addr, kinds);
    forall i | 0 <= i < |reqs'|
      ensures Own(reqs'[i])
    {
      assert Own(h.reqs[i]);
    }
  }

  lemma OwnAfterSweep(h: Host)
    requires AllOwn(h)
    ensures AllOwn(SweepStep(h).host)
  {
    forall a | 0 <= a < |Sweep(h.reqs)|
      ensures Own(Sweep(h.reqs)[a])
    {
      var i, _ := SweepPair(h.reqs, a, a);
      assert Own(h.reqs[i]);
    }
  }

  lemma OwnAfterPost(h: Host)
    requires AllOwn(h) && h.cont.Posting?
    ensures AllOwn(PostStep(h).host)
  {
    var reqs' := [h.cont.req] + h.reqs;
    assert forall i :: 0 < i < |reqs'| ==> reqs'[i] == h.reqs[i - 1];
  }

  lemma OwnAfterAsk(h: Host, q: QueryArgs)
    requires AllOwn(h) && h.cont.Idle? && q.ptr != 0
    ensures AllOwn(QueryStep(h, q).host)
  {
    var o := QueryTable(h, q).1;
    if o.Acquired? { ParseForm(QueryParms(q.local, q.remote, o.port.mapped, q.ptr)); }
  }

  lemma OwnAfterRequest(h: Host, m: MsgParms, src: nat, env: WireEnv)
    requires AllOwn(h) && h.cont.Idle? && Sendable(m) && m.handle != 0
    ensures AllOwn(RequestStep(h, m, src, env).host)
  {
    var f := Tbl.Find(h.table.ports, Tbl.Loose(ApAddr(m), true));
    if f.Some? { ParseForm(AcceptParms(m, h.table.ports[f.value])); }
  }

  lemma OwnAfterAccept(past: Past, id: nat, h: Host, m: MsgParms, src: nat, env: WireEnv)
    requires HostOk(past, id, h) && AllOwn(h) && h.cont.Idle? && Sendable(m)
    ensures AllOwn(AcceptStep(h, m, src, env).host)
  {
    var f := Tbl.Find(h.table.ports, Tbl.Exact(CpAddr(m), true));
    if f.Some? {
      var addr := h.table.ports[f.value].local;
      OwnAfterUpdate(h, m.handle, addr, {Query, Ack});
      ParseForm(m.(mt := MT_ACK));
      var k := FindReq(h.reqs, m.handle, addr, {Query, Ack});
      if k.Some? { assert EntryOk(past, id, h.reqs[k.value], h.nextRid); }
    }
  }

  lemma OwnAfterWire(w: World, p: Packet, env: WireEnv)
    requires Inv(w) && Enabled(w, Deliver(p, env)) && AllOwn(w.hosts[p.dst])
    ensures AllOwn(StepEffect(w, Deliver(p, env)).host)
  {
    var h, pm := w.hosts[p.dst], ParseMsg(p.data);
    assert HostOk(w.past, p.dst, h);
    if pm.Some? {
      var m := pm.value;
      FormParse(p.data);
      if m.mt == MT_REQ {
        RequestOrigin(w, p);
        OwnAfterRequest(h, m, p.src, env);
      } else if m.mt == MT_ACC {
        OwnAfterAccept(w.past, p.dst, h, m, p.src, env);
      } else if m.mt == MT_ACK {
        OwnAfterUpdate(h, m.handle, ApAddr(m), {Accept});
      } else {
        var f := Tbl.Find(h.table.ports, Tbl.Exact(CpAddr(m), true));
        if f.Some? { OwnAfterUpdate(h, m.handle, h.table.ports[f.value].local, {Query}); }
      }
    }
  }

  lemma OwnStep(w: World, s: Step)
    requires Inv(w) && Enabled(w, s) && AllOwn(w.hosts[Actor(s)])
    ensures AllOwn(StepEffect(w, s).host)
  {
    var h := w.hosts[Actor(s)];
    match s
    case Client(_, _) =>
    case Ask(_, q) => OwnAfterAsk(h, q);
    case Posted(_) => OwnAfterPost(h);
    case Timer(_) => OwnAfterSweep(h);
    case Deliver(p, env) => OwnAfterWire(w, p, env);
  }

  ghost predicate WorldOwn(w: World) {
    forall h :: h in w.hosts ==> AllOwn(w.hosts[h])
  }

  lemma OwnNext(w: World, s: Step)
    requires Inv(w) && WorldOwn(w) && Enabled(w, s)
    ensures WorldOwn(Next(w, s))
  {
    OwnStep(w, s);
  }

  lemma {:induction false} RunOwn(ws: seq<World>, ss: seq<Step>, n: nat)
    requires IsRun(ws, ss) && n < |ws|
    ensures WorldOwn(ws[n])
  {
    if n > 0 {
      RunOk(ws, ss, n - 1);
      RunOwn(ws, ss, n - 1);
      OwnNext(ws[n - 1], ss[n - 1]);
    }
  }

  // ----- no two requests keep the same message

  ghost predicate DistinctMessages(reqs: seq<MapRequest>) {
    forall i, j :: 0 <= i < j < |reqs| && reqs[i].sendMsg.Some? ==> reqs[i].sendMsg != reqs[j].sendMsg
  }

  lemma OwnIsDistinct(past: Past, id: nat, h: Host)
    requires HostOk(past, id, h) && OneQuery(h) && AllOwn(h)
    ensures DistinctMessages(h.reqs)
  {
    forall i, j | 0 <= i < j < |h.reqs| && h.reqs[i].sendMsg.Some?
      ensures h.reqs[i].sendMsg != h.reqs[j].sendMsg
    {
      assert EntryOk(past, id, h.reqs[i], h.nextRid) && EntryOk(past, id, h.reqs[j], h.nextRid);
      assert Own(h.reqs[i]) && Own(h.reqs[j]);
      assert !Clash(h.reqs[i], h.reqs[j]) && !Twins(h.reqs[i], h.reqs[j]);
    }
  }

  /** In every run, each request of a host keeps its own message: that of a query is the
      request to the host it was issued for, and no other request keeps the same. */
  lemma MessagesInRun(ws: seq<World>, ss: seq<Step>, n: nat, h: nat)
    requires IsRun(ws, ss) && n < |ws| && h in ws[n].hosts
    ensures DistinctMessages(ws[n].hosts[h].reqs) && AllOwn(ws[n].hosts[h])
    ensures forall i :: 0 <= i < |ws[n].hosts[h].reqs| && ws[n].hosts[h].reqs[i].kind == Query ==>
              && (h, ws[n].hosts[h].reqs[i].handle) in ws[n].past.issued
              && ws[n].hosts[h].reqs[i].sendMsg ==
                 Some(RequestMsg(ws[n].past.issued[(h, ws[n].hosts[h].reqs[i].handle)], ws[n].hosts[h].reqs[i].handle))
  {
    RunOk(ws, ss, n);
    RunQuiet(ws, ss, n);
    RunOwn(ws, ss, n);
    var w, host := ws[n], ws[n].hosts[h];
    assert HostOk(w.past, h, host);
    OwnIsDistinct(w.past, h, host);
    forall i | 0 <= i < |host.reqs| && host.reqs[i].kind == Query
      ensures (h, host.reqs[i].handle) in w.past.issued
      ensures host.reqs[i].sendMsg == Some(RequestMsg(w.past.issued[(h, host.reqs[i].handle)], host.reqs[i].handle))
    {
      assert EntryOk(w.past, h, host.reqs[i], host.nextRid) && Own(host.reqs[i]);
    }
  }

  // ----- what a sweep sends

  lemma NoneElse(reqs: seq<MapRequest>, m: SendMsg)
    requires forall i :: 0 <= i < |reqs| ==> reqs[i].sendMsg != Some(m)
    ensures multiset(Messages(Resent(reqs)))[m] == 0
  {
    MessagesMember(Resent(reqs), m);
    var again := Resent(reqs);
    forall k | 0 <= k < |again| ensures again[k].sendMsg != Some(m) { ResentMember(reqs, again[k]); }
  }

  /** A sweep sends the message of a request once if it is the request's turn, and not at all
      if it is not. */
  lemma {:induction false} SentOnce(reqs: seq<MapRequest>, k: nat, m: SendMsg)
    requires DistinctMessages(reqs) && k < |reqs| && reqs[k].sendMsg == Some(m)
    ensures multiset(Messages(Resent(reqs)))[m] == if Resends(reqs[k]) then 1 else 0
  {
    var rest := reqs[1..];
    FirstMessage(reqs);
    assert forall i :: 0 <= i < |rest| ==> rest[i] == reqs[i + 1];
    if k == 0 {
      NoneElse(rest, m);
    } else {
      assert reqs[0].sendMsg.Some? ==> reqs[0].sendMsg != Some(m);
      SentOnce(rest, k - 1, m);
    }
  }

  lemma FirstMessage(reqs: seq<MapRequest>)
    requires reqs != []
    ensures Messages(Resent(reqs)) ==
            (if Resends(reqs[0]) && reqs[0].sendMsg.Some? then [reqs[0].sendMsg.value] else [])
            + Messages(Resent(reqs[1..]))
  {
    var again, rest := Resent(reqs), Resent(reqs[1..]);
    if Resends(reqs[0]) {
      assert again == [reqs[0]] + rest;
      assert again[0] == reqs[0] && again[1..] == rest;
    } else {
      assert again == rest;
    }
  }
}
