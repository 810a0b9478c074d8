/** The third message of the handshake: what an acknowledgement rests on, what it ends, and
    the whole exchange from the query to the end of all retransmission. */
module IwpmAcks {
  import opened IwpmTypes
  import opened IwpmWire
  import opened IwpmRequests
  import opened IwpmHost
  import opened IwpmProtocol
  import opened IwpmReplies
  import opened IwpmHistory
  import opened IwpmCompletion
  import Tbl = IwpmTable

  predicate IsAck(data: WireMsg) {
    ParseMsg(data).Some? && ParseMsg(data).value.mt == MT_ACK
  }

  /** An acknowledgement that arrives is for an answer this host gave to its sender, and
      carries the mapped address of that answer. */
  lemma AckAnswers(w: World, p: Packet) returns (k: nat)
    requires Inv(w) && p in w.net && IsAck(p.data)
    ensures k < |w.past.answers|
    ensures var a, m := w.past.answers[k], ParseMsg(p.data).value;
            && a.host == p.dst && a.to == p.src && m.handle == a.req.handle && ApAddr(m) == MappedLocal(a.req, a.port)
  {
    assert SendOk(w.past, p.src, SendMsg(p.dst, p.data));
    k :| 0 <= k < |w.past.answers| && w.past.answers[k].to == p.src
      && SendMsg(p.dst, p.data) == AckMsg(w.past.answers[k]);
    var a := w.past.answers[k];
    assert AnswerOk(w.past, a);
    assert IssueOk(w.past, a.to, a.req.handle);
    ParseForm(AcceptParms(a.req, a.port).(mt := MT_ACK));
  }

  // ----- in runs

  /** Step `n` delivers an acknowledgement for accept entry `k`, which is still unanswered. */
  ghost predicate AckArrives(ws: seq<World>, ss: seq<Step>, n: nat, k: nat)
    requires n < |ss| < |ws|
  {
    && ss[n].Deliver? && IsAck(ss[n].p.data) && ss[n].p.dst in ws[n].hosts
    && var h, m := ws[n].hosts[ss[n].p.dst], ParseMsg(ss[n].p.data).value;
       k < |h.reqs| && !h.reqs[k].complete && ReqHit(h.reqs[k], m.handle, ApAddr(m), {Accept})
  }

  lemma ArrivesFirst(ws: seq<World>, ss: seq<Step>, n: nat, k: nat)
    requires IsRun(ws, ss) && n < |ss| && AckArrives(ws, ss, n, k)
    ensures Acknowledged(ws[n].hosts[ss[n].p.dst], ParseMsg(ss[n].p.data).value, k)
  {
    RunOk(ws, ss, n);
    var h, m := ws[n].hosts[ss[n].p.dst], ParseMsg(ss[n].p.data).value;
    assert HostOk(ws[n].past, ss[n].p.dst, h);
    forall j | 0 <= j < k
      ensures !ReqHit(h.reqs[j], m.handle, ApAddr(m), {Accept})
    {
      assert !Clash(h.reqs[j], h.reqs[k]);
    }
  }

  /** In every run: an acknowledgement for an accept that is still retransmitted ends this, if
      and only if a port is mapped to the address the accept gave. It sends and reports
      nothing. */
  lemma AckIsHeeded(ws: seq<World>, ss: seq<Step>, n: nat, k: nat)
    requires IsRun(ws, ss) && n < |ss| && AckArrives(ws, ss, n, k)
    ensures var id, m := ss[n].p.dst, ParseMsg(ss[n].p.data).value;
            var h := ws[n].hosts[id];
            && ws[n + 1].hosts == ws[n].hosts[id := if MappedTo(h, ApAddr(m)) then Done(h, k) else h]
            && ws[n + 1].net == ws[n].net && ws[n + 1].notes == ws[n].notes
  {
    assert Enabled(ws[n], ss[n]) && ws[n + 1] == Next(ws[n], ss[n]);
    ArrivesFirst(ws, ss, n, k);
    AckEnds(ws[n].hosts[ss[n].p.dst], ParseMsg(ss[n].p.data).value, k);
  }

  /** And then no sweep sends the accept again, for the rest of the run. */
  lemma AckIsFinal(ws: seq<World>, ss: seq<Step>, i: nat, n: nat, k: nat)
    requires IsRun(ws, ss) && i < n < |ws| && AckArrives(ws, ss, i, k)
    requires MappedTo(ws[i].hosts[ss[i].p.dst], ApAddr(ParseMsg(ss[i].p.data).value))
    ensures var id := ss[i].p.dst; var rid := ws[i].hosts[id].reqs[k].rid;
            SentAgain(ws, ss, n, id, rid) == SentAgain(ws, ss, i, id, rid)
  {
    var h, m := ws[i].hosts[ss[i].p.dst], ParseMsg(ss[i].p.data).value;
    ArrivesFirst(ws, ss, i, k);
    AckFindsEntry(h, ss[i], m, k);
    FoundStaysQuiet(ws, ss, i, n, ss[i].p.dst, h.reqs[k].rid);
  }

  lemma AckFindsEntry(h: Host, s: Step, m: MsgParms, k: nat)
    requires s.Deliver? && ParseMsg(s.p.data) == Some(m) && m.mt == MT_ACK && Acknowledged(h, m, k)
    requires MappedTo(h, ApAddr(m))
    ensures Finds(h, s, h.reqs[k].rid)
  {
    AckFinds(h, m);
    var op := Update(m.handle, ApAddr(m), {Accept});
    assert ListOps(h, s) == [op];
    assert FindReq(h.reqs, op.handle, op.addr, op.kinds) == Some(k);
    assert op in ListOps(h, s);
  }

  // ----- the whole exchange

  /** The answering host finds its own port by the address it gave, if the port is a wildcard
      or has the family that was asked for. */
  lemma OwnPortIsMapped(h: Host, m: MsgParms, i: nat)
    requires Tbl.TableInv(h.table) && i < |h.table.ports| && m.family != Other
    requires h.table.ports[i].wcard || h.table.ports[i].local.family == m.family
    ensures MappedTo(h, MappedLocal(m, h.table.ports[i]))
  {
    assert Tbl.PortOk(h.table.ports[i]);
  }

  /** The accept is acknowledged by the host that asked. */
  lemma AckGoesOut(w: World, p: Packet, env: WireEnv, m: MsgParms, h: Host, q: QueryArgs)
    requires p in w.net && p.dst in w.hosts && ParseMsg(p.data) == Some(m) && m.mt == MT_ACC
    requires CanAsk(h, q) && w.hosts[p.dst] == Asked(h, q) && Tbl.TableInv(h.table)
    requires SameAddr(CpAddr(m), q.local) && m.handle == q.ptr && env.delivered && env.memory && env.queued
    ensures Enabled(w, Deliver(p, env)) && Enabled(Next(w, Deliver(p, env)), Posted(p.dst))
    ensures var w2 := Next(Next(w, Deliver(p, env)), Posted(p.dst));
            && Packet(p.dst, p.src, FormMsg(m.(mt := MT_ACK))) in w2.net
            && w2.hosts.Keys == w.hosts.Keys && forall x :: x in w.hosts && x != p.dst ==> w2.hosts[x] == w.hosts[x]
  {
    AcceptFinds(h, q, CpAddr(m));
    var w1, ack := Next(w, Deliver(p, env)), SendMsg(p.src, FormMsg(m.(mt := MT_ACK)));
    assert w1.hosts[p.dst].cont.Posting? && w1.hosts[p.dst].cont.sends == [ack];
    assert ack in StepEffect(w1, Posted(p.dst)).sends;
  }

  /** The acknowledgement reaches the host that answered. */
  lemma AckComesIn(w: World, p: Packet, env: WireEnv, m: MsgParms, h: Host, req: MsgParms, src: nat, env0: WireEnv)
    requires p in w.net && p.dst in w.hosts && ParseMsg(p.data) == Some(m) && m.mt == MT_ACK
    requires Knows(h, req, env0) && Unclaimed(h, req, env0) && w.hosts[p.dst] == Answered(h, req, src, env0)
    requires m.handle == req.handle != 0 && req.family != Other
    requires ApAddr(m) == MappedLocal(req, AnswerPort(h, req, env0))
    ensures Enabled(w, Deliver(p, env))
    ensures var h' := Answered(h, req, src, env0);
            && |h'.reqs| > 0
            && Next(w, Deliver(p, env)).hosts[p.dst] == if MappedTo(h, ApAddr(m)) then Done(h', 0) else h'
  {
    var h' := Answered(h, req, src, env0);
    SameMapped(req, req, AnswerPort(h, req, env0));
    assert Acknowledged(h', m, 0);
    assert MappedTo(h, ApAddr(m)) <==> MappedTo(h', ApAddr(m)) by { assert h.table == h'.table; }
    AckEnds(h', m, 0);
  }

  /** The handshake with its acknowledgement. */
  function FullHandshake(w: World, a: nat, b: nat, q: QueryArgs, env: WireEnv, env': WireEnv, env'': WireEnv): seq<Step>
    requires a in w.hosts && b in w.hosts && CanAsk(w.hosts[a], q)
    requires Knows(w.hosts[b], Arrives(w.hosts[a], q), env)
  {
    var m := Arrives(w.hosts[a], q);
    var acc := AcceptParms(m, AnswerPort(w.hosts[b], m, env));
    [Ask(a, q), Posted(a)]
    + ([Deliver(Packet(a, b, FormMsg(m)), env), Posted(b)]
       + ([Deliver(Packet(b, a, FormMsg(acc)), env'), Posted(a)]
          + [Deliver(Packet(a, b, FormMsg(OnWire(acc).(mt := MT_ACK))), env'')]))
  }

  /** The last three steps: the accept arrives, is acknowledged, and the acknowledgement
      arrives. */
  lemma Settles(w: World, a: nat, b: nat, h: Host, h': Host, q: QueryArgs, env: WireEnv, env': WireEnv, env'': WireEnv)
    returns (w': World)
    requires a in w.hosts && b in w.hosts && a != b && CanAsk(h, q) && w.hosts[a] == Asked(h, q)
    requires Tbl.TableInv(h.table) && env'.delivered && env'.memory && env'.queued
    requires Knows(h', Arrives(h, q), env) && Unclaimed(h', Arrives(h, q), env)
    requires w.hosts[b] == Answered(h', Arrives(h, q), a, env)
    requires Packet(b, a, FormMsg(AcceptParms(Arrives(h, q), AnswerPort(h', Arrives(h, q), env)))) in w.net
    ensures var m, r := Arrives(h, q), AnswerPort(h', Arrives(h, q), env);
            var ss := [Deliver(Packet(b, a, FormMsg(AcceptParms(m, r))), env'), Posted(a)]
                      + [Deliver(Packet(a, b, FormMsg(OnWire(AcceptParms(m, r)).(mt := MT_ACK))), env'')];
            && Able(w, ss) && After(w, ss) == w' && b in w'.hosts && |Answered(h', m, a, env).reqs| > 0
            && w'.hosts[b] == if MappedTo(h', MappedFor(q.remote, r)) then Done(Answered(h', m, a, env), 0)
                              else Answered(h', m, a, env)
  {
    var m, r := Arrives(h, q), AnswerPort(h', Arrives(h, q), env);
    var acc := AcceptParms(m, r);
    var ans, ack := Packet(b, a, FormMsg(acc)), Packet(a, b, FormMsg(OnWire(acc).(mt := MT_ACK)));
    AcceptCarries(h, q, r);
    ParseForm(acc);
    ParseForm(OnWire(acc).(mt := MT_ACK));
    AckGoesOut(w, ans, env', OnWire(acc), h, q);
    var w2 := Next(Next(w, Deliver(ans, env')), Posted(a));
    AckComesIn(w2, ack, env'', OnWire(acc).(mt := MT_ACK), h', m, a, env);
    LastStep(w2, Deliver(ack, env''));
    TwoSteps(w, Deliver(ans, env'), Posted(a), [Deliver(ack, env'')]);
    w' := Next(w2, Deliver(ack, env''));
  }

  /** From every state that satisfies the invariant: seven steps that nothing disturbs are
      possible, if no answer is outstanding. At their end the accept is done, if and only if
      the address it gave is that of a mapped port, which it is for a wildcard and for a port
      of the family asked for. */
  lemma HandshakeSettles(w: World, a: nat, b: nat, q: QueryArgs, env: WireEnv, env': WireEnv, env'': WireEnv)
    requires Inv(w) && Enabled(w, Ask(a, q)) && b in w.hosts && a != b && q.dest == b
    requires CanAsk(w.hosts[a], q) && Knows(w.hosts[b], Arrives(w.hosts[a], q), env)
    requires Unclaimed(w.hosts[b], Arrives(w.hosts[a], q), env) && env'.delivered && env'.memory && env'.queued
    ensures var ss, m := FullHandshake(w, a, b, q, env, env', env''), Arrives(w.hosts[a], q);
            var r, mine := AnswerPort(w.hosts[b], m, env), Answered(w.hosts[b], m, a, env);
            && Able(w, ss) && b in After(w, ss).hosts && |mine.reqs| > 0
            && After(w, ss).hosts[b] == (if MappedTo(w.hosts[b], MappedFor(q.remote, r)) then Done(mine, 0) else mine)
            && (r.wcard || r.local.family == q.remote.family ==> MappedTo(w.hosts[b], MappedFor(q.remote, r)))
  {
    var h, h', m := w.hosts[a], w.hosts[b], Arrives(w.hosts[a], q);
    var r := AnswerPort(h', m, env);
    var acc := AcceptParms(m, r);
    var rest := [Deliver(Packet(b, a, FormMsg(acc)), env'), Posted(a)]
                + [Deliver(Packet(a, b, FormMsg(OnWire(acc).(mt := MT_ACK))), env'')];
    assert HostOk(w.past, a, h) && HostOk(w.past, b, h');
    var w4 := Exchange(w, a, b, q, env, rest);
    var w7 := Settles(w4, a, b, h, h', q, env, env', env'');
    if r.wcard || r.local.family == q.remote.family {
      OwnPortIsMapped(h', m, Tbl.Find(h'.table.ports, Tbl.Loose(ApAddr(m), true)).value);
    }
  }
}
