/** When the handshake gets through: from every reachable state in which the two hosts are
    at rest, five steps that nothing disturbs lead to a report at either end, unless an
    answer with the handle of the query is outstanding. */
module IwpmCompletion {
  import opened IwpmTypes
  import opened IwpmWire
  import opened IwpmRequests
  import opened IwpmHost
  import opened IwpmProtocol
  import Tbl = IwpmTable

  /** The query gets a port and nothing fails on the way out. */
  predicate CanAsk(h: Host, q: QueryArgs) {
    && h.cont.Idle? && q.ptr != 0 && q.queued && QueryTable(h, q).1.Acquired?
    && q.local.family == q.remote.family != Other && !IsWild(q.local)
  }

  function PortFor(h: Host, q: QueryArgs): MappedPort
    requires CanAsk(h, q)
  {
    QueryTable(h, q).1.port
  }

  /** The request as it arrives. */
  function Arrives(h: Host, q: QueryArgs): MsgParms
    requires CanAsk(h, q)
  {
    QueryParms(q.local, q.remote, PortFor(h, q).mapped, q.ptr)
  }

  /** The host after the query was posted. */
  function Asked(h: Host, q: QueryArgs): Host
    requires CanAsk(h, q)
  {
    PostStep(QueryStep(h, q).host).host
  }

  lemma AskSends(h: Host, q: QueryArgs)
    requires CanAsk(h, q)
    ensures var e := QueryStep(h, q);
            && e.sends == [] && e.notes == [] && e.host.cont.Posting?
            && PostStep(e.host).sends == [QueryMsg(q, PortFor(h, q))] && PostStep(e.host).notes == []
    ensures ParseMsg(QueryMsg(q, PortFor(h, q)).data) == Some(Arrives(h, q))
  {
    ParseForm(Arrives(h, q));
  }

  /** The host knows a port for the address and nothing fails on the way out. */
  predicate Knows(h: Host, m: MsgParms, env: WireEnv) {
    && h.cont.Idle? && env.memory && env.queued && env.delivered
    && Tbl.Find(h.table.ports, Tbl.Loose(ApAddr(m), true)).Some?
  }

  function AnswerPort(h: Host, m: MsgParms, env: WireEnv): MappedPort
    requires Knows(h, m, env)
  {
    h.table.ports[Tbl.Find(h.table.ports, Tbl.Loose(ApAddr(m), true)).value]
  }

  /** No answer with this handle and mapped address is outstanding. */
  predicate Unclaimed(h: Host, m: MsgParms, env: WireEnv)
    requires Knows(h, m, env)
  {
    FindReq(h.reqs, m.handle, MappedLocal(m, AnswerPort(h, m, env)), {Accept}).None?
  }

  lemma AnswerSends(h: Host, m: MsgParms, src: nat, env: WireEnv)
    requires Knows(h, m, env) && Unclaimed(h, m, env) && Sendable(m)
    ensures var e, p := RequestStep(h, m, src, env), AnswerPort(h, m, env);
            && e.sends == [] && e.notes == [] && e.host.cont.Posting?
            && PostStep(e.host).sends == [SendMsg(src, FormMsg(AcceptParms(m, p)))]
            && PostStep(e.host).notes == [Incoming(m.handle, p.local, CpAddr(m), p.mapped, MappedCpAddr(m), p.id)]
            && ParseMsg(FormMsg(AcceptParms(m, p))) == Some(OnWire(AcceptParms(m, p)))
  {
    ParseForm(AcceptParms(m, AnswerPort(h, m, env)));
  }

  /** The accept finds the port and the request of the query again. */
  lemma AcceptFinds(h: Host, q: QueryArgs, addr: SockAddr)
    requires CanAsk(h, q) && Tbl.TableInv(h.table) && SameAddr(addr, q.local)
    ensures var h2, p := Asked(h, q), PortFor(h, q);
            && h2.cont.Idle?
            && var f := Tbl.Find(h2.table.ports, Tbl.Exact(addr, true));
               f.Some? && h2.table.ports[f.value] == p
               && FindReq(h2.reqs, q.ptr, p.local, {Query, Ack}) == Some(0)
               && h2.reqs[0] == NewRequest(h.nextRid, q.nl, p.local, q.remote, 0, Query, Some(QueryMsg(q, p)), q.ptr)
  {
    var t, p := QueryTable(h, q).0, PortFor(h, q);
    Tbl.QueryKeeps(h.table, q.local, q.client, q.noMap, q.env, q.remote.family != Other && q.memory);
    var i :| 0 <= i < |t.ports| && t.ports[i] == p;
    var f := Tbl.Find(t.ports, Tbl.Exact(addr, true));
    assert Tbl.Hit(Tbl.Exact(addr, true), t.ports[i]);
    Tbl.UniqueCandidate(t, Tbl.Exact(addr, true), f.value, i);
    assert ReqHit(Asked(h, q).reqs[0], q.ptr, p.local, {Query, Ack});
  }

  /** The report of the accept. */
  lemma AcceptReports(h: Host, q: QueryArgs, m: MsgParms, src: nat, env: WireEnv)
    requires CanAsk(h, q) && Tbl.TableInv(h.table) && SameAddr(CpAddr(m), q.local) && m.handle == q.ptr && env.delivered
    ensures var h2, p := Asked(h, q), PortFor(h, q);
            && h2.cont.Idle?
            && AcceptStep(h2, m, src, env).notes ==
               [Connected(h.nextRid, q.ptr, p.local, q.remote, p.mapped, ApAddr(m), p.id, q.nl)]
  {
    AcceptFinds(h, q, CpAddr(m));
  }

  // ----- the five steps

  ghost predicate Able(w: World, ss: seq<Step>)
    decreases |ss|
  {
    ss == [] || (Enabled(w, ss[0]) && Able(Next(w, ss[0]), ss[1..]))
  }

  ghost function After(w: World, ss: seq<Step>): World
    requires Able(w, ss)
    decreases |ss|
  {
    if ss == [] then w else After(Next(w, ss[0]), ss[1..])
  }

  /** Host `a` asks; its request reaches host `b`; the answer reaches host `a`. */
  function Handshake(w: World, a: nat, b: nat, q: QueryArgs, env: WireEnv, env': WireEnv): seq<Step>
    requires a in w.hosts && b in w.hosts && CanAsk(w.hosts[a], q)
    requires Knows(w.hosts[b], Arrives(w.hosts[a], q), env)
  {
    var m := Arrives(w.hosts[a], q);
    [Ask(a, q), Posted(a)]
    + ([Deliver(Packet(a, b, FormMsg(m)), env), Posted(b)]
       + [Deliver(Packet(b, a, FormMsg(AcceptParms(m, AnswerPort(w.hosts[b], m, env)))), env')])
  }

  lemma LastStep(w: World, s: Step)
    requires Enabled(w, s)
    ensures Able(w, [s]) && After(w, [s]) == Next(w, s)
  {
    assert [s][1..] == [];
  }

  lemma TwoSteps(w: World, s: Step, t: Step, rest: seq<Step>)
    requires Enabled(w, s) && Enabled(Next(w, s), t)
    ensures var w2 := Next(Next(w, s), t);
            && (Able(w, [s, t] + rest) <==> Able(w2, rest))
            && (Able(w2, rest) ==> After(w, [s, t] + rest) == After(w2, rest))
  {
    var ss := [s, t] + rest;
    assert ss[1..] == [t] + rest && ss[1..][1..] == rest;
  }

  lemma SecondFails(w: World, s: Step, t: Step, rest: seq<Step>)
    requires Enabled(w, s) && !Enabled(Next(w, s), t)
    ensures !Able(w, [s, t] + rest)
  {
    var ss := [s, t] + rest;
    assert ss[1..] == [t] + rest;
  }

  /** A host is about to post, and then has posted. */
  lemma AskPosts(w: World, a: nat, q: QueryArgs)
    requires Enabled(w, Ask(a, q)) && CanAsk(w.hosts[a], q)
    ensures Enabled(Next(w, Ask(a, q)), Posted(a))
    ensures var w2 := Next(Next(w, Ask(a, q)), Posted(a));
            && w2.hosts == w.hosts[a := Asked(w.hosts[a], q)] && w2.notes == w.notes
            && w2.past.issued == w.past.issued[(a, q.ptr) := Issue(q.local, q.remote, PortFor(w.hosts[a], q), q.dest)]
            && Packet(a, q.dest, FormMsg(Arrives(w.hosts[a], q))) in w2.net
  {
    AskSends(w.hosts[a], q);
    var w1 := Next(w, Ask(a, q));
    var w2 := Next(w1, Posted(a));
    assert w2.hosts == w.hosts[a := Asked(w.hosts[a], q)];
    assert QueryMsg(q, PortFor(w.hosts[a], q)) in StepEffect(w1, Posted(a)).sends;
  }

  /** The host after its answer was posted. */
  function Answered(h: Host, m: MsgParms, src: nat, env: WireEnv): Host
    requires Knows(h, m, env) && Unclaimed(h, m, env)
  {
    PostStep(RequestStep(h, m, src, env).host).host
  }

  lemma AnswerPosts(w: World, p: Packet, env: WireEnv, m: MsgParms)
    requires p in w.net && p.dst in w.hosts && ParseMsg(p.data) == Some(m) && m.mt == MT_REQ && Sendable(m)
    requires Knows(w.hosts[p.dst], m, env) && Unclaimed(w.hosts[p.dst], m, env)
    ensures Enabled(w, Deliver(p, env)) && Enabled(Next(w, Deliver(p, env)), Posted(p.dst))
    ensures var w2, port := Next(Next(w, Deliver(p, env)), Posted(p.dst)), AnswerPort(w.hosts[p.dst], m, env);
            && w2.hosts == w.hosts[p.dst := Answered(w.hosts[p.dst], m, p.src, env)]
            && w2.past.issued == w.past.issued
            && w2.notes == w.notes + [HostNote(p.dst,
                 Incoming(m.handle, port.local, CpAddr(m), port.mapped, MappedCpAddr(m), port.id))]
            && Packet(p.dst, p.src, FormMsg(AcceptParms(m, port))) in w2.net
  {
    AnswerSends(w.hosts[p.dst], m, p.src, env);
    var w1 := Next(w, Deliver(p, env));
    var w2 := Next(w1, Posted(p.dst));
    assert w1.notes == w.notes;
    assert w2.hosts == w.hosts[p.dst := Answered(w.hosts[p.dst], m, p.src, env)];
    var acc := AcceptParms(m, AnswerPort(w.hosts[p.dst], m, env));
    assert SendMsg(p.src, FormMsg(acc)) in StepEffect(w1, Posted(p.dst)).sends;
  }

  /** The accept comes back to the host that asked. */
  lemma AcceptArrives(w: World, p: Packet, env: WireEnv, m: MsgParms, h: Host, q: QueryArgs)
    requires p in w.net && p.dst in w.hosts && ParseMsg(p.data) == Some(m) && m.mt == MT_ACC
    requires CanAsk(h, q) && w.hosts[p.dst] == Asked(h, q) && Tbl.TableInv(h.table)
    requires SameAddr(CpAddr(m), q.local) && m.handle == q.ptr && env.delivered
    ensures Enabled(w, Deliver(p, env))
    ensures var port := PortFor(h, q);
            Next(w, Deliver(p, env)).notes == w.notes
            + [HostNote(p.dst,
                 Connected(h.nextRid, q.ptr, port.local, q.remote, port.mapped, ApAddr(m), port.id, q.nl))]
  {
    AcceptReports(h, q, m, p.src, env);
  }

  /** The accept carries the address asked from and the mapped address asked for. */
  lemma AcceptCarries(h: Host, q: QueryArgs, r: MappedPort)
    requires CanAsk(h, q)
    ensures var m := OnWire(AcceptParms(Arrives(h, q), r));
            && m.mt == MT_ACC && m.handle == q.ptr && SameAddr(CpAddr(m), q.local)
            && ApAddr(m) == MappedFor(q.remote, r)
    ensures Sendable(Arrives(h, q))
  {
  }

  /** A request for which an answer is outstanding changes nothing at all. */
  lemma ClaimedIsIgnored(w: World, p: Packet, env: WireEnv, m: MsgParms)
    requires p in w.net && p.dst in w.hosts && ParseMsg(p.data) == Some(m) && m.mt == MT_REQ
    requires Knows(w.hosts[p.dst], m, env) && !Unclaimed(w.hosts[p.dst], m, env)
    ensures Enabled(w, Deliver(p, env)) && Next(w, Deliver(p, env)) == w
  {
    var w' := Next(w, Deliver(p, env));
    assert StepEffect(w, Deliver(p, env)) == Quiet(w.hosts[p.dst]);
    assert w'.hosts == w.hosts && w'.net == w.net && w'.notes == w.notes;
  }

  /** What the two hosts report: each its own port and the mapped address of the other. */
  function Reports(w: World, a: nat, b: nat, q: QueryArgs, env: WireEnv): seq<HostNote>
    requires a in w.hosts && b in w.hosts && CanAsk(w.hosts[a], q)
    requires Knows(w.hosts[b], Arrives(w.hosts[a], q), env)
  {
    var h, m := w.hosts[a], Arrives(w.hosts[a], q);
    var p, r := PortFor(h, q), AnswerPort(w.hosts[b], m, env);
    [ HostNote(b, Incoming(q.ptr, r.local, CpAddr(m), r.mapped, MappedCpAddr(m), r.id)),
      HostNote(a, Connected(h.nextRid, q.ptr, p.local, q.remote, p.mapped, MappedFor(q.remote, r), p.id, q.nl)) ]
  }

  /** The first four steps, when nothing is outstanding: both hosts have posted. */
  lemma Exchange(w: World, a: nat, b: nat, q: QueryArgs, env: WireEnv, rest: seq<Step>) returns (w4: World)
    requires Enabled(w, Ask(a, q)) && b in w.hosts && a != b && q.dest == b && CanAsk(w.hosts[a], q)
    requires Knows(w.hosts[b], Arrives(w.hosts[a], q), env) && Unclaimed(w.hosts[b], Arrives(w.hosts[a], q), env)
    ensures var m := Arrives(w.hosts[a], q);
            && w4.hosts == w.hosts[a := Asked(w.hosts[a], q)][b := Answered(w.hosts[b], m, a, env)]
            && w4.notes == w.notes + [Reports(w, a, b, q, env)[0]]
            && Packet(b, a, FormMsg(AcceptParms(m, AnswerPort(w.hosts[b], m, env)))) in w4.net
            && w4.past.issued.Keys == w.past.issued.Keys + {(a, q.ptr)}
            && var ss := [Ask(a, q), Posted(a)] + ([Deliver(Packet(a, b, FormMsg(m)), env), Posted(b)] + rest);
               (Able(w, ss) <==> Able(w4, rest)) && (Able(w4, rest) ==> After(w, ss) == After(w4, rest))
  {
    var h, m := w.hosts[a], Arrives(w.hosts[a], q);
    var req := Packet(a, b, FormMsg(m));
    AskPosts(w, a, q);
    AskSends(h, q);
    AcceptCarries(h, q, AnswerPort(w.hosts[b], m, env));
    var w2 := Next(Next(w, Ask(a, q)), Posted(a));
    AnswerPosts(w2, req, env, m);
    w4 := Next(Next(w2, Deliver(req, env)), Posted(b));
    TwoSteps(w2, Deliver(req, env), Posted(b), rest);
    TwoSteps(w, Ask(a, q), Posted(a), [Deliver(req, env), Posted(b)] + rest);
  }

  /** The five steps when nothing is outstanding. */
  lemma HandshakeReports(w: World, a: nat, b: nat, q: QueryArgs, env: WireEnv, env': WireEnv)
    requires Inv(w) && Enabled(w, Ask(a, q)) && b in w.hosts && a != b && q.dest == b
    requires CanAsk(w.hosts[a], q) && Knows(w.hosts[b], Arrives(w.hosts[a], q), env) && env'.delivered
    requires Unclaimed(w.hosts[b], Arrives(w.hosts[a], q), env)
    ensures var ss := Handshake(w, a, b, q, env, env');
            Able(w, ss) && After(w, ss).notes == w.notes + Reports(w, a, b, q, env)
  {
    var h, m := w.hosts[a], Arrives(w.hosts[a], q);
    var acc := AcceptParms(m, AnswerPort(w.hosts[b], m, env));
    var ans := Packet(b, a, FormMsg(acc));
    var w4 := Exchange(w, a, b, q, env, [Deliver(ans, env')]);
    AcceptCarries(h, q, AnswerPort(w.hosts[b], m, env));
    AnswerSends(w.hosts[b], m, a, env);
    assert HostOk(w.past, a, h);
    AcceptArrives(w4, ans, env', OnWire(acc), h, q);
    LastStep(w4, Deliver(ans, env'));
    var rs := Reports(w, a, b, q, env);
    assert w.notes + [rs[0]] + [rs[1]] == w.notes + rs;
  }

  /** When the handshake succeeds. The five steps are possible, and lead to one report at
      either end, if and only if the answering host has no answer outstanding with the
      handle of the query and the mapped address. If it has one, the request changes
      nothing when it arrives: there is no answer, no reject and no report. */
  lemma HandshakeCompletes(w: World, a: nat, b: nat, q: QueryArgs, env: WireEnv, env': WireEnv)
    requires Inv(w) && Enabled(w, Ask(a, q)) && b in w.hosts && a != b && q.dest == b
    requires CanAsk(w.hosts[a], q) && Knows(w.hosts[b], Arrives(w.hosts[a], q), env) && env'.delivered
    ensures var ss := Handshake(w, a, b, q, env, env');
            && (Able(w, ss) <==> Unclaimed(w.hosts[b], Arrives(w.hosts[a], q), env))
            && (Able(w, ss) ==> After(w, ss).notes == w.notes + Reports(w, a, b, q, env))
            && (!Able(w, ss) ==> RequestIgnored(w, a, b, q, env))
  {
    if Unclaimed(w.hosts[b], Arrives(w.hosts[a], q), env) {
      HandshakeReports(w, a, b, q, env, env');
    } else {
      var acc := AcceptParms(Arrives(w.hosts[a], q), AnswerPort(w.hosts[b], Arrives(w.hosts[a], q), env));
      HandshakeStops(w, a, b, q, env, [Deliver(Packet(b, a, FormMsg(acc)), env')]);
    }
  }

  /** The query is posted, its request arrives, and nothing changes. */
  ghost predicate RequestIgnored(w: World, a: nat, b: nat, q: QueryArgs, env: WireEnv)
    requires Enabled(w, Ask(a, q)) && CanAsk(w.hosts[a], q)
  {
    && Enabled(Next(w, Ask(a, q)), Posted(a))
    && var w2 := Next(Next(w, Ask(a, q)), Posted(a));
       var request := Deliver(Packet(a, b, FormMsg(Arrives(w.hosts[a], q))), env);
       Enabled(w2, request) && Next(w2, request) == w2
  }

  /** When an answer is outstanding, the host has nothing to post. */
  lemma HandshakeStops(w: World, a: nat, b: nat, q: QueryArgs, env: WireEnv, rest: seq<Step>)
    requires Enabled(w, Ask(a, q)) && b in w.hosts && a != b && q.dest == b && CanAsk(w.hosts[a], q)
    requires Knows(w.hosts[b], Arrives(w.hosts[a], q), env) && !Unclaimed(w.hosts[b], Arrives(w.hosts[a], q), env)
    ensures RequestIgnored(w, a, b, q, env)
    ensures var request := Deliver(Packet(a, b, FormMsg(Arrives(w.hosts[a], q))), env);
            !Able(w, [Ask(a, q), Posted(a)] + ([request, Posted(b)] + rest))
  {
    var m := Arrives(w.hosts[a], q);
    var request := Deliver(Packet(a, b, FormMsg(m)), env);
    AskPosts(w, a, q);
    AskSends(w.hosts[a], q);
    var w2 := Next(Next(w, Ask(a, q)), Posted(a));
    ClaimedIsIgnored(w2, request.p, env, m);
    SecondFails(w2, request, Posted(b), rest);
    TwoSteps(w, Ask(a, q), Posted(a), [request, Posted(b)] + rest);
  }

  // ----- two hosts, one handle

  /** Hosts `a` and `c` can ask host `b` for one address with one handle, and `b` serves it. */
  ghost predicate BothCanAsk(w: World, a: nat, b: nat, c: nat, q: QueryArgs, q': QueryArgs, env: WireEnv,
                             env': WireEnv) {
    && Enabled(w, Ask(a, q)) && Enabled(w, Ask(c, q')) && b in w.hosts && a != b && c != b && a != c
    && CanAsk(w.hosts[a], q) && CanAsk(w.hosts[c], q') && q.dest == b && q'.dest == b
    && q.ptr == q'.ptr && SameAddr(q.remote, q'.remote)
    && Knows(w.hosts[b], Arrives(w.hosts[a], q), env) && Unclaimed(w.hosts[b], Arrives(w.hosts[a], q), env)
    && env'.memory && env'.queued && env'.delivered
  }

  /** Handles are new for each host, but not across hosts. Hosts `a` and `c` ask host `b` for
      one address, and their requests happen to have one handle. Once `b` has answered `a`,
      the request of `c` changes nothing, although `b` serves the address. */
  lemma OtherHostIsIgnored(w: World, a: nat, b: nat, c: nat, q: QueryArgs, q': QueryArgs, env: WireEnv, env': WireEnv)
    requires Inv(w) && BothCanAsk(w, a, b, c, q, q', env, env')
    ensures var ss := BothAsk(w, a, b, c, q, q', env);
            var request := Deliver(Packet(c, b, FormMsg(Arrives(w.hosts[c], q'))), env');
            Able(w, ss) && Ignored(After(w, ss), request, c, b)
  {
    var w4 := Exchange(w, a, b, q, env, [Ask(c, q'), Posted(c)] + []);
    OtherAsksInVain(w, w4, a, b, c, q, q', env, env');
  }

  lemma OtherAsksInVain(w: World, w4: World, a: nat, b: nat, c: nat, q: QueryArgs, q': QueryArgs,
                        env: WireEnv, env': WireEnv)
    requires BothCanAsk(w, a, b, c, q, q', env, env') && w4.past.issued.Keys == w.past.issued.Keys + {(a, q.ptr)}
    requires var m := Arrives(w.hosts[a], q);
             w4.hosts == w.hosts[a := Asked(w.hosts[a], q)][b := Answered(w.hosts[b], m, a, env)]
    ensures Able(w4, [Ask(c, q'), Posted(c)] + [])
    ensures var request := Deliver(Packet(c, b, FormMsg(Arrives(w.hosts[c], q'))), env');
            Ignored(After(w4, [Ask(c, q'), Posted(c)] + []), request, c, b)
  {
    AnswerClaims(w.hosts[b], Arrives(w.hosts[a], q), a, env, Arrives(w.hosts[c], q'), env');
    AsksInVain(w4, b, c, q', env');
  }

  /** A query whose request finds an answer with its handle outstanding. */
  lemma AsksInVain(w: World, b: nat, c: nat, q: QueryArgs, env: WireEnv)
    requires Enabled(w, Ask(c, q)) && CanAsk(w.hosts[c], q) && b in w.hosts && b != c && q.dest == b
    requires Knows(w.hosts[b], Arrives(w.hosts[c], q), env) && !Unclaimed(w.hosts[b], Arrives(w.hosts[c], q), env)
    ensures Able(w, [Ask(c, q), Posted(c)] + [])
    ensures var request := Deliver(Packet(c, b, FormMsg(Arrives(w.hosts[c], q))), env);
            Ignored(After(w, [Ask(c, q), Posted(c)] + []), request, c, b)
  {
    var m := Arrives(w.hosts[c], q);
    AskPosts(w, c, q);
    AskSends(w.hosts[c], q);
    ClaimedIsIgnored(Next(Next(w, Ask(c, q)), Posted(c)), Packet(c, b, FormMsg(m)), env, m);
    TwoSteps(w, Ask(c, q), Posted(c), []);
  }

  /** Step `s` delivers a request that host `c` issued to host `b`, which serves the address
      asked for; and nothing happens. */
  ghost predicate Ignored(w: World, s: Step, c: nat, b: nat) {
    && Enabled(w, s) && Next(w, s) == w && s.Deliver? && s.p.src == c && s.p.dst == b
    && var pm := ParseMsg(s.p.data);
       && pm.Some? && pm.value.mt == MT_REQ && (c, pm.value.handle) in w.past.issued
       && w.past.issued[(c, pm.value.handle)].dest == b && Knows(w.hosts[b], pm.value, s.env)
  }

  function BothAsk(w: World, a: nat, b: nat, c: nat, q: QueryArgs, q': QueryArgs, env: WireEnv): seq<Step>
    requires a in w.hosts && CanAsk(w.hosts[a], q)
  {
    [Ask(a, q), Posted(a)]
    + ([Deliver(Packet(a, b, FormMsg(Arrives(w.hosts[a], q))), env), Posted(b)] + ([Ask(c, q'), Posted(c)] + []))
  }

  lemma SameMapped(m: MsgParms, m': MsgParms, p: MappedPort)
    requires m.family != Other && ApAddr(m') == ApAddr(m)
    ensures MappedLocal(m', p) == MappedLocal(m, p) && SameAddr(MappedLocal(m, p), MappedLocal(m, p))
  {
  }

  /** An answer claims its handle for the address. */
  lemma AnswerClaims(h: Host, m: MsgParms, src: nat, env: WireEnv, m': MsgParms, env': WireEnv)
    requires Knows(h, m, env) && Unclaimed(h, m, env) && m.handle != 0 && m.family != Other
    requires m'.handle == m.handle && ApAddr(m') == ApAddr(m) && env'.memory && env'.queued && env'.delivered
    ensures var h' := Answered(h, m, src, env); Knows(h', m', env') && !Unclaimed(h', m', env')
  {
    SameMapped(m, m', AnswerPort(h, m, env));
    var h' := Answered(h, m, src, env);
    assert h'.reqs[0] == RequestStep(h, m, src, env).host.cont.req;
    assert ReqHit(h'.reqs[0], m'.handle, MappedLocal(m', AnswerPort(h, m, env)), {Accept});
  }

  // ----- such a run exists

  ghost predicate Linked(ws: seq<World>, ss: seq<Step>) {
    && |ws| == |ss| + 1
    && forall i :: 0 <= i < |ss| ==> Enabled(ws[i], ss[i]) && ws[i + 1] == Next(ws[i], ss[i])
  }

  lemma LinkFront(w: World, s: Step, ws: seq<World>, ss: seq<Step>)
    requires Linked(ws, ss) && Enabled(w, s) && ws[0] == Next(w, s)
    ensures Linked([w] + ws, [s] + ss)
  {
    var vs, ts := [w] + ws, [s] + ss;
    forall i | 0 <= i < |ts|
      ensures Enabled(vs[i], ts[i]) && vs[i + 1] == Next(vs[i], ts[i])
    {
      if i > 0 { assert vs[i] == ws[i - 1] && ts[i] == ss[i - 1] && vs[i + 1] == ws[i]; }
    }
  }

  lemma LinkBack(ws: seq<World>, ss: seq<Step>, s: Step)
    requires Linked(ws, ss) && Enabled(ws[|ss|], s)
    ensures Linked(ws + [Next(ws[|ss|], s)], ss + [s])
  {
    var vs, ts := ws + [Next(ws[|ss|], s)], ss + [s];
    forall i | 0 <= i < |ts|
      ensures Enabled(vs[i], ts[i]) && vs[i + 1] == Next(vs[i], ts[i])
    {
      if i < |ss| { assert vs[i] == ws[i] && ts[i] == ss[i] && vs[i + 1] == ws[i + 1]; }
    }
  }

  lemma {:induction false} RunOf(w: World, ss: seq<Step>) returns (ws: seq<World>)
    requires Able(w, ss)
    ensures Linked(ws, ss) && ws[0] == w && ws[|ss|] == After(w, ss)
    decreases |ss|
  {
    if ss == [] {
      ws := [w];
    } else {
      var rest := RunOf(Next(w, ss[0]), ss[1..]);
      LinkFront(w, ss[0], rest, ss[1..]);
      assert [ss[0]] + ss[1..] == ss;
      ws := [w] + rest;
    }
  }

  const SERVICE := SockAddr(V4, 80, 1, 0)
  const START := World(map[0 := INIT_HOST, 1 := INIT_HOST, 2 := INIT_HOST], {}, Past(map[], []), [])
  const LISTEN := Client(1, Tbl.AddOp(SERVICE, 0, true, Tbl.CreateEnv(None, true), true))

  /** A client behind IP address `ip` asks for the service, by a request object at address 7. */
  function AskFrom(ip: nat): QueryArgs {
    QueryArgs(SockAddr(V4, 90, ip, 0), SERVICE, 0, true, NlHeader(0, 0, 0), Tbl.CreateEnv(None, true), true, true, 7, 1)
  }

  /** Host 1 offers the service; hosts 0 and 2 ask for it, with equal handles. The request of
      host 2 arrives and nothing happens: no answer, no reject, no report. */
  lemma IgnoredInARun() returns (ws: seq<World>, ss: seq<Step>)
    ensures IsRun(ws, ss) && |ss| == 8 && Ignored(ws[7], ss[7], 2, 1)
  {
    var w1, env := Next(START, LISTEN), WireEnv(true, true, true, 9);
    Ready();
    ReadyToAsk();
    var mid, request := SomeIgnored(w1, 0, 1, 2, AskFrom(2), AskFrom(3), env, env);
    ws, ss := RunWith(START, LISTEN, mid, request);
  }

  lemma Ready()
    ensures Init(START) && Enabled(START, LISTEN) && Inv(Next(START, LISTEN))
  {
    CanListen();
    InitInv();
    InvStep(START, LISTEN);
  }

  lemma CanListen()
    ensures Enabled(START, LISTEN)
  {
  }

  lemma ReadyToAsk()
    ensures Enabled(START, LISTEN)
    ensures var env := WireEnv(true, true, true, 9);
            BothCanAsk(Next(START, LISTEN), 0, 1, 2, AskFrom(2), AskFrom(3), env, env)
  {
    Listening();
  }

  lemma SomeIgnored(w: World, a: nat, b: nat, c: nat, q: QueryArgs, q': QueryArgs, env: WireEnv, env': WireEnv)
    returns (ss: seq<Step>, request: Step)
    requires Inv(w) && BothCanAsk(w, a, b, c, q, q', env, env')
    ensures |ss| == 6 && Able(w, ss) && Ignored(After(w, ss), request, c, b)
  {
    OtherHostIsIgnored(w, a, b, c, q, q', env, env');
    ss, request := BothAsk(w, a, b, c, q, q', env), Deliver(Packet(c, b, FormMsg(Arrives(w.hosts[c], q'))), env');
  }

  lemma RunWith(w: World, first: Step, mid: seq<Step>, last: Step) returns (ws: seq<World>, ss: seq<Step>)
    requires Init(w) && Enabled(w, first) && Able(Next(w, first), mid) && Enabled(After(Next(w, first), mid), last)
    ensures IsRun(ws, ss) && |ss| == |mid| + 2 && ss[|mid| + 1] == last
    ensures var end := After(Next(w, first), mid); ws[|mid| + 1] == end && ws[|mid| + 2] == Next(end, last)
  {
    var rs := RunOf(Next(w, first), mid);
    LinkFront(w, first, rs, mid);
    ws, ss := [w] + rs, [first] + mid;
    LinkBack(ws, ss, last);
    ws, ss := ws + [Next(ws[|ss|], last)], ss + [last];
  }

  lemma InitInv()
    ensures Init(START) && Inv(START)
  {
    assert IsRun([START], []);
    RunOk([START], [], 0);
  }

  /** What host 1 knows after it offered the service, and the others before they ask. */
  lemma Listening()
    ensures Enabled(START, LISTEN)
    ensures var w, env := Next(START, LISTEN), WireEnv(true, true, true, 9);
            && w.hosts.Keys == {0, 1, 2} && w.hosts[0] == INIT_HOST && w.hosts[2] == INIT_HOST && w.past.issued == map[]
            && w.hosts[1].cont.Idle? && CanAsk(INIT_HOST, AskFrom(2)) && CanAsk(INIT_HOST, AskFrom(3))
            && Knows(w.hosts[1], Arrives(INIT_HOST, AskFrom(2)), env)
            && Unclaimed(w.hosts[1], Arrives(INIT_HOST, AskFrom(2)), env)
  {
  }
}
