/** What a report of a reject rests on: the host that was asked had no port for the address
    when the request reached it. */
module IwpmRejects {
  import opened IwpmTypes
  import opened IwpmWire
  import opened IwpmRequests
  import opened IwpmHost
  import opened IwpmProtocol
  import opened IwpmDuplicates
  import opened IwpmMessages
  import opened IwpmReplies
  import opened IwpmWaiting
  import Tbl = IwpmTable

  predicate IsReject(data: WireMsg) {
    ParseMsg(data).Some? && ParseMsg(data).value.mt == MT_REJ
  }

  // ----- where rejects come from

  lemma SweepDoesNotReject(past: Past, id: nat, h: Host, m: SendMsg)
    requires HostOk(past, id, h) && AllOwn(h) && m in SweepStep(h).sends
    ensures !IsReject(m.data)
  {
    SweepSendsIff(h, m);
    var i :| 0 <= i < |h.reqs| && h.reqs[i].kind != Ack && h.reqs[i].sendMsg == Some(m);
    assert Own(h.reqs[i]);
  }

  lemma PostDoesNotReject(h: Host, m: SendMsg)
    requires AllOwn(h) && h.cont.Posting? && m in PostStep(h).sends
    ensures !IsReject(m.data)
  {
    var i :| 0 <= i < |h.cont.sends| && h.cont.sends[i] == m;
    assert Sends(h.cont.req, m);
  }

  lemma AcceptDoesNotReject(h: Host, m: MsgParms, src: nat, env: WireEnv, s: SendMsg)
    requires h.cont.Idle? && Sendable(m) && s in AcceptStep(h, m, src, env).sends
    ensures !IsReject(s.data)
  {
    ParseForm(m.(mt := MT_ACK));
  }

  lemma RequestRejects(h: Host, m: MsgParms, src: nat, env: WireEnv, s: SendMsg)
    requires h.cont.Idle? && Sendable(m) && s in RequestStep(h, m, src, env).sends
    ensures (forall i :: !Serves(h, m, i)) && s == SendMsg(src, FormMsg(m.(mt := MT_REJ)))
  {
    var f := Tbl.Find(h.table.ports, Tbl.Loose(ApAddr(m), true));
    assert f.None?;
  }

  /** Step `k` delivers the request of host `to` with this handle to host `at`, which has no
      port for the address asked for. */
  ghost predicate RefusedAt(ws: seq<World>, ss: seq<Step>, k: int, at: nat, to: nat, handle: nat) {
    && 0 <= k < |ss| < |ws| && ss[k].Deliver? && ss[k].p.dst == at && ss[k].p.src == to && at in ws[k].hosts
    && RefusesAt(ws[k], ss[k], handle)
  }

  ghost predicate RefusesAt(w: World, s: Step, handle: nat)
    requires s.Deliver? && s.p.dst in w.hosts
  {
    var pm := ParseMsg(s.p.data);
    && pm.Some? && pm.value.mt == MT_REQ && pm.value.handle == handle
    && forall i :: !Serves(w.hosts[s.p.dst], pm.value, i)
  }

  /** A step that sends a reject is the delivery of a request nobody serves. */
  lemma RejectIsRefusal(w: World, s: Step, m: SendMsg)
    requires Inv(w) && WorldOwn(w) && Enabled(w, s) && m in StepEffect(w, s).sends && IsReject(m.data)
    ensures s.Deliver? && m.dest == s.p.src && RefusesAt(w, s, ParseMsg(m.data).value.handle)
  {
    var h := w.hosts[Actor(s)];
    assert HostOk(w.past, Actor(s), h) && AllOwn(h);
    match s
    case Client(_, _) =>
    case Ask(_, _) =>
    case Posted(_) => PostDoesNotReject(h, m);
    case Timer(_) => SweepDoesNotReject(w.past, s.h, h, m);
    case Deliver(p, env) => DeliveryRefuses(w, p, env, m);
  }

  lemma DeliveryRefuses(w: World, p: Packet, env: WireEnv, m: SendMsg)
    requires Inv(w) && Enabled(w, Deliver(p, env)) && m in StepEffect(w, Deliver(p, env)).sends && IsReject(m.data)
    ensures m.dest == p.src && RefusesAt(w, Deliver(p, env), ParseMsg(m.data).value.handle)
  {
    var h, pm := w.hosts[p.dst], ParseMsg(p.data);
    if pm.Some? {
      FormParse(p.data);
      if pm.value.mt == MT_REQ {
        RequestRejects(h, pm.value, p.src, env, m);
        ParseForm(pm.value.(mt := MT_REJ));
      } else if pm.value.mt == MT_ACC {
        AcceptDoesNotReject(h, pm.value, p.src, env, m);
      }
    }
  }

  /** Every reject on the network was caused by a refusal. */
  lemma {:induction false} RejectsHappened(ws: seq<World>, ss: seq<Step>, n: nat, p: Packet) returns (k: nat)
    requires IsRun(ws, ss) && n < |ws| && p in ws[n].net && IsReject(p.data)
    ensures k < n && RefusedAt(ws, ss, k, p.src, p.dst, ParseMsg(p.data).value.handle)
  {
    assert n > 0;
    if p in ws[n - 1].net {
      k := RejectsHappened(ws, ss, n - 1, p);
    } else {
      k := n - 1;
      NewReject(ws, ss, k, p);
    }
  }

  lemma NewReject(ws: seq<World>, ss: seq<Step>, k: nat, p: Packet)
    requires IsRun(ws, ss) && k < |ss| && p in ws[k + 1].net && p !in ws[k].net && IsReject(p.data)
    ensures RefusedAt(ws, ss, k, p.src, p.dst, ParseMsg(p.data).value.handle)
  {
    RunOk(ws, ss, k);
    RunOwn(ws, ss, k);
    var e := StepEffect(ws[k], ss[k]);
    assert p in Packets(Actor(ss[k]), e.sends);
    var m :| m in e.sends && p == Packet(Actor(ss[k]), m.dest, m.data);
    RejectIsRefusal(ws[k], ss[k], m);
  }

  // ----- where reports of rejects come from

  lemma OnlyRejectsReport(h: Host, m: MsgParms, src: nat, env: WireEnv)
    requires h.cont.Idle?
    ensures RequestStep(h, m, src, env).notes == [] && AckStep(h, m).notes == []
    ensures forall i :: 0 <= i < |AcceptStep(h, m, src, env).notes| ==> AcceptStep(h, m, src, env).notes[i].Connected?
    ensures forall i :: 0 <= i < |RejectStep(h, m, env).notes| ==> RejectStep(h, m, env).notes[i].handle == m.handle
  {
  }

  /** What a host is about to report with its post is an incoming connection. */
  ghost predicate PostsIncoming(h: Host) {
    h.cont.Posting? ==> forall i :: 0 <= i < |h.cont.notes| ==> h.cont.notes[i].Incoming?
  }

  lemma PostsIncomingInRun(ws: seq<World>, ss: seq<Step>, j: nat)
    requires IsRun(ws, ss) && j < |ss|
    ensures Enabled(ws[j], ss[j]) && PostsIncoming(ws[j].hosts[Actor(ss[j])])
  {
    RunOk(ws, ss, j);
    assert HostOk(ws[j].past, Actor(ss[j]), ws[j].hosts[Actor(ss[j])]);
  }

  /** A step that reports a reject delivers one. */
  lemma ReportIsReject(w: World, s: Step, i: nat)
    requires Enabled(w, s) && PostsIncoming(w.hosts[Actor(s)])
    requires i < |StepEffect(w, s).notes| && StepEffect(w, s).notes[i].Rejected?
    ensures s.Deliver? && IsReject(s.p.data) && ParseMsg(s.p.data).value.handle == StepEffect(w, s).notes[i].handle
  {
    if s.Deliver? && ParseMsg(s.p.data).Some? {
      FormParse(s.p.data);
      OnlyRejectsReport(w.hosts[Actor(s)], ParseMsg(s.p.data).value, s.p.src, s.env);
    }
  }

  lemma NewReport(w: World, s: Step, i: nat)
    requires Enabled(w, s) && PostsIncoming(w.hosts[Actor(s)])
    requires |w.notes| <= i < |Next(w, s).notes| && Next(w, s).notes[i].note.Rejected?
    ensures s.Deliver? && s.p.dst == Next(w, s).notes[i].host && IsReject(s.p.data)
    ensures ParseMsg(s.p.data).value.handle == Next(w, s).notes[i].note.handle
  {
    ReportIsReject(w, s, i - |w.notes|);
  }

  /** Step `j` delivers a reject with this handle to host `h`. */
  ghost predicate RejectArrives(ws: seq<World>, ss: seq<Step>, j: int, h: nat, handle: nat) {
    && 0 <= j < |ss| < |ws| && ss[j].Deliver? && ss[j].p in ws[j].net && ss[j].p.dst == h
    && IsReject(ss[j].p.data) && ParseMsg(ss[j].p.data).value.handle == handle
  }

  lemma {:induction false} RejectDelivered(ws: seq<World>, ss: seq<Step>, n: nat, i: nat) returns (j: nat)
    requires IsRun(ws, ss) && n < |ws| && i < |ws[n].notes| && ws[n].notes[i].note.Rejected?
    ensures j < n && RejectArrives(ws, ss, j, ws[n].notes[i].host, ws[n].notes[i].note.handle)
  {
    if i < |ws[n - 1].notes| {
      NotesGrow(ws, ss, n - 1, i);
      j := RejectDelivered(ws, ss, n - 1, i);
    } else {
      j := n - 1;
      PostsIncomingInRun(ws, ss, j);
      NewReport(ws[j], ss[j], i);
    }
  }

  lemma NotesGrow(ws: seq<World>, ss: seq<Step>, n: nat, i: nat)
    requires IsRun(ws, ss) && n < |ss| && i < |ws[n].notes|
    ensures i < |ws[n + 1].notes| && ws[n + 1].notes[i] == ws[n].notes[i]
  {
    assert ws[n + 1] == Next(ws[n], ss[n]);
  }

  /** Reject agreement. Every reported reject belongs to a query of that host and names the
      remote the client asked for; and some time before, the host that owns this remote
      received the request while no port of its table matched the address. */
  lemma RejectAgreement(ws: seq<World>, ss: seq<Step>, n: nat, i: nat) returns (k: nat)
    requires IsRun(ws, ss) && n < |ws| && i < |ws[n].notes| && ws[n].notes[i].note.Rejected?
    ensures var (h, note) := (ws[n].notes[i].host, ws[n].notes[i].note);
            && k < n && (h, note.handle) in ws[n].past.issued
            && var iss := ws[n].past.issued[(h, note.handle)];
               && note.remote == iss.remote && SameAddr(note.local, iss.port.local)
               && iss.dest in ws[k].hosts && Unserved(ws[k].hosts[iss.dest], iss.remote)
  {
    RunOk(ws, ss, n);
    var h, note := ws[n].notes[i].host, ws[n].notes[i].note;
    assert NoteOk(ws[n].past, h, note);
    var j := RejectDelivered(ws, ss, n, i);
    k := RejectsHappened(ws, ss, j, ss[j].p);
    RunOk(ws, ss, j);
    RejectOrigin(ws[j], ss[j].p);
    RefusalIsUnserved(ws, ss, k, ss[j].p.src, h, note.handle);
    IssuesStay(ws, ss, k, n, h, note.handle);
    IssuesStay(ws, ss, j, n, h, note.handle);
  }

  /** No port of this host matches the address. */
  ghost predicate Unserved(h: Host, remote: SockAddr) {
    var f := remote.family;
    forall i :: 0 <= i < |h.table.ports| ==>
      !Tbl.Hit(Tbl.Loose(MakeAddr(f, IpAs(f, remote), remote.port), true), h.table.ports[i])
  }

  lemma RefusalIsUnserved(ws: seq<World>, ss: seq<Step>, k: nat, at: nat, to: nat, handle: nat)
    requires IsRun(ws, ss) && RefusedAt(ws, ss, k, at, to, handle)
    ensures (to, handle) in ws[k].past.issued && Unserved(ws[k].hosts[at], ws[k].past.issued[(to, handle)].remote)
  {
    RunOk(ws, ss, k);
    var w, p := ws[k], ss[k].p;
    RequestOrigin(w, p);
    var h, m := w.hosts[at], ParseMsg(p.data).value;
    var f := Tbl.Find(h.table.ports, Tbl.Loose(ApAddr(m), true));
    assert f.Some? ==> Serves(h, m, f.value);
  }

  lemma {:induction false} IssuesStay(ws: seq<World>, ss: seq<Step>, i: nat, n: nat, h: nat, x: nat)
    requires IsRun(ws, ss) && i <= n < |ws| && (h, x) in ws[i].past.issued
    ensures (h, x) in ws[n].past.issued && ws[n].past.issued[(h, x)] == ws[i].past.issued[(h, x)]
    decreases n
  {
    if i < n {
      IssuesStay(ws, ss, i, n - 1, h, x);
      IssueStays(ws, ss, n - 1, h, x);
    }
  }

  lemma IssueStays(ws: seq<World>, ss: seq<Step>, n: nat, h: nat, x: nat)
    requires IsRun(ws, ss) && n < |ss| && (h, x) in ws[n].past.issued
    ensures (h, x) in ws[n + 1].past.issued && ws[n + 1].past.issued[(h, x)] == ws[n].past.issued[(h, x)]
  {
    RunOk(ws, ss, n);
    StepOk(ws[n], ss[n]);
    assert ws[n + 1].past == StepPast(ws[n], ss[n]);
  }
}
