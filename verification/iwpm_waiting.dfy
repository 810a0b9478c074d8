/** The converse of at-most-once: in every run, a query that still waits is reported by the
    first accept or reject that gets through, whatever has happened in between. */
module IwpmWaiting {
  import opened IwpmTypes
  import opened IwpmWire
  import opened IwpmRequests
  import opened IwpmHost
  import opened IwpmProtocol
  import opened IwpmDuplicates
  import opened IwpmReplies
  import Tbl = IwpmTable

  /** There is an acknowledgement entry with handle `x`, listed or about to be. */
  ghost predicate HasAck(h: Host, x: nat) {
    || (exists i :: 0 <= i < |h.reqs| && h.reqs[i].kind == Ack && h.reqs[i].handle == x)
    || (h.cont.Posting? && h.cont.req.kind == Ack && h.cont.req.handle == x)
  }

  /** Acknowledgement entries only exist for handles that no query waits for. */
  ghost predicate AcksAreQuiet(h: Host) {
    forall x: nat :: HasAck(h, x) ==> QuietHandle(h, x)
  }

  // ----- where acknowledgement entries come from

  ghost predicate Reports(e: Effect, x: nat) {
    exists i :: 0 <= i < |e.notes| && !e.notes[i].Incoming? && e.notes[i].handle == x
  }

  lemma AckAfterUpdate(h: Host, handle: nat, addr: SockAddr, kinds: set<ReqKind>, x: nat)
    requires h.cont.Idle? && HasAck(h.(reqs := UpdateReq(h.reqs, handle, addr, kinds)), x)
    ensures HasAck(h, x)
  {
    var reqs' := UpdateReq(h.reqs, handle, addr, kinds);
    var i :| 0 <= i < |reqs'| && reqs'[i].kind == Ack && reqs'[i].handle == x;
    assert Like(h.reqs[i], reqs'[i]);
  }

  lemma AckAfterSweep(h: Host, x: nat)
    requires HasAck(SweepStep(h).host, x)
    ensures HasAck(h, x)
  {
    if a :| 0 <= a < |Sweep(h.reqs)| && Sweep(h.reqs)[a].kind == Ack && Sweep(h.reqs)[a].handle == x {
      var i, _ := SweepPair(h.reqs, a, a);
      assert h.reqs[i].kind == Ack && h.reqs[i].handle == x;
    }
  }

  lemma AckAfterPost(h: Host, x: nat)
    requires h.cont.Posting? && HasAck(PostStep(h).host, x)
    ensures HasAck(h, x)
  {
    var reqs' := [h.cont.req] + h.reqs;
    var i :| 0 <= i < |reqs'| && reqs'[i].kind == Ack && reqs'[i].handle == x;
    assert i > 0 ==> reqs'[i] == h.reqs[i - 1];
  }

  /** An accept posts an acknowledgement entry only for the query it reports. */
  lemma AckAfterAccept(past: Past, id: nat, h: Host, m: MsgParms, src: nat, env: WireEnv, x: nat)
    requires HostOk(past, id, h) && h.cont.Idle? && HasAck(AcceptStep(h, m, src, env).host, x)
    ensures HasAck(h, x) || Reports(AcceptStep(h, m, src, env), x)
  {
    var f := Tbl.Find(h.table.ports, Tbl.Exact(CpAddr(m), true));
    if f.Some? {
      var e, addr := AcceptStep(h, m, src, env), h.table.ports[f.value].local;
      if e.host.cont.Posting? && e.host.cont.req.handle == x {
        var r := h.reqs[FindReq(h.reqs, m.handle, addr, {Query, Ack}).value];
        assert EntryOk(past, id, r, h.nextRid);
        assert e.notes[0].handle == x;
      } else {
        var h1 := h.(reqs := UpdateReq(h.reqs, m.handle, addr, {Query, Ack}));
        assert e.host.reqs == h1.reqs && HasAck(h1, x);
        AckAfterUpdate(h, m.handle, addr, {Query, Ack}, x);
      }
    }
  }

  lemma AckAfterReject(h: Host, m: MsgParms, env: WireEnv, x: nat)
    requires h.cont.Idle? && HasAck(RejectStep(h, m, env).host, x)
    ensures HasAck(h, x)
  {
    var f := Tbl.Find(h.table.ports, Tbl.Exact(CpAddr(m), true));
    if f.Some? { AckAfterUpdate(h, m.handle, h.table.ports[f.value].local, {Query}, x); }
  }

  lemma AckOrigin(w: World, s: Step, x: nat)
    requires Inv(w) && Enabled(w, s) && HasAck(StepEffect(w, s).host, x)
    ensures HasAck(w.hosts[Actor(s)], x) || Reports(StepEffect(w, s), x)
  {
    var h := w.hosts[Actor(s)];
    assert HostOk(w.past, Actor(s), h);
    match s
    case Client(_, _) =>
    case Ask(_, _) =>
    case Posted(_) => AckAfterPost(h, x);
    case Timer(_) => AckAfterSweep(h, x);
    case Deliver(p, env) =>
      var pm := ParseMsg(p.data);
      if pm.Some? {
        var m := pm.value;
        if m.mt == MT_ACC { AckAfterAccept(w.past, p.dst, h, m, p.src, env, x); }
        else if m.mt == MT_ACK { AckAfterAck(h, m, x); }
        else if m.mt != MT_REQ { AckAfterReject(h, m, env, x); }
      }
  }

  lemma AckAfterAck(h: Host, m: MsgParms, x: nat)
    requires h.cont.Idle? && HasAck(AckStep(h, m).host, x)
    ensures HasAck(h, x)
  {
    if Tbl.Find(h.table.ports, Tbl.Loose(ApAddr(m), false)).Some? {
      AckAfterUpdate(h, m.handle, ApAddr(m), {Accept}, x);
    }
  }

  /** The handle of an acknowledgement entry is that of a query of this host. */
  lemma AckIsIssued(past: Past, id: nat, h: Host, x: nat)
    requires HostOk(past, id, h) && HasAck(h, x)
    ensures (id, x) in past.issued
  {
    if i :| 0 <= i < |h.reqs| && h.reqs[i].kind == Ack && h.reqs[i].handle == x {
      assert EntryOk(past, id, h.reqs[i], h.nextRid);
    }
  }

  lemma AcksStayQuiet(w: World, s: Step)
    requires Inv(w) && Enabled(w, s) && OneQuery(w.hosts[Actor(s)]) && AcksAreQuiet(w.hosts[Actor(s)])
    ensures AcksAreQuiet(StepEffect(w, s).host)
  {
    var h, e := w.hosts[Actor(s)], StepEffect(w, s);
    ReportQuiets(w, s);
    forall x: nat | HasAck(e.host, x)
      ensures QuietHandle(e.host, x)
    {
      AckOrigin(w, s, x);
      if HasAck(h, x) {
        assert HostOk(w.past, Actor(s), h);
        AckIsIssued(w.past, Actor(s), h, x);
        StepKeepsBoth(w, s, x);
      }
    }
  }

  ghost predicate AllAcksQuiet(w: World) {
    forall h :: h in w.hosts ==> AcksAreQuiet(w.hosts[h])
  }

  lemma AcksStep(w: World, s: Step)
    requires Inv(w) && AllQuiet(w) && AllAcksQuiet(w) && Enabled(w, s)
    ensures AllAcksQuiet(Next(w, s))
  {
    AcksStayQuiet(w, s);
  }

  lemma {:induction false} RunAcksQuiet(ws: seq<World>, ss: seq<Step>, n: nat)
    requires IsRun(ws, ss) && n < |ws|
    ensures AllAcksQuiet(ws[n])
  {
    if n == 0 {
      InitAcksQuiet(ws[0]);
    } else {
      RunAcksQuiet(ws, ss, n - 1);
      AcksInRun(ws, ss, n - 1);
    }
  }

  lemma InitAcksQuiet(w: World)
    requires Init(w)
    ensures AllAcksQuiet(w)
  {
  }

  lemma AcksInRun(ws: seq<World>, ss: seq<Step>, n: nat)
    requires IsRun(ws, ss) && n < |ss| && AllAcksQuiet(ws[n])
    ensures AllAcksQuiet(ws[n + 1])
  {
    RunInv(ws, ss, n);
    RunQuiet(ws, ss, n);
    assert Enabled(ws[n], ss[n]) && ws[n + 1] == Next(ws[n], ss[n]);
    AcksStep(ws[n], ss[n]);
  }

  // ----- a waiting query is found

  /** Query `k` of the list waits for its answer. */
  predicate Waits(h: Host, k: int) {
    0 <= k < |h.reqs| && h.reqs[k].kind == Query && !h.reqs[k].complete
  }

  /** A port with this local address is in the table. */
  ghost predicate Linked(h: Host, addr: SockAddr) {
    exists i :: 0 <= i < |h.table.ports| && SameAddr(h.table.ports[i].local, addr)
  }

  /** An answer for its address and handle finds no other request. */
  lemma WaitingIsFound(h: Host, k: nat, addr: SockAddr)
    requires OneQuery(h) && AcksAreQuiet(h) && Waits(h, k) && SameAddr(addr, h.reqs[k].src)
    ensures FindReq(h.reqs, h.reqs[k].handle, addr, {Query, Ack}) == Some(k)
  {
    var x := h.reqs[k].handle;
    assert ReqHit(h.reqs[k], x, addr, {Query, Ack});
    var f := FindReq(h.reqs, x, addr, {Query, Ack});
    assert !QuietHandle(h, x) && !HasAck(h, x);
    assert h.reqs[f.value].kind == Query;
    assert f.value < k ==> !Twins(h.reqs[f.value], h.reqs[k]);
  }

  /** An accept that carries the address of a waiting query reports it, if and only if a
      port with that address is still in the table. */
  lemma WaitingReported(h: Host, k: nat, m: MsgParms, src: nat, env: WireEnv)
    requires h.cont.Idle? && OneQuery(h) && AcksAreQuiet(h) && Waits(h, k)
    requires m.handle == h.reqs[k].handle && SameAddr(CpAddr(m), h.reqs[k].src) && env.delivered
    ensures var notes := AcceptStep(h, m, src, env).notes;
            if Linked(h, h.reqs[k].src) then
              && |notes| == 1 && notes[0].Connected? && notes[0].rid == h.reqs[k].rid && notes[0].handle == m.handle
              && notes[0].remote == h.reqs[k].remote && notes[0].nl == h.reqs[k].nl
              && notes[0].mappedRemote == ApAddr(m)
            else notes == []
  {
    var r := h.reqs[k];
    var f := Tbl.Find(h.table.ports, Tbl.Exact(CpAddr(m), true));
    if i :| 0 <= i < |h.table.ports| && SameAddr(h.table.ports[i].local, r.src) {
      assert Tbl.Hit(Tbl.Exact(CpAddr(m), true), h.table.ports[i]);
    }
    if f.Some? {
      assert SameAddr(h.table.ports[f.value].local, r.src);
      WaitingIsFound(h, k, h.table.ports[f.value].local);
    }
  }

  /** An accept for a query carries the local address the query was given a port for. */
  lemma AcceptCarriesLocal(w: World, p: Packet, h: Host, k: nat)
    requires Inv(w) && p in w.net && p.dst in w.hosts && w.hosts[p.dst] == h && Waits(h, k)
    requires ParseMsg(p.data).Some? && ParseMsg(p.data).value.mt == MT_ACC
    requires ParseMsg(p.data).value.handle == h.reqs[k].handle
    ensures (p.dst, h.reqs[k].handle) in w.past.issued
    ensures var iss := w.past.issued[(p.dst, h.reqs[k].handle)];
            && h.reqs[k].src == iss.port.local && h.reqs[k].remote == iss.remote
            && (iss.local.family == iss.remote.family && !IsWild(iss.local) ==>
                  SameAddr(CpAddr(ParseMsg(p.data).value), h.reqs[k].src))
  {
    var j := AcceptOrigin(w, p);
    var a := w.past.answers[j];
    assert AnswerOk(w.past, a);
    assert HostOk(w.past, p.dst, h) && EntryOk(w.past, p.dst, h.reqs[k], h.nextRid);
    assert IssueOk(w.past, p.dst, h.reqs[k].handle);
  }

  /** In every run: whenever a query waits, with a concrete local address of the remote's
      family, the delivery of any accept with its handle reports exactly this query to its
      client, as connected, if and only if a port with its local address is still in the
      table. */
  lemma WaitingIsReported(ws: seq<World>, ss: seq<Step>, n: nat, k: nat, p: Packet, env: WireEnv)
    requires IsRun(ws, ss) && n < |ws| && Enabled(ws[n], Deliver(p, env)) && env.delivered
    requires ParseMsg(p.data).Some? && ParseMsg(p.data).value.mt == MT_ACC
    requires Waits(ws[n].hosts[p.dst], k) && ParseMsg(p.data).value.handle == ws[n].hosts[p.dst].reqs[k].handle
    ensures (p.dst, ws[n].hosts[p.dst].reqs[k].handle) in ws[n].past.issued
    ensures var w, r := ws[n], ws[n].hosts[p.dst].reqs[k];
            var iss, notes := w.past.issued[(p.dst, r.handle)], Next(w, Deliver(p, env)).notes;
            iss.local.family == iss.remote.family && !IsWild(iss.local) ==>
              if Linked(w.hosts[p.dst], r.src) then
                && |notes| == |w.notes| + 1 && notes[..|w.notes|] == w.notes
                && notes[|w.notes|].host == p.dst && notes[|w.notes|].note.Connected?
                && notes[|w.notes|].note.rid == r.rid && notes[|w.notes|].note.remote == iss.remote
              else notes == w.notes
  {
    RunOk(ws, ss, n);
    RunQuiet(ws, ss, n);
    RunAcksQuiet(ws, ss, n);
    var w, h, m := ws[n], ws[n].hosts[p.dst], ParseMsg(p.data).value;
    AcceptCarriesLocal(w, p, h, k);
    var iss := w.past.issued[(p.dst, h.reqs[k].handle)];
    if iss.local.family == iss.remote.family && !IsWild(iss.local) {
      WaitingReported(h, k, m, p.src, env);
      NotesAdded(w, p, env);
    }
  }

  lemma NotesAdded(w: World, p: Packet, env: WireEnv)
    requires Enabled(w, Deliver(p, env)) && ParseMsg(p.data).Some? && ParseMsg(p.data).value.mt == MT_ACC
    ensures Next(w, Deliver(p, env)).notes ==
            w.notes + Tag(p.dst, AcceptStep(w.hosts[p.dst], ParseMsg(p.data).value, p.src, env).notes)
  {
  }

  // ----- and the accept is acknowledged

  lemma WaitingAwaits(h: Host, k: nat, m: MsgParms, kinds: set<ReqKind>) returns (i: nat)
    requires OneQuery(h) && AcksAreQuiet(h) && Waits(h, k) && Linked(h, h.reqs[k].src)
    requires m.handle == h.reqs[k].handle && SameAddr(CpAddr(m), h.reqs[k].src)
    requires kinds == {Query, Ack} || kinds == {Query}
    ensures Awaits(h, m, i, k, kinds)
  {
    i :| 0 <= i < |h.table.ports| && SameAddr(h.table.ports[i].local, h.reqs[k].src);
    var addr, x := h.table.ports[i].local, h.reqs[k].handle;
    assert !QuietHandle(h, x) && !HasAck(h, x);
    forall j | 0 <= j < k
      ensures !ReqHit(h.reqs[j], x, addr, kinds)
    {
      assert !Twins(h.reqs[j], h.reqs[k]);
    }
  }

  /** In every run: when an accept reports a waiting query, and there is memory to remember it
      by, the post that follows sends the acknowledgement to the host that accepted. */
  lemma WaitingIsAcknowledged(ws: seq<World>, ss: seq<Step>, n: nat, k: nat, p: Packet, env: WireEnv)
    requires IsRun(ws, ss) && n < |ws| && Enabled(ws[n], Deliver(p, env)) && env.delivered && env.memory && env.queued
    requires ParseMsg(p.data).Some? && ParseMsg(p.data).value.mt == MT_ACC
    requires Waits(ws[n].hosts[p.dst], k) && ParseMsg(p.data).value.handle == ws[n].hosts[p.dst].reqs[k].handle
    requires Linked(ws[n].hosts[p.dst], ws[n].hosts[p.dst].reqs[k].src)
    requires SameAddr(CpAddr(ParseMsg(p.data).value), ws[n].hosts[p.dst].reqs[k].src)
    ensures var w1, m := Next(ws[n], Deliver(p, env)), ParseMsg(p.data).value;
            && Enabled(w1, Posted(p.dst))
            && exists s :: s in StepEffect(w1, Posted(p.dst)).sends
                           && Says(s, p.src, MT_ACK, m.handle, ApAddr(m), CpAddr(m))
                           && Packet(p.dst, p.src, s.data) in Next(w1, Posted(p.dst)).net
  {
    RunOk(ws, ss, n);
    RunQuiet(ws, ss, n);
    RunAcksQuiet(ws, ss, n);
    var w, h, m := ws[n], ws[n].hosts[p.dst], ParseMsg(p.data).value;
    assert HostOk(w.past, p.dst, h) && EntryOk(w.past, p.dst, h.reqs[k], h.nextRid);
    FormParse(p.data);
    var i := WaitingAwaits(h, k, m, {Query, Ack});
    AckFollows(w, p, env, i, k);
  }

  lemma AckFollows(w: World, p: Packet, env: WireEnv, i: nat, k: nat)
    requires Enabled(w, Deliver(p, env)) && env.delivered && env.memory && env.queued
    requires ParseMsg(p.data).Some? && ParseMsg(p.data).value.mt == MT_ACC && Sendable(ParseMsg(p.data).value)
    requires var h := w.hosts[p.dst];
             && Tbl.TableInv(h.table) && Awaits(h, ParseMsg(p.data).value, i, k, {Query, Ack})
             && h.reqs[k].kind == Query && !h.reqs[k].complete && h.reqs[k].handle != 0
    ensures var w1, m := Next(w, Deliver(p, env)), ParseMsg(p.data).value;
            && Enabled(w1, Posted(p.dst))
            && exists s :: s in StepEffect(w1, Posted(p.dst)).sends
                           && Says(s, p.src, MT_ACK, m.handle, ApAddr(m), CpAddr(m))
                           && Packet(p.dst, p.src, s.data) in Next(w1, Posted(p.dst)).net
  {
    var h, m, w1 := w.hosts[p.dst], ParseMsg(p.data).value, Next(w, Deliver(p, env));
    AcceptAnswers(h, m, p.src, env, i, k);
    AwaitsIsFound(h, m, i, k, {Query, Ack});
    var sends := StepEffect(w1, Posted(p.dst)).sends;
    assert sends == Complete(AcceptStep(h, m, p.src, env)).sends;
    assert sends[0] in sends;
  }

  // ----- rejects

  /** A reject with the handle and address of a waiting query reports it, if and only if a
      port with that address is still in the table. */
  lemma WaitingRejected(h: Host, k: nat, m: MsgParms, env: WireEnv)
    requires h.cont.Idle? && Tbl.TableInv(h.table) && OneQuery(h) && AcksAreQuiet(h) && Waits(h, k) && env.delivered
    requires m.handle == h.reqs[k].handle && SameAddr(CpAddr(m), h.reqs[k].src)
    ensures var notes := RejectStep(h, m, env).notes;
            if Linked(h, h.reqs[k].src) then
              && |notes| == 1 && notes[0].Rejected? && notes[0].rid == h.reqs[k].rid && notes[0].handle == m.handle
              && notes[0].remote == h.reqs[k].remote && notes[0].nl == h.reqs[k].nl
            else notes == []
  {
    if Linked(h, h.reqs[k].src) {
      var i := WaitingAwaits(h, k, m, {Query});
      RejectAnswers(h, m, env, i, k);
    } else {
      forall i: int, j: int
        ensures !Awaits(h, m, i, j, {Query})
      {
        assert 0 <= i < |h.table.ports| ==> !SameAddr(h.table.ports[i].local, h.reqs[k].src);
      }
      UnawaitedAnswer(h, m, 0, env);
    }
  }

  /** A reject that arrives was sent by the host a query of this host was issued to, and
      carries the addresses of that query. */
  lemma RejectOrigin(w: World, p: Packet)
    requires Inv(w) && p in w.net && ParseMsg(p.data).Some? && ParseMsg(p.data).value.mt == MT_REJ
    ensures var m := ParseMsg(p.data).value;
            && (p.dst, m.handle) in w.past.issued
            && var iss := w.past.issued[(p.dst, m.handle)];
               var req := QueryParms(iss.local, iss.remote, iss.port.mapped, m.handle);
               iss.dest == p.src && Sendable(m) && ApAddr(m) == ApAddr(req) && CpAddr(m) == CpAddr(req)
  {
    var m := ParseMsg(p.data).value;
    assert SendOk(w.past, p.src, SendMsg(p.dst, p.data));
    FormParse(p.data);
    var iss := w.past.issued[(p.dst, m.handle)];
    assert IssueOk(w.past, p.dst, m.handle);
    ParseForm(QueryParms(iss.local, iss.remote, iss.port.mapped, m.handle).(mt := MT_REJ));
  }

  /** In every run: whenever a query waits, with a concrete local address of the remote's
      family, the delivery of any reject with its handle reports exactly this query to its
      client, as rejected, if and only if a port with its local address is still in the
      table. */
  lemma RejectIsReported(ws: seq<World>, ss: seq<Step>, n: nat, k: nat, p: Packet, env: WireEnv)
    requires IsRun(ws, ss) && n < |ws| && Enabled(ws[n], Deliver(p, env)) && env.delivered
    requires ParseMsg(p.data).Some? && ParseMsg(p.data).value.mt == MT_REJ
    requires Waits(ws[n].hosts[p.dst], k) && ParseMsg(p.data).value.handle == ws[n].hosts[p.dst].reqs[k].handle
    ensures (p.dst, ws[n].hosts[p.dst].reqs[k].handle) in ws[n].past.issued
    ensures var w, r := ws[n], ws[n].hosts[p.dst].reqs[k];
            var iss, notes := w.past.issued[(p.dst, r.handle)], Next(w, Deliver(p, env)).notes;
            iss.local.family == iss.remote.family && !IsWild(iss.local) ==>
              if Linked(w.hosts[p.dst], r.src) then
                && |notes| == |w.notes| + 1 && notes[..|w.notes|] == w.notes
                && notes[|w.notes|].host == p.dst && notes[|w.notes|].note.Rejected?
                && notes[|w.notes|].note.rid == r.rid && notes[|w.notes|].note.remote == iss.remote
              else notes == w.notes
  {
    RunOk(ws, ss, n);
    RunQuiet(ws, ss, n);
    RunAcksQuiet(ws, ss, n);
    var w, h, m := ws[n], ws[n].hosts[p.dst], ParseMsg(p.data).value;
    RejectOrigin(w, p);
    assert HostOk(w.past, p.dst, h) && EntryOk(w.past, p.dst, h.reqs[k], h.nextRid);
    assert IssueOk(w.past, p.dst, m.handle);
    var iss := w.past.issued[(p.dst, h.reqs[k].handle)];
    if iss.local.family == iss.remote.family && !IsWild(iss.local) {
      WaitingRejected(h, k, m, env);
      RejectNotesAdded(w, p, env);
    }
  }

  lemma RejectNotesAdded(w: World, p: Packet, env: WireEnv)
    requires Enabled(w, Deliver(p, env)) && ParseMsg(p.data).Some? && ParseMsg(p.data).value.mt == MT_REJ
    ensures Next(w, Deliver(p, env)).notes ==
            w.notes + Tag(p.dst, RejectStep(w.hosts[p.dst], ParseMsg(p.data).value, env).notes)
  {
  }

  // ----- reports that get lost

  /** Handle `x` of host `h` was issued, and no query with it waits. */
  ghost predicate QuietAt(w: World, h: nat, x: nat) {
    h in w.hosts && (h, x) in w.past.issued && QuietHandle(w.hosts[h], x)
  }

  lemma {:induction false} QuietThroughout(ws: seq<World>, i: nat, n: nat, h: nat, x: nat)
    requires i <= n < |ws| && QuietAt(ws[i], h, x)
    requires forall k :: i <= k < n && QuietAt(ws[k], h, x) ==> QuietAt(ws[k + 1], h, x)
    ensures QuietAt(ws[n], h, x)
    decreases n
  {
    if i < n { QuietThroughout(ws, i, n - 1, h, x); }
  }

  /** A handle that is quiet stays so. */
  lemma QuietStays(ws: seq<World>, ss: seq<Step>, i: nat, n: nat, h: nat, x: nat)
    requires IsRun(ws, ss) && i <= n < |ws| && QuietAt(ws[i], h, x)
    ensures QuietAt(ws[n], h, x)
  {
    forall k | i <= k < n && QuietAt(ws[k], h, x) ensures QuietAt(ws[k + 1], h, x) { QuietNext(ws, ss, k, h, x); }
    QuietThroughout(ws, i, n, h, x);
  }

  lemma QuietNext(ws: seq<World>, ss: seq<Step>, n: nat, h: nat, x: nat)
    requires IsRun(ws, ss) && n < |ss| && QuietAt(ws[n], h, x)
    ensures QuietAt(ws[n + 1], h, x)
  {
    RunInv(ws, ss, n);
    StepOk(ws[n], ss[n]);
    if Actor(ss[n]) == h { StepKeepsBoth(ws[n], ss[n], x); }
  }

  /** A waiting query whose client cannot be told of the accept is done all the same. */
  lemma LostIsQuiet(h: Host, k: nat, m: MsgParms, src: nat, env: WireEnv)
    requires h.cont.Idle? && Tbl.TableInv(h.table) && OneQuery(h) && AcksAreQuiet(h) && Waits(h, k) && !env.delivered
    requires h.reqs[k].handle != 0 && Sendable(m) && m.handle == h.reqs[k].handle
    requires SameAddr(CpAddr(m), h.reqs[k].src) && Linked(h, h.reqs[k].src)
    ensures AcceptStep(h, m, src, env).notes == [] && QuietHandle(AcceptStep(h, m, src, env).host, m.handle)
  {
    var i := WaitingAwaits(h, k, m, {Query, Ack});
    AwaitsIsFound(h, m, i, k, {Query, Ack});
    CompletedIsQuiet(h, k, m.handle, h.table.ports[i].local, {Query, Ack});
  }

  /** A report that cannot be delivered is lost for good. If an accept finds a waiting query
      and its client cannot be told, then in no later state of the run does an accept with
      its handle, or a reject, report it. */
  lemma UndeliveredIsLost(ws: seq<World>, ss: seq<Step>, i: nat, n: nat, k: nat, p: Packet, env: WireEnv, p': Packet,
                          env': WireEnv)
    requires IsRun(ws, ss) && i < n < |ws| && ss[i] == Deliver(p, env) && !env.delivered
    requires ParseMsg(p.data).Some? && ParseMsg(p.data).value.mt == MT_ACC && p.dst in ws[i].hosts
    requires Waits(ws[i].hosts[p.dst], k) && ParseMsg(p.data).value.handle == ws[i].hosts[p.dst].reqs[k].handle
    requires SameAddr(CpAddr(ParseMsg(p.data).value), ws[i].hosts[p.dst].reqs[k].src)
    requires Linked(ws[i].hosts[p.dst], ws[i].hosts[p.dst].reqs[k].src)
    requires Enabled(ws[n], Deliver(p', env')) && p'.dst == p.dst && ParseMsg(p'.data).Some?
    requires ParseMsg(p'.data).value.handle == ParseMsg(p.data).value.handle
    requires ParseMsg(p'.data).value.mt == MT_ACC || ParseMsg(p'.data).value.mt == MT_REJ
    ensures ws[i + 1].notes == ws[i].notes && Next(ws[n], Deliver(p', env')).notes == ws[n].notes
  {
    var x, h := ParseMsg(p.data).value.handle, ws[n].hosts[p.dst];
    LostStep(ws, ss, i, k, p, env);
    QuietStays(ws, ss, i + 1, n, p.dst, x);
    QuietAccept(h, ParseMsg(p'.data).value, p'.src, env');
    QuietReject(h, ParseMsg(p'.data).value, env');
  }

  lemma LostStep(ws: seq<World>, ss: seq<Step>, i: nat, k: nat, p: Packet, env: WireEnv)
    requires IsRun(ws, ss) && i < |ss| && ss[i] == Deliver(p, env) && !env.delivered
    requires ParseMsg(p.data).Some? && ParseMsg(p.data).value.mt == MT_ACC && p.dst in ws[i].hosts
    requires Waits(ws[i].hosts[p.dst], k) && ParseMsg(p.data).value.handle == ws[i].hosts[p.dst].reqs[k].handle
    requires SameAddr(CpAddr(ParseMsg(p.data).value), ws[i].hosts[p.dst].reqs[k].src)
    requires Linked(ws[i].hosts[p.dst], ws[i].hosts[p.dst].reqs[k].src)
    ensures ws[i + 1].notes == ws[i].notes && QuietAt(ws[i + 1], p.dst, ParseMsg(p.data).value.handle)
  {
    RunOk(ws, ss, i);
    RunQuiet(ws, ss, i);
    RunAcksQuiet(ws, ss, i);
    var w, h, m := ws[i], ws[i].hosts[p.dst], ParseMsg(p.data).value;
    assert HostOk(w.past, p.dst, h) && EntryOk(w.past, p.dst, h.reqs[k], h.nextRid);
    FormParse(p.data);
    LostIsQuiet(h, k, m, p.src, env);
    NotesAdded(w, p, env);
    StepOk(w, ss[i]);
  }
}
