/** Repeated accepts: once a query has been reported, no answer to it is reported again.
    Queries are told apart by their handles, which are new for each query of a host. */
module IwpmDuplicates {
  import opened IwpmTypes
  import opened IwpmWire
  import opened IwpmRequests
  import opened IwpmHost
  import opened IwpmProtocol
  import Tbl = IwpmTable

  /** Two requests of queries with one handle. */
  predicate Twins(r: MapRequest, r': MapRequest) {
    r.kind == Query && r'.kind == Query && r.handle == r'.handle
  }

  /** At most one query per handle, listed or about to be. */
  ghost predicate OneQuery(h: Host) {
    && (forall i, j :: 0 <= i < j < |h.reqs| ==> !Twins(h.reqs[i], h.reqs[j]))
    && (h.cont.Posting? ==> forall j :: 0 <= j < |h.reqs| ==> !Twins(h.cont.req, h.reqs[j]))
  }

  /** No query with handle `x` waits for an answer. */
  ghost predicate QuietHandle(h: Host, x: nat) {
    && (forall i :: 0 <= i < |h.reqs| && h.reqs[i].kind == Query && h.reqs[i].handle == x ==> h.reqs[i].complete)
    && (h.cont.Posting? ==> !(h.cont.req.kind == Query && h.cont.req.handle == x))
  }

  // ----- what every step keeps

  lemma UpdateKeepsBoth(h: Host, handle: nat, addr: SockAddr, kinds: set<ReqKind>, x: nat)
    requires h.cont.Idle?
    ensures var h' := h.(reqs := UpdateReq(h.reqs, handle, addr, kinds));
            (OneQuery(h) ==> OneQuery(h')) && (QuietHandle(h, x) ==> QuietHandle(h', x))
  {
    var reqs' := UpdateReq(h.reqs, handle, addr, kinds);
    assert forall i :: 0 <= i < |reqs'| ==> Like(h.reqs[i], reqs'[i]) && (h.reqs[i].complete ==> reqs'[i].complete);
  }

  lemma SweepKeepsBoth(h: Host, x: nat)
    ensures var h' := SweepStep(h).host;
            (OneQuery(h) ==> OneQuery(h')) && (QuietHandle(h, x) ==> QuietHandle(h', x))
  {
    var reqs' := Sweep(h.reqs);
    forall a | 0 <= a < |reqs'|
      ensures exists i :: 0 <= i < |h.reqs| && reqs'[a] == Aged(h.reqs[i])
    {
      var i, _ := SweepPair(h.reqs, a, a);
    }
    if OneQuery(h) {
      forall a, b | 0 <= a < b < |reqs'|
        ensures !Twins(reqs'[a], reqs'[b])
      {
        var i, j := SweepPair(h.reqs, a, b);
        assert !Twins(h.reqs[i], h.reqs[j]);
      }
    }
  }

  lemma PostKeepsBoth(h: Host, x: nat)
    requires h.cont.Posting?
    ensures var h' := PostStep(h).host;
            (OneQuery(h) ==> OneQuery(h')) && (QuietHandle(h, x) ==> QuietHandle(h', x))
  {
    var reqs' := PostStep(h).host.reqs;
    assert forall i :: 0 < i < |reqs'| ==> reqs'[i] == h.reqs[i - 1];
  }

  lemma WireKeepsBoth(h: Host, data: WireMsg, src: nat, env: WireEnv, x: nat)
    requires h.cont.Idle?
    ensures var h' := WireStep(h, data, src, env).host;
            (OneQuery(h) ==> OneQuery(h')) && (QuietHandle(h, x) ==> QuietHandle(h', x))
  {
    var pm := ParseMsg(data);
    if pm.Some? {
      var m := pm.value;
      if m.mt == MT_ACK {
        UpdateKeepsBoth(h, m.handle, ApAddr(m), {Accept}, x);
      } else if m.mt != MT_REQ {
        var f := Tbl.Find(h.table.ports, Tbl.Exact(CpAddr(m), true));
        if f.Some? {
          var kinds := if m.mt == MT_ACC then {Query, Ack} else {Query};
          UpdateKeepsBoth(h, m.handle, h.table.ports[f.value].local, kinds, x);
        }
      }
    }
  }

  /** A query takes a handle that this host has not used. */
  lemma AskKeepsBoth(past: Past, id: nat, h: Host, q: QueryArgs, x: nat)
    requires HostOk(past, id, h) && h.cont.Idle? && q.ptr != 0 && (id, q.ptr) !in past.issued
    ensures OneQuery(h) ==> OneQuery(QueryStep(h, q).host)
    ensures QuietHandle(h, x) && (id, x) in past.issued ==> QuietHandle(QueryStep(h, q).host, x)
  {
    forall j | 0 <= j < |h.reqs|
      ensures h.reqs[j].kind == Query ==> h.reqs[j].handle != q.ptr
    {
      assert EntryOk(past, id, h.reqs[j], h.nextRid);
    }
  }

  lemma StepKeepsBoth(w: World, s: Step, x: nat)
    requires Inv(w) && Enabled(w, s)
    ensures var h, h' := w.hosts[Actor(s)], StepEffect(w, s).host;
            && (OneQuery(h) ==> OneQuery(h'))
            && (QuietHandle(h, x) && (Actor(s), x) in w.past.issued ==> QuietHandle(h', x))
  {
    var h := w.hosts[Actor(s)];
    match s
    case Client(_, _) =>
    case Ask(id, q) => AskKeepsBoth(w.past, id, h, q, x);
    case Posted(_) => PostKeepsBoth(h, x);
    case Timer(_) => SweepKeepsBoth(h, x);
    case Deliver(p, env) => WireKeepsBoth(h, p.data, p.src, env, x);
  }

  // ----- a report quiets its handle

  lemma CompletedIsQuiet(h: Host, k: nat, handle: nat, addr: SockAddr, kinds: set<ReqKind>)
    requires OneQuery(h) && h.cont.Idle? && FindReq(h.reqs, handle, addr, kinds) == Some(k) && h.reqs[k].kind == Query
    ensures QuietHandle(h.(reqs := UpdateReq(h.reqs, handle, addr, kinds)), handle)
  {
    forall i | 0 <= i < |h.reqs| && i != k
      ensures !Twins(h.reqs[i], h.reqs[k])
    {
      assert i < k ==> !Twins(h.reqs[i], h.reqs[k]);
      assert k < i ==> !Twins(h.reqs[k], h.reqs[i]);
    }
  }

  ghost predicate QuietsIfReports(e: Effect) {
    forall i :: 0 <= i < |e.notes| && !e.notes[i].Incoming? ==> QuietHandle(e.host, e.notes[i].handle)
  }

  lemma AcceptQuiets(h: Host, m: MsgParms, src: nat, env: WireEnv)
    requires OneQuery(h) && h.cont.Idle?
    ensures QuietsIfReports(AcceptStep(h, m, src, env))
  {
    if AcceptStep(h, m, src, env).notes != [] {
      var port := h.table.ports[Tbl.Find(h.table.ports, Tbl.Exact(CpAddr(m), true)).value];
      var k := FindReq(h.reqs, m.handle, port.local, {Query, Ack}).value;
      CompletedIsQuiet(h, k, m.handle, port.local, {Query, Ack});
    }
  }

  lemma RejectQuiets(h: Host, m: MsgParms, env: WireEnv)
    requires OneQuery(h) && h.cont.Idle?
    ensures QuietsIfReports(RejectStep(h, m, env))
  {
    if RejectStep(h, m, env).notes != [] {
      var port := h.table.ports[Tbl.Find(h.table.ports, Tbl.Exact(CpAddr(m), true)).value];
      var k := FindReq(h.reqs, m.handle, port.local, {Query}).value;
      CompletedIsQuiet(h, k, m.handle, port.local, {Query});
    }
  }

  lemma ReportQuiets(w: World, s: Step)
    requires Inv(w) && Enabled(w, s) && OneQuery(w.hosts[Actor(s)])
    ensures QuietsIfReports(StepEffect(w, s))
  {
    var h := w.hosts[Actor(s)];
    assert HostOk(w.past, Actor(s), h);
    if s.Deliver? {
      var pm := ParseMsg(s.p.data);
      if pm.Some? {
        AcceptQuiets(h, pm.value, s.p.src, s.env);
        RejectQuiets(h, pm.value, s.env);
      }
    }
  }

  // ----- whole runs

  /** A report of a query names a handle that was issued and is quiet. */
  ghost predicate QuietNote(past: Past, hosts: map<nat, Host>, n: HostNote) {
    !n.note.Incoming? ==>
      n.host in hosts && (n.host, n.note.handle) in past.issued && QuietHandle(hosts[n.host], n.note.handle)
  }

  ghost predicate AllQuiet(w: World) {
    && (forall h :: h in w.hosts ==> OneQuery(w.hosts[h]))
    && (forall i :: 0 <= i < |w.notes| ==> QuietNote(w.past, w.hosts, w.notes[i]))
  }

  lemma QuietStep(w: World, s: Step)
    requires Inv(w) && AllQuiet(w) && Enabled(w, s)
    ensures AllQuiet(Next(w, s))
  {
    var e := StepEffect(w, s);
    StepKeepsBoth(w, s, 0);
    StepOk(w, s);
    ReportQuiets(w, s);
    HandlesStayQuiet(w, s);
    NotesStayQuiet(w.past, StepPast(w, s), w.hosts, w.notes, Actor(s), e);
  }

  lemma HandlesStayQuiet(w: World, s: Step)
    requires Inv(w) && Enabled(w, s)
    ensures forall x: nat :: QuietHandle(w.hosts[Actor(s)], x) && (Actor(s), x) in w.past.issued ==>
              QuietHandle(StepEffect(w, s).host, x)
  {
    forall x: nat | QuietHandle(w.hosts[Actor(s)], x) && (Actor(s), x) in w.past.issued
      ensures QuietHandle(StepEffect(w, s).host, x)
    {
      StepKeepsBoth(w, s, x);
    }
  }

  lemma NotesStayQuiet(past: Past, past': Past, hosts: map<nat, Host>, notes: seq<HostNote>, id: nat, e: Effect)
    requires id in hosts && Extends(past, past') && EffectOk(past', id, e) && QuietsIfReports(e)
    requires forall i :: 0 <= i < |notes| ==> QuietNote(past, hosts, notes[i])
    requires forall x: nat :: QuietHandle(hosts[id], x) && (id, x) in past.issued ==> QuietHandle(e.host, x)
    ensures var notes' := notes + Tag(id, e.notes);
            forall i :: 0 <= i < |notes'| ==> QuietNote(past', hosts[id := e.host], notes'[i])
  {
    var notes' := notes + Tag(id, e.notes);
    forall i | 0 <= i < |notes'|
      ensures QuietNote(past', hosts[id := e.host], notes'[i])
    {
      if i < |notes| {
        assert QuietNote(past, hosts, notes[i]);
      } else {
        assert notes'[i] == HostNote(id, e.notes[i - |notes|]) && NoteOk(past', id, e.notes[i - |notes|]);
      }
    }
  }

  lemma {:induction false} RunQuiet(ws: seq<World>, ss: seq<Step>, n: nat)
    requires IsRun(ws, ss) && n < |ws|
    ensures AllQuiet(ws[n])
  {
    if n == 0 {
      InitQuiet(ws[0]);
    } else {
      RunQuiet(ws, ss, n - 1);
      QuietInRun(ws, ss, n - 1);
    }
  }

  lemma QuietInRun(ws: seq<World>, ss: seq<Step>, n: nat)
    requires IsRun(ws, ss) && n < |ss| && AllQuiet(ws[n])
    ensures AllQuiet(ws[n + 1])
  {
    RunInv(ws, ss, n);
    assert Enabled(ws[n], ss[n]) && ws[n + 1] == Next(ws[n], ss[n]);
    QuietStep(ws[n], ss[n]);
  }

  lemma InitQuiet(w: World)
    requires Init(w)
    ensures AllQuiet(w)
  {
  }

  /** What an accept may do when nothing waits for it: repeat the acknowledgement and renew
      the entry that tells of it. */
  ghost predicate OnlyAcks(h: Host, m: MsgParms, src: nat, e: Effect) {
    && e.notes == [] && e.host.cont == h.cont && e.host.table == h.table && e.host.nextRid == h.nextRid
    && |e.host.reqs| == |h.reqs|
    && (forall i :: 0 <= i < |h.reqs| ==>
          || e.host.reqs[i] == h.reqs[i]
          || (h.reqs[i].kind == Ack && e.host.reqs[i] == h.reqs[i].(timeout := REQ_TIMEOUT, complete := false)))
    && (e.sends == [] || e.sends == [SendMsg(src, FormMsg(m.(mt := MT_ACK)))])
  }

  lemma QuietAccept(h: Host, m: MsgParms, src: nat, env: WireEnv)
    requires h.cont.Idle? && QuietHandle(h, m.handle)
    ensures OnlyAcks(h, m, src, AcceptStep(h, m, src, env))
  {
  }

  /** Second half of at-most-once. In every run, once host `h` has reported a query, be it as
      connected or as rejected, every accept with the handle of that query, from whatever
      host and with whatever addresses, leaves the client alone and leads at most to a
      repeated acknowledgement; and no reject with it is reported. */
  lemma ReportedStaysQuiet(ws: seq<World>, ss: seq<Step>, n: nat, i: nat, p: Packet, env: WireEnv)
    requires IsRun(ws, ss) && n < |ws| && i < |ws[n].notes| && !ws[n].notes[i].note.Incoming?
    requires Enabled(ws[n], Deliver(p, env)) && p.dst == ws[n].notes[i].host
    requires ParseMsg(p.data).Some? && ParseMsg(p.data).value.handle == ws[n].notes[i].note.handle
    requires ParseMsg(p.data).value.mt == MT_ACC || ParseMsg(p.data).value.mt == MT_REJ
    ensures var w, w', m := ws[n], Next(ws[n], Deliver(p, env)), ParseMsg(p.data).value;
            && w'.notes == w.notes && w'.hosts[p.dst].table == w.hosts[p.dst].table
            && (m.mt == MT_ACC ==> OnlyAcks(w.hosts[p.dst], m, p.src, StepEffect(w, Deliver(p, env))))
            && (m.mt == MT_REJ ==> w' == w)
  {
    RunOk(ws, ss, n);
    RunQuiet(ws, ss, n);
    var w, m := ws[n], ParseMsg(p.data).value;
    assert QuietNote(w.past, w.hosts, w.notes[i]);
    if m.mt == MT_ACC {
      QuietAccept(w.hosts[p.dst], m, p.src, env);
    } else {
      QuietReject(w.hosts[p.dst], m, env);
      assert w.hosts[p.dst := w.hosts[p.dst]] == w.hosts;
    }
  }

  lemma QuietReject(h: Host, m: MsgParms, env: WireEnv)
    requires h.cont.Idle? && QuietHandle(h, m.handle)
    ensures RejectStep(h, m, env) == Quiet(h)
  {
    var f := Tbl.Find(h.table.ports, Tbl.Exact(CpAddr(m), true));
    if f.Some? {
      var k := FindReq(h.reqs, m.handle, h.table.ports[f.value].local, {Query});
      assert k.Some? ==> h.reqs[k.value := Touch(h.reqs[k.value])] == h.reqs;
    }
  }
}
