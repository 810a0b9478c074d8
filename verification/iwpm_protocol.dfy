/** Any number of daemons over a network that loses, duplicates and reorders messages but
    does not invent them. */
module IwpmProtocol {
  import opened IwpmTypes
  import opened IwpmWire
  import opened IwpmRequests
  import opened IwpmHost
  import Tbl = IwpmTable

  /** A datagram on its way. The network is the set of all datagrams ever sent: each may be
      delivered never, once, or many times, in any order. */
  datatype Packet = Packet(src: nat, dst: nat, data: WireMsg)

  /** The record of a query: what the client asked for, the port it was given, and the
      host that owns the remote address. */
  datatype Issue = Issue(local: SockAddr, remote: SockAddr, port: MappedPort, dest: nat)

  /** The record of an accept: host `host` answered request `req` of host `to` with `port`. */
  datatype Answer = Answer(host: nat, to: nat, req: MsgParms, port: MappedPort)

  /** Queries are indexed by host and handle. */
  datatype Past = Past(issued: map<(nat, nat), Issue>, answers: seq<Answer>)

  datatype HostNote = HostNote(host: nat, note: Note)

  datatype World = World(hosts: map<nat, Host>, net: set<Packet>, past: Past, notes: seq<HostNote>)

  datatype Step =
    | Client(h: nat, op: Tbl.TableOp)
    | Ask(h: nat, q: QueryArgs)
    | Posted(h: nat)
    | Deliver(p: Packet, env: WireEnv)
    | Timer(h: nat)

  function Actor(s: Step): nat {
    if s.Deliver? then s.p.dst else s.h
  }

  /** When a step can happen. The handle of a query is the address of its request object;
      it is taken to be nonzero and not used before by this host. */
  predicate Enabled(w: World, s: Step) {
    && Actor(s) in w.hosts
    && match s
       case Client(h, op) => w.hosts[h].cont.Idle? && !op.QueryOp?
       case Ask(h, q) => w.hosts[h].cont.Idle? && q.ptr != 0 && (h, q.ptr) !in w.past.issued
       case Posted(h) => w.hosts[h].cont.Posting?
       case Deliver(p, _) => p in w.net && w.hosts[p.dst].cont.Idle?
       case Timer(_) => true
  }

  function StepEffect(w: World, s: Step): Effect
    requires Enabled(w, s)
  {
    match s
    case Client(h, op) => Quiet(w.hosts[h].(table := Tbl.Apply(w.hosts[h].table, op).0))
    case Ask(h, q) => QueryStep(w.hosts[h], q)
    case Posted(h) => PostStep(w.hosts[h])
    case Deliver(p, env) => WireStep(w.hosts[p.dst], p.data, p.src, env)
    case Timer(h) => SweepStep(w.hosts[h])
  }

  /** The records a step adds. */
  function StepPast(w: World, s: Step): Past
    requires Enabled(w, s)
  {
    match s
    case Ask(h, q) =>
      var o := QueryTable(w.hosts[h], q).1;
      if !o.Acquired? then w.past
      else w.past.(issued := w.past.issued[(h, q.ptr) := Issue(q.local, q.remote, o.port, q.dest)])
    case Deliver(p, env) =>
      var h := w.hosts[p.dst];
      var m := ParseMsg(p.data);
      if m.Some? && m.value.mt == MT_REQ && RequestStep(h, m.value, p.src, env).host.cont.Posting? then
        var i := Tbl.Find(h.table.ports, Tbl.Loose(ApAddr(m.value), true)).value;
        w.past.(answers := w.past.answers + [Answer(p.dst, p.src, m.value, h.table.ports[i])])
      else w.past
    case _ => w.past
  }

  function Packets(src: nat, ms: seq<SendMsg>): set<Packet> {
    set m | m in ms :: Packet(src, m.dest, m.data)
  }

  function Tag(h: nat, notes: seq<Note>): (r: seq<HostNote>)
    ensures |r| == |notes|
  {
    seq(|notes|, i requires 0 <= i < |notes| => HostNote(h, notes[i]))
  }

  function Next(w: World, s: Step): World
    requires Enabled(w, s)
  {
    var e := StepEffect(w, s);
    World(w.hosts[Actor(s) := e.host], w.net + Packets(Actor(s), e.sends), StepPast(w, s),
          w.notes + Tag(Actor(s), e.notes))
  }

  ghost predicate Init(w: World) {
    && (forall h :: h in w.hosts ==> w.hosts[h] == INIT_HOST)
    && w.net == {} && w.past == Past(map[], []) && w.notes == []
  }

  ghost predicate IsRun(ws: seq<World>, ss: seq<Step>) {
    && |ws| == |ss| + 1 && Init(ws[0])
    && forall i :: 0 <= i < |ss| ==> Enabled(ws[i], ss[i]) && ws[i + 1] == Next(ws[i], ss[i])
  }

  // ----- what the records say about messages, requests and reports

  function RequestMsg(iss: Issue, handle: nat): SendMsg {
    SendMsg(iss.dest, FormMsg(QueryParms(iss.local, iss.remote, iss.port.mapped, handle)))
  }

  function AcceptMsg(a: Answer): SendMsg {
    SendMsg(a.to, FormMsg(AcceptParms(a.req, a.port)))
  }

  /** The acknowledgement of an accept. */
  function AckMsg(a: Answer): SendMsg {
    SendMsg(a.host, FormMsg(AcceptParms(a.req, a.port).(mt := MT_ACK)))
  }

  /** The reject of a query that host `to` issued. */
  function RejectMsg(iss: Issue, to: nat, handle: nat): SendMsg {
    SendMsg(to, FormMsg(QueryParms(iss.local, iss.remote, iss.port.mapped, handle).(mt := MT_REJ)))
  }

  /** A message host `h` may send: a request it issued, an accept it decided on, the
      acknowledgement of an accept it was sent, or the reject of a request it was sent. */
  ghost predicate SendOk(past: Past, h: nat, m: SendMsg) {
    var pm := ParseMsg(m.data);
    && pm.Some?
    && (pm.value.mt == MT_REQ ==>
          (h, pm.value.handle) in past.issued && m == RequestMsg(past.issued[(h, pm.value.handle)], pm.value.handle))
    && (pm.value.mt == MT_ACC ==>
          exists k :: 0 <= k < |past.answers| && past.answers[k].host == h && m == AcceptMsg(past.answers[k]))
    && (pm.value.mt == MT_ACK ==>
          exists k :: 0 <= k < |past.answers| && past.answers[k].to == h && m == AckMsg(past.answers[k]))
    && (pm.value.mt == MT_REJ ==>
          && (m.dest, pm.value.handle) in past.issued && past.issued[(m.dest, pm.value.handle)].dest == h
          && m == RejectMsg(past.issued[(m.dest, pm.value.handle)], m.dest, pm.value.handle))
  }

  ghost predicate IssueOk(past: Past, h: nat, handle: nat)
    requires (h, handle) in past.issued
  {
    var iss := past.issued[(h, handle)];
    && handle != 0 && iss.remote.family != Other && iss.port.local.family == iss.port.mapped.family
    && (iss.local.family != Other && !IsWild(iss.local) ==> SameAddr(iss.local, iss.port.local))
  }

  /** The answer responds to a request that was issued to this host, with a port that
      matches the address asked for. */
  ghost predicate AnswerOk(past: Past, a: Answer) {
    && (a.to, a.req.handle) in past.issued
    && var iss := past.issued[(a.to, a.req.handle)];
       && a.host == iss.dest
       && a.req == QueryParms(iss.local, iss.remote, iss.port.mapped, a.req.handle)
       && Tbl.Hit(Tbl.Loose(ApAddr(a.req), true), a.port)
  }

  ghost predicate ReqLinked(past: Past, h: nat, r: MapRequest) {
    && ReqOk(r) && r.handle != 0
    && (r.kind != Accept ==> (h, r.handle) in past.issued && r.remote == past.issued[(h, r.handle)].remote)
    && (r.kind == Query ==> r.src == past.issued[(h, r.handle)].port.local)
    && (r.sendMsg.Some? ==> SendOk(past, h, r.sendMsg.value))
  }

  /** Answer `k` is what a report of a connection rests on. */
  ghost predicate Supports(past: Past, k: int, h: nat, n: Note)
    requires n.Connected?
  {
    && 0 <= k < |past.answers| && past.answers[k].to == h && past.answers[k].req.handle == n.handle
    && n.mappedRemote == ApAddr(AcceptParms(past.answers[k].req, past.answers[k].port))
  }

  /** Answer `k` is what a report of an incoming connection rests on. */
  ghost predicate Explains(past: Past, k: int, h: nat, n: Note)
    requires n.Incoming?
  {
    && 0 <= k < |past.answers|
    && var a := past.answers[k];
       && a.host == h && a.req.handle == n.handle
       && n.local == a.port.local && n.mappedLocal == a.port.mapped && n.portId == a.port.id
       && n.remote == CpAddr(a.req) && n.mappedRemote == MappedCpAddr(a.req)
  }

  ghost predicate NoteOk(past: Past, h: nat, n: Note) {
    if n.Incoming? then exists k :: Explains(past, k, h, n)
    else
      && (h, n.handle) in past.issued
      && var iss := past.issued[(h, n.handle)];
         && n.remote == iss.remote
         && SameAddr(n.local, iss.port.local)
         && (n.portId == iss.port.id ==> n.local == iss.port.local && n.mappedLocal == iss.port.mapped)
         && (n.Connected? ==> exists k :: Supports(past, k, h, n))
  }

  /** The port a query was given still is what it was, as long as it is in the table. */
  ghost predicate IssueTracks(iss: Issue, t: Tbl.Table) {
    && iss.port.id < t.nextId
    && forall i :: 0 <= i < |t.ports| && t.ports[i].id == iss.port.id ==> Tbl.SamePort(t.ports[i], iss.port)
  }

  ghost predicate Tracks(past: Past, h: nat, t: Tbl.Table) {
    forall x :: (h, x) in past.issued ==> IssueTracks(past.issued[(h, x)], t)
  }

  /** Two entries that must not both exist: the same object twice, or two accept entries
      for one handle and mapped local address. */
  predicate Clash(r: MapRequest, r': MapRequest) {
    || r.rid == r'.rid
    || (r.kind == Accept && r'.kind == Accept && r.handle == r'.handle && SameAddr(r.src, r'.src))
  }

  ghost predicate EntryOk(past: Past, h: nat, r: MapRequest, nextRid: nat) {
    ReqLinked(past, h, r) && r.rid < nextRid
  }

  ghost predicate LiveOk(past: Past, h: nat, reqs: seq<MapRequest>, nextRid: nat) {
    && (forall i, j :: 0 <= i < j < |reqs| ==> !Clash(reqs[i], reqs[j]))
    && (forall i :: 0 <= i < |reqs| ==> EntryOk(past, h, reqs[i], nextRid))
  }

  ghost predicate Fits(past: Past, h: nat, r: MapRequest, reqs: seq<MapRequest>, nextRid: nat) {
    EntryOk(past, h, r, nextRid) && forall j :: 0 <= j < |reqs| ==> !Clash(r, reqs[j])
  }

  ghost predicate ContOk(past: Past, h: nat, c: Cont) {
    c.Posting? ==>
      && (forall i :: 0 <= i < |c.sends| ==> SendOk(past, h, c.sends[i]))
      && (forall i :: 0 <= i < |c.notes| ==> c.notes[i].Incoming? && NoteOk(past, h, c.notes[i]))
  }

  ghost predicate HostOk(past: Past, id: nat, h: Host) {
    && Tbl.TableInv(h.table) && Tracks(past, id, h.table)
    && LiveOk(past, id, h.reqs, h.nextRid) && ContOk(past, id, h.cont)
    && (h.cont.Posting? ==> Fits(past, id, h.cont.req, h.reqs, h.nextRid))
  }

  ghost predicate PastOk(past: Past) {
    && (forall h, x :: (h, x) in past.issued ==> IssueOk(past, h, x))
    && (forall k :: 0 <= k < |past.answers| ==> AnswerOk(past, past.answers[k]))
  }

  ghost predicate Inv(w: World) {
    && PastOk(w.past)
    && (forall h :: h in w.hosts ==> HostOk(w.past, h, w.hosts[h]))
    && (forall p :: p in w.net ==> SendOk(w.past, p.src, SendMsg(p.dst, p.data)))
    && (forall i :: 0 <= i < |w.notes| ==> NoteOk(w.past, w.notes[i].host, w.notes[i].note))
  }

  // ----- records only grow

  ghost predicate Extends(p: Past, p': Past) {
    && (forall k :: k in p.issued ==> k in p'.issued && p'.issued[k] == p.issued[k])
    && p.answers <= p'.answers
  }

  lemma SendOkExtends(p: Past, p': Past, h: nat, m: SendMsg)
    requires Extends(p, p') && SendOk(p, h, m)
    ensures SendOk(p', h, m)
  {
    if ParseMsg(m.data).value.mt == MT_ACC {
      var k :| 0 <= k < |p.answers| && p.answers[k].host == h && m == AcceptMsg(p.answers[k]);
      assert p'.answers[k] == p.answers[k];
    } else if ParseMsg(m.data).value.mt == MT_ACK {
      var k :| 0 <= k < |p.answers| && p.answers[k].to == h && m == AckMsg(p.answers[k]);
      assert p'.answers[k] == p.answers[k];
    }
  }

  lemma NoteOkExtends(p: Past, p': Past, h: nat, n: Note)
    requires Extends(p, p') && NoteOk(p, h, n)
    ensures NoteOk(p', h, n)
  {
    if n.Incoming? {
      var k :| Explains(p, k, h, n);
      assert Explains(p', k, h, n);
    } else if n.Connected? {
      var k :| Supports(p, k, h, n);
      assert Supports(p', k, h, n);
    }
  }

  lemma EntryOkExtends(p: Past, p': Past, h: nat, r: MapRequest, nextRid: nat)
    requires Extends(p, p') && EntryOk(p, h, r, nextRid)
    ensures EntryOk(p', h, r, nextRid)
  {
    if r.sendMsg.Some? { SendOkExtends(p, p', h, r.sendMsg.value); }
  }

  lemma LiveOkExtends(p: Past, p': Past, h: nat, reqs: seq<MapRequest>, nextRid: nat)
    requires Extends(p, p') && LiveOk(p, h, reqs, nextRid)
    ensures LiveOk(p', h, reqs, nextRid)
  {
    forall i | 0 <= i < |reqs|
      ensures EntryOk(p', h, reqs[i], nextRid)
    {
      EntryOkExtends(p, p', h, reqs[i], nextRid);
    }
  }

  lemma ContOkExtends(p: Past, p': Past, h: nat, c: Cont)
    requires Extends(p, p') && ContOk(p, h, c)
    ensures ContOk(p', h, c)
  {
    if c.Posting? {
      forall i | 0 <= i < |c.sends| ensures SendOk(p', h, c.sends[i]) { SendOkExtends(p, p', h, c.sends[i]); }
      forall i | 0 <= i < |c.notes| ensures NoteOk(p', h, c.notes[i]) { NoteOkExtends(p, p', h, c.notes[i]); }
    }
  }

  /** A host is as good as it was when records are added that do not concern its table. */
  lemma HostOkExtends(p: Past, p': Past, id: nat, h: Host)
    requires Extends(p, p') && HostOk(p, id, h) && Tracks(p', id, h.table)
    ensures HostOk(p', id, h)
  {
    LiveOkExtends(p, p', id, h.reqs, h.nextRid);
    ContOkExtends(p, p', id, h.cont);
    if h.cont.Posting? { EntryOkExtends(p, p', id, h.cont.req, h.nextRid); }
  }

  // ----- changes to one host

  lemma TableChange(past: Past, id: nat, h: Host, t: Tbl.Table)
    requires HostOk(past, id, h) && Tbl.TableInv(t) && Tbl.Persists(h.table, t)
    ensures HostOk(past, id, h.(table := t))
  {
    forall x | (id, x) in past.issued
      ensures IssueTracks(past.issued[(id, x)], t)
    {
      assert IssueTracks(past.issued[(id, x)], h.table);
    }
  }

  lemma UpdateLive(past: Past, id: nat, reqs: seq<MapRequest>, nextRid: nat, handle: nat, addr: SockAddr,
                   kinds: set<ReqKind>)
    requires LiveOk(past, id, reqs, nextRid)
    ensures LiveOk(past, id, UpdateReq(reqs, handle, addr, kinds), nextRid)
  {
    var reqs' := UpdateReq(reqs, handle, addr, kinds);
    forall i | 0 <= i < |reqs'|
      ensures EntryOk(past, id, reqs'[i], nextRid) && Like(reqs[i], reqs'[i])
    {
      assert EntryOk(past, id, reqs[i], nextRid);
    }
    forall i, j | 0 <= i < j < |reqs'|
      ensures !Clash(reqs'[i], reqs'[j])
    {
      assert !Clash(reqs[i], reqs[j]);
      assert Like(reqs[i], reqs'[i]) && Like(reqs[j], reqs'[j]);
    }
  }

  lemma UpdateChange(past: Past, id: nat, h: Host, handle: nat, addr: SockAddr, kinds: set<ReqKind>)
    requires HostOk(past, id, h) && h.cont.Idle?
    ensures HostOk(past, id, h.(reqs := UpdateReq(h.reqs, handle, addr, kinds)))
  {
    UpdateLive(past, id, h.reqs, h.nextRid, handle, addr, kinds);
  }

  lemma SweepLive(past: Past, id: nat, reqs: seq<MapRequest>, nextRid: nat)
    requires LiveOk(past, id, reqs, nextRid)
    ensures LiveOk(past, id, Sweep(reqs), nextRid)
  {
    forall a | 0 <= a < |Sweep(reqs)|
      ensures EntryOk(past, id, Sweep(reqs)[a], nextRid)
    {
      var i, _ := SweepPair(reqs, a, a);
      assert EntryOk(past, id, reqs[i], nextRid);
    }
    forall a, b | 0 <= a < b < |Sweep(reqs)|
      ensures !Clash(Sweep(reqs)[a], Sweep(reqs)[b])
    {
      var i, j := SweepPair(reqs, a, b);
      assert !Clash(reqs[i], reqs[j]);
    }
  }

  lemma SweepFits(past: Past, id: nat, r: MapRequest, reqs: seq<MapRequest>, nextRid: nat)
    requires Fits(past, id, r, reqs, nextRid)
    ensures Fits(past, id, r, Sweep(reqs), nextRid)
  {
    forall a | 0 <= a < |Sweep(reqs)|
      ensures !Clash(r, Sweep(reqs)[a])
    {
      var i, _ := SweepPair(reqs, a, a);
      assert !Clash(r, reqs[i]);
    }
  }

  lemma SweepSends(past: Past, id: nat, reqs: seq<MapRequest>, nextRid: nat, m: SendMsg)
    requires LiveOk(past, id, reqs, nextRid) && m in Messages(Resent(reqs))
    ensures SendOk(past, id, m)
  {
    MessagesMember(Resent(reqs), m);
    var k :| 0 <= k < |Resent(reqs)| && Resent(reqs)[k].sendMsg == Some(m);
    ResentMember(reqs, Resent(reqs)[k]);
    var j :| 0 <= j < |reqs| && reqs[j] == Resent(reqs)[k];
    assert EntryOk(past, id, reqs[j], nextRid);
  }

  lemma SweepChange(past: Past, id: nat, h: Host)
    requires HostOk(past, id, h)
    ensures EffectOk(past, id, SweepStep(h))
  {
    SweepLive(past, id, h.reqs, h.nextRid);
    if h.cont.Posting? { SweepFits(past, id, h.cont.req, h.reqs, h.nextRid); }
    var e := SweepStep(h);
    forall i | 0 <= i < |e.sends|
      ensures SendOk(past, id, e.sends[i])
    {
      SweepSends(past, id, h.reqs, h.nextRid, e.sends[i]);
    }
  }

  lemma LiveOkNext(past: Past, id: nat, reqs: seq<MapRequest>, nextRid: nat)
    requires LiveOk(past, id, reqs, nextRid)
    ensures LiveOk(past, id, reqs, nextRid + 1)
  {
    forall i | 0 <= i < |reqs|
      ensures EntryOk(past, id, reqs[i], nextRid + 1)
    {
      assert EntryOk(past, id, reqs[i], nextRid);
    }
  }

  lemma PostingChange(past: Past, id: nat, h: Host, req: MapRequest, sends: seq<SendMsg>, notes: seq<Note>)
    requires HostOk(past, id, h) && h.cont.Idle?
    requires ReqLinked(past, id, req) && req.rid == h.nextRid
    requires req.kind == Accept ==> FindReq(h.reqs, req.handle, req.src, {Accept}).None?
    requires ContOk(past, id, Posting(req, sends, notes))
    ensures HostOk(past, id, h.(nextRid := h.nextRid + 1, cont := Posting(req, sends, notes)))
  {
    LiveOkNext(past, id, h.reqs, h.nextRid);
    forall j | 0 <= j < |h.reqs|
      ensures !Clash(req, h.reqs[j])
    {
      assert EntryOk(past, id, h.reqs[j], h.nextRid);
      assert req.kind == Accept ==> !ReqHit(h.reqs[j], req.handle, req.src, {Accept});
    }
  }

  lemma PostChange(past: Past, id: nat, h: Host)
    requires HostOk(past, id, h) && h.cont.Posting?
    ensures EffectOk(past, id, PostStep(h))
  {
    var reqs' := [h.cont.req] + h.reqs;
    assert forall i :: 0 < i < |reqs'| ==> reqs'[i] == h.reqs[i - 1];
  }

  // ----- the handlers

  /** What a step at host `id` must establish. */
  ghost predicate EffectOk(past: Past, id: nat, e: Effect) {
    && HostOk(past, id, e.host)
    && (forall i :: 0 <= i < |e.sends| ==> SendOk(past, id, e.sends[i]))
    && (forall i :: 0 <= i < |e.notes| ==> NoteOk(past, id, e.notes[i]))
  }

  /** Adding a good answer keeps the records good. */
  lemma AnswerPast(past: Past, a: Answer)
    requires PastOk(past) && AnswerOk(past, a)
    ensures var past' := past.(answers := past.answers + [a]);
            Extends(past, past') && PastOk(past')
  {
    var past' := past.(answers := past.answers + [a]);
    forall k | 0 <= k < |past'.answers|
      ensures AnswerOk(past', past'.answers[k])
    {
      assert AnswerOk(past, past'.answers[k]);
    }
    forall h, x | (h, x) in past'.issued ensures IssueOk(past', h, x) { assert IssueOk(past, h, x); }
  }

  /** Adding a query with a new handle keeps the records good. */
  lemma IssuePast(past: Past, h: nat, handle: nat, iss: Issue)
    requires PastOk(past) && (h, handle) !in past.issued
    requires var past' := past.(issued := past.issued[(h, handle) := iss]); IssueOk(past', h, handle)
    ensures var past' := past.(issued := past.issued[(h, handle) := iss]);
            Extends(past, past') && PastOk(past')
  {
    var past' := past.(issued := past.issued[(h, handle) := iss]);
    forall k | 0 <= k < |past'.answers|
      ensures AnswerOk(past', past'.answers[k])
    {
      assert AnswerOk(past, past.answers[k]);
    }
    forall x, y | (x, y) in past'.issued
      ensures IssueOk(past', x, y)
    {
      assert (x, y) in past.issued ==> IssueOk(past, x, y);
    }
  }

  /** A reject may be sent for a request that was issued to this host. */
  lemma RejectSend(past: Past, h: nat, to: nat, handle: nat)
    requires (to, handle) in past.issued && past.issued[(to, handle)].dest == h && IssueOk(past, to, handle)
    ensures SendOk(past, h, RejectMsg(past.issued[(to, handle)], to, handle))
  {
    var iss := past.issued[(to, handle)];
    ParseForm(QueryParms(iss.local, iss.remote, iss.port.mapped, handle).(mt := MT_REJ));
  }

  /** An acknowledgement may be sent for an accept that was decided on for this host. */
  lemma AckSend(past: Past, k: nat, m: MsgParms)
    requires k < |past.answers| && Sendable(past.answers[k].req)
    requires m == OnWire(AcceptParms(past.answers[k].req, past.answers[k].port))
    ensures SendOk(past, past.answers[k].to, SendMsg(past.answers[k].host, FormMsg(m.(mt := MT_ACK))))
  {
    var acc := AcceptParms(past.answers[k].req, past.answers[k].port).(mt := MT_ACK);
    ParseForm(acc);
    assert FormMsg(m.(mt := MT_ACK)) == FormMsg(acc);
  }

  /** An accept may be sent once it is recorded. */
  lemma AcceptSend(past: Past, k: nat)
    requires k < |past.answers| && Sendable(past.answers[k].req)
    ensures SendOk(past, past.answers[k].host, AcceptMsg(past.answers[k]))
  {
    ParseForm(AcceptParms(past.answers[k].req, past.answers[k].port));
  }

  /** A request that arrives was issued by the sender to this host. */
  lemma RequestOrigin(w: World, p: Packet)
    requires Inv(w) && p in w.net
    requires ParseMsg(p.data).Some? && ParseMsg(p.data).value.mt == MT_REQ
    ensures var m := ParseMsg(p.data).value;
            && Sendable(m) && m.handle != 0 && (p.src, m.handle) in w.past.issued
            && var iss := w.past.issued[(p.src, m.handle)];
               iss.dest == p.dst && m == QueryParms(iss.local, iss.remote, iss.port.mapped, m.handle)
  {
    var m := ParseMsg(p.data).value;
    assert SendOk(w.past, p.src, SendMsg(p.dst, p.data));
    FormParse(p.data);
    var iss := w.past.issued[(p.src, m.handle)];
    assert IssueOk(w.past, p.src, m.handle);
    ParseForm(QueryParms(iss.local, iss.remote, iss.port.mapped, m.handle));
  }

  /** A request that is answered leaves the host about to post a good entry. */
  lemma RequestPosts(past: Past, h: Host, m: MsgParms, env: WireEnv, k: nat)
    requires k < |past.answers|
    requires var a := past.answers[k];
             && HostOk(past, a.host, h) && h.cont.Idle? && a.req == m && m.handle != 0
             && SendOk(past, a.host, AcceptMsg(a))
             && var f := Tbl.Find(h.table.ports, Tbl.Loose(ApAddr(m), true));
                f.Some? && a.port == h.table.ports[f.value]
    requires RequestStep(h, m, past.answers[k].to, env).host.cont.Posting?
    ensures EffectOk(past, past.answers[k].host, RequestStep(h, m, past.answers[k].to, env))
  {
    var a := past.answers[k];
    var c := RequestStep(h, m, a.to, env).host.cont;
    assert forall i :: 0 <= i < |c.notes| ==> Explains(past, k, a.host, c.notes[i]);
    PostingChange(past, a.host, h, c.req, c.sends, c.notes);
  }

  lemma RequestHandler(w: World, p: Packet, env: WireEnv)
    requires Inv(w) && Enabled(w, Deliver(p, env))
    requires ParseMsg(p.data).Some? && ParseMsg(p.data).value.mt == MT_REQ
    ensures var s := Deliver(p, env);
            && Extends(w.past, StepPast(w, s)) && PastOk(StepPast(w, s))
            && EffectOk(StepPast(w, s), p.dst, StepEffect(w, s))
  {
    var m := ParseMsg(p.data).value;
    var h := w.hosts[p.dst];
    var past' := StepPast(w, Deliver(p, env));
    RequestOrigin(w, p);
    assert IssueOk(w.past, p.src, m.handle);
    RejectSend(w.past, p.dst, p.src, m.handle);
    if RequestStep(h, m, p.src, env).host.cont.Posting? {
      var k := |w.past.answers|;
      AnswerPast(w.past, past'.answers[k]);
      AcceptSend(past', k);
      HostOkExtends(w.past, past', p.dst, h);
      RequestPosts(past', h, m, env, k);
    }
  }

  /** An accept that arrives was decided on for a query this host issued. */
  lemma AcceptOrigin(w: World, p: Packet) returns (k: nat)
    requires Inv(w) && p in w.net
    requires ParseMsg(p.data).Some? && ParseMsg(p.data).value.mt == MT_ACC
    ensures k < |w.past.answers|
    ensures var a, m := w.past.answers[k], ParseMsg(p.data).value;
            && a.host == p.src && a.to == p.dst && m == OnWire(AcceptParms(a.req, a.port))
            && Sendable(a.req) && (p.dst, m.handle) in w.past.issued
  {
    assert SendOk(w.past, p.src, SendMsg(p.dst, p.data));
    k :| 0 <= k < |w.past.answers| && w.past.answers[k].host == p.src
      && SendMsg(p.dst, p.data) == AcceptMsg(w.past.answers[k]);
    var a := w.past.answers[k];
    assert AnswerOk(w.past, a);
    assert IssueOk(w.past, a.to, a.req.handle);
    ParseForm(AcceptParms(a.req, a.port));
  }

  /** The report of an accept rests on the answer it carries. */
  lemma AcceptNotes(past: Past, id: nat, h: Host, m: MsgParms, src: nat, env: WireEnv, k: nat)
    requires HostOk(past, id, h) && h.cont.Idle? && (id, m.handle) in past.issued && k < |past.answers|
    requires var a := past.answers[k]; a.to == id && m == OnWire(AcceptParms(a.req, a.port))
    ensures var e := AcceptStep(h, m, src, env);
            forall i :: 0 <= i < |e.notes| ==> NoteOk(past, id, e.notes[i])
  {
    var e := AcceptStep(h, m, src, env);
    if e.notes != [] {
      var port := h.table.ports[Tbl.Find(h.table.ports, Tbl.Exact(CpAddr(m), true)).value];
      var r := h.reqs[FindReq(h.reqs, m.handle, port.local, {Query, Ack}).value];
      assert EntryOk(past, id, r, h.nextRid);
      assert IssueTracks(past.issued[(id, m.handle)], h.table);
      assert Supports(past, k, id, e.notes[0]);
    }
  }

  /** An accept leaves the host in good order, about to post an acknowledgement entry or not. */
  lemma AcceptHost(past: Past, id: nat, h: Host, m: MsgParms, src: nat, env: WireEnv)
    requires HostOk(past, id, h) && h.cont.Idle?
    requires SendOk(past, id, SendMsg(src, FormMsg(m.(mt := MT_ACK))))
    ensures HostOk(past, id, AcceptStep(h, m, src, env).host)
  {
    var f := Tbl.Find(h.table.ports, Tbl.Exact(CpAddr(m), true));
    if f.Some? {
      var port := h.table.ports[f.value];
      UpdateChange(past, id, h, m.handle, port.local, {Query, Ack});
      var c := AcceptStep(h, m, src, env).host.cont;
      if c.Posting? {
        var r := h.reqs[FindReq(h.reqs, m.handle, port.local, {Query, Ack}).value];
        assert EntryOk(past, id, r, h.nextRid);
        var h1 := h.(reqs := UpdateReq(h.reqs, m.handle, port.local, {Query, Ack}));
        PostingChange(past, id, h1, c.req, c.sends, c.notes);
      }
    }
  }

  lemma AcceptEffect(past: Past, id: nat, h: Host, m: MsgParms, src: nat, env: WireEnv, k: nat)
    requires HostOk(past, id, h) && h.cont.Idle? && (id, m.handle) in past.issued && k < |past.answers|
    requires var a := past.answers[k]; a.to == id && m == OnWire(AcceptParms(a.req, a.port))
    requires SendOk(past, id, SendMsg(src, FormMsg(m.(mt := MT_ACK))))
    ensures EffectOk(past, id, AcceptStep(h, m, src, env))
  {
    AcceptNotes(past, id, h, m, src, env, k);
    AcceptHost(past, id, h, m, src, env);
  }

  lemma AcceptHandler(w: World, p: Packet, env: WireEnv)
    requires Inv(w) && Enabled(w, Deliver(p, env))
    requires ParseMsg(p.data).Some? && ParseMsg(p.data).value.mt == MT_ACC
    ensures EffectOk(w.past, p.dst, StepEffect(w, Deliver(p, env)))
  {
    var m := ParseMsg(p.data).value;
    var h := w.hosts[p.dst];
    var k := AcceptOrigin(w, p);
    AckSend(w.past, k, m);
    AcceptEffect(w.past, p.dst, h, m, p.src, env, k);
  }

  lemma RejectEffect(past: Past, id: nat, h: Host, m: MsgParms, env: WireEnv)
    requires HostOk(past, id, h) && h.cont.Idle?
    ensures EffectOk(past, id, RejectStep(h, m, env))
  {
    var f := Tbl.Find(h.table.ports, Tbl.Exact(CpAddr(m), true));
    if f.Some? {
      var port := h.table.ports[f.value];
      UpdateChange(past, id, h, m.handle, port.local, {Query});
      var g := FindReq(h.reqs, m.handle, port.local, {Query});
      if g.Some? {
        assert EntryOk(past, id, h.reqs[g.value], h.nextRid);
        assert IssueTracks(past.issued[(id, m.handle)], h.table);
      }
    }
  }

  /** A query that got a port is recorded, and its host still is in good order. */
  lemma QueryRecorded(w: World, id: nat, q: QueryArgs)
    requires Inv(w) && Enabled(w, Ask(id, q)) && QueryTable(w.hosts[id], q).1.Acquired?
    ensures var past', t := StepPast(w, Ask(id, q)), QueryTable(w.hosts[id], q).0;
            Extends(w.past, past') && PastOk(past') && HostOk(past', id, w.hosts[id].(table := t))
  {
    var h := w.hosts[id];
    var posted := q.remote.family != Other && q.memory;
    var (t, o) := QueryTable(h, q);
    var past' := StepPast(w, Ask(id, q));
    Tbl.QueryKeeps(h.table, q.local, q.client, q.noMap, q.env, posted);
    Tbl.ApplyPersists(h.table, Tbl.QueryOp(q.local, q.client, q.noMap, q.env, posted));
    TableChange(w.past, id, h, t);
    assert Tbl.PortOk(o.port);
    IssuePast(w.past, id, q.ptr, past'.issued[(id, q.ptr)]);
    AcquiredTracks(past'.issued[(id, q.ptr)], t);
    HostOkExtends(w.past, past', id, h.(table := t));
  }

  lemma AcquiredTracks(iss: Issue, t: Tbl.Table)
    requires Tbl.TableInv(t) && iss.port in t.ports
    ensures IssueTracks(iss, t)
  {
    assert Tbl.IsLinked(t.ports, iss.port.id);
  }

  /** A request may be sent once it is recorded. */
  lemma RequestSend(past: Past, h: nat, handle: nat)
    requires (h, handle) in past.issued && IssueOk(past, h, handle)
    ensures SendOk(past, h, RequestMsg(past.issued[(h, handle)], handle))
  {
    var iss := past.issued[(h, handle)];
    ParseForm(QueryParms(iss.local, iss.remote, iss.port.mapped, handle));
  }

  /** A recorded query leaves the host about to post a good entry. */
  lemma QueryPosts(past: Past, id: nat, h: Host, q: QueryArgs)
    requires h.cont.Idle? && q.ptr != 0 && QueryTable(h, q).1.Acquired?
    requires HostOk(past, id, h.(table := QueryTable(h, q).0))
    requires (id, q.ptr) in past.issued && SendOk(past, id, RequestMsg(past.issued[(id, q.ptr)], q.ptr))
    requires past.issued[(id, q.ptr)] == Issue(q.local, q.remote, QueryTable(h, q).1.port, q.dest)
    ensures EffectOk(past, id, QueryStep(h, q))
  {
    var c := QueryStep(h, q).host.cont;
    PostingChange(past, id, h.(table := QueryTable(h, q).0), c.req, c.sends, c.notes);
  }

  lemma QueryHandler(w: World, id: nat, q: QueryArgs)
    requires Inv(w) && Enabled(w, Ask(id, q))
    ensures var s := Ask(id, q);
            Extends(w.past, StepPast(w, s)) && PastOk(StepPast(w, s)) && EffectOk(StepPast(w, s), id, StepEffect(w, s))
  {
    var h := w.hosts[id];
    var (t, o) := QueryTable(h, q);
    if o.Acquired? {
      var past' := StepPast(w, Ask(id, q));
      QueryRecorded(w, id, q);
      RequestSend(past', id, q.ptr);
      QueryPosts(past', id, h, q);
    } else {
      var posted := q.remote.family != Other && q.memory;
      Tbl.QueryKeeps(h.table, q.local, q.client, q.noMap, q.env, posted);
      Tbl.ApplyPersists(h.table, Tbl.QueryOp(q.local, q.client, q.noMap, q.env, posted));
      TableChange(w.past, id, h, t);
    }
  }

  // ----- one step keeps the invariant

  lemma StepOk(w: World, s: Step)
    requires Inv(w) && Enabled(w, s)
    ensures Extends(w.past, StepPast(w, s)) && PastOk(StepPast(w, s))
    ensures EffectOk(StepPast(w, s), Actor(s), StepEffect(w, s))
  {
    var h := w.hosts[Actor(s)];
    match s
    case Client(_, op) =>
      Tbl.ApplyKeeps(h.table, op);
      Tbl.ApplyPersists(h.table, op);
      TableChange(w.past, s.h, h, Tbl.Apply(h.table, op).0);
    case Ask(id, q) => QueryHandler(w, id, q);
    case Posted(id) => PostChange(w.past, id, h);
    case Timer(id) => SweepChange(w.past, id, h);
    case Deliver(p, env) =>
      var m := ParseMsg(p.data);
      if m.Some? {
        FormParse(p.data);
        if m.value.mt == MT_REQ { RequestHandler(w, p, env); }
        else if m.value.mt == MT_ACC { AcceptHandler(w, p, env); }
        else if m.value.mt == MT_ACK { UpdateChange(w.past, p.dst, h, m.value.handle, ApAddr(m.value), {Accept}); }
        else { RejectEffect(w.past, p.dst, h, m.value, env); }
      }
  }

  lemma InvStep(w: World, s: Step)
    requires Inv(w) && Enabled(w, s)
    ensures Inv(Next(w, s))
  {
    var w' := Next(w, s);
    var e := StepEffect(w, s);
    StepOk(w, s);
    forall h | h in w'.hosts
      ensures HostOk(w'.past, h, w'.hosts[h])
    {
      if h != Actor(s) {
        assert Tracks(w'.past, h, w.hosts[h].table);
        HostOkExtends(w.past, w'.past, h, w.hosts[h]);
      }
    }
    forall p | p in w'.net
      ensures SendOk(w'.past, p.src, SendMsg(p.dst, p.data))
    {
      if p in w.net { SendOkExtends(w.past, w'.past, p.src, SendMsg(p.dst, p.data)); }
    }
    forall i | 0 <= i < |w'.notes|
      ensures NoteOk(w'.past, w'.notes[i].host, w'.notes[i].note)
    {
      if i < |w.notes| { NoteOkExtends(w.past, w'.past, w.notes[i].host, w.notes[i].note); }
    }
  }

  // ----- at most one report per query

  /** No query object with this identity is still waiting for its answer. */
  ghost predicate Spent(h: Host, rid: nat) {
    && rid < h.nextRid
    && (forall i :: 0 <= i < |h.reqs| && h.reqs[i].rid == rid ==> h.reqs[i].complete || h.reqs[i].kind != Query)
    && (h.cont.Posting? && h.cont.req.rid == rid ==> h.cont.req.kind != Query)
  }

  lemma SpentAfterUpdate(h: Host, rid: nat, handle: nat, addr: SockAddr, kinds: set<ReqKind>)
    requires Spent(h, rid)
    ensures Spent(h.(reqs := UpdateReq(h.reqs, handle, addr, kinds)), rid)
  {
    var h' := h.(reqs := UpdateReq(h.reqs, handle, addr, kinds));
    forall i | 0 <= i < |h'.reqs| && h'.reqs[i].rid == rid
      ensures h'.reqs[i].complete || h'.reqs[i].kind != Query
    {
      assert h.reqs[i].rid == rid;
    }
  }

  lemma SpentAfterSweep(h: Host, rid: nat)
    requires Spent(h, rid)
    ensures Spent(SweepStep(h).host, rid)
  {
    var h' := SweepStep(h).host;
    forall a | 0 <= a < |h'.reqs| && h'.reqs[a].rid == rid
      ensures h'.reqs[a].complete || h'.reqs[a].kind != Query
    {
      var i, _ := SweepPair(h.reqs, a, a);
      assert h.reqs[i].rid == rid;
    }
  }

  lemma SpentAfterPost(h: Host, rid: nat)
    requires Spent(h, rid) && h.cont.Posting?
    ensures Spent(PostStep(h).host, rid)
  {
    var h' := PostStep(h).host;
    assert forall i :: 0 < i < |h'.reqs| ==> h'.reqs[i] == h.reqs[i - 1];
  }

  lemma SpentAfterAccept(h: Host, m: MsgParms, src: nat, env: WireEnv, rid: nat)
    requires h.cont.Idle? && Spent(h, rid)
    ensures Spent(AcceptStep(h, m, src, env).host, rid)
  {
    var f := Tbl.Find(h.table.ports, Tbl.Exact(CpAddr(m), true));
    if f.Some? { SpentAfterUpdate(h, rid, m.handle, h.table.ports[f.value].local, {Query, Ack}); }
  }

  lemma SpentStays(w: World, s: Step, rid: nat)
    requires Enabled(w, s) && Spent(w.hosts[Actor(s)], rid)
    ensures Spent(StepEffect(w, s).host, rid)
  {
    var h := w.hosts[Actor(s)];
    match s
    case Client(_, _) =>
    case Ask(_, _) =>
    case Posted(_) => SpentAfterPost(h, rid);
    case Timer(_) => SpentAfterSweep(h, rid);
    case Deliver(p, env) =>
      if ParseMsg(p.data).Some? {
        var m := ParseMsg(p.data).value;
        if m.mt == MT_ACC {
          SpentAfterAccept(h, m, p.src, env, rid);
        } else if m.mt == MT_ACK {
          SpentAfterUpdate(h, rid, m.handle, ApAddr(m), {Accept});
        } else if m.mt != MT_REQ {
          var f := Tbl.Find(h.table.ports, Tbl.Exact(CpAddr(m), true));
          if f.Some? { SpentAfterUpdate(h, rid, m.handle, h.table.ports[f.value].local, {Query}); }
        }
      }
  }

  /** Completing the one object with this identity spends it. */
  lemma CompletedIsSpent(past: Past, id: nat, h: Host, k: nat, handle: nat, addr: SockAddr, kinds: set<ReqKind>)
    requires HostOk(past, id, h) && h.cont.Idle?
    requires FindReq(h.reqs, handle, addr, kinds) == Some(k) && h.reqs[k].kind == Query
    ensures Spent(h.(reqs := UpdateReq(h.reqs, handle, addr, kinds)), h.reqs[k].rid)
  {
    var h' := h.(reqs := UpdateReq(h.reqs, handle, addr, kinds));
    assert EntryOk(past, id, h.reqs[k], h.nextRid);
    forall i | 0 <= i < |h'.reqs| && h'.reqs[i].rid == h.reqs[k].rid
      ensures i == k
    {
      assert i < k ==> !Clash(h.reqs[i], h.reqs[k]);
      assert k < i ==> !Clash(h.reqs[k], h.reqs[i]);
    }
  }

  /** The report of an effect at `h`, if it is about a query, is the only one, and spends
      a query that was not spent. */
  ghost predicate SpendsIfReports(h: Host, e: Effect) {
    forall i :: 0 <= i < |e.notes| && !e.notes[i].Incoming? ==>
      |e.notes| == 1 && !Spent(h, e.notes[i].rid) && Spent(e.host, e.notes[i].rid)
  }

  lemma AcceptSpends(past: Past, id: nat, h: Host, m: MsgParms, src: nat, env: WireEnv)
    requires HostOk(past, id, h) && h.cont.Idle?
    ensures SpendsIfReports(h, AcceptStep(h, m, src, env))
  {
    if AcceptStep(h, m, src, env).notes != [] {
      var port := h.table.ports[Tbl.Find(h.table.ports, Tbl.Exact(CpAddr(m), true)).value];
      var k := FindReq(h.reqs, m.handle, port.local, {Query, Ack}).value;
      CompletedIsSpent(past, id, h, k, m.handle, port.local, {Query, Ack});
    }
  }

  lemma RejectSpends(past: Past, id: nat, h: Host, m: MsgParms, env: WireEnv)
    requires HostOk(past, id, h) && h.cont.Idle?
    ensures SpendsIfReports(h, RejectStep(h, m, env))
  {
    if RejectStep(h, m, env).notes != [] {
      var port := h.table.ports[Tbl.Find(h.table.ports, Tbl.Exact(CpAddr(m), true)).value];
      var k := FindReq(h.reqs, m.handle, port.local, {Query}).value;
      CompletedIsSpent(past, id, h, k, m.handle, port.local, {Query});
    }
  }

  /** A step reports at most one query, one that was not spent and is spent afterwards. */
  lemma ReportSpends(w: World, s: Step)
    requires Inv(w) && Enabled(w, s)
    ensures SpendsIfReports(w.hosts[Actor(s)], StepEffect(w, s))
  {
    var h := w.hosts[Actor(s)];
    assert HostOk(w.past, Actor(s), h);
    if s.Deliver? {
      var pm := ParseMsg(s.p.data);
      if pm.Some? {
        AcceptSpends(w.past, s.p.dst, h, pm.value, s.p.src, s.env);
        RejectSpends(w.past, s.p.dst, h, pm.value, s.env);
      }
    }
  }

  ghost predicate SpentNote(hosts: map<nat, Host>, n: HostNote) {
    !n.note.Incoming? ==> n.host in hosts && Spent(hosts[n.host], n.note.rid)
  }

  /** Two reports about one query. */
  predicate Repeats(n: HostNote, n': HostNote) {
    !n.note.Incoming? && !n'.note.Incoming? && n.host == n'.host && n.note.rid == n'.note.rid
  }

  /** Every report names a spent query, and no two reports name the same one. */
  ghost predicate Once(hosts: map<nat, Host>, notes: seq<HostNote>) {
    && (forall i :: 0 <= i < |notes| ==> SpentNote(hosts, notes[i]))
    && (forall i, j :: 0 <= i < j < |notes| ==> !Repeats(notes[i], notes[j]))
  }

  /** An effect that unspends nothing, and spends what it reports, keeps this so. */
  lemma OnceAfter(hosts: map<nat, Host>, notes: seq<HostNote>, id: nat, e: Effect)
    requires id in hosts && Once(hosts, notes) && SpendsIfReports(hosts[id], e)
    requires forall rid :: Spent(hosts[id], rid) ==> Spent(e.host, rid)
    ensures Once(hosts[id := e.host], notes + Tag(id, e.notes))
  {
    var notes' := notes + Tag(id, e.notes);
    assert forall i :: |notes| <= i < |notes'| ==> notes'[i] == HostNote(id, e.notes[i - |notes|]);
    forall i, j | 0 <= i < j < |notes'|
      ensures !Repeats(notes'[i], notes'[j])
    {
      assert i < |notes| ==> SpentNote(hosts, notes'[i]);
    }
  }

  lemma OnceStep(w: World, s: Step)
    requires Inv(w) && Once(w.hosts, w.notes) && Enabled(w, s)
    ensures Once(Next(w, s).hosts, Next(w, s).notes)
  {
    var h, e := w.hosts[Actor(s)], StepEffect(w, s);
    ReportSpends(w, s);
    forall rid | Spent(h, rid) ensures Spent(e.host, rid) { SpentStays(w, s, rid); }
    OnceAfter(w.hosts, w.notes, Actor(s), e);
  }

  // ----- whole runs

  lemma {:induction false} RunOk(ws: seq<World>, ss: seq<Step>, n: nat)
    requires IsRun(ws, ss) && n < |ws|
    ensures Inv(ws[n]) && Once(ws[n].hosts, ws[n].notes)
  {
    if n == 0 {
      forall h | h in ws[0].hosts
        ensures HostOk(ws[0].past, h, ws[0].hosts[h])
      {
        Tbl.TableSafety([]);
      }
    } else {
      RunOk(ws, ss, n - 1);
      InvStep(ws[n - 1], ss[n - 1]);
      OnceStep(ws[n - 1], ss[n - 1]);
    }
  }

  lemma RunInv(ws: seq<World>, ss: seq<Step>, n: nat)
    requires IsRun(ws, ss) && n < |ws|
    ensures Inv(ws[n])
  {
    RunOk(ws, ss, n);
  }

  /** At most once: in every run, over every interleaving of deliveries, retransmissions
      and sweeps, each query is reported to its client at most once, as connected or as
      rejected. */
  lemma AtMostOneReport(ws: seq<World>, ss: seq<Step>, n: nat, i: nat, j: nat)
    requires IsRun(ws, ss) && n < |ws| && i < j < |ws[n].notes|
    requires !ws[n].notes[i].note.Incoming? && !ws[n].notes[j].note.Incoming?
    ensures ws[n].notes[i].host != ws[n].notes[j].host || ws[n].notes[i].note.rid != ws[n].notes[j].note.rid
  {
    RunOk(ws, ss, n);
    assert !Repeats(ws[n].notes[i], ws[n].notes[j]);
  }

  /** Duplicate suppression: no reachable request list holds two accept entries for one
      handle and mapped local address. */
  lemma OneAcceptEntry(ws: seq<World>, ss: seq<Step>, n: nat, h: nat, i: nat, j: nat)
    requires IsRun(ws, ss) && n < |ws| && h in ws[n].hosts && i < j < |ws[n].hosts[h].reqs|
    ensures var reqs := ws[n].hosts[h].reqs;
            reqs[i].kind == Accept && reqs[j].kind == Accept && reqs[i].handle == reqs[j].handle ==>
              !SameAddr(reqs[i].src, reqs[j].src)
  {
    RunOk(ws, ss, n);
    assert HostOk(ws[n].past, h, ws[n].hosts[h]);
    assert !Clash(ws[n].hosts[h].reqs[i], ws[n].hosts[h].reqs[j]);
  }

  /** In every reachable state every table is free of conflicts and accounts for all of its
      objects, and every request is in good order. */
  lemma ReachableHosts(ws: seq<World>, ss: seq<Step>, n: nat, h: nat)
    requires IsRun(ws, ss) && n < |ws| && h in ws[n].hosts
    ensures Tbl.TableInv(ws[n].hosts[h].table) && ListOk(ws[n].hosts[h].reqs)
  {
    RunOk(ws, ss, n);
    var host := ws[n].hosts[h];
    assert HostOk(ws[n].past, h, host);
    forall i | 0 <= i < |host.reqs|
      ensures ReqOk(host.reqs[i])
    {
      assert EntryOk(ws[n].past, h, host.reqs[i], host.nextRid);
    }
  }

  /** Step `k` is where host `a.host` received request `a.req` and decided to answer it with
      `a.port`, a port of its table at that moment. */
  ghost predicate AnsweredAt(ws: seq<World>, ss: seq<Step>, k: int, a: Answer) {
    && 0 <= k < |ss| < |ws| && ss[k].Deliver?
    && ss[k].p.dst == a.host && ss[k].p.src == a.to && ParseMsg(ss[k].p.data) == Some(a.req)
    && a.host in ws[k].hosts && a.port in ws[k].hosts[a.host].table.ports
    && a.host in ws[k + 1].hosts && ws[k + 1].hosts[a.host].cont.Posting?
    && ws[k + 1].hosts[a.host].cont.req.sendMsg == Some(AcceptMsg(a))
  }

  lemma {:induction false} AnswersHappened(ws: seq<World>, ss: seq<Step>, n: nat, i: nat) returns (k: nat)
    requires IsRun(ws, ss) && n < |ws| && i < |ws[n].past.answers|
    ensures k < n && AnsweredAt(ws, ss, k, ws[n].past.answers[i])
  {
    var w := ws[n - 1];
    if i < |w.past.answers| {
      k := AnswersHappened(ws, ss, n - 1, i);
      assert ws[n].past.answers[i] == w.past.answers[i];
    } else {
      k := n - 1;
    }
  }

  /** The mapped address a peer is told: the mapped port, with the mapped IP address, or
      with the address it asked for when the mapping is a wildcard. */
  function MappedFor(remote: SockAddr, p: MappedPort): SockAddr {
    var f := remote.family;
    if p.wcard then MakeAddr(f, IpAs(f, remote), PortOf(p.mapped)) else MakeAddr(f, IpAs(f, p.mapped), p.mapped.port)
  }

  /** The connecting side of an agreed handshake. */
  ghost predicate ConnectAgrees(ws: seq<World>, ss: seq<Step>, k: int, a: Answer, iss: Issue, n: Note)
    requires n.Connected?
  {
    && AnsweredAt(ws, ss, k, a) && a.host == iss.dest
    && n.mappedRemote == MappedFor(iss.remote, a.port)
    && var f := iss.remote.family;
       Tbl.Hit(Tbl.Loose(MakeAddr(f, IpAs(f, iss.remote), iss.remote.port), true), a.port)
  }

  /** Handshake agreement, connecting side. Every success report belongs to a query of that
      host, names the remote the client asked for, and gives the mapped address which the
      host owning that remote held in its table when it answered. If the local mapping is
      still the one the query was given, it is also the one reported. */
  lemma HandshakeAgreement(ws: seq<World>, ss: seq<Step>, n: nat, i: nat)
    requires IsRun(ws, ss) && n < |ws| && i < |ws[n].notes| && ws[n].notes[i].note.Connected?
    ensures var (h, note) := (ws[n].notes[i].host, ws[n].notes[i].note);
            && (h, note.handle) in ws[n].past.issued
            && var iss := ws[n].past.issued[(h, note.handle)];
               && note.remote == iss.remote && SameAddr(note.local, iss.port.local)
               && (note.portId == iss.port.id ==> note.local == iss.port.local && note.mappedLocal == iss.port.mapped)
               && exists k: nat, a: Answer ::
                    k < n && a.to == h && a.req.handle == note.handle && ConnectAgrees(ws, ss, k, a, iss, note)
  {
    RunOk(ws, ss, n);
    var past := ws[n].past;
    var h, note := ws[n].notes[i].host, ws[n].notes[i].note;
    assert NoteOk(past, h, note);
    var j :| Supports(past, j, h, note);
    var a := past.answers[j];
    assert AnswerOk(past, a);
    assert IssueOk(past, a.to, a.req.handle);
    var k := AnswersHappened(ws, ss, n, j);
    assert ConnectAgrees(ws, ss, k, a, past.issued[(h, note.handle)], note);
  }

  /** Handshake agreement, accepting side. Every report of an incoming connection answers a
      query that some host issued to this one; it names the local address of that query
      and the mapped address its port had, and a port of the local table that matches the
      address the query asked for. */
  lemma IncomingAgreement(ws: seq<World>, ss: seq<Step>, n: nat, i: nat)
    requires IsRun(ws, ss) && n < |ws| && i < |ws[n].notes| && ws[n].notes[i].note.Incoming?
    ensures var (h, note) := (ws[n].notes[i].host, ws[n].notes[i].note);
            exists k: nat, a: Answer ::
              k < n && AnsweredAt(ws, ss, k, a) && a.host == h && IncomingAgrees(ws[n].past, a, note)
  {
    RunOk(ws, ss, n);
    var past := ws[n].past;
    var h, note := ws[n].notes[i].host, ws[n].notes[i].note;
    assert NoteOk(past, h, note);
    var j :| Explains(past, j, h, note);
    var a := past.answers[j];
    assert AnswerOk(past, a);
    assert IssueOk(past, a.to, a.req.handle);
    var k := AnswersHappened(ws, ss, n, j);
    assert AnsweredAt(ws, ss, k, a) && IncomingAgrees(past, a, note);
  }

  ghost predicate IncomingAgrees(past: Past, a: Answer, n: Note)
    requires n.Incoming?
  {
    && (a.to, n.handle) in past.issued
    && var iss := past.issued[(a.to, n.handle)];
       var f := iss.remote.family;
       && a.host == iss.dest
       && n.remote == MakeAddr(f, IpAs(f, iss.local), iss.local.port)
       && n.mappedRemote == MakeAddr(f, IpAs(f, iss.port.mapped), iss.port.mapped.port)
       && n.local == a.port.local && n.mappedLocal == a.port.mapped
       && Tbl.Hit(Tbl.Loose(MakeAddr(f, IpAs(f, iss.remote), iss.remote.port), true), a.port)
  }

  /** Both ends of one handle agree. The report of the incoming connection rests on an answer
      `k` to a query of the host that reports the success. The accepting side was told the
      connecting side's own local and mapped addresses, provided the query used one address
      family and a concrete local address and its mapping was kept until the answer came.
      And if the success rests on that answer too, the connecting side was told the mapped
      address of the port that the accepting side reports. */
  lemma BothEndsAgree(ws: seq<World>, ss: seq<Step>, n: nat, i: nat, j: nat, k: nat)
    requires IsRun(ws, ss) && n < |ws| && i < |ws[n].notes| && j < |ws[n].notes|
    requires ws[n].notes[i].note.Connected? && ws[n].notes[j].note.Incoming?
    requires Explains(ws[n].past, k, ws[n].notes[j].host, ws[n].notes[j].note)
    requires ws[n].past.answers[k].to == ws[n].notes[i].host && ws[n].notes[i].note.handle == ws[n].notes[j].note.handle
    ensures (ws[n].notes[i].host, ws[n].notes[i].note.handle) in ws[n].past.issued
    ensures var h, c, a := ws[n].notes[i].host, ws[n].notes[i].note, ws[n].notes[j].note;
            var iss := ws[n].past.issued[(h, c.handle)];
            iss.local.family == iss.remote.family && !IsWild(iss.local) && c.portId == iss.port.id ==>
              SameAddr(a.remote, c.local) && SameAddr(a.mappedRemote, c.mappedLocal)
    ensures var h, c, a := ws[n].notes[i].host, ws[n].notes[i].note, ws[n].notes[j].note;
            Supports(ws[n].past, k, h, c) ==>
              exists p: MappedPort :: p.local == a.local && p.mapped == a.mappedLocal && p.id == a.portId
                                      && c.mappedRemote == MappedFor(c.remote, p)
  {
    RunOk(ws, ss, n);
    HandshakeAgreement(ws, ss, n, i);
    var past := ws[n].past;
    var h, c, a := ws[n].notes[i].host, ws[n].notes[i].note, ws[n].notes[j].note;
    var p := past.answers[k].port;
    assert AnswerOk(past, past.answers[k]);
    assert IssueOk(past, h, c.handle);
    assert p.local == a.local && p.mapped == a.mappedLocal && p.id == a.portId;
    assert Supports(past, k, h, c) ==> c.mappedRemote == MappedFor(c.remote, p);
  }
}
