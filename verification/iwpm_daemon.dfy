/** The daemon as the program runs it: two lists changed in place by the handlers. Every
    method is tied to the step it performs in IwpmHost or IwpmTable. */
module IwpmDaemon {
  import opened IwpmTypes
  import opened IwpmWire
  import opened IwpmRequests
  import opened IwpmHost
  import Tbl = IwpmTable

  class Daemon {
    var ports: seq<MappedPort>
    var nextId: nat
    var freed: seq<nat>
    var reqs: seq<MapRequest>
    var nextRid: nat

    ghost function Table(): Tbl.Table
      reads this
    {
      Tbl.Table(ports, nextId, freed)
    }

    ghost function State(): Host
      reads this
    {
      Host(Table(), reqs, nextRid, Idle)
    }

    constructor ()
      ensures State() == INIT_HOST
    {
      ports, nextId, freed, reqs, nextRid := [], 0, [], [], 0;
    }

    // ----- lookups

    method FindMapping(addr: SockAddr, notMapped: bool) returns (r: Option<nat>)
      ensures r == Tbl.Find(ports, Tbl.Loose(addr, notMapped))
    {
      var i := 0;
      while i < |ports|
        invariant 0 <= i <= |ports|
        invariant forall j :: 0 <= j < i ==> !Tbl.Hit(Tbl.Loose(addr, notMapped), ports[j])
      {
        var cur := if notMapped then ports[i].local else ports[i].mapped;
        if PortOf(addr) == PortOf(cur) {
          if SameAddr(addr, cur) || ports[i].wcard || IsWild(addr) {
            return Some(i);
          }
        }
        i := i + 1;
      }
      return None;
    }

    method FindSameMapping(addr: SockAddr, notMapped: bool) returns (r: Option<nat>)
      ensures r == Tbl.Find(ports, Tbl.Exact(addr, notMapped))
    {
      var i := 0;
      while i < |ports|
        invariant 0 <= i <= |ports|
        invariant forall j :: 0 <= j < i ==> !Tbl.Hit(Tbl.Exact(addr, notMapped), ports[j])
      {
        if SameAddr(addr, if notMapped then ports[i].local else ports[i].mapped) {
          return Some(i);
        }
        i := i + 1;
      }
      return None;
    }

    /** Finds a request, copies it out as it was, and updates it when asked to. */
    method UpdateMapRequest(handle: nat, addr: SockAddr, kinds: set<ReqKind>, update: bool)
      returns (copy: Option<MapRequest>)
      modifies `reqs
      ensures reqs == if update then UpdateReq(old(reqs), handle, addr, kinds) else old(reqs)
      ensures match FindReq(old(reqs), handle, addr, kinds)
              case None => copy == None
              case Some(k) => copy == Some(old(reqs)[k])
    {
      var i := 0;
      while i < |reqs|
        invariant 0 <= i <= |reqs| && reqs == old(reqs)
        invariant forall j :: 0 <= j < i ==> !ReqHit(reqs[j], handle, addr, kinds)
      {
        var r := reqs[i];
        if handle == r.handle && r.kind in kinds && SameAddr(addr, r.src) {
          assert FindReq(reqs, handle, addr, kinds) == Some(i);
          copy := Some(r);
          if !update || r.complete {
            assert update ==> reqs[i := Touch(reqs[i])] == reqs;
            return;
          }
          if r.kind == Ack {
            reqs := reqs[i := r.(timeout := REQ_TIMEOUT, complete := false)];
          } else {
            reqs := reqs[i := r.(timeout := 0, complete := true)];
          }
          return;
        }
        i := i + 1;
      }
      copy := None;
    }

    method AddMapRequest(r: MapRequest)
      modifies `reqs
      ensures reqs == [r] + old(reqs)
    {
      reqs := [r] + reqs;
    }

    // ----- client operations

    method AddMappedPort(h: Tbl.Held)
      requires Tbl.HeldOk(Table(), h)
      modifies `ports
      ensures Table() == Tbl.LinkIfFirst(old(Table()), h)
    {
      var p := if h.InList? then ports[h.i] else h.p;
      if p.refCnt > 1 {
        return;
      }
      ports := [p] + ports;
    }

    method GiveBack(h: Tbl.Held)
      requires Tbl.HeldOk(Table(), h)
      modifies `ports, `freed
      ensures Table() == Tbl.GiveBack(old(Table()), h)
    {
      var p := if h.InList? then ports[h.i] else h.p;
      if h.InList? {
        ports := ports[h.i := p.(refCnt := p.refCnt - 1)];
      }
      if p.refCnt == 1 {
        freed := freed + [p.id];
      }
    }

    method ProcessAddMapping(local: SockAddr, client: int, noMap: bool, env: Tbl.CreateEnv, replyOk: bool)
      returns (o: Tbl.Outcome)
      modifies `ports, `nextId, `freed
      ensures (Table(), o) == Tbl.AddMapping(old(Table()), local, client, noMap, env, replyOk)
    {
      var held;
      var found := FindMapping(local, true);
      if found.Some? {
        var p := ports[found.value];
        if SameAddr(local, p.local) && p.wcard {
          ports := ports[found.value := p.(refCnt := p.refCnt + 1)];
          held := Tbl.InList(found.value);
        } else {
          return Tbl.Refused(Tbl.Duplicate);
        }
      } else {
        var c := Tbl.CreatePort(nextId, local, client, noMap, env);
        if c.None? {
          return Tbl.Refused(Tbl.CreateFailed);
        }
        nextId := nextId + 1;
        held := Tbl.Fresh(c.value);
      }
      if !replyOk {
        GiveBack(held);
        return Tbl.Refused(Tbl.NoReply);
      }
      o := Tbl.Acquired(if held.InList? then ports[held.i] else held.p);
      AddMappedPort(held);
    }

    method ProcessQueryMapping(q: QueryArgs) returns (sends: seq<SendMsg>, o: Tbl.Outcome)
      modifies this
      ensures var e := Complete(QueryStep(old(State()), q));
              State() == e.host && sends == e.sends && e.notes == []
      ensures (Table(), o) == QueryTable(old(State()), q)
    {
      var held;
      var found := FindMapping(q.local, true);
      if found.Some? {
        var p := ports[found.value];
        ports := ports[found.value := p.(refCnt := p.refCnt + 1)];
        held := Tbl.InList(found.value);
      } else {
        var c := Tbl.CreatePort(nextId, q.local, q.client, q.noMap, q.env);
        if c.None? {
          return [], Tbl.Refused(Tbl.CreateFailed);
        }
        nextId := nextId + 1;
        held := Tbl.Fresh(c.value);
      }
      sends, o := FinishQuery(q, held);
    }

    /** The query once a port is at hand. */
    method FinishQuery(q: QueryArgs, held: Tbl.Held) returns (sends: seq<SendMsg>, o: Tbl.Outcome)
      requires Tbl.HeldOk(Table(), held)
      modifies `ports, `freed, `reqs, `nextRid
      ensures (Table(), o) == Tbl.FinishQuery(old(Table()), held, q.remote.family != Other && q.memory)
      ensures !o.Acquired? ==> reqs == old(reqs) && nextRid == old(nextRid) && sends == []
      ensures o.Acquired? ==>
                && nextRid == old(nextRid) + 1 && sends == (if q.queued then [QueryMsg(q, o.port)] else [])
                && var msg := Some(QueryMsg(q, o.port));
                   var req := NewRequest(old(nextRid), q.nl, o.port.local, q.remote, 0, Query, msg, q.ptr);
                   reqs == [req] + old(reqs)
    {
      sends := [];
      var p := if held.InList? then ports[held.i] else held.p;
      if p.wcard {
        GiveBack(held);
        o := Tbl.Refused(Tbl.WildCard);
        return;
      }
      if q.remote.family == Other || !q.memory {
        GiveBack(held);
        o := Tbl.Refused(Tbl.NotPosted);
        return;
      }
      var msg := QueryMsg(q, p);
      AddMapRequest(NewRequest(nextRid, q.nl, p.local, q.remote, 0, Query, Some(msg), q.ptr));
      nextRid := nextRid + 1;
      AddMappedPort(held);
      o := Tbl.Acquired(p);
      if q.queued {
        sends := [msg];
      }
    }

    method ProcessRemoveMapping(local: SockAddr, client: int) returns (o: Tbl.Outcome)
      modifies `ports, `freed
      ensures (Table(), o) == Tbl.RemoveMapping(old(Table()), local, client)
    {
      var found := FindSameMapping(local, true);
      if found.None? || ports[found.value].owner != client {
        return Tbl.Unchanged;
      }
      var i, p := found.value, ports[found.value];
      if p.refCnt == 1 {
        ports := ports[..i] + ports[i + 1..];
        freed := freed + [p.id];
      } else {
        ports := ports[i := p.(refCnt := p.refCnt - 1)];
      }
      return Tbl.Released;
    }

    method ProcessMapInfo(local: SockAddr, mapped: SockAddr, client: int, noMap: bool, env: Tbl.CreateEnv)
      returns (o: Tbl.Outcome)
      modifies `ports, `nextId
      ensures (Table(), o) == Tbl.MapInfo(old(Table()), local, mapped, client, noMap, env)
    {
      var found := FindMapping(local, true);
      if found.Some? {
        if SameAddr(ports[found.value].local, local) && SameAddr(ports[found.value].mapped, mapped) {
          return Tbl.Unchanged;
        }
        return Tbl.Refused(Tbl.Duplicate);
      }
      var c := Tbl.ReopenPort(nextId, local, mapped, client, noMap, env);
      if c.None? {
        return Tbl.Refused(Tbl.CreateFailed);
      }
      nextId := nextId + 1;
      AddMappedPort(Tbl.Fresh(c.value));
      return Tbl.Acquired(c.value);
    }

    // ----- wire messages

    method ProcessWireRequest(m: MsgParms, src: nat, env: WireEnv)
      returns (sends: seq<SendMsg>, notes: seq<Note>)
      modifies `reqs, `nextRid
      ensures Effect(State(), sends, notes) == Complete(RequestStep(old(State()), m, src, env))
    {
      sends, notes := [], [];
      var found := FindMapping(ApAddr(m), true);
      if found.None? {
        if env.queued {
          sends := [SendMsg(src, FormMsg(m.(mt := MT_REJ)))];
        }
        return;
      }
      var p := ports[found.value];
      var acc := AcceptParms(m, p);
      var mappedLocal := ApAddr(acc);
      var copy := UpdateMapRequest(m.handle, mappedLocal, {Accept}, false);
      if copy.Some? || !env.memory {
        return;
      }
      var msg := SendMsg(src, FormMsg(acc));
      var nl := NlHeader(0, 0, 0);
      AddMapRequest(NewRequest(nextRid, nl, mappedLocal, CpAddr(m), m.handle, Accept, Some(msg), env.ptr));
      nextRid := nextRid + 1;
      if env.queued {
        sends := [msg];
        if env.delivered {
          notes := [Incoming(m.handle, p.local, CpAddr(m), p.mapped, MappedCpAddr(m), p.id)];
        }
      }
    }

    method ProcessWireAccept(m: MsgParms, src: nat, env: WireEnv)
      returns (sends: seq<SendMsg>, notes: seq<Note>)
      modifies `reqs, `nextRid
      ensures Effect(State(), sends, notes) == Complete(AcceptStep(old(State()), m, src, env))
    {
      sends, notes := [], [];
      var found := FindSameMapping(CpAddr(m), true);
      if found.None? {
        return;
      }
      var p := ports[found.value];
      var copy := UpdateMapRequest(m.handle, p.local, {Query, Ack}, true);
      if copy.None? || copy.value.complete {
        return;
      }
      sends, notes := FinishAccept(p, copy.value, m, SendMsg(src, FormMsg(m.(mt := MT_ACK))), env);
    }

    /** The accept once the request it answers is found. */
    method FinishAccept(p: MappedPort, r: MapRequest, m: MsgParms, ack: SendMsg, env: WireEnv)
      returns (sends: seq<SendMsg>, notes: seq<Note>)
      modifies `reqs, `nextRid
      ensures Effect(State(), sends, notes) == Complete(IwpmHost.FinishAccept(old(State()), p, r, m, ack, env))
    {
      sends, notes := [], [];
      if r.kind != Ack {
        if !env.delivered {
          return;
        }
        notes := [Connected(r.rid, r.handle, p.local, r.remote, p.mapped, ApAddr(m), p.id, r.nl)];
        if !env.memory {
          return;
        }
        AddMapRequest(NewRequest(nextRid, NlHeader(0, 0, 0), r.src, r.remote, r.handle, Ack, None, env.ptr));
        nextRid := nextRid + 1;
      }
      if env.queued {
        sends := [ack];
      }
    }

    method ProcessWireReject(m: MsgParms, env: WireEnv) returns (notes: seq<Note>)
      modifies `reqs
      ensures Effect(State(), [], notes) == RejectStep(old(State()), m, env)
    {
      notes := [];
      var found := FindSameMapping(CpAddr(m), true);
      if found.None? {
        return;
      }
      var p := ports[found.value];
      var copy := UpdateMapRequest(m.handle, p.local, {Query}, true);
      if copy.None? || copy.value.complete || !env.delivered {
        return;
      }
      var r := copy.value;
      notes := [Rejected(r.rid, r.handle, p.local, r.remote, p.mapped, p.id, r.nl)];
    }

    method ProcessWireAck(m: MsgParms)
      modifies `reqs
      ensures State() == AckStep(old(State()), m).host
    {
      var found := FindMapping(ApAddr(m), false);
      if found.None? {
        return;
      }
      var _ := UpdateMapRequest(m.handle, ApAddr(m), {Accept}, true);
    }

    // ----- the timer

    /** One pass over the list: age each request, send it again while it is unanswered, and
        take it off the list when its time is up. */
    method SweepRequests() returns (sends: seq<SendMsg>)
      requires ListOk(reqs)
      modifies `reqs
      ensures Effect(State(), sends, []) == SweepStep(old(State()))
      ensures ListOk(reqs)
    {
      sends := [];
      ghost var was := reqs;
      ghost var k := 0;
      var i := 0;
      while i < |reqs|
        invariant 0 <= k <= |was| && i == |Sweep(was[..k])|
        invariant reqs == Sweep(was[..k]) + was[k..]
        invariant sends == Messages(Resent(was[..k]))
        decreases |was| - k
      {
        SweepNext(was, k);
        SweepEdit(was, k);
        var r := reqs[i];
        if r.timeout > 0 {
          if r.timeout < REQ_TIMEOUT && r.kind != Ack {
            sends := sends + [r.sendMsg.value];
          }
          reqs := reqs[i := r.(timeout := r.timeout - 1)];
          i := i + 1;
        } else {
          reqs := reqs[..i] + reqs[i + 1..];
        }
        k := k + 1;
      }
      assert was[..k] == was;
      SweepListOk(was);
    }
  }

  /** What one more request adds to the outcome of a sweep. */
  lemma SweepNext(was: seq<MapRequest>, k: nat)
    requires k < |was|
    ensures Sweep(was[..k + 1]) == Sweep(was[..k]) + if was[k].timeout > 0 then [Aged(was[k])] else []
    ensures Messages(Resent(was[..k + 1])) ==
            Messages(Resent(was[..k])) + if Resends(was[k]) && was[k].sendMsg.Some? then [was[k].sendMsg.value] else []
  {
    assert was[..k + 1] == was[..k] + [was[k]];
    SweepAppend(was[..k], [was[k]]);
    MessagesAppend(Resent(was[..k]), Resent([was[k]]));
    assert [was[k]][1..] == [];
  }

  /** Ageing or dropping the next request in place. */
  lemma SweepEdit(was: seq<MapRequest>, k: nat)
    requires k < |was|
    ensures var i, reqs := |Sweep(was[..k])|, Sweep(was[..k]) + was[k..];
            && reqs[i] == was[k]
            && Sweep(was[..k + 1]) + was[k + 1..] ==
               if was[k].timeout > 0 then reqs[i := Aged(was[k])] else reqs[..i] + reqs[i + 1..]
  {
    SweepNext(was, k);
    var i, reqs := |Sweep(was[..k])|, Sweep(was[..k]) + was[k..];
    assert reqs[i + 1..] == was[k + 1..];
    assert reqs[..i] == Sweep(was[..k]);
  }

  lemma SweepListOk(reqs: seq<MapRequest>)
    requires ListOk(reqs)
    ensures ListOk(Sweep(reqs))
  {
    forall a | 0 <= a < |Sweep(reqs)|
      ensures ReqOk(Sweep(reqs)[a])
    {
      var i, _ := SweepPair(reqs, a, a);
      assert ReqOk(reqs[i]);
    }
  }

  lemma {:induction false} MessagesAppend(a: seq<MapRequest>, b: seq<MapRequest>)
    ensures Messages(a + b) == Messages(a) + Messages(b)
  {
    if a == [] {
      assert a + b == b;
    } else {
      assert (a + b)[1..] == a[1..] + b;
      MessagesAppend(a[1..], b);
      var x := if a[0].sendMsg.Some? then [a[0].sendMsg.value] else [];
      assert x + (Messages(a[1..]) + Messages(b)) == x + Messages(a[1..]) + Messages(b);
    }
  }
}
