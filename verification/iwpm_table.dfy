/** The table of mapped ports: lookup, reference counting, and the four client
    operations that change it. */
module IwpmTable {
  import opened IwpmTypes

  /** The linked ports in list order, the identity of the next port object, and the
      log of objects handed back to the allocator. */
  datatype Table = Table(ports: seq<MappedPort>, nextId: nat, freed: seq<nat>)

  /** `Loose` is find_iwpm_mapping, `Exact` is find_iwpm_same_mapping; `notMapped` selects
      local addresses rather than mapped ones. */
  datatype Lookup = Loose(addr: SockAddr, notMapped: bool) | Exact(addr: SockAddr, notMapped: bool)

  predicate Hit(l: Lookup, p: MappedPort) {
    var cur := if l.notMapped then p.local else p.mapped;
    match l
    case Loose(a, _) => PortOf(a) == PortOf(cur) && (SameAddr(a, cur) || p.wcard || IsWild(a))
    case Exact(a, _) => SameAddr(a, cur)
  }

  /** Index of the first port that answers the lookup. */
  function Find(ports: seq<MappedPort>, l: Lookup): (r: Option<nat>)
    ensures r.Some? ==> r.value < |ports| && Hit(l, ports[r.value])
    ensures r.Some? ==> forall j :: 0 <= j < r.value ==> !Hit(l, ports[j])
    ensures r.None? ==> forall j :: 0 <= j < |ports| ==> !Hit(l, ports[j])
  {
    if ports == [] then None
    else if Hit(l, ports[0]) then Some(0)
    else
      match Find(ports[1..], l)
      case None => None
      case Some(i) => Some(i + 1)
  }

  // ----- building port objects

  /** What the operating system grants: a bound TCP port, and memory for the object. */
  datatype CreateEnv = CreateEnv(bind: Option<nat>, memory: bool)

  function NewPort(id: nat, client: int, local: SockAddr, mapped: SockAddr): MappedPort {
    MappedPort(id, client, local, mapped, IsWild(local), 1)
  }

  /** create_iwpm_mapped_port: binding an address of an unsupported family fails. */
  function CreatePort(id: nat, local: SockAddr, client: int, noMap: bool, env: CreateEnv): Option<MappedPort> {
    if !noMap && (local.family == Other || env.bind.None?) then None
    else if !env.memory then None
    else Some(NewPort(id, client, local, if noMap then local else local.(port := env.bind.value)))
  }

  /** reopen_iwpm_mapped_port. */
  function ReopenPort(id: nat, local: SockAddr, mapped: SockAddr, client: int, noMap: bool, env: CreateEnv)
    : Option<MappedPort>
  {
    if local.family != mapped.family then None
    else if !noMap && (local.family == Other || env.bind.None?) then None
    else if !env.memory then None
    else Some(NewPort(id, client, local, if noMap then mapped else mapped.(port := env.bind.value)))
  }

  // ----- the port an operation holds: one in the list, or a fresh one not yet linked

  datatype Held = InList(i: nat) | Fresh(p: MappedPort)

  predicate HeldOk(t: Table, h: Held) {
    h.InList? ==> h.i < |t.ports|
  }

  function PortIn(t: Table, h: Held): MappedPort
    requires HeldOk(t, h)
  {
    match h case InList(i) => t.ports[i] case Fresh(p) => p
  }

  function Bump(ports: seq<MappedPort>, i: nat, d: int): seq<MappedPort>
    requires i < |ports|
  {
    ports[i := ports[i].(refCnt := ports[i].refCnt + d)]
  }

  function Unlink(ports: seq<MappedPort>, i: nat): seq<MappedPort>
    requires i < |ports|
  {
    ports[..i] + ports[i + 1..]
  }

  /** add_iwpm_mapped_port: only a port with a single reference is put on the list. */
  function LinkIfFirst(t: Table, h: Held): Table
    requires HeldOk(t, h)
  {
    var p := PortIn(t, h);
    if p.refCnt > 1 then t else t.(ports := [p] + t.ports)
  }

  /** The error label: give the reference back and free the object with its last one.
      The list is not touched here. */
  function GiveBack(t: Table, h: Held): Table
    requires HeldOk(t, h)
  {
    var t1 := if h.InList? then t.(ports := Bump(t.ports, h.i, -1)) else t;
    if PortIn(t, h).refCnt == 1 then t1.(freed := t1.freed + [PortIn(t, h).id]) else t1
  }

  // ----- operations

  datatype Refusal = Duplicate | CreateFailed | NoReply | WildCard | NotPosted
  datatype Outcome =
    | Acquired(port: MappedPort)
    | Released
    | Unchanged
    | Refused(why: Refusal)

  function AddMapping(t: Table, local: SockAddr, client: int, noMap: bool, env: CreateEnv, replyOk: bool)
    : (Table, Outcome)
  {
    match Find(t.ports, Loose(local, true))
    case Some(i) =>
      if SameAddr(local, t.ports[i].local) && t.ports[i].wcard then
        FinishAdd(t.(ports := Bump(t.ports, i, 1)), InList(i), replyOk)
      else (t, Refused(Duplicate))
    case None =>
      match CreatePort(t.nextId, local, client, noMap, env)
      case None => (t, Refused(CreateFailed))
      case Some(p) => FinishAdd(t.(nextId := t.nextId + 1), Fresh(p), replyOk)
  }

  function FinishAdd(t: Table, h: Held, replyOk: bool): (Table, Outcome)
    requires HeldOk(t, h)
  {
    if replyOk then (LinkIfFirst(t, h), Acquired(PortIn(t, h)))
    else (GiveBack(t, h), Refused(NoReply))
  }

  /** The table part of a query; `posted` says that the destination family is supported
      and that memory for the request was found. */
  function QueryMapping(t: Table, local: SockAddr, client: int, noMap: bool, env: CreateEnv, posted: bool)
    : (Table, Outcome)
  {
    match Find(t.ports, Loose(local, true))
    case Some(i) => FinishQuery(t.(ports := Bump(t.ports, i, 1)), InList(i), posted)
    case None =>
      match CreatePort(t.nextId, local, client, noMap, env)
      case None => (t, Refused(CreateFailed))
      case Some(p) => FinishQuery(t.(nextId := t.nextId + 1), Fresh(p), posted)
  }

  function FinishQuery(t: Table, h: Held, posted: bool): (Table, Outcome)
    requires HeldOk(t, h)
  {
    if PortIn(t, h).wcard then (GiveBack(t, h), Refused(WildCard))
    else if !posted then (GiveBack(t, h), Refused(NotPosted))
    else (LinkIfFirst(t, h), Acquired(PortIn(t, h)))
  }

  function RemoveMapping(t: Table, local: SockAddr, client: int): (Table, Outcome) {
    match Find(t.ports, Exact(local, true))
    case None => (t, Unchanged)
    case Some(i) =>
      if t.ports[i].owner != client then (t, Unchanged)
      else if t.ports[i].refCnt == 1 then
        (Table(Unlink(t.ports, i), t.nextId, t.freed + [t.ports[i].id]), Released)
      else (t.(ports := Bump(t.ports, i, -1)), Released)
  }

  function MapInfo(t: Table, local: SockAddr, mapped: SockAddr, client: int, noMap: bool, env: CreateEnv)
    : (Table, Outcome)
  {
    match Find(t.ports, Loose(local, true))
    case Some(i) =>
      if SameAddr(t.ports[i].local, local) && SameAddr(t.ports[i].mapped, mapped) then (t, Unchanged)
      else (t, Refused(Duplicate))
    case None =>
      match ReopenPort(t.nextId, local, mapped, client, noMap, env)
      case None => (t, Refused(CreateFailed))
      case Some(p) => (LinkIfFirst(t.(nextId := t.nextId + 1), Fresh(p)), Acquired(p))
  }

  // ----- the invariant

  /** Same port, and equal addresses or a wildcard on either side. */
  predicate Conflict(p: MappedPort, q: MappedPort) {
    PortOf(p.local) == PortOf(q.local) && (SameAddr(p.local, q.local) || p.wcard || q.wcard)
  }

  predicate IsLinked(ports: seq<MappedPort>, id: nat) {
    exists i :: 0 <= i < |ports| && ports[i].id == id
  }

  ghost predicate NoConflicts(ports: seq<MappedPort>) {
    forall i, j :: 0 <= i < j < |ports| ==> !Conflict(ports[i], ports[j])
  }

  ghost predicate LinkedOnce(ports: seq<MappedPort>) {
    forall i, j :: 0 <= i < j < |ports| ==> ports[i].id != ports[j].id
  }

  ghost predicate PortOk(p: MappedPort) {
    p.refCnt >= 1 && p.wcard == IsWild(p.local) && p.local.family == p.mapped.family
  }

  /** Every object ever created is either linked, once, or freed, once. */
  ghost predicate Accounted(t: Table) {
    && LinkedOnce(t.ports)
    && (forall i, j :: 0 <= i < j < |t.freed| ==> t.freed[i] != t.freed[j])
    && (forall id: nat :: IsLinked(t.ports, id) ==> id !in t.freed)
    && (forall id: nat :: id < t.nextId <==> IsLinked(t.ports, id) || id in t.freed)
  }

  ghost predicate TableInv(t: Table) {
    && NoConflicts(t.ports)
    && (forall i :: 0 <= i < |t.ports| ==> PortOk(t.ports[i]))
    && Accounted(t)
  }

  function RefSum(ports: seq<MappedPort>): int {
    if ports == [] then 0 else ports[0].refCnt + RefSum(ports[1..])
  }

  lemma {:induction false} RefSumBump(ports: seq<MappedPort>, i: nat, d: int)
    requires i < |ports|
    ensures RefSum(Bump(ports, i, d)) == RefSum(ports) + d
  {
    if i > 0 {
      assert Bump(ports, i, d)[1..] == Bump(ports[1..], i - 1, d);
      RefSumBump(ports[1..], i - 1, d);
    } else {
      assert Bump(ports, i, d)[1..] == ports[1..];
    }
  }

  lemma {:induction false} RefSumUnlink(ports: seq<MappedPort>, i: nat)
    requires i < |ports|
    ensures RefSum(Unlink(ports, i)) == RefSum(ports) - ports[i].refCnt
  {
    if i > 0 {
      assert Unlink(ports, i)[1..] == Unlink(ports[1..], i - 1);
      RefSumUnlink(ports[1..], i - 1);
    } else {
      assert Unlink(ports, 0) == ports[1..];
    }
  }

  // ----- what the pieces keep

  /** Changing a reference count, as long as it stays positive, keeps the invariant. */
  lemma BumpKeeps(t: Table, i: nat, d: int)
    requires TableInv(t) && i < |t.ports| && t.ports[i].refCnt + d >= 1
    ensures TableInv(t.(ports := Bump(t.ports, i, d)))
    ensures RefSum(Bump(t.ports, i, d)) == RefSum(t.ports) + d
  {
    var t' := t.(ports := Bump(t.ports, i, d));
    RefSumBump(t.ports, i, d);
    assert forall k :: 0 <= k < |t.ports| ==> t'.ports[k].id == t.ports[k].id && t'.ports[k].local == t.ports[k].local;
    forall id: nat
      ensures IsLinked(t'.ports, id) <==> IsLinked(t.ports, id)
    {
      if IsLinked(t.ports, id) {
        var k :| 0 <= k < |t.ports| && t.ports[k].id == id;
        assert t'.ports[k].id == id;
      }
    }
  }

  /** Linking a fresh port that no lookup of its address finds keeps the invariant. */
  lemma LinkKeeps(t: Table, p: MappedPort)
    requires TableInv(t) && p.id == t.nextId && PortOk(p) && p.refCnt == 1
    requires Find(t.ports, Loose(p.local, true)).None?
    ensures TableInv(Table([p] + t.ports, t.nextId + 1, t.freed))
    ensures RefSum([p] + t.ports) == RefSum(t.ports) + 1
  {
    var t' := Table([p] + t.ports, t.nextId + 1, t.freed);
    assert t'.ports[1..] == t.ports;
    forall k | 0 <= k < |t.ports|
      ensures !Conflict(p, t.ports[k]) && t.ports[k].id != p.id
    {
      assert !Hit(Loose(p.local, true), t.ports[k]);
      assert IsLinked(t.ports, t.ports[k].id);
    }
    forall id: nat
      ensures IsLinked(t'.ports, id) <==> IsLinked(t.ports, id) || id == p.id
    {
      assert t'.ports[0].id == p.id;
      if IsLinked(t.ports, id) {
        var k :| 0 <= k < |t.ports| && t.ports[k].id == id;
        assert t'.ports[k + 1].id == id;
      }
    }
  }

  /** Freeing a fresh port that was never linked keeps the invariant. */
  lemma FreeFreshKeeps(t: Table)
    requires TableInv(t)
    ensures TableInv(Table(t.ports, t.nextId + 1, t.freed + [t.nextId]))
  {
    var t' := Table(t.ports, t.nextId + 1, t.freed + [t.nextId]);
    assert !IsLinked(t.ports, t.nextId) && t.nextId !in t.freed;
    assert forall id: nat :: id in t'.freed <==> id in t.freed || id == t.nextId;
  }

  lemma UnlinkLinked(ports: seq<MappedPort>, i: nat, id: nat)
    requires i < |ports| && LinkedOnce(ports)
    ensures IsLinked(Unlink(ports, i), id) <==> IsLinked(ports, id) && id != ports[i].id
  {
    var ports' := Unlink(ports, i);
    if IsLinked(ports, id) && id != ports[i].id {
      var k :| 0 <= k < |ports| && ports[k].id == id;
      assert ports'[if k < i then k else k - 1].id == id;
    }
  }

  lemma UnlinkAccounted(t: Table, i: nat)
    requires Accounted(t) && i < |t.ports|
    ensures Accounted(Table(Unlink(t.ports, i), t.nextId, t.freed + [t.ports[i].id]))
  {
    var ports := Unlink(t.ports, i);
    var id0 := t.ports[i].id;
    assert IsLinked(t.ports, id0);
    assert LinkedOnce(ports);
    forall id: nat ensures IsLinked(ports, id) <==> IsLinked(t.ports, id) && id != id0 { UnlinkLinked(t.ports, i, id); }
    assert forall id: nat :: id in t.freed + [id0] <==> id in t.freed || id == id0;
  }

  lemma UnlinkKeeps(t: Table, i: nat)
    requires TableInv(t) && i < |t.ports| && t.ports[i].refCnt == 1
    ensures TableInv(Table(Unlink(t.ports, i), t.nextId, t.freed + [t.ports[i].id]))
    ensures RefSum(Unlink(t.ports, i)) == RefSum(t.ports) - 1
  {
    RefSumUnlink(t.ports, i);
    UnlinkAccounted(t, i);
  }

  /** The loose search for the address of a port finds what conflicts with it. */
  lemma HitIsConflict(p: MappedPort, q: MappedPort)
    requires p.wcard == IsWild(p.local)
    ensures Hit(Loose(p.local, true), q) <==> Conflict(p, q)
    ensures Conflict(p, q) <==> Conflict(q, p)
  {
  }

  // ----- the operations, one lemma each

  /** Change of the number of references an outcome stands for. */
  function Delta(o: Outcome): int {
    match o
    case Acquired(_) => 1
    case Released => -1
    case Unchanged => 0
    case Refused(_) => 0
  }

  ghost predicate Keeps(t: Table, r: (Table, Outcome)) {
    && TableInv(r.0)
    && RefSum(r.0.ports) == RefSum(t.ports) + Delta(r.1)
    && (r.1.Refused? || r.1.Unchanged? ==> r.0.ports == t.ports)
    && (r.1.Acquired? ==> r.1.port in r.0.ports)
  }

  lemma FinishWithFresh(t: Table, p: MappedPort, ok: bool)
    requires TableInv(t) && p.id == t.nextId && PortOk(p) && p.refCnt == 1
    requires Find(t.ports, Loose(p.local, true)).None?
    ensures var t1 := t.(nextId := t.nextId + 1);
            Keeps(t, if ok then (LinkIfFirst(t1, Fresh(p)), Acquired(p))
                     else (GiveBack(t1, Fresh(p)), Refused(NoReply)))
  {
    if ok { LinkKeeps(t, p); } else { FreeFreshKeeps(t); }
  }

  /** A reference taken on a linked port and given back leaves the table as it was; the
      object is never freed, because the list holds a reference of its own. */
  lemma FinishWithLinked(t: Table, i: nat)
    requires TableInv(t) && i < |t.ports|
    ensures var t1 := t.(ports := Bump(t.ports, i, 1));
            && LinkIfFirst(t1, InList(i)) == t1
            && GiveBack(t1, InList(i)) == t
            && TableInv(t1) && RefSum(t1.ports) == RefSum(t.ports) + 1
  {
    BumpKeeps(t, i, 1);
    assert Bump(Bump(t.ports, i, 1), i, -1) == t.ports;
  }

  lemma AddKeeps(t: Table, local: SockAddr, client: int, noMap: bool, env: CreateEnv, replyOk: bool)
    requires TableInv(t)
    ensures Keeps(t, AddMapping(t, local, client, noMap, env, replyOk))
  {
    match Find(t.ports, Loose(local, true))
    case Some(i) => FinishWithLinked(t, i);
    case None =>
      var c := CreatePort(t.nextId, local, client, noMap, env);
      if c.Some? { FinishWithFresh(t, c.value, replyOk); }
  }

  lemma QueryKeeps(t: Table, local: SockAddr, client: int, noMap: bool, env: CreateEnv, posted: bool)
    requires TableInv(t)
    ensures Keeps(t, QueryMapping(t, local, client, noMap, env, posted))
    ensures var (t', o) := QueryMapping(t, local, client, noMap, env, posted);
            o.Acquired? ==> !o.port.wcard && (!IsWild(local) && local.family != Other ==> SameAddr(local, o.port.local))
  {
    match Find(t.ports, Loose(local, true))
    case Some(i) => FinishWithLinked(t, i);
    case None =>
      var c := CreatePort(t.nextId, local, client, noMap, env);
      if c.Some? { FinishWithFresh(t, c.value, posted && !c.value.wcard); }
  }

  lemma RemoveKeeps(t: Table, local: SockAddr, client: int)
    requires TableInv(t)
    ensures Keeps(t, RemoveMapping(t, local, client))
  {
    var r := Find(t.ports, Exact(local, true));
    if r.Some? && t.ports[r.value].owner == client {
      if t.ports[r.value].refCnt == 1 { UnlinkKeeps(t, r.value); } else { BumpKeeps(t, r.value, -1); }
    }
  }

  lemma MapInfoKeeps(t: Table, local: SockAddr, mapped: SockAddr, client: int, noMap: bool, env: CreateEnv)
    requires TableInv(t)
    ensures Keeps(t, MapInfo(t, local, mapped, client, noMap, env))
  {
    var c := ReopenPort(t.nextId, local, mapped, client, noMap, env);
    if Find(t.ports, Loose(local, true)).None? && c.Some? { LinkKeeps(t, c.value); }
  }

  // ----- what decides the outcome

  /** A mapping is refused as a duplicate if and only if the table has a port in its way
      that is not the same wildcard; and what is acquired has the address asked for. */
  lemma AddOutcome(t: Table, local: SockAddr, client: int, noMap: bool, env: CreateEnv, replyOk: bool)
    requires TableInv(t)
    ensures var o := AddMapping(t, local, client, noMap, env, replyOk).1;
            && (o == Refused(Duplicate) <==>
                  exists i :: 0 <= i < |t.ports| && Hit(Loose(local, true), t.ports[i])
                              && !(t.ports[i].wcard && SameAddr(local, t.ports[i].local)))
            && (o.Acquired? && local.family != Other ==> SameAddr(local, o.port.local))
  {
    var f := Find(t.ports, Loose(local, true));
    if f.Some? {
      forall i | 0 <= i < |t.ports| && i != f.value && t.ports[f.value].wcard
        ensures !Hit(Loose(local, true), t.ports[i])
      {
        assert i < f.value ==> !Conflict(t.ports[i], t.ports[f.value]);
        assert f.value < i ==> !Conflict(t.ports[f.value], t.ports[i]);
      }
    }
  }

  /** Whether the operating system grants a new port object for this address: it needs
      memory and, unless the port is not to be mapped, a supported family and a TCP port. */
  predicate Granted(local: SockAddr, noMap: bool, env: CreateEnv) {
    env.memory && (noMap || (local.family != Other && env.bind.Some?))
  }

  ghost predicate NoHit(t: Table, local: SockAddr) {
    forall i :: 0 <= i < |t.ports| ==> !Hit(Loose(local, true), t.ports[i])
  }

  /** `t'` is `t` with one more port, in front: an object of `client` for `local`, with one
      reference, mapped to address `mapped`. */
  ghost predicate Gains(t: Table, t': Table, p: MappedPort, client: int, local: SockAddr, mapped: SockAddr) {
    && p.id == t.nextId && p.owner == client && p.local == local && p.mapped == mapped
    && (p.wcard <==> IsWild(local)) && p.refCnt == 1
    && t'.ports == [p] + t.ports && t'.nextId == t.nextId + 1 && t'.freed == t.freed
  }

  /** A new mapping: where no port is in the way, it fails if and only if the system grants
      none or the reply cannot be sent. The client gets the TCP port it was granted under
      its own IP address, or its own address if the port is not to be mapped. */
  lemma AddMaps(t: Table, local: SockAddr, client: int, noMap: bool, env: CreateEnv, replyOk: bool)
    requires NoHit(t, local)
    ensures var (t', o) := AddMapping(t, local, client, noMap, env, replyOk);
            && (o == Refused(CreateFailed) <==> !Granted(local, noMap, env))
            && (o == Refused(NoReply) <==> Granted(local, noMap, env) && !replyOk)
            && (Granted(local, noMap, env) && replyOk ==>
                  && o.Acquired?
                  && (noMap ==> Gains(t, t', o.port, client, local, local))
                  && (!noMap ==> Gains(t, t', o.port, client, local, local.(port := env.bind.value))))
  {
    assert Find(t.ports, Loose(local, true)).None?;
  }

  /** The same for a query, which is refused a wildcard. */
  lemma QueryMaps(t: Table, local: SockAddr, client: int, noMap: bool, env: CreateEnv, posted: bool)
    requires NoHit(t, local)
    ensures var (t', o) := QueryMapping(t, local, client, noMap, env, posted);
            && (o == Refused(CreateFailed) <==> !Granted(local, noMap, env))
            && (o == Refused(WildCard) <==> Granted(local, noMap, env) && IsWild(local))
            && (o == Refused(NotPosted) <==> Granted(local, noMap, env) && !IsWild(local) && !posted)
            && (Granted(local, noMap, env) && !IsWild(local) && posted ==>
                  && o.Acquired?
                  && (noMap ==> Gains(t, t', o.port, client, local, local))
                  && (!noMap ==> Gains(t, t', o.port, client, local, local.(port := env.bind.value))))
  {
    assert Find(t.ports, Loose(local, true)).None?;
  }

  /** Mapping info reopens a port under the mapped IP address the client names, with the TCP
      port that was granted, or with exactly the address it names if it is not to be mapped. */
  lemma MapInfoMaps(t: Table, local: SockAddr, mapped: SockAddr, client: int, noMap: bool, env: CreateEnv)
    requires NoHit(t, local)
    ensures var (t', o) := MapInfo(t, local, mapped, client, noMap, env);
            && (o == Refused(CreateFailed) <==> local.family != mapped.family || !Granted(local, noMap, env))
            && (local.family == mapped.family && Granted(local, noMap, env) ==>
                  && o.Acquired?
                  && (noMap ==> Gains(t, t', o.port, client, local, mapped))
                  && (!noMap ==> Gains(t, t', o.port, client, local, mapped.(port := env.bind.value))))
  {
    assert Find(t.ports, Loose(local, true)).None?;
  }

  /** A port that is shared: the one reference more is all that changes, also in the port the
      client is told of. */
  ghost predicate Shares(t: Table, t': Table, p: MappedPort, i: nat)
    requires i < |t.ports|
  {
    && p == t.ports[i].(refCnt := t.ports[i].refCnt + 1)
    && t'.ports == t.ports[i := p] && t'.nextId == t.nextId && t'.freed == t.freed
  }

  /** A client that asks for the wildcard mapping of port `i` shares it, and one that queries
      from the concrete address of port `i` does. */
  lemma SharedMapping(t: Table, i: nat, local: SockAddr, client: int, noMap: bool, env: CreateEnv)
    requires TableInv(t) && i < |t.ports| && SameAddr(local, t.ports[i].local)
    ensures t.ports[i].wcard ==>
              var (t', o) := AddMapping(t, local, client, noMap, env, true); o.Acquired? && Shares(t, t', o.port, i)
    ensures !t.ports[i].wcard ==>
              var (t', o) := QueryMapping(t, local, client, noMap, env, true); o.Acquired? && Shares(t, t', o.port, i)
  {
    var f := Find(t.ports, Loose(local, true));
    assert Hit(Loose(local, true), t.ports[i]);
    assert IsWild(local) == IsWild(t.ports[i].local) == t.ports[i].wcard;
    assert f.value < i ==> !Conflict(t.ports[f.value], t.ports[i]);
    assert f == Some(i);
  }

  /** For a concrete address, a query whose request can be posted fails if and only if a
      wildcard holds the TCP port, or no port matches and none is granted. */
  lemma QueryOutcome(t: Table, local: SockAddr, client: int, noMap: bool, env: CreateEnv)
    requires TableInv(t) && !IsWild(local)
    ensures QueryMapping(t, local, client, noMap, env, true).1.Acquired? <==>
            && (forall i :: 0 <= i < |t.ports| && Hit(Loose(local, true), t.ports[i]) ==> !t.ports[i].wcard)
            && ((exists i :: 0 <= i < |t.ports| && Hit(Loose(local, true), t.ports[i])) || Granted(local, noMap, env))
  {
    var f := Find(t.ports, Loose(local, true));
    if f.Some? {
      forall i | 0 <= i < |t.ports| && Hit(Loose(local, true), t.ports[i])
        ensures i == f.value
      {
        UniqueCandidate(t, Loose(local, true), i, f.value);
      }
    }
  }

  /** A mapping is released if and only if the client owns a port with this address. The
      port leaves the table and is freed exactly with its last reference, and no other
      port changes. */
  lemma RemoveOutcome(t: Table, local: SockAddr, client: int)
    requires TableInv(t)
    ensures var (t', o) := RemoveMapping(t, local, client);
            && (o == Released <==>
                  exists i :: 0 <= i < |t.ports| && SameAddr(local, t.ports[i].local) && t.ports[i].owner == client)
            && (forall p :: p in t.ports && !SameAddr(local, p.local) ==> p in t'.ports)
            && (o == Released ==> forall i :: 0 <= i < |t.ports| && SameAddr(local, t.ports[i].local) ==>
                  (t.ports[i].id in t'.freed <==> t.ports[i].refCnt == 1))
  {
    var f := Find(t.ports, Exact(local, true));
    var t' := RemoveMapping(t, local, client).0;
    if f.Some? {
      forall i | 0 <= i < |t.ports| && SameAddr(local, t.ports[i].local)
        ensures i == f.value
      {
        UniqueCandidate(t, Exact(local, true), i, f.value);
      }
      assert IsLinked(t.ports, t.ports[f.value].id);
      forall i | 0 <= i < |t.ports| && i != f.value
        ensures t.ports[i] in t'.ports
      {
        Remains(t, local, client, i, f.value);
      }
    }
  }

  lemma Remains(t: Table, local: SockAddr, client: int, i: nat, k: nat)
    requires i < |t.ports| && Find(t.ports, Exact(local, true)) == Some(k) && i != k
    ensures t.ports[i] in RemoveMapping(t, local, client).0.ports
  {
    var ports := RemoveMapping(t, local, client).0.ports;
    assert |ports| == |t.ports| - 1 ==> ports[if i < k then i else i - 1] == t.ports[i];
    assert |ports| == |t.ports| ==> ports[i] == t.ports[i];
  }

  /** For a concrete address, mapping info is ignored if and only if the table has exactly
      this mapping, and refused if and only if it has another one in its way. */
  lemma MapInfoOutcome(t: Table, local: SockAddr, mapped: SockAddr, client: int, noMap: bool, env: CreateEnv)
    requires TableInv(t) && !IsWild(local)
    ensures var o := MapInfo(t, local, mapped, client, noMap, env).1;
            && (o == Unchanged <==>
                  exists i :: 0 <= i < |t.ports| && SameAddr(t.ports[i].local, local)
                              && SameAddr(t.ports[i].mapped, mapped))
            && (o == Refused(Duplicate) <==>
                  exists i :: 0 <= i < |t.ports| && Hit(Loose(local, true), t.ports[i])
                              && !(SameAddr(t.ports[i].local, local) && SameAddr(t.ports[i].mapped, mapped)))
  {
    var f := Find(t.ports, Loose(local, true));
    assert forall i :: 0 <= i < |t.ports| && SameAddr(t.ports[i].local, local) ==> Hit(Loose(local, true), t.ports[i]);
    if f.Some? {
      forall i | 0 <= i < |t.ports| && Hit(Loose(local, true), t.ports[i])
        ensures i == f.value
      {
        UniqueCandidate(t, Loose(local, true), i, f.value);
      }
    }
  }

  // ----- whole histories

  datatype TableOp =
    | AddOp(local: SockAddr, client: int, noMap: bool, env: CreateEnv, ok: bool)
    | QueryOp(local: SockAddr, client: int, noMap: bool, env: CreateEnv, ok: bool)
    | RemoveOp(local: SockAddr, client: int)
    | MapInfoOp(local: SockAddr, mapped: SockAddr, client: int, noMap: bool, env: CreateEnv)

  function Apply(t: Table, op: TableOp): (Table, Outcome) {
    match op
    case AddOp(l, c, n, e, ok) => AddMapping(t, l, c, n, e, ok)
    case QueryOp(l, c, n, e, ok) => QueryMapping(t, l, c, n, e, ok)
    case RemoveOp(l, c) => RemoveMapping(t, l, c)
    case MapInfoOp(l, m, c, n, e) => MapInfo(t, l, m, c, n, e)
  }

  const EMPTY_TABLE := Table([], 0, [])

  /** The table after a history of operations, and what each of them reported. */
  function History(ops: seq<TableOp>): (Table, seq<Outcome>) {
    if ops == [] then (EMPTY_TABLE, [])
    else
      var (t, os) := History(ops[..|ops| - 1]);
      var (t', o) := Apply(t, ops[|ops| - 1]);
      (t', os + [o])
  }

  function CountAcquired(os: seq<Outcome>): nat {
    if os == [] then 0 else CountAcquired(os[..|os| - 1]) + if os[|os| - 1].Acquired? then 1 else 0
  }

  function CountReleased(os: seq<Outcome>): nat {
    if os == [] then 0 else CountReleased(os[..|os| - 1]) + if os[|os| - 1].Released? then 1 else 0
  }

  /** After any history of client operations no two ports conflict, every object is linked
      once or freed once, and the references in the table are exactly the acquisitions
      reported minus the releases. */
  lemma {:induction false} TableSafety(ops: seq<TableOp>)
    ensures var (t, os) := History(ops);
            TableInv(t) && RefSum(t.ports) == CountAcquired(os) - CountReleased(os)
  {
    if ops != [] {
      var op := ops[|ops| - 1];
      TableSafety(ops[..|ops| - 1]);
      var (t, os) := History(ops[..|ops| - 1]);
      ApplyKeeps(t, op);
      var o := Apply(t, op).1;
      assert (os + [o])[..|os|] == os;
    } else {
      assert forall id: nat :: !IsLinked(EMPTY_TABLE.ports, id);
    }
  }

  lemma ApplyKeeps(t: Table, op: TableOp)
    requires TableInv(t)
    ensures Keeps(t, Apply(t, op))
  {
    match op
    case AddOp(l, c, n, e, ok) => AddKeeps(t, l, c, n, e, ok);
    case QueryOp(l, c, n, e, ok) => QueryKeeps(t, l, c, n, e, ok);
    case RemoveOp(l, c) => RemoveKeeps(t, l, c);
    case MapInfoOp(l, m, c, n, e) => MapInfoKeeps(t, l, m, c, n, e);
  }

  /** Equal but for the number of references. */
  predicate SamePort(p: MappedPort, q: MappedPort) {
    p == q.(refCnt := p.refCnt)
  }

  /** Ports never change but for their reference count; new ports have new identities. */
  ghost predicate Persists(t: Table, t': Table) {
    && t.nextId <= t'.nextId
    && (forall j :: 0 <= j < |t'.ports| ==>
          t'.ports[j].id >= t.nextId || exists i :: 0 <= i < |t.ports| && SamePort(t.ports[i], t'.ports[j]))
  }

  lemma BumpPersists(t: Table, i: nat, d: int)
    requires i < |t.ports|
    ensures Persists(t, t.(ports := Bump(t.ports, i, d)))
  {
    var ports := Bump(t.ports, i, d);
    forall j | 0 <= j < |ports|
      ensures exists i :: 0 <= i < |t.ports| && SamePort(t.ports[i], ports[j])
    {
      assert SamePort(t.ports[j], ports[j]);
    }
  }

  lemma LookupPersists(t: Table, i: nat, ok: bool)
    requires TableInv(t) && i < |t.ports|
    ensures var t1 := t.(ports := Bump(t.ports, i, 1));
            Persists(t, FinishAdd(t1, InList(i), ok).0) && Persists(t, FinishQuery(t1, InList(i), ok).0)
    ensures Persists(t, t)
  {
    BumpPersists(t, i, 1);
    BumpPersists(t, i, 0);
    assert Bump(t.ports, i, 0) == t.ports;
    FinishWithLinked(t, i);
  }

  lemma FreshPersists(t: Table, p: MappedPort, ok: bool)
    requires p.id == t.nextId && p.refCnt == 1
    ensures var t1 := t.(nextId := t.nextId + 1);
            Persists(t, FinishAdd(t1, Fresh(p), ok).0) && Persists(t, FinishQuery(t1, Fresh(p), ok).0)
    ensures Persists(t, t)
  {
    assert forall i :: 0 <= i < |t.ports| ==> SamePort(t.ports[i], t.ports[i]);
  }

  lemma RemovePersists(t: Table, local: SockAddr, client: int)
    ensures Persists(t, RemoveMapping(t, local, client).0)
  {
    assert forall i :: 0 <= i < |t.ports| ==> SamePort(t.ports[i], t.ports[i]);
    var f := Find(t.ports, Exact(local, true));
    if f.Some? { BumpPersists(t, f.value, -1); }
  }

  lemma SamePersists(t: Table)
    ensures Persists(t, t)
  {
    assert forall i :: 0 <= i < |t.ports| ==> SamePort(t.ports[i], t.ports[i]);
  }

  lemma AddPersists(t: Table, local: SockAddr, client: int, noMap: bool, env: CreateEnv, ok: bool)
    requires TableInv(t)
    ensures Persists(t, AddMapping(t, local, client, noMap, env, ok).0)
  {
    SamePersists(t);
    match Find(t.ports, Loose(local, true))
    case Some(i) => LookupPersists(t, i, ok);
    case None =>
      var c := CreatePort(t.nextId, local, client, noMap, env);
      if c.Some? { FreshPersists(t, c.value, ok); }
  }

  lemma QueryPersists(t: Table, local: SockAddr, client: int, noMap: bool, env: CreateEnv, ok: bool)
    requires TableInv(t)
    ensures Persists(t, QueryMapping(t, local, client, noMap, env, ok).0)
  {
    SamePersists(t);
    match Find(t.ports, Loose(local, true))
    case Some(i) => LookupPersists(t, i, ok);
    case None =>
      var c := CreatePort(t.nextId, local, client, noMap, env);
      if c.Some? { FreshPersists(t, c.value, ok); }
  }

  lemma MapInfoPersists(t: Table, local: SockAddr, mapped: SockAddr, client: int, noMap: bool, env: CreateEnv)
    ensures Persists(t, MapInfo(t, local, mapped, client, noMap, env).0)
  {
    SamePersists(t);
    var c := ReopenPort(t.nextId, local, mapped, client, noMap, env);
    if c.Some? { FreshPersists(t, c.value, true); }
  }

  /** No operation changes a port other than in its reference count. */
  lemma ApplyPersists(t: Table, op: TableOp)
    requires TableInv(t)
    ensures Persists(t, Apply(t, op).0)
  {
    match op
    case AddOp(l, c, n, e, ok) => AddPersists(t, l, c, n, e, ok);
    case QueryOp(l, c, n, e, ok) => QueryPersists(t, l, c, n, e, ok);
    case RemoveOp(l, c) => RemovePersists(t, l, c);
    case MapInfoOp(l, m, c, n, e) => MapInfoPersists(t, l, m, c, n, e);
  }

  /** A concrete address has at most one candidate, whatever the lookup. */
  lemma UniqueCandidate(t: Table, l: Lookup, i: nat, j: nat)
    requires TableInv(t) && l.notMapped && (l.Exact? || !IsWild(l.addr))
    requires i < |t.ports| && j < |t.ports| && Hit(l, t.ports[i]) && Hit(l, t.ports[j])
    ensures i == j
  {
    assert i < j ==> !Conflict(t.ports[i], t.ports[j]);
    assert j < i ==> !Conflict(t.ports[j], t.ports[i]);
  }

  ghost predicate AtMostOneHit(ports: seq<MappedPort>, l: Lookup) {
    forall i, j :: 0 <= i < j < |ports| ==> !(Hit(l, ports[i]) && Hit(l, ports[j]))
  }

  ghost predicate SameAnswer(ports: seq<MappedPort>, ports': seq<MappedPort>, l: Lookup) {
    var r, s := Find(ports, l), Find(ports', l);
    r.Some? == s.Some? && (r.Some? ==> ports[r.value] == ports'[s.value])
  }

  /** A lookup with at most one candidate gives the same port in any order of the list. */
  lemma OneHitAnySame(ports: seq<MappedPort>, shuffled: seq<MappedPort>, l: Lookup)
    requires AtMostOneHit(ports, l) && multiset(shuffled) == multiset(ports)
    ensures SameAnswer(ports, shuffled, l)
  {
    var r, s := Find(ports, l), Find(shuffled, l);
    if r.Some? { assert ports[r.value] in multiset(ports); }
    if s.Some? { assert shuffled[s.value] in multiset(shuffled); }
    if r.Some? && s.Some? {
      var i :| 0 <= i < |ports| && ports[i] == shuffled[s.value];
      assert i == r.value;
    }
  }

  /** A second candidate moved to the front is found instead of the first. */
  lemma SecondHitShows(t: Table, l: Lookup, i: nat, j: nat) returns (shuffled: seq<MappedPort>)
    requires Accounted(t) && i < j < |t.ports| && Hit(l, t.ports[i]) && Hit(l, t.ports[j])
    ensures multiset(shuffled) == multiset(t.ports) && !SameAnswer(t.ports, shuffled, l)
  {
    shuffled := MovedToFront(t.ports, j);
    assert shuffled[0] == t.ports[j] && Find(shuffled, l) == Some(0);
    var r := Find(t.ports, l);
    assert r.Some? && r.value <= i;
    assert t.ports[r.value].id != t.ports[j].id;
  }

  lemma MovedToFront<T>(s: seq<T>, j: nat) returns (r: seq<T>)
    requires j < |s|
    ensures r != [] && r[0] == s[j] && multiset(r) == multiset(s)
  {
    r := [s[j]] + (s[..j] + s[j + 1..]);
    assert s == s[..j] + [s[j]] + s[j + 1..];
  }

  /** The answer of a lookup, of whatever kind, does not depend on the order of the list if
      and only if there is at most one candidate; and so it is for every exact search for a
      local address and every loose one for a concrete local address. Only searches for
      mapped addresses and loose searches for a wildcard can have several. */
  lemma LookupIgnoresOrder(t: Table, l: Lookup)
    requires TableInv(t)
    ensures (forall ports: seq<MappedPort> :: multiset(ports) == multiset(t.ports) ==> SameAnswer(t.ports, ports, l))
            <==> AtMostOneHit(t.ports, l)
    ensures l.notMapped && (l.Exact? || !IsWild(l.addr)) ==> AtMostOneHit(t.ports, l)
  {
    if AtMostOneHit(t.ports, l) {
      forall ports: seq<MappedPort> | multiset(ports) == multiset(t.ports)
        ensures SameAnswer(t.ports, ports, l)
      {
        OneHitAnySame(t.ports, ports, l);
      }
    } else {
      var i, j :| 0 <= i < j < |t.ports| && Hit(l, t.ports[i]) && Hit(l, t.ports[j]);
      var ports := SecondHitShows(t, l, i, j);
      assert !SameAnswer(t.ports, ports, l);
      assert multiset(ports) == multiset(t.ports);
    }
    if l.notMapped && (l.Exact? || !IsWild(l.addr)) {
      forall i, j | 0 <= i < j < |t.ports| && Hit(l, t.ports[i]) && Hit(l, t.ports[j])
        ensures false
      {
        UniqueCandidate(t, l, i, j);
      }
    }
  }

  /** Such a table is easily reached: two ports with one TCP port and different addresses
      both answer a search for the wildcard. */
  lemma TwoCandidates()
    ensures var env := CreateEnv(None, true);
            var (t, os) := History([AddOp(SockAddr(V4, 80, 1, 0), 0, true, env, true),
                                    AddOp(SockAddr(V4, 80, 2, 0), 0, true, env, true)]);
            !AtMostOneHit(t.ports, Loose(SockAddr(V4, 80, 0, 0), true))
  {
    var env := CreateEnv(None, true);
    var a, b := AddOp(SockAddr(V4, 80, 1, 0), 0, true, env, true), AddOp(SockAddr(V4, 80, 2, 0), 0, true, env, true);
    assert [a, b][..1] == [a] && [a][..0] == [];
    assert History([a]).0 == Apply(EMPTY_TABLE, a).0;
    var t := History([a, b]).0;
    assert t == Apply(Apply(EMPTY_TABLE, a).0, b).0;
    assert |t.ports| == 2 && t.ports[0].local == b.local && t.ports[1].local == a.local;
  }
}
