/** What one host does in a run is a history of its table and of its request list, so what
    holds of all histories holds in runs. */
module IwpmHistory {
  import opened IwpmTypes
  import opened IwpmWire
  import opened IwpmRequests
  import opened IwpmHost
  import opened IwpmProtocol
  import opened IwpmMessages
  import Tbl = IwpmTable

  // ----- the table

  /** The table operations of a step, for host `h`. */
  function TableOps(s: Step, h: nat): seq<Tbl.TableOp> {
    if Actor(s) != h then []
    else
      match s
      case Client(_, op) => [op]
      case Ask(_, q) => [Tbl.QueryOp(q.local, q.client, q.noMap, q.env, q.remote.family != Other && q.memory)]
      case _ => []
  }

  function AllTableOps(ss: seq<Step>, h: nat): seq<Tbl.TableOp> {
    if ss == [] then [] else AllTableOps(ss[..|ss| - 1], h) + TableOps(ss[|ss| - 1], h)
  }

  /** The table after one operation or none. */
  function AdvanceTable(t: Tbl.Table, ops: seq<Tbl.TableOp>): Tbl.Table {
    if ops == [] then t else Tbl.Apply(t, ops[0]).0
  }

  function TableOf(ss: seq<Step>, h: nat): Tbl.Table {
    Tbl.History(AllTableOps(ss, h)).0
  }

  lemma TableStep(w: World, s: Step, h: nat)
    requires Enabled(w, s) && h in Next(w, s).hosts
    ensures h in w.hosts && Next(w, s).hosts[h].table == AdvanceTable(w.hosts[h].table, TableOps(s, h))
  {
  }

  lemma MoreTableOps(ss: seq<Step>, s: Step, h: nat)
    ensures TableOf(ss + [s], h) == AdvanceTable(TableOf(ss, h), TableOps(s, h))
  {
    assert (ss + [s])[..|ss|] == ss;
    var before, ops := AllTableOps(ss, h), TableOps(s, h);
    if ops == [] {
      assert before + ops == before;
    } else {
      assert (before + ops)[..|before|] == before;
    }
  }

  lemma {:induction false} TableIsHistory(ws: seq<World>, ss: seq<Step>, n: nat, h: nat)
    requires IsRun(ws, ss) && n < |ws| && h in ws[n].hosts
    ensures ws[n].hosts[h].table == TableOf(ss[..n], h)
  {
    if n > 0 {
      TableStep(ws[n - 1], ss[n - 1], h);
      TableIsHistory(ws, ss, n - 1, h);
      MoreTableOps(ss[..n - 1], ss[n - 1], h);
      assert ss[..n - 1] + [ss[n - 1]] == ss[..n];
    }
  }

  /** In every run, the references in a host's table are the acquisitions its clients were
      told of minus the releases, and no two of its ports conflict. */
  lemma ReferencesInRun(ws: seq<World>, ss: seq<Step>, n: nat, h: nat)
    requires IsRun(ws, ss) && n < |ws| && h in ws[n].hosts
    ensures var t, os := ws[n].hosts[h].table, Tbl.History(AllTableOps(ss[..n], h)).1;
            Tbl.TableInv(t) && Tbl.RefSum(t.ports) == Tbl.CountAcquired(os) - Tbl.CountReleased(os)
  {
    TableIsHistory(ws, ss, n, h);
    Tbl.TableSafety(AllTableOps(ss[..n], h));
  }

  // ----- the request list

  /** The update a message makes to the request list. */
  function WireOps(h: Host, m: MsgParms): seq<ListOp> {
    if m.mt == MT_REQ then []
    else if m.mt == MT_ACK then
      if Tbl.Find(h.table.ports, Tbl.Loose(ApAddr(m), false)).None? then []
      else [Update(m.handle, ApAddr(m), {Accept})]
    else
      match Tbl.Find(h.table.ports, Tbl.Exact(CpAddr(m), true))
      case None => []
      case Some(i) => [Update(m.handle, h.table.ports[i].local, if m.mt == MT_ACC then {Query, Ack} else {Query})]
  }

  const NO_MSG := SendMsg(0, WireMsg(0, 0, 0, 0, 0, 0, 0, 0, 0))

  function PostOp(r: MapRequest): ListOp {
    Post(r.nl, r.src, r.remote, r.handle, r.kind, if r.sendMsg.Some? then r.sendMsg.value else NO_MSG, 0)
  }

  /** The list operations of a step at its host. */
  function ListOps(h: Host, s: Step): seq<ListOp> {
    match s
    case Posted(_) => if h.cont.Posting? then [PostOp(h.cont.req)] else []
    case Timer(_) => [Tick]
    case Deliver(p, _) => if ParseMsg(p.data).Some? then WireOps(h, ParseMsg(p.data).value) else []
    case _ => []
  }

  function AllListOps(ws: seq<World>, ss: seq<Step>, n: nat, h: nat): seq<ListOp>
    requires n <= |ss| && n <= |ws|
  {
    if n == 0 then []
    else AllListOps(ws, ss, n - 1, h) +
         if Actor(ss[n - 1]) == h && h in ws[n - 1].hosts then ListOps(ws[n - 1].hosts[h], ss[n - 1]) else []
  }

  /** The ledger is about this host: the same list, and one identity per post. */
  ghost predicate Keeps(l: Ledger, h: Host) {
    && l.reqs == h.reqs
    && (h.cont.Idle? ==> h.nextRid == |l.births|)
    && (h.cont.Posting? ==>
          h.nextRid == |l.births| + 1 && h.cont.req.rid == |l.births| && h.cont.req.timeout == REQ_TIMEOUT
          && !h.cont.req.complete)
  }

  lemma PostInLedger(past: Past, id: nat, h: Host, l: Ledger)
    requires HostOk(past, id, h) && h.cont.Posting? && Keeps(l, h)
    ensures Keeps(StepLedger(l, PostOp(h.cont.req)), PostStep(h).host)
  {
    var r := h.cont.req;
    assert EntryOk(past, id, r, h.nextRid);
    assert r == NewRequest(|l.births|, r.nl, r.src, r.remote, r.handle, r.kind, r.sendMsg, 0);
  }

  lemma WireInLedger(h: Host, data: WireMsg, src: nat, env: WireEnv, l: Ledger)
    requires h.cont.Idle? && Keeps(l, h) && ParseMsg(data).Some?
    ensures var ops := WireOps(h, ParseMsg(data).value);
            Keeps(if ops == [] then l else StepLedger(l, ops[0]), WireStep(h, data, src, env).host)
  {
  }

  lemma StepInLedger(w: World, s: Step, l: Ledger)
    requires Inv(w) && Enabled(w, s) && Keeps(l, w.hosts[Actor(s)])
    ensures var ops := ListOps(w.hosts[Actor(s)], s);
            |ops| <= 1 && Keeps(if ops == [] then l else StepLedger(l, ops[0]), StepEffect(w, s).host)
  {
    var h := w.hosts[Actor(s)];
    assert HostOk(w.past, Actor(s), h);
    match s
    case Client(_, _) =>
    case Ask(_, _) =>
    case Posted(id) => PostInLedger(w.past, id, h, l);
    case Timer(_) =>
    case Deliver(p, env) => if ParseMsg(p.data).Some? { WireInLedger(h, p.data, p.src, env, l); }
  }

  /** The ledger of host `h` after the first `n` steps. */
  function LedgerOf(ws: seq<World>, ss: seq<Step>, n: nat, h: nat): Ledger
    requires n <= |ss| && n <= |ws|
  {
    RunLedger(AllListOps(ws, ss, n, h))
  }

  lemma LedgerNext(ws: seq<World>, ss: seq<Step>, n: nat, h: nat)
    requires IsRun(ws, ss) && n < |ss| && h in ws[n].hosts
    requires Actor(ss[n]) == h ==> |ListOps(ws[n].hosts[h], ss[n])| <= 1
    ensures var ops := if Actor(ss[n]) == h then ListOps(ws[n].hosts[h], ss[n]) else [];
            LedgerOf(ws, ss, n + 1, h) ==
            if ops == [] then LedgerOf(ws, ss, n, h) else StepLedger(LedgerOf(ws, ss, n, h), ops[0])
  {
    var before, ops := AllListOps(ws, ss, n, h), if Actor(ss[n]) == h then ListOps(ws[n].hosts[h], ss[n]) else [];
    if ops == [] {
      assert before + ops == before;
    } else {
      assert (before + ops)[..|before|] == before;
    }
  }

  lemma ListStepTo(w: World, s: Step, w': World, h: nat, l: Ledger)
    requires Inv(w) && Enabled(w, s) && w' == Next(w, s) && h in w.hosts && Keeps(l, w.hosts[h])
    ensures h in w'.hosts && Keeps(if Actor(s) == h then Advance(l, ListOps(w.hosts[h], s)) else l, w'.hosts[h])
  {
    if h == Actor(s) { StepInLedger(w, s, l); }
  }

  lemma {:induction false} ListIsHistory(ws: seq<World>, ss: seq<Step>, n: nat, h: nat)
    requires IsRun(ws, ss) && n < |ws| && h in ws[n].hosts
    ensures Keeps(LedgerOf(ws, ss, n, h), ws[n].hosts[h])
  {
    if n > 0 {
      HostStays(ws, ss, n, h);
      HostStays(ws, ss, n - 1, h);
      ListIsHistory(ws, ss, n - 1, h);
      RunOk(ws, ss, n - 1);
      ListStepTo(ws[n - 1], ss[n - 1], ws[n], h, LedgerOf(ws, ss, n - 1, h));
      LedgerAdvances(ws, ss, n - 1, h);
    }
  }

  /** The ledger after one operation or none. */
  function Advance(l: Ledger, ops: seq<ListOp>): Ledger {
    if ops == [] then l else StepLedger(l, ops[0])
  }

  lemma LedgerAdvances(ws: seq<World>, ss: seq<Step>, n: nat, h: nat)
    requires IsRun(ws, ss) && n < |ss| && h in ws[n].hosts
    ensures Actor(ss[n]) == h ==> |ListOps(ws[n].hosts[h], ss[n])| <= 1
    ensures LedgerOf(ws, ss, n + 1, h) ==
            if Actor(ss[n]) == h then Advance(LedgerOf(ws, ss, n, h), ListOps(ws[n].hosts[h], ss[n]))
            else LedgerOf(ws, ss, n, h)
  {
    LedgerNext(ws, ss, n, h);
  }

  /** What a run is for the request list of host `h`: a sequence of ledgers. */
  ghost predicate Projected(ws: seq<World>, ss: seq<Step>, h: nat, ls: seq<Ledger>) {
    && |ws| == |ls| == |ss| + 1 && ls[0].ticks == 0 && ls[0].resent == multiset{}
    && (forall k :: 0 <= k <= |ss| ==> HostKept(ws[k], h, ls[k]))
    && (forall k :: 0 <= k < |ss| ==> StepKept(ws[k], ss[k], h, ls[k], ls[k + 1]))
  }

  ghost predicate HostKept(w: World, h: nat, l: Ledger) {
    h in w.hosts && Keeps(l, w.hosts[h]) && LedgerOk(l)
  }

  ghost predicate StepKept(w: World, s: Step, h: nat, l: Ledger, l': Ledger) {
    h in w.hosts && l' == if Actor(s) == h then Advance(l, ListOps(w.hosts[h], s)) else l
  }

  lemma {:induction false} HostStays(ws: seq<World>, ss: seq<Step>, n: nat, h: nat)
    requires IsRun(ws, ss) && n < |ws|
    ensures h in ws[n].hosts <==> h in ws[0].hosts
  {
    if n > 0 { HostStays(ws, ss, n - 1, h); }
  }

  /** The request list of a host in a run is a history of posts, updates and sweeps. */
  lemma RunIsProjected(ws: seq<World>, ss: seq<Step>, n: nat, h: nat) returns (ls: seq<Ledger>)
    requires IsRun(ws, ss) && n < |ws| && h in ws[n].hosts
    ensures Projected(ws, ss, h, ls)
  {
    HostStays(ws, ss, n, h);
    ls := seq(|ws|, k requires 0 <= k < |ws| => LedgerOf(ws, ss, k, h));
    assert ls[0] == RunLedger([]);
    LedgersProject(ws, ss, h, ls);
  }

  lemma LedgersProject(ws: seq<World>, ss: seq<Step>, h: nat, ls: seq<Ledger>)
    requires IsRun(ws, ss) && h in ws[0].hosts && |ls| == |ws|
    requires forall k :: 0 <= k < |ls| ==> ls[k] == LedgerOf(ws, ss, k, h)
    ensures forall k :: 0 <= k <= |ss| ==> HostKept(ws[k], h, ls[k])
    ensures forall k :: 0 <= k < |ss| ==> StepKept(ws[k], ss[k], h, ls[k], ls[k + 1])
  {
    forall k | 0 <= k <= |ss| ensures HostKept(ws[k], h, ls[k]) { ProjectHost(ws, ss, k, h); }
    forall k | 0 <= k < |ss| ensures StepKept(ws[k], ss[k], h, ls[k], ls[k + 1]) { ProjectStep(ws, ss, k, h); }
  }

  lemma ProjectHost(ws: seq<World>, ss: seq<Step>, k: nat, h: nat)
    requires IsRun(ws, ss) && k < |ws| && h in ws[0].hosts
    ensures HostKept(ws[k], h, LedgerOf(ws, ss, k, h))
  {
    HostStays(ws, ss, k, h);
    ListIsHistory(ws, ss, k, h);
    RequestLife(AllListOps(ws, ss, k, h));
  }

  lemma ProjectStep(ws: seq<World>, ss: seq<Step>, k: nat, h: nat)
    requires IsRun(ws, ss) && k < |ss| && h in ws[0].hosts
    ensures StepKept(ws[k], ss[k], h, LedgerOf(ws, ss, k, h), LedgerOf(ws, ss, k + 1, h))
  {
    HostStays(ws, ss, k, h);
    LedgerAdvances(ws, ss, k, h);
  }

  // ----- retransmission in runs

  /** Sweeps of host `h` from step `i` on, up to step `n`. */
  function Sweeps(ss: seq<Step>, i: nat, n: nat, h: nat): nat
    requires i <= n <= |ss|
    decreases n
  {
    if i == n then 0 else Sweeps(ss, i, n - 1, h) + if ss[n - 1] == Timer(h) then 1 else 0
  }

  /** The message kept for request `rid`. */
  function MessageOf(reqs: seq<MapRequest>, rid: nat): Option<SendMsg> {
    if reqs == [] then None else if reqs[0].rid == rid then reqs[0].sendMsg else MessageOf(reqs[1..], rid)
  }

  /** How often step `s` sends the message that host `h` keeps for request `rid`, if it is a
      sweep of that host. */
  function Copies(w: World, s: Step, h: nat, rid: nat): nat
    requires Enabled(w, s)
  {
    if s != Timer(h) then 0
    else
      match MessageOf(w.hosts[h].reqs, rid)
      case None => 0
      case Some(m) => multiset(StepEffect(w, s).sends)[m]
  }

  /** How often the sweeps of host `h` have sent the message of request `rid`. */
  ghost function SentAgain(ws: seq<World>, ss: seq<Step>, n: nat, h: nat, rid: nat): nat
    requires IsRun(ws, ss) && n <= |ss|
  {
    if n == 0 then 0 else SentAgain(ws, ss, n - 1, h, rid) + Copies(ws[n - 1], ss[n - 1], h, rid)
  }

  lemma {:induction false} MessageListed(reqs: seq<MapRequest>, i: nat)
    requires DistinctRids(reqs) && i < |reqs|
    ensures MessageOf(reqs, reqs[i].rid) == reqs[i].sendMsg
  {
    if i > 0 {
      var rest := reqs[1..];
      assert reqs[0].rid != reqs[i].rid && rest[i - 1] == reqs[i];
      MessageListed(rest, i - 1);
    }
  }

  lemma {:induction false} MessageUnlisted(reqs: seq<MapRequest>, rid: nat)
    requires !Listed(reqs, rid)
    ensures MessageOf(reqs, rid) == None
  {
    if reqs != [] {
      var rest := reqs[1..];
      assert forall i :: 0 <= i < |rest| ==> rest[i] == reqs[i + 1];
      assert reqs[0].rid != rid;
      MessageUnlisted(rest, rid);
    }
  }

  /** The message of a request is sent as often as the request is chosen. */
  lemma ChosenIsSent(reqs: seq<MapRequest>, rid: nat)
    requires DistinctRids(reqs) && DistinctMessages(reqs) && ListOk(reqs)
    ensures multiset(Rids(Resent(reqs)))[rid] ==
            match MessageOf(reqs, rid) case None => 0 case Some(m) => multiset(Messages(Resent(reqs)))[m]
  {
    ResentOnce(reqs, rid);
    if i :| 0 <= i < |reqs| && reqs[i].rid == rid {
      MessageListed(reqs, i);
      assert ReqOk(reqs[i]);
      assert forall j :: 0 <= j < |reqs| && reqs[j].rid == rid ==> j == i;
      if reqs[i].sendMsg.Some? { SentOnce(reqs, i, reqs[i].sendMsg.value); }
    } else {
      MessageUnlisted(reqs, rid);
    }
  }

  lemma CopiesInRun(ws: seq<World>, ss: seq<Step>, n: nat, h: nat, rid: nat)
    requires IsRun(ws, ss) && n < |ss| && ss[n] == Timer(h)
    ensures h in ws[n].hosts && Copies(ws[n], ss[n], h, rid) == multiset(Rids(Resent(ws[n].hosts[h].reqs)))[rid]
  {
    var w := ws[n];
    assert Enabled(w, ss[n]);
    MessagesInRun(ws, ss, n, h);
    ReachableHosts(ws, ss, n, h);
    RidsInRun(ws, ss, n, h);
    ChosenIsSent(w.hosts[h].reqs, rid);
  }

  lemma RidsInRun(ws: seq<World>, ss: seq<Step>, n: nat, h: nat)
    requires IsRun(ws, ss) && n < |ws| && h in ws[n].hosts
    ensures DistinctRids(ws[n].hosts[h].reqs)
  {
    RunOk(ws, ss, n);
    assert HostOk(ws[n].past, h, ws[n].hosts[h]);
    var reqs := ws[n].hosts[h].reqs;
    forall i, j | 0 <= i < j < |reqs| ensures reqs[i].rid != reqs[j].rid { assert !Clash(reqs[i], reqs[j]); }
  }

  /** A message delivered by step `s` finds request `rid` of the host. */
  ghost predicate Finds(h: Host, s: Step, rid: nat) {
    exists op :: op in ListOps(h, s) && op.Update?
      && var f := FindReq(h.reqs, op.handle, op.addr, op.kinds); f.Some? && h.reqs[f.value].rid == rid
  }

  lemma OpCounts(l: Ledger, h: Host, s: Step, rid: nat)
    requires l.reqs == h.reqs
    ensures var l' := Advance(l, ListOps(h, s));
            && l'.ticks == l.ticks + (if s.Timer? then 1 else 0)
            && l'.resent[rid] == l.resent[rid] + if s.Timer? then multiset(Rids(Resent(h.reqs)))[rid] else 0
  {
  }

  lemma {:induction false} LedgerCounts(ws: seq<World>, ss: seq<Step>, h: nat, ls: seq<Ledger>, n: nat, rid: nat)
    requires IsRun(ws, ss) && Projected(ws, ss, h, ls) && n < |ws|
    ensures ls[n].ticks == Sweeps(ss, 0, n, h) && ls[n].resent[rid] == SentAgain(ws, ss, n, h, rid)
  {
    if n > 0 {
      LedgerCounts(ws, ss, h, ls, n - 1, rid);
      CountStep(ws, ss, h, ls[n - 1], ls[n], n - 1, rid) by {
        assert HostKept(ws[n - 1], h, ls[n - 1]) && StepKept(ws[n - 1], ss[n - 1], h, ls[n - 1], ls[n]);
      }
    }
  }

  lemma CountStep(ws: seq<World>, ss: seq<Step>, h: nat, l: Ledger, l': Ledger, n: nat, rid: nat)
    requires IsRun(ws, ss) && n < |ss| && HostKept(ws[n], h, l) && StepKept(ws[n], ss[n], h, l, l')
    ensures l'.ticks == l.ticks + if ss[n] == Timer(h) then 1 else 0
    ensures l'.resent[rid] == l.resent[rid] + Copies(ws[n], ss[n], h, rid)
  {
    if h == Actor(ss[n]) { OpCounts(l, ws[n].hosts[h], ss[n], rid); }
    if ss[n] == Timer(h) { CopiesInRun(ws, ss, n, h, rid); }
  }

  /** No request of any host is sent again more than nine times in any run. */
  lemma AtMostNineTimes(ws: seq<World>, ss: seq<Step>, n: nat, h: nat, rid: nat)
    requires IsRun(ws, ss) && n < |ws| && h in ws[n].hosts
    ensures SentAgain(ws, ss, n, h, rid) <= 9
  {
    var ls := RunIsProjected(ws, ss, n, h);
    LedgerCounts(ws, ss, h, ls, n, rid);
    assert HostKept(ws[n], h, ls[n]);
    if rid in ls[n].resent { assert RecordOk(ls[n], rid); }
  }

  /** Two ledgers say the same of when a request was posted and found. */
  predicate SameRecord(l: Ledger, l': Ledger, rid: nat) {
    && rid < |l.births| && rid < |l'.births| && l'.births[rid] == l.births[rid]
    && (rid in l'.touched <==> rid in l.touched)
    && (rid in l'.renewed <==> rid in l.renewed) && (rid in l.renewed ==> l'.renewed[rid] == l.renewed[rid])
  }

  lemma OpRecord(l: Ledger, h: Host, s: Step, rid: nat)
    requires l.reqs == h.reqs && rid < |l.births| && !Finds(h, s, rid)
    ensures SameRecord(l, Advance(l, ListOps(h, s)), rid)
  {
    var ops := ListOps(h, s);
    if ops != [] && ops[0].Update? { assert ops[0] in ops; }
  }

  /** Step `n` does not find request `rid` of host `h`. */
  ghost predicate PassesBy(ws: seq<World>, ss: seq<Step>, n: nat, h: nat, rid: nat)
    requires n < |ss| && n < |ws|
  {
    Actor(ss[n]) == h && h in ws[n].hosts ==> !Finds(ws[n].hosts[h], ss[n], rid)
  }

  /** A step that does not find a request leaves its record alone. */
  lemma RecordStep(ws: seq<World>, ss: seq<Step>, h: nat, ls: seq<Ledger>, n: nat, rid: nat)
    requires Projected(ws, ss, h, ls) && n < |ss| && rid < |ls[n].births| && PassesBy(ws, ss, n, h, rid)
    ensures SameRecord(ls[n], ls[n + 1], rid)
  {
    assert HostKept(ws[n], h, ls[n]) && StepKept(ws[n], ss[n], h, ls[n], ls[n + 1]);
    if h == Actor(ss[n]) { OpRecord(ls[n], ws[n].hosts[h], ss[n], rid); }
  }

  lemma {:induction false} RecordStays(ws: seq<World>, ss: seq<Step>, h: nat, ls: seq<Ledger>, i: nat, n: nat, rid: nat)
    requires Projected(ws, ss, h, ls) && i <= n < |ws| && rid < |ls[i].births|
    requires forall k :: i <= k < n ==> PassesBy(ws, ss, k, h, rid)
    ensures SameRecord(ls[i], ls[n], rid)
    decreases n
  {
    if i < n {
      RecordStays(ws, ss, h, ls, i, n - 1, rid);
      RecordStep(ws, ss, h, ls, n - 1, rid);
    }
  }

  /** No message finds request `rid` after step `i` and before step `n`. */
  ghost predicate Unfound(ws: seq<World>, ss: seq<Step>, i: nat, n: nat, h: nat, rid: nat)
    requires i < n <= |ss| < |ws|
  {
    forall k :: i < k < n ==> PassesBy(ws, ss, k, h, rid)
  }

  /** Step `i` posts request `r` of host `h`. */
  ghost predicate Posts(ws: seq<World>, ss: seq<Step>, i: nat, h: nat, r: MapRequest)
    requires i < |ss| < |ws|
  {
    ss[i] == Posted(h) && h in ws[i].hosts && ws[i].hosts[h].cont.Posting? && ws[i].hosts[h].cont.req == r
  }

  lemma PostRecord(l: Ledger, h: Host)
    requires LedgerOk(l) && h.cont.Posting? && h.cont.req.rid == |l.births|
    ensures var l', rid := StepLedger(l, PostOp(h.cont.req)), h.cont.req.rid;
            && rid < |l'.births| && rid !in l'.touched && rid !in l'.renewed
            && l'.births[rid] == Birth(h.cont.req.kind, l.ticks)
  {
  }

  lemma PostedStep(ws: seq<World>, ss: seq<Step>, h: nat, ls: seq<Ledger>, i: nat, r: MapRequest)
    requires Projected(ws, ss, h, ls) && i < |ss| && Posts(ws, ss, i, h, r)
    ensures var l := ls[i + 1];
            && r.rid < |l.births| && r.rid !in l.touched && r.rid !in l.renewed
            && l.births[r.rid] == Birth(r.kind, ls[i].ticks)
  {
    assert HostKept(ws[i], h, ls[i]) && StepKept(ws[i], ss[i], h, ls[i], ls[i + 1]);
    PostRecord(ls[i], ws[i].hosts[h]);
  }

  /** The record of a request posted by step `i`, as long as no message finds it. */
  lemma PostedRecord(ws: seq<World>, ss: seq<Step>, h: nat, ls: seq<Ledger>, i: nat, n: nat, r: MapRequest)
    requires Projected(ws, ss, h, ls) && i < n < |ws| && Posts(ws, ss, i, h, r) && Unfound(ws, ss, i, n, h, r.rid)
    ensures var l := ls[n];
            && r.rid < |l.births| && r.rid !in l.touched && r.rid !in l.renewed
            && l.births[r.rid] == Birth(r.kind, ls[i].ticks)
  {
    PostedStep(ws, ss, h, ls, i, r);
    RecordStays(ws, ss, h, ls, i + 1, n, r.rid);
  }

  lemma {:induction false} SweepsSplit(ss: seq<Step>, i: nat, n: nat, h: nat)
    requires i <= n <= |ss|
    ensures Sweeps(ss, 0, n, h) == Sweeps(ss, 0, i, h) + Sweeps(ss, i, n, h)
    decreases n
  {
    if i < n { SweepsSplit(ss, i, n - 1, h); }
  }

  /** Retransmission in runs. A request that host `h` posts and that no message finds
      afterwards is listed through ten sweeps of the host and gone with the eleventh; unless
      it is an acknowledgement entry, its message is sent again, once, by every sweep but the
      first and the last of these eleven. */
  lemma UnansweredInRun(ws: seq<World>, ss: seq<Step>, i: nat, n: nat, h: nat, r: MapRequest)
    requires IsRun(ws, ss) && i < n < |ws| && Posts(ws, ss, i, h, r) && Unfound(ws, ss, i, n, h, r.rid)
    ensures var age := Sweeps(ss, i, n, h);
            && h in ws[n].hosts && (Listed(ws[n].hosts[h].reqs, r.rid) <==> age <= 10)
            && SentAgain(ws, ss, n, h, r.rid) == if r.kind == Ack then 0 else Retries(age)
  {
    var ls := RunIsProjected(ws, ss, i, h);
    PostedRecord(ws, ss, h, ls, i, n, r);
    UnansweredCounts(ws, ss, h, ls, i, n, r.rid);
  }

  lemma UnansweredCounts(ws: seq<World>, ss: seq<Step>, h: nat, ls: seq<Ledger>, i: nat, n: nat, rid: nat)
    requires IsRun(ws, ss) && Projected(ws, ss, h, ls) && i < n < |ws|
    requires rid < |ls[n].births| && rid !in ls[n].touched && rid !in ls[n].renewed
    requires ls[n].births[rid].tick == ls[i].ticks
    ensures h in ws[n].hosts && (Listed(ws[n].hosts[h].reqs, rid) <==> Sweeps(ss, i, n, h) <= 10)
    ensures SentAgain(ws, ss, n, h, rid) == if ls[n].births[rid].kind == Ack then 0 else Retries(Sweeps(ss, i, n, h))
  {
    LedgerCounts(ws, ss, h, ls, n, rid);
    LedgerCounts(ws, ss, h, ls, i, rid);
    SweepsSplit(ss, i, n, h);
    assert HostKept(ws[n], h, ls[n]);
    assert RecordOk(ls[n], rid);
  }

  // ----- sweep by sweep

  /** Whatever is listed under this identity keeps this message. */
  ghost predicate KeepsMessage(reqs: seq<MapRequest>, rid: nat, msg: Option<SendMsg>) {
    forall k :: 0 <= k < |reqs| && reqs[k].rid == rid ==> reqs[k].sendMsg == msg
  }

  lemma OpMessage(l: Ledger, h: Host, s: Step, rid: nat, msg: Option<SendMsg>)
    requires Keeps(l, h) && rid < |l.births| && KeepsMessage(l.reqs, rid, msg)
    ensures var l' := Advance(l, ListOps(h, s)); rid < |l'.births| && KeepsMessage(l'.reqs, rid, msg)
  {
    if s.Timer? {
      forall k | 0 <= k < |Sweep(l.reqs)| && Sweep(l.reqs)[k].rid == rid
        ensures Sweep(l.reqs)[k].sendMsg == msg
      {
        var i, _ := SweepPair(l.reqs, k, k);
      }
    }
  }

  lemma PostMessage(past: Past, id: nat, h: Host, l: Ledger)
    requires HostOk(past, id, h) && LedgerOk(l) && h.cont.Posting? && Keeps(l, h)
    ensures KeepsMessage(StepLedger(l, PostOp(h.cont.req)).reqs, h.cont.req.rid, h.cont.req.sendMsg)
  {
    PostInLedger(past, id, h, l);
    var reqs := PostStep(h).host.reqs;
    assert StepLedger(l, PostOp(h.cont.req)).reqs == reqs;
    assert forall k :: 0 < k < |reqs| ==> reqs[k] == l.reqs[k - 1];
    assert forall k :: 0 <= k < |l.reqs| ==> ListedOk(l, l.reqs[k]);
  }

  lemma PostedMessage(ws: seq<World>, ss: seq<Step>, h: nat, ls: seq<Ledger>, i: nat, r: MapRequest)
    requires IsRun(ws, ss) && Projected(ws, ss, h, ls) && i < |ss| && Posts(ws, ss, i, h, r)
    ensures KeepsMessage(ls[i + 1].reqs, r.rid, r.sendMsg)
  {
    assert HostKept(ws[i], h, ls[i]) && StepKept(ws[i], ss[i], h, ls[i], ls[i + 1]);
    RunOk(ws, ss, i);
    PostMessage(ws[i].past, h, ws[i].hosts[h], ls[i]);
  }

  lemma MessageStep(ws: seq<World>, ss: seq<Step>, h: nat, ls: seq<Ledger>, n: nat, rid: nat, msg: Option<SendMsg>)
    requires Projected(ws, ss, h, ls) && n < |ss| && rid < |ls[n].births| && KeepsMessage(ls[n].reqs, rid, msg)
    ensures rid < |ls[n + 1].births| && KeepsMessage(ls[n + 1].reqs, rid, msg)
  {
    assert HostKept(ws[n], h, ls[n]) && StepKept(ws[n], ss[n], h, ls[n], ls[n + 1]);
    if h == Actor(ss[n]) { OpMessage(ls[n], ws[n].hosts[h], ss[n], rid, msg); }
  }

  ghost predicate MessageHeld(l: Ledger, rid: nat, msg: Option<SendMsg>) {
    rid < |l.births| && KeepsMessage(l.reqs, rid, msg)
  }

  lemma {:induction false} HeldThroughout(ls: seq<Ledger>, i: nat, n: nat, rid: nat, msg: Option<SendMsg>)
    requires i <= n < |ls| && MessageHeld(ls[i], rid, msg)
    requires forall k :: i <= k < n && MessageHeld(ls[k], rid, msg) ==> MessageHeld(ls[k + 1], rid, msg)
    ensures MessageHeld(ls[n], rid, msg)
    decreases n
  {
    if i < n { HeldThroughout(ls, i, n - 1, rid, msg); }
  }

  lemma MessageStays(ws: seq<World>, ss: seq<Step>, h: nat, ls: seq<Ledger>, i: nat, n: nat, rid: nat,
                     msg: Option<SendMsg>)
    requires Projected(ws, ss, h, ls) && i <= n < |ws| && MessageHeld(ls[i], rid, msg)
    ensures MessageHeld(ls[n], rid, msg)
  {
    forall k | i <= k < n && MessageHeld(ls[k], rid, msg)
      ensures MessageHeld(ls[k + 1], rid, msg)
    {
      MessageStep(ws, ss, h, ls, k, rid, msg);
    }
    HeldThroughout(ls, i, n, rid, msg);
  }

  /** What a sweep makes of a listed request of this age. */
  lemma SweepAtAge(h: Host, l: Ledger, rid: nat, m: SendMsg)
    requires l.reqs == h.reqs && LedgerOk(l) && DistinctMessages(h.reqs) && rid < |l.births| && rid !in l.touched
    requires l.births[rid].kind != Ack && rid !in l.renewed && KeepsMessage(l.reqs, rid, Some(m))
    requires l.ticks - l.births[rid].tick <= 10
    ensures m in SweepStep(h).sends <==> 1 <= l.ticks - l.births[rid].tick <= 9
  {
    assert RecordOk(l, rid);
    var k :| 0 <= k < |l.reqs| && l.reqs[k].rid == rid;
    assert ListedOk(l, l.reqs[k]);
    SweepSendsIff(h, m);
    assert forall i :: 0 <= i < |h.reqs| && h.reqs[i].sendMsg == Some(m) ==> i == k;
  }

  /** Sweep by sweep. The query or accept that host `h` posts by step `i`, and that no message
      finds afterwards, is put on the network again by its second to tenth sweep, and not by
      the first or the eleventh. */
  lemma SentBySweep(ws: seq<World>, ss: seq<Step>, i: nat, n: nat, h: nat, r: MapRequest)
    requires IsRun(ws, ss) && i < n < |ss| && Posts(ws, ss, i, h, r) && Unfound(ws, ss, i, n, h, r.rid)
    requires ss[n] == Timer(h) && r.kind != Ack && Sweeps(ss, i, n, h) <= 10
    ensures var age := Sweeps(ss, i, n, h);
            && r.sendMsg.Some? && (r.sendMsg.value in StepEffect(ws[n], ss[n]).sends <==> 1 <= age <= 9)
            && (1 <= age <= 9 ==> Packet(h, r.sendMsg.value.dest, r.sendMsg.value.data) in ws[n + 1].net)
  {
    var ls := RunIsProjected(ws, ss, i, h);
    PostedRecord(ws, ss, h, ls, i, n, r);
    PostedStep(ws, ss, h, ls, i, r);
    PostedMessage(ws, ss, h, ls, i, r);
    MessageStays(ws, ss, h, ls, i + 1, n, r.rid, r.sendMsg);
    MessagesInRun(ws, ss, i, h);
    SweepInRun(ws, ss, h, ls, i, n, r.rid, r.sendMsg.value);
  }

  lemma SweepInRun(ws: seq<World>, ss: seq<Step>, h: nat, ls: seq<Ledger>, i: nat, n: nat, rid: nat, m: SendMsg)
    requires IsRun(ws, ss) && Projected(ws, ss, h, ls) && i < n < |ss| && ss[n] == Timer(h)
    requires rid < |ls[n].births| && rid !in ls[n].touched && rid !in ls[n].renewed
    requires ls[n].births[rid].kind != Ack && ls[n].births[rid].tick == ls[i].ticks
    requires KeepsMessage(ls[n].reqs, rid, Some(m)) && Sweeps(ss, i, n, h) <= 10
    ensures m in StepEffect(ws[n], ss[n]).sends <==> 1 <= Sweeps(ss, i, n, h) <= 9
    ensures m in StepEffect(ws[n], ss[n]).sends ==> Packet(h, m.dest, m.data) in ws[n + 1].net
  {
    LedgerCounts(ws, ss, h, ls, n, rid);
    LedgerCounts(ws, ss, h, ls, i, rid);
    SweepsSplit(ss, i, n, h);
    assert HostKept(ws[n], h, ls[n]);
    MessagesInRun(ws, ss, n, h);
    SweepAtAge(ws[n].hosts[h], ls[n], rid, m);
    assert ws[n + 1] == Next(ws[n], ss[n]);
  }

  // ----- requests that a message finds

  lemma TouchedIsNotChosen(l: Ledger, rid: nat)
    requires LedgerOk(l) && rid in l.touched
    ensures multiset(Rids(Resent(l.reqs)))[rid] == 0
  {
    ResentOnce(l.reqs, rid);
    forall i | 0 <= i < |l.reqs| && l.reqs[i].rid == rid ensures !Resends(l.reqs[i]) { assert ListedOk(l, l.reqs[i]); }
  }

  /** A request that was found before, or is found now, is not chosen to be sent. */
  lemma OpTouches(l: Ledger, h: Host, s: Step, rid: nat)
    requires l.reqs == h.reqs && LedgerOk(l) && (rid in l.touched || Finds(h, s, rid))
    ensures var l' := Advance(l, ListOps(h, s)); rid in l'.touched && l'.resent[rid] == l.resent[rid]
  {
    if rid in l.touched {
      TouchedIsNotChosen(l, rid);
    } else {
      var op :| op in ListOps(h, s) && op.Update?
        && var f := FindReq(h.reqs, op.handle, op.addr, op.kinds); f.Some? && h.reqs[f.value].rid == rid;
      assert ListOps(h, s)[0] == op;
    }
  }

  lemma TouchedStep(ws: seq<World>, ss: seq<Step>, h: nat, ls: seq<Ledger>, n: nat, rid: nat)
    requires Projected(ws, ss, h, ls) && n < |ss| && (rid in ls[n].touched || !PassesBy(ws, ss, n, h, rid))
    ensures rid in ls[n + 1].touched && ls[n + 1].resent[rid] == ls[n].resent[rid]
  {
    assert HostKept(ws[n], h, ls[n]) && StepKept(ws[n], ss[n], h, ls[n], ls[n + 1]);
    if h == Actor(ss[n]) { OpTouches(ls[n], ws[n].hosts[h], ss[n], rid); }
  }

  lemma {:induction false} TouchedStays(ws: seq<World>, ss: seq<Step>, h: nat, ls: seq<Ledger>, i: nat, n: nat,
                                        rid: nat)
    requires Projected(ws, ss, h, ls) && i <= n < |ws| && rid in ls[i].touched
    ensures rid in ls[n].touched && ls[n].resent[rid] == ls[i].resent[rid]
    decreases n
  {
    if i < n {
      TouchedStays(ws, ss, h, ls, i, n - 1, rid);
      TouchedStep(ws, ss, h, ls, n - 1, rid);
    }
  }

  /** In every run, once a message has found a request, be it a query or an answer, no sweep
      sends it again. */
  lemma FoundStaysQuiet(ws: seq<World>, ss: seq<Step>, i: nat, n: nat, h: nat, rid: nat)
    requires IsRun(ws, ss) && i < n < |ws| && h in ws[i].hosts && !PassesBy(ws, ss, i, h, rid)
    ensures SentAgain(ws, ss, n, h, rid) == SentAgain(ws, ss, i, h, rid)
  {
    var ls := RunIsProjected(ws, ss, i, h);
    TouchedStep(ws, ss, h, ls, i, rid);
    TouchedStays(ws, ss, h, ls, i + 1, n, rid);
    LedgerCounts(ws, ss, h, ls, i, rid);
    LedgerCounts(ws, ss, h, ls, n, rid);
  }

  // ----- acknowledgement entries

  /** A message finds acknowledgement entry `rid`. */
  ghost predicate Renews(h: Host, s: Step, rid: nat) {
    Finds(h, s, rid) && exists k :: 0 <= k < |h.reqs| && h.reqs[k].rid == rid && h.reqs[k].kind == Ack
  }

  lemma OpRenews(l: Ledger, h: Host, s: Step, rid: nat)
    requires Keeps(l, h) && LedgerOk(l) && Renews(h, s, rid) && |ListOps(h, s)| <= 1
    ensures var l' := Advance(l, ListOps(h, s)); rid in l'.renewed && l'.renewed[rid] == l.ticks
  {
    var op :| op in ListOps(h, s) && op.Update?
      && var f := FindReq(h.reqs, op.handle, op.addr, op.kinds); f.Some? && h.reqs[f.value].rid == rid;
    var f := FindReq(h.reqs, op.handle, op.addr, op.kinds).value;
    var k :| 0 <= k < |h.reqs| && h.reqs[k].rid == rid && h.reqs[k].kind == Ack;
    SameRid(l.reqs, k, f);
    assert ListOps(h, s)[0] == op;
  }

  lemma RenewedStep(ws: seq<World>, ss: seq<Step>, h: nat, ls: seq<Ledger>, j: nat, rid: nat)
    requires IsRun(ws, ss) && Projected(ws, ss, h, ls) && j < |ss| && Actor(ss[j]) == h && h in ws[j].hosts
    requires Renews(ws[j].hosts[h], ss[j], rid)
    ensures rid in ls[j + 1].renewed && ls[j + 1].renewed[rid] == ls[j].ticks && rid < |ls[j + 1].births|
  {
    assert HostKept(ws[j], h, ls[j]) && StepKept(ws[j], ss[j], h, ls[j], ls[j + 1]);
    LedgerAdvances(ws, ss, j, h);
    OpRenews(ls[j], ws[j].hosts[h], ss[j], rid);
    assert HostKept(ws[j + 1], h, ls[j + 1]);
  }

  /** The entry by which host `h` remembers an acknowledgement is listed through exactly ten
      sweeps after an accept has found it last. */
  lemma RenewedInRun(ws: seq<World>, ss: seq<Step>, j: nat, n: nat, h: nat, rid: nat)
    requires IsRun(ws, ss) && j < n < |ws| && Actor(ss[j]) == h && h in ws[j].hosts
    requires Renews(ws[j].hosts[h], ss[j], rid) && Unfound(ws, ss, j, n, h, rid)
    ensures h in ws[n].hosts && (Listed(ws[n].hosts[h].reqs, rid) <==> Sweeps(ss, j, n, h) <= 10)
  {
    var ls := RunIsProjected(ws, ss, j, h);
    RenewedStep(ws, ss, h, ls, j, rid);
    RecordStays(ws, ss, h, ls, j + 1, n, rid);
    LedgerCounts(ws, ss, h, ls, n, rid);
    LedgerCounts(ws, ss, h, ls, j, rid);
    SweepsSplit(ss, j, n, h);
    assert HostKept(ws[n], h, ls[n]);
    assert RecordOk(ls[n], rid);
  }
}
