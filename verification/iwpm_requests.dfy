/** The list of outstanding mapping requests: lookup and update, the timer sweep, and
    the life of a request from posting to removal. */
module IwpmRequests {
  import opened IwpmTypes

  predicate ReqHit(r: MapRequest, handle: nat, addr: SockAddr, kinds: set<ReqKind>) {
    handle == r.handle && r.kind in kinds && SameAddr(addr, r.src)
  }

  /** Index of the first request with this handle, source address and one of these kinds. */
  function FindReq(reqs: seq<MapRequest>, handle: nat, addr: SockAddr, kinds: set<ReqKind>): (r: Option<nat>)
    ensures r.Some? ==> r.value < |reqs| && ReqHit(reqs[r.value], handle, addr, kinds)
    ensures r.Some? ==> forall j :: 0 <= j < r.value ==> !ReqHit(reqs[j], handle, addr, kinds)
    ensures r.None? ==> forall j :: 0 <= j < |reqs| ==> !ReqHit(reqs[j], handle, addr, kinds)
  {
    if reqs == [] then None
    else if ReqHit(reqs[0], handle, addr, kinds) then Some(0)
    else
      match FindReq(reqs[1..], handle, addr, kinds)
      case None => None
      case Some(i) => Some(i + 1)
  }

  /** create_iwpm_map_request; `ptr` is the address of the new object, which becomes the
      handle when the caller has none. */
  function NewRequest(rid: nat, nl: NlHeader, src: SockAddr, remote: SockAddr, handle: nat,
                      kind: ReqKind, sendMsg: Option<SendMsg>, ptr: nat): MapRequest
  {
    MapRequest(rid, src, remote, nl, if handle == 0 then ptr else handle, sendMsg, REQ_TIMEOUT, false, kind)
  }

  /** What an update does to the request it found. */
  function Touch(r: MapRequest): MapRequest {
    if r.complete then r
    else if r.kind == Ack then r.(timeout := REQ_TIMEOUT, complete := false)
    else r.(timeout := 0, complete := true)
  }

  function UpdateReq(reqs: seq<MapRequest>, handle: nat, addr: SockAddr, kinds: set<ReqKind>): seq<MapRequest> {
    match FindReq(reqs, handle, addr, kinds)
    case None => reqs
    case Some(i) => reqs[i := Touch(reqs[i])]
  }

  /** The same request, whatever has become of it. */
  predicate Like(r: MapRequest, r': MapRequest) {
    r.rid == r'.rid && r.kind == r'.kind && r.handle == r'.handle && r.src == r'.src
  }

  // ----- the timer sweep

  predicate Resends(r: MapRequest) {
    0 < r.timeout < REQ_TIMEOUT && r.kind != Ack
  }

  function Aged(r: MapRequest): MapRequest {
    r.(timeout := r.timeout - 1)
  }

  /** The requests that remain after a sweep. */
  function Sweep(reqs: seq<MapRequest>): seq<MapRequest> {
    if reqs == [] then []
    else (if reqs[0].timeout > 0 then [Aged(reqs[0])] else []) + Sweep(reqs[1..])
  }

  /** The requests whose message a sweep sends again, in list order. */
  function Resent(reqs: seq<MapRequest>): seq<MapRequest> {
    if reqs == [] then []
    else (if Resends(reqs[0]) then [reqs[0]] else []) + Resent(reqs[1..])
  }

  /** A request object in good order. */
  predicate ReqOk(r: MapRequest) {
    && 0 <= r.timeout <= REQ_TIMEOUT
    && (r.complete ==> r.timeout == 0 && r.kind != Ack)
    && (r.sendMsg.None? <==> r.kind == Ack)
  }

  lemma {:induction false} SweepAppend(a: seq<MapRequest>, b: seq<MapRequest>)
    ensures Sweep(a + b) == Sweep(a) + Sweep(b)
    ensures Resent(a + b) == Resent(a) + Resent(b)
  {
    if a == [] {
      assert a + b == b;
    } else {
      assert (a + b)[1..] == a[1..] + b;
      SweepAppend(a[1..], b);
      var x, y := if a[0].timeout > 0 then [Aged(a[0])] else [], if Resends(a[0]) then [a[0]] else [];
      assert x + (Sweep(a[1..]) + Sweep(b)) == x + Sweep(a[1..]) + Sweep(b);
      assert y + (Resent(a[1..]) + Resent(b)) == y + Resent(a[1..]) + Resent(b);
    }
  }

  /** Every survivor is an older request, one tick later; survivors keep their order. */
  lemma {:induction false} SweepPair(reqs: seq<MapRequest>, a: nat, b: nat) returns (i: nat, j: nat)
    requires a <= b < |Sweep(reqs)|
    ensures i <= j < |reqs| && (a < b ==> i < j)
    ensures reqs[i].timeout > 0 && Sweep(reqs)[a] == Aged(reqs[i])
    ensures reqs[j].timeout > 0 && Sweep(reqs)[b] == Aged(reqs[j])
  {
    var d := if reqs[0].timeout > 0 then 1 else 0;
    if b < d {
      i, j := 0, 0;
    } else if a < d {
      var _, j' := SweepPair(reqs[1..], b - d, b - d);
      i, j := 0, j' + 1;
    } else {
      var i', j' := SweepPair(reqs[1..], a - d, b - d);
      i, j := i' + 1, j' + 1;
    }
  }

  lemma {:induction false} SweepKeepsLive(reqs: seq<MapRequest>, i: nat) returns (k: nat)
    requires i < |reqs| && reqs[i].timeout > 0
    ensures k < |Sweep(reqs)| && Sweep(reqs)[k] == Aged(reqs[i])
  {
    if i == 0 {
      k := 0;
    } else {
      var k' := SweepKeepsLive(reqs[1..], i - 1);
      k := k' + if reqs[0].timeout > 0 then 1 else 0;
    }
  }

  lemma {:induction false} ResentMember(reqs: seq<MapRequest>, r: MapRequest)
    ensures r in Resent(reqs) <==> r in reqs && Resends(r)
  {
    if reqs != [] { ResentMember(reqs[1..], r); }
  }

  /** What is sent again is sent in list order. */
  lemma {:induction false} ResentPair(reqs: seq<MapRequest>, a: nat, b: nat) returns (i: nat, j: nat)
    requires a < b < |Resent(reqs)|
    ensures i < j < |reqs| && Resent(reqs)[a] == reqs[i] && Resent(reqs)[b] == reqs[j]
  {
    if Resends(reqs[0]) && a == 0 {
      ResentMember(reqs[1..], Resent(reqs)[b]);
      var j' :| 0 <= j' < |reqs[1..]| && reqs[1..][j'] == Resent(reqs)[b];
      i, j := 0, j' + 1;
    } else {
      var d := if Resends(reqs[0]) then 1 else 0;
      var i', j' := ResentPair(reqs[1..], a - d, b - d);
      i, j := i' + 1, j' + 1;
    }
  }

  // ----- the life of a request

  datatype Birth = Birth(kind: ReqKind, tick: nat)

  /** The request list with a record of its past: when each request was posted (indexed by
      request identity), how many sweeps have run, which requests an update has found, when
      acknowledgement entries were last found, and how often each request was chosen to be
      sent again. */
  datatype Ledger = Ledger(reqs: seq<MapRequest>, births: seq<Birth>, ticks: nat,
                           touched: set<nat>, renewed: map<nat, nat>, resent: multiset<nat>)

  datatype ListOp =
    | Post(nl: NlHeader, src: SockAddr, remote: SockAddr, handle: nat, kind: ReqKind, msg: SendMsg, ptr: nat)
    | Update(handle: nat, addr: SockAddr, kinds: set<ReqKind>)
    | Tick

  function Rids(reqs: seq<MapRequest>): seq<nat> {
    seq(|reqs|, i requires 0 <= i < |reqs| => reqs[i].rid)
  }

  function StepLedger(s: Ledger, op: ListOp): Ledger {
    match op
    case Post(nl, src, remote, handle, kind, msg, ptr) =>
      var r := NewRequest(|s.births|, nl, src, remote, handle, kind, if kind == Ack then None else Some(msg), ptr);
      s.(reqs := [r] + s.reqs, births := s.births + [Birth(kind, s.ticks)])
    case Update(handle, addr, kinds) =>
      (match FindReq(s.reqs, handle, addr, kinds)
       case None => s
       case Some(i) =>
         var r := s.reqs[i];
         s.(reqs := UpdateReq(s.reqs, handle, addr, kinds), touched := s.touched + {r.rid},
            renewed := if r.kind == Ack then s.renewed[r.rid := s.ticks] else s.renewed))
    case Tick =>
      s.(reqs := Sweep(s.reqs), ticks := s.ticks + 1, resent := s.resent + multiset(Rids(Resent(s.reqs))))
  }

  function RunLedger(ops: seq<ListOp>): Ledger {
    if ops == [] then Ledger([], [], 0, {}, map[], multiset{})
    else StepLedger(RunLedger(ops[..|ops| - 1]), ops[|ops| - 1])
  }

  /** Retransmissions of an unanswered request that has lived through `age` sweeps. */
  function Retries(age: int): nat {
    if age <= 1 then 0 else if age <= 10 then age - 1 else 9
  }

  ghost predicate DistinctRids(reqs: seq<MapRequest>) {
    forall i, j :: 0 <= i < j < |reqs| ==> reqs[i].rid != reqs[j].rid
  }

  lemma SameRid(reqs: seq<MapRequest>, i: nat, j: nat)
    requires DistinctRids(reqs) && i < |reqs| && j < |reqs| && reqs[i].rid == reqs[j].rid
    ensures i == j
  {
  }

  ghost predicate Listed(reqs: seq<MapRequest>, rid: nat) {
    exists i :: 0 <= i < |reqs| && reqs[i].rid == rid
  }

  /** Sweeps since the request was posted or, for an acknowledgement entry, last found. */
  function Age(s: Ledger, rid: nat): int
    requires rid < |s.births|
  {
    s.ticks - if rid in s.renewed then s.renewed[rid] else s.births[rid].tick
  }

  /** Nothing but sweeps has happened to the request since then. */
  predicate Ageing(s: Ledger, rid: nat)
    requires rid < |s.births|
  {
    rid !in s.touched || s.births[rid].kind == Ack
  }

  /** How a listed request stands, given its record. */
  ghost predicate ListedOk(s: Ledger, r: MapRequest) {
    && ReqOk(r) && r.rid < |s.births| && r.kind == s.births[r.rid].kind
    && (Ageing(s, r.rid) ==> !r.complete && r.timeout == REQ_TIMEOUT - Age(s, r.rid))
    && (r.rid in s.touched && r.kind != Ack ==> r.complete)
  }

  /** How the record of a request stands. */
  ghost predicate RecordOk(s: Ledger, rid: nat)
    requires rid < |s.births|
  {
    var age := Age(s, rid);
    && age >= 0 && (rid in s.renewed ==> s.births[rid].kind == Ack)
    && (Ageing(s, rid) ==> (Listed(s.reqs, rid) <==> age <= 10))
    && (s.births[rid].kind == Ack ==> s.resent[rid] == 0)
    && (s.births[rid].kind != Ack && rid !in s.touched ==> s.resent[rid] == Retries(age))
    && s.resent[rid] <= 9
  }

  ghost predicate LedgerOk(s: Ledger) {
    && DistinctRids(s.reqs)
    && (forall i :: 0 <= i < |s.reqs| ==> ListedOk(s, s.reqs[i]))
    && (forall rid :: 0 <= rid < |s.births| ==> RecordOk(s, rid))
    && (forall rid :: rid in s.resent ==> rid < |s.births|)
    && (forall rid :: rid in s.touched ==> rid < |s.births|)
    && (forall rid :: rid in s.renewed ==> rid < |s.births|)
  }

  lemma PostRecordOk(s: Ledger, op: ListOp, rid: nat)
    requires LedgerOk(s) && op.Post? && rid < |StepLedger(s, op).births|
    ensures RecordOk(StepLedger(s, op), rid)
  {
    var s' := StepLedger(s, op);
    assert s'.reqs[0].rid == |s.births|;
    if rid < |s.births| {
      assert RecordOk(s, rid);
      if Listed(s.reqs, rid) {
        var i :| 0 <= i < |s.reqs| && s.reqs[i].rid == rid;
        assert s'.reqs[i + 1].rid == rid;
      }
    } else {
      assert rid !in s.resent && rid !in s.touched && rid !in s.renewed;
    }
  }

  lemma PostKeeps(s: Ledger, op: ListOp)
    requires LedgerOk(s) && op.Post?
    ensures LedgerOk(StepLedger(s, op))
  {
    var s' := StepLedger(s, op);
    assert s'.reqs[1..] == s.reqs;
    forall rid | 0 <= rid < |s'.births| ensures RecordOk(s', rid) { PostRecordOk(s, op, rid); }
    forall i | 0 <= i < |s.reqs|
      ensures ListedOk(s', s.reqs[i])
    {
      assert ListedOk(s, s.reqs[i]);
    }
  }

  lemma UpdateListed(s: Ledger, op: ListOp, i: nat)
    requires LedgerOk(s) && op.Update? && i < |StepLedger(s, op).reqs|
    ensures var s' := StepLedger(s, op);
            |s'.reqs| == |s.reqs| && ListedOk(s', s'.reqs[i]) && s'.reqs[i].rid == s.reqs[i].rid
  {
    assert ListedOk(s, s.reqs[i]);
    var f := FindReq(s.reqs, op.handle, op.addr, op.kinds);
    if f.Some? && i != f.value {
      assert ListedOk(s, s.reqs[f.value]);
      assert i < f.value ==> s.reqs[i].rid != s.reqs[f.value].rid;
      assert f.value < i ==> s.reqs[f.value].rid != s.reqs[i].rid;
    }
  }

  lemma UpdateRecord(s: Ledger, op: ListOp, rid: nat)
    requires LedgerOk(s) && op.Update? && rid < |s.births|
    ensures StepLedger(s, op).births == s.births && RecordOk(StepLedger(s, op), rid)
  {
    var s' := StepLedger(s, op);
    assert RecordOk(s, rid);
    var f := FindReq(s.reqs, op.handle, op.addr, op.kinds);
    if f.Some? { assert ListedOk(s, s.reqs[f.value]); }
    forall i | 0 <= i < |s'.reqs| ensures s'.reqs[i].rid == s.reqs[i].rid { UpdateListed(s, op, i); }
    if Listed(s.reqs, rid) {
      var i :| 0 <= i < |s.reqs| && s.reqs[i].rid == rid;
      assert s'.reqs[i].rid == rid;
    }
  }

  lemma UpdateKeeps(s: Ledger, op: ListOp)
    requires LedgerOk(s) && op.Update?
    ensures LedgerOk(StepLedger(s, op))
  {
    var s' := StepLedger(s, op);
    forall i | 0 <= i < |s'.reqs|
      ensures ListedOk(s', s'.reqs[i]) && s'.reqs[i].rid == s.reqs[i].rid
    {
      UpdateListed(s, op, i);
    }
    forall rid | 0 <= rid < |s'.births| ensures RecordOk(s', rid) { UpdateRecord(s, op, rid); }
    var f := FindReq(s.reqs, op.handle, op.addr, op.kinds);
    if f.Some? { assert ListedOk(s, s.reqs[f.value]); }
  }

  /** A sweep sends each request again at most once. */
  lemma {:induction false} ResentOnce(reqs: seq<MapRequest>, rid: nat)
    requires DistinctRids(reqs)
    ensures multiset(Rids(Resent(reqs)))[rid] ==
            if exists i :: 0 <= i < |reqs| && reqs[i].rid == rid && Resends(reqs[i]) then 1 else 0
  {
    if reqs == [] {
    } else {
      var rest := reqs[1..];
      ResentOnce(rest, rid);
      var first := if Resends(reqs[0]) then [reqs[0]] else [];
      assert Rids(Resent(reqs)) == Rids(first) + Rids(Resent(rest));
      assert Rids(first) == if Resends(reqs[0]) then [reqs[0].rid] else [];
      assert forall i :: 0 <= i < |rest| ==> rest[i] == reqs[i + 1];
      if i :| 0 <= i < |reqs| && reqs[i].rid == rid && Resends(reqs[i]) {
        if i > 0 {
          assert rest[i - 1].rid == rid && Resends(rest[i - 1]);
        } else {
          assert forall k :: 0 <= k < |rest| ==> rest[k].rid != rid;
        }
      }
    }
  }

  lemma TickRecord(s: Ledger, rid: nat)
    requires LedgerOk(s) && rid < |s.births|
    ensures RecordOk(StepLedger(s, Tick), rid)
  {
    var s' := StepLedger(s, Tick);
    assert RecordOk(s, rid);
    ResentOnce(s.reqs, rid);
    if i :| 0 <= i < |s.reqs| && s.reqs[i].rid == rid {
      assert ListedOk(s, s.reqs[i]);
      if s.reqs[i].timeout > 0 {
        var k := SweepKeepsLive(s.reqs, i);
        assert s'.reqs[k].rid == rid;
      }
    }
    if k :| 0 <= k < |s'.reqs| && s'.reqs[k].rid == rid {
      var i, _ := SweepPair(s.reqs, k, k);
      assert ListedOk(s, s.reqs[i]);
    }
  }

  lemma TickKeeps(s: Ledger)
    requires LedgerOk(s)
    ensures LedgerOk(StepLedger(s, Tick))
  {
    var s' := StepLedger(s, Tick);
    forall rid | 0 <= rid < |s'.births|
      ensures RecordOk(s', rid)
    {
      TickRecord(s, rid);
    }
    forall a, b | 0 <= a < b < |s'.reqs|
      ensures s'.reqs[a].rid != s'.reqs[b].rid
    {
      var i, j := SweepPair(s.reqs, a, b);
    }
    forall a | 0 <= a < |s'.reqs|
      ensures ListedOk(s', s'.reqs[a])
    {
      var i, _ := SweepPair(s.reqs, a, a);
      assert ListedOk(s, s.reqs[i]);
    }
    forall rid | rid in s'.resent
      ensures rid < |s.births|
    {
      ResentOnce(s.reqs, rid);
      if rid !in s.resent {
        var i :| 0 <= i < |s.reqs| && s.reqs[i].rid == rid && Resends(s.reqs[i]);
        assert ListedOk(s, s.reqs[i]);
      }
    }
  }

  /** In every history of posts, updates and sweeps: each listed request is in good order,
      no request is sent again more than nine times and an acknowledgement never; a request
      no update has found is listed exactly through its first ten sweeps, and by then has
      been sent again exactly nine times; and an acknowledgement entry is listed exactly
      through the ten sweeps after it was last found. */
  lemma {:induction false} RequestLife(ops: seq<ListOp>)
    ensures LedgerOk(RunLedger(ops))
  {
    if ops != [] {
      RequestLife(ops[..|ops| - 1]);
      var s := RunLedger(ops[..|ops| - 1]);
      match ops[|ops| - 1]
      case Post(_, _, _, _, _, _, _) => PostKeeps(s, ops[|ops| - 1]);
      case Update(_, _, _) => UpdateKeeps(s, ops[|ops| - 1]);
      case Tick => TickKeeps(s);
    }
  }

  /** Eleven sweeps after it was posted, an unanswered query or accept is gone, having been
      sent again exactly nine times; after ten it is still there. */
  lemma UnansweredRequest(ops: seq<ListOp>, rid: nat)
    requires var s := RunLedger(ops); rid < |s.births| && s.births[rid].kind != Ack && rid !in s.touched
    ensures var s := RunLedger(ops);
            var age := s.ticks - s.births[rid].tick;
            && (age == 10 ==> Listed(s.reqs, rid) && s.resent[rid] == 9)
            && (age >= 11 ==> !Listed(s.reqs, rid) && s.resent[rid] == 9)
  {
    RequestLife(ops);
    assert RecordOk(RunLedger(ops), rid);
  }

  /** An acknowledgement entry that was found is listed through the ten sweeps that follow,
      and no longer if it is not found again. */
  lemma RenewedEntry(ops: seq<ListOp>, rid: nat)
    requires var s := RunLedger(ops); rid in s.renewed
    ensures var s := RunLedger(ops); Listed(s.reqs, rid) <==> s.ticks - s.renewed[rid] <= 10
  {
    RequestLife(ops);
    assert RecordOk(RunLedger(ops), rid);
  }

  /** Completed requests and acknowledgements are not sent again by any further sweep. */
  lemma AnsweredStaysQuiet(ops: seq<ListOp>, rid: nat)
    requires var s := RunLedger(ops); rid in s.touched || (rid < |s.births| && s.births[rid].kind == Ack)
    ensures RunLedger(ops + [Tick]).resent[rid] == RunLedger(ops).resent[rid]
  {
    RequestLife(ops);
    var s := RunLedger(ops);
    assert (ops + [Tick])[..|ops|] == ops;
    ResentOnce(s.reqs, rid);
    assert forall i :: 0 <= i < |s.reqs| ==> ListedOk(s, s.reqs[i]);
  }
}
