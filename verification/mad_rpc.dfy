/** Sending a request and waiting for the answer, with retries. */
module MadRpc {
  import opened MadBits
  import opened MadContents
  import opened MadHeader

  const ENOMEM := 12

  /** What umad_recv delivers: nothing, or a packet with its transport status. */
  datatype Recv = Failed | Got(mad: Packet, status: int)

  datatype Outcome =
    | Invalid                  // no retries allowed
    | SendFailed
    | RecvFailed
    | TimedOut
    | Answered(at: nat)        // by the packet received at this position

  /** The transaction ID as user space compares it: the lower 32 bits. */
  function LowTrid(p: Packet): seq<bool>
    requires |p| >= MAD_SIZE
  {
    TridOf(p)[..32]
  }

  /** As a number this is the transaction ID modulo 2 to the 32, and in the packet it is the
      fourth word, in network order. */
  lemma LowTridIs(p: Packet)
    requires |p| >= MAD_SIZE
    ensures ToNat(LowTrid(p)) == ToNat(TridOf(p)) % Pow2(32) && LowTrid(p) == BigEndianWord(p, 3)
  {
    CutIsMod(TridOf(p), 32);
    TridPlace(p);
  }

  /** The response to a request is taken for its answer, unless the request has no
      transaction ID: then it is only if the new one happens to have no low bits either. */
  lemma ResponseMatches(p: Packet, rstatus: Word, stray: Long, next: Long, status: int)
    requires |p| >= MAD_SIZE
    ensures Matches(Got(Response(p, rstatus, stray, next), status), LowTrid(p)) <==>
            !IsZero(TridOf(p)) || forall i :: 0 <= i < 32 ==> !next[i]
  {
    ResponseTrid(p, rstatus, stray, next);
    MatchesIff(p, Response(p, rstatus, stray, next), next, status);
  }

  lemma MatchesIff(p: Packet, q: Packet, next: Long, status: int)
    requires |p| >= MAD_SIZE && |q| >= MAD_SIZE && TridOf(q) == if IsZero(TridOf(p)) then next else TridOf(p)
    ensures Matches(Got(q, status), LowTrid(p)) <==> !IsZero(TridOf(p)) || forall i :: 0 <= i < 32 ==> !next[i]
  {
    if IsZero(TridOf(p)) { SameLow(next, TridOf(p)); }
  }

  lemma ResponseTrid(p: Packet, rstatus: Word, stray: Long, next: Long)
    requires |p| >= MAD_SIZE
    ensures TridOf(Response(p, rstatus, stray, next)) == if IsZero(TridOf(p)) then next else TridOf(p)
  {
    ResponsePairs(p, rstatus, stray, next);
  }

  lemma SameLow(a: Long, b: Long)
    requires IsZero(b)
    ensures a[..32] == b[..32] <==> forall i :: 0 <= i < 32 ==> !a[i]
  {
    if a[..32] == b[..32] {
      forall i | 0 <= i < 32 ensures !a[i] { assert a[..32][i] == b[..32][i]; }
    }
  }

  predicate Matches(r: Recv, trid: seq<bool>) {
    r.Got? && |r.mad| >= MAD_SIZE && LowTrid(r.mad) == trid
  }

  predicate Good(r: Recv, trid: seq<bool>) {
    Matches(r, trid) && (r.status == 0 || r.status == ENOMEM)
  }

  /** Nothing ends the conversation within the first `n` receptions. */
  ghost predicate Inconclusive(rs: seq<Recv>, n: nat, trid: seq<bool>)
    requires n <= |rs|
  {
    forall i :: 0 <= i < n ==> rs[i].Got? && !Good(rs[i], trid)
  }

  function CountMatches(rs: seq<Recv>, n: nat, trid: seq<bool>): nat
    requires n <= |rs|
  {
    if n == 0 then 0 else CountMatches(rs, n - 1, trid) + if Matches(rs[n - 1], trid) then 1 else 0
  }

  /** The `i`-th send succeeds. */
  predicate SendOk(sends: seq<bool>, i: nat) {
    i < |sends| ==> sends[i]
  }

  ghost predicate SendsOk(sends: seq<bool>, n: nat) {
    forall i :: 0 <= i < n ==> SendOk(sends, i)
  }

  /** The outcome, in terms of the receptions alone: how many were used, that none of the
      earlier ones would have ended the conversation, and that there was one send for each
      matching reception before the last plus one. */
  ghost predicate Explained(sends: seq<bool>, rs: seq<Recv>, trid: seq<bool>, maxRetries: int, o: Outcome, n: nat,
                            used: nat) {
    && used <= |rs|
    && match o
       case Invalid => maxRetries <= 0 && n == 0 && used == 0
       case SendFailed =>
         && Inconclusive(rs, used, trid) && n == CountMatches(rs, used, trid) + 1
         && n <= maxRetries && SendsOk(sends, n - 1) && !SendOk(sends, n - 1)
       case RecvFailed =>
         && Inconclusive(rs, used, trid) && n == CountMatches(rs, used, trid) + 1
         && n <= maxRetries && SendsOk(sends, n) && (used == |rs| || rs[used].Failed?)
       case TimedOut =>
         && Inconclusive(rs, used, trid) && n == CountMatches(rs, used, trid)
         && n == maxRetries && SendsOk(sends, n)
       case Answered(k) =>
         && used == k + 1 && Inconclusive(rs, k, trid) && Good(rs[k], trid)
         && n == CountMatches(rs, k, trid) + 1 && n <= maxRetries && SendsOk(sends, n)
  }

  /** One round of receiving: skip packets of other transactions. */
  method Await(rs: seq<Recv>, from: nat, trid: seq<bool>) returns (found: bool, used: nat)
    requires from <= |rs| && Inconclusive(rs, from, trid)
    requires forall i :: 0 <= i < |rs| && rs[i].Got? ==> |rs[i].mad| >= MAD_SIZE
    ensures from <= used <= |rs|
    ensures found ==> used > from && Matches(rs[used - 1], trid) && Inconclusive(rs, used - 1, trid)
    ensures found ==> CountMatches(rs, used - 1, trid) == CountMatches(rs, from, trid)
    ensures !found ==> Inconclusive(rs, used, trid) && (used == |rs| || rs[used].Failed?)
    ensures !found ==> CountMatches(rs, used, trid) == CountMatches(rs, from, trid)
  {
    used := from;
    while true
      invariant from <= used <= |rs| && Inconclusive(rs, used, trid)
      invariant CountMatches(rs, used, trid) == CountMatches(rs, from, trid)
      decreases |rs| - used
    {
      if used == |rs| || rs[used].Failed? {
        return false, used;
      }
      if LowTrid(rs[used].mad) == trid {
        return true, used + 1;
      }
      used := used + 1;
    }
  }

  /** A matching reception with a bad status uses up one try. */
  lemma UseUp(rs: seq<Recv>, trid: seq<bool>, used: nat)
    requires 0 < used <= |rs| && Inconclusive(rs, used - 1, trid) && Matches(rs[used - 1], trid)
             && !Good(rs[used - 1], trid)
    ensures Inconclusive(rs, used, trid) && CountMatches(rs, used, trid) == CountMatches(rs, used - 1, trid) + 1
  {
  }

  /** The loop of _do_madrpc for a given transaction ID. The sequences say what the send and
      receive calls will report; running out of receptions counts as a failed reception. */
  method Converse(trid: seq<bool>, maxRetries: nat, sends: seq<bool>, rs: seq<Recv>)
    returns (o: Outcome, n: nat, used: nat)
    requires maxRetries > 0
    requires forall i :: 0 <= i < |rs| && rs[i].Got? ==> |rs[i].mad| >= MAD_SIZE
    ensures Explained(sends, rs, trid, maxRetries, o, n, used)
  {
    n, used := 0, 0;
    while n < maxRetries
      invariant 0 <= n <= maxRetries && used <= |rs|
      invariant Inconclusive(rs, used, trid) && n == CountMatches(rs, used, trid) && SendsOk(sends, n)
    {
      n := n + 1;
      if !SendOk(sends, n - 1) {
        return SendFailed, n, used;
      }
      var found;
      found, used := Await(rs, used, trid);
      if !found {
        return RecvFailed, n, used;
      }
      if rs[used - 1].status == 0 || rs[used - 1].status == ENOMEM {
        return Answered(used - 1), n, used;
      }
      UseUp(rs, trid, used);
    }
    return TimedOut, n, used;
  }

  /** _do_madrpc. */
  method DoMadRpc(request: Packet, maxRetries: int, sends: seq<bool>, rs: seq<Recv>)
    returns (o: Outcome, n: nat, used: nat)
    requires |request| >= MAD_SIZE
    requires forall i :: 0 <= i < |rs| && rs[i].Got? ==> |rs[i].mad| >= MAD_SIZE
    ensures Explained(sends, rs, LowTrid(request), maxRetries, o, n, used)
  {
    if maxRetries <= 0 {
      return Invalid, 0, 0;
    }
    o, n, used := Converse(LowTrid(request), maxRetries, sends, rs);
  }

  lemma {:induction false} CountGrows(rs: seq<Recv>, trid: seq<bool>, i: nat, j: nat)
    requires i <= j <= |rs|
    ensures CountMatches(rs, i, trid) <= CountMatches(rs, j, trid)
    decreases j
  {
    if i < j {
      CountGrows(rs, trid, i, j - 1);
    }
  }

  /** The first reception that would answer the request. */
  ghost predicate FirstGood(rs: seq<Recv>, trid: seq<bool>, k: nat) {
    k < |rs| && Inconclusive(rs, k, trid) && Good(rs[k], trid)
  }

  /** The call is answered if and only if a good reception comes before any failed one and
      before the retries are used up, and every send up to then succeeds; and then it is
      answered by that one. */
  lemma AnsweredIff(sends: seq<bool>, rs: seq<Recv>, trid: seq<bool>, maxRetries: int, o: Outcome, n: nat, used: nat,
                    k: nat)
    requires Explained(sends, rs, trid, maxRetries, o, n, used)
    ensures o == Answered(k) <==>
            && FirstGood(rs, trid, k) && CountMatches(rs, k, trid) < maxRetries
            && SendsOk(sends, CountMatches(rs, k, trid) + 1)
  {
    if FirstGood(rs, trid, k) && CountMatches(rs, k, trid) < maxRetries {
      var u := if used <= k then used else k;
      CountGrows(rs, trid, u, k);
    }
  }
}
