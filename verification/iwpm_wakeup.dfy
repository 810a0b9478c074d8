/** The timer thread and the main thread around the request list: one mutex, one condition
    variable, and the `wake` flag, one instruction at a time. */
module IwpmWakeup {
  import opened IwpmTypes
  import opened IwpmRequests

  datatype Owner = Free | Timer | Main

  /** Where the timer thread is: what it does next. */
  datatype TimerPc =
    | LockOuter      // take the mutex at the top of the outer loop
    | ClearWake
    | TestEmpty      // list_empty under the mutex
    | Wait           // release the mutex and block, in one action
    | Blocked
    | Relock         // woken up, must take the mutex again
    | UnlockOuter
    | LockInner      // take the mutex in the inner loop
    | SetWake
    | DoSweep
    | UnlockInner
    | TestAgain      // list_empty without the mutex, after the sleep

  /** Where the main thread is. */
  datatype MainPc = Idle | Insert(r: MapRequest) | Notify | Unlock

  datatype State = State(reqs: seq<MapRequest>, wake: bool, mutex: Owner, signalled: bool,
                         timer: TimerPc, main: MainPc)

  datatype Action =
    | TimerMoves
    | Spurious                                     // a wait may return without a signal
    | MainLocks(r: MapRequest)
    | MainMoves
    | MainUpdates(handle: nat, addr: SockAddr, kinds: set<ReqKind>)  // under the mutex

  const START := State([], false, Free, false, LockOuter, Idle)

  predicate Enabled(s: State, a: Action) {
    match a
    case TimerMoves =>
      if s.timer.Blocked? then s.signalled
      else if s.timer.LockOuter? || s.timer.Relock? || s.timer.LockInner? then s.mutex == Free
      else true
    case Spurious => s.timer.Blocked?
    case MainLocks(_) => s.main.Idle? && s.mutex == Free
    case MainMoves => !s.main.Idle?
    case MainUpdates(_, _, _) => s.main.Idle? && s.mutex == Free
  }

  function TimerStep(s: State): State {
    match s.timer
    case LockOuter => s.(mutex := Timer, timer := ClearWake)
    case ClearWake => s.(wake := false, timer := TestEmpty)
    case TestEmpty => s.(timer := if s.reqs == [] then Wait else UnlockOuter)
    case Wait => s.(mutex := Free, timer := Blocked, signalled := false)
    case Blocked => s.(timer := Relock, signalled := false)
    case Relock => s.(mutex := Timer, timer := UnlockOuter)
    case UnlockOuter => s.(mutex := Free, timer := LockInner)
    case LockInner => s.(mutex := Timer, timer := SetWake)
    case SetWake => s.(wake := true, timer := DoSweep)
    case DoSweep => s.(reqs := Sweep(s.reqs), timer := UnlockInner)
    case UnlockInner => s.(mutex := Free, timer := TestAgain)
    case TestAgain => s.(timer := if s.reqs == [] then LockOuter else LockInner)
  }

  function MainStep(s: State): State {
    match s.main
    case Idle => s
    case Insert(r) => s.(reqs := [r] + s.reqs, main := Notify)
    case Notify => s.(signalled := s.signalled || (!s.wake && s.timer.Blocked?), main := Unlock)
    case Unlock => s.(mutex := Free, main := Idle)
  }

  function Do(s: State, a: Action): State {
    match a
    case TimerMoves => TimerStep(s)
    case Spurious => s.(timer := Relock)
    case MainLocks(r) => s.(mutex := Main, main := Insert(r))
    case MainMoves => MainStep(s)
    case MainUpdates(h, addr, kinds) => s.(reqs := UpdateReq(s.reqs, h, addr, kinds))
  }

  ghost predicate IsRun(ss: seq<State>, acts: seq<Action>) {
    && |ss| == |acts| + 1 && ss[0] == START
    && forall i :: 0 <= i < |acts| ==> Enabled(ss[i], acts[i]) && ss[i + 1] == Do(ss[i], acts[i])
  }

  predicate TimerHolds(pc: TimerPc) {
    pc.ClearWake? || pc.TestEmpty? || pc.Wait? || pc.UnlockOuter? || pc.SetWake? || pc.DoSweep? || pc.UnlockInner?
  }

  /** The timer thread is blocked and nothing is under way to wake it. */
  predicate Asleep(s: State) {
    s.timer.Blocked? && !s.signalled && !(s.main.Notify? && !s.wake)
  }

  ghost predicate WakeInv(s: State) {
    && (s.mutex == Timer <==> TimerHolds(s.timer))
    && (s.mutex == Main <==> !s.main.Idle?)
    && (s.timer.TestEmpty? || s.timer.Wait? || s.timer.Blocked? ==> !s.wake)
    && (s.timer.Wait? ==> s.reqs == [])
    && (Asleep(s) ==> s.reqs == [])
  }

  lemma WakeStep(s: State, a: Action)
    requires WakeInv(s) && Enabled(s, a)
    ensures WakeInv(Do(s, a))
  {
  }

  lemma {:induction false} WakeReachable(ss: seq<State>, acts: seq<Action>, n: nat)
    requires IsRun(ss, acts) && n < |ss|
    ensures WakeInv(ss[n])
  {
    if n > 0 {
      WakeReachable(ss, acts, n - 1);
      WakeStep(ss[n - 1], acts[n - 1]);
    }
  }

  /** No lost wakeup: in every interleaving, a timer thread that is blocked has an empty
      list to wait for, or has been signalled, or is about to be by the thread that holds
      the mutex. And the two threads are never in the critical section together. */
  lemma NoLostWakeup(ss: seq<State>, acts: seq<Action>, n: nat)
    requires IsRun(ss, acts) && n < |ss|
    ensures var s := ss[n];
            && (s.timer.Blocked? ==> s.reqs == [] || s.signalled || (s.mutex == Main && s.main.Notify? && !s.wake))
            && !(TimerHolds(s.timer) && !s.main.Idle?)
  {
    WakeReachable(ss, acts, n);
  }

  /** Moves of the timer thread before its next sweep, while the list is not empty. */
  function Distance(pc: TimerPc): nat {
    match pc
    case DoSweep => 0
    case SetWake => 1
    case LockInner => 2
    case UnlockOuter => 3
    case Relock => 4
    case Blocked => 5
    case Wait => 6
    case TestEmpty => 7
    case ClearWake => 8
    case LockOuter => 9
    case TestAgain => 10
    case UnlockInner => 11
  }

  /** The timer thread runs on its own, with no other thread taking part. */
  function Alone(s: State, n: nat): State
    decreases n
  {
    if n == 0 then s else Alone(TimerStep(s), n - 1)
  }

  /** Every state with a request on the list and the main thread outside of its
      critical section leads to a sweep of exactly that list by at most eleven moves of the
      timer thread, each of which is possible, without help from a spurious wakeup. */
  lemma {:induction false} SweepComes(s: State) returns (n: nat)
    requires WakeInv(s) && s.main.Idle? && s.reqs != []
    ensures n <= Distance(s.timer) && Alone(s, n).timer.DoSweep? && Alone(s, n).reqs == s.reqs
    ensures TimerStep(Alone(s, n)).reqs == Sweep(s.reqs)
    ensures forall k :: 0 <= k < n ==> Enabled(Alone(s, k), TimerMoves)
    decreases Distance(s.timer)
  {
    if s.timer.DoSweep? {
      n := 0;
    } else {
      WakeStep(s, TimerMoves);
      var m := SweepComes(TimerStep(s));
      n := m + 1;
      forall k | 0 <= k < n
        ensures Enabled(Alone(s, k), TimerMoves)
      {
        if k > 0 { assert Alone(s, k) == Alone(TimerStep(s), k - 1); }
      }
    }
  }

  // ----- with the main thread taking part

  predicate ByTimer(a: Action) {
    a.TimerMoves? || a.Spurious?
  }

  predicate Sweeps(s: State, a: Action) {
    a.TimerMoves? && s.timer.DoSweep?
  }

  /** How many of the actions from `i` up to `j` are the timer thread's. */
  function TimerCount(acts: seq<Action>, i: nat, j: nat): nat
    requires i <= j <= |acts|
    decreases j
  {
    if i == j then 0 else TimerCount(acts, i, j - 1) + if ByTimer(acts[j - 1]) then 1 else 0
  }

  /** All requests of `was` are still listed in `now`, behind what was posted since. */
  ghost predicate StillListed(was: seq<MapRequest>, now: seq<MapRequest>) {
    |was| <= |now| && forall i :: 0 <= i < |was| ==> Like(was[i], now[|now| - |was| + i])
  }

  /** While there are requests, every move of the timer thread brings the sweep nearer, and
      no action of the main thread puts it off or takes a request away. */
  lemma Nearer(s: State, a: Action)
    requires WakeInv(s) && Enabled(s, a) && s.reqs != [] && !Sweeps(s, a)
    ensures StillListed(s.reqs, Do(s, a).reqs)
    ensures Distance(Do(s, a).timer) + (if ByTimer(a) then 1 else 0) <= Distance(s.timer)
  {
    NoneLost(s, a);
  }

  lemma NoneLost(s: State, a: Action)
    requires Enabled(s, a) && !Sweeps(s, a)
    ensures StillListed(s.reqs, Do(s, a).reqs)
  {
    if a.MainUpdates? {
      UpdatedIsListed(s.reqs, a.handle, a.addr, a.kinds);
    } else if a.MainMoves? && s.main.Insert? {
      PostedIsListed(s.reqs, s.main.r);
    } else {
      SameIsListed(s.reqs);
    }
  }

  lemma SameIsListed(reqs: seq<MapRequest>)
    ensures StillListed(reqs, reqs)
  {
  }

  lemma PostedIsListed(reqs: seq<MapRequest>, r: MapRequest)
    ensures StillListed(reqs, [r] + reqs)
  {
  }

  lemma UpdatedIsListed(reqs: seq<MapRequest>, handle: nat, addr: SockAddr, kinds: set<ReqKind>)
    ensures StillListed(reqs, UpdateReq(reqs, handle, addr, kinds))
  {
    match FindReq(reqs, handle, addr, kinds)
    case None => SameIsListed(reqs);
    case Some(k) => TouchedIsListed(reqs, k);
  }

  lemma TouchedIsListed(reqs: seq<MapRequest>, k: nat)
    requires k < |reqs|
    ensures StillListed(reqs, reqs[k := Touch(reqs[k])])
  {
  }

  lemma StillListedJoins(a: seq<MapRequest>, b: seq<MapRequest>, c: seq<MapRequest>)
    requires StillListed(a, b) && StillListed(b, c)
    ensures StillListed(a, c)
  {
    forall i | 0 <= i < |a|
      ensures Like(a[i], c[|c| - |a| + i])
    {
      assert Like(b[|b| - |a| + i], c[|c| - |b| + (|b| - |a| + i)]);
    }
  }

  lemma {:induction false} NearerInRun(ss: seq<State>, acts: seq<Action>, i: nat, j: nat)
    requires IsRun(ss, acts) && i <= j < |ss| && ss[i].reqs != []
    requires forall k :: i <= k < j ==> !Sweeps(ss[k], acts[k])
    ensures StillListed(ss[i].reqs, ss[j].reqs)
    ensures TimerCount(acts, i, j) + Distance(ss[j].timer) <= Distance(ss[i].timer)
    decreases j
  {
    if i < j {
      var s, a := ss[j - 1], acts[j - 1];
      NearerInRun(ss, acts, i, j - 1);
      WakeReachable(ss, acts, j - 1);
      assert Enabled(s, a) && ss[j] == Do(s, a) && !Sweeps(s, a);
      Nearer(s, a);
      StillListedJoins(ss[i].reqs, s.reqs, ss[j].reqs);
    }
  }

  /** Posted requests are swept. In every run, whatever the main thread does in between, the
      timer thread makes at most eleven moves before it sweeps a list on which all the
      requests still are; and until then it can move, unless the main thread is in its
      critical section, out of which nothing keeps it. */
  lemma PostedIsSwept(ss: seq<State>, acts: seq<Action>, i: nat, j: nat)
    requires IsRun(ss, acts) && i <= j < |ss| && ss[i].reqs != []
    requires forall k :: i <= k < j ==> !Sweeps(ss[k], acts[k])
    ensures TimerCount(acts, i, j) <= 11 && StillListed(ss[i].reqs, ss[j].reqs)
    ensures TimerCount(acts, i, j) == 11 ==> ss[j].timer.DoSweep? && Do(ss[j], TimerMoves).reqs == Sweep(ss[j].reqs)
    ensures Enabled(ss[j], TimerMoves) || (!ss[j].main.Idle? && Enabled(ss[j], MainMoves))
  {
    NearerInRun(ss, acts, i, j);
    WakeReachable(ss, acts, j);
  }

  // ----- posting is atomic

  /** The main thread has begun to post `r` to the list `was` and is not done yet. */
  ghost predicate InPost(s: State, r: MapRequest, was: seq<MapRequest>) {
    && !s.main.Idle? && (s.main.Insert? ==> s.main.r == r && s.reqs == was)
    && (!s.main.Insert? ==> s.reqs == [r] + was)
  }

  lemma PostStep(s: State, a: Action, r: MapRequest, was: seq<MapRequest>)
    requires WakeInv(s) && Enabled(s, a) && InPost(s, r, was)
    ensures InPost(Do(s, a), r, was) || (Do(s, a).main.Idle? && Do(s, a).mutex == Free && Do(s, a).reqs == [r] + was)
  {
  }

  lemma {:induction false} InPostUntil(ss: seq<State>, acts: seq<Action>, i: nat, j: nat, r: MapRequest)
    requires IsRun(ss, acts) && i < j < |ss| && acts[i] == MainLocks(r)
    requires forall k :: i < k < j ==> !ss[k].main.Idle?
    ensures InPost(ss[j], r, ss[i].reqs) || (ss[j].main.Idle? && ss[j].reqs == [r] + ss[i].reqs)
    decreases j
  {
    WakeReachable(ss, acts, j - 1);
    if i + 1 < j {
      InPostUntil(ss, acts, i, j - 1, r);
      PostStep(ss[j - 1], acts[j - 1], r, ss[i].reqs);
    }
  }

  /** In every run, when the main thread has left its critical section, the list is what it
      was before, with the new request in front; no sweep has come in between. */
  lemma PostIsAtomic(ss: seq<State>, acts: seq<Action>, i: nat, j: nat, r: MapRequest)
    requires IsRun(ss, acts) && i < j < |ss| && acts[i] == MainLocks(r)
    requires (forall k :: i < k < j ==> !ss[k].main.Idle?) && ss[j].main.Idle?
    ensures ss[j].reqs == [r] + ss[i].reqs
  {
    InPostUntil(ss, acts, i, j, r);
  }
}
