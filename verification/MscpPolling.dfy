/** The polling thread of the MSCP server against Reset and InitPolling
    (mscp_server.cpp): one state variable, one mutex, one condition variable
    shared by the polling thread and the resetting thread.

    A step is one region under the mutex, one test of `_pollState` outside it,
    or one exchange with the port.  Commands carry the number of resets that had
    returned when they were fetched. */
module MscpPolling {

  datatype PollingState = Wait | Run | InitRestart | InitRun

  datatype Poller =
    | Top                    // about to lock the mutex and test the state
    | Blocked                // in pthread_cond_wait
    | Scan                   // about to test the state and read the ring
    | Fetching               // in GetNextCommand
    | Exec                   // about to test the queue and the state
    | Posting(epoch: nat)    // executing and posting one command
    | Bottom                 // about to lock the mutex and go back to sleep

  datatype Resetter =
    | Idle
    | Waiting                // in pthread_cond_wait
    | Testing                // woken, about to test the state again
    | Leaving                // out of the mutex, releasing the drives

  /** `pending`: InitPolling was called since the last scan of the ring began. */
  datatype State = State(poll: PollingState, pc: Poller, rs: Resetter,
                         queue: seq<nat>, epoch: nat, pending: bool)

  datatype Event =
    | PollerTop | PollerTestScan | Fetch | FetchNone | FetchError
    | PollerTestExec | Post | PollerBottom
    | InitPolling(wakeReset: bool)  // whom the signal wakes if both wait
    | ResetEnter | ResetTest | ResetReturn
    | SpuriousPoller | SpuriousReset

  predicate IsPollerStep(e: Event) {
    e.PollerTop? || e.PollerTestScan? || e.Fetch? || e.FetchNone? || e.FetchError?
    || e.PollerTestExec? || e.Post? || e.PollerBottom?
  }

  function Initial(): State { State(Wait, Top, Idle, [], 0, false) }

  /** The state a thread leaves behind when it passes the test at the top. */
  function AtTop(p: PollingState): PollingState {
    if p == InitRun then Run else p
  }

  /** The state the polling thread leaves behind when it has worked off its queue. */
  function AtBottom(p: PollingState): PollingState {
    if p == InitRestart then Wait else if p == InitRun then Run else Wait
  }

  /** InitPolling is called by a read of IP while the port runs; the guard is
      that this does not happen during a Reset. */
  predicate Enabled(s: State, e: Event, guarded: bool) {
    match e
    case PollerTop => s.pc == Top
    case PollerTestScan => s.pc == Scan
    case Fetch => s.pc == Fetching
    case FetchNone => s.pc == Fetching
    case FetchError => s.pc == Fetching
    case PollerTestExec => s.pc == Exec
    case Post => s.pc.Posting?
    case PollerBottom => s.pc == Bottom
    case InitPolling(_) => guarded ==> s.rs == Idle
    case ResetEnter => s.rs == Idle
    case ResetTest => s.rs == Testing
    case ResetReturn => s.rs == Leaving
    case SpuriousPoller => s.pc == Blocked
    case SpuriousReset => s.rs == Waiting
  }

  /** pthread_cond_signal: wakes one of the waiting threads, if any waits. */
  function Signal(s: State, wakeReset: bool): State {
    if s.pc == Blocked && !(wakeReset && s.rs == Waiting) then s.(pc := Top)
    else if s.rs == Waiting then s.(rs := Testing)
    else s
  }

  function Step(s: State, e: Event): State
    requires Enabled(s, e, false)
  {
    match e
    case PollerTop =>
      if s.poll == Wait then s.(pc := Blocked)
      else s.(poll := AtTop(s.poll), pc := Scan, queue := [], pending := false)
    case PollerTestScan => s.(pc := if s.poll != InitRestart then Fetching else Exec)
    case Fetch => s.(pc := Scan, queue := s.queue + [s.epoch])
    case FetchNone => s.(pc := Exec)
    case FetchError => s.(pc := Exec, queue := [])
    case PollerTestExec =>
      if s.queue != [] && s.poll != InitRestart
      then s.(pc := Posting(s.queue[0]), queue := s.queue[1..])
      else s.(pc := Bottom)
    case Post => s.(pc := Exec)
    case PollerBottom =>
      var s' := s.(poll := AtBottom(s.poll), pc := Top, queue := []);
      if s.poll == InitRestart then Signal(s', true) else s'
    case InitPolling(wakeReset) =>
      Signal(s.(poll := InitRun, pending := true), wakeReset)
    case ResetEnter =>
      if s.poll != Wait then s.(poll := InitRestart, rs := Waiting, pending := false)
      else s.(rs := Leaving, pending := false)
    case ResetTest => s.(rs := if s.poll != Wait then Waiting else Leaving)
    case ResetReturn => s.(rs := Idle, epoch := s.epoch + 1)
    case SpuriousPoller => s.(pc := Top)
    case SpuriousReset => s.(rs := Testing)
  }

  /** es is a possible run from s. */
  ghost predicate Possible(s: State, es: seq<Event>, guarded: bool)
    decreases |es|
  {
    es != [] ==> Enabled(s, es[0], guarded) && Possible(Step(s, es[0]), es[1..], guarded)
  }

  ghost function After(s: State, es: seq<Event>, guarded: bool): State
    requires Possible(s, es, guarded)
    decreases |es|
  {
    if es == [] then s else After(Step(s, es[0]), es[1..], guarded)
  }

  // ---- what every guarded step keeps --------------------------------------

  ghost predicate Inv(s: State) {
    // the poller sleeps, or is about to, whenever the state says Wait
    && (s.poll == Wait ==> s.pc == Top || s.pc == Blocked)
    && (s.pc == Blocked ==> s.poll == Wait)
    // a Reset in progress owns the state variable
    && (s.rs == Waiting ==> s.poll == InitRestart)
    && (s.rs == Testing ==> s.poll == InitRestart || s.poll == Wait)
    && (s.rs == Leaving ==> s.poll == Wait)
    && (s.poll == InitRestart ==> s.rs == Waiting || s.rs == Testing)
    // commands at hand are of the present epoch
    && (s.pc == Top || s.pc == Blocked ==> s.queue == [])
    && (forall i | 0 <= i < |s.queue| :: s.queue[i] == s.epoch)
    && (s.pc.Posting? ==> s.pc.epoch == s.epoch)
    // a request that no scan has answered yet keeps the poller going
    && (s.pending ==> s.poll == InitRun || (s.poll == Run && s.pc == Top))
  }

  lemma StepKeepsInv(s: State, e: Event)
    requires Inv(s) && Enabled(s, e, true)
    ensures Inv(Step(s, e))
  {
  }

  lemma {:induction false} ReachableInv(s: State, es: seq<Event>)
    requires Inv(s) && Possible(s, es, true)
    ensures Inv(After(s, es, true))
    decreases |es|
  {
    if es != [] {
      StepKeepsInv(s, es[0]);
      ReachableInv(Step(s, es[0]), es[1..]);
    }
  }

  /** No poll request is lost: in every run the thread is never blocked, nor
      about to block, while a request has not led to a scan of the ring. */
  lemma NoRequestLost(es: seq<Event>)
    requires Possible(Initial(), es, true)
    ensures var s := After(Initial(), es, true);
            s.pending ==> s.pc != Blocked && s.poll != Wait
  {
    ReachableInv(Initial(), es);
  }

  /** Whenever a response is posted, as many resets have returned as when its
      command was fetched. */
  lemma NoStaleResponse(es: seq<Event>)
    requires Possible(Initial(), es, true)
    ensures var s := After(Initial(), es, true);
            Enabled(s, Post, true) ==> s.pc.epoch == s.epoch && s.rs != Leaving
  {
    ReachableInv(Initial(), es);
  }

  // ---- a waiting Reset is released ----------------------------------------

  /** Steps of its own the poller can still take before it releases a Reset. */
  function Rank(pc: Poller): nat {
    match pc
    case Top => 4
    case Blocked => 4
    case Fetching => 4
    case Scan => 3
    case Posting(_) => 3
    case Exec => 2
    case Bottom => 1
  }

  lemma PollerApproachesBottom(s: State, e: Event)
    requires Inv(s) && s.poll == InitRestart && Enabled(s, e, true)
    ensures var s' := Step(s, e);
            if IsPollerStep(e) then s'.poll == Wait || (s'.poll == InitRestart && Rank(s'.pc) < Rank(s.pc))
            else s'.poll == InitRestart && s'.pc == s.pc
    ensures e == PollerBottom ==> Step(s, e).rs == Testing
  {
  }

  function PollerSteps(es: seq<Event>): nat {
    if es == [] then 0 else (if IsPollerStep(es[0]) then 1 else 0) + PollerSteps(es[1..])
  }

  /** A waiting Reset never faces a blocked poller: the poller can always take a
      step, and four of them, whatever else happens in between, set the state
      the Reset waits for. */
  lemma {:induction false} ResetIsReleased(s: State, es: seq<Event>) returns (k: nat)
    requires Inv(s) && s.poll == InitRestart
    requires Possible(s, es, true) && PollerSteps(es) >= Rank(s.pc)
    ensures s.pc != Blocked
    ensures k <= |es| && Possible(s, es[..k], true) && After(s, es[..k], true).poll == Wait
    ensures Rank(s.pc) <= 4
    decreases |es|
  {
    var s' := Step(s, es[0]);
    PollerApproachesBottom(s, es[0]);
    StepKeepsInv(s, es[0]);
    if s'.poll == Wait {
      k := 1;
      assert es[..1] == [es[0]];
      assert Possible(s', es[..1][1..], true);
    } else {
      var k' := ResetIsReleased(s', es[1..]);
      k := k' + 1;
      assert es[..k][1..] == es[1..][..k'];
    }
  }

  // ---- the guard is needed ------------------------------------------------

  /** Only a spurious wakeup or another request could move either thread. */
  ghost predicate Hangs(s: State) {
    s.rs == Waiting && s.pc == Blocked && s.poll == Wait
  }

  predicate AwaitsPoller(rs: Resetter) { rs == Waiting || rs == Testing }

  /** A run with requests at any time but while Reset waits or tests. */
  ghost predicate Spares(s: State, es: seq<Event>)
    decreases |es|
  {
    es != [] ==>
      && Enabled(s, es[0], false) && (es[0].InitPolling? ==> !AwaitsPoller(s.rs))
      && Spares(Step(s, es[0]), es[1..])
  }

  lemma {:induction false} SparesIsPossible(s: State, es: seq<Event>)
    requires Spares(s, es)
    ensures Possible(s, es, false)
    decreases |es|
  {
    if es != [] {
      SparesIsPossible(Step(s, es[0]), es[1..]);
    }
  }

  /** What such runs keep: less than Inv, as a Reset that is leaving may find that a
      request came. */
  ghost predicate Owned(s: State) {
    && (s.poll == Wait ==> s.pc == Top || s.pc == Blocked)
    && (s.pc == Blocked ==> s.poll == Wait)
    && (s.rs == Waiting ==> s.poll == InitRestart)
    && (s.rs == Testing ==> s.poll == InitRestart || s.poll == Wait)
    && (s.poll == InitRestart ==> AwaitsPoller(s.rs))
  }

  lemma StepKeepsOwned(s: State, e: Event)
    requires Owned(s) && Enabled(s, e, false) && (e.InitPolling? ==> !AwaitsPoller(s.rs))
    ensures Owned(Step(s, e))
  {
  }

  /** No run hangs in which requests spare a Reset that waits or tests. */
  lemma {:induction false} NeverHangs(s: State, es: seq<Event>)
    requires Owned(s) && Spares(s, es)
    ensures Possible(s, es, false)
    ensures Owned(After(s, es, false)) && !Hangs(After(s, es, false))
    decreases |es|
  {
    SparesIsPossible(s, es);
    if es != [] {
      StepKeepsOwned(s, es[0]);
      NeverHangs(Step(s, es[0]), es[1..]);
    }
  }

  function Phase(p: PollingState): nat { if p == InitRun then 1 else 0 }

  function Place(pc: Poller): nat {
    match pc
    case Top => 5
    case Blocked => 5
    case Scan => 4
    case Fetching => 3
    case Exec => 2
    case Posting(_) => 2
    case Bottom => 1
  }

  /** Where the poller goes next, if it finds the ring empty. */
  function OwnStep(pc: Poller): Event
    requires pc != Blocked
  {
    match pc
    case Top => PollerTop
    case Scan => PollerTestScan
    case Fetching => FetchNone
    case Exec => PollerTestExec
    case Posting(_) => Post
    case Bottom => PollerBottom
  }

  /** The poller works off its queue, scans an empty ring and goes to sleep; a Reset
      that waits is not told. */
  lemma {:induction false} PollerFallsAsleep(s: State) returns (es: seq<Event>)
    requires s.rs == Waiting && s.pc != Blocked && s.poll in {Run, InitRun}
    ensures Spares(s, es) && Possible(s, es, false) && Hangs(After(s, es, false))
    decreases Phase(s.poll), Place(s.pc), 2 * |s.queue| + if s.pc.Posting? then 1 else 0
  {
    var e := OwnStep(s.pc);
    var t := Step(s, e);
    if t.poll == Wait {
      assert Hangs(Step(t, PollerTop));
      es := SparingCons(t, PollerTop, []);
    } else {
      es := PollerFallsAsleep(t);
    }
    es := SparingCons(s, e, es);
  }

  /** A request can lead to a hang without any further request of that kind. */
  ghost predicate CanHang(s: State, request: Event)
    requires request.InitPolling?
  {
    var t := Step(s, request);
    exists es :: Spares(t, es) && Possible(t, es, false) && Hangs(After(t, es, false))
  }

  /** Exactly a request that comes while Reset waits or tests can make Reset and poller
      wait for each other. */
  lemma RequestCanHang(s: State, wakeReset: bool)
    requires Owned(s)
    ensures CanHang(s, InitPolling(wakeReset)) <==> AwaitsPoller(s.rs)
  {
    var t := Step(s, InitPolling(wakeReset));
    if AwaitsPoller(s.rs) {
      assert t.rs == Testing;
      var es := PollerFallsAsleep(Step(t, ResetTest));
      es := SparingCons(t, ResetTest, es);
    } else {
      StepKeepsOwned(s, InitPolling(wakeReset));
      forall es | Spares(t, es) ensures Possible(t, es, false) && !Hangs(After(t, es, false)) {
        NeverHangs(t, es);
      }
    }
  }

  /** From the start: a request while Reset waits hangs the two. */
  lemma ResetHangsWithoutGuard()
    ensures exists es :: Possible(Initial(), es, false) && Hangs(After(Initial(), es, false))
  {
    var s := Initial();
    var s1 := Step(s, InitPolling(false));
    var s2 := Step(s1, PollerTop);
    var s3 := Step(s2, ResetEnter);
    RequestCanHang(s3, true);
    var s4 := Step(s3, InitPolling(true));
    var es :| Spares(s4, es) && Possible(s4, es, false) && Hangs(After(s4, es, false));
    es := Cons(s3, InitPolling(true), es);
    es := Cons(s2, ResetEnter, es);
    es := Cons(s1, PollerTop, es);
    es := Cons(s, InitPolling(false), es);
  }

  lemma Cons(s: State, e: Event, es: seq<Event>) returns (all: seq<Event>)
    requires Enabled(s, e, false) && Possible(Step(s, e), es, false)
    ensures Possible(s, all, false) && After(s, all, false) == After(Step(s, e), es, false)
    ensures all != [] && all[0] == e && all[1..] == es
  {
    all := [e] + es;
    assert all[1..] == es;
  }

  lemma SparingCons(s: State, e: Event, es: seq<Event>) returns (all: seq<Event>)
    requires Enabled(s, e, false) && !e.InitPolling? && Spares(Step(s, e), es) && Possible(Step(s, e), es, false)
    ensures Spares(s, all) && Possible(s, all, false)
    ensures After(s, all, false) == After(Step(s, e), es, false)
  {
    all := Cons(s, e, es);
  }
}
