/** Shutdown: which callers can still be inside, and that the hang, the leak and the late caller are reached. */
module QueueShutdown {
  import opened Bytes
  import opened SafeQueue
  import opened QueueSafety
  import opened QueueBroadcast
  import opened QueueDrain
  import opened QueueList

  /** `usedNum` is exact at every point of every run, counting the calls that left early for ever. */
  lemma UsedNumCounts(s: State)
    requires Reachable(s)
    ensures s.usedNum == Count(s.t, Registered) + s.leaked
  {
    MemAlways(s);
  }

  // ---- Late callers ---------------------------------------------------------------------------------------

  /** Not in a call, or at the first look at `destroyed`. */
  predicate OutsideCall(p: PC) {
    p.Idle? || p.Work? || p.Check?
  }

  /** Past the first look at `destroyed` and about to ask for the counter's mutex. */
  predicate Late(p: PC) {
    p.LockNum?
  }

  /** The flag is set and no caller is late. */
  ghost predicate Prompt(s: State) {
    && s.destroyed && (forall i | 0 <= i < |s.t| :: !Late(s.t[i]))
    && (LoopLeft(s.x) ==> forall i | 0 <= i < |s.t| :: OutsideCall(s.t[i]))
  }

  lemma PromptUpdate(s: State, s': State, i: nat, p: PC)
    requires Prompt(s) && i < |s.t| && s'.t == s.t[i := p] && s'.destroyed && !Late(p)
    requires LoopLeft(s'.x) == LoopLeft(s.x) && (OutsideCall(s.t[i]) ==> OutsideCall(p))
    ensures Prompt(s')
  {
    hide Late, OutsideCall;
  }

  lemma PromptX(s: State)
    requires Prompt(s) && MemOk(s) && Can(s, XStep)
    ensures Prompt(DoX(s))
  {
    var s' := DoX(s);
    if s.x.XTest? && s.usedNum <= 0 {
      CountZero(s.t, Registered);
      hide Count, ListOk, OwnOk, Shut;
      forall i | 0 <= i < |s.t| ensures OutsideCall(s.t[i]) {
        assert !Registered(s.t[i]) && !HoldsNum(s.t[i]) && !Late(s.t[i]);
      }
    } else {
      hide MemOk;
      assert forall i | 0 <= i < |s.t| :: !Late(s.t[i]);
    }
  }

  lemma PromptEnque(s: State, i: nat, n: Ptr, w: nat)
    requires Prompt(s) && Can(s, Step(i, n, w)) && InEnque(s.t[i])
    ensures Prompt(DoEnque(s, i, n, w))
  {
    var s' := DoEnque(s, i, n, w);
    assert !LoopLeft(s.x) && !OutsideCall(s.t[i]);
    hide Prompt;
    if s.t[i].Signal? {
      var s1 := s.(t := s.t[i := LockOut(Void)]);
      PromptUpdate(s, s1, i, LockOut(Void));
      if Sleeps(s, w) {
        PromptUpdate(s1, s', w, Woken);
      }
    } else {
      PromptUpdate(s, s', i, s'.t[i]);
    }
  }

  lemma PromptDeque(s: State, i: nat)
    requires Prompt(s) && Can(s, Step(i, 0, 0)) && InDeque(s.t[i])
    ensures Prompt(DoDeque(s, i))
  {
    assert s.destroyed;
    hide Prompt;
    PromptUpdate(s, DoDeque(s, i), i, DoDeque(s, i).t[i]);
  }

  lemma PromptBoth(s: State, i: nat)
    requires Prompt(s) && Can(s, Step(i, 0, 0)) && !InEnque(s.t[i]) && !InDeque(s.t[i])
    ensures Prompt(DoBoth(s, i))
  {
    assert s.destroyed && !Late(s.t[i]);
    hide Prompt;
    PromptUpdate(s, DoBoth(s, i), i, DoBoth(s, i).t[i]);
  }

  lemma PromptStep(s: State, a: Action)
    requires Prompt(s) && MemOk(s) && Can(s, a)
    ensures Prompt(Do(s, a))
  {
    assert s.destroyed;
    hide DoBoth, DoEnque, DoDeque, DoX, Prompt, MemOk;
    match a
    case Step(i, n, w) =>
      if InEnque(s.t[i]) {
        PromptEnque(s, i, n, w);
      } else if InDeque(s.t[i]) {
        PromptDeque(s, i);
      } else {
        PromptBoth(s, i);
      }
    case XStep => PromptX(s);
    case Start(i, c) => PromptUpdate(s, Do(s, a), i, Check(c));
    case Spurious(i) => PromptUpdate(s, Do(s, a), i, Woken);
    case XSpurious => PromptAwake(s);
  }

  lemma PromptAwake(s: State)
    requires Prompt(s) && s.x.XAsleep?
    ensures Prompt(s.(x := XWoken))
  {
  }

  lemma {:induction false} PromptRuns(s: State, acts: seq<Action>, s': State)
    requires Prompt(s) && MemOk(s) && Runs(s, acts, s')
    ensures Prompt(s')
    decreases |acts|
  {
    hide MemOk, Prompt, Do;
    if acts != [] {
      MemStep(s, acts[0]);
      PromptStep(s, acts[0]);
      PromptRuns(Do(s, acts[0]), acts[1..], s');
    }
  }

  /** If no caller is between its first look at `destroyed` and its registration when SafeDestroy sets the flag,
      then from the moment SafeDestroy sees `usedNum` at zero no caller is inside the queue, so none uses a
      mutex or a node that is being destroyed. */
  lemma NobodyInside(s: State, acts: seq<Action>, s': State, i: nat)
    requires Reachable(s) && s.x.NotYet? && forall j | 0 <= j < |s.t| :: !Late(s.t[j])
    requires Runs(Do(s, XStep), acts, s') && LoopLeft(s'.x) && i < |s'.t|
    ensures OutsideCall(s'.t[i])
  {
    MemAlways(s);
    MemStep(s, XStep);
    hide MemOk;
    assert Prompt(Do(s, XStep));
    PromptRuns(Do(s, XStep), acts, s');
  }

  /** Some continuation of s, with unasked wake-ups only if `aided`, lets SafeDestroy return, with a caller inside the
      queue afterwards. */
  ghost predicate MayBeInside(s: State, aided: bool) {
    exists acts, s', i: nat ::
      Runs(s, acts, s') && (aided || Unaided(acts)) && s'.x.Gone? && i < |s'.t| && !OutsideCall(s'.t[i])
  }

  /** A caller can be inside a queue that has been destroyed, with its mutexes, exactly when SafeDestroy can return at
      all and a caller is between its first look at the flag and the counter's mutex when the flag is set. */
  lemma InsideExactly(s: State, aided: bool)
    requires Reachable(s) && s.x.NotYet?
    ensures MayBeInside(Do(s, XStep), aided) <==> NoLeak(s) && exists j :: 0 <= j < |s.t| && Late(s.t[j])
  {
    FlagSet(s);
    var s1 := Do(s, XStep);
    hide Reachable, Do, NoLeak, MayBeInside, MayReturn;
    DestroyReturnsExactly(s, aided);
    if exists j :: 0 <= j < |s.t| && Late(s.t[j]) {
      if NoLeak(s) {
        var j :| 0 <= j < |s.t| && Late(s.t[j]);
        StaysInside(s1, j, aided);
      } else {
        NotInsideWithout(s1, aided);
      }
    } else {
      NobodyEverInside(s, aided);
    }
  }

  lemma StaysInside(s: State, j: nat, aided: bool)
    requires Reachable(s) && s.destroyed && s.x.Broadcast? && NoLeak(s) && j < |s.t| && Late(s.t[j])
    ensures MayBeInside(s, aided)
  {
    AllAlways(s);
    Drain(s, j);
    hide Runs;
    var acts, s' :| Runs(s, acts, s') && Unaided(acts) && s'.x.Gone? && Keeps(s, s', j);
    assert !OutsideCall(s'.t[j]);
  }

  lemma NotInsideWithout(s: State, aided: bool)
    requires !CanReturn(s, aided)
    ensures !MayBeInside(s, aided)
  {
    hide Runs;
  }

  lemma NobodyEverInside(s: State, aided: bool)
    requires Reachable(s) && s.x.NotYet? && forall j | 0 <= j < |s.t| :: !Late(s.t[j])
    ensures !MayBeInside(Do(s, XStep), aided)
  {
    hide Reachable, Runs, Do, OutsideCall, Late;
    forall acts, s', i: nat | Runs(Do(s, XStep), acts, s') && s'.x.Gone? && i < |s'.t| ensures OutsideCall(s'.t[i]) {
      NobodyInside(s, acts, s', i);
    }
  }

  // ---- The hang ---------------------------------------------------------------------------------------------

  /** SafeDestroy waits for the counter, worker w for an item, and every other thread is outside its calls. */
  ghost predicate Stuck(s: State, w: nat) {
    && s.destroyed && s.x.XAsleep? && Sleeps(s, w)
    && forall i | 0 <= i < |s.t| && i != w :: OutsideCall(s.t[i])
  }

  /** Nothing but an unasked wake-up gets them out of there. */
  lemma {:induction false} StuckForever(s: State, w: nat, acts: seq<Action>, s': State)
    requires Stuck(s, w) && Runs(s, acts, s') && Unaided(acts)
    ensures Stuck(s', w)
    decreases |acts|
  {
    if acts != [] {
      assert acts[0] in acts && forall a | a in acts[1..] :: a in acts;
      StuckStep(s, w, acts[0]);
      hide Stuck, Do;
      StuckForever(Do(s, acts[0]), w, acts[1..], s');
    }
  }

  lemma StuckStep(s: State, w: nat, a: Action)
    requires Stuck(s, w) && Can(s, a) && !a.Spurious? && !a.XSpurious?
    ensures Stuck(Do(s, a), w)
  {
  }

  // ---- Both can happen ----------------------------------------------------------------------------------------

  lemma Reached(s: State, a: Action) returns (s': State)
    requires Reachable(s) && Can(s, a)
    ensures Reachable(s') && s' == Do(s, a)
  {
    s' := Do(s, a);
    ReachMore(s, a);
  }

  /** A new queue used by one thread. */
  function NewQueue(): State {
    State([Idle], NotYet, map[7 := QNode(0, None)], 7, 7, false, 0, None, Nobody, [], [], [], {}, 0, 0, 0)
  }

  lemma NewReachable()
    ensures Reachable(NewQueue())
  {
    assert Initial(NewQueue()) && Runs(NewQueue(), [], NewQueue());
  }

  /** Thread 0 takes k steps on its own, none of which allocates or signals. */
  lemma OnItsOwn(s: State) returns (s': State)
    requires Reachable(s) && |s.t| == 1 && Can(s, Step(0, 0, 0))
    ensures Reachable(s') && s' == Do(s, Step(0, 0, 0))
  {
    s' := Reached(s, Step(0, 0, 0));
  }

  /** A worker comes to an empty queue and has registered, ... */
  lemma WorkerRegistered() returns (s: State)
    ensures Reachable(s) && s.t == [UnlockNum(Deque)] && s.x == NotYet && s.usedNum == 1
    ensures s.head == s.tail && s.qLock == None && !s.destroyed && s.leaked == 0
  {
    NewReachable();
    hide Reachable;
    s := Reached(NewQueue(), Start(0, Deque));
    s := OnItsOwn(s);
    s := OnItsOwn(s);
    s := OnItsOwn(s);
  }

  /** ... and has looked at the flag and at the list. */
  lemma WorkerWaits() returns (s: State)
    ensures Reachable(s) && s.t == [Wait] && s.x == NotYet && s.usedNum == 1 && s.numMut == Nobody && s.leaked == 0
  {
    s := WorkerRegistered();
    hide Reachable;
    s := OnItsOwn(s);
    s := OnItsOwn(s);
    s := OnItsOwn(s);
    s := OnItsOwn(s);
  }

  /** One worker and the destroyer are enough for the hang: the worker tests the flag and the list, the destroyer
      sets the flag and broadcasts, the worker waits, and the destroyer waits for the worker. Only an unasked wake-up
      lets SafeDestroy return. */
  lemma HangIsReachable()
    ensures exists s :: Reachable(s) && Stuck(s, 0) && CanReturn(s, true) && !CanReturn(s, false)
  {
    var s := WorkerWaits();
    hide Reachable;
    s := Reached(s, XStep);
    s := Reached(s, XStep);
    s := OnItsOwn(s);
    s := Reached(s, XStep);
    s := Reached(s, XStep);
    s := Reached(s, XStep);
    assert Stuck(s, 0);
    HangIsExact(s);
    hide CanReturn, Stuck;
  }

  lemma HangIsExact(s: State)
    requires Reachable(s) && Stuck(s, 0) && |s.t| == 1 && s.leaked == 0
    ensures CanReturn(s, true) && !CanReturn(s, false)
  {
    hide Reachable;
    ReturnsExactly(s);
    assert Missing(s, 0);
    hide CanReturn;
  }

  /** A late caller can be about to lock a mutex that SafeDestroy has already destroyed. */
  lemma LateCallerIsReachable()
    ensures exists s :: Reachable(s) && s.x == Gone && |s.t| == 1 && s.t[0].LockNum? && Can(s, Step(0, 0, 0))
  {
    NewReachable();
    hide Reachable;
    var s := Reached(NewQueue(), Start(0, Deque));
    s := OnItsOwn(s);
    assert s.t[0] == LockNum(Deque);
    s := Reached(s, XStep);
    s := Reached(s, XStep);
    s := Reached(s, XStep);
    s := Reached(s, XStep);
    assert s.x == XUnlock;
    s := Reached(s, XStep);
    s := Reached(s, XStep);
    s := Reached(s, XStep);
  }

  /** A SafeEnque has registered. */
  lemma EnqueRegistered() returns (s: State)
    ensures Reachable(s) && s.t == [UnlockNum(Enque(5))] && s.x == NotYet && s.usedNum == 1 && s.mem.Keys == {7}
    ensures s.qLock == None && !s.destroyed && s.leaked == 0
  {
    NewReachable();
    hide Reachable;
    s := Reached(NewQueue(), Start(0, Enque(5)));
    s := OnItsOwn(s);
    s := OnItsOwn(s);
    s := OnItsOwn(s);
  }

  /** A SafeEnque that registers before the flag is set and looks again after it leaves without giving up its
      registration. */
  lemma LeakIsReachable()
    ensures exists s :: Reachable(s) && s.destroyed && !LoopLeft(s.x) && s.leaked > 0 && s.t == [Idle] && s.usedNum == 1
  {
    var s := EnqueRegistered();
    hide Reachable;
    s := OnItsOwn(s);
    s := OnItsOwn(s);
    s := OnItsOwn(s);
    assert s.t == [ECheck(5, 0)];
    s := Reached(s, XStep);
    s := OnItsOwn(s);
    s := OnItsOwn(s);
    assert s.leaked == 1;
  }
}
