/** The broadcast of SafeDestroy: who can miss it, and what becomes of a thread that does. */
module QueueBroadcast {
  import opened Bytes
  import opened SafeQueue
  import opened QueueSafety
  import opened QueueList

  /** Thread i waits for an item, or is bound to. */
  predicate Missing(s: State, i: nat) {
    i < |s.t| && (s.t[i].Asleep? || s.t[i].Wait? || (s.t[i].TestEmpty? && s.head == s.tail))
  }

  /** The flag is set, and thread i has seen it or will see it before it next decides to wait. */
  ghost predicate Warned(s: State, i: nat) {
    s.destroyed && i < |s.t| && !Missing(s, i)
  }

  lemma WarnedStep(s: State, a: Action, i: nat)
    requires Warned(s, i) && Locks(s) && Can(s, a)
    ensures Warned(Do(s, a), i)
  {
    hide DoBoth, DoEnque, DoDeque, DoX;
    match a
    case Step(j, n, w) =>
      assert HoldsQ(s.t[i]) && HoldsQ(s.t[j]) ==> i == j;
      hide Locks;
      if InEnque(s.t[j]) {
        WarnedEnque(s, j, n, w, i);
      } else if InDeque(s.t[j]) {
        WarnedDeque(s, j, i);
      } else {
        WarnedBoth(s, j, i);
      }
    case XStep => WarnedX(s, i);
    case _ => hide Locks;
  }

  lemma WarnedX(s: State, i: nat)
    requires Warned(s, i) && Can(s, XStep)
    ensures Warned(DoX(s), i)
  {
  }

  lemma WarnedEnque(s: State, j: nat, n: Ptr, w: nat, i: nat)
    requires Warned(s, i) && Can(s, Step(j, n, w)) && InEnque(s.t[j]) && (HoldsQ(s.t[i]) && HoldsQ(s.t[j]) ==> i == j)
    ensures Warned(DoEnque(s, j, n, w), i)
  {
  }

  lemma WarnedDeque(s: State, j: nat, i: nat)
    requires Warned(s, i) && Can(s, Step(j, 0, 0)) && InDeque(s.t[j]) && (HoldsQ(s.t[i]) && HoldsQ(s.t[j]) ==> i == j)
    ensures Warned(DoDeque(s, j), i)
  {
  }

  lemma WarnedBoth(s: State, j: nat, i: nat)
    requires Warned(s, i) && Can(s, Step(j, 0, 0)) && !InEnque(s.t[j]) && !InDeque(s.t[j])
    ensures Warned(DoBoth(s, j), i)
  {
  }

  lemma {:induction false} WarnedRuns(s: State, acts: seq<Action>, s': State, i: nat)
    requires Warned(s, i) && Locks(s) && Runs(s, acts, s')
    ensures !Sleeps(s', i)
    decreases |acts|
  {
    if acts != [] {
      LocksStep(s, acts[0]);
      WarnedStep(s, acts[0], i);
      hide Do, Locks, Warned;
      WarnedRuns(Do(s, acts[0]), acts[1..], s', i);
    }
  }

  /** Some continuation of s has thread i asleep. */
  ghost predicate MaySleep(s: State, i: nat) {
    exists acts, s' :: Runs(s, acts, s') && Sleeps(s', i)
  }

  lemma OneMore(s: State, a: Action, i: nat)
    requires Can(s, a) && MaySleep(Do(s, a), i)
    ensures MaySleep(s, i)
  {
    hide Do, Can;
    var acts, s' :| Runs(Do(s, a), acts, s') && Sleeps(s', i);
    assert ([a] + acts)[1..] == acts;
    assert Runs(s, [a] + acts, s');
  }

  lemma AsleepNow(s: State, i: nat)
    requires Sleeps(s, i)
    ensures MaySleep(s, i)
  {
    assert Runs(s, [], s);
  }

  lemma GoesToSleep(s: State, i: nat)
    requires i < |s.t| && (s.t[i].Wait? || (s.t[i].TestEmpty? && s.head == s.tail))
    ensures MaySleep(s, i)
    decreases s.t[i].TestEmpty?
  {
    hide MaySleep;
    if s.t[i].Wait? {
      AsleepNow(Do(s, Step(i, 0, 0)), i);
    } else {
      GoesToSleep(Do(s, Step(i, 0, 0)), i);
    }
    OneMore(s, Step(i, 0, 0), i);
  }

  lemma NeverSleeps(s: State, i: nat)
    requires Warned(s, i) && Locks(s)
    ensures !MaySleep(s, i)
  {
    hide Warned, Locks, Sleeps, Runs;
    forall acts, s' | Runs(s, acts, s') ensures !Sleeps(s', i) {
      WarnedRuns(s, acts, s', i);
    }
  }

  /** A thread can be asleep at some time after the broadcast exactly when the broadcast comes between its look
      at the flag and its wait: SafeDestroy broadcasts without holding the queue's mutex. */
  lemma MissedBroadcast(s: State, i: nat)
    requires Reachable(s) && s.x.Broadcast? && i < |s.t|
    ensures MaySleep(Do(s, XStep), i) <==> s.t[i].Wait? || (s.t[i].TestEmpty? && s.head == s.tail)
  {
    MemAlways(s);
    LocksStep(s, XStep);
    var s1 := Do(s, XStep);
    assert s.destroyed;
    hide MemOk, Locks, MaySleep, Reachable;
    if s.t[i].Wait? || (s.t[i].TestEmpty? && s.head == s.tail) {
      GoesToSleep(s1, i);
    } else {
      NeverSleeps(s1, i);
    }
  }

  // ---- At most one misses it ----------------------------------------------------------------------------------

  /** SafeDestroy has broadcast and waits for the counter. */
  predicate Past(x: XPC) {
    x.XLock? || x.XTest? || x.XWait? || x.XAsleep? || x.XWoken?
  }

  ghost predicate OneMissing(s: State) {
    s.destroyed && !s.x.Broadcast? ==> forall i: nat, j: nat | Missing(s, i) && Missing(s, j) :: i == j
  }

  lemma OneMissingStep(s: State, a: Action)
    requires Locks(s) && OneMissing(s) && (s.destroyed <==> !s.x.NotYet?) && Can(s, a)
    ensures OneMissing(Do(s, a))
  {
    var s' := Do(s, a);
    if s.x.Broadcast? && a.XStep? {
      assert forall i: nat | Missing(s', i) :: HoldsQ(s.t[i]);
    } else if s.destroyed && !s.x.Broadcast? {
      hide Locks, Do, Can;
      forall i: nat | Missing(s', i) ensures Missing(s, i) {
        SameThreads(s, a);
        if !Missing(s, i) {
          WarnedStep(s, a, i);
        }
      }
    } else {
      FlagStays(s, a);
    }
  }

  lemma SameThreads(s: State, a: Action)
    requires Can(s, a)
    ensures |Do(s, a).t| == |s.t|
  {
    hide DoBoth, DoEnque, DoDeque;
    if a.Step? {
      if InEnque(s.t[a.i]) {
        SameInEnque(s, a.i, a.n, a.w);
      } else if InDeque(s.t[a.i]) {
        SameInDeque(s, a.i);
      } else {
        SameInBoth(s, a.i);
      }
    }
  }

  lemma SameInEnque(s: State, i: nat, n: Ptr, w: nat)
    requires i < |s.t| && InEnque(s.t[i])
    ensures |DoEnque(s, i, n, w).t| == |s.t|
  {
  }

  lemma SameInDeque(s: State, i: nat)
    requires i < |s.t| && InDeque(s.t[i]) && !s.t[i].Asleep?
    ensures |DoDeque(s, i).t| == |s.t|
  {
  }

  lemma SameInBoth(s: State, i: nat)
    requires i < |s.t| && !InEnque(s.t[i]) && !InDeque(s.t[i]) && !s.t[i].Idle?
    ensures |DoBoth(s, i).t| == |s.t|
  {
  }

  lemma FlagStays(s: State, a: Action)
    requires Can(s, a) && (s.destroyed <==> !s.x.NotYet?)
    requires (s.x.Broadcast? ==> !a.XStep?) && (!s.destroyed || s.x.Broadcast?)
    ensures !Do(s, a).destroyed || Do(s, a).x.Broadcast?
  {
  }

  /** At most one thread misses the broadcast: only the holder of the mutex is between look and wait. */
  lemma OneMissesBroadcast(s: State, i: nat, j: nat)
    requires Reachable(s) && s.destroyed && !s.x.Broadcast? && Missing(s, i) && Missing(s, j)
    ensures i == j
  {
    AllAlways(s);
  }

  // ---- SafeDestroy is woken -----------------------------------------------------------------------------------

  /** SafeDestroy waits only while callers are registered, or one is about to signal it. */
  ghost predicate XOwed(s: State) {
    && (s.x.XWait? ==> s.usedNum > 0)
    && (s.x.XAsleep? && s.usedNum <= 0 ==> exists i :: 0 <= i < |s.t| && s.t[i].SignalNum?)
  }

  lemma XOwedStep(s: State, a: Action)
    requires Locks(s) && XOwed(s) && Can(s, a)
    ensures XOwed(Do(s, a))
  {
    hide DoBoth, DoEnque, DoDeque;
    match a
    case Step(i, n, w) =>
      assert s.x.XWait? ==> !HoldsNum(s.t[i]);
      hide Locks;
      if InEnque(s.t[i]) {
        XOwedEnque(s, i, n, w);
      } else if InDeque(s.t[i]) {
        XOwedDeque(s, i);
      } else {
        XOwedBoth(s, i);
      }
    case XStep =>
    case Start(i, c) => XOwedUpdate(s, Do(s, a), i, Check(c));
    case Spurious(i) => XOwedUpdate(s, Do(s, a), i, Woken);
    case XSpurious =>
  }

  lemma XOwedUpdate(s: State, s': State, i: nat, p: PC)
    requires XOwed(s) && i < |s.t| && s'.t == s.t[i := p] && s'.x == s.x && s'.usedNum == s.usedNum
    requires s.t[i].SignalNum? ==> p.SignalNum?
    ensures XOwed(s')
  {
    if s.x.XAsleep? && s.usedNum <= 0 {
      var j :| 0 <= j < |s.t| && s.t[j].SignalNum?;
      assert s'.t[j].SignalNum?;
    }
  }

  lemma XOwedEnque(s: State, i: nat, n: Ptr, w: nat)
    requires XOwed(s) && Can(s, Step(i, n, w)) && InEnque(s.t[i])
    ensures XOwed(DoEnque(s, i, n, w))
  {
    var s' := DoEnque(s, i, n, w);
    hide XOwed;
    if s.t[i].Signal? {
      var s1 := s.(t := s.t[i := LockOut(Void)]);
      XOwedUpdate(s, s1, i, LockOut(Void));
      if Sleeps(s, w) {
        XOwedUpdate(s1, s', w, Woken);
      }
    } else {
      XOwedUpdate(s, s', i, s'.t[i]);
    }
  }

  lemma XOwedDeque(s: State, i: nat)
    requires XOwed(s) && Can(s, Step(i, 0, 0)) && InDeque(s.t[i])
    ensures XOwed(DoDeque(s, i))
  {
    hide XOwed;
    XOwedUpdate(s, DoDeque(s, i), i, DoDeque(s, i).t[i]);
  }

  lemma XOwedBoth(s: State, i: nat)
    requires XOwed(s) && Can(s, Step(i, 0, 0)) && !InEnque(s.t[i]) && !InDeque(s.t[i])
    requires s.x.XWait? ==> !HoldsNum(s.t[i])
    ensures XOwed(DoBoth(s, i))
  {
    var s' := DoBoth(s, i);
    if s.t[i].Decr? {
      assert s'.t[i].SignalNum?;
    } else if s.t[i].Incr? {
      if s'.x.XAsleep? && s'.usedNum <= 0 {
        var j :| 0 <= j < |s.t| && s.t[j].SignalNum?;
        assert s'.t[j].SignalNum?;
      }
    } else if !s.t[i].SignalNum? {
      XOwedUpdate(s, s', i, s'.t[i]);
    }
  }

  // ---- In every run -------------------------------------------------------------------------------------------

  /** What holds at every point of every run. */
  ghost predicate AllOk(s: State) {
    MemOk(s) && OneMissing(s) && XOwed(s)
  }

  lemma AllStep(s: State, a: Action)
    requires AllOk(s) && Can(s, a)
    ensures AllOk(Do(s, a))
  {
    MemStep(s, a);
    assert Locks(s) && Shut(s);
    assert s.destroyed <==> !s.x.NotYet?;
    hide MemOk, Locks, Shut, Do, XOwed, OneMissing;
    OneMissingStep(s, a);
    XOwedStep(s, a);
  }

  lemma {:induction false} AllRuns(s: State, acts: seq<Action>, s': State)
    requires AllOk(s) && Runs(s, acts, s')
    ensures AllOk(s')
    decreases |acts|
  {
    hide AllOk, Do;
    if acts != [] {
      AllStep(s, acts[0]);
      AllRuns(Do(s, acts[0]), acts[1..], s');
    }
  }

  lemma AllAlways(s: State)
    requires Reachable(s)
    ensures AllOk(s)
  {
    var s0, acts :| Initial(s0) && Runs(s0, acts, s);
    MemInitial(s0);
    assert AllOk(s0) by {
      hide MemOk;
    }
    AllRuns(s0, acts, s);
  }

  // ---- Without help, one that has missed it is lost --------------------------------------------------------------

  /** No thread wakes up unasked, and neither does SafeDestroy. */
  predicate Unaided(acts: seq<Action>) {
    forall a | a in acts :: !a.Spurious? && !a.XSpurious?
  }

  /** Between its look at the flag and its signal, so that it will wake a thread if one sleeps. */
  predicate Rouses(p: PC) {
    p.Link? || p.MoveTail? || p.EUnlock? || p.Signal?
  }

  ghost predicate SomeoneRouses(s: State) {
    exists i :: 0 <= i < |s.t| && Rouses(s.t[i])
  }

  ghost predicate NobodyMissing(s: State) {
    forall i: nat :: !Missing(s, i)
  }

  /** After the broadcast, a thread has missed it and nobody is going to signal. */
  ghost predicate Lost(s: State) {
    s.destroyed && Past(s.x) && !NobodyMissing(s) && !SomeoneRouses(s)
  }

  lemma LostUpdate(s: State, s': State, i: nat, p: PC)
    requires Lost(s) && i < |s.t| && s'.t == s.t[i := p] && s'.destroyed && Past(s'.x) && !Rouses(p)
    requires Missing(s, i) ==> Missing(s', i)
    requires s'.head == s.head && (s'.tail == s.tail || forall j | 0 <= j < |s.t| && j != i :: !s.t[j].TestEmpty?)
    ensures Lost(s')
  {
    var m: nat :| Missing(s, m);
    assert Missing(s', m);
    hide Rouses, Missing;
    forall j | 0 <= j < |s'.t| ensures !Rouses(s'.t[j]) {
      assert j != i ==> s'.t[j] == s.t[j];
    }
  }

  lemma LostStep(s: State, a: Action)
    requires Lost(s) && Locks(s) && Used(s) && Can(s, a) && !a.Spurious? && !a.XSpurious?
    ensures Lost(Do(s, a))
  {
    assert s.destroyed && Past(s.x);
    hide DoBoth, DoEnque, DoDeque, DoX;
    match a
    case Step(i, n, w) =>
      assert !Rouses(s.t[i]);
      assert HoldsQ(s.t[i]) ==> forall j | 0 <= j < |s.t| && j != i :: !HoldsQ(s.t[j]);
      hide Locks, Used, Lost;
      if InEnque(s.t[i]) {
        LostEnque(s, i, n, w);
      } else if InDeque(s.t[i]) {
        LostDeque(s, i);
      } else {
        LostBoth(s, i);
      }
    case XStep => LostX(s);
    case Start(i, c) => LostUpdate(s, Do(s, a), i, Check(c));
  }

  lemma LostEnque(s: State, i: nat, n: Ptr, w: nat)
    requires Lost(s) && Can(s, Step(i, n, w)) && InEnque(s.t[i]) && !Rouses(s.t[i]) && s.destroyed && Past(s.x)
    ensures Lost(DoEnque(s, i, n, w))
  {
    hide Lost;
    LostUpdate(s, DoEnque(s, i, n, w), i, DoEnque(s, i, n, w).t[i]);
  }

  lemma LostDeque(s: State, i: nat)
    requires Lost(s) && Can(s, Step(i, 0, 0)) && InDeque(s.t[i]) && s.destroyed && Past(s.x)
    requires HoldsQ(s.t[i]) ==> forall j | 0 <= j < |s.t| && j != i :: !HoldsQ(s.t[j])
    ensures Lost(DoDeque(s, i))
  {
    hide Lost;
    LostUpdate(s, DoDeque(s, i), i, DoDeque(s, i).t[i]);
  }

  lemma LostBoth(s: State, i: nat)
    requires Lost(s) && Can(s, Step(i, 0, 0)) && !InEnque(s.t[i]) && !InDeque(s.t[i]) && s.destroyed && Past(s.x)
    ensures Lost(DoBoth(s, i))
  {
    hide Lost;
    LostUpdate(s, DoBoth(s, i), i, DoBoth(s, i).t[i]);
  }

  /** The lost thread is registered, so SafeDestroy does not see the counter at zero. */
  lemma LostX(s: State)
    requires Lost(s) && Used(s) && Can(s, XStep)
    ensures Lost(DoX(s))
  {
    var m: nat :| Missing(s, m);
    CountZero(s.t, Registered);
    hide Count;
    assert Registered(s.t[m]);
    assert Missing(DoX(s), m);
    assert !SomeoneRouses(DoX(s));
  }

  lemma {:induction false} LostForever(s: State, acts: seq<Action>, s': State)
    requires Lost(s) && Locks(s) && Used(s) && Runs(s, acts, s') && Unaided(acts)
    ensures Lost(s')
    decreases |acts|
  {
    if acts != [] {
      assert acts[0] in acts && forall a | a in acts[1..] :: a in acts;
      LostStep(s, acts[0]);
      LocksStep(s, acts[0]);
      UsedStep(s, acts[0]);
      hide Do, Lost, Locks, Used;
      LostForever(Do(s, acts[0]), acts[1..], s');
    }
  }
}
