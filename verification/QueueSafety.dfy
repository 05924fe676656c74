/** The queue's mutexes, its registration counter and the point of no return at shutdown: what every step keeps of
    them. */
module QueueSafety {
  import opened Bytes
  import opened SafeQueue

  // ---- Mutual exclusion -------------------------------------------------------------------------------

  predicate HoldsQ(p: PC) {
    || p.ECheck? || p.EQuit? || p.Link? || p.MoveTail? || p.EUnlock?
    || p.Test? || p.TestEmpty? || p.Wait? || p.Retest? || p.DQuit?
    || p.First? || p.Unlink? || p.TestTail? || p.ResetTail? || p.DUnlock?
  }

  predicate HoldsNum(p: PC) {
    p.Incr? || p.UnlockNum? || p.Decr? || p.SignalNum? || p.UnlockOut?
  }

  predicate XHolds(x: XPC) {
    x.XTest? || x.XWait? || x.XUnlock?
  }

  /** The threads between lock and unlock are those that the mutexes say hold them. */
  ghost predicate Locks(s: State) {
    && (forall i {:trigger s.t[i]} | 0 <= i < |s.t| :: HoldsQ(s.t[i]) <==> s.qLock == Some(i))
    && (forall i {:trigger s.t[i]} | 0 <= i < |s.t| :: HoldsNum(s.t[i]) <==> s.numMut == Thread(i))
    && (s.qLock.Some? ==> s.qLock.value < |s.t|)
    && (XHolds(s.x) <==> s.numMut.Destroyer?)
    && (s.numMut.Thread? ==> s.numMut.i < |s.t|)
  }

  lemma LocksStep(s: State, a: Action)
    requires Locks(s) && Can(s, a)
    ensures Locks(Do(s, a))
  {
    hide DoBoth, DoEnque, DoDeque, DoX;
    match a
    case Step(i, n, w) =>
      if InEnque(s.t[i]) {
        LocksEnque(s, i, n, w);
      } else if InDeque(s.t[i]) {
        LocksDeque(s, i);
      } else {
        LocksBoth(s, i);
      }
    case XStep => LocksX(s);
    case _ =>
  }

  /** Thread i goes on to p and takes, keeps or gives up the queue's mutex or that of the counter. */
  lemma LocksUpdate(s: State, s': State, i: nat, p: PC)
    requires Locks(s) && i < |s.t| && s'.t == s.t[i := p] && XHolds(s'.x) == XHolds(s.x)
    requires if HoldsQ(p) == HoldsQ(s.t[i]) then s'.qLock == s.qLock
             else if HoldsQ(p) then s.qLock == None && s'.qLock == Some(i)
             else s'.qLock == None
    requires if HoldsNum(p) == HoldsNum(s.t[i]) then s'.numMut == s.numMut
             else if HoldsNum(p) then s.numMut.Nobody? && s'.numMut == Thread(i)
             else s'.numMut.Nobody?
    ensures Locks(s')
  {
    hide HoldsQ, HoldsNum, XHolds;
  }

  lemma LocksEnque(s: State, i: nat, n: Ptr, w: nat)
    requires Locks(s) && Can(s, Step(i, n, w)) && InEnque(s.t[i])
    ensures Locks(DoEnque(s, i, n, w))
  {
    hide Locks;
    var s' := DoEnque(s, i, n, w);
    if s.t[i].Signal? {
      var s1 := s.(t := s.t[i := LockOut(Void)]);
      LocksUpdate(s, s1, i, LockOut(Void));
      if Sleeps(s, w) {
        LocksUpdate(s1, s', w, Woken);
      }
    } else {
      LocksUpdate(s, s', i, s'.t[i]);
    }
  }

  lemma LocksDeque(s: State, i: nat)
    requires Locks(s) && Can(s, Step(i, 0, 0)) && InDeque(s.t[i])
    ensures Locks(DoDeque(s, i))
  {
    hide Locks;
    var s' := DoDeque(s, i);
    LocksUpdate(s, s', i, s'.t[i]);
  }

  lemma LocksBoth(s: State, i: nat)
    requires Locks(s) && Can(s, Step(i, 0, 0)) && !InEnque(s.t[i]) && !InDeque(s.t[i])
    ensures Locks(DoBoth(s, i))
  {
    hide Locks;
    var s' := DoBoth(s, i);
    LocksUpdate(s, s', i, s'.t[i]);
  }

  lemma LocksX(s: State)
    requires Locks(s) && Can(s, XStep)
    ensures Locks(DoX(s))
  {
  }

  // ---- Registration -------------------------------------------------------------------------------------

  /** Between `usedNum ++` and `usedNum --`. */
  predicate Registered(p: PC) {
    InEnque(p) || InDeque(p) || p.UnlockNum? || p.LockOut? || p.Decr?
  }

  /** `usedNum` counts the registered threads and those that left by the early return. */
  ghost predicate Used(s: State) {
    s.usedNum == Count(s.t, Registered) + s.leaked
  }

  lemma UsedStep(s: State, a: Action)
    requires Used(s) && Can(s, a)
    ensures Used(Do(s, a))
  {
    hide DoBoth, DoEnque, DoDeque, DoX, Used;
    match a
    case Step(i, n, w) =>
      if InEnque(s.t[i]) {
        UsedEnque(s, i, n, w);
      } else if InDeque(s.t[i]) {
        UsedDeque(s, i);
      } else {
        UsedBoth(s, i);
      }
    case XStep => UsedX(s);
    case XSpurious => UsedSame(s, Do(s, a));
    case Start(i, c) => UsedUpdate(s, Do(s, a), i, Check(c));
    case Spurious(i) => UsedUpdate(s, Do(s, a), i, Woken);
  }

  lemma UsedSame(s: State, s': State)
    requires Used(s) && s'.t == s.t && s'.usedNum == s.usedNum && s'.leaked == s.leaked
    ensures Used(s')
  {
  }

  lemma UsedUpdate(s: State, s': State, i: nat, p: PC)
    requires Used(s) && i < |s.t| && s'.t == s.t[i := p]
    requires s'.usedNum - s'.leaked
          == s.usedNum - s.leaked + (if Registered(p) then 1 else 0) - if Registered(s.t[i]) then 1 else 0
    ensures Used(s')
  {
    CountUpdate(s.t, i, p, Registered);
  }

  lemma UsedEnque(s: State, i: nat, n: Ptr, w: nat)
    requires Used(s) && Can(s, Step(i, n, w)) && InEnque(s.t[i])
    ensures Used(DoEnque(s, i, n, w))
  {
    hide Used;
    var s' := DoEnque(s, i, n, w);
    if s.t[i].Signal? {
      var s1 := s.(t := s.t[i := LockOut(Void)]);
      UsedUpdate(s, s1, i, LockOut(Void));
      if Sleeps(s, w) {
        UsedUpdate(s1, s', w, Woken);
      }
    } else {
      UsedUpdate(s, s', i, s'.t[i]);
    }
  }

  lemma UsedDeque(s: State, i: nat)
    requires Used(s) && Can(s, Step(i, 0, 0)) && InDeque(s.t[i])
    ensures Used(DoDeque(s, i))
  {
    hide Used;
    var s' := DoDeque(s, i);
    UsedUpdate(s, s', i, s'.t[i]);
  }

  lemma UsedBoth(s: State, i: nat)
    requires Used(s) && Can(s, Step(i, 0, 0)) && !InEnque(s.t[i]) && !InDeque(s.t[i])
    ensures Used(DoBoth(s, i))
  {
    hide Used;
    var s' := DoBoth(s, i);
    UsedUpdate(s, s', i, s'.t[i]);
  }

  lemma UsedX(s: State)
    requires Used(s) && Can(s, XStep)
    ensures Used(DoX(s))
  {
    CountMapped(s.t, DoX(s).t, Registered);
    hide Count;
  }

  /** SafeDestroy has seen `usedNum` at zero. */
  predicate LoopLeft(x: XPC) {
    x.XUnlock? || x.XFree? || x.Gone?
  }

  /** Where a thread can be once SafeDestroy has seen `usedNum` at zero: at no access to a node of the list. */
  predicate Outside(p: PC) {
    || p.Idle? || p.Work? || p.Check? || p.LockNum? || p.Incr? || p.UnlockNum?
    || p.Malloc? || p.ELock? || p.ECheck? || p.EQuit? || p.DLock? || p.Test? || p.Retest? || p.DQuit?
    || p.LockOut? || p.Decr? || p.SignalNum? || p.UnlockOut?
  }

  ghost predicate Shut(s: State) {
    && (s.destroyed <==> !s.x.NotYet?)
    && (LoopLeft(s.x) ==> forall i | 0 <= i < |s.t| :: Outside(s.t[i]))
  }

  lemma ShutStep(s: State, a: Action)
    requires Locks(s) && Used(s) && Shut(s) && Can(s, a)
    ensures Shut(Do(s, a))
  {
    hide DoBoth, DoEnque, DoDeque, DoX, Used;
    match a
    case Step(i, n, w) =>
      if InEnque(s.t[i]) {
        ShutEnque(s, i, n, w);
      } else if InDeque(s.t[i]) {
        ShutDeque(s, i);
      } else {
        ShutBoth(s, i);
      }
    case XStep => ShutX(s);
    case _ =>
  }

  lemma ShutUpdate(s: State, s': State, i: nat, p: PC)
    requires Shut(s) && i < |s.t| && s'.t == s.t[i := p] && s'.destroyed == s.destroyed
    requires s'.x == s.x || (s.x.XAsleep? && s'.x.XWoken?)
    requires LoopLeft(s.x) && Outside(s.t[i]) && s.destroyed ==> Outside(p)
    ensures Shut(s')
  {
    hide Outside;
  }

  lemma ShutEnque(s: State, i: nat, n: Ptr, w: nat)
    requires Shut(s) && Can(s, Step(i, n, w)) && InEnque(s.t[i])
    ensures Shut(DoEnque(s, i, n, w))
  {
    var s' := DoEnque(s, i, n, w);
    if s.t[i].Signal? {
      assert !LoopLeft(s.x);
    } else {
      hide Shut;
      ShutUpdate(s, s', i, s'.t[i]);
    }
  }

  lemma ShutDeque(s: State, i: nat)
    requires Shut(s) && Can(s, Step(i, 0, 0)) && InDeque(s.t[i])
    ensures Shut(DoDeque(s, i))
  {
    hide Shut;
    var s' := DoDeque(s, i);
    ShutUpdate(s, s', i, s'.t[i]);
  }

  lemma ShutBoth(s: State, i: nat)
    requires Shut(s) && Can(s, Step(i, 0, 0)) && !InEnque(s.t[i]) && !InDeque(s.t[i])
    ensures Shut(DoBoth(s, i))
  {
    hide Shut;
    var s' := DoBoth(s, i);
    ShutUpdate(s, s', i, s'.t[i]);
  }

  lemma ShutX(s: State)
    requires Locks(s) && Used(s) && Shut(s) && Can(s, XStep)
    ensures Shut(DoX(s))
  {
    CountZero(s.t, Registered);
    hide Count;
    if s.x.XTest? && s.usedNum <= 0 {
      forall i | 0 <= i < |s.t| ensures Outside(s.t[i]) {
        assert !Registered(s.t[i]) && !HoldsNum(s.t[i]);
      }
    } else {
      hide Outside, Locks, Registered;
    }
  }
}
