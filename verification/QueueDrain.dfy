/** When SafeDestroy can return. With no wake-up but those that are signalled, a run in which the flag is set can still be
    brought to its end, except when a SafeEnque has left by its early return or is bound to, or when a thread has missed
    the broadcast and nobody is going to signal. */
module QueueDrain {
  import opened Bytes
  import opened SafeQueue
  import opened QueueSafety
  import opened QueueList
  import opened QueueBroadcast

  /** Between the increment of `usedNum` and the second look at `destroyed` in SafeEnque: once the flag is set, the
      only way on is the early return. */
  predicate Leaking(p: PC) {
    || (p.Incr? && p.c.Enque?) || (p.UnlockNum? && p.c.Enque?)
    || p.Malloc? || p.ELock? || p.ECheck? || p.EQuit?
  }

  /** Nobody has left early, or is bound to. */
  ghost predicate NoLeak(s: State) {
    s.leaked == 0 && forall i | 0 <= i < |s.t| :: !Leaking(s.t[i])
  }

  // ---- With a leak, never --------------------------------------------------------------------------------------

  ghost predicate Hopeless(s: State) {
    s.destroyed && !LoopLeft(s.x) && !NoLeak(s)
  }

  lemma HopelessUpdate(s: State, s': State, i: nat, p: PC)
    requires Hopeless(s) && i < |s.t| && s'.t == s.t[i := p] && s'.destroyed && !LoopLeft(s'.x) && s'.leaked >= s.leaked
    requires Leaking(s.t[i]) ==> Leaking(p) || s'.leaked > s.leaked
    ensures Hopeless(s')
  {
    hide Leaking;
    if s.leaked == 0 {
      var j :| 0 <= j < |s.t| && Leaking(s.t[j]);
      assert j != i ==> s'.t[j] == s.t[j];
      assert Leaking(s'.t[j]) || s'.leaked > 0;
    }
  }

  lemma HopelessStep(s: State, a: Action)
    requires Hopeless(s) && Locks(s) && Used(s) && Can(s, a)
    ensures Hopeless(Do(s, a))
  {
    assert s.destroyed && !LoopLeft(s.x);
    hide DoBoth, DoEnque, DoDeque, DoX, Hopeless, Locks, Used;
    match a
    case Step(i, n, w) =>
      if InEnque(s.t[i]) {
        HopelessEnque(s, i, n, w);
      } else if InDeque(s.t[i]) {
        HopelessDeque(s, i);
      } else {
        HopelessBoth(s, i);
      }
    case XStep => HopelessX(s);
    case Start(i, c) => HopelessUpdate(s, Do(s, a), i, Check(c));
    case Spurious(i) => HopelessUpdate(s, Do(s, a), i, Woken);
    case XSpurious => HopelessAwake(s);
  }

  lemma HopelessAwake(s: State)
    requires Hopeless(s) && s.x.XAsleep?
    ensures Hopeless(s.(x := XWoken))
  {
  }

  lemma HopelessEnque(s: State, i: nat, n: Ptr, w: nat)
    requires Hopeless(s) && Can(s, Step(i, n, w)) && InEnque(s.t[i])
    ensures Hopeless(DoEnque(s, i, n, w))
  {
    var s' := DoEnque(s, i, n, w);
    assert s.destroyed && !LoopLeft(s.x);
    hide Hopeless;
    if s.t[i].Signal? {
      var s1 := s.(t := s.t[i := LockOut(Void)]);
      HopelessUpdate(s, s1, i, LockOut(Void));
      if Sleeps(s, w) {
        HopelessUpdate(s1, s', w, Woken);
      }
    } else {
      HopelessUpdate(s, s', i, s'.t[i]);
    }
  }

  lemma HopelessDeque(s: State, i: nat)
    requires Hopeless(s) && Can(s, Step(i, 0, 0)) && InDeque(s.t[i])
    ensures Hopeless(DoDeque(s, i))
  {
    assert s.destroyed && !LoopLeft(s.x);
    hide Hopeless;
    HopelessUpdate(s, DoDeque(s, i), i, DoDeque(s, i).t[i]);
  }

  lemma HopelessBoth(s: State, i: nat)
    requires Hopeless(s) && Can(s, Step(i, 0, 0)) && !InEnque(s.t[i]) && !InDeque(s.t[i])
    ensures Hopeless(DoBoth(s, i))
  {
    assert s.destroyed && !LoopLeft(s.x);
    hide Hopeless;
    HopelessUpdate(s, DoBoth(s, i), i, DoBoth(s, i).t[i]);
  }

  /** A thread that is bound to leave early is counted by the time SafeDestroy looks at the counter. */
  lemma HopelessX(s: State)
    requires Hopeless(s) && Locks(s) && Used(s) && Can(s, XStep)
    ensures Hopeless(DoX(s))
  {
    var s' := DoX(s);
    if s.leaked == 0 {
      var j :| 0 <= j < |s.t| && Leaking(s.t[j]);
      CountZero(s.t, Registered);
      assert s.x.XTest? ==> !HoldsNum(s.t[j]) && Registered(s.t[j]);
      assert Leaking(s'.t[j]);
    }
    hide Count, Locks;
  }

  lemma {:induction false} HopelessRuns(s: State, acts: seq<Action>, s': State)
    requires Hopeless(s) && Locks(s) && Used(s) && Runs(s, acts, s')
    ensures Hopeless(s')
    decreases |acts|
  {
    if acts != [] {
      HopelessStep(s, acts[0]);
      LocksStep(s, acts[0]);
      UsedStep(s, acts[0]);
      hide Do, Hopeless, Locks, Used;
      HopelessRuns(Do(s, acts[0]), acts[1..], s');
    }
  }

  // ---- Without one, always ---------------------------------------------------------------------------------------

  /** A thread that has not registered yet, and so need not move for SafeDestroy to return, has not moved. */
  predicate Keeps(s: State, s': State, j: nat) {
    j < |s.t| && s.t[j].LockNum? ==> j < |s'.t| && s'.t[j] == s.t[j]
  }

  /** Some continuation of s, without unasked wake-ups, lets SafeDestroy return, and thread j stay where it is if it is
      about to register. */
  ghost predicate MayReturn(s: State, j: nat) {
    exists acts, s' :: Runs(s, acts, s') && Unaided(acts) && s'.x.Gone? && Keeps(s, s', j)
  }

  lemma OneMore(s: State, a: Action, j: nat)
    requires Can(s, a) && MayReturn(Do(s, a), j) && Keeps(s, Do(s, a), j) && !a.Spurious? && !a.XSpurious?
    ensures MayReturn(s, j)
  {
    hide Do, Can;
    var acts, s' :| Runs(Do(s, a), acts, s') && Unaided(acts) && s'.x.Gone? && Keeps(Do(s, a), s', j);
    assert ([a] + acts)[1..] == acts;
    assert Runs(s, [a] + acts, s') && Unaided([a] + acts);
  }

  lemma AlreadyGone(s: State, j: nat)
    requires s.x.Gone?
    ensures MayReturn(s, j)
  {
    assert Runs(s, [], s);
  }

  /** Steps of SafeDestroy left once it has left its loop. */
  function ToFree(s: State): nat {
    match s.x
    case XUnlock => |s.chain| + 4
    case XFree(t, k) => if t.Some? && k <= |s.chain| then |s.chain| - k + 3 else 1
    case _ => 0
  }

  lemma {:induction false} Finishes(s: State, j: nat)
    requires MemOk(s) && LoopLeft(s.x)
    ensures MayReturn(s, j)
    decreases ToFree(s)
  {
    if s.x.Gone? {
      AlreadyGone(s, j);
    } else {
      var s' := Do(s, XStep);
      MemStep(s, XStep);
      FreesOne(s);
      hide MemOk, MayReturn, Do;
      Finishes(s', j);
      OneMore(s, XStep, j);
    }
  }

  lemma FreesOne(s: State)
    requires MemOk(s) && (s.x.XUnlock? || s.x.XFree?)
    ensures Can(s, XStep) && LoopLeft(Do(s, XStep).x) && ToFree(Do(s, XStep)) < ToFree(s) && Do(s, XStep).t == s.t
  {
    if s.x.XFree? && s.x.t.Some? {
      assert s.x.k < |Nodes(s)| && s.x.t.value == Nodes(s)[s.x.k];
      ListedFree(s.mem, Nodes(s), s.x.k, Items(s));
    }
    hide Locks, Used, Shut, OwnOk, Listed, Distinct;
  }

  /** At most this many steps a thread takes until it is out of its call, once the flag is set. */
  function Rank(p: PC): nat {
    match p
    case UnlockOut(_) => 1
    case SignalNum(_) => 2
    case Decr(_) => 3
    case LockOut(_) => 4
    case DQuit => 5
    case Free(_, _, _) => 5
    case DUnlock(_, _, _) => 6
    case ResetTail(_, _, _) => 7
    case TestTail(_, _, _) => 8
    case Unlink(_, _) => 9
    case First => 10
    case Retest => 6
    case Test => 7
    case Woken => 8
    case Asleep => 9
    case Wait => 10
    case TestEmpty => 11
    case DLock => 8
    case UnlockNum(_) => 9
    case Incr(_) => 10
    case Signal => 5
    case EUnlock => 6
    case MoveTail(_) => 7
    case Link(_, _) => 8
    case _ => 0
  }

  function RankSum(t: seq<PC>): nat {
    if t == [] then 0 else RankSum(t[..|t| - 1]) + Rank(t[|t| - 1])
  }

  lemma {:induction false} RankUpdate(t: seq<PC>, i: nat, p: PC)
    requires i < |t|
    ensures RankSum(t[i := p]) == RankSum(t) + Rank(p) - Rank(t[i])
  {
    hide Rank;
    var r := t[..|t| - 1];
    if i == |t| - 1 {
      assert t[i := p][..|t| - 1] == r;
    } else {
      assert t[i := p][..|t| - 1] == r[i := p];
      RankUpdate(r, i, p);
    }
  }

  lemma {:induction false} RankZero(t: seq<PC>)
    ensures RankSum(t) == 0 <==> forall i | 0 <= i < |t| :: Rank(t[i]) == 0
  {
    hide Rank;
    if t != [] {
      var r := t[..|t| - 1];
      RankZero(r);
      assert forall i | 0 <= i < |r| :: r[i] == t[i];
    }
  }

  /** SafeDestroy has yet to broadcast, or nobody has missed the broadcast, or somebody will signal. */
  ghost predicate Hopeful(s: State) {
    s.x.Broadcast? || NobodyMissing(s) || SomeoneRouses(s)
  }

  /** The flag is set, SafeDestroy is still waiting, there is no leak and there is hope. */
  ghost predicate Draining(s: State) {
    AllOk(s) && s.destroyed && !LoopLeft(s.x) && NoLeak(s) && Hopeful(s)
  }

  /** s' is closer to the end than s. */
  ghost predicate Closer(s: State, s': State) {
    RankSum(s'.t) < RankSum(s.t) && s'.destroyed && !LoopLeft(s'.x) && NoLeak(s')
  }

  lemma CloserUpdate(s: State, s': State, i: nat, p: PC)
    requires NoLeak(s) && i < |s.t| && s'.t == s.t[i := p] && s'.destroyed && !LoopLeft(s'.x) && s'.leaked == s.leaked
    requires Rank(p) < Rank(s.t[i]) && !Leaking(p)
    ensures Closer(s, s')
  {
    RankUpdate(s.t, i, p);
    hide Leaking, Rank, RankSum;
  }

  lemma CloserEnque(s: State, i: nat, w: nat)
    requires NoLeak(s) && s.destroyed && !LoopLeft(s.x) && Can(s, Step(i, 0, w)) && InEnque(s.t[i])
    ensures Closer(s, DoEnque(s, i, 0, w))
  {
    var s' := DoEnque(s, i, 0, w);
    assert !Leaking(s.t[i]);
    hide NoLeak, Closer;
    if s.t[i].Signal? && Sleeps(s, w) {
      CloserSignal(s, i, w);
    } else {
      CloserUpdate(s, s', i, s'.t[i]);
    }
  }

  lemma CloserSignal(s: State, i: nat, w: nat)
    requires NoLeak(s) && s.destroyed && !LoopLeft(s.x) && i < |s.t| && s.t[i].Signal? && Sleeps(s, w)
    ensures Closer(s, DoEnque(s, i, 0, w))
  {
    var s1 := s.(t := s.t[i := LockOut(Void)]);
    CloserUpdate(s, s1, i, LockOut(Void));
    CloserUpdate(s1, DoEnque(s, i, 0, w), w, Woken);
  }

  lemma CloserDeque(s: State, i: nat)
    requires NoLeak(s) && s.destroyed && !LoopLeft(s.x) && Can(s, Step(i, 0, 0)) && InDeque(s.t[i])
    ensures Closer(s, DoDeque(s, i))
  {
    hide NoLeak, Closer;
    CloserUpdate(s, DoDeque(s, i), i, DoDeque(s, i).t[i]);
  }

  lemma CloserBoth(s: State, i: nat)
    requires NoLeak(s) && s.destroyed && !LoopLeft(s.x) && Can(s, Step(i, 0, 0)) && !InEnque(s.t[i]) && !InDeque(s.t[i])
    requires Rank(s.t[i]) > 0
    ensures Closer(s, DoBoth(s, i))
  {
    assert !Leaking(s.t[i]);
    hide NoLeak, Closer;
    CloserUpdate(s, DoBoth(s, i), i, DoBoth(s, i).t[i]);
  }

  /** A thread that is inside a call and awake. */
  predicate Busy(p: PC) {
    Rank(p) > 0 && !p.Asleep?
  }

  ghost predicate SomeoneBusy(s: State) {
    exists i :: 0 <= i < |s.t| && Busy(s.t[i])
  }

  /** Unless SafeDestroy holds the counter's mutex, some thread inside a call can go on: the one that holds the queue's
      mutex, else the one that holds the counter's, else any. */
  lemma Mover(s: State) returns (i: nat)
    requires Locks(s) && NoLeak(s) && !XHolds(s.x) && SomeoneBusy(s)
    ensures i < |s.t| && Busy(s.t[i])
    ensures s.t[i].LockNum? || s.t[i].LockOut? ==> s.numMut.Nobody?
    ensures s.t[i].ELock? || s.t[i].DLock? || s.t[i].Woken? ==> s.qLock.None?
  {
    if s.qLock.Some? {
      i := s.qLock.value;
      assert HoldsQ(s.t[i]) && !Leaking(s.t[i]);
    } else if s.numMut.Thread? {
      i := s.numMut.i;
      assert HoldsNum(s.t[i]) && !Leaking(s.t[i]);
    } else {
      i :| 0 <= i < |s.t| && Busy(s.t[i]);
    }
  }

  /** Thread i takes a step, waking w if it signals: that is one step closer. */
  lemma Moves(s: State, i: nat, w: nat)
    requires NoLeak(s) && s.destroyed && !LoopLeft(s.x) && Can(s, Step(i, 0, w)) && Busy(s.t[i])
    ensures Closer(s, Do(s, Step(i, 0, w)))
    ensures forall j :: Keeps(s, Do(s, Step(i, 0, w)), j)
  {
    assert !Leaking(s.t[i]);
    hide Closer, NoLeak, DoEnque, DoDeque, DoBoth;
    if InEnque(s.t[i]) {
      CloserEnque(s, i, w);
      EnqueKeeps(s, i, w);
    } else if InDeque(s.t[i]) {
      CloserDeque(s, i);
      DequeKeeps(s, i);
    } else {
      CloserBoth(s, i);
      BothKeeps(s, i);
    }
  }

  /** One step closer, of a thread that is awake inside a call, without losing hope. */
  lemma MoveOn(s: State) returns (a: Action)
    requires Draining(s) && !XHolds(s.x) && SomeoneBusy(s)
    ensures Can(s, a) && a.Step? && Closer(s, Do(s, a)) && Hopeful(Do(s, a))
    ensures forall j :: Keeps(s, Do(s, a), j)
  {
    assert Locks(s) && OneMissing(s) by {
      hide Used, Shut, ListOk, OwnOk;
    }
    hide AllOk, Closer, Leaking, Rank, Locks;
    var i, w;
    if s.x.Broadcast? || NobodyMissing(s) {
      i := Mover(s);
      w := SomeSleeper(s);
      hide Do, Keeps, SomeoneRouses;
      StaysHopeful(s, Step(i, 0, w));
    } else {
      i, w := Rouser(s);
      hide Do, Keeps;
    }
    a := Step(i, 0, w);
    Moves(s, i, w);
  }

  lemma StaysHopeful(s: State, a: Action)
    requires Locks(s) && Can(s, a) && s.destroyed && !a.XStep? && (s.x.Broadcast? || NobodyMissing(s))
    ensures Hopeful(Do(s, a))
  {
    var s' := Do(s, a);
    if s.x.Broadcast? {
      hide Locks;
      assert s'.x.Broadcast?;
    } else {
      SameThreads(s, a);
      hide Locks, Do, Can;
      forall i: nat ensures !Missing(s', i) {
        if i < |s.t| {
          WarnedStep(s, a, i);
        }
      }
    }
  }

  /** The thread that has missed the broadcast goes to sleep, or the one that will signal goes on to do so. */
  lemma Rouser(s: State) returns (i: nat, w: nat)
    requires Locks(s) && OneMissing(s) && s.destroyed && !s.x.Broadcast? && !NobodyMissing(s) && SomeoneRouses(s)
    ensures Can(s, Step(i, 0, w)) && Busy(s.t[i]) && Hopeful(Do(s, Step(i, 0, w)))
  {
    w :| Missing(s, w);
    var r :| 0 <= r < |s.t| && Rouses(s.t[r]);
    if s.t[w].Asleep? {
      i := r;
      assert Sleeps(s, w);
      RouserGoesOn(s, r, w);
    } else {
      i := w;
      hide Locks;
      assert Do(s, Step(w, 0, w)).t[r] == s.t[r];
    }
  }

  lemma RouserGoesOn(s: State, r: nat, w: nat)
    requires Locks(s) && OneMissing(s) && s.destroyed && !s.x.Broadcast? && Sleeps(s, w) && r < |s.t| && Rouses(s.t[r])
    ensures Can(s, Step(r, 0, w)) && Hopeful(Do(s, Step(r, 0, w)))
  {
    var a := Step(r, 0, w);
    var s' := Do(s, a);
    if s.t[r].Signal? {
      assert Missing(s, w) && s'.t[w].Woken?;
      SameThreads(s, a);
      hide Locks, Do, Can;
      forall i: nat ensures !Missing(s', i) {
        if i < |s.t| && i != w {
          WarnedStep(s, a, i);
        }
      }
    } else {
      hide Locks;
      assert Rouses(s'.t[r]);
    }
  }

  lemma SomeSleeper(s: State) returns (w: nat)
    ensures SomeoneSleeps(s) ==> Sleeps(s, w)
  {
    w := 0;
    if SomeoneSleeps(s) {
      w :| w < |s.t| && Sleeps(s, w);
    }
  }

  lemma KeepsOthers(s: State, s': State, i: nat, p: PC)
    requires i < |s.t| && s'.t == s.t[i := p] && !s.t[i].LockNum?
    ensures forall j :: Keeps(s, s', j)
  {
  }

  lemma EnqueKeeps(s: State, i: nat, w: nat)
    requires i < |s.t| && InEnque(s.t[i])
    ensures forall j :: Keeps(s, DoEnque(s, i, 0, w), j)
  {
  }

  lemma DequeKeeps(s: State, i: nat)
    requires i < |s.t| && InDeque(s.t[i]) && !s.t[i].Asleep?
    ensures forall j :: Keeps(s, DoDeque(s, i), j)
  {
    KeepsOthers(s, DoDeque(s, i), i, DoDeque(s, i).t[i]);
  }

  lemma BothKeeps(s: State, i: nat)
    requires i < |s.t| && !InEnque(s.t[i]) && !InDeque(s.t[i]) && Rank(s.t[i]) > 0
    ensures forall j :: Keeps(s, DoBoth(s, i), j)
  {
    KeepsOthers(s, DoBoth(s, i), i, DoBoth(s, i).t[i]);
  }

  lemma NumHolder(s: State)
    requires Locks(s)
    ensures s.numMut.Thread? ==> s.numMut.i < |s.t| && HoldsNum(s.t[s.numMut.i])
  {
  }

  /** With nobody inside a call, SafeDestroy sees the counter at zero. */
  lemma Quiet(s: State)
    requires Locks(s) && Used(s) && NoLeak(s) && RankSum(s.t) == 0
    ensures s.usedNum == 0 && !s.numMut.Thread? && WakeAll(s.t) == s.t
  {
    NumHolder(s);
    RankZero(s.t);
    CountZero(s.t, Registered);
    hide RankSum, Count, Locks;
    forall i | 0 <= i < |s.t| ensures !Registered(s.t[i]) && !HoldsNum(s.t[i]) && !s.t[i].Asleep? {
      assert Rank(s.t[i]) == 0 && !Leaking(s.t[i]);
    }
    assert Count(s.t, Registered) == 0;
  }

  /** How far SafeDestroy is from leaving its loop when nobody is inside, and from letting others go on when it holds
      the mutex. */
  function XRank(x: XPC): nat {
    match x
    case Broadcast => 6
    case XLock => 5
    case XAsleep => 5
    case XWoken => 4
    case XTest => 3
    case XWait => 2
    case _ => 0
  }

  /** Where there is no leak and there is hope, SafeDestroy can return, late callers that have not registered staying
      where they are. */
  lemma {:induction false} Drain(s: State, j: nat)
    requires Draining(s)
    ensures MayReturn(s, j)
    decreases RankSum(s.t), if XHolds(s.x) then 1 else 0, XRank(s.x), 2
  {
    if XHolds(s.x) || !SomeoneBusy(s) {
      DrainX(s, j);
    } else {
      var a := MoveOn(s);
      AllStep(s, a);
      hide AllOk, MayReturn, Do, RankSum, NoLeak, Hopeful;
      Drain(Do(s, a), j);
      OneMore(s, a, j);
    }
  }

  /** The same when it is for SafeDestroy to go on. */
  lemma {:induction false} DrainX(s: State, j: nat)
    requires Draining(s) && (XHolds(s.x) || !SomeoneBusy(s))
    ensures MayReturn(s, j)
    decreases RankSum(s.t), if XHolds(s.x) then 1 else 0, XRank(s.x), 1
  {
    if XHolds(s.x) || s.x.Broadcast? {
      XGoesOn(s, j);
    } else {
      NobodyLeft(s);
      hide AllOk, RankSum, MayReturn;
      assert MemOk(s) by {
        XQuiet(s);
      }
      XQuiet(s);
      SeesZero(s, j);
    }
  }

  /** After the broadcast and with nobody busy, nobody sleeps either. */
  lemma NobodyLeft(s: State)
    requires Draining(s) && !s.x.Broadcast? && !SomeoneBusy(s)
    ensures RankSum(s.t) == 0
  {
    hide AllOk, NoLeak, RankSum;
    RankZero(s.t);
    forall i | 0 <= i < |s.t| ensures !Rouses(s.t[i]) {
      assert !Busy(s.t[i]);
    }
    assert NobodyMissing(s);
    hide Rank;
    forall i | 0 <= i < |s.t| ensures Rank(s.t[i]) == 0 {
      assert !Missing(s, i) && !Busy(s.t[i]);
    }
  }

  /** Then the counter is at zero, its mutex is free and SafeDestroy is awake. */
  lemma XQuiet(s: State)
    requires AllOk(s) && s.destroyed && !LoopLeft(s.x) && NoLeak(s) && !XHolds(s.x) && !s.x.Broadcast?
    requires RankSum(s.t) == 0
    ensures MemOk(s) && s.usedNum == 0 && s.numMut.Nobody? && (s.x.XLock? || s.x.XWoken?)
  {
    assert Locks(s) && Used(s) && Shut(s);
    Quiet(s);
    RankZero(s.t);
    hide Locks, Used, RankSum, MemOk, NoLeak;
    assert s.numMut.Nobody?;
    forall i | 0 <= i < |s.t| ensures !s.t[i].SignalNum? {
      assert Rank(s.t[i]) == 0;
    }
  }

  lemma {:induction false} WakeRank(t: seq<PC>)
    ensures RankSum(WakeAll(t)) <= RankSum(t)
    decreases |t|
  {
    if t != [] {
      var r := t[..|t| - 1];
      assert WakeAll(t)[..|t| - 1] == WakeAll(r);
      WakeRank(r);
    }
  }

  /** One step of SafeDestroy. */
  lemma {:induction false} XGoesOn(s: State, j: nat)
    requires Draining(s) && (XHolds(s.x) || (s.x.Broadcast? && !SomeoneBusy(s)))
    ensures MayReturn(s, j)
    decreases RankSum(s.t), if XHolds(s.x) then 1 else 0, XRank(s.x), 0
  {
    var s' := Do(s, XStep);
    AllStep(s, XStep);
    XStepKeeps(s);
    XStepHopeful(s, j);
    hide AllOk, MayReturn, RankSum, NoLeak, Hopeful, Do, Keeps;
    if LoopLeft(s'.x) {
      assert MemOk(s') by {
        AllIsMem(s');
      }
      Finishes(s', j);
    } else {
      Drain(s', j);
    }
    OneMore(s, XStep, j);
  }

  lemma AllIsMem(s: State)
    requires AllOk(s)
    ensures MemOk(s)
  {
  }

  lemma XStepKeeps(s: State)
    requires Can(s, XStep) && NoLeak(s) && s.destroyed && (XHolds(s.x) || s.x.Broadcast?)
    ensures var s' := Do(s, XStep);
            && s'.destroyed && NoLeak(s') && RankSum(s'.t) <= RankSum(s.t)
            && (LoopLeft(s'.x) || XRank(s'.x) < XRank(s.x) || (XHolds(s.x) && !XHolds(s'.x)))
            && (XHolds(s'.x) ==> XHolds(s.x))
  {
    WakeRank(s.t);
    hide RankSum;
  }

  lemma XStepHopeful(s: State, j: nat)
    requires Draining(s) && Can(s, XStep) && (XHolds(s.x) || (s.x.Broadcast? && !SomeoneBusy(s)))
    ensures Hopeful(Do(s, XStep)) && Keeps(s, Do(s, XStep), j)
  {
    hide AllOk, NoLeak;
    var s' := Do(s, XStep);
    if s.x.Broadcast? {
      forall i: nat ensures !Missing(s', i) {
        assert i < |s.t| ==> !Busy(s.t[i]);
      }
    } else {
      assert s'.t == s.t && s'.head == s.head && s'.tail == s.tail;
      assert NobodyMissing(s) ==> forall i: nat :: !Missing(s', i) == !Missing(s, i);
    }
  }

  /** SafeDestroy takes the counter's mutex and sees zero. */
  lemma SeesZero(s: State, j: nat)
    requires MemOk(s) && (s.x.XLock? || s.x.XWoken?) && s.numMut.Nobody? && s.usedNum == 0
    ensures MayReturn(s, j)
  {
    var s1 := Do(s, XStep);
    var s2 := Do(s1, XStep);
    MemStep(s, XStep);
    MemStep(s1, XStep);
    hide MemOk, MayReturn;
    Finishes(s2, j);
    OneMore(s1, XStep, j);
    OneMore(s, XStep, j);
  }

  // ---- Exactly -----------------------------------------------------------------------------------------------

  /** Some continuation of s lets SafeDestroy return; only if `aided` may it contain unasked wake-ups. */
  ghost predicate CanReturn(s: State, aided: bool) {
    exists acts, s' :: Runs(s, acts, s') && (aided || Unaided(acts)) && s'.x.Gone?
  }

  /** One SafeEnque that has left early, or is past its registration and short of its second look at the flag when the
      flag is set, and SafeDestroy never leaves its loop. */
  lemma LeakBlocksDestroy(s: State, acts: seq<Action>, s': State)
    requires Reachable(s) && s.destroyed && !LoopLeft(s.x) && !NoLeak(s) && Runs(s, acts, s')
    ensures !LoopLeft(s'.x)
  {
    MemAlways(s);
    HopelessRuns(s, acts, s');
  }

  /** One thread that has missed the broadcast while nobody is going to signal, and only an unasked wake-up lets
      SafeDestroy leave its loop. */
  lemma LostBlocksDestroy(s: State, acts: seq<Action>, s': State)
    requires Reachable(s) && s.destroyed && !LoopLeft(s.x) && !Hopeful(s) && Runs(s, acts, s') && Unaided(acts)
    ensures !LoopLeft(s'.x)
  {
    MemAlways(s);
    assert Locks(s) && Used(s) && Shut(s);
    hide Locks, Used;
    assert Lost(s);
    LostForever(s, acts, s');
  }

  /** From any state reached with the flag set, SafeDestroy can return without unasked wake-ups exactly when there is no
      such SafeEnque and SafeDestroy has yet to broadcast, or nobody has missed the broadcast, or somebody will signal;
      and with unasked wake-ups exactly when there is no such SafeEnque. */
  lemma ReturnsExactly(s: State)
    requires Reachable(s) && s.destroyed && !LoopLeft(s.x)
    ensures CanReturn(s, false) <==> NoLeak(s) && Hopeful(s)
    ensures CanReturn(s, true) <==> NoLeak(s)
  {
    AllAlways(s);
    hide AllOk, NoLeak, Hopeful, Reachable, LoopLeft;
    if !NoLeak(s) {
      forall acts, s' | Runs(s, acts, s') ensures !s'.x.Gone? {
        LeakBlocksDestroy(s, acts, s');
        assert s'.x.Gone? ==> LoopLeft(s'.x) by {
          GoneHasLeft(s'.x);
        }
      }
    } else if Hopeful(s) {
      Drain(s, |s.t|);
    } else {
      forall acts, s' | Runs(s, acts, s') && Unaided(acts) ensures !s'.x.Gone? {
        LostBlocksDestroy(s, acts, s');
        GoneHasLeft(s'.x);
      }
      var w: nat :| Missing(s, w) by {
        NotHopeful(s);
      }
      Shaken(s, w);
    }
  }

  lemma GoneHasLeft(x: XPC)
    ensures x.Gone? ==> LoopLeft(x)
  {
  }

  lemma NotHopeful(s: State)
    requires !Hopeful(s)
    ensures exists w: nat :: Missing(s, w)
  {
  }

  lemma AidedMore(s: State, a: Action)
    requires Can(s, a) && CanReturn(Do(s, a), true)
    ensures CanReturn(s, true)
  {
    hide Do, Can;
    var acts, s' :| Runs(Do(s, a), acts, s') && s'.x.Gone?;
    assert ([a] + acts)[1..] == acts;
    assert Runs(s, [a] + acts, s');
  }

  /** The thread that has missed the broadcast falls asleep and wakes up unasked. */
  lemma {:induction false} Shaken(s: State, w: nat)
    requires AllOk(s) && s.destroyed && !LoopLeft(s.x) && NoLeak(s) && !Hopeful(s) && Missing(s, w)
    ensures CanReturn(s, true)
    decreases Rank(s.t[w])
  {
    var a := if s.t[w].Asleep? then Spurious(w) else Step(w, 0, 0);
    var s' := Do(s, a);
    AllStep(s, a);
    ShakenOn(s, w);
    hide AllOk, NoLeak, Hopeful, CanReturn, MayReturn, Do;
    if Hopeful(s') {
      Drain(s', |s'.t|);
      assert CanReturn(s', true) by {
        ReturnsAided(s', |s'.t|);
      }
    } else {
      Shaken(s', w);
    }
    AidedMore(s, a);
  }

  lemma ReturnsAided(s: State, j: nat)
    requires MayReturn(s, j)
    ensures CanReturn(s, true)
  {
  }

  lemma ShakenOn(s: State, w: nat)
    requires AllOk(s) && s.destroyed && !LoopLeft(s.x) && NoLeak(s) && !Hopeful(s) && Missing(s, w)
    ensures var a := if s.t[w].Asleep? then Spurious(w) else Step(w, 0, 0);
            && Can(s, a) && Do(s, a).destroyed && !LoopLeft(Do(s, a).x) && NoLeak(Do(s, a))
            && (Hopeful(Do(s, a)) || (Missing(Do(s, a), w) && Rank(Do(s, a).t[w]) < Rank(s.t[w])))
  {
    assert OneMissing(s);
    hide MemOk, XOwed;
    if s.t[w].Asleep? {
      var s' := Do(s, Spurious(w));
      assert forall i: nat | i != w && Missing(s', i) :: Missing(s, i);
      assert NobodyMissing(s');
    } else {
      assert !Leaking(Do(s, Step(w, 0, 0)).t[w]);
    }
  }

  lemma FlagSet(s: State)
    requires Reachable(s) && s.x.NotYet?
    ensures Can(s, XStep) && Reachable(Do(s, XStep)) && Do(s, XStep).t == s.t && Do(s, XStep).leaked == s.leaked
    ensures Do(s, XStep).destroyed && Do(s, XStep).x.Broadcast?
  {
    ReachMore(s, XStep);
  }

  /** What a caller can look at before it calls SafeDestroy: that can return, with or without unasked wake-ups, exactly
      when no SafeEnque is between its registration and its second look at the flag, and none has ever left early. */
  lemma DestroyReturnsExactly(s: State, aided: bool)
    requires Reachable(s) && s.x.NotYet?
    ensures CanReturn(Do(s, XStep), aided) <==> NoLeak(s)
  {
    FlagSet(s);
    hide Reachable, CanReturn, Do;
    ReturnsExactly(Do(s, XStep));
  }
}
