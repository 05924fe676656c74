/** Signals are not lost before shutdown: an item is never left in the queue with every worker asleep. */
module QueueWakeups {
  import opened Bytes
  import opened SafeQueue
  import opened QueueSafety
  import opened QueueList

  /** On its way to a signal for an item it has linked, or awake and about to look for an item. */
  predicate Coming(p: PC) {
    || p.MoveTail? || p.EUnlock? || p.Signal?
    || p.Woken? || p.Test? || p.TestEmpty? || p.Retest? || p.First? || p.Unlink?
  }

  /** While somebody sleeps, there are no more items in the queue than threads coming for them. */
  ghost predicate Attended(s: State) {
    !s.destroyed && SomeoneSleeps(s) ==> |s.chain| <= Count(s.t, Coming)
  }

  /** Thread i goes on to p, and the list grows by no more than the threads that are coming. */
  lemma AttendedUpdate(s: State, s': State, i: nat, p: PC)
    requires Attended(s) && i < |s.t| && s'.t == s.t[i := p] && s'.destroyed == s.destroyed
    requires || s'.chain == []
             || (!p.Asleep? && |s'.chain| - |s.chain| <= (if Coming(p) then 1 else 0) - if Coming(s.t[i]) then 1 else 0)
    ensures Attended(s')
  {
    CountUpdate(s.t, i, p, Coming);
    hide Count, Coming;
    if !s'.destroyed && SomeoneSleeps(s') && s'.chain != [] {
      var j :| 0 <= j < |s'.t| && Sleeps(s', j);
      assert Sleeps(s, j);
    }
  }

  lemma AttendedEnque(s: State, i: nat, n: Ptr, w: nat)
    requires Attended(s) && Can(s, Step(i, n, w)) && InEnque(s.t[i])
    ensures Attended(DoEnque(s, i, n, w))
  {
    hide Attended;
    var s' := DoEnque(s, i, n, w);
    if s.t[i].Signal? {
      AttendedSignal(s, i, w);
    } else if !s.destroyed {
      AttendedUpdate(s, s', i, s'.t[i]);
    } else {
      AttendedLate(s');
    }
  }

  lemma AttendedLate(s: State)
    requires s.destroyed
    ensures Attended(s)
  {
  }

  /** The signal that a linking thread owes: it wakes one of those that sleep. */
  lemma AttendedSignal(s: State, i: nat, w: nat)
    requires Attended(s) && Can(s, Step(i, 0, w)) && s.t[i].Signal?
    ensures Attended(DoEnque(s, i, 0, w))
  {
    var s' := DoEnque(s, i, 0, w);
    var t1 := s.t[i := LockOut(Void)];
    CountUpdate(s.t, i, LockOut(Void), Coming);
    if Sleeps(s, w) {
      CountUpdate(t1, w, Woken, Coming);
    } else {
      assert forall j | 0 <= j < |s.t| && j != i :: Sleeps(s', j) <==> Sleeps(s, j);
    }
    hide Count;
  }

  lemma AttendedDeque(s: State, i: nat)
    requires Attended(s) && MemOk(s) && Can(s, Step(i, 0, 0)) && InDeque(s.t[i])
    ensures Attended(DoDeque(s, i))
  {
    hide Attended;
    var s' := DoDeque(s, i);
    if s.destroyed {
      AttendedLate(s');
    } else {
      EmptyWhenWaiting(s, i);
      hide MemOk;
      AttendedUpdate(s, s', i, s'.t[i]);
    }
  }

  /** Where a thread decides to wait, the list is empty; where it takes an item, it is not. */
  lemma EmptyWhenWaiting(s: State, i: nat)
    requires MemOk(s) && Can(s, Step(i, 0, 0))
    ensures s.t[i].Wait? || (s.t[i].TestEmpty? && s.head == s.tail) ==> s.chain == []
    ensures s.t[i].Unlink? ==> s.chain != []
  {
    assert HoldsQ(s.t[i]) ==> Holder(s) == s.t[i];
    hide Locks, Used, Shut, OwnOk, Listed;
    assert |Items(s)| == |s.chain| by {
      HolderKnows(s);
    }
    assert s.chain != [] ==> Nodes(s)[0] != Nodes(s)[|s.chain|];
  }

  lemma AttendedBoth(s: State, i: nat)
    requires Attended(s) && Can(s, Step(i, 0, 0)) && !InEnque(s.t[i]) && !InDeque(s.t[i])
    ensures Attended(DoBoth(s, i))
  {
    hide Attended;
    var s' := DoBoth(s, i);
    AttendedUpdate(s, s', i, s'.t[i]);
  }

  lemma AttendedX(s: State)
    requires Attended(s) && Shut(s) && Can(s, XStep)
    ensures Attended(DoX(s))
  {
  }

  lemma AttendedStep(s: State, a: Action)
    requires Attended(s) && MemOk(s) && Can(s, a)
    ensures Attended(Do(s, a))
  {
    assert Shut(s);
    hide DoBoth, DoEnque, DoDeque, DoX, Attended, MemOk, Shut;
    match a
    case Step(i, n, w) =>
      if InEnque(s.t[i]) {
        AttendedEnque(s, i, n, w);
      } else if InDeque(s.t[i]) {
        AttendedDeque(s, i);
      } else {
        AttendedBoth(s, i);
      }
    case XStep => AttendedX(s);
    case Start(i, c) => AttendedUpdate(s, Do(s, a), i, Check(c));
    case Spurious(i) => AttendedUpdate(s, Do(s, a), i, Woken);
    case XSpurious => AttendedSame(s, Do(s, a));
  }

  lemma AttendedSame(s: State, s': State)
    requires Attended(s) && s'.t == s.t && s'.destroyed == s.destroyed && s'.chain == s.chain
    ensures Attended(s')
  {
    if SomeoneSleeps(s') {
      var j :| 0 <= j < |s'.t| && Sleeps(s', j);
      assert Sleeps(s, j);
    }
  }

  lemma {:induction false} AttendedRuns(s: State, acts: seq<Action>, s': State)
    requires Attended(s) && MemOk(s) && Runs(s, acts, s')
    ensures Attended(s')
    decreases |acts|
  {
    hide MemOk, Attended, Do;
    if acts != [] {
      MemStep(s, acts[0]);
      AttendedStep(s, acts[0]);
      AttendedRuns(Do(s, acts[0]), acts[1..], s');
    }
  }

  /** No lost wake-up: as long as the queue is not destroyed and somebody sleeps, the items that are linked and
      not taken are no more than the threads that still owe a signal or are awake and about to take one. */
  lemma NoLostWakeup(s: State)
    requires Reachable(s) && !s.destroyed && SomeoneSleeps(s)
    ensures |s.linked| - |s.taken| <= Count(s.t, Coming)
  {
    var s0, acts :| Initial(s0) && Runs(s0, acts, s);
    MemInitial(s0);
    assert !SomeoneSleeps(s0);
    AttendedRuns(s0, acts, s);
    Fifo(s, 0);
  }

  /** So a worker asleep and no thread under way means that there is nothing to do. */
  lemma NotStranded(s: State, i: nat)
    requires Reachable(s) && !s.destroyed && Sleeps(s, i)
    requires forall j | 0 <= j < |s.t| :: !Coming(s.t[j])
    ensures s.taken == s.linked
  {
    NoLostWakeup(s);
    CountZero(s.t, Coming);
    Fifo(s, 0);
  }
}
