/** What becomes of the queue's memory: every node is freed but those that SafeEnque leaves behind by its early return. */
module QueueMemory {
  import opened Bytes
  import opened SafeQueue
  import opened QueueSafety
  import opened QueueList

  /** The thread has a node of its own: not linked yet, or unlinked and not freed yet, or to be left behind. */
  predicate HasNode(p: PC) {
    || p.ELock? || p.ECheck? || p.EQuit? || p.Link?
    || p.TestTail? || p.ResetTail? || p.DUnlock? || p.Free?
  }

  /** The allocated nodes are the list's, less those that SafeDestroy has freed, the threads' own, and those left behind. */
  ghost predicate Balanced(s: State) {
    |s.mem| + Freed(s) == 1 + |s.chain| + Count(s.t, HasNode) + s.leaked
  }

  lemma BalancedUpdate(s: State, s': State, i: nat, p: PC)
    requires Balanced(s) && i < |s.t| && s'.t == s.t[i := p]
    requires |s'.mem| + Freed(s') - |s'.chain| - s'.leaked - (if HasNode(p) then 1 else 0)
          == |s.mem| + Freed(s) - |s.chain| - s.leaked - if HasNode(s.t[i]) then 1 else 0
    ensures Balanced(s')
  {
    CountUpdate(s.t, i, p, HasNode);
    hide Freed, HasNode;
  }

  lemma MapLess(m: map<Ptr, QNode>, n: Ptr)
    requires n in m
    ensures |m - {n}| == |m| - 1
  {
    assert m.Keys == (m - {n}).Keys + {n};
    assert |m.Keys| == |(m - {n}).Keys| + 1;
    assert |m| == |m.Keys| && |m - {n}| == |(m - {n}).Keys|;
  }

  lemma MapMore(m: map<Ptr, QNode>, n: Ptr, q: QNode)
    requires n !in m
    ensures |m[n := q]| == |m| + 1
  {
    MapLess(m[n := q], n);
    assert m[n := q] - {n} == m;
  }

  lemma MapSame(m: map<Ptr, QNode>, n: Ptr, next: Option<Ptr>)
    ensures |SetNext(m, n, next)| == |m|
  {
    assert SetNext(m, n, next).Keys == m.Keys;
    assert |m| == |m.Keys| && |SetNext(m, n, next)| == |SetNext(m, n, next).Keys|;
  }

  lemma BalancedEnque(s: State, i: nat, n: Ptr, w: nat)
    requires Balanced(s) && Shut(s) && Can(s, Step(i, n, w)) && InEnque(s.t[i])
    ensures Balanced(DoEnque(s, i, n, w))
  {
    var s' := DoEnque(s, i, n, w);
    if s.t[i].Signal? {
      NotFreed(s, i);
      hide Balanced;
      var s1 := s.(t := s.t[i := LockOut(Void)]);
      BalancedUpdate(s, s1, i, LockOut(Void));
      if Sleeps(s, w) {
        BalancedUpdate(s1, s', w, Woken);
      }
    } else {
      if s.t[i].Malloc? {
        MapMore(s.mem, n, QNode(s.t[i].v, None));
      }
      if s.t[i].Link? {
        MapSame(s.mem, s.tail, Some(s.t[i].n));
      }
      hide Balanced, Shut;
      BalancedUpdate(s, s', i, s'.t[i]);
    }
  }

  lemma BalancedDeque(s: State, i: nat)
    requires Balanced(s) && MemOk(s) && Can(s, Step(i, 0, 0)) && InDeque(s.t[i])
    ensures Balanced(DoDeque(s, i))
  {
    assert Locks(s) && Shut(s) && ListOk(s) && OwnOk(s);
    hide Locks, Used, Shut, ListOk, OwnOk, Balanced, DoDeque;
    if s.t[i].Free? {
      BalancedFree(s, i);
    } else if s.t[i].Unlink? {
      BalancedUnlink(s, i);
    } else {
      hide *;
      BalancedElsewhere(s, i);
    }
  }

  lemma BalancedElsewhere(s: State, i: nat)
    requires Balanced(s) && Can(s, Step(i, 0, 0)) && InDeque(s.t[i]) && !s.t[i].Free? && !s.t[i].Unlink?
    ensures Balanced(DoDeque(s, i))
  {
    hide Balanced;
    BalancedUpdate(s, DoDeque(s, i), i, DoDeque(s, i).t[i]);
  }

  lemma BalancedFree(s: State, i: nat)
    requires Balanced(s) && OwnOk(s) && i < |s.t| && s.t[i].Free?
    ensures Balanced(DoDeque(s, i))
  {
    assert Own(s.t[i]) == Some(s.t[i].n);
    MapLess(s.mem, s.t[i].n);
    hide Balanced, OwnOk;
    BalancedUpdate(s, DoDeque(s, i), i, DoDeque(s, i).t[i]);
  }

  lemma BalancedUnlink(s: State, i: nat)
    requires Balanced(s) && Locks(s) && Shut(s) && ListOk(s) && Can(s, Step(i, 0, 0)) && s.t[i].Unlink?
    ensures Balanced(DoDeque(s, i))
  {
    MapSame(s.mem, s.head, NextOf(s.mem, s.t[i].n));
    UnlinkFacts(s, i, DoDeque(s, i));
    hide Balanced, Locks, Shut, ListOk, Freed;
    BalancedUpdate(s, DoDeque(s, i), i, DoDeque(s, i).t[i]);
  }

  lemma BalancedBoth(s: State, i: nat)
    requires Balanced(s) && Can(s, Step(i, 0, 0)) && !InEnque(s.t[i]) && !InDeque(s.t[i])
    ensures Balanced(DoBoth(s, i))
  {
    hide Balanced;
    BalancedUpdate(s, DoBoth(s, i), i, DoBoth(s, i).t[i]);
  }

  lemma BalancedX(s: State)
    requires Balanced(s) && MemOk(s) && Can(s, XStep)
    ensures Balanced(DoX(s))
  {
    var s' := DoX(s);
    CountMapped(s.t, s'.t, HasNode);
    if s.x.XFree? {
      if s.x.t.Some? {
        assert s.x.k < |Nodes(s)| && s.x.t.value == Nodes(s)[s.x.k] && Nodes(s)[s.x.k] in s.mem by {
          hide Locks, Used, Shut, OwnOk;
        }
        MapLess(s.mem, s.x.t.value);
      } else {
        assert s.x.k == |Nodes(s)| by {
          hide Locks, Used, Shut, OwnOk;
        }
      }
    }
    hide Count, MemOk;
  }

  lemma BalancedStep(s: State, a: Action)
    requires Balanced(s) && MemOk(s) && Can(s, a)
    ensures Balanced(Do(s, a))
  {
    assert Shut(s);
    hide DoBoth, DoEnque, DoDeque, DoX, Balanced, MemOk, Shut;
    match a
    case Step(i, n, w) =>
      if InEnque(s.t[i]) {
        BalancedEnque(s, i, n, w);
      } else if InDeque(s.t[i]) {
        BalancedDeque(s, i);
      } else {
        BalancedBoth(s, i);
      }
    case XStep => BalancedX(s);
    case Start(i, c) => BalancedUpdate(s, Do(s, a), i, Check(c));
    case Spurious(i) => BalancedUpdate(s, Do(s, a), i, Woken);
    case XSpurious => BalancedAwake(s);
  }

  lemma BalancedAwake(s: State)
    requires Balanced(s) && s.x.XAsleep?
    ensures Balanced(s.(x := XWoken))
  {
  }

  lemma {:induction false} BalancedRuns(s: State, acts: seq<Action>, s': State)
    requires Balanced(s) && MemOk(s) && Runs(s, acts, s')
    ensures Balanced(s')
    decreases |acts|
  {
    hide MemOk, Balanced, Do;
    if acts != [] {
      MemStep(s, acts[0]);
      BalancedStep(s, acts[0]);
      BalancedRuns(Do(s, acts[0]), acts[1..], s');
    }
  }

  lemma BalancedInitial(s: State)
    requires Initial(s)
    ensures Balanced(s)
  {
    CountZero(s.t, HasNode);
    assert |s.mem| == |s.mem.Keys| == 1;
    hide Count;
  }

  /** At every point of every run the allocated nodes are one for the head, one for each item in the list, less those that
      SafeDestroy has freed, one for each thread that is between malloc and linking or between unlinking and free, and
      one for each SafeEnque that has left early or is about to. */
  lemma NodesAccounted(s: State)
    requires Reachable(s)
    ensures |s.mem| + Freed(s) == 1 + |s.chain| + Count(s.t, HasNode) + s.leaked
  {
    var s0, acts :| Initial(s0) && Runs(s0, acts, s);
    MemInitial(s0);
    BalancedInitial(s0);
    BalancedRuns(s0, acts, s);
  }

  /** So when SafeDestroy has returned and no thread has a node of its own, exactly as many nodes are still allocated as
      calls of SafeEnque have left early. */
  lemma NothingLeft(s: State)
    requires Reachable(s) && s.x.Gone? && forall i | 0 <= i < |s.t| :: !HasNode(s.t[i])
    ensures |s.mem| == s.leaked
  {
    NodesAccounted(s);
    CountZero(s.t, HasNode);
    hide Count;
  }
}
