/** The workers of pool/thread_pool.c as clients of the queue: no task is lost and none is run twice. */
module ThreadPool {
  import opened Bytes
  import opened SafeQueue
  import opened QueueSafety
  import opened QueueList

  /** The task that a worker has taken and not run to its end, and the task's number. */
  function Task(p: PC): Option<(Ptr, nat)> {
    match p
    case Work(v, k) => Some((v, k))
    case TestTail(_, v, k) => Some((v, k))
    case ResetTail(_, v, k) => Some((v, k))
    case DUnlock(_, v, k) => Some((v, k))
    case Free(_, v, k) => Some((v, k))
    case LockOut(r) => TaskOf(r)
    case Decr(r) => TaskOf(r)
    case SignalNum(r) => TaskOf(r)
    case UnlockOut(r) => TaskOf(r)
    case _ => None
  }

  function TaskOf(r: Ret): Option<(Ptr, nat)> {
    if r.Item? then Some((r.v, r.k)) else None
  }

  predicate HasTask(p: PC) {
    Task(p).Some?
  }

  ghost predicate Numbered(s: State) {
    && (forall i {:trigger s.t[i]} | 0 <= i < |s.t| && HasTask(s.t[i]) ::
          var (v, k) := Task(s.t[i]).value; k < |s.taken| && s.taken[k] == v && k !in s.finished)
    && (forall i, j | 0 <= i < j < |s.t| && HasTask(s.t[i]) && HasTask(s.t[j]) ::
          Task(s.t[i]).value.1 != Task(s.t[j]).value.1)
    && (forall k | k in s.finished :: k < |s.taken|)
    && |s.taken| == |s.finished| + Count(s.t, HasTask)
  }

  /** Thread i keeps its task, or its having none. */
  lemma KeepsTask(s: State, s': State, i: nat, p: PC)
    requires Numbered(s) && i < |s.t| && s'.t == s.t[i := p] && s'.taken == s.taken && s'.finished == s.finished
    requires Task(p) == Task(s.t[i])
    ensures Numbered(s')
  {
    CountUpdate(s.t, i, p, HasTask);
    hide Task, Count;
  }

  lemma TakesTask(s: State, s': State, i: nat, p: PC, v: Ptr)
    requires Numbered(s) && i < |s.t| && s'.t == s.t[i := p] && s'.taken == s.taken + [v] && s'.finished == s.finished
    requires Task(s.t[i]) == None && Task(p) == Some((v, |s.taken|))
    ensures Numbered(s')
  {
    CountUpdate(s.t, i, p, HasTask);
    hide Task, Count;
  }

  lemma EndsTask(s: State, s': State, i: nat, p: PC)
    requires Numbered(s) && i < |s.t| && s'.t == s.t[i := p] && s'.taken == s.taken && HasTask(s.t[i])
    requires s'.finished == s.finished + {Task(s.t[i]).value.1} && Task(p) == None
    ensures Numbered(s')
  {
    CountUpdate(s.t, i, p, HasTask);
    hide Task, Count;
  }

  lemma NumberedEnque(s: State, i: nat, n: Ptr, w: nat)
    requires Numbered(s) && Can(s, Step(i, n, w)) && InEnque(s.t[i])
    ensures Numbered(DoEnque(s, i, n, w))
  {
    hide Numbered;
    var s' := DoEnque(s, i, n, w);
    if s.t[i].Signal? {
      var s1 := s.(t := s.t[i := LockOut(Void)]);
      KeepsTask(s, s1, i, LockOut(Void));
      if Sleeps(s, w) {
        KeepsTask(s1, s', w, Woken);
      }
    } else {
      KeepsTask(s, s', i, s'.t[i]);
    }
  }

  lemma NumberedDeque(s: State, i: nat)
    requires Numbered(s) && Can(s, Step(i, 0, 0)) && InDeque(s.t[i])
    ensures Numbered(DoDeque(s, i))
  {
    hide Numbered;
    var s' := DoDeque(s, i);
    if s.t[i].Unlink? {
      TakesTask(s, s', i, s'.t[i], s.t[i].v);
    } else {
      KeepsTask(s, s', i, s'.t[i]);
    }
  }

  lemma NumberedBoth(s: State, i: nat)
    requires Numbered(s) && Can(s, Step(i, 0, 0)) && !InEnque(s.t[i]) && !InDeque(s.t[i])
    ensures Numbered(DoBoth(s, i))
  {
    hide Numbered;
    var s' := DoBoth(s, i);
    if s.t[i].Work? {
      EndsTask(s, s', i, s'.t[i]);
    } else {
      KeepsTask(s, s', i, s'.t[i]);
    }
  }

  lemma NumberedX(s: State)
    requires Numbered(s) && Can(s, XStep)
    ensures Numbered(DoX(s))
  {
    hide Numbered;
    var s' := DoX(s);
    assert forall i {:trigger s'.t[i]} | 0 <= i < |s.t| :: Task(s'.t[i]) == Task(s.t[i]);
    NumberedSame(s, s');
  }

  lemma NumberedSame(s: State, s': State)
    requires Numbered(s) && s'.taken == s.taken && s'.finished == s.finished && |s'.t| == |s.t|
    requires forall i {:trigger s'.t[i]} | 0 <= i < |s.t| :: Task(s'.t[i]) == Task(s.t[i])
    ensures Numbered(s')
  {
    CountMapped(s.t, s'.t, HasTask);
    hide Count, Task;
  }

  lemma NumberedStep(s: State, a: Action)
    requires Numbered(s) && Can(s, a)
    ensures Numbered(Do(s, a))
  {
    hide DoBoth, DoEnque, DoDeque, DoX, Numbered;
    match a
    case Step(i, n, w) =>
      if InEnque(s.t[i]) {
        NumberedEnque(s, i, n, w);
      } else if InDeque(s.t[i]) {
        NumberedDeque(s, i);
      } else {
        NumberedBoth(s, i);
      }
    case XStep => NumberedX(s);
    case Start(i, c) => KeepsTask(s, Do(s, a), i, Check(c));
    case Spurious(i) => KeepsTask(s, Do(s, a), i, Woken);
    case XSpurious => NumberedAwake(s);
  }

  lemma NumberedAwake(s: State)
    requires Numbered(s)
    ensures Numbered(s.(x := XWoken))
  {
  }

  lemma {:induction false} NumberedRuns(s: State, acts: seq<Action>, s': State)
    requires Numbered(s) && Runs(s, acts, s')
    ensures Numbered(s')
    decreases |acts|
  {
    hide Numbered, Do;
    if acts != [] {
      NumberedStep(s, acts[0]);
      NumberedRuns(Do(s, acts[0]), acts[1..], s');
    }
  }

  lemma NumberedAlways(s: State)
    requires Reachable(s)
    ensures Numbered(s)
  {
    var s0, acts :| Initial(s0) && Runs(s0, acts, s);
    CountZero(s0.t, HasTask);
    assert Numbered(s0) by {
      hide Count;
    }
    NumberedRuns(s0, acts, s);
  }

  /** When a worker runs a task, it is the one that AddTask linked under that number, it has not been run to its
      end before, and no other worker has it. */
  lemma RunAtMostOnce(s: State, i: nat, j: nat)
    requires Reachable(s) && i < |s.t| && j < |s.t| && s.t[i].Work?
    ensures s.t[i].k < |s.linked| && s.t[i].v == s.linked[s.t[i].k] && s.t[i].k !in s.finished
    ensures i != j && HasTask(s.t[j]) ==> Task(s.t[j]).value.1 != s.t[i].k
  {
    NumberedAlways(s);
    Fifo(s, 0);
    hide Count;
    assert HasTask(s.t[i]) && Task(s.t[i]).value == (s.t[i].v, s.t[i].k);
  }

  // ---- What becomes of a task that is added ------------------------------------------------------------------

  /** In AddTask, with the task not linked and not given up. */
  predicate Adding(p: PC) {
    match p
    case Check(c) => c.Enque?
    case LockNum(c) => c.Enque?
    case Incr(c) => c.Enque?
    case UnlockNum(c) => c.Enque?
    case _ => p.Malloc? || p.ELock? || p.ECheck? || p.EQuit? || p.Link?
  }

  ghost predicate Accounted(s: State) {
    s.added == |s.linked| + s.dropped + Count(s.t, Adding)
  }

  lemma AccountedUpdate(s: State, s': State, i: nat, p: PC)
    requires Accounted(s) && i < |s.t| && s'.t == s.t[i := p]
    requires s'.added - |s'.linked| - s'.dropped
          == s.added - |s.linked| - s.dropped + (if Adding(p) then 1 else 0) - if Adding(s.t[i]) then 1 else 0
    ensures Accounted(s')
  {
    CountUpdate(s.t, i, p, Adding);
    hide Adding, Count;
  }

  lemma AccountedEnque(s: State, i: nat, n: Ptr, w: nat)
    requires Accounted(s) && Can(s, Step(i, n, w)) && InEnque(s.t[i])
    ensures Accounted(DoEnque(s, i, n, w))
  {
    hide Accounted;
    var s' := DoEnque(s, i, n, w);
    if s.t[i].Signal? {
      var s1 := s.(t := s.t[i := LockOut(Void)]);
      AccountedUpdate(s, s1, i, LockOut(Void));
      if Sleeps(s, w) {
        AccountedUpdate(s1, s', w, Woken);
      }
    } else {
      AccountedUpdate(s, s', i, s'.t[i]);
    }
  }

  lemma AccountedDeque(s: State, i: nat)
    requires Accounted(s) && Can(s, Step(i, 0, 0)) && InDeque(s.t[i])
    ensures Accounted(DoDeque(s, i))
  {
    hide Accounted;
    AccountedUpdate(s, DoDeque(s, i), i, DoDeque(s, i).t[i]);
  }

  lemma AccountedBoth(s: State, i: nat)
    requires Accounted(s) && Can(s, Step(i, 0, 0)) && !InEnque(s.t[i]) && !InDeque(s.t[i])
    ensures Accounted(DoBoth(s, i))
  {
    hide Accounted;
    AccountedUpdate(s, DoBoth(s, i), i, DoBoth(s, i).t[i]);
  }

  lemma AccountedX(s: State)
    requires Accounted(s) && Can(s, XStep)
    ensures Accounted(DoX(s))
  {
    CountMapped(s.t, DoX(s).t, Adding);
    hide Count;
  }

  lemma AccountedStep(s: State, a: Action)
    requires Accounted(s) && Can(s, a)
    ensures Accounted(Do(s, a))
  {
    hide DoBoth, DoEnque, DoDeque, DoX, Accounted;
    match a
    case Step(i, n, w) =>
      if InEnque(s.t[i]) {
        AccountedEnque(s, i, n, w);
      } else if InDeque(s.t[i]) {
        AccountedDeque(s, i);
      } else {
        AccountedBoth(s, i);
      }
    case XStep => AccountedX(s);
    case Start(i, c) => AccountedUpdate(s, Do(s, a), i, Check(c));
    case Spurious(i) => AccountedUpdate(s, Do(s, a), i, Woken);
    case XSpurious => AccountedAwake(s);
  }

  lemma AccountedAwake(s: State)
    requires Accounted(s)
    ensures Accounted(s.(x := XWoken))
  {
  }

  lemma {:induction false} AccountedRuns(s: State, acts: seq<Action>, s': State)
    requires Accounted(s) && Runs(s, acts, s')
    ensures Accounted(s')
    decreases |acts|
  {
    hide Accounted, Do;
    if acts != [] {
      AccountedStep(s, acts[0]);
      AccountedRuns(Do(s, acts[0]), acts[1..], s');
    }
  }

  lemma AccountedAlways(s: State)
    requires Reachable(s)
    ensures Accounted(s)
  {
    var s0, acts :| Initial(s0) && Runs(s0, acts, s);
    CountZero(s0.t, Adding);
    assert Accounted(s0) by {
      hide Count;
    }
    AccountedRuns(s0, acts, s);
  }

  /** Every task handed to AddTask is still being added, or was given up because the flag was set, or has been run to
      its end, or is with exactly one worker, or is queued. */
  lemma Conservation(s: State)
    requires Reachable(s)
    ensures s.added == Count(s.t, Adding) + s.dropped + |s.finished| + Count(s.t, HasTask) + |s.chain|
    ensures s.dropped > 0 ==> s.destroyed
  {
    AccountedAlways(s);
    NumberedAlways(s);
    Fifo(s, 0);
    InTimeAlways(s);
    hide Count;
  }

  /** Tasks are given up only after the flag has been set. */
  ghost predicate InTime(s: State) {
    (s.dropped > 0 ==> s.destroyed) && forall i | 0 <= i < |s.t| :: s.t[i].EQuit? ==> s.destroyed
  }

  lemma InTimeUpdate(s: State, s': State, i: nat, p: PC)
    requires InTime(s) && i < |s.t| && s'.t == s.t[i := p] && s'.destroyed == s.destroyed
    requires (p.EQuit? ==> s.destroyed) && (s'.dropped == s.dropped || s.destroyed)
    ensures InTime(s')
  {
  }

  lemma InTimeEnque(s: State, i: nat, n: Ptr, w: nat)
    requires InTime(s) && Can(s, Step(i, n, w)) && InEnque(s.t[i])
    ensures InTime(DoEnque(s, i, n, w))
  {
    assert s.t[i].EQuit? ==> s.destroyed;
    hide InTime;
    var s' := DoEnque(s, i, n, w);
    if s.t[i].Signal? {
      var s1 := s.(t := s.t[i := LockOut(Void)]);
      InTimeUpdate(s, s1, i, LockOut(Void));
      if Sleeps(s, w) {
        InTimeUpdate(s1, s', w, Woken);
      }
    } else {
      InTimeUpdate(s, s', i, s'.t[i]);
    }
  }

  lemma InTimeDeque(s: State, i: nat)
    requires InTime(s) && Can(s, Step(i, 0, 0)) && InDeque(s.t[i])
    ensures InTime(DoDeque(s, i))
  {
    hide InTime;
    InTimeUpdate(s, DoDeque(s, i), i, DoDeque(s, i).t[i]);
  }

  lemma InTimeBoth(s: State, i: nat)
    requires InTime(s) && Can(s, Step(i, 0, 0)) && !InEnque(s.t[i]) && !InDeque(s.t[i])
    ensures InTime(DoBoth(s, i))
  {
    hide InTime;
    InTimeUpdate(s, DoBoth(s, i), i, DoBoth(s, i).t[i]);
  }

  lemma InTimeStep(s: State, a: Action)
    requires InTime(s) && Can(s, a)
    ensures InTime(Do(s, a))
  {
    hide DoBoth, DoEnque, DoDeque;
    match a
    case Step(i, n, w) =>
      if InEnque(s.t[i]) {
        InTimeEnque(s, i, n, w);
      } else if InDeque(s.t[i]) {
        InTimeDeque(s, i);
      } else {
        InTimeBoth(s, i);
      }
    case _ =>
  }

  lemma {:induction false} InTimeRuns(s: State, acts: seq<Action>, s': State)
    requires InTime(s) && Runs(s, acts, s')
    ensures InTime(s')
    decreases |acts|
  {
    hide InTime, Do;
    if acts != [] {
      InTimeStep(s, acts[0]);
      InTimeRuns(Do(s, acts[0]), acts[1..], s');
    }
  }

  lemma InTimeAlways(s: State)
    requires Reachable(s)
    ensures InTime(s)
  {
    var s0, acts :| Initial(s0) && Runs(s0, acts, s);
    InTimeRuns(s0, acts, s);
  }
}
