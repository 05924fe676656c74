/** The blocking queue of pool/queue.c as a transition system: any number of threads, one step for each
    lock, wait, signal or access to shared memory, in any interleaving. */
module SafeQueue {
  import opened Bytes

  type Ptr = nat

  /** A `QueNode`. */
  datatype QNode = QNode(data: Ptr, next: Option<Ptr>)

  datatype Call = Enque(data: Ptr) | Deque

  /** What a call returns; an item comes with its number in the order of taking. */
  datatype Ret = Void | Null | Item(v: Ptr, k: nat)

  /** Where a thread is: the constructor names the statement it executes next. */
  datatype PC =
    | Idle
    | Work(v: Ptr, k: nat)                       // a worker runs the task it has taken
      // both calls: first look at `destroyed`, then registration
    | Check(c: Call) | LockNum(c: Call) | Incr(c: Call) | UnlockNum(c: Call)
      // SafeEnque
    | Malloc(v: Ptr) | ELock(v: Ptr, n: Ptr) | ECheck(v: Ptr, n: Ptr) | EQuit
    | Link(v: Ptr, n: Ptr) | MoveTail(n: Ptr) | EUnlock | Signal
      // SafeDeque
    | DLock | Test | TestEmpty | Wait | Asleep | Woken | Retest | DQuit
    | First | Unlink(n: Ptr, v: Ptr) | TestTail(n: Ptr, v: Ptr, k: nat) | ResetTail(n: Ptr, v: Ptr, k: nat)
    | DUnlock(n: Ptr, v: Ptr, k: nat) | Free(n: Ptr, v: Ptr, k: nat)
      // both calls: the end of the registration
    | LockOut(r: Ret) | Decr(r: Ret) | SignalNum(r: Ret) | UnlockOut(r: Ret)

  /** Where SafeDestroy is; while it frees, t is its loop variable and k the number of nodes freed. */
  datatype XPC = NotYet | Broadcast | XLock | XTest | XWait | XAsleep | XWoken | XUnlock
    | XFree(t: Option<Ptr>, k: nat) | Gone

  datatype Owner = Nobody | Thread(i: nat) | Destroyer

  /** The queue's memory and the threads; the last seven fields record history. */
  datatype State = State(
    t: seq<PC>,
    x: XPC,
    mem: map<Ptr, QNode>,  // the allocated nodes
    head: Ptr,
    tail: Ptr,
    destroyed: bool,
    usedNum: int,
    qLock: Option<nat>,
    numMut: Owner,
    chain: seq<Ptr>,       // the nodes linked behind the head node
    linked: seq<Ptr>,      // data linked so far, in order
    taken: seq<Ptr>,       // data taken so far, in order
    finished: set<nat>,    // numbers of the items whose task has been run
    leaked: nat,           // calls that left SafeEnque early, without giving up their registration
    added: nat,            // calls of SafeEnque so far
    dropped: nat           // those that saw the flag and linked nothing
  )

  /** Actions: a thread starts a call, a thread executes its next statement (n is what malloc returns, w the
      thread that a signal wakes), a waiting thread wakes up unasked, and the same for SafeDestroy. */
  datatype Action = Start(i: nat, c: Call) | Step(i: nat, n: Ptr, w: nat) | Spurious(i: nat) | XStep | XSpurious

  function NextOf(mem: map<Ptr, QNode>, n: Ptr): Option<Ptr> {
    if n in mem then mem[n].next else None
  }

  function DataOf(mem: map<Ptr, QNode>, n: Ptr): Ptr {
    if n in mem then mem[n].data else 0
  }

  function SetNext(mem: map<Ptr, QNode>, n: Ptr, next: Option<Ptr>): map<Ptr, QNode> {
    if n in mem then mem[n := mem[n].(next := next)] else mem
  }

  function WakeAll(t: seq<PC>): (r: seq<PC>)
    ensures |r| == |t| && forall i | 0 <= i < |t| :: r[i] == if t[i].Asleep? then Woken else t[i]
  {
    seq(|t|, i requires 0 <= i < |t| => if t[i].Asleep? then Woken else t[i])
  }

  predicate Sleeps(s: State, i: nat) {
    i < |s.t| && s.t[i].Asleep?
  }

  predicate SomeoneSleeps(s: State) {
    exists i | 0 <= i < |s.t| :: Sleeps(s, i)
  }

  /** Nothing but a lock that is taken or a condition variable holds a thread up. */
  predicate Can(s: State, a: Action) {
    match a
    case Start(i, _) => i < |s.t| && s.t[i].Idle?
    case Spurious(i) => Sleeps(s, i)
    case XSpurious => s.x.XAsleep?
    case XStep => !s.x.XAsleep? && !s.x.Gone? && (s.x.XLock? || s.x.XWoken? ==> s.numMut.Nobody?)
    case Step(i, n, w) =>
      && i < |s.t| && !s.t[i].Idle? && !s.t[i].Asleep?
      && (s.t[i].LockNum? || s.t[i].LockOut? ==> s.numMut.Nobody?)
      && (s.t[i].ELock? || s.t[i].DLock? || s.t[i].Woken? ==> s.qLock.None?)
      && (s.t[i].Malloc? ==> n !in s.mem)
      && (s.t[i].Signal? && SomeoneSleeps(s) ==> Sleeps(s, w))
  }

  function Do(s: State, a: Action): State
    requires Can(s, a)
  {
    match a
    case Start(i, c) => s.(t := s.t[i := Check(c)], added := s.added + if c.Enque? then 1 else 0)
    case Spurious(i) => s.(t := s.t[i := Woken])
    case XSpurious => s.(x := XWoken)
    case XStep => DoX(s)
    case Step(i, n, w) =>
      if InEnque(s.t[i]) then DoEnque(s, i, n, w)
      else if InDeque(s.t[i]) then DoDeque(s, i)
      else DoBoth(s, i)
  }

  predicate InEnque(p: PC) {
    p.Malloc? || p.ELock? || p.ECheck? || p.EQuit? || p.Link? || p.MoveTail? || p.EUnlock? || p.Signal?
  }

  predicate InDeque(p: PC) {
    || p.DLock? || p.Test? || p.TestEmpty? || p.Wait? || p.Asleep? || p.Woken? || p.Retest? || p.DQuit?
    || p.First? || p.Unlink? || p.TestTail? || p.ResetTail? || p.DUnlock? || p.Free?
  }

  /** Before and after the queue itself. */
  function DoBoth(s: State, i: nat): State
    requires i < |s.t| && !InEnque(s.t[i]) && !InDeque(s.t[i]) && !s.t[i].Idle?
  {
    match s.t[i]
    case Work(_, k) => s.(t := s.t[i := Idle], finished := s.finished + {k})
    case Check(c) =>
      s.(t := s.t[i := if s.destroyed then Idle else LockNum(c)],
         dropped := s.dropped + if s.destroyed && c.Enque? then 1 else 0)
    case LockNum(c) => s.(t := s.t[i := Incr(c)], numMut := Thread(i))
    case Incr(c) => s.(t := s.t[i := UnlockNum(c)], usedNum := s.usedNum + 1)
    case UnlockNum(c) => s.(t := s.t[i := if c.Enque? then Malloc(c.data) else DLock], numMut := Nobody)
    case LockOut(r) => s.(t := s.t[i := Decr(r)], numMut := Thread(i))
    case Decr(r) => s.(t := s.t[i := SignalNum(r)], usedNum := s.usedNum - 1)
    case SignalNum(r) => s.(t := s.t[i := UnlockOut(r)], x := if s.x.XAsleep? then XWoken else s.x)
    case UnlockOut(r) => s.(t := s.t[i := if r.Item? then Work(r.v, r.k) else Idle], numMut := Nobody)
  }

  function DoEnque(s: State, i: nat, n: Ptr, w: nat): State
    requires i < |s.t| && InEnque(s.t[i])
  {
    match s.t[i]
    case Malloc(v) => s.(t := s.t[i := ELock(v, n)], mem := s.mem[n := QNode(v, None)])
    case ELock(v, m) => s.(t := s.t[i := ECheck(v, m)], qLock := Some(i))
    case ECheck(v, m) => s.(t := s.t[i := if s.destroyed then EQuit else Link(v, m)])
    case EQuit => s.(t := s.t[i := Idle], qLock := None, leaked := s.leaked + 1, dropped := s.dropped + 1)
    case Link(v, m) =>
      s.(t := s.t[i := MoveTail(m)], mem := SetNext(s.mem, s.tail, Some(m)),
         chain := s.chain + [m], linked := s.linked + [v])
    case MoveTail(m) => s.(t := s.t[i := EUnlock], tail := m)
    case EUnlock => s.(t := s.t[i := Signal], qLock := None)
    case Signal =>
      s.(t := if Sleeps(s, w) then s.t[i := LockOut(Void)][w := Woken] else s.t[i := LockOut(Void)])
  }

  function DoDeque(s: State, i: nat): State
    requires i < |s.t| && InDeque(s.t[i]) && !s.t[i].Asleep?
  {
    match s.t[i]
    case DLock => s.(t := s.t[i := Test], qLock := Some(i))
    case Test => s.(t := s.t[i := if s.destroyed then Retest else TestEmpty])
    case TestEmpty => s.(t := s.t[i := if s.head == s.tail then Wait else Retest])
    case Wait => s.(t := s.t[i := Asleep], qLock := None)
    case Woken => s.(t := s.t[i := Test], qLock := Some(i))
    case Retest => s.(t := s.t[i := if s.destroyed then DQuit else First])
    case DQuit => s.(t := s.t[i := LockOut(Null)], qLock := None)
    case First =>
      var first := NextOf(s.mem, s.head);
      var m := if first.Some? then first.value else 0;
      s.(t := s.t[i := Unlink(m, DataOf(s.mem, m))])
    case Unlink(m, v) =>
      s.(t := s.t[i := TestTail(m, v, |s.taken|)], mem := SetNext(s.mem, s.head, NextOf(s.mem, m)),
         chain := if s.chain == [] then [] else s.chain[1..], taken := s.taken + [v])
    case TestTail(m, v, k) => s.(t := s.t[i := if m == s.tail then ResetTail(m, v, k) else DUnlock(m, v, k)])
    case ResetTail(m, v, k) => s.(t := s.t[i := DUnlock(m, v, k)], tail := s.head)
    case DUnlock(m, v, k) => s.(t := s.t[i := Free(m, v, k)], qLock := None)
    case Free(m, v, k) => s.(t := s.t[i := LockOut(Item(v, k))], mem := s.mem - {m})
  }

  function DoX(s: State): State
    requires !s.x.XAsleep? && !s.x.Gone?
  {
    match s.x
    case NotYet => s.(x := Broadcast, destroyed := true)
    case Broadcast => s.(x := XLock, t := WakeAll(s.t))
    case XLock => s.(x := XTest, numMut := Destroyer)
    case XTest => s.(x := if s.usedNum > 0 then XWait else XUnlock)
    case XWait => s.(x := XAsleep, numMut := Nobody)
    case XWoken => s.(x := XTest, numMut := Destroyer)
    case XUnlock => s.(x := XFree(Some(s.head), 0), numMut := Nobody)
    case XFree(t, k) =>
      if t.Some? then s.(x := XFree(NextOf(s.mem, t.value), k + 1), mem := s.mem - {t.value}) else s.(x := Gone)
  }

  /** The nodes that an action dereferences; None stands for a null pointer. */
  function Derefs(s: State, a: Action): set<Option<Ptr>>
    requires Can(s, a)
  {
    match a
    case Start(_, _) => {}
    case Spurious(_) => {}
    case XSpurious => {}
    case XStep => if s.x.XFree? && s.x.t.Some? then {s.x.t} else {}
    case Step(i, _, _) =>
      match s.t[i]
      case Link(_, _) => {Some(s.tail)}
      case First => {Some(s.head), NextOf(s.mem, s.head)}
      case Unlink(m, _) => {Some(s.head), Some(m)}
      case Free(m, _, _) => {Some(m)}
      case _ => {}
  }

  /** A new queue and its threads; malloc has returned `node` for the head node. */
  predicate Initial(s: State) {
    && (forall i | 0 <= i < |s.t| :: s.t[i].Idle?)
    && s.x.NotYet? && !s.destroyed && s.usedNum == 0 && s.qLock.None? && s.numMut.Nobody?
    && s.mem.Keys == {s.head} && s.mem[s.head].next == None
    && s.tail == s.head
    && s.chain == s.linked == s.taken == [] && s.finished == {}
    && s.leaked == s.added == s.dropped == 0
  }

  predicate Runs(s: State, acts: seq<Action>, s': State)
    decreases |acts|
  {
    if acts == [] then s == s' else Can(s, acts[0]) && Runs(Do(s, acts[0]), acts[1..], s')
  }

  /** s can be reached from a new queue. */
  ghost predicate Reachable(s: State) {
    exists s0, acts :: Initial(s0) && Runs(s0, acts, s)
  }

  // ---- Counting threads -----------------------------------------------------------------------------

  function Count(t: seq<PC>, f: PC -> bool): nat {
    if t == [] then 0 else Count(t[..|t| - 1], f) + if f(t[|t| - 1]) then 1 else 0
  }

  lemma {:induction false} CountUpdate(t: seq<PC>, i: nat, p: PC, f: PC -> bool)
    requires i < |t|
    ensures Count(t[i := p], f) == Count(t, f) + (if f(p) then 1 else 0) - if f(t[i]) then 1 else 0
  {
    var r := t[..|t| - 1];
    if i == |t| - 1 {
      assert t[i := p][..|t| - 1] == r;
    } else {
      assert t[i := p][..|t| - 1] == r[i := p];
      CountUpdate(r, i, p, f);
    }
  }

  lemma {:induction false} CountMapped(t: seq<PC>, t': seq<PC>, f: PC -> bool)
    requires |t| == |t'| && forall i | 0 <= i < |t| :: f(t[i]) == f(t'[i])
    ensures Count(t, f) == Count(t', f)
  {
    if t != [] {
      CountMapped(t[..|t| - 1], t'[..|t| - 1], f);
    }
  }

  lemma {:induction false} CountZero(t: seq<PC>, f: PC -> bool)
    ensures Count(t, f) == 0 <==> forall i | 0 <= i < |t| :: !f(t[i])
  {
    if t != [] {
      var r := t[..|t| - 1];
      CountZero(r, f);
      assert forall i | 0 <= i < |r| :: r[i] == t[i];
    }
  }
}
