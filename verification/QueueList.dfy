/** The list inside the queue: under every interleaving it stays well formed, hands items out in the order
    in which they were linked, and no step touches a node that has been freed. */
module QueueList {
  import opened Bytes
  import opened SafeQueue
  import opened QueueSafety

  // ---- Lists in memory -----------------------------------------------------------------------------------

  function At(nodes: seq<Ptr>, k: nat): Option<Ptr> {
    if k < |nodes| then Some(nodes[k]) else None
  }

  ghost predicate Distinct(nodes: seq<Ptr>) {
    forall i, j | 0 <= i < j < |nodes| :: nodes[i] != nodes[j]
  }

  /** From node fr on, the nodes are allocated and linked in this order, and all but the first carry the items. */
  ghost predicate Listed(mem: map<Ptr, QNode>, nodes: seq<Ptr>, fr: nat, items: seq<Ptr>) {
    && |nodes| == |items| + 1
    && forall j {:trigger nodes[j]} | fr <= j < |nodes| ::
         nodes[j] in mem && mem[nodes[j]].next == At(nodes, j + 1) && (j > 0 ==> mem[nodes[j]].data == items[j - 1])
  }

  ghost predicate Apart(n: Ptr, nodes: seq<Ptr>, fr: nat) {
    forall j | fr <= j < |nodes| :: nodes[j] != n
  }

  lemma ListedAppend(mem: map<Ptr, QNode>, nodes: seq<Ptr>, items: seq<Ptr>, m: Ptr, v: Ptr)
    requires Listed(mem, nodes, 0, items) && Distinct(nodes)
    requires m in mem && mem[m] == QNode(v, None) && Apart(m, nodes, 0)
    ensures Listed(SetNext(mem, nodes[|nodes| - 1], Some(m)), nodes + [m], 0, items + [v])
    ensures Distinct(nodes + [m])
  {
  }

  /** The nodes left when the one behind the head node is unlinked. */
  function Behead(nodes: seq<Ptr>): (r: seq<Ptr>)
    requires |nodes| > 1
    ensures |r| == |nodes| - 1 && r[0] == nodes[0]
  {
    [nodes[0]] + nodes[2..]
  }

  lemma ListedRemove(mem: map<Ptr, QNode>, nodes: seq<Ptr>, items: seq<Ptr>)
    requires Listed(mem, nodes, 0, items) && Distinct(nodes) && items != []
    ensures NextOf(mem, nodes[0]) == Some(nodes[1]) && DataOf(mem, nodes[1]) == items[0]
    ensures Listed(SetNext(mem, nodes[0], NextOf(mem, nodes[1])), Behead(nodes), 0, items[1..])
    ensures Distinct(Behead(nodes)) && nodes[1] in SetNext(mem, nodes[0], NextOf(mem, nodes[1]))
    ensures Apart(nodes[1], Behead(nodes), 0)
    ensures nodes[|nodes| - 1] == if |nodes| > 2 then Behead(nodes)[|nodes| - 2] else nodes[1]
  {
    var rest := Behead(nodes);
    var mem' := SetNext(mem, nodes[0], NextOf(mem, nodes[1]));
    assert At(nodes, 1) == Some(nodes[1]) && mem[nodes[1]].next == At(nodes, 2) == At(rest, 1);
    forall j | 1 <= j < |rest|
      ensures rest[j] == nodes[j + 1] && rest[j] in mem' && mem'[rest[j]] == mem[nodes[j + 1]]
      ensures mem'[rest[j]].next == At(rest, j + 1) && mem'[rest[j]].data == items[j]
    {
      assert rest[j] == nodes[j + 1];
    }
  }

  /** Taking one more item. */
  lemma TakeNext(linked: seq<Ptr>, taken: seq<Ptr>, v: Ptr)
    requires taken <= linked && |taken| < |linked| && v == linked[|taken|..][0]
    ensures taken + [v] <= linked && linked[|taken| + 1..] == linked[|taken|..][1..]
  {
  }

  /** The list does not depend on other nodes. */
  lemma ListedOther(mem: map<Ptr, QNode>, nodes: seq<Ptr>, fr: nat, items: seq<Ptr>, n: Ptr, q: QNode)
    requires Listed(mem, nodes, fr, items)
    requires Apart(n, nodes, fr) || n !in mem
    ensures Listed(mem - {n}, nodes, fr, items) && Listed(mem[n := q], nodes, fr, items) && Apart(n, nodes, fr)
  {
  }

  lemma ListedFree(mem: map<Ptr, QNode>, nodes: seq<Ptr>, fr: nat, items: seq<Ptr>)
    requires Listed(mem, nodes, fr, items) && Distinct(nodes) && fr < |nodes|
    ensures Listed(mem - {nodes[fr]}, nodes, fr + 1, items) && NextOf(mem, nodes[fr]) == At(nodes, fr + 1)
  {
  }

  // ---- The queue's list ----------------------------------------------------------------------------------

  function Nodes(s: State): seq<Ptr> {
    [s.head] + s.chain
  }

  /** How many of the list's nodes SafeDestroy has freed. */
  function Freed(s: State): nat {
    match s.x
    case XFree(_, k) => k
    case Gone => |s.chain| + 1
    case _ => 0
  }

  /** The thread that holds the queue's mutex. */
  function Holder(s: State): PC {
    if s.qLock.Some? && s.qLock.value < |s.t| then s.t[s.qLock.value] else Idle
  }

  /** Where `tail` points, depending on how far the holder of the mutex has got. */
  function TailOf(p: PC, nodes: seq<Ptr>): Ptr
    requires nodes != []
  {
    match p
    case MoveTail(_) => if |nodes| > 1 then nodes[|nodes| - 2] else nodes[0]
    case TestTail(m, _, _) => if |nodes| > 1 then nodes[|nodes| - 1] else m
    case ResetTail(m, _, _) => m
    case _ => nodes[|nodes| - 1]
  }

  /** What the holder of the mutex knows. */
  ghost predicate Knows(p: PC, nodes: seq<Ptr>, items: seq<Ptr>, destroyed: bool) {
    match p
    case Retest => destroyed || items != []
    case First => items != []
    case Unlink(m, v) => items != [] && |nodes| > 1 && m == nodes[1] && v == items[0]
    case Wait => items == []
    case MoveTail(n) => |nodes| > 1 && n == nodes[|nodes| - 1]
    case ResetTail(_, _, _) => |nodes| == 1
    case _ => true
  }

  /** The items not taken yet. */
  function Items(s: State): seq<Ptr> {
    if |s.taken| <= |s.linked| then s.linked[|s.taken|..] else []
  }

  /** Items are taken in the order in which they were linked; those that remain are in the list, from the head
      node's successor to the tail. */
  ghost predicate ListOk(s: State) {
    && s.taken <= s.linked
    && Distinct(Nodes(s)) && Listed(s.mem, Nodes(s), Freed(s), Items(s))
    && Freed(s) <= |Nodes(s)| && (s.x.XFree? ==> s.x.t == At(Nodes(s), Freed(s)))
    && s.tail == TailOf(Holder(s), Nodes(s)) && Knows(Holder(s), Nodes(s), Items(s), s.destroyed)
  }

  /** The node that a thread has for itself: not linked yet, or unlinked already. */
  function Own(p: PC): Option<Ptr> {
    match p
    case ELock(_, n) => Some(n)
    case ECheck(_, n) => Some(n)
    case Link(_, n) => Some(n)
    case TestTail(n, _, _) => Some(n)
    case ResetTail(n, _, _) => Some(n)
    case DUnlock(n, _, _) => Some(n)
    case Free(n, _, _) => Some(n)
    case _ => None
  }

  predicate Fresh(p: PC) {
    p.ELock? || p.ECheck? || p.Link?
  }

  ghost predicate OwnOk(s: State) {
    && (forall i {:trigger s.t[i]} | 0 <= i < |s.t| && Own(s.t[i]).Some? ::
          Own(s.t[i]).value in s.mem && Apart(Own(s.t[i]).value, Nodes(s), Freed(s)))
    && (forall i {:trigger s.t[i]} | 0 <= i < |s.t| && Fresh(s.t[i]) :: s.mem[s.t[i].n] == QNode(s.t[i].v, None))
    && (forall i, j | 0 <= i < j < |s.t| && Own(s.t[i]).Some? :: Own(s.t[i]) != Own(s.t[j]))
  }

  ghost predicate MemOk(s: State) {
    Locks(s) && Used(s) && Shut(s) && ListOk(s) && OwnOk(s)
  }

  // ---- Steps that leave the list alone --------------------------------------------------------------------

  lemma HolderUpdate(s: State, s': State, i: nat, p: PC)
    requires Locks(s) && i < |s.t| && s'.t == s.t[i := p]
    requires if HoldsQ(p) == HoldsQ(s.t[i]) then s'.qLock == s.qLock
             else if HoldsQ(p) then s.qLock == None && s'.qLock == Some(i)
             else s'.qLock == None
    ensures Holder(s) == if HoldsQ(s.t[i]) then s.t[i] else if HoldsQ(p) then Idle else Holder(s)
    ensures Holder(s') == if HoldsQ(p) then p else if HoldsQ(s.t[i]) then Idle else Holder(s)
  {
    hide HoldsQ, HoldsNum, XHolds;
  }

  /** Neither the memory nor the list's pointers nor the history of items changes. */
  predicate SameList(s: State, s': State) {
    && s'.mem == s.mem && s'.head == s.head && s'.chain == s.chain && s'.taken == s.taken && s'.linked == s.linked
    && Freed(s') == Freed(s) && (s'.x.XFree? ==> s'.x == s.x || s'.x == XFree(At(Nodes(s), 0), 0))
  }

  lemma ListSame(s: State, s': State)
    requires ListOk(s) && SameList(s, s') && s'.tail == s.tail
    requires TailOf(Holder(s'), Nodes(s)) == TailOf(Holder(s), Nodes(s))
    requires Knows(Holder(s'), Nodes(s), Items(s), s'.destroyed)
    ensures ListOk(s')
  {
    hide Holder, TailOf, Knows, Listed, Distinct;
  }

  lemma HolderKnows(s: State)
    requires ListOk(s)
    ensures s.tail == TailOf(Holder(s), Nodes(s)) && Knows(Holder(s), Nodes(s), Items(s), s.destroyed)
    ensures |Items(s)| == |s.chain| && Distinct(Nodes(s))
  {
  }

  lemma OwnUpdate(s: State, s': State, i: nat, p: PC)
    requires OwnOk(s) && SameList(s, s') && i < |s.t| && s'.t == s.t[i := p]
    requires Own(p) == None || Own(p) == Own(s.t[i])
    requires Fresh(p) ==> Fresh(s.t[i]) && p.v == s.t[i].v && p.n == s.t[i].n
    ensures OwnOk(s')
  {
    hide Apart, Own, Freed;
  }

  /** A step of a thread that has no part in the list. */
  lemma Elsewhere(s: State, s': State, i: nat, p: PC)
    requires Locks(s) && ListOk(s) && OwnOk(s) && i < |s.t| && s'.t == s.t[i := p]
    requires SameList(s, s') && s'.tail == s.tail && s'.qLock == s.qLock && s'.destroyed == s.destroyed
    requires !HoldsQ(s.t[i]) && !HoldsQ(p) && Own(p) == None && !Fresh(p)
    ensures ListOk(s') && OwnOk(s')
  {
    HolderUpdate(s, s', i, p);
    OwnUpdate(s, s', i, p);
    hide *;
    HolderKnows(s);
    ListSame(s, s');
  }

  lemma BothKeepsList(s: State, i: nat)
    requires Locks(s) && ListOk(s) && OwnOk(s) && Can(s, Step(i, 0, 0)) && !InEnque(s.t[i]) && !InDeque(s.t[i])
    ensures ListOk(DoBoth(s, i)) && OwnOk(DoBoth(s, i))
  {
    hide ListOk, OwnOk, Locks;
    var s' := DoBoth(s, i);
    Elsewhere(s, s', i, s'.t[i]);
  }

  // ---- Steps that change it -------------------------------------------------------------------------------

  lemma MallocKeepsList(s: State, i: nat, n: Ptr)
    requires Locks(s) && ListOk(s) && OwnOk(s) && Can(s, Step(i, n, 0)) && s.t[i].Malloc?
    ensures ListOk(DoEnque(s, i, n, 0)) && OwnOk(DoEnque(s, i, n, 0))
  {
    var s' := DoEnque(s, i, n, 0);
    HolderUpdate(s, s', i, s'.t[i]);
    ListedOther(s.mem, Nodes(s), Freed(s), Items(s), n, QNode(s.t[i].v, None));
    MallocOwn(s, i, n);
    hide Locks, Holder, Knows, TailOf, Listed, Distinct, Apart, OwnOk;
  }

  lemma MallocOwn(s: State, i: nat, n: Ptr)
    requires OwnOk(s) && Can(s, Step(i, n, 0)) && s.t[i].Malloc? && Apart(n, Nodes(s), Freed(s))
    ensures OwnOk(DoEnque(s, i, n, 0))
  {
    hide Apart;
    assert forall j | 0 <= j < |s.t| && Own(s.t[j]).Some? :: Own(s.t[j]).value in s.mem;
  }

  /** A thread that is at an access to the list comes before the freeing of the list. */
  lemma NotFreed(s: State, i: nat)
    requires Shut(s) && i < |s.t| && !Outside(s.t[i])
    ensures Freed(s) == 0 && !LoopLeft(s.x)
  {
  }

  /** What links and unlinks of thread i leave of the other threads' own nodes. */
  lemma OwnElsewhere(s: State, s': State, i: nat, p: PC, n: Ptr)
    requires OwnOk(s) && i < |s.t| && s'.t == s.t[i := p] && Own(p) in {None, Some(n)} && !Fresh(p)
    requires forall m | m in s.mem :: m in s'.mem && (s'.mem[m] == s.mem[m] || m in Nodes(s))
    requires Freed(s) == Freed(s') == 0
    requires forall m | Apart(m, Nodes(s), 0) && m != n :: Apart(m, Nodes(s'), 0)
    requires forall j | 0 <= j < |s.t| && j != i && Own(s.t[j]).Some? :: Own(s.t[j]) != Some(n)
    requires Own(p).Some? ==> n in s'.mem && Apart(n, Nodes(s'), 0)
    ensures OwnOk(s')
  {
    assert forall m | m in Nodes(s) :: !Apart(m, Nodes(s), 0);
    hide Apart, Own, Freed, Nodes;
  }

  /** Thread i links its node m behind the tail. */
  lemma LinkFacts(s: State, i: nat, s': State)
    requires Locks(s) && Shut(s) && ListOk(s) && OwnOk(s) && i < |s.t| && s.t[i].Link? && s' == DoEnque(s, i, 0, 0)
    ensures var v, m := s.t[i].v, s.t[i].n;
            && Freed(s) == Freed(s') == 0 && !s'.x.XFree? && Holder(s') == MoveTail(m) && s'.taken <= s'.linked
            && s.tail == Nodes(s)[|s.chain|] && Nodes(s') == Nodes(s) + [m] && Items(s') == Items(s) + [v]
            && Listed(s.mem, Nodes(s), 0, Items(s)) && Distinct(Nodes(s))
            && m in s.mem && Apart(m, Nodes(s), 0) && s.mem[m] == QNode(v, None)
  {
    NotFreed(s, i);
    HolderUpdate(s, s', i, s'.t[i]);
    hide Locks, Shut, Listed, Distinct, Apart;
    assert Own(s.t[i]) == Some(s.t[i].n) && Fresh(s.t[i]);
  }

  lemma LinkKeepsList(s: State, i: nat)
    requires Locks(s) && Shut(s) && ListOk(s) && OwnOk(s) && Can(s, Step(i, 0, 0)) && s.t[i].Link?
    ensures ListOk(DoEnque(s, i, 0, 0)) && OwnOk(DoEnque(s, i, 0, 0))
  {
    var s' := DoEnque(s, i, 0, 0);
    LinkFacts(s, i, s');
    ListedAppend(s.mem, Nodes(s), Items(s), s.t[i].n, s.t[i].v);
    LinkOwn(s, i, s');
    hide Locks, Shut, Holder, Listed, Distinct, OwnOk, Items, Nodes, SetNext, Can, ListOk;
    LinkList(s', s.t[i].n, Nodes(s));
  }

  lemma LinkList(s': State, m: Ptr, nodes: seq<Ptr>)
    requires nodes != [] && Nodes(s') == nodes + [m] && !s'.x.XFree? && Freed(s') == 0 && s'.taken <= s'.linked
    requires Distinct(Nodes(s')) && Listed(s'.mem, Nodes(s'), 0, Items(s'))
    requires Holder(s') == MoveTail(m) && s'.tail == nodes[|nodes| - 1]
    ensures ListOk(s')
  {
    hide Holder, Listed, Distinct, Freed, Items, Nodes;
  }

  lemma LinkOwn(s: State, i: nat, s': State)
    requires OwnOk(s) && i < |s.t| && s.t[i].Link? && s' == DoEnque(s, i, 0, 0)
    requires Freed(s) == Freed(s') == 0 && s.tail == Nodes(s)[|s.chain|] && Nodes(s') == Nodes(s) + [s.t[i].n]
    ensures OwnOk(s')
  {
    hide Freed;
    OwnElsewhere(s, s', i, s'.t[i], s.t[i].n);
  }

  lemma EnqueKeepsList(s: State, i: nat, n: Ptr, w: nat)
    requires Locks(s) && Shut(s) && ListOk(s) && OwnOk(s) && Can(s, Step(i, n, w)) && InEnque(s.t[i])
    ensures ListOk(DoEnque(s, i, n, w)) && OwnOk(DoEnque(s, i, n, w))
  {
    hide ListOk, OwnOk, Locks, Shut;
    var s' := DoEnque(s, i, n, w);
    if s.t[i].Malloc? {
      MallocKeepsList(s, i, n);
    } else if s.t[i].Link? {
      LinkKeepsList(s, i);
    } else if s.t[i].Signal? {
      SignalKeepsList(s, i, w);
    } else {
      HolderUpdate(s, s', i, s'.t[i]);
      OwnUpdate(s, s', i, s'.t[i]);
      HolderKnows(s);
      if s.t[i].MoveTail? {
        MoveTailKeepsList(s, i);
      } else {
        ListSame(s, s');
      }
    }
  }

  lemma MoveTailKeepsList(s: State, i: nat)
    requires Locks(s) && ListOk(s) && Can(s, Step(i, 0, 0)) && s.t[i].MoveTail?
    ensures ListOk(DoEnque(s, i, 0, 0))
  {
    HolderUpdate(s, DoEnque(s, i, 0, 0), i, EUnlock);
    hide Listed, Distinct;
  }

  lemma SignalKeepsList(s: State, i: nat, w: nat)
    requires Locks(s) && ListOk(s) && OwnOk(s) && Can(s, Step(i, 0, w)) && s.t[i].Signal?
    ensures ListOk(DoEnque(s, i, 0, w)) && OwnOk(DoEnque(s, i, 0, w))
  {
    var s1 := s.(t := s.t[i := LockOut(Void)]);
    SignalOut(s, i);
    if Sleeps(s, w) {
      hide ListOk, OwnOk, Locks;
      Elsewhere(s1, DoEnque(s, i, 0, w), w, Woken);
    }
  }

  /** The signalling thread goes on. */
  lemma SignalOut(s: State, i: nat)
    requires Locks(s) && ListOk(s) && OwnOk(s) && i < |s.t| && s.t[i].Signal?
    ensures var s1 := s.(t := s.t[i := LockOut(Void)]); Locks(s1) && ListOk(s1) && OwnOk(s1)
  {
    var s1 := s.(t := s.t[i := LockOut(Void)]);
    LocksUpdate(s, s1, i, LockOut(Void));
    hide ListOk, OwnOk, Locks;
    Elsewhere(s, s1, i, LockOut(Void));
  }

  /** Thread i unlinks the node behind the head node. */
  lemma UnlinkFacts(s: State, i: nat, s': State)
    requires Locks(s) && Shut(s) && ListOk(s) && Can(s, Step(i, 0, 0)) && s.t[i].Unlink? && s' == DoDeque(s, i)
    ensures Freed(s) == Freed(s') == 0 && !s'.x.XFree?
    ensures |Nodes(s)| > 1 && s.t[i].n == Nodes(s)[1] && Items(s) != [] && s.t[i].v == Items(s)[0]
    ensures Holder(s') == s'.t[i] && s.tail == Nodes(s)[|Nodes(s)| - 1]
  {
    NotFreed(s, i);
    HolderUpdate(s, s', i, s'.t[i]);
    hide Locks, Shut, Listed, Distinct, Holder, Items;
    HolderKnows(s);
  }

  lemma UnlinkSeqs(s: State, i: nat, s': State)
    requires s.taken <= s.linked && Items(s) != [] && i < |s.t| && s.t[i].Unlink? && s.t[i].v == Items(s)[0]
    requires s' == DoDeque(s, i) && |Nodes(s)| > 1
    ensures s'.taken <= s'.linked && Items(s') == Items(s)[1..] && Nodes(s') == Behead(Nodes(s))
    ensures s'.mem == SetNext(s.mem, Nodes(s)[0], NextOf(s.mem, s.t[i].n)) && s'.tail == s.tail
    ensures s'.t[i] == TestTail(s.t[i].n, s.t[i].v, |s.taken|)
  {
    TakeNext(s.linked, s.taken, s.t[i].v);
  }

  lemma UnlinkKeepsList(s: State, i: nat)
    requires Locks(s) && Shut(s) && ListOk(s) && OwnOk(s) && Can(s, Step(i, 0, 0)) && s.t[i].Unlink?
    ensures ListOk(DoDeque(s, i)) && OwnOk(DoDeque(s, i))
  {
    var s' := DoDeque(s, i);
    UnlinkFacts(s, i, s');
    UnlinkSeqs(s, i, s');
    ListedRemove(s.mem, Nodes(s), Items(s));
    UnlinkOwn(s, i, s');
    hide Locks, Shut, Holder, Listed, Distinct, OwnOk, Items, Nodes, NextOf, SetNext, Apart, Behead, DoDeque, Can;
    UnlinkList(s', s.t[i].n, Nodes(s));
  }

  lemma UnlinkList(s': State, m: Ptr, nodes: seq<Ptr>)
    requires |nodes| > 1 && Nodes(s') == Behead(nodes) && !s'.x.XFree? && Freed(s') == 0 && s'.taken <= s'.linked
    requires Distinct(Nodes(s')) && Listed(s'.mem, Nodes(s'), 0, Items(s'))
    requires Holder(s').TestTail? && Holder(s').n == m && s'.tail == nodes[|nodes| - 1]
    requires nodes[|nodes| - 1] == if |nodes| > 2 then Behead(nodes)[|nodes| - 2] else m
    ensures ListOk(s')
  {
    hide Holder, Listed, Distinct, Freed, Items, Nodes, Behead;
  }

  lemma UnlinkOwn(s: State, i: nat, s': State)
    requires OwnOk(s) && i < |s.t| && s.t[i].Unlink? && s' == DoDeque(s, i)
    requires Freed(s) == Freed(s') == 0 && |Nodes(s)| > 1 && s.t[i].n == Nodes(s)[1]
    requires Nodes(s') == Behead(Nodes(s)) && s.t[i].n in s'.mem && Apart(s.t[i].n, Nodes(s'), 0)
    ensures OwnOk(s')
  {
    var m := s.t[i].n;
    assert forall j | 1 <= j < |Nodes(s')| :: Nodes(s')[j] == Nodes(s)[j + 1];
    assert Nodes(s)[1] == m && !Apart(m, Nodes(s), 0) && s.head in Nodes(s);
    hide Freed;
    OwnElsewhere(s, s', i, s'.t[i], m);
  }

  lemma FreeKeepsList(s: State, i: nat)
    requires Locks(s) && Shut(s) && ListOk(s) && OwnOk(s) && Can(s, Step(i, 0, 0)) && s.t[i].Free?
    ensures ListOk(DoDeque(s, i)) && OwnOk(DoDeque(s, i))
  {
    var s' := DoDeque(s, i);
    HolderUpdate(s, s', i, s'.t[i]);
    FreeOwn(s, i);
    hide Locks, Holder, Knows, TailOf, Listed, Distinct, Apart, Freed, Shut;
    ListedOther(s.mem, Nodes(s), Freed(s), Items(s), s.t[i].n, QNode(0, None));
    hide OwnOk;
  }

  lemma FreeOwn(s: State, i: nat)
    requires OwnOk(s) && i < |s.t| && s.t[i].Free?
    ensures OwnOk(DoDeque(s, i))
  {
    hide Apart;
  }

  lemma ResetTailKeepsList(s: State, i: nat)
    requires Locks(s) && ListOk(s) && Can(s, Step(i, 0, 0)) && s.t[i].ResetTail?
    ensures ListOk(DoDeque(s, i))
  {
    HolderUpdate(s, DoDeque(s, i), i, DoDeque(s, i).t[i]);
    hide Listed, Distinct;
  }

  lemma DequeKeepsList(s: State, i: nat)
    requires Locks(s) && Shut(s) && ListOk(s) && OwnOk(s) && Can(s, Step(i, 0, 0)) && InDeque(s.t[i])
    ensures ListOk(DoDeque(s, i)) && OwnOk(DoDeque(s, i))
  {
    hide ListOk, OwnOk, Locks, Shut, DoDeque;
    if s.t[i].Unlink? {
      UnlinkKeepsList(s, i);
    } else if s.t[i].Free? {
      FreeKeepsList(s, i);
    } else {
      DequeKeepsOwn(s, i);
      if s.t[i].ResetTail? {
        ResetTailKeepsList(s, i);
      } else if s.t[i].First? {
        FirstKeepsList(s, i);
      } else if s.t[i].TestTail? {
        TestTailKeepsList(s, i);
      } else {
        DequeSameList(s, i);
      }
    }
  }

  lemma DequeKeepsOwn(s: State, i: nat)
    requires OwnOk(s) && Can(s, Step(i, 0, 0)) && InDeque(s.t[i]) && !s.t[i].Unlink? && !s.t[i].Free?
    ensures OwnOk(DoDeque(s, i))
  {
    hide OwnOk;
    OwnUpdate(s, DoDeque(s, i), i, DoDeque(s, i).t[i]);
  }

  lemma DequeSameList(s: State, i: nat)
    requires Locks(s) && ListOk(s) && Can(s, Step(i, 0, 0)) && InDeque(s.t[i])
    requires !s.t[i].First? && !s.t[i].Unlink? && !s.t[i].TestTail? && !s.t[i].ResetTail? && !s.t[i].Free?
    ensures ListOk(DoDeque(s, i))
  {
    hide ListOk, Locks;
    var s' := DoDeque(s, i);
    HolderUpdate(s, s', i, s'.t[i]);
    HolderKnows(s);
    assert s.chain != [] ==> Nodes(s)[0] != Nodes(s)[|s.chain|];
    ListSame(s, s');
  }

  lemma FirstKeepsList(s: State, i: nat)
    requires Locks(s) && Shut(s) && ListOk(s) && Can(s, Step(i, 0, 0)) && s.t[i].First?
    ensures ListOk(DoDeque(s, i))
  {
    var s' := DoDeque(s, i);
    NotFreed(s, i);
    HolderUpdate(s, s', i, s'.t[i]);
    ListedRemove(s.mem, Nodes(s), Items(s));
    hide Locks, ListOk, Shut, Listed, Distinct;
    HolderKnows(s);
    ListSame(s, s');
  }

  lemma TestTailKeepsList(s: State, i: nat)
    requires Locks(s) && ListOk(s) && OwnOk(s) && Shut(s) && Can(s, Step(i, 0, 0)) && s.t[i].TestTail?
    ensures ListOk(DoDeque(s, i))
  {
    var s' := DoDeque(s, i);
    NotFreed(s, i);
    assert Apart(s.t[i].n, Nodes(s), 0) && Nodes(s)[|s.chain|] != s.t[i].n;
    HolderUpdate(s, s', i, s'.t[i]);
    hide Locks, ListOk, OwnOk, Shut, Listed, Distinct;
    HolderKnows(s);
    ListSame(s, s');
  }

  // ---- SafeDestroy ------------------------------------------------------------------------------------------

  lemma XKeepsList(s: State)
    requires Locks(s) && Shut(s) && ListOk(s) && OwnOk(s) && Can(s, XStep)
    ensures ListOk(DoX(s)) && OwnOk(DoX(s))
  {
    var s' := DoX(s);
    if s.x.XFree? && s.x.t.Some? {
      XFreeKeepsList(s);
    } else if s.x.Broadcast? {
      BroadcastKeepsList(s);
    } else {
      assert Freed(s') == Freed(s);
      hide Listed, Distinct, Apart, Locks, Shut;
      hide ListOk, OwnOk;
      HolderKnows(s);
      OwnSame(s, s');
      ListSame(s, s');
    }
  }

  lemma OwnSame(s: State, s': State)
    requires OwnOk(s) && SameList(s, s') && |s'.t| == |s.t|
    requires forall i {:trigger s'.t[i]} | 0 <= i < |s.t| :: s'.t[i] == s.t[i] || (s.t[i] == Asleep && s'.t[i] == Woken)
    ensures OwnOk(s')
  {
    hide Apart, Freed;
    assert forall i {:trigger s'.t[i]} | 0 <= i < |s.t| :: Own(s'.t[i]) == Own(s.t[i]) && Fresh(s'.t[i]) == Fresh(s.t[i]);
    hide Own, Fresh;
  }

  lemma BroadcastKeepsList(s: State)
    requires Locks(s) && ListOk(s) && OwnOk(s) && s.x.Broadcast?
    ensures ListOk(DoX(s)) && OwnOk(DoX(s))
  {
    var s' := DoX(s);
    assert Holder(s') == Holder(s);
    hide Listed, Distinct, Apart, Locks, Holder, ListOk, OwnOk, Knows, TailOf;
    HolderKnows(s);
    OwnSame(s, s');
    ListSame(s, s');
  }

  lemma XFreeKeepsList(s: State)
    requires ListOk(s) && OwnOk(s) && s.x.XFree? && s.x.t.Some?
    ensures ListOk(DoX(s)) && OwnOk(DoX(s))
  {
    var s' := DoX(s);
    var k := s.x.k;
    assert k < |Nodes(s)| && s.x.t.value == Nodes(s)[k];
    ListedFree(s.mem, Nodes(s), k, Items(s));
    assert Freed(s') == k + 1 && Nodes(s') == Nodes(s) && Items(s') == Items(s) && Holder(s') == Holder(s);
    hide Listed, Distinct, TailOf, Knows, Holder, Freed;
    OwnNotFreed(s, s', k);
  }

  lemma OwnNotFreed(s: State, s': State, k: nat)
    requires OwnOk(s) && s'.t == s.t && Nodes(s') == Nodes(s) && Freed(s) == k && Freed(s') == k + 1
    requires k < |Nodes(s)| && s'.mem == s.mem - {Nodes(s)[k]}
    ensures OwnOk(s')
  {
    hide Freed, Nodes;
  }

  // ---- All runs ---------------------------------------------------------------------------------------------

  lemma MemInitial(s: State)
    requires Initial(s)
    ensures MemOk(s)
  {
    CountZero(s.t, Registered);
    hide Count;
    assert Nodes(s) == [s.head] && Items(s) == [];
  }

  lemma MemStep(s: State, a: Action)
    requires MemOk(s) && Can(s, a)
    ensures MemOk(Do(s, a))
  {
    LocksStep(s, a);
    UsedStep(s, a);
    ShutStep(s, a);
    ListStep(s, a);
    hide Locks, Used, Shut, ListOk, OwnOk, Do;
  }

  lemma ListStep(s: State, a: Action)
    requires Locks(s) && Shut(s) && ListOk(s) && OwnOk(s) && Can(s, a)
    ensures ListOk(Do(s, a)) && OwnOk(Do(s, a))
  {
    hide Locks, Shut, ListOk, OwnOk, DoBoth, DoEnque, DoDeque, DoX;
    match a
    case Step(i, n, w) =>
      if InEnque(s.t[i]) {
        EnqueKeepsList(s, i, n, w);
      } else if InDeque(s.t[i]) {
        DequeKeepsList(s, i);
      } else {
        BothKeepsList(s, i);
      }
    case XStep => XKeepsList(s);
    case Start(i, c) => Elsewhere(s, Do(s, a), i, Check(c));
    case Spurious(i) => Elsewhere(s, Do(s, a), i, Woken);
    case XSpurious => XWakes(s);
  }

  lemma XWakes(s: State)
    requires ListOk(s) && OwnOk(s) && s.x.XAsleep?
    ensures ListOk(s.(x := XWoken)) && OwnOk(s.(x := XWoken))
  {
    HolderKnows(s);
    hide Listed, Distinct, Knows;
    OwnSame(s, s.(x := XWoken));
    hide OwnOk;
  }

  lemma {:induction false} MemRuns(s: State, acts: seq<Action>, s': State)
    requires MemOk(s) && Runs(s, acts, s')
    ensures MemOk(s')
    decreases |acts|
  {
    hide MemOk, Do;
    if acts != [] {
      MemStep(s, acts[0]);
      MemRuns(Do(s, acts[0]), acts[1..], s');
    }
  }

  lemma {:induction false} RunsMore(s: State, acts: seq<Action>, s1: State, a: Action)
    requires Runs(s, acts, s1) && Can(s1, a)
    ensures Runs(s, acts + [a], Do(s1, a))
    decreases |acts|
  {
    hide Can, Do;
    if acts == [] {
      assert acts + [a] == [a] && [a][1..] == [];
      assert Runs(Do(s, a), [], Do(s1, a));
    } else {
      RunsMore(Do(s, acts[0]), acts[1..], s1, a);
      assert (acts + [a])[1..] == acts[1..] + [a];
    }
  }

  lemma ReachMore(s: State, a: Action)
    requires Reachable(s) && Can(s, a)
    ensures Reachable(Do(s, a))
  {
    var s0, acts :| Initial(s0) && Runs(s0, acts, s);
    hide Initial, Do, Can;
    RunsMore(s0, acts, s, a);
  }

  lemma MemAlways(s: State)
    requires Reachable(s)
    ensures MemOk(s)
  {
    var s0, acts :| Initial(s0) && Runs(s0, acts, s);
    MemInitial(s0);
    MemRuns(s0, acts, s);
  }

  /** At most one thread at a time is in the part of a call that the queue's mutex protects, and the same for
      the counter's mutex, the destroyer included. */
  lemma MutualExclusion(s: State, i: nat, j: nat)
    requires Reachable(s) && i < |s.t| && j < |s.t|
    ensures HoldsQ(s.t[i]) && HoldsQ(s.t[j]) ==> i == j
    ensures HoldsNum(s.t[i]) && HoldsNum(s.t[j]) ==> i == j
    ensures HoldsNum(s.t[i]) ==> !XHolds(s.x)
  {
    MemAlways(s);
    hide Reachable, Used, Shut, ListOk, OwnOk;
  }

  /** The nodes that an action is said to dereference are all that it reads and changes: in a state that differs in other
      nodes only it does the same, and it leaves other nodes as they are. */
  lemma DerefsCover(s: State, a: Action, mem: map<Ptr, QNode>)
    requires Can(s, a) && forall d | d in Derefs(s, a) :: d.Some?
    requires mem.Keys == s.mem.Keys && forall n | n in mem && Some(n) in Derefs(s, a) :: mem[n] == s.mem[n]
    ensures var s2 := s.(mem := mem); Can(s2, a) && Do(s2, a).(mem := Do(s, a).mem) == Do(s, a)
    ensures forall n | n in s.mem && Some(n) !in Derefs(s, a) :: n in Do(s, a).mem && Do(s, a).mem[n] == s.mem[n]
  {
    CanAsWell(s, mem, a);
    match a
    case Step(i, n, w) =>
      hide DoBoth, DoEnque, DoDeque, Can;
      if InEnque(s.t[i]) {
        DerefsInEnque(s, i, n, w, mem);
      } else if InDeque(s.t[i]) {
        DerefsInDeque(s, i, n, w, mem);
      } else {
        DerefsInBoth(s, i, mem);
      }
    case _ =>
  }

  lemma CanAsWell(s: State, mem: map<Ptr, QNode>, a: Action)
    requires Can(s, a) && mem.Keys == s.mem.Keys
    ensures Can(s.(mem := mem), a)
  {
    var s2 := s.(mem := mem);
    assert forall i: nat :: Sleeps(s2, i) == Sleeps(s, i);
    assert forall n :: n in mem <==> n in mem.Keys;
  }

  lemma DerefsInEnque(s: State, i: nat, n: Ptr, w: nat, mem: map<Ptr, QNode>)
    requires Can(s, Step(i, n, w)) && InEnque(s.t[i]) && mem.Keys == s.mem.Keys
    ensures DoEnque(s.(mem := mem), i, n, w).(mem := DoEnque(s, i, n, w).mem) == DoEnque(s, i, n, w)
    ensures forall p | p in s.mem && Some(p) !in Derefs(s, Step(i, n, w)) ::
              p in DoEnque(s, i, n, w).mem && DoEnque(s, i, n, w).mem[p] == s.mem[p]
  {
  }

  lemma DerefsInDeque(s: State, i: nat, n: Ptr, w: nat, mem: map<Ptr, QNode>)
    requires Can(s, Step(i, n, w)) && InDeque(s.t[i]) && forall d | d in Derefs(s, Step(i, n, w)) :: d.Some?
    requires mem.Keys == s.mem.Keys
    requires forall p | p in mem && Some(p) in Derefs(s, Step(i, n, w)) :: mem[p] == s.mem[p]
    ensures DoDeque(s.(mem := mem), i).(mem := DoDeque(s, i).mem) == DoDeque(s, i)
    ensures forall p | p in s.mem && Some(p) !in Derefs(s, Step(i, n, w)) ::
              p in DoDeque(s, i).mem && DoDeque(s, i).mem[p] == s.mem[p]
  {
  }

  lemma DerefsInBoth(s: State, i: nat, mem: map<Ptr, QNode>)
    requires i < |s.t| && !InEnque(s.t[i]) && !InDeque(s.t[i]) && !s.t[i].Idle?
    ensures DoBoth(s.(mem := mem), i) == DoBoth(s, i).(mem := mem) && DoBoth(s, i).mem == s.mem
  {
    if {
      case s.t[i].Check? || s.t[i].Work? =>
      case s.t[i].LockNum? || s.t[i].Incr? || s.t[i].UnlockNum? =>
      case s.t[i].LockOut? || s.t[i].Decr? || s.t[i].SignalNum? || s.t[i].UnlockOut? =>
    }
  }

  /** No interleaving, shutdown included, dereferences a null pointer or a node that has been freed, nor frees
      a node twice. */
  lemma NoUseAfterFree(s: State, a: Action)
    requires Reachable(s) && Can(s, a)
    ensures forall d | d in Derefs(s, a) :: d.Some? && d.value in s.mem
  {
    MemAlways(s);
    match a
    case Step(i, _, _) =>
      if s.t[i].Link? || s.t[i].First? || s.t[i].Unlink? {
        NotFreed(s, i);
        assert HoldsQ(s.t[i]) && Holder(s) == s.t[i];
        assert s.head == Nodes(s)[0];
      } else if s.t[i].Free? {
        assert Own(s.t[i]) == Some(s.t[i].n);
      }
      hide Used, Distinct, Shut, Locks;
    case XStep =>
      if s.x.XFree? && s.x.t.Some? {
        assert s.x.t.value == Nodes(s)[s.x.k];
      }
    case _ =>
  }

  /** Once SafeDestroy has seen `usedNum` at zero, and so while it frees the nodes and ever after, no thread
      dereferences a node but one of its own: late callers, registered or not, see `destroyed` first. */
  lemma ShutdownSafety(s: State, i: nat, n: Ptr, w: nat)
    requires Reachable(s) && LoopLeft(s.x) && Can(s, Step(i, n, w))
    ensures Derefs(s, Step(i, n, w)) == {} && s.destroyed
  {
    MemAlways(s);
    hide Locks, Used, ListOk, OwnOk;
  }

  /** The data that following `next` from p meets, in at most fuel nodes. */
  function Walk(mem: map<Ptr, QNode>, p: Option<Ptr>, fuel: nat): seq<Ptr>
    decreases fuel
  {
    if fuel == 0 || p == None then [] else [DataOf(mem, p.value)] + Walk(mem, NextOf(mem, p.value), fuel - 1)
  }

  lemma {:induction false} WalkListed(mem: map<Ptr, QNode>, nodes: seq<Ptr>, items: seq<Ptr>, k: nat, fuel: nat)
    requires Listed(mem, nodes, 0, items) && 1 <= k <= |nodes| && fuel >= |nodes| - k
    ensures Walk(mem, At(nodes, k), fuel) == items[k - 1..]
    decreases fuel
  {
    if k < |nodes| {
      WalkListed(mem, nodes, items, k + 1, fuel - 1);
      assert mem[nodes[k]].next == At(nodes, k + 1) && mem[nodes[k]].data == items[k - 1];
      assert items[k - 1..] == [items[k - 1]] + items[k..];
    }
  }

  /** First in, first out: what has been taken is a prefix of what has been linked; until the list is freed, what
      is left is what the list holds from the head node's successor on; and while nobody holds the mutex,
      `head == tail` says that nothing is left. */
  lemma Fifo(s: State, fuel: nat)
    requires Reachable(s)
    ensures s.taken <= s.linked && |s.chain| == |s.linked| - |s.taken|
    ensures !LoopLeft(s.x) && fuel >= |s.chain| ==> s.linked == s.taken + Walk(s.mem, NextOf(s.mem, s.head), fuel)
    ensures s.qLock == None ==> (s.head == s.tail <==> s.linked == s.taken)
  {
    MemAlways(s);
    hide Locks, Used, Shut, OwnOk;
    var nodes := Nodes(s);
    assert s.linked == s.taken + Items(s);
    assert s.chain != [] ==> nodes[0] != nodes[|s.chain|];
    if !LoopLeft(s.x) && fuel >= |s.chain| {
      assert NextOf(s.mem, nodes[0]) == At(nodes, 1);
      WalkListed(s.mem, nodes, Items(s), 1, fuel);
    }
  }
}
