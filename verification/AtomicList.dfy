/**
 The lock-free list of atomiclist.c as a state machine.

 Every step is one shared access of one thread: load the head, write or read a `next`
 field, compare and swap, clear a `next` field. Any number of threads interleave over
 any number of nodes, and clients write the links of nodes that they own as they like.

 The fields `list`, `place` and `removals`, the stamp that a pop carries and the nodes of
 a batch are bookkeeping of the proof: no step reads them to decide what it does to
 `head`, `next` or a thread's own variables, nor what pointer it returns.
 */
module AtomicList {
  import Bits
  import opened Packing

  type Ptr = int
  type Tid = nat

  const NULL: Ptr := 0

  datatype Op = Push(node: Ptr) | Pop | PopAll | Empty

  /** What a call hands back. A batch is returned as a pointer; `nodes` is what the proof says it leads to. */
  datatype Result =
    | Pushed(before: Ptr)
    | Taken(node: Ptr)
    | Batch(first: Ptr, nodes: seq<Ptr>)
    | Emptiness(empty: bool)

  /** Who may write a node's `next` field. */
  datatype Place = Client(tid: Tid) | Pushing(tid: Tid) | Listed | Popped(tid: Tid)

  /** A thread's program counter and local variables. */
  datatype Local =
    | Idle
    | PushStart(node: Ptr)
    | PushLoaded(node: Ptr, head: int)
    | PushReady(node: Ptr, head: int)
    | PopStart
    | PopLoaded(temp: int, stamp: nat)
    | PopReady(temp: int, next: Ptr, stamp: nat)
    | PopWon(node: Ptr)
    | AllStart
    | AllLoaded(temp: int)
    | EmptyStart
    | Done(result: Result)

  datatype State = State(
    head: int,
    next: map<Ptr, Ptr>,
    locals: map<Tid, Local>,
    list: seq<Ptr>,
    place: map<Ptr, Place>,
    removals: nat)

  datatype Step =
    | Invoke(t: Tid, op: Op)
    | PushLoad(t: Tid)
    | PushWrite(t: Tid)
    | PushCas(t: Tid)
    | PopLoad(t: Tid)
    | PopRead(t: Tid)
    | PopCas(t: Tid)
    | PopClear(t: Tid)
    | AllLoad(t: Tid)
    | AllCas(t: Tid)
    | EmptyLoad(t: Tid)
    | Return(t: Tid)
    | ClientWrite(t: Tid, node: Ptr, value: Ptr)
    | ClientGive(t: Tid, node: Ptr, receiver: Tid)

  /** The element at index i, or NULL past the end. */
  function At(list: seq<Ptr>, i: nat): Ptr {
    if i < |list| then list[i] else NULL
  }

  function Begin(op: Op): Local {
    match op
    case Push(node) => PushStart(node)
    case Pop => PopStart
    case PopAll => AllStart
    case Empty => EmptyStart
  }

  // ---------- the transition system ----------

  /** Clients push, write and give away only nodes that they own. */
  predicate Owns(s: State, t: Tid, node: Ptr) {
    node in s.next && node in s.place && s.place[node] == Client(t)
  }

  function Goto(s: State, t: Tid, local: Local): State {
    s.(locals := s.locals[t := local])
  }

  function DoInvoke(s: State, t: Tid, op: Op): State {
    Goto(s, t, Begin(op)).(place := if op.Push? then s.place[op.node := Pushing(t)] else s.place)
  }

  function DoPushWrite(s: State, t: Tid, node: Ptr, head: int): State {
    Goto(s, t, PushReady(node, head)).(next := s.next[node := Pointer(head)])
  }

  function DoPushCas(s: State, t: Tid, node: Ptr, head: int): State {
    if s.head != head then Goto(s, t, PushStart(node))
    else Goto(s, t, Done(Pushed(Pointer(head)))).(
    head := Pack(node, Version(head)),
    list := [node] + s.list,
    place := s.place[node := Listed])
  }

  function DoPopLoad(s: State, t: Tid): State {
    Goto(s, t, if Pointer(s.head) == NULL then Done(Taken(NULL)) else PopLoaded(s.head, s.removals))
  }

  function DoPopCas(s: State, t: Tid, temp: int, next: Ptr): State {
    if s.head != temp then Goto(s, t, PopStart)
    else Goto(s, t, PopWon(Pointer(temp))).(
    head := Pack(next, Version(temp) + 1),
    list := if s.list == [] then [] else s.list[1..],
    place := s.place[Pointer(temp) := Popped(t)],
    removals := s.removals + 1)
  }

  function DoPopClear(s: State, t: Tid, node: Ptr): State {
    Goto(s, t, Done(Taken(node))).(next := s.next[node := NULL], place := s.place[node := Client(t)])
  }

  function DoAllLoad(s: State, t: Tid): State {
    Goto(s, t, if Pointer(s.head) == NULL then Done(Batch(Pointer(s.head), [])) else AllLoaded(s.head))
  }

  function DoAllCas(s: State, t: Tid, temp: int): State {
    if s.head != temp then Goto(s, t, AllStart)
    else Goto(s, t, Done(Batch(Pointer(temp), s.list))).(
    head := Pack(NULL, Version(temp) + 1),
    list := [],
    place := map n | n in s.place :: if n in s.list then Client(t) else s.place[n],
    removals := s.removals + 1)
  }

  predicate Enabled(s: State, step: Step) {
    && step.t in s.locals
    && var local := s.locals[step.t];
       match step
       case Invoke(t, op) => local.Idle? && (op.Push? ==> Owns(s, t, op.node))
       case PushLoad(_) => local.PushStart?
       case PushWrite(_) => local.PushLoaded? && local.node in s.next
       case PushCas(_) => local.PushReady?
       case PopLoad(_) => local.PopStart?
       case PopRead(_) => local.PopLoaded? && Pointer(local.temp) in s.next
       case PopCas(_) => local.PopReady?
       case PopClear(_) => local.PopWon?
       case AllLoad(_) => local.AllStart?
       case AllCas(_) => local.AllLoaded?
       case EmptyLoad(_) => local.EmptyStart?
       case Return(_) => local.Done?
       case ClientWrite(t, node, value) => local.Idle? && Owns(s, t, node) && Canonical(value)
       case ClientGive(t, node, receiver) => local.Idle? && Owns(s, t, node)
  }

  function Next(s: State, step: Step): State
    requires Enabled(s, step)
  {
    var t := step.t;
    var local := s.locals[t];
    match step
    case Invoke(_, op) => DoInvoke(s, t, op)
    case PushLoad(_) => Goto(s, t, PushLoaded(local.node, s.head))
    case PushWrite(_) => DoPushWrite(s, t, local.node, local.head)
    case PushCas(_) => DoPushCas(s, t, local.node, local.head)
    case PopLoad(_) => DoPopLoad(s, t)
    case PopRead(_) => Goto(s, t, PopReady(local.temp, s.next[Pointer(local.temp)], local.stamp))
    case PopCas(_) => DoPopCas(s, t, local.temp, local.next)
    case PopClear(_) => DoPopClear(s, t, local.node)
    case AllLoad(_) => DoAllLoad(s, t)
    case AllCas(_) => DoAllCas(s, t, local.temp)
    case EmptyLoad(_) => Goto(s, t, Done(Emptiness(Pointer(s.head) == NULL)))
    case Return(_) => Goto(s, t, Idle)
    case ClientWrite(_, node, value) => s.(next := s.next[node := value])
    case ClientGive(_, node, receiver) => s.(place := s.place[node := Client(receiver)])
  }

  /** `atomic_list_init`: no list, every node with some client, every thread outside a call. */
  ghost predicate Init(s: State) {
    && s.head == Pack(NULL, 0)
    && s.list == []
    && s.removals == 0
    && s.next.Keys == s.place.Keys
    && (forall n | n in s.next :: Canonical(n) && n != NULL && Canonical(s.next[n]) && s.place[n].Client?)
    && (forall t | t in s.locals :: s.locals[t].Idle?)
  }

  // ---------- the invariant ----------

  /** From the head, `next` fields lead through exactly the list and then to NULL. */
  ghost predicate Linked(next: map<Ptr, Ptr>, list: seq<Ptr>) {
    forall i | 0 <= i < |list| :: LinkedAt(next, list, i)
  }

  ghost predicate LinkedAt(next: map<Ptr, Ptr>, list: seq<Ptr>, i: nat)
    requires i < |list|
  {
    list[i] in next && next[list[i]] == At(list, i + 1)
  }

  ghost predicate Distinct(list: seq<Ptr>) {
    forall i, j | 0 <= i < j < |list| :: list[i] != list[j]
  }

  ghost predicate Nodes(s: State) {
    && s.next.Keys == s.place.Keys
    && forall n | n in s.next :: Canonical(n) && n != NULL && Canonical(s.next[n])
  }

  ghost predicate Chain(s: State) {
    && Pointer(s.head) == At(s.list, 0)
    && Tag(s.head) == s.removals % POW_16
    && Linked(s.next, s.list)
    && Distinct(s.list)
    && forall n :: n in s.list <==> n in s.place && s.place[n] == Listed
  }

  /** A pop's loaded word is still the head of the list unless a removal intervened. */
  ghost predicate Recent(s: State, temp: int, stamp: nat) {
    && stamp <= s.removals
    && Tag(temp) == stamp % POW_16
    && Pointer(temp) in s.place
    && (stamp == s.removals ==> s.place[Pointer(temp)] == Listed)
  }

  ghost predicate LocalOk(s: State, t: Tid, local: Local)
    requires s.next.Keys == s.place.Keys
  {
    match local
    case PushStart(node) => node in s.place && s.place[node] == Pushing(t)
    case PushLoaded(node, _) => node in s.place && s.place[node] == Pushing(t)
    case PushReady(node, head) =>
      node in s.place && s.place[node] == Pushing(t) && s.next[node] == Pointer(head)
    case PopLoaded(temp, stamp) => Recent(s, temp, stamp)
    case PopReady(temp, next, stamp) =>
      Recent(s, temp, stamp) && Canonical(next) && (stamp == s.removals ==> s.next[Pointer(temp)] == next)
    case PopWon(node) => node in s.place && s.place[node] == Popped(t)
    case Done(Taken(node)) =>
      node != NULL ==> node in s.place && s.place[node] == Client(t) && s.next[node] == NULL
    case Done(Batch(first, nodes)) =>
      && first == At(nodes, 0) && Linked(s.next, nodes) && Distinct(nodes)
      && forall n | n in nodes :: n in s.place && s.place[n] == Client(t)
    case _ => true
  }

  ghost predicate Threads(s: State)
    requires s.next.Keys == s.place.Keys
  {
    forall t | t in s.locals :: LocalOk(s, t, s.locals[t])
  }

  ghost predicate InFlight(local: Local, node: Ptr) {
    (local.PushStart? || local.PushLoaded? || local.PushReady?) && local.node == node
  }

  /** A node that no client owns is in the list or belongs to the one call that says so. */
  ghost predicate OwnerOk(s: State, n: Ptr, place: Place) {
    && (place.Pushing? ==> place.tid in s.locals && InFlight(s.locals[place.tid], n))
    && (place.Popped? ==> place.tid in s.locals && s.locals[place.tid] == PopWon(n))
  }

  ghost predicate Owners(s: State) {
    forall n | n in s.place :: OwnerOk(s, n, s.place[n])
  }

  ghost predicate Inv(s: State) {
    Nodes(s) && Chain(s) && Threads(s) && Owners(s)
  }

  // ---------- what one thread's step leaves alone ----------

  /** What a step of thread t may do to nodes that it does not own, and to listed nodes. */
  ghost predicate Frame(s: State, s': State, t: Tid)
    requires Nodes(s)
  {
    && s'.next.Keys == s'.place.Keys == s.place.Keys
    && s'.locals.Keys == s.locals.Keys
    && (forall u | u in s.locals && u != t :: s'.locals[u] == s.locals[u])
    && s.removals <= s'.removals
    && (forall n | n in s.place && Foreign(s.place[n], t) :: s'.place[n] == s.place[n] && s'.next[n] == s.next[n])
    && (s'.removals == s.removals ==>
          forall n | n in s.place && s.place[n] == Listed :: s'.place[n] == Listed && s'.next[n] == s.next[n])
  }

  ghost predicate Foreign(place: Place, t: Tid) {
    !place.Listed? && place.tid != t
  }

  lemma LinksKept(next: map<Ptr, Ptr>, next': map<Ptr, Ptr>, list: seq<Ptr>)
    requires Linked(next, list)
    requires forall n | n in list :: n in next && n in next' && next'[n] == next[n]
    ensures Linked(next', list)
  {
    forall i | 0 <= i < |list| ensures LinkedAt(next', list, i) {
      var n := list[i];
      assert n in list;
      assert LinkedAt(next, list, i);
    }
  }

  lemma FirstIsNode(s: State)
    requires Nodes(s) && Chain(s)
    ensures s.list != [] ==> s.list[0] in s.next && s.next[s.list[0]] == At(s.list, 1)
    ensures Canonical(At(s.list, 1))
    ensures At(s.list, 0) == NULL <==> s.list == []
  {
    assert s.list != [] ==> LinkedAt(s.next, s.list, 0);
  }

  lemma FrameKeepsOthers(s: State, s': State, t: Tid, u: Tid)
    requires Inv(s) && Frame(s, s', t)
    requires u in s.locals && u != t
    ensures LocalOk(s', u, s'.locals[u])
  {
    assert LocalOk(s, u, s.locals[u]);
    match s.locals[u] {
      case Done(Batch(_, nodes)) =>
        assert forall n | n in nodes :: Foreign(s.place[n], t);
        LinksKept(s.next, s'.next, nodes);
      case _ =>
    }
  }

  lemma OthersKept(s: State, s': State, t: Tid)
    requires Inv(s) && Frame(s, s', t)
    requires t in s.locals && LocalOk(s', t, s'.locals[t])
    ensures Threads(s')
  {
    forall u | u in s'.locals ensures LocalOk(s', u, s'.locals[u]) {
      if u != t {
        FrameKeepsOthers(s, s', t, u);
      }
    }
  }

  // ---------- every step keeps the invariant ----------

  /** A pop's compare-and-swap comes fewer than 2^16 removals after the load it compares with. */
  predicate Timely(s: State, step: Step)
    requires Enabled(s, step)
  {
    step.PopCas? ==> s.removals - s.locals[step.t].stamp < POW_16
  }

  /** A step that only moves a thread's program counter. */
  lemma MoveKeepsInv(s: State, t: Tid, local: Local)
    requires Inv(s) && t in s.locals && LocalOk(s, t, local)
    requires forall n | InFlight(s.locals[t], n) :: InFlight(local, n)
    requires s.locals[t].PopWon? ==> local == s.locals[t]
    ensures Inv(Goto(s, t, local))
  {
    var s' := Goto(s, t, local);
    OthersKept(s, s', t);
    forall n | n in s'.place ensures OwnerOk(s', n, s'.place[n]) {
      assert OwnerOk(s, n, s.place[n]);
    }
  }

  /** A step that changes the heap: enough to look at the list and at the stepping thread. */
  lemma HeapStepKeepsInv(s: State, s': State, t: Tid)
    requires Inv(s) && Frame(s, s', t) && t in s.locals
    requires Nodes(s') && Chain(s') && LocalOk(s', t, s'.locals[t])
    requires forall n | n in s'.place && s'.place[n] != s.place[n] :: OwnerOk(s', n, s'.place[n])
    requires forall n | n in s'.place && InFlight(s.locals[t], n) && !InFlight(s'.locals[t], n) :: s'.place[n] != Pushing(t)
    requires forall n | n in s'.place && s.locals[t] == PopWon(n) :: s'.place[n] != Popped(t)
    ensures Inv(s')
  {
    OthersKept(s, s', t);
    forall n | n in s'.place ensures OwnerOk(s', n, s'.place[n]) {
      assert OwnerOk(s, n, s.place[n]);
    }
  }

  lemma InvokePushKeepsInv(s: State, t: Tid, node: Ptr)
    requires Inv(s) && t in s.locals && s.locals[t].Idle? && Owns(s, t, node)
    ensures Inv(DoInvoke(s, t, Push(node)))
  {
    HeapStepKeepsInv(s, DoInvoke(s, t, Push(node)), t);
  }

  lemma PushWriteKeepsInv(s: State, t: Tid, node: Ptr, head: int)
    requires Inv(s) && t in s.locals && s.locals[t] == PushLoaded(node, head)
    ensures Inv(DoPushWrite(s, t, node, head))
  {
    assert LocalOk(s, t, s.locals[t]);
    PointerKeepsField(head);
    LinksKept(s.next, s.next[node := Pointer(head)], s.list);
    HeapStepKeepsInv(s, DoPushWrite(s, t, node, head), t);
  }

  lemma Prepended(next: map<Ptr, Ptr>, node: Ptr, list: seq<Ptr>)
    requires Linked(next, list) && Distinct(list) && node !in list
    requires node in next && next[node] == At(list, 0)
    ensures Linked(next, [node] + list) && Distinct([node] + list)
  {
    var longer := [node] + list;
    forall i | 0 <= i < |longer| ensures LinkedAt(next, longer, i) {
      assert i > 0 ==> LinkedAt(next, list, i - 1);
    }
  }

  lemma PushCasKeepsInv(s: State, t: Tid, node: Ptr, head: int)
    requires Inv(s) && t in s.locals && s.locals[t] == PushReady(node, head) && s.head == head
    ensures Inv(DoPushCas(s, t, node, head))
  {
    assert LocalOk(s, t, s.locals[t]);
    Unpack(node, Version(head));
    Prepended(s.next, node, s.list);
    HeapStepKeepsInv(s, DoPushCas(s, t, node, head), t);
  }

  lemma HeadIsListed(s: State, t: Tid)
    requires Inv(s) && t in s.locals && s.locals[t].PopReady? && s.head == s.locals[t].temp
    ensures s.list != [] && Pointer(s.head) == s.list[0]
  {
    assert LocalOk(s, t, s.locals[t]);
    FirstIsNode(s);
  }

  /** Equal words and a window below 2^16 leave no removal in between, so the link that was read is current. */
  lemma PopReadsCurrentLink(s: State, t: Tid)
    requires Inv(s) && t in s.locals && s.locals[t].PopReady? && s.head == s.locals[t].temp
    requires s.removals - s.locals[t].stamp < POW_16
    ensures s.locals[t].stamp == s.removals
    ensures s.locals[t].next == At(s.list, 1)
  {
    HeadIsListed(s, t);
    FirstIsNode(s);
    assert LocalOk(s, t, s.locals[t]);
    SameTag(s.locals[t].stamp, s.removals);
  }

  lemma SameTag(n: nat, m: nat)
    requires n % POW_16 == m % POW_16 && n <= m && m - n < POW_16
    ensures n == m
  {
  }

  lemma TailOfChain(next: map<Ptr, Ptr>, list: seq<Ptr>)
    requires |list| > 0 && Linked(next, list) && Distinct(list)
    ensures Linked(next, list[1..]) && Distinct(list[1..])
    ensures At(list[1..], 0) == At(list, 1)
    ensures forall n :: n in list[1..] <==> n in list && n != list[0]
  {
    forall i | 0 <= i < |list| - 1 ensures LinkedAt(next, list[1..], i) {
      assert LinkedAt(next, list, i + 1);
    }
    forall n | n in list && n != list[0] ensures n in list[1..] {
      var i :| 0 <= i < |list| && list[i] == n;
      assert list[1..][i - 1] == n;
    }
  }

  /** A removal installs a pointer with the next version. */
  lemma BumpedHead(w: int, p: Ptr, n: nat)
    requires Canonical(p) && Tag(w) == n % POW_16
    ensures Pointer(Pack(p, Version(w) + 1)) == p
    ensures Tag(Pack(p, Version(w) + 1)) == (n + 1) % POW_16
  {
    hide Pointer, Pack, Version;
    Unpack(p, Version(w) + 1);
    Bits.NextRemainder(Version(w), n, POW_16);
  }

  lemma PopCasChain(s: State, s': State, place: Place)
    requires Nodes(s) && Chain(s) && s.list != [] && !place.Listed?
    requires s'.next == s.next && s'.list == s.list[1..] && s'.place == s.place[s.list[0] := place]
    requires Pointer(s'.head) == At(s.list, 1) && Tag(s'.head) == s'.removals % POW_16
    ensures Chain(s')
  {
    TailOfChain(s.next, s.list);
  }

  lemma PopCasKeepsInv(s: State, t: Tid, temp: int, next: Ptr, stamp: nat)
    requires Inv(s) && t in s.locals && s.locals[t] == PopReady(temp, next, stamp) && s.head == temp
    requires next == At(s.list, 1)
    ensures Inv(DoPopCas(s, t, temp, next))
  {
    var s' := DoPopCas(s, t, temp, next);
    HeadIsListed(s, t);
    assert LocalOk(s, t, s.locals[t]);
    BumpedHead(temp, next, s.removals);
    PopCasChain(s, s', Popped(t));
    HeapStepKeepsInv(s, s', t);
  }

  /** Whatever the versions did, a pop that wins is right exactly when the link it read is current. */
  lemma PopCasExact(s: State, t: Tid)
    requires Inv(s) && Enabled(s, PopCas(t)) && s.head == s.locals[t].temp
    ensures Inv(Next(s, PopCas(t))) <==> s.locals[t].next == At(s.list, 1)
  {
    var PopReady(temp, next, stamp) := s.locals[t];
    HeadIsListed(s, t);
    if next == At(s.list, 1) {
      PopCasKeepsInv(s, t, temp, next, stamp);
    } else {
      assert LocalOk(s, t, s.locals[t]);
      BumpedHead(temp, next, s.removals);
      assert At(s.list[1..], 0) == At(s.list, 1);
      assert !Chain(DoPopCas(s, t, temp, next));
    }
  }

  lemma PopClearKeepsInv(s: State, t: Tid, node: Ptr)
    requires Inv(s) && t in s.locals && s.locals[t] == PopWon(node)
    ensures Inv(DoPopClear(s, t, node))
  {
    assert LocalOk(s, t, s.locals[t]);
    LinksKept(s.next, s.next[node := NULL], s.list);
    HeapStepKeepsInv(s, DoPopClear(s, t, node), t);
  }

  lemma AllCasKeepsInv(s: State, t: Tid, temp: int)
    requires Inv(s) && t in s.locals && s.locals[t] == AllLoaded(temp) && s.head == temp
    ensures Inv(DoAllCas(s, t, temp))
  {
    BumpedHead(temp, NULL, s.removals);
    HeapStepKeepsInv(s, DoAllCas(s, t, temp), t);
  }

  lemma ClientWriteKeepsInv(s: State, t: Tid, node: Ptr, value: Ptr)
    requires Inv(s) && t in s.locals && s.locals[t].Idle? && Owns(s, t, node) && Canonical(value)
    ensures Inv(s.(next := s.next[node := value]))
  {
    LinksKept(s.next, s.next[node := value], s.list);
    HeapStepKeepsInv(s, s.(next := s.next[node := value]), t);
  }

  lemma ClientGiveKeepsInv(s: State, t: Tid, node: Ptr, receiver: Tid)
    requires Inv(s) && t in s.locals && s.locals[t].Idle? && Owns(s, t, node)
    ensures Inv(s.(place := s.place[node := Client(receiver)]))
  {
    HeapStepKeepsInv(s, s.(place := s.place[node := Client(receiver)]), t);
  }

  lemma StepKeepsInv(s: State, step: Step)
    requires Inv(s) && Enabled(s, step) && Timely(s, step)
    ensures Inv(Next(s, step))
  {
    var t := step.t;
    var local := s.locals[t];
    assert LocalOk(s, t, local);
    FirstIsNode(s);
    match step {
      case Invoke(_, Push(node)) => InvokePushKeepsInv(s, t, node);
      case PushWrite(_) => PushWriteKeepsInv(s, t, local.node, local.head);
      case PushCas(_) =>
        if s.head == local.head {
          PushCasKeepsInv(s, t, local.node, local.head);
        } else {
          MoveKeepsInv(s, t, PushStart(local.node));
        }
      case PopCas(_) =>
        if s.head == local.temp {
          PopReadsCurrentLink(s, t);
          PopCasKeepsInv(s, t, local.temp, local.next, local.stamp);
        } else {
          MoveKeepsInv(s, t, PopStart);
        }
      case PopClear(_) => PopClearKeepsInv(s, t, local.node);
      case AllCas(_) =>
        if s.head == local.temp {
          AllCasKeepsInv(s, t, local.temp);
        } else {
          MoveKeepsInv(s, t, AllStart);
        }
      case ClientWrite(_, node, value) => ClientWriteKeepsInv(s, t, node, value);
      case ClientGive(_, node, receiver) => ClientGiveKeepsInv(s, t, node, receiver);
      case _ => MoveKeepsInv(s, t, Next(s, step).locals[t]);
    }
  }

  // ---------- what a batch gives its taker ----------

  /** Follows `next` from a pointer until NULL, for at most n nodes. */
  function Walk(next: map<Ptr, Ptr>, p: Ptr, n: nat): seq<Ptr>
    decreases n
  {
    if p == NULL || n == 0 || p !in next then [] else [p] + Walk(next, next[p], n - 1)
  }

  lemma {:induction false} WalkLinked(next: map<Ptr, Ptr>, list: seq<Ptr>, i: nat, n: nat)
    requires Linked(next, list) && NULL !in next && i <= |list| <= i + n
    ensures Walk(next, At(list, i), n) == list[i..]
    decreases n
  {
    if i < |list| {
      assert LinkedAt(next, list, i);
      WalkLinked(next, list, i + 1, n - 1);
    }
  }

  /**
   When a take-all returns, the caller owns every node of the batch, and following the
   links from the returned pointer visits exactly the batch and stops at NULL.
   */
  lemma BatchIsReadable(s: State, t: Tid)
    requires Inv(s) && Enabled(s, Return(t)) && s.locals[t].result.Batch?
    ensures var nodes := s.locals[t].result.nodes;
            && (forall n: nat | n >= |nodes| :: Walk(s.next, s.locals[t].result.first, n) == nodes)
            && forall n | n in nodes :: n in s.place && s.place[n] == Client(t)
  {
    var Batch(first, nodes) := s.locals[t].result;
    assert LocalOk(s, t, s.locals[t]);
    forall n: nat | n >= |nodes| ensures Walk(s.next, first, n) == nodes {
      WalkLinked(s.next, nodes, 0, n);
    }
  }

  /** Every node is owned by one client, one call or the list, and the list holds each node once. */
  lemma OnePlace(s: State, n: Ptr)
    requires Inv(s) && n in s.next
    ensures s.place[n].Listed? <==> exists i :: 0 <= i < |s.list| && s.list[i] == n
    ensures forall i, j | 0 <= i < |s.list| && 0 <= j < |s.list| && s.list[i] == n && s.list[j] == n :: i == j
    ensures s.place[n].Pushing? ==> forall t | t in s.locals && InFlight(s.locals[t], n) :: t == s.place[n].tid
    ensures forall t | t in s.locals && InFlight(s.locals[t], n) :: s.place[n] == Pushing(t)
    ensures forall t | t in s.locals && s.locals[t] == PopWon(n) :: s.place[n] == Popped(t)
  {
    forall t | t in s.locals && (InFlight(s.locals[t], n) || s.locals[t] == PopWon(n))
      ensures InFlight(s.locals[t], n) ==> s.place[n] == Pushing(t)
      ensures s.locals[t] == PopWon(n) ==> s.place[n] == Popped(t)
    {
      assert LocalOk(s, t, s.locals[t]);
    }
  }

  /** The two places where the list code writes a link: the writer owns the node. */
  lemma LinkWritesAreOwned(s: State, step: Step, n: Ptr)
    requires Inv(s) && Enabled(s, step) && n in s.next && Next(s, step).next[n] != s.next[n]
    ensures s.place[n] == Client(step.t) || s.place[n] == Pushing(step.t) || s.place[n] == Popped(step.t)
  {
    hide Pointer, Pack, Version;
    assert LocalOk(s, step.t, s.locals[step.t]);
  }
}
