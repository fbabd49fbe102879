/**
 The atomic list seen by its callers: an object whose operations happen at one instant.

 `Object` is the reference: a sequence and, for each thread, the call it has pending or
 the result it is about to return. `Commit` applies a whole operation at once. The
 theorem is that every run of the step machine is a run of this object with the same
 calls and returns.
 */
module Linearizability {
  import opened AtomicList
  import opened Packing

  datatype Status = Ready | Pending(op: Op) | Finished(result: Result)

  datatype Object = Object(list: seq<Ptr>, status: map<Tid, Status>)

  datatype Action = Call(t: Tid, op: Op) | Commit(t: Tid) | Reply(t: Tid, result: Result) | Internal

  /** The sequential meaning of the four operations. */
  function Apply(op: Op, list: seq<Ptr>): (seq<Ptr>, Result) {
    match op
    case Push(node) => ([node] + list, Pushed(At(list, 0)))
    case Pop => if list == [] then ([], Taken(NULL)) else (list[1..], Taken(list[0]))
    case PopAll => ([], Batch(At(list, 0), list))
    case Empty => (list, Emptiness(list == []))
  }

  predicate Allowed(a: Object, action: Action, b: Object) {
    match action
    case Call(t, op) => t in a.status && a.status[t] == Ready && b == a.(status := a.status[t := Pending(op)])
    case Commit(t) =>
      && t in a.status && a.status[t].Pending?
      && var (list, result) := Apply(a.status[t].op, a.list);
         b == Object(list, a.status[t := Finished(result)])
    case Reply(t, result) =>
      t in a.status && a.status[t] == Finished(result) && b == a.(status := a.status[t := Ready])
    case Internal => b == a
  }

  function StatusOf(local: Local): Status {
    match local
    case Idle => Ready
    case PushStart(node) => Pending(Push(node))
    case PushLoaded(node, _) => Pending(Push(node))
    case PushReady(node, _) => Pending(Push(node))
    case PopStart => Pending(Pop)
    case PopLoaded(_, _) => Pending(Pop)
    case PopReady(_, _, _) => Pending(Pop)
    case PopWon(node) => Finished(Taken(node))
    case AllStart => Pending(PopAll)
    case AllLoaded(_) => Pending(PopAll)
    case EmptyStart => Pending(Empty)
    case Done(result) => Finished(result)
  }

  function View(s: State): Object {
    Object(s.list, map t | t in s.locals :: StatusOf(s.locals[t]))
  }

  /** Where each call takes effect: a won compare-and-swap, or a load that finds the list empty. */
  function ActionOf(s: State, step: Step): Action
    requires Enabled(s, step)
  {
    var local := s.locals[step.t];
    match step
    case Invoke(t, op) => Call(t, op)
    case PushCas(t) => if s.head == local.head then Commit(t) else Internal
    case PopLoad(t) => if Pointer(s.head) == NULL then Commit(t) else Internal
    case PopCas(t) => if s.head == local.temp then Commit(t) else Internal
    case AllLoad(t) => if Pointer(s.head) == NULL then Commit(t) else Internal
    case AllCas(t) => if s.head == local.temp then Commit(t) else Internal
    case EmptyLoad(t) => Commit(t)
    case Return(t) => Reply(t, local.result)
    case _ => Internal
  }

  lemma ViewAfter(s: State, s': State, t: Tid, local: Local)
    requires t in s.locals && s'.locals == s.locals[t := local]
    ensures View(s').status == View(s).status[t := StatusOf(local)]
  {
  }

  lemma ViewUnmoved(s: State, t: Tid, local: Local)
    requires t in s.locals && StatusOf(local) == StatusOf(s.locals[t])
    ensures View(s).status[t := StatusOf(local)] == View(s).status
  {
  }

  lemma EmptyHead(s: State)
    requires Inv(s)
    ensures Pointer(s.head) == NULL <==> s.list == []
  {
    FirstIsNode(s);
  }

  /** A step that changes neither the list nor what its thread's call has achieved. */
  lemma MoveIsInternal(s: State, t: Tid, local: Local, s': State)
    requires t in s.locals && StatusOf(local) == StatusOf(s.locals[t])
    requires s'.list == s.list && s'.locals == s.locals[t := local]
    ensures Allowed(View(s), Internal, View(s'))
  {
    ViewAfter(s, s', t, local);
    ViewUnmoved(s, t, local);
  }

  lemma CommitIsAction(s: State, t: Tid, local: Local, s': State)
    requires t in s.locals && StatusOf(s.locals[t]).Pending?
    requires s'.locals == s.locals[t := local]
    requires (s'.list, StatusOf(local)) == var (list, result) := Apply(StatusOf(s.locals[t]).op, s.list); (list, Finished(result))
    ensures Allowed(View(s), Commit(t), View(s'))
  {
    ViewAfter(s, s', t, local);
  }

  lemma CasIsAction(s: State, step: Step)
    requires Inv(s) && Enabled(s, step) && (step.PushCas? || step.PopCas? || step.AllCas?)
    ensures Allowed(View(s), ActionOf(s, step), View(Next(s, step)))
  {
    var t, s' := step.t, Next(s, step);
    if ActionOf(s, step).Commit? {
      if step.PopCas? {
        HeadIsListed(s, t);
      }
      CommitIsAction(s, t, s'.locals[t], s');
    } else {
      MoveIsInternal(s, t, s'.locals[t], s');
    }
  }

  /** A load that finds the list empty commits; any other load, and each write, is internal. */
  lemma LoadIsAction(s: State, step: Step)
    requires Inv(s) && Enabled(s, step)
    requires step.PushLoad? || step.PushWrite? || step.PopLoad? || step.PopRead? || step.PopClear? || step.AllLoad? || step.EmptyLoad?
    ensures Allowed(View(s), ActionOf(s, step), View(Next(s, step)))
  {
    var t, s' := step.t, Next(s, step);
    EmptyHead(s);
    hide Inv, Pointer, Allowed;
    if step.PopLoad? {
      if Pointer(s.head) == NULL {
        CommitIsAction(s, t, s'.locals[t], s');
      } else {
        MoveIsInternal(s, t, s'.locals[t], s');
      }
    } else if step.AllLoad? {
      if Pointer(s.head) == NULL {
        CommitIsAction(s, t, s'.locals[t], s');
      } else {
        MoveIsInternal(s, t, s'.locals[t], s');
      }
    } else if step.EmptyLoad? {
      CommitIsAction(s, t, s'.locals[t], s');
    } else {
      MoveIsInternal(s, t, s'.locals[t], s');
    }
  }

  lemma StepIsAction(s: State, step: Step)
    requires Inv(s) && Enabled(s, step)
    ensures Allowed(View(s), ActionOf(s, step), View(Next(s, step)))
  {
    if step.PushCas? || step.PopCas? || step.AllCas? {
      CasIsAction(s, step);
    } else if step.ClientWrite? || step.ClientGive? {
      hide Inv, Pointer, Allowed;
      MoveIsInternal(s, step.t, s.locals[step.t], Next(s, step));
    } else if step.Invoke? || step.Return? {
      hide Inv, Pointer;
      ViewAfter(s, Next(s, step), step.t, Next(s, step).locals[step.t]);
    } else {
      hide Inv, Pointer, Allowed, ActionOf, View, Next, Enabled;
      LoadIsAction(s, step);
    }
  }

  // ---------- whole runs ----------

  /** What the clients see: calls, and returned values; of a batch only the pointer. */
  datatype Event = Called(t: Tid, op: Op) | Returned(t: Tid, value: Value)
  datatype Value = Address(p: Ptr) | Flag(b: bool)

  function ValueOf(result: Result): Value {
    match result
    case Pushed(before) => Address(before)
    case Taken(node) => Address(node)
    case Batch(first, _) => Address(first)
    case Emptiness(empty) => Flag(empty)
  }

  /** A run of the machine from an initial state. */
  ghost predicate Run(states: seq<State>, steps: seq<Step>) {
    && |states| == |steps| + 1
    && Init(states[0])
    && forall i | 0 <= i < |steps| :: Enabled(states[i], steps[i]) && states[i + 1] == Next(states[i], steps[i])
  }

  /** No pop is overtaken by 2^16 removals between its load and its compare-and-swap. */
  ghost predicate TimelyRun(states: seq<State>, steps: seq<Step>)
    requires Run(states, steps)
  {
    forall i | 0 <= i < |steps| :: Timely(states[i], steps[i])
  }

  ghost predicate ObjectRun(objects: seq<Object>, actions: seq<Action>) {
    && |objects| == |actions| + 1
    && objects[0].list == []
    && (forall t | t in objects[0].status :: objects[0].status[t] == Ready)
    && forall i | 0 <= i < |actions| :: Allowed(objects[i], actions[i], objects[i + 1])
  }

  function EventsOf(s: State, step: Step): seq<Event>
    requires Enabled(s, step)
  {
    match step
    case Invoke(t, op) => [Called(t, op)]
    case Return(t) => [Returned(t, ValueOf(s.locals[t].result))]
    case _ => []
  }

  ghost function Observed(states: seq<State>, steps: seq<Step>): seq<Event>
    requires Run(states, steps)
    decreases |steps|
  {
    if steps == [] then []
    else var n := |steps| - 1;
      Observed(states[..n + 1], steps[..n]) + EventsOf(states[n], steps[n])
  }

  function EventsIn(action: Action): seq<Event> {
    match action
    case Call(t, op) => [Called(t, op)]
    case Reply(t, result) => [Returned(t, ValueOf(result))]
    case _ => []
  }

  function Promised(actions: seq<Action>): seq<Event> {
    if actions == [] then []
    else
      var n := |actions| - 1;
      Promised(actions[..n]) + EventsIn(actions[n])
  }

  lemma InitInv(s: State)
    requires Init(s)
    ensures Inv(s)
  {
    Unpack(NULL, 0);
  }

  /** The invariant holds in every state that a timely run reaches. */
  lemma {:induction false} RunInv(states: seq<State>, steps: seq<Step>, i: nat)
    requires Run(states, steps) && TimelyRun(states, steps) && i < |states|
    ensures Inv(states[i])
  {
    if i == 0 {
      InitInv(states[0]);
    } else {
      RunInv(states, steps, i - 1);
      assert Timely(states[i - 1], steps[i - 1]);
      StepKeepsInv(states[i - 1], steps[i - 1]);
    }
  }

  /** A pop that is about to return hands its caller a node of its own, with the link cleared. */
  lemma PopReturnsCleared(states: seq<State>, steps: seq<Step>, i: nat, t: Tid, node: Ptr)
    requires Run(states, steps) && TimelyRun(states, steps) && i < |states|
    requires t in states[i].locals && states[i].locals[t] == Done(Taken(node)) && node != NULL
    ensures node in states[i].next && node in states[i].place && states[i].place[node] == Client(t) && states[i].next[node] == NULL
  {
    RunInv(states, steps, i);
    assert LocalOk(states[i], t, states[i].locals[t]);
    hide Run, TimelyRun;
  }

  /** The run of the object that a run of the machine implements. */
  ghost function Views(states: seq<State>): seq<Object> {
    seq(|states|, i requires 0 <= i < |states| => View(states[i]))
  }

  ghost function Actions(states: seq<State>, steps: seq<Step>): seq<Action>
    requires Run(states, steps)
  {
    seq(|steps|, i requires 0 <= i < |steps| => ActionOf(states[i], steps[i]))
  }

  lemma SameEvent(s: State, step: Step)
    requires Enabled(s, step)
    ensures EventsIn(ActionOf(s, step)) == EventsOf(s, step)
  {
    hide Enabled, Pointer;
  }

  lemma {:induction false} SameEvents(states: seq<State>, steps: seq<Step>)
    requires Run(states, steps)
    ensures Promised(Actions(states, steps)) == Observed(states, steps)
    decreases |steps|
  {
    if steps != [] {
      var n := |steps| - 1;
      var actions := Actions(states, steps);
      hide Next, Enabled, Pointer, ActionOf, EventsOf, EventsIn;
      SameEvents(states[..n + 1], steps[..n]);
      SameEvent(states[n], steps[n]);
      assert actions[..n] == Actions(states[..n + 1], steps[..n]);
    }
  }

  /** Linearizability: the machine shows its clients nothing that the atomic object could not. */
  lemma Linearizable(states: seq<State>, steps: seq<Step>)
    requires Run(states, steps) && TimelyRun(states, steps)
    ensures ObjectRun(Views(states), Actions(states, steps))
    ensures Promised(Actions(states, steps)) == Observed(states, steps)
  {
    var actions := Actions(states, steps);
    forall i | 0 <= i < |steps| ensures Allowed(Views(states)[i], actions[i], Views(states)[i + 1]) {
      RunInv(states, steps, i);
      StepIsAction(states[i], steps[i]);
    }
    SameEvents(states, steps);
  }

  // ---------- lock-freedom ----------

  /** The step that loads the head word for a compare-and-swap. */
  predicate LoadsHead(step: Step) {
    step.PushLoad? || step.PopLoad? || step.AllLoad?
  }

  /** The thread keeps this word for its compare-and-swap, or its call has already returned. */
  predicate Keeps(local: Local, word: int) {
    match local
    case PushLoaded(_, head) => head == word
    case PushReady(_, head) => head == word
    case PopLoaded(temp, _) => temp == word
    case PopReady(temp, _, _) => temp == word
    case AllLoaded(temp) => temp == word
    case Done(_) => true
    case _ => false
  }

  predicate LosesCas(s: State, step: Step)
    requires Enabled(s, step)
  {
    || (step.PushCas? && s.head != s.locals[step.t].head)
    || (step.PopCas? && s.head != s.locals[step.t].temp)
    || (step.AllCas? && s.head != s.locals[step.t].temp)
  }

  /** Only a commit changes the head word. */
  lemma HeadChangesAtCommit(s: State, step: Step)
    requires Enabled(s, step) && Next(s, step).head != s.head
    ensures ActionOf(s, step) == Commit(step.t)
  {
    hide Pointer, Pack, Version;
  }

  /** Writing or reading a link, and the steps of others, leave the loaded word alone. */
  lemma KeepsWord(s: State, step: Step, t: Tid, word: int)
    requires Enabled(s, step) && t in s.locals && Keeps(s.locals[t], word)
    requires step.t == t ==> step.PushWrite? || step.PopRead?
    ensures t in Next(s, step).locals && Keeps(Next(s, step).locals[t], word)
  {
    hide Pointer, Pack, Version;
  }

  lemma LoadsWord(s: State, step: Step)
    requires Enabled(s, step) && LoadsHead(step)
    ensures step.t in Next(s, step).locals && Keeps(Next(s, step).locals[step.t], s.head) && Next(s, step).head == s.head
  {
    hide Pointer, Pack, Version;
  }

  lemma OwnStepKeepsHead(s: State, step: Step)
    requires Enabled(s, step) && (step.PushWrite? || step.PopRead?)
    ensures Next(s, step).head == s.head
  {
    hide Pointer, Pack, Version;
  }

  lemma StepKeepsWord(s: State, step: Step, t: Tid)
    requires Enabled(s, step) && t in s.locals && Keeps(s.locals[t], s.head)
    requires if step.t == t then step.PushWrite? || step.PopRead? else ActionOf(s, step) != Commit(step.t)
    ensures t in Next(s, step).locals && Keeps(Next(s, step).locals[t], Next(s, step).head)
  {
    hide Next, Enabled, ActionOf, Keeps;
    KeepsWord(s, step, t, s.head);
    if step.t == t {
      OwnStepKeepsHead(s, step);
    } else if Next(s, step).head != s.head {
      HeadChangesAtCommit(s, step);
    }
  }

  /** Between its load and its compare-and-swap the thread at hand writes or reads a link, and no other thread commits. */
  ghost predicate Undisturbed(states: seq<State>, steps: seq<Step>, t: Tid, k: nat)
    requires Run(states, steps) && k < |steps|
  {
    if steps[k].t == t then steps[k].PushWrite? || steps[k].PopRead? else ActionOf(states[k], steps[k]) != Commit(steps[k].t)
  }

  lemma RunStepOf(states: seq<State>, steps: seq<Step>, k: nat)
    requires Run(states, steps) && k < |steps|
    ensures |states| == |steps| + 1 && Enabled(states[k], steps[k]) && states[k + 1] == Next(states[k], steps[k])
  {
    hide Enabled, Next;
  }

  /** Until its compare-and-swap the thread keeps the word, and without commits of others the head keeps it too. */
  lemma {:induction false} WordKept(states: seq<State>, steps: seq<Step>, i: nat, j: nat)
    requires Run(states, steps) && i < j <= |steps| && LoadsHead(steps[i])
    requires forall k | i < k < j :: Undisturbed(states, steps, steps[i].t, k)
    ensures steps[i].t in states[j].locals && Keeps(states[j].locals[steps[i].t], states[j].head)
    decreases j - i
  {
    hide *;
    RunStepOf(states, steps, j - 1);
    if i + 1 == j {
      LoadsWord(states[i], steps[i]);
    } else {
      assert Undisturbed(states, steps, steps[i].t, j - 1);
      UndisturbedIs(states, steps, steps[i].t, j - 1);
      WordKept(states, steps, i, j - 1);
      StepKeepsWord(states[j - 1], steps[j - 1], steps[i].t);
    }
  }

  lemma UndisturbedIs(states: seq<State>, steps: seq<Step>, t: Tid, k: nat)
    requires Run(states, steps) && k < |steps| && Undisturbed(states, steps, t, k)
    ensures Enabled(states[k], steps[k])
    ensures if steps[k].t == t then steps[k].PushWrite? || steps[k].PopRead? else ActionOf(states[k], steps[k]) != Commit(steps[k].t)
  {
    hide Enabled, Next, ActionOf;
  }

  /** A compare-and-swap fails only because another thread has committed an operation since the load. */
  lemma FailureMeansProgress(states: seq<State>, steps: seq<Step>, i: nat, j: nat)
    requires Run(states, steps) && i < j < |steps| && LoadsHead(steps[i]) && steps[j].t == steps[i].t
    requires forall k | i < k < j && steps[k].t == steps[i].t :: steps[k].PushWrite? || steps[k].PopRead?
    requires LosesCas(states[j], steps[j])
    ensures exists k | i < k < j :: steps[k].t != steps[i].t && ActionOf(states[k], steps[k]) == Commit(steps[k].t)
  {
    hide Pointer, Pack, Version, ActionOf;
    assert Enabled(states[j], steps[j]);
    if forall k | i < k < j && steps[k].t != steps[i].t :: ActionOf(states[k], steps[k]) != Commit(steps[k].t) {
      WordKept(states, steps, i, j);
      assert false;
    }
  }
}
