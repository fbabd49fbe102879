/**
 What the atomic list does with the nodes over a whole run: every pushed node is handed
 out exactly once or still listed, and a run that only pushes and takes batches delivers
 in the order of the pushes.
 */
module Delivery {
  import opened AtomicList
  import opened Common
  import opened Linearizability
  import opened Packing

  /** The node that an action adds to the list. */
  function PushedBy(a: Object, action: Action): seq<Ptr> {
    if action.Commit? && action.t in a.status && a.status[action.t].Pending? && a.status[action.t].op.Push?
    then [a.status[action.t].op.node] else []
  }

  /** The nodes that an action takes from the list, first node first. */
  function TakenBy(a: Object, action: Action): seq<Ptr> {
    if action.Commit? && action.t in a.status && a.status[action.t].Pending? then
      match a.status[action.t].op
      case Pop => if a.list == [] then [] else [a.list[0]]
      case PopAll => a.list
      case _ => []
    else []
  }

  ghost function AllPushed(objects: seq<Object>, actions: seq<Action>): seq<Ptr>
    requires |objects| == |actions| + 1
    decreases |actions|
  {
    if actions == [] then []
    else var n := |actions| - 1;
      AllPushed(objects[..n + 1], actions[..n]) + PushedBy(objects[n], actions[n])
  }

  /** The nodes handed out, each batch turned round as the consumer queues it. */
  ghost function AllDelivered(objects: seq<Object>, actions: seq<Action>): seq<Ptr>
    requires |objects| == |actions| + 1
    decreases |actions|
  {
    if actions == [] then []
    else var n := |actions| - 1;
      AllDelivered(objects[..n + 1], actions[..n]) + Reverse(TakenBy(objects[n], actions[n]))
  }

  ghost predicate NoPop(objects: seq<Object>, actions: seq<Action>)
    requires |objects| == |actions| + 1
  {
    forall i | 0 <= i < |actions| :: !PopCommit(objects[i], actions[i])
  }

  predicate PopCommit(a: Object, action: Action) {
    action.Commit? && action.t in a.status && a.status[action.t] == Pending(Pop)
  }

  lemma PrefixRun(objects: seq<Object>, actions: seq<Action>)
    requires ObjectRun(objects, actions) && actions != []
    ensures var n := |actions| - 1;
            ObjectRun(objects[..n + 1], actions[..n]) && Allowed(objects[n], actions[n], objects[n + 1])
  {
    var n := |actions| - 1;
    var earlier := objects[..n + 1];
    forall i | 0 <= i < n ensures Allowed(earlier[i], actions[..n][i], earlier[i + 1]) {
      assert Allowed(objects[i], actions[i], objects[i + 1]);
    }
  }

  lemma ActionBalance(a: Object, action: Action, b: Object)
    requires Allowed(a, action, b)
    ensures multiset(a.list) + multiset(PushedBy(a, action)) == multiset(TakenBy(a, action)) + multiset(b.list)
  {
    if action.Commit? && a.status[action.t].op.Pop? && a.list != [] {
      assert a.list == [a.list[0]] + a.list[1..];
    }
  }

  lemma BalanceStep(a: Object, action: Action, b: Object, pushed: seq<Ptr>, delivered: seq<Ptr>)
    requires Allowed(a, action, b)
    requires multiset(pushed) == multiset(delivered) + multiset(a.list)
    ensures multiset(pushed + PushedBy(a, action)) ==
            multiset(delivered + Reverse(TakenBy(a, action))) + multiset(b.list)
  {
    var added, taken := PushedBy(a, action), TakenBy(a, action);
    ActionBalance(a, action, b);
    ReverseMultiset(taken);
    calc {
      multiset(pushed + added);
      multiset(pushed) + multiset(added);
      multiset(delivered) + (multiset(a.list) + multiset(added));
      multiset(delivered) + (multiset(taken) + multiset(b.list));
      multiset(delivered + Reverse(taken)) + multiset(b.list);
    }
  }

  lemma OrderStep(a: Object, action: Action, b: Object, pushed: seq<Ptr>, delivered: seq<Ptr>)
    requires Allowed(a, action, b) && !PopCommit(a, action)
    requires pushed == delivered + Reverse(a.list)
    ensures pushed + PushedBy(a, action) == delivered + Reverse(TakenBy(a, action)) + Reverse(b.list)
  {
    if PushedBy(a, action) != [] {
      assert b.list[1..] == a.list;
    }
  }

  /** No node is lost and none is handed out twice for one push. */
  lemma {:induction false} Conservation(objects: seq<Object>, actions: seq<Action>)
    requires ObjectRun(objects, actions)
    ensures multiset(AllPushed(objects, actions)) ==
            multiset(AllDelivered(objects, actions)) + multiset(objects[|actions|].list)
    decreases |actions|
  {
    if actions != [] {
      var n := |actions| - 1;
      PrefixRun(objects, actions);
      Conservation(objects[..n + 1], actions[..n]);
      var pushed, delivered := AllPushed(objects[..n + 1], actions[..n]), AllDelivered(objects[..n + 1], actions[..n]);
      BalanceStep(objects[n], actions[n], objects[n + 1], pushed, delivered);
    }
  }

  lemma NoPopBefore(objects: seq<Object>, actions: seq<Action>)
    requires |objects| == |actions| + 1 && actions != [] && NoPop(objects, actions)
    ensures NoPop(objects[..|actions|], actions[..|actions| - 1]) && !PopCommit(objects[|actions| - 1], actions[|actions| - 1])
  {
    hide PopCommit;
    forall i | 0 <= i < |actions| - 1 ensures !PopCommit(objects[..|actions|][i], actions[..|actions| - 1][i]) {
      assert !PopCommit(objects[i], actions[i]);
    }
  }

  /** Without single pops, the nodes come out in the order in which the pushes took effect. */
  lemma {:induction false} FirstInFirstOut(objects: seq<Object>, actions: seq<Action>)
    requires ObjectRun(objects, actions) && NoPop(objects, actions)
    ensures AllPushed(objects, actions) == AllDelivered(objects, actions) + Reverse(objects[|actions|].list)
    decreases |actions|
  {
    if actions != [] {
      var n := |actions| - 1;
      PrefixRun(objects, actions);
      var earlier := objects[..n + 1];
      NoPopBefore(objects, actions);
      FirstInFirstOut(earlier, actions[..n]);
      assert !PopCommit(objects[n], actions[n]);
      var pushed, delivered := AllPushed(earlier, actions[..n]), AllDelivered(earlier, actions[..n]);
      OrderStep(objects[n], actions[n], objects[n + 1], pushed, delivered);
    }
  }

  ghost predicate Popping(local: Local) {
    local.PopStart? || local.PopLoaded? || local.PopReady?
  }

  lemma {:induction false} NeverPopping(states: seq<State>, steps: seq<Step>, i: nat)
    requires Run(states, steps) && i < |states|
    requires forall j | 0 <= j < |steps| && steps[j].Invoke? :: !steps[j].op.Pop?
    ensures forall t | t in states[i].locals :: !Popping(states[i].locals[t])
  {
    hide Pointer;
    if i > 0 {
      NeverPopping(states, steps, i - 1);
      assert states[i] == Next(states[i - 1], steps[i - 1]);
    }
  }

  /**
   The same for the machine, whatever the interleaving: when no client calls pop, what the
   heap still links from the head is exactly what has been pushed and not yet delivered.
   */
  lemma DeliversInOrder(states: seq<State>, steps: seq<Step>)
    requires Run(states, steps)
    requires forall i | 0 <= i < |steps| && steps[i].Invoke? :: !steps[i].op.Pop?
    ensures var objects, actions, last := Views(states), Actions(states, steps), states[|steps|];
            && AllPushed(objects, actions) == AllDelivered(objects, actions) + Reverse(last.list)
            && Pointer(last.head) == At(last.list, 0) && Linked(last.next, last.list)
  {
    hide Next, Pointer, AllPushed, AllDelivered;
    forall i | 0 <= i < |steps| ensures !steps[i].PopCas? && !steps[i].PopLoad? {
      NeverPopping(states, steps, i);
      assert Enabled(states[i], steps[i]);
    }
    assert TimelyRun(states, steps);
    Linearizable(states, steps);
    RunInv(states, steps, |steps|);
    NoPopInRun(states, steps);
    FirstInFirstOut(Views(states), Actions(states, steps));
  }

  lemma NoPopInRun(states: seq<State>, steps: seq<Step>)
    requires Run(states, steps)
    requires forall i | 0 <= i < |steps| && steps[i].Invoke? :: !steps[i].op.Pop?
    ensures NoPop(Views(states), Actions(states, steps))
  {
    hide Next, Pointer;
    var objects, actions := Views(states), Actions(states, steps);
    forall i | 0 <= i < |actions| ensures !PopCommit(objects[i], actions[i]) {
      NeverPopping(states, steps, i);
      NotPop(states[i], actions[i]);
    }
  }

  lemma NotPop(s: State, action: Action)
    requires forall t | t in s.locals :: !Popping(s.locals[t])
    ensures !PopCommit(View(s), action)
  {
  }
}
