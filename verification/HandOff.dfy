/**
 From the push to the handler: the list's batches, taken in a run of the machine, fed to
 the rounds of the event loop.

 A node of the list is an event; `at` says which. The rounds get the batches in the order
 in which they were taken, which is that of the one event thread that takes them. A round
 that found the list empty gets an empty batch.
 */
module HandOff {
  import opened AtomicList
  import opened Common
  import opened Delivery
  import opened Linearizability
  import EventLoop

  function Events(at: Ptr -> EventLoop.Event, nodes: seq<Ptr>): (events: seq<EventLoop.Event>)
    ensures |events| == |nodes| && forall i | 0 <= i < |nodes| :: events[i] == at(nodes[i])
  {
    seq(|nodes|, i requires 0 <= i < |nodes| => at(nodes[i]))
  }

  lemma EventsConcat(at: Ptr -> EventLoop.Event, a: seq<Ptr>, b: seq<Ptr>)
    ensures Events(at, a + b) == Events(at, a) + Events(at, b)
  {
  }

  lemma EventsReverse(at: Ptr -> EventLoop.Event, a: seq<Ptr>)
    ensures Events(at, Reverse(a)) == Reverse(Events(at, a))
  {
  }

  predicate Takes(a: Object, action: Action) {
    action.Commit? && action.t in a.status && a.status[action.t].Pending? && a.status[action.t].op.PopAll?
  }

  /** The batches of a run as the loop sees them, each newest first. */
  ghost function Batches(at: Ptr -> EventLoop.Event, objects: seq<Object>, actions: seq<Action>): seq<seq<EventLoop.Event>>
    requires |objects| == |actions| + 1
    decreases |actions|
  {
    if actions == [] then []
    else
      var n := |actions| - 1;
      Batches(at, objects[..n + 1], actions[..n])
      + if Takes(objects[n], actions[n]) then [Events(at, TakenBy(objects[n], actions[n]))] else []
  }

  /** Without single pops the batches carry exactly what the list delivers. */
  lemma {:induction false} BatchesAreDelivered(at: Ptr -> EventLoop.Event, objects: seq<Object>, actions: seq<Action>)
    requires |objects| == |actions| + 1 && NoPop(objects, actions)
    ensures EventLoop.Arrivals(Batches(at, objects, actions)) == Events(at, AllDelivered(objects, actions))
    decreases |actions|
  {
    if actions != [] {
      var n := |actions| - 1;
      var earlier, taken := objects[..n + 1], TakenBy(objects[n], actions[n]);
      var batches, delivered := Batches(at, earlier, actions[..n]), AllDelivered(earlier, actions[..n]);
      NoPopBefore(objects, actions);
      TakesNothing(objects[n], actions[n]);
      hide NoPop, PopCommit, TakenBy, Takes, Events;
      BatchesAreDelivered(at, earlier, actions[..n]);
      EventsConcat(at, delivered, Reverse(taken));
      EventsReverse(at, taken);
      if Takes(objects[n], actions[n]) {
        ArrivalsAppend(batches, Events(at, taken));
      } else {
        assert Reverse(taken) == [] && batches + [] == batches && delivered + [] == delivered;
      }
    }
  }

  lemma TakesNothing(a: Object, action: Action)
    requires !PopCommit(a, action)
    ensures !Takes(a, action) ==> TakenBy(a, action) == []
  {
  }

  lemma ArrivalsAppend(batches: seq<seq<EventLoop.Event>>, batch: seq<EventLoop.Event>)
    ensures EventLoop.Arrivals(batches + [batch]) == EventLoop.Arrivals(batches) + Reverse(batch)
  {
    assert (batches + [batch])[..|batches|] == batches;
  }

  /** The rounds that got something. */
  function Filled(rounds: seq<seq<EventLoop.Event>>): seq<seq<EventLoop.Event>> {
    if rounds == [] then []
    else Filled(rounds[..|rounds| - 1]) + if rounds[|rounds| - 1] == [] then [] else [rounds[|rounds| - 1]]
  }

  lemma {:induction false} FilledArrivals(rounds: seq<seq<EventLoop.Event>>)
    ensures EventLoop.Arrivals(Filled(rounds)) == EventLoop.Arrivals(rounds)
    decreases |rounds|
  {
    if rounds != [] {
      var n := |rounds| - 1;
      FilledArrivals(rounds[..n]);
      if rounds[n] != [] {
        ArrivalsAppend(Filled(rounds[..n]), rounds[n]);
      } else {
        assert Filled(rounds[..n]) + [] == Filled(rounds[..n]);
      }
    }
  }

  /**
   First in, first out, from end to end, for every interleaving: the prompt events whose
   handlers have run, followed by those in the local queue and those still in the list,
   are all the prompt events that were pushed, in the order of the pushes.
   */
  lemma PushedEventsRunInOrder(states: seq<State>, steps: seq<Step>, at: Ptr -> EventLoop.Event, rounds: seq<seq<EventLoop.Event>>)
    requires Run(states, steps) && forall i | 0 <= i < |steps| && steps[i].Invoke? :: !steps[i].op.Pop?
    requires Filled(rounds) == Filled(Batches(at, Views(states), Actions(states, steps)))
    requires forall b | b in rounds :: EventLoop.RedoIsIdle(b)
    ensures var r := EventLoop.AfterRounds(EventLoop.Queues([], [], []), rounds);
            EventLoop.Filter(EventLoop.Prompt, r.handled) + EventLoop.Filter(EventLoop.Prompt, r.collected)
            + EventLoop.Filter(EventLoop.Prompt, Events(at, Reverse(states[|steps|].list)))
            == EventLoop.Filter(EventLoop.Prompt, Events(at, AllPushed(Views(states), Actions(states, steps))))
  {
    var objects, actions, list := Views(states), Actions(states, steps), states[|steps|].list;
    DeliversInOrder(states, steps);
    NoPopInRun(states, steps);
    hide *;
    BatchesAreDelivered(at, objects, actions);
    FilledArrivals(rounds);
    FilledArrivals(Batches(at, objects, actions));
    EventsConcat(at, AllDelivered(objects, actions), Reverse(list));
    EventLoop.FilterAppend(EventLoop.Prompt, Events(at, AllDelivered(objects, actions)), Events(at, Reverse(list)));
    FromEmptyQueues(rounds);
  }

  lemma FromEmptyQueues(rounds: seq<seq<EventLoop.Event>>)
    requires forall b | b in rounds :: EventLoop.RedoIsIdle(b)
    ensures var r := EventLoop.AfterRounds(EventLoop.Queues([], [], []), rounds);
            EventLoop.Filter(EventLoop.Prompt, r.handled) + EventLoop.Filter(EventLoop.Prompt, r.collected)
            == EventLoop.Filter(EventLoop.Prompt, EventLoop.Arrivals(rounds))
  {
    var q := EventLoop.Queues([], [], []);
    EventLoop.PromptEventsInOrder(q, rounds);
    var arrived := EventLoop.Filter(EventLoop.Prompt, EventLoop.Arrivals(rounds));
    assert [] + [] + arrived == arrived;
  }
}
