/**
 The queues of one event thread: linked events, changed in place.

 `collectqueue` and `postponedqueue` are chains through the events' own `next` fields.
 A batch from the atomic list is a third such chain, newest event first. The loop's
 methods are proved against functions on the sequences that the chains stand for.
 */
module EventLoop {
  import opened Common

  class Event {
    var next: Event?
    const idle: bool
    const redo: bool

    constructor (idle: bool, redo: bool)
      ensures this.idle == idle && this.redo == redo && next == null
    {
      this.idle, this.redo, next := idle, redo, null;
    }
  }

  /** The chain from `first` visits exactly these events, each once. */
  ghost predicate Chain(first: Event?, events: seq<Event>)
    reads events
  {
    && first == (if events == [] then null else events[0])
    && (forall i {:trigger events[i].next} | 0 <= i < |events| :: events[i].next == if i + 1 < |events| then events[i + 1] else null)
    && (forall i, j | 0 <= i < j < |events| :: events[i] != events[j])
  }

  function Filter<T>(keep: T -> bool, s: seq<T>): (r: seq<T>)
    ensures forall x | x in r :: x in s && keep(x)
    ensures forall x | x in s && keep(x) :: x in r
  {
    if s == [] then [] else (if keep(s[0]) then [s[0]] else []) + Filter(keep, s[1..])
  }

  /** A local queue: push and pop at the front of a chain. */
  class LocalQueue {
    var link: Event?
    ghost var events: seq<Event>

    ghost predicate Valid()
      reads this, events
    {
      Chain(link, events)
    }

    constructor ()
      ensures Valid() && events == []
    {
      link, events := null, [];
    }

    method Enqueue(e: Event)
      requires Valid() && e !in events
      modifies this, e
      ensures Valid() && events == [e] + old(events)
    {
      e.next := link;
      link := e;
      events := [e] + events;
    }

    method Dequeue() returns (e: Event?)
      requires Valid()
      modifies this, if link == null then {} else {link}
      ensures Valid()
      ensures old(events) == [] ==> e == null && events == []
      ensures old(events) != [] ==> e == old(events)[0] && e.next == null && events == old(events)[1..]
    {
      e := link;
      if e == null {
        return;
      }
      link := e.next;
      e.next := null;
      events := events[1..];
    }
  }

  predicate Idle(e: Event) { e.idle }

  predicate Prompt(e: Event) { !e.idle }

  predicate Repeats(e: Event) { e.redo }

  /** Created so by every caller: an event that is put back after its handler ran is an idle event. */
  ghost predicate RedoIsIdle(events: seq<Event>) {
    forall e | e in events :: e.redo ==> e.idle
  }

  class EventThread {
    const collectqueue: LocalQueue
    const postponedqueue: LocalQueue
    /** The events whose handler has been called, in order. */
    var handled: seq<Event>

    ghost predicate Valid()
      reads this, collectqueue, postponedqueue, collectqueue.events, postponedqueue.events
    {
      && collectqueue != postponedqueue
      && collectqueue.Valid() && postponedqueue.Valid()
      && Apart(collectqueue.events, postponedqueue.events)
    }

    constructor ()
      ensures Valid() && collectqueue.events == [] && postponedqueue.events == [] && handled == []
    {
      collectqueue := new LocalQueue();
      postponedqueue := new LocalQueue();
      handled := [];
    }

    method ProcessEvent(e: Event)
      requires Valid() && e !in collectqueue.events && e !in postponedqueue.events
      modifies this, collectqueue, e
      ensures Valid() && handled == old(handled) + [e]
      ensures collectqueue.events == (if e.redo then [e] else []) + old(collectqueue.events)
    {
      handled := handled + [e];
      if e.redo {
        collectqueue.Enqueue(e);
      }
    }

    /** One event of the first loop: an idle event waits, a prompt one runs. */
    method Dispatch(e: Event)
      requires Valid() && e !in collectqueue.events && e !in postponedqueue.events
      requires e.redo ==> e.idle
      modifies this, collectqueue, postponedqueue, e
      ensures Valid() && collectqueue.events == old(collectqueue.events)
      ensures postponedqueue.events == (if e.idle then [e] else []) + old(postponedqueue.events)
      ensures handled == old(handled) + if e.idle then [] else [e]
    {
      if e.idle {
        postponedqueue.Enqueue(e);
      } else {
        ProcessEvent(e);
      }
    }

    /** One turn of the first loop; false when the queue is empty. */
    method CollectNext() returns (more: bool)
      requires Valid() && RedoIsIdle(collectqueue.events)
      modifies this, collectqueue, postponedqueue, if collectqueue.link == null then {} else {collectqueue.link}
      ensures Valid() && more == (old(collectqueue.events) != [])
      ensures View() == AfterTurn(old(View()))
    {
      var e := collectqueue.Dequeue();
      more := e != null;
      if more {
        Dispatch(e);
      }
    }

    /** The first loop of a round: run the prompt events, postpone the idle ones. */
    method DrainCollected()
      requires Valid() && RedoIsIdle(collectqueue.events)
      modifies this, collectqueue, postponedqueue, collectqueue.events
      ensures Valid() && View() == AfterDrain(old(View()))
    {
      hide AfterDrain, AfterTurn;
      var more := true;
      while more
        invariant Valid() && (!more ==> collectqueue.events == [])
        invariant AfterDrain(View()) == AfterDrain(old(View()))
        invariant forall e | e in collectqueue.events :: e in old(collectqueue.events)
        decreases more, |collectqueue.events|
      {
        TurnThenDrain(View());
        assert collectqueue.link == null || collectqueue.link in collectqueue.events;
        more := CollectNext();
      }
      DrainOfNothing(View());
    }

    /** One turn of the loop over a batch. */
    method RelinkNext(e: Event, ghost rest: seq<Event>) returns (enext: Event?)
      requires Valid() && rest != [] && Chain(e, rest)
      requires Apart(rest, collectqueue.events) && Apart(rest, postponedqueue.events)
      modifies collectqueue, e
      ensures Valid() && collectqueue.events == [e] + old(collectqueue.events)
      ensures Chain(enext, rest[1..])
    {
      assert e == rest[0] && e !in collectqueue.events && e !in postponedqueue.events;
      enext := e.next;
      e.next := null;
      collectqueue.Enqueue(e);
    }

    /** The tail of thread_event_dequeue: relink a batch, newest first, into the local queue. */
    method Relink(batch: Event?, ghost events: seq<Event>)
      requires Valid() && Chain(batch, events)
      requires Apart(events, collectqueue.events) && Apart(events, postponedqueue.events)
      modifies collectqueue, events
      ensures Valid() && collectqueue.events == Reverse(events) + old(collectqueue.events)
    {
      var e := batch;
      ghost var rest := events;
      while e != null
        invariant Valid() && Chain(e, rest)
        invariant forall x | x in rest :: x in events
        invariant Apart(rest, collectqueue.events) && Apart(rest, postponedqueue.events)
        invariant Reverse(rest) + collectqueue.events == Reverse(events) + old(collectqueue.events)
        decreases |rest|
      {
        assert e in rest;
        e := RelinkNext(e, rest);
        rest := rest[1..];
      }
    }

    method PostponedNext() returns (more: bool)
      requires Valid()
      modifies this, collectqueue, postponedqueue, if postponedqueue.link == null then {} else {postponedqueue.link}
      ensures Valid() && more == (old(postponedqueue.events) != [])
      ensures View() == AfterRun(old(View()))
    {
      var e := postponedqueue.Dequeue();
      more := e != null;
      if more {
        ProcessEvent(e);
      }
    }

    /** The last loop of a round: run every postponed event; those to be redone are collected again. */
    method DrainPostponed()
      requires Valid()
      modifies this, collectqueue, postponedqueue, postponedqueue.events
      ensures Valid() && View() == AfterPostponed(old(View()))
    {
      hide AfterRun, AfterPostponed;
      var more := true;
      while more
        invariant Valid() && (!more ==> postponedqueue.events == [])
        invariant AfterPostponed(View()) == AfterPostponed(old(View()))
        invariant forall e | e in postponedqueue.events :: e in old(postponedqueue.events)
        decreases more, |postponedqueue.events|
      {
        RunThenPostponed(View());
        assert postponedqueue.link == null || postponedqueue.link in postponedqueue.events;
        more := PostponedNext();
      }
      PostponedOfNothing(View());
    }

    /**
     One round of thread_main_event_loop. The batch is what take-all returned, or null when
     the loop found the list empty.
     */
    method Round(batch: Event?, ghost events: seq<Event>)
      requires Valid() && Chain(batch, events) && RedoIsIdle(collectqueue.events)
      requires Apart(events, collectqueue.events) && Apart(events, postponedqueue.events)
      modifies this, collectqueue, postponedqueue, collectqueue.events, postponedqueue.events, events
      ensures Valid() && View() == AfterRound(old(View()), events)
    {
      hide AfterPostponed, Filter, Idle, Prompt;
      ghost var q := View();
      DrainCollected();
      forall j | 0 <= j < |postponedqueue.events|
        ensures postponedqueue.events[j] in q.collected || postponedqueue.events[j] in q.postponed
      {
        DrainedFrom(q, postponedqueue.events[j]);
      }
      ghost var drained := View();
      if batch != null {
        Relink(batch, events);
        assert Reverse(events) + [] == Reverse(events);
      }
      assert View() == drained.(collected := Reverse(events));
      DrainPostponed();
    }

    ghost function View(): Queues
      reads this, collectqueue, postponedqueue
    {
      Queues(collectqueue.events, postponedqueue.events, handled)
    }
  }

  datatype Queues = Queues(collected: seq<Event>, postponed: seq<Event>, handled: seq<Event>)

  /** One turn of the first loop on the sequences. */
  function AfterTurn(q: Queues): Queues {
    if q.collected == [] then q
    else
      var e := q.collected[0];
      if e.idle then Queues(q.collected[1..], [e] + q.postponed, q.handled)
      else Queues((if e.redo then [e] else []) + q.collected[1..], q.postponed, q.handled + [e])
  }

  function AfterDrain(q: Queues): Queues {
    Queues([], Reverse(Filter(Idle, q.collected)) + q.postponed, q.handled + Filter(Prompt, q.collected))
  }

  function AfterRun(q: Queues): Queues {
    if q.postponed == [] then q
    else
      var e := q.postponed[0];
      Queues((if e.redo then [e] else []) + q.collected, q.postponed[1..], q.handled + [e])
  }

  function AfterPostponed(q: Queues): Queues {
    Queues(Reverse(Filter(Repeats, q.postponed)) + q.collected, [], q.handled + q.postponed)
  }

  /** A round on the sequences; the batch comes newest first. */
  function AfterRound(q: Queues, batch: seq<Event>): Queues {
    var drained := AfterDrain(q);
    AfterPostponed(drained.(collected := Reverse(batch)))
  }

  lemma FilterHead<T>(keep: T -> bool, s: seq<T>)
    requires s != []
    ensures Filter(keep, s) == (if keep(s[0]) then [s[0]] else []) + Filter(keep, s[1..])
    ensures Reverse(Filter(keep, s)) == Reverse(Filter(keep, s[1..])) + if keep(s[0]) then [s[0]] else []
  {
    var kept, rest := Filter(keep, s), Filter(keep, s[1..]);
    if keep(s[0]) {
      assert kept == [s[0]] + rest && kept[1..] == rest;
    } else {
      assert kept == rest && Reverse(rest) + [] == Reverse(rest);
    }
  }

  lemma TurnThenDrain(q: Queues)
    requires RedoIsIdle(q.collected)
    ensures AfterDrain(AfterTurn(q)) == AfterDrain(q)
    ensures AfterTurn(q).collected == if q.collected == [] then [] else q.collected[1..]
  {
    hide Filter, Reverse;
    if q.collected != [] {
      var e, rest := q.collected[0], q.collected[1..];
      var idle, prompt := Reverse(Filter(Idle, rest)), Filter(Prompt, rest);
      FilterHead(Idle, q.collected);
      FilterHead(Prompt, q.collected);
      assert AfterTurn(q).collected == rest;
      assert (idle + [e]) + q.postponed == idle + ([e] + q.postponed);
      assert (q.handled + [e]) + prompt == q.handled + ([e] + prompt);
    }
  }

  /** Draining the collected events postpones only events that were queued. */
  lemma DrainedFrom(q: Queues, e: Event)
    requires e in AfterDrain(q).postponed
    ensures e in q.collected || e in q.postponed
  {
  }

  lemma DrainOfNothing(q: Queues)
    requires q.collected == []
    ensures AfterDrain(q) == q
  {
  }

  lemma RunThenPostponed(q: Queues)
    ensures AfterPostponed(AfterRun(q)) == AfterPostponed(q)
    ensures AfterRun(q).postponed == if q.postponed == [] then [] else q.postponed[1..]
  {
    hide Filter, Reverse;
    if q.postponed != [] {
      FilterHead(Repeats, q.postponed);
    }
  }

  lemma PostponedOfNothing(q: Queues)
    requires q.postponed == []
    ensures AfterPostponed(q) == q
  {
  }

  ghost predicate Apart(a: seq<Event>, b: seq<Event>) {
    forall i, j | 0 <= i < |a| && 0 <= j < |b| :: a[i] != b[j]
  }

  lemma {:induction false} FilterAppend<T>(keep: T -> bool, s: seq<T>, t: seq<T>)
    ensures Filter(keep, s + t) == Filter(keep, s) + Filter(keep, t)
  {
    if s == [] {
      assert s + t == t;
    } else {
      assert (s + t)[1..] == s[1..] + t;
      FilterAppend(keep, s[1..], t);
    }
  }

  // ---------- whole rounds ----------

  /** The queues after one round for each batch. */
  function AfterRounds(q: Queues, batches: seq<seq<Event>>): Queues {
    if batches == [] then q
    else AfterRound(AfterRounds(q, batches[..|batches| - 1]), batches[|batches| - 1])
  }

  /** The events of the batches in the order in which they were pushed. */
  function Arrivals(batches: seq<seq<Event>>): seq<Event> {
    if batches == [] then []
    else Arrivals(batches[..|batches| - 1]) + Reverse(batches[|batches| - 1])
  }

  lemma {:induction false} FilterNone<T>(keep: T -> bool, s: seq<T>)
    requires forall x | x in s :: !keep(x)
    ensures Filter(keep, s) == []
  {
    if s != [] {
      FilterNone(keep, s[1..]);
    }
  }

  lemma {:induction false} FilterAll<T>(keep: T -> bool, s: seq<T>)
    requires forall x | x in s :: keep(x)
    ensures Filter(keep, s) == s
  {
    if s != [] {
      FilterAll(keep, s[1..]);
    }
  }

  lemma {:induction false} FilterCount<T>(keep: T -> bool, s: seq<T>, x: T)
    ensures multiset(Filter(keep, s))[x] == if keep(x) then multiset(s)[x] else 0
  {
    if s != [] {
      FilterCount(keep, s[1..], x);
      assert s == [s[0]] + s[1..];
    }
  }

  lemma AppendNothing<T>(s: seq<T>)
    ensures s + [] == s
  {
  }

  lemma AppendTwice<T>(a: seq<T>, b: seq<T>, c: seq<T>)
    ensures (a + b) + c == a + (b + c)
  {
  }

  lemma RoundsAppend(q: Queues, batches: seq<seq<Event>>)
    requires batches != []
    ensures AfterRounds(q, batches) == AfterRound(AfterRounds(q, batches[..|batches| - 1]), batches[|batches| - 1])
  {
  }

  /** Every queued event is of a kind that the server creates, and only idle ones are postponed. */
  ghost predicate Ordinary(q: Queues) {
    RedoIsIdle(q.collected) && forall e | e in q.postponed :: e.idle
  }

  lemma PromptRound(q: Queues, batch: seq<Event>)
    requires Ordinary(q) && RedoIsIdle(batch)
    ensures Ordinary(AfterRound(q, batch))
    ensures Filter(Prompt, AfterRound(q, batch).handled) == Filter(Prompt, q.handled) + Filter(Prompt, q.collected)
    ensures Filter(Prompt, AfterRound(q, batch).collected) == Filter(Prompt, Reverse(batch))
  {
    var drained := AfterDrain(q);
    var again := Reverse(Filter(Repeats, drained.postponed));
    hide Filter, Reverse;
    FilterAppend(Prompt, q.handled, Filter(Prompt, q.collected));
    FilterAll(Prompt, Filter(Prompt, q.collected));
    FilterAppend(Prompt, drained.handled, drained.postponed);
    FilterNone(Prompt, drained.postponed);
    FilterAppend(Prompt, again, Reverse(batch));
    FilterNone(Prompt, again);
  }

  /**
   First in, first out, exactly once: the prompt events that have run, followed by those
   still queued, are the ones that were there at the start and then all arrivals in push order.
   */
  lemma {:induction false} PromptEventsInOrder(q: Queues, batches: seq<seq<Event>>)
    requires Ordinary(q) && forall b | b in batches :: RedoIsIdle(b)
    ensures var r := AfterRounds(q, batches);
            && Ordinary(r)
            && Filter(Prompt, r.handled) + Filter(Prompt, r.collected)
               == Filter(Prompt, q.handled) + Filter(Prompt, q.collected) + Filter(Prompt, Arrivals(batches))
    decreases |batches|
  {
    if batches != [] {
      var n := |batches| - 1;
      assert batches[n] in batches && forall b | b in batches[..n] :: b in batches;
      RoundsAppend(q, batches);
      ArrivalsGrow(batches);
      hide *;
      var r := AfterRounds(q, batches[..n]);
      PromptEventsInOrder(q, batches[..n]);
      PromptRound(r, batches[n]);
      FilterAppend(Prompt, Arrivals(batches[..n]), Reverse(batches[n]));
      AppendTwice(Filter(Prompt, q.handled) + Filter(Prompt, q.collected), Filter(Prompt, Arrivals(batches[..n])), Filter(Prompt, Reverse(batches[n])));
    } else {
      AppendNothing(Filter(Prompt, q.handled) + Filter(Prompt, q.collected));
    }
  }

  lemma ArrivalsGrow(batches: seq<seq<Event>>)
    requires batches != []
    ensures Arrivals(batches) == Arrivals(batches[..|batches| - 1]) + Reverse(batches[|batches| - 1])
  {
  }

  /** How often an event is queued. */
  ghost function Queued(q: Queues, e: Event): nat {
    multiset(q.collected)[e] + multiset(q.postponed)[e]
  }

  lemma IdleRound(q: Queues, batch: seq<Event>, e: Event)
    requires e.idle
    ensures var r := AfterRound(q, batch);
            && multiset(r.handled)[e] == multiset(q.handled)[e] + Queued(q, e)
            && Queued(r, e) == multiset(batch)[e] + if e.redo then Queued(q, e) else 0
  {
    var runs := AfterDrain(q).postponed;
    FilterCount(Idle, q.collected, e);
    FilterCount(Prompt, q.collected, e);
    ReverseMultiset(Filter(Idle, q.collected));
    FilterCount(Repeats, runs, e);
    ReverseMultiset(Filter(Repeats, runs));
    ReverseMultiset(batch);
  }

  /** A queued idle event that is to be redone runs once in every round and stays queued. */
  lemma {:induction false} RepeatsEveryRound(q: Queues, batches: seq<seq<Event>>, e: Event)
    requires e.idle && e.redo && Queued(q, e) == 1 && forall b | b in batches :: e !in b
    ensures var r := AfterRounds(q, batches);
            multiset(r.handled)[e] == multiset(q.handled)[e] + |batches| && Queued(r, e) == 1
    decreases |batches|
  {
    if batches != [] {
      var n := |batches| - 1;
      hide AfterRound, Filter, Reverse;
      RepeatsEveryRound(q, batches[..n], e);
      assert e !in batches[n];
      IdleRound(AfterRounds(q, batches[..n]), batches[n], e);
    }
  }

  // ---------- the loop as one list ----------

  /** The events queued after the rounds, as one list in the order of their arrival. */
  function Backlog(queue: seq<Event>, batches: seq<seq<Event>>): seq<Event> {
    if batches == [] then queue
    else Filter(Repeats, Backlog(queue, batches[..|batches| - 1])) + Reverse(batches[|batches| - 1])
  }

  /** What the rounds run: of each backlog the prompt events in order, and then the idle ones from the last to the first. */
  function Log(queue: seq<Event>, batches: seq<seq<Event>>): seq<Event> {
    if batches == [] then []
    else
      var backlog := Backlog(queue, batches[..|batches| - 1]);
      Log(queue, batches[..|batches| - 1]) + (Filter(Prompt, backlog) + Reverse(Filter(Idle, backlog)))
  }

  lemma {:induction false} FilterReverse<T>(keep: T -> bool, s: seq<T>)
    ensures Filter(keep, Reverse(s)) == Reverse(Filter(keep, s))
  {
    if s != [] {
      FilterReverse(keep, s[1..]);
      FilterHead(keep, s);
      FilterAppend(keep, Reverse(s[1..]), [s[0]]);
    }
  }

  lemma {:induction false} ReverseConcat<T>(s: seq<T>, t: seq<T>)
    ensures Reverse(s + t) == Reverse(t) + Reverse(s)
  {
    if s == [] {
      assert s + t == t;
    } else {
      assert (s + t)[1..] == s[1..] + t;
      ReverseConcat(s[1..], t);
    }
  }

  lemma {:induction false} ReverseTwice<T>(s: seq<T>)
    ensures Reverse(Reverse(s)) == s
  {
    if s != [] {
      ReverseTwice(s[1..]);
      ReverseConcat(Reverse(s[1..]), [s[0]]);
    }
  }

  /** Where every event to be redone is idle, the idle events hold all that repeat. */
  lemma {:induction false} RepeatsAreIdle(s: seq<Event>)
    requires RedoIsIdle(s)
    ensures Filter(Repeats, Filter(Idle, s)) == Filter(Repeats, s)
  {
    if s != [] {
      assert s[0] in s && forall e | e in s[1..] :: e in s;
      RepeatsAreIdle(s[1..]);
      FilterHead(Idle, s);
      FilterHead(Repeats, s);
      FilterAppend(Repeats, if s[0].idle then [s[0]] else [], Filter(Idle, s[1..]));
    }
  }

  /** What repeats among events that ran in the opposite order is collected in the order of arrival again. */
  lemma RepeatersInOrder(queue: seq<Event>)
    requires RedoIsIdle(queue)
    ensures Reverse(Filter(Repeats, Reverse(Filter(Idle, queue)))) == Filter(Repeats, queue)
  {
    hide *;
    FilterReverse(Repeats, Filter(Idle, queue));
    ReverseTwice(Filter(Repeats, Filter(Idle, queue)));
    RepeatsAreIdle(queue);
  }

  lemma RoundOfList(q: Queues, batch: seq<Event>)
    requires q.postponed == [] && RedoIsIdle(q.collected)
    ensures AfterRound(q, batch) ==
            Queues(Filter(Repeats, q.collected) + Reverse(batch), [], q.handled + (Filter(Prompt, q.collected) + Reverse(Filter(Idle, q.collected))))
  {
    hide *;
    RepeatersInOrder(q.collected);
    AppendNothing(Reverse(Filter(Idle, q.collected)));
    AppendTwice(q.handled, Filter(Prompt, q.collected), Reverse(Filter(Idle, q.collected)));
    RoundIs(q, batch, Filter(Prompt, q.collected), Reverse(Filter(Idle, q.collected)));
  }

  /** A round, with the events that it runs at hand. */
  lemma RoundIs(q: Queues, batch: seq<Event>, prompt: seq<Event>, runs: seq<Event>)
    requires prompt == Filter(Prompt, q.collected) && runs == Reverse(Filter(Idle, q.collected)) + q.postponed
    ensures AfterRound(q, batch) == Queues(Reverse(Filter(Repeats, runs)) + Reverse(batch), [], (q.handled + prompt) + runs)
  {
    hide Filter, Reverse;
  }

  lemma BacklogIsOrdinary(queue: seq<Event>, batch: seq<Event>)
    requires RedoIsIdle(queue) && RedoIsIdle(batch)
    ensures RedoIsIdle(Filter(Repeats, queue) + Reverse(batch))
  {
  }

  /**
   The two queues, both last in first out and filled by each other, are one list in the order
   of arrival: each round runs its prompt events in order and its idle events in the opposite
   order, and keeps those that repeat in front of the new arrivals.
   */
  lemma {:induction false} RoundsAreList(q: Queues, batches: seq<seq<Event>>)
    requires q.postponed == [] && RedoIsIdle(q.collected) && forall b | b in batches :: RedoIsIdle(b)
    ensures AfterRounds(q, batches) == Queues(Backlog(q.collected, batches), [], q.handled + Log(q.collected, batches))
    ensures RedoIsIdle(Backlog(q.collected, batches))
    decreases |batches|
  {
    if batches != [] {
      var n := |batches| - 1;
      assert batches[n] in batches && forall b | b in batches[..n] :: b in batches;
      var r, log := AfterRounds(q, batches[..n]), Log(q.collected, batches[..n]);
      BacklogGrows(q.collected, batches);
      RoundsAppend(q, batches);
      hide *;
      RoundsAreList(q, batches[..n]);
      RoundOfList(r, batches[n]);
      BacklogIsOrdinary(r.collected, batches[n]);
      AppendTwice(q.handled, log, Filter(Prompt, r.collected) + Reverse(Filter(Idle, r.collected)));
    }
  }

  lemma BacklogGrows(queue: seq<Event>, batches: seq<seq<Event>>)
    requires batches != []
    ensures var n := |batches| - 1;
            var backlog := Backlog(queue, batches[..n]);
            && Backlog(queue, batches) == Filter(Repeats, backlog) + Reverse(batches[n])
            && Log(queue, batches) == Log(queue, batches[..n]) + (Filter(Prompt, backlog) + Reverse(Filter(Idle, backlog)))
  {
    hide Filter, Reverse;
  }

  // ---------- when the first loop ends ----------

  function AfterTurns(q: Queues, n: nat): Queues
    decreases n
  {
    if n == 0 then q else AfterTurns(AfterTurn(q), n - 1)
  }

  lemma {:induction false} StaysCollected(q: Queues, e: Event, n: nat)
    requires e in q.collected && e.redo && !e.idle
    ensures e in AfterTurns(q, n).collected
    decreases n
  {
    if n > 0 {
      assert e == q.collected[0] || e in q.collected[1..];
      StaysCollected(AfterTurn(q), e, n - 1);
    }
  }

  lemma TurnShortens(q: Queues)
    requires RedoIsIdle(q.collected) && q.collected != []
    ensures AfterTurn(q).collected == q.collected[1..] && RedoIsIdle(q.collected[1..])
  {
    assert q.collected[0] in q.collected;
  }

  lemma {:induction false} DrainedAfter(q: Queues)
    requires RedoIsIdle(q.collected)
    ensures AfterTurns(q, |q.collected|).collected == []
    decreases |q.collected|
  {
    hide AfterTurn, RedoIsIdle;
    if q.collected != [] {
      TurnShortens(q);
      DrainedAfter(AfterTurn(q));
    }
  }

  /** The loop over the collected events ends exactly when no prompt event among them is to be redone. */
  lemma FirstLoopEnds(q: Queues)
    ensures (exists n: nat :: AfterTurns(q, n).collected == []) <==> RedoIsIdle(q.collected)
  {
    if RedoIsIdle(q.collected) {
      DrainedAfter(q);
    } else {
      var e :| e in q.collected && e.redo && !e.idle;
      forall n: nat ensures AfterTurns(q, n).collected != [] {
        StaysCollected(q, e, n);
      }
    }
  }
}
