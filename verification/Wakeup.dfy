/**
 Waking the event thread: thread_event_enqueue against thread_event_dequeue.

 The atomic list runs as its own machine inside this one. Around it stand the mutex, the
 condition variable and the program counters of the two procedures. Any number of
 threads enqueue; one thread, the consumer, waits and takes batches. A timeout is a wake
 step that may come at any moment.
 */
module Wakeup {
  import opened Packing
  import opened AtomicList
  import opened Linearizability

  datatype Phase =
    | Outside
    // thread_event_enqueue and thread_event_wakeup
    | Enqueuing
    | MustWake
    | Holding
    | Signalled
    // thread_event_dequeue
    | WantLock
    | Checking
    | AboutToWait
    | Waiting
    | Woken
    | Leaving
    | Draining

  datatype Owner = Nobody | Held(owner: Tid)

  datatype System = System(queue: State, mutex: Owner, phase: map<Tid, Phase>, consumer: Tid)

  datatype Move =
    | ListStep(step: Step)
    | Begin(t: Tid)
    | Lock(t: Tid)
    | Check(t: Tid)
    | Sleep(t: Tid)
    | Timeout(t: Tid)
    | Signal(t: Tid)
    | Unlock(t: Tid)

  function Mover(move: Move): Tid {
    if move.ListStep? then move.step.t else move.t
  }

  /** The steps of the list that each procedure takes, and the clients' use of their own nodes. */
  predicate ListStepAllowed(phase: Phase, step: Step) {
    match step
    case Invoke(_, op) => (op.Push? && phase == Outside) || (op == PopAll && phase == Draining)
    case ClientWrite(_, _, _) => phase == Outside
    case ClientGive(_, _, _) => phase == Outside
    case _ => true
  }

  predicate CanMove(w: System, move: Move) {
    var t := Mover(move);
    && t in w.phase
    && var phase := w.phase[t];
       match move
       case ListStep(step) => Enabled(w.queue, step) && ListStepAllowed(phase, step)
       case Begin(_) => t == w.consumer && phase == Outside
       case Lock(_) => w.mutex == Nobody && (phase == MustWake || phase == WantLock || phase == Woken)
       case Check(_) => phase == Checking
       case Sleep(_) => phase == AboutToWait
       case Timeout(_) => phase == Waiting
       case Signal(_) => phase == Holding
       case Unlock(_) => phase == Signalled || phase == Leaving
  }

  function Enter(w: System, t: Tid, phase: Phase): System {
    w.(phase := w.phase[t := phase])
  }

  /** Where a thread is after a step of the list: a push onto an empty list has to wake the consumer. */
  function PhaseAfter(phase: Phase, local: Local, step: Step): Phase {
    if step.Invoke? && step.op.Push? then Enqueuing
    else if step.Return? && local.Done? then
      if local.result.Pushed? && local.result.before == NULL then MustWake else Outside
    else phase
  }

  function After(w: System, move: Move): System
    requires CanMove(w, move)
  {
    var t := Mover(move);
    var phase := w.phase[t];
    match move
    case ListStep(step) =>
      Enter(w, t, PhaseAfter(phase, w.queue.locals[t], step)).(queue := Next(w.queue, step))
    case Begin(_) => Enter(w, t, WantLock)
    case Lock(_) => Enter(w, t, if phase == MustWake then Holding else Checking).(mutex := Held(t))
    case Check(_) => Enter(w, t, if Pointer(w.queue.head) == NULL then AboutToWait else Leaving)
    case Sleep(_) => Enter(w, t, Waiting).(mutex := Nobody)
    case Timeout(_) => Enter(w, t, Woken)
    case Signal(_) =>
      var woken := if w.consumer in w.phase && w.phase[w.consumer] == Waiting then Enter(w, w.consumer, Woken) else w;
      Enter(woken, t, Signalled)
    case Unlock(_) => Enter(w, t, if phase == Leaving then Draining else Outside).(mutex := Nobody)
  }

  ghost predicate InitSystem(w: System) {
    && Init(w.queue)
    && w.mutex == Nobody
    && w.phase.Keys == w.queue.locals.Keys
    && w.consumer in w.phase
    && forall t | t in w.phase :: w.phase[t] == Outside
  }

  // ---------- the invariant ----------

  predicate InMutex(phase: Phase) {
    phase == Holding || phase == Signalled || phase == Checking || phase == AboutToWait || phase == Leaving
  }

  predicate ConsumerPhase(phase: Phase) {
    !(phase == Outside || phase == Enqueuing || phase == MustWake || phase == Holding || phase == Signalled)
  }

  /** What a thread may be doing inside the list in each phase. */
  predicate LocalFits(phase: Phase, local: Local) {
    match local
    case Idle => phase != Enqueuing
    case PushStart(_) => phase == Enqueuing
    case PushLoaded(_, _) => phase == Enqueuing
    case PushReady(_, _) => phase == Enqueuing
    case AllStart => phase == Draining
    case AllLoaded(_) => phase == Draining
    case Done(Pushed(_)) => phase == Enqueuing
    case Done(Batch(_, _)) => phase == Draining
    case _ => false
  }

  ghost predicate Tidy(w: System) {
    && w.phase.Keys == w.queue.locals.Keys
    && w.consumer in w.phase
    && (forall t | t in w.phase :: ThreadTidy(w, t, w.phase[t]))
    && (w.mutex.Held? ==> w.mutex.owner in w.phase && InMutex(w.phase[w.mutex.owner]))
  }

  ghost predicate ThreadTidy(w: System, t: Tid, phase: Phase)
    requires w.phase.Keys == w.queue.locals.Keys && t in w.phase
  {
    && LocalFits(phase, w.queue.locals[t])
    && (InMutex(phase) ==> w.mutex == Held(t))
    && (ConsumerPhase(phase) ==> t == w.consumer)
    && (phase == Signalled && w.consumer in w.phase ==> w.phase[w.consumer] != Waiting)
  }

  /** The producer has made the list non-empty and its signal is still to come. */
  ghost predicate OwesSignal(w: System, t: Tid) {
    && t in w.phase && t in w.queue.locals
    && (w.phase[t] == MustWake || w.phase[t] == Holding
        || (w.phase[t] == Enqueuing && w.queue.locals[t] == Done(Pushed(NULL))))
  }

  /** The consumer has found the list empty and is about to wait, or waits. */
  predicate Asleep(w: System) {
    w.consumer in w.phase && (w.phase[w.consumer] == AboutToWait || w.phase[w.consumer] == Waiting)
  }

  ghost predicate NoLostWakeup(w: System) {
    Asleep(w) && w.queue.list != [] ==> exists t :: OwesSignal(w, t)
  }

  ghost predicate SystemInv(w: System) {
    Inv(w.queue) && Tidy(w) && NoLostWakeup(w)
  }

  lemma ListStepIsLocal(s: State, step: Step)
    requires Enabled(s, step)
    ensures var s' := Next(s, step);
            s'.locals == s.locals[step.t := s'.locals[step.t]]
  {
    hide Pointer, Pack, Version;
  }

  lemma OwnTidy(w: System, t: Tid)
    requires Tidy(w) && t in w.phase
    ensures t in w.queue.locals && LocalFits(w.phase[t], w.queue.locals[t])
  {
    assert ThreadTidy(w, t, w.phase[t]);
  }

  /** The phase follows the program counter inside the list. */
  lemma ListStepFits(w: System, step: Step)
    requires Tidy(w) && CanMove(w, ListStep(step))
    ensures var local := Next(w.queue, step).locals[step.t];
            LocalFits(PhaseAfter(w.phase[step.t], w.queue.locals[step.t], step), local)
  {
    hide Pointer, Pack, Version, Tidy;
    assert LocalFits(w.phase[step.t], w.queue.locals[step.t]) by {
      OwnTidy(w, step.t);
    }
  }

  /** A step of the list keeps the phase, or goes from one phase outside the mutex to another. */
  lemma ListStepPhase(w: System, step: Step)
    requires Tidy(w) && CanMove(w, ListStep(step))
    ensures var phase := w.phase[step.t];
            var phase' := PhaseAfter(phase, w.queue.locals[step.t], step);
            phase' == phase || (!InMutex(phase) && !InMutex(phase') && !ConsumerPhase(phase'))
  {
    hide Pointer, Pack, Version;
    assert ThreadTidy(w, step.t, w.phase[step.t]);
  }

  lemma ListStepKeepsTidy(w: System, step: Step)
    requires Tidy(w) && CanMove(w, ListStep(step))
    ensures Tidy(After(w, ListStep(step)))
  {
    var w', t := After(w, ListStep(step)), step.t;
    ListStepIsLocal(w.queue, step);
    ListStepFits(w, step);
    ListStepPhase(w, step);
    hide Next, Enabled, LocalFits, ListStepAllowed, PhaseAfter, Tidy;
    OneThreadMoves(w, t, w');
  }

  /** The mutex stays where it is, or the thread takes it or gives it back. */
  predicate MutexMoves(w: System, t: Tid, w': System, phase: Phase, phase': Phase) {
    || (w'.mutex == w.mutex && (InMutex(phase') <==> InMutex(phase)))
    || (w.mutex == Nobody && w'.mutex == Held(t) && InMutex(phase'))
    || (w.mutex == Held(t) && w'.mutex == Nobody && !InMutex(phase'))
  }

  lemma OtherStaysTidy(w: System, t: Tid, w': System, u: Tid)
    requires w.phase.Keys == w.queue.locals.Keys && w'.phase.Keys == w'.queue.locals.Keys && w.phase.Keys == w'.phase.Keys
    requires t in w.phase && u in w.phase && w.consumer in w.phase && ThreadTidy(w, t, w.phase[t]) && ThreadTidy(w, u, w.phase[u]) && u != t
    requires w'.phase[u] == w.phase[u] && w'.queue.locals[u] == w.queue.locals[u] && w'.consumer == w.consumer
    requires w.consumer != t ==> w'.phase[w.consumer] == w.phase[w.consumer]
    requires MutexMoves(w, t, w', w.phase[t], w'.phase[t])
    requires w'.phase[t] == Waiting ==> w.phase[t] == Waiting || w.mutex == Held(t)
    ensures ThreadTidy(w', u, w'.phase[u])
  {
    assert InMutex(Signalled);
    hide LocalFits, InMutex, ConsumerPhase;
  }

  /** One thread moves, and the mutex with it or not at all. */
  lemma OneThreadMoves(w: System, t: Tid, w': System)
    requires Tidy(w) && t in w.phase && t in w'.phase && t in w'.queue.locals && w.consumer in w'.phase
    requires w'.phase == w.phase[t := w'.phase[t]] && w'.queue.locals == w.queue.locals[t := w'.queue.locals[t]]
    requires w'.consumer == w.consumer && LocalFits(w'.phase[t], w'.queue.locals[t])
    requires MutexMoves(w, t, w', w.phase[t], w'.phase[t])
    requires ConsumerPhase(w'.phase[t]) ==> t == w.consumer
    requires w'.phase[t] == Signalled ==> w'.phase[w.consumer] != Waiting
    requires w'.phase[t] == Waiting ==> w.phase[t] == Waiting || w.mutex == Held(t)
    ensures Tidy(w')
  {
    hide LocalFits, InMutex, ConsumerPhase;
    assert ThreadTidy(w, t, w.phase[t]);
    forall u | u in w'.phase ensures ThreadTidy(w', u, w'.phase[u]) {
      if u != t {
        assert ThreadTidy(w, u, w.phase[u]);
        OtherStaysTidy(w, t, w', u);
      }
    }
  }

  /** Outside the list's procedures a thread may change its phase. */
  lemma PhaseMoveFits(w: System, move: Move)
    requires Tidy(w) && CanMove(w, move) && !move.ListStep?
    ensures After(w, move).phase.Keys == w.phase.Keys
    ensures forall u | u in w.phase :: LocalFits(After(w, move).phase[u], w.queue.locals[u])
  {
    hide Next, Enabled, Pointer;
    var w' := After(w, move);
    forall u | u in w.phase ensures LocalFits(w'.phase[u], w.queue.locals[u]) {
      assert ThreadTidy(w, u, w.phase[u]);
      if w'.phase[u] != w.phase[u] {
        assert w'.phase[u] != Enqueuing && w.phase[u] != Enqueuing && w.phase[u] != Draining;
      }
    }
  }

  lemma PhaseMoveKeepsTidy(w: System, move: Move)
    requires Tidy(w) && CanMove(w, move) && !move.ListStep? && !move.Signal?
    ensures Tidy(After(w, move))
  {
    hide Next, Enabled, Pointer;
    PhaseMoveFits(w, move);
    assert ThreadTidy(w, move.t, w.phase[move.t]);
    PhaseMoveMoves(w, move);
    hide LocalFits, Tidy, After, CanMove;
    OneThreadMoves(w, move.t, After(w, move));
  }

  /** The mover alone changes its phase. */
  lemma PhaseMoveMoves(w: System, move: Move)
    requires CanMove(w, move) && !move.ListStep? && !move.Signal? && w.consumer in w.phase && ThreadTidyIn(w, move.t)
    ensures var w', t := After(w, move), move.t;
            && t in w.phase && t in w'.phase && w.consumer in w'.phase && w'.phase == w.phase[t := w'.phase[t]]
            && w'.queue == w.queue && w'.consumer == w.consumer && MutexMoves(w, t, w', w.phase[t], w'.phase[t])
            && (ConsumerPhase(w'.phase[t]) ==> t == w.consumer)
            && w'.phase[t] != Signalled && (w'.phase[t] == Waiting ==> w.mutex == Held(t))
  {
    hide Next, Enabled, Pointer, LocalFits;
  }

  ghost predicate ThreadTidyIn(w: System, t: Tid) {
    w.phase.Keys == w.queue.locals.Keys && t in w.phase && ThreadTidy(w, t, w.phase[t])
  }

  lemma WokenIsTidy(w: System)
    requires Tidy(w) && w.phase[w.consumer] == Waiting
    ensures Tidy(Enter(w, w.consumer, Woken))
  {
    var woken := Enter(w, w.consumer, Woken);
    OwnTidy(w, w.consumer);
    assert ThreadTidy(w, w.consumer, Waiting);
    assert LocalFits(Woken, w.queue.locals[w.consumer]);
    hide LocalFits, Tidy;
    OneThreadMoves(w, w.consumer, woken);
  }

  lemma SignalledIsTidy(w: System, t: Tid)
    requires Tidy(w) && t in w.phase && w.phase[t] == Holding && w.phase[w.consumer] != Waiting
    ensures Tidy(Enter(w, t, Signalled))
  {
    OwnTidy(w, t);
    assert ThreadTidy(w, t, Holding) && LocalFits(Signalled, w.queue.locals[t]);
    assert t != w.consumer ==> Enter(w, t, Signalled).phase[w.consumer] == w.phase[w.consumer];
    hide LocalFits, Tidy;
    OneThreadMoves(w, t, Enter(w, t, Signalled));
  }

  /** A signal moves the waiting consumer first and then its own thread. */
  lemma SignalKeepsTidy(w: System, t: Tid)
    requires Tidy(w) && CanMove(w, Signal(t))
    ensures Tidy(After(w, Signal(t)))
  {
    hide Next, Enabled, Pointer, LocalFits, ThreadTidy;
    if w.phase[w.consumer] == Waiting {
      WokenIsTidy(w);
      SignalledIsTidy(Enter(w, w.consumer, Woken), t);
    } else {
      SignalledIsTidy(w, t);
    }
  }

  lemma MoveKeepsTidy(w: System, move: Move)
    requires Tidy(w) && CanMove(w, move)
    ensures Tidy(After(w, move))
  {
    hide *;
    match move {
      case ListStep(step) => ListStepKeepsTidy(w, step);
      case Signal(t) => SignalKeepsTidy(w, t);
      case _ => PhaseMoveKeepsTidy(w, move);
    }
  }

  lemma NeverPops(w: System, step: Step)
    requires Tidy(w) && CanMove(w, ListStep(step))
    ensures Timely(w.queue, step)
  {
    assert ThreadTidy(w, step.t, w.phase[step.t]);
  }

  /** The list becomes non-empty only by a push whose caller learns that it was empty. */
  lemma FirstPushOwes(w: System, step: Step)
    requires Inv(w.queue) && Tidy(w) && CanMove(w, ListStep(step))
    requires w.queue.list == [] && Next(w.queue, step).list != []
    ensures OwesSignal(After(w, ListStep(step)), step.t)
  {
    assert ThreadTidy(w, step.t, w.phase[step.t]);
  }

  lemma DebtKept(w: System, move: Move, u: Tid)
    requires Tidy(w) && CanMove(w, move) && Asleep(After(w, move))
    requires OwesSignal(w, u)
    ensures OwesSignal(After(w, move), u)
  {
    var t := Mover(move);
    assert ThreadTidy(w, t, w.phase[t]);
    assert ThreadTidy(w, w.consumer, w.phase[w.consumer]);
    if move.ListStep? {
      ListStepIsLocal(w.queue, move.step);
    }
  }

  /** The consumer decides to wait only after seeing the list empty. */
  lemma FallsAsleepEmpty(w: System, move: Move)
    requires Inv(w.queue) && Tidy(w) && CanMove(w, move) && Asleep(After(w, move)) && !Asleep(w)
    ensures After(w, move).queue.list == []
  {
    hide Next, Enabled, Pointer, Inv;
    assert ThreadTidy(w, Mover(move), w.phase[Mover(move)]);
    EmptyHead(w.queue);
  }

  lemma MoveKeepsInv(w: System, move: Move)
    requires SystemInv(w) && CanMove(w, move)
    ensures SystemInv(After(w, move))
  {
    hide Next, Enabled, Pointer, Inv, Tidy;
    var w' := After(w, move);
    MoveKeepsTidy(w, move);
    if move.ListStep? {
      NeverPops(w, move.step);
      StepKeepsInv(w.queue, move.step);
    }
    if Asleep(w') && w'.queue.list != [] {
      if !Asleep(w) {
        FallsAsleepEmpty(w, move);
      }
      if w.queue.list == [] {
        FirstPushOwes(w, move.step);
      } else {
        var u :| OwesSignal(w, u);
        DebtKept(w, move, u);
      }
    }
  }

  // ---------- whole runs ----------

  ghost predicate SystemRun(systems: seq<System>, moves: seq<Move>) {
    && |systems| == |moves| + 1
    && InitSystem(systems[0])
    && forall i | 0 <= i < |moves| :: CanMove(systems[i], moves[i]) && systems[i + 1] == After(systems[i], moves[i])
  }

  lemma {:induction false} SystemRunInv(systems: seq<System>, moves: seq<Move>, i: nat)
    requires SystemRun(systems, moves) && i < |systems|
    ensures SystemInv(systems[i])
  {
    hide After, CanMove;
    if i == 0 {
      InitInv(systems[0].queue);
    } else {
      SystemRunInv(systems, moves, i - 1);
      MoveKeepsInv(systems[i - 1], moves[i - 1]);
    }
  }

  /** No wakeup is lost, in any state that any interleaving reaches. */
  lemma NeverLosesWakeup(systems: seq<System>, moves: seq<Move>, i: nat)
    requires SystemRun(systems, moves) && i < |systems|
    requires Asleep(systems[i]) && Pointer(systems[i].queue.head) != NULL
    ensures exists t :: OwesSignal(systems[i], t)
  {
    SystemRunInv(systems, moves, i);
    EmptyHead(systems[i].queue);
  }

  ghost predicate MovesTo(w: System, moves: seq<Move>, w': System)
    decreases |moves|
  {
    if moves == [] then w' == w
    else CanMove(w, moves[0]) && MovesTo(After(w, moves[0]), moves[1..], w')
  }

  /** A thread that holds the mutex while the consumer waits is about to signal. */
  lemma HolderSignals(w: System)
    requires Tidy(w) && w.phase[w.consumer] == Waiting && w.mutex.Held?
    ensures w.phase[w.mutex.owner] == Holding
  {
    hide LocalFits;
    var t := w.mutex.owner;
    assert ThreadTidy(w, t, w.phase[t]);
    assert ThreadTidy(w, w.consumer, w.phase[w.consumer]);
  }

  predicate Awoken(w: System, consumer: Tid) {
    consumer in w.phase && w.phase[consumer] == Woken
  }

  lemma SignalWakes(w: System, t: Tid)
    requires Tidy(w) && w.phase[w.consumer] == Waiting && t in w.phase && w.phase[t] == Holding
    ensures MovesTo(w, [Signal(t)], After(w, Signal(t)))
    ensures Awoken(After(w, Signal(t)), w.consumer)
  {
    assert MovesTo(After(w, Signal(t)), [], After(w, Signal(t)));
  }

  lemma LockThenSignalWakes(w: System, t: Tid) returns (w': System)
    requires Tidy(w) && w.phase[w.consumer] == Waiting && t in w.phase
    requires w.mutex == Nobody && w.phase[t] == MustWake
    ensures MovesTo(w, [Lock(t), Signal(t)], w') && Awoken(w', w.consumer)
  {
    var m := After(w, Lock(t));
    MoveKeepsTidy(w, Lock(t));
    SignalWakes(m, t);
    w' := After(m, Signal(t));
  }

  lemma ReturnThenLockThenSignalWakes(w: System, t: Tid) returns (w': System)
    requires Tidy(w) && w.phase[w.consumer] == Waiting && t in w.phase && w.mutex == Nobody
    requires w.phase[t] == Enqueuing && w.queue.locals[t] == Done(Pushed(NULL))
    ensures MovesTo(w, [ListStep(Return(t)), Lock(t), Signal(t)], w') && Awoken(w', w.consumer)
  {
    var back := ListStep(Return(t));
    MoveKeepsTidy(w, back);
    w' := LockThenSignalWakes(After(w, back), t);
    assert [back, Lock(t), Signal(t)][1..] == [Lock(t), Signal(t)];
  }

  /**
   The debt is paid soon and without help from a timeout: at most three steps of producers
   separate a waiting consumer with a non-empty list from its wakeup.
   */
  lemma WakeupIsNear(w: System) returns (moves: seq<Move>, w': System)
    requires SystemInv(w) && w.phase[w.consumer] == Waiting && w.queue.list != []
    ensures MovesTo(w, moves, w') && Awoken(w', w.consumer)
    ensures |moves| <= 3 && forall m | m in moves :: Mover(m) != w.consumer
  {
    hide MovesTo, After, CanMove, Inv, LocalFits;
    var t :| OwesSignal(w, t);
    assert ThreadTidy(w, t, w.phase[t]);
    assert ThreadTidy(w, w.consumer, w.phase[w.consumer]);
    if w.mutex.Held? {
      HolderSignals(w);
      SignalWakes(w, w.mutex.owner);
      moves, w' := [Signal(w.mutex.owner)], After(w, Signal(w.mutex.owner));
    } else if w.phase[t] == MustWake {
      w' := LockThenSignalWakes(w, t);
      moves := [Lock(t), Signal(t)];
    } else {
      w' := ReturnThenLockThenSignalWakes(w, t);
      moves := [ListStep(Return(t)), Lock(t), Signal(t)];
    }
  }

  // ---------- what the consumer takes ----------

  /** The consumer that has left the wait loop finds events in the list, until it holds them. */
  ghost predicate HasWork(w: System) {
    w.consumer in w.phase && w.consumer in w.queue.locals ==>
      var local := w.queue.locals[w.consumer];
      && (w.phase[w.consumer] == Leaving ==> w.queue.list != [])
      && (w.phase[w.consumer] == Draining ==> if TookBatch(local) then local.result.first != NULL else w.queue.list != [])
  }

  predicate TookBatch(local: Local) {
    local.Done? && local.result.Batch?
  }

  /** Producers only add to the list. */
  lemma ProducerAdds(w: System, step: Step)
    requires Inv(w.queue) && Tidy(w) && CanMove(w, ListStep(step)) && step.t != w.consumer && w.queue.list != []
    ensures Next(w.queue, step).list != []
  {
    assert ThreadTidy(w, step.t, w.phase[step.t]);
  }

  lemma DrainingSteps(w: System, step: Step)
    requires Tidy(w) && CanMove(w, ListStep(step)) && step.t == w.consumer
    requires w.phase[step.t] == Draining && !TookBatch(w.queue.locals[step.t])
    ensures (step.Invoke? && step.op == PopAll) || step.AllLoad? || step.AllCas?
  {
    assert ThreadTidy(w, step.t, w.phase[step.t]);
  }

  /** A consumer that drains takes the whole list, and not before it has loaded its head. */
  lemma ConsumerTakes(s: State, step: Step)
    requires Enabled(s, step) && Pointer(s.head) != NULL && s.list != []
    requires (step.Invoke? && step.op == PopAll) || step.AllLoad? || step.AllCas?
    ensures var s' := Next(s, step);
            if TookBatch(s'.locals[step.t]) then s'.locals[step.t].result.first != NULL else s'.list != []
  {
    hide Pointer, Pack, Version;
  }

  lemma ListStepKeepsWork(w: System, step: Step)
    requires SystemInv(w) && HasWork(w) && CanMove(w, ListStep(step))
    ensures HasWork(After(w, ListStep(step)))
  {
    assert ThreadTidy(w, step.t, w.phase[step.t]);
    assert ThreadTidy(w, w.consumer, w.phase[w.consumer]);
    ListStepIsLocal(w.queue, step);
    var draining := w.phase[w.consumer] == Draining && !TookBatch(w.queue.locals[w.consumer]);
    if step.t == w.consumer {
      ConsumerLeft(w, step);
      if draining {
        EmptyHead(w.queue);
        DrainingSteps(w, step);
        ConsumerTakes(w.queue, step);
      }
    } else if w.queue.list != [] {
      ProducerAdds(w, step);
    }
    hide Inv, Tidy, Next, Enabled, NoLostWakeup, ListStepAllowed, Pointer;
  }

  /** In the other phases, and after its batch is taken, the consumer's list steps lead outside the loop. */
  lemma ConsumerLeft(w: System, step: Step)
    requires Tidy(w) && CanMove(w, ListStep(step)) && step.t == w.consumer
    ensures w.phase[step.t] != Draining ==> After(w, ListStep(step)).phase[step.t] != Draining
    ensures w.phase[step.t] == Leaving ==> Next(w.queue, step).list == w.queue.list
    ensures w.phase[step.t] != Leaving ==> After(w, ListStep(step)).phase[step.t] != Leaving
    ensures w.phase[step.t] == Draining && TookBatch(w.queue.locals[step.t]) ==> After(w, ListStep(step)).phase[step.t] == Outside
  {
    assert ThreadTidy(w, step.t, w.phase[step.t]);
    hide Pack, Version, Pointer;
  }

  lemma MoveKeepsWork(w: System, move: Move)
    requires SystemInv(w) && HasWork(w) && CanMove(w, move)
    ensures HasWork(After(w, move))
  {
    if move.ListStep? {
      ListStepKeepsWork(w, move.step);
    } else {
      assert ThreadTidy(w, Mover(move), w.phase[Mover(move)]);
      EmptyHead(w.queue);
      hide Inv, Tidy, Next, Enabled, NoLostWakeup, Pointer;
    }
  }

  lemma {:induction false} RunKeepsWork(systems: seq<System>, moves: seq<Move>, i: nat)
    requires SystemRun(systems, moves) && i < |systems|
    ensures HasWork(systems[i])
  {
    hide After, CanMove, HasWork, SystemInv;
    if i > 0 {
      RunKeepsWork(systems, moves, i - 1);
      SystemRunInv(systems, moves, i - 1);
      MoveKeepsWork(systems[i - 1], moves[i - 1]);
    } else {
      NoWorkYet(systems[0]);
    }
  }

  lemma NoWorkYet(w: System)
    requires InitSystem(w)
    ensures HasWork(w)
  {
  }

  /**
   In any state that any interleaving reaches, timeouts included: once the consumer has left the
   wait loop the list is not empty, and the batch it then takes is not empty either.
   */
  lemma TakesSomething(systems: seq<System>, moves: seq<Move>, i: nat)
    requires SystemRun(systems, moves) && i < |systems|
    ensures var w := systems[i];
            && w.consumer in w.phase && w.consumer in w.queue.locals
            && (w.phase[w.consumer] == Leaving ==> Pointer(w.queue.head) != NULL)
            && (TookBatch(w.queue.locals[w.consumer]) ==>
                  w.queue.locals[w.consumer].result.first != NULL && w.queue.locals[w.consumer].result.nodes != [])
  {
    hide *;
    SystemRunInv(systems, moves, i);
    RunKeepsWork(systems, moves, i);
    WorkMeans(systems[i]);
  }

  lemma WorkMeans(w: System)
    requires SystemInv(w) && HasWork(w)
    ensures w.consumer in w.phase && w.consumer in w.queue.locals
    ensures w.phase[w.consumer] == Leaving ==> Pointer(w.queue.head) != NULL
    ensures TookBatch(w.queue.locals[w.consumer]) ==>
              w.queue.locals[w.consumer].result.first != NULL && w.queue.locals[w.consumer].result.nodes != []
  {
    EmptyHead(w.queue);
    assert ThreadTidy(w, w.consumer, w.phase[w.consumer]);
    if TookBatch(w.queue.locals[w.consumer]) {
      BatchFirst(w.queue, w.consumer);
    }
    hide Inv, Pointer, NoLostWakeup;
  }

  lemma BatchFirst(s: State, t: Tid)
    requires Inv(s) && t in s.locals && TookBatch(s.locals[t])
    ensures s.locals[t].result.first == At(s.locals[t].result.nodes, 0)
  {
    assert LocalOk(s, t, s.locals[t]);
  }

  /** thread_event_dequeue returns only with a batch, and the batch is not empty. */
  lemma ReturnsWithBatch(systems: seq<System>, moves: seq<Move>, i: nat)
    requires SystemRun(systems, moves) && i < |moves|
    requires var c := systems[i].consumer;
             && c in systems[i].phase && ConsumerPhase(systems[i].phase[c])
             && c in systems[i + 1].phase && !ConsumerPhase(systems[i + 1].phase[c])
    ensures var w, c := systems[i], systems[i].consumer;
            && moves[i] == ListStep(Return(c)) && systems[i + 1].phase[c] == Outside
            && c in w.queue.locals && TookBatch(w.queue.locals[c]) && w.queue.locals[c].result.nodes != []
  {
    var w, c := systems[i], systems[i].consumer;
    SystemRunInv(systems, moves, i);
    TakesSomething(systems, moves, i);
    LeavesDequeue(w, moves[i]);
    hide After, CanMove, SystemInv;
  }

  lemma LeavesDequeue(w: System, move: Move)
    requires Tidy(w) && CanMove(w, move) && ConsumerPhase(w.phase[w.consumer])
    requires var w' := After(w, move); w.consumer in w'.phase && !ConsumerPhase(w'.phase[w.consumer])
    ensures move == ListStep(Return(w.consumer)) && After(w, move).phase[w.consumer] == Outside
    ensures w.consumer in w.queue.locals && TookBatch(w.queue.locals[w.consumer])
  {
    OwnTidy(w, w.consumer);
    OwnTidy(w, Mover(move));
    assert ThreadTidy(w, Mover(move), w.phase[Mover(move)]);
    hide Tidy, Next, Pointer;
  }

  /** Nobody keeps the mutex: at most two steps of its holder give it back. */
  lemma MutexIsReleased(w: System) returns (moves: seq<Move>, w': System)
    requires SystemInv(w) && w.mutex.Held?
    ensures MovesTo(w, moves, w') && w'.mutex == Nobody
    ensures |moves| <= 2 && forall m | m in moves :: Mover(m) == w.mutex.owner
  {
    var t := w.mutex.owner;
    assert ThreadTidy(w, t, w.phase[t]);
    hide Inv, Pointer, NoLostWakeup, LocalFits;
    var phase := w.phase[t];
    var first := if phase == Holding then Signal(t) else if phase == Checking then Check(t) else if phase == AboutToWait then Sleep(t) else Unlock(t);
    var m := After(w, first);
    assert MovesTo(m, [], m);
    if phase == Holding || phase == Checking {
      var second := if m.phase[t] == AboutToWait then Sleep(t) else Unlock(t);
      w' := After(m, second);
      moves := [first, second];
      assert MovesTo(w', [], w') && MovesTo(m, [second], w');
      assert moves[1..] == [second];
    } else {
      w' := m;
      moves := [first];
    }
  }

  /** The first two steps of popall: the head is loaded, and nothing else has changed. */
  lemma LoadsAll(w: System, rest: seq<Move>, w': System) returns (m: System)
    requires w.consumer in w.phase && w.phase[w.consumer] == Draining
    requires w.consumer in w.queue.locals && w.queue.locals[w.consumer] == Idle && Pointer(w.queue.head) != NULL
    ensures m == w.(queue := w.queue.(locals := w.queue.locals[w.consumer := AllLoaded(w.queue.head)]))
    ensures var c := w.consumer;
            MovesTo(m, rest, w') ==> MovesTo(w, [ListStep(Invoke(c, PopAll)), ListStep(AllLoad(c))] + rest, w')
  {
    hide Pointer, Pack, Version, MovesTo;
    var c := w.consumer;
    var a, b := ListStep(Invoke(c, PopAll)), ListStep(AllLoad(c));
    var w1 := After(w, a);
    m := After(w1, b);
    assert w1.phase == w.phase && m.phase == w.phase;
    if MovesTo(m, rest, w') {
      TwoMore(w, a, b, rest, w');
    }
  }

  lemma TwoMore(w: System, a: Move, b: Move, rest: seq<Move>, w': System)
    requires CanMove(w, a) && CanMove(After(w, a), b) && MovesTo(After(After(w, a), b), rest, w')
    ensures MovesTo(w, [a, b] + rest, w')
  {
    hide After, CanMove;
    assert ([a, b] + rest)[1..] == [b] + rest && ([b] + rest)[1..] == rest;
  }

  /** The last two: the list is taken and handed over. */
  lemma TakesAll(w: System) returns (w': System)
    requires w.consumer in w.phase && w.phase[w.consumer] == Draining
    requires w.consumer in w.queue.locals && w.queue.locals[w.consumer] == AllLoaded(w.queue.head)
    requires forall n | n in w.queue.list :: n in w.queue.place
    ensures var c := w.consumer;
            && MovesTo(w, [ListStep(AllCas(c)), ListStep(Return(c))], w')
            && w'.queue.list == [] && c in w'.phase && w'.phase[c] == Outside
            && forall n | n in w.queue.list :: n in w'.queue.place && w'.queue.place[n] == Client(c)
  {
    hide Pointer, Pack, Version;
    var c := w.consumer;
    var m := After(w, ListStep(AllCas(c)));
    w' := After(m, ListStep(Return(c)));
    assert MovesTo(w', [], w');
    assert MovesTo(m, [ListStep(Return(c))], w');
    assert [ListStep(AllCas(c)), ListStep(Return(c))][1..] == [ListStep(Return(c))];
  }

  /** A consumer that drains, left alone, takes the whole list in four steps and is done. */
  lemma DrainIsNear(w: System) returns (moves: seq<Move>, w': System)
    requires Inv(w.queue) && w.consumer in w.phase && w.phase[w.consumer] == Draining
    requires w.consumer in w.queue.locals && w.queue.locals[w.consumer] == Idle && w.queue.list != []
    ensures MovesTo(w, moves, w') && |moves| == 4 && forall m | m in moves :: Mover(m) == w.consumer
    ensures w'.queue.list == [] && w.consumer in w'.phase && w'.phase[w.consumer] == Outside
    ensures forall n | n in w.queue.list :: n in w'.queue.place && w'.queue.place[n] == Client(w.consumer)
  {
    var c := w.consumer;
    EmptyHead(w.queue);
    ListIsPlaced(w.queue);
    hide Inv, Pointer, MovesTo, After, CanMove;
    var loaded := w.(queue := w.queue.(locals := w.queue.locals[c := AllLoaded(w.queue.head)]));
    w' := TakesAll(loaded);
    var rest := [ListStep(AllCas(c)), ListStep(Return(c))];
    var _ := LoadsAll(w, rest, w');
    moves := [ListStep(Invoke(c, PopAll)), ListStep(AllLoad(c))] + rest;
  }

  lemma ListIsPlaced(s: State)
    requires Inv(s)
    ensures forall n | n in s.list :: n in s.place
  {
  }

  // ---------- one signal for each push onto the empty list ----------

  ghost function Owing(w: System): set<Tid> {
    set t | t in w.phase && OwesSignal(w, t)
  }

  /** The move makes the empty list non-empty. */
  ghost predicate Rises(w: System, w': System) {
    w.queue.list == [] && w'.queue.list != []
  }

  /** A step of the list leaves its thread's debt alone, unless it is the push that fills the empty list. */
  lemma ListStepOwes(w: System, step: Step)
    requires Inv(w.queue) && Tidy(w) && CanMove(w, ListStep(step))
    ensures var w' := After(w, ListStep(step));
            OwesSignal(w', step.t) <==> OwesSignal(w, step.t) || Rises(w, w')
    ensures OwesSignal(w, step.t) ==> !Rises(w, After(w, ListStep(step)))
  {
    OwnTidy(w, step.t);
    EmptyHead(w.queue);
    hide Inv, Tidy, Pointer, Pack, Version;
  }

  lemma OthersOwe(w: System, step: Step, u: Tid)
    requires Tidy(w) && CanMove(w, ListStep(step)) && u != step.t
    ensures OwesSignal(After(w, ListStep(step)), u) <==> OwesSignal(w, u)
  {
    ListStepIsLocal(w.queue, step);
    hide Next, Enabled, Tidy;
  }

  /** A move outside the list leaves every debt alone, except that a signal pays its own. */
  lemma PhaseMoveOwes(w: System, move: Move, u: Tid)
    requires Tidy(w) && CanMove(w, move) && !move.ListStep?
    ensures OwesSignal(After(w, move), u) <==> OwesSignal(w, u) && !(move.Signal? && u == move.t)
    ensures move.Signal? ==> OwesSignal(w, move.t)
    ensures !Rises(w, After(w, move))
  {
    assert ThreadTidy(w, move.t, w.phase[move.t]);
    assert ThreadTidy(w, w.consumer, w.phase[w.consumer]);
    hide Next, Enabled, Tidy, Pointer;
  }

  /** At most one thread's debt changes. */
  lemma OneDebt(w: System, w': System, t: Tid)
    requires forall u | u != t :: OwesSignal(w', u) <==> OwesSignal(w, u)
    ensures |Owing(w')| + (if OwesSignal(w, t) then 1 else 0) == |Owing(w)| + (if OwesSignal(w', t) then 1 else 0)
  {
    OwingIs(w);
    OwingIs(w');
    hide Owing, OwesSignal;
    var others := Owing(w) - {t};
    assert Owing(w) == if OwesSignal(w, t) then others + {t} else others;
    assert Owing(w') == if OwesSignal(w', t) then others + {t} else others;
  }

  lemma OwingIs(w: System)
    ensures forall u :: u in Owing(w) <==> OwesSignal(w, u)
  {
  }

  lemma MoveOwes(w: System, move: Move)
    requires SystemInv(w) && CanMove(w, move)
    ensures var w' := After(w, move);
            |Owing(w')| + (if move.Signal? then 1 else 0) == |Owing(w)| + (if Rises(w, w') then 1 else 0)
  {
    hide After, CanMove, OwesSignal, Owing, Inv, Rises, Tidy;
    var w', t := After(w, move), Mover(move);
    forall u | u != t ensures OwesSignal(w', u) <==> OwesSignal(w, u) {
      if move.ListStep? {
        OthersOwe(w, move.step, u);
      } else {
        PhaseMoveOwes(w, move, u);
      }
    }
    OneDebt(w, w', t);
    if move.ListStep? {
      ListStepOwes(w, move.step);
    } else {
      PhaseMoveOwes(w, move, t);
    }
  }

  /** How often the empty list became non-empty. */
  ghost function RiseCount(systems: seq<System>): nat {
    if |systems| < 2 then 0
    else RiseCount(systems[..|systems| - 1]) + if Rises(systems[|systems| - 2], systems[|systems| - 1]) then 1 else 0
  }

  function SignalCount(moves: seq<Move>): nat {
    if moves == [] then 0
    else SignalCount(moves[..|moves| - 1]) + if moves[|moves| - 1].Signal? then 1 else 0
  }

  lemma NobodyOwes(w: System)
    requires InitSystem(w)
    ensures Owing(w) == {}
  {
  }

  /**
   Wakeups are not wasted: in every run, the signals sent and those still owed are as many as
   the pushes that found the list empty.
   */
  lemma {:induction false} SignalsAreCounted(systems: seq<System>, moves: seq<Move>)
    requires SystemRun(systems, moves)
    ensures SignalCount(moves) + |Owing(systems[|moves|])| == RiseCount(systems)
    decreases |moves|
  {
    hide After, CanMove, Owing, InitSystem, SystemInv, Rises;
    if moves == [] {
      NobodyOwes(systems[0]);
    } else {
      var n := |moves| - 1;
      SignalsAreCounted(systems[..n + 1], moves[..n]);
      SystemRunInv(systems, moves, n);
      MoveOwes(systems[n], moves[n]);
    }
  }
}
