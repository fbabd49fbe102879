/**
 The bound of 2^16 removals is sharp: one removal more and a pop corrupts the list.

 Thread 0 loads the head of the list A, B and reads A's link. Thread 1 then pops both
 nodes, keeps B, and pushes and pops A until the version has gone round once. The head
 word is the one that thread 0 loaded, so its compare-and-swap wins and installs B.
 */
module VersionWrap {
  import opened Packing
  import opened AtomicList
  import opened Linearizability

  const A: Ptr := 4096
  const B: Ptr := 8192

  /** The steps lead from s to s'. */
  ghost predicate Path(s: State, steps: seq<Step>, s': State)
    decreases |steps|
  {
    if steps == [] then s' == s
    else Enabled(s, steps[0]) && Path(Next(s, steps[0]), steps[1..], s')
  }

  lemma {:induction false} PathJoin(s: State, first: seq<Step>, m: State, second: seq<Step>, s': State)
    requires Path(s, first, m) && Path(m, second, s')
    ensures Path(s, first + second, s')
    decreases |first|
  {
    hide Next, Enabled;
    if first == [] {
      assert first + second == second;
    } else {
      assert (first + second)[1..] == first[1..] + second;
      PathJoin(Next(s, first[0]), first[1..], m, second, s');
    }
  }

  function WriteSteps(t: Tid, node: Ptr): seq<Step> {
    [Invoke(t, Push(node)), PushLoad(t), PushWrite(t)]
  }

  function InstallSteps(t: Tid): seq<Step> {
    [PushCas(t), Return(t)]
  }

  function PushSteps(t: Tid, node: Ptr): seq<Step> {
    WriteSteps(t, node) + InstallSteps(t)
  }

  function LoadSteps(t: Tid): seq<Step> {
    [Invoke(t, Pop), PopLoad(t), PopRead(t)]
  }

  function TakeSteps(t: Tid): seq<Step> {
    [PopCas(t), PopClear(t), Return(t)]
  }

  function PopSteps(t: Tid): seq<Step> {
    LoadSteps(t) + TakeSteps(t)
  }

  function AfterPush(s: State, node: Ptr): State {
    s.(head := Pack(node, Version(s.head)), next := s.next[node := Pointer(s.head)],
    list := [node] + s.list, place := s.place[node := Listed])
  }

  function AfterPop(s: State, t: Tid, node: Ptr): State
    requires node in s.next && s.list != []
  {
    s.(head := Pack(s.next[node], Version(s.head) + 1), next := s.next[node := NULL],
    list := s.list[1..], place := s.place[node := Client(t)], removals := s.removals + 1)
  }

  /** A push that has written its link and is about to install its node. */
  function AfterWrite(s: State, t: Tid, node: Ptr): State {
    Goto(s, t, PushReady(node, s.head)).(next := s.next[node := Pointer(s.head)], place := s.place[node := Pushing(t)])
  }

  lemma WritePath(s: State, t: Tid, node: Ptr)
    requires t in s.locals && s.locals[t] == Idle && Owns(s, t, node)
    ensures Path(s, WriteSteps(t, node), AfterWrite(s, t, node))
  {
    hide Pack, Pointer, Version;
    var steps := WriteSteps(t, node);
    var s1 := Next(s, steps[0]);
    var s2 := Next(s1, steps[1]);
    var s3 := Next(s2, steps[2]);
    assert s3 == AfterWrite(s, t, node);
    assert Path(s2, steps[2..], s3);
    assert Path(s1, steps[1..], s3);
  }

  lemma InstallPath(s: State, t: Tid, node: Ptr)
    requires t in s.locals && s.locals[t] == Idle && Owns(s, t, node)
    ensures Path(AfterWrite(s, t, node), InstallSteps(t), AfterPush(s, node))
  {
    hide Pack, Pointer, Version;
    var steps := InstallSteps(t);
    var s0 := AfterWrite(s, t, node);
    var s1 := Next(s0, steps[0]);
    var s2 := Next(s1, steps[1]);
    assert s2.locals == s.locals;
    assert s2 == AfterPush(s, node);
    assert Path(s1, steps[1..], s2);
  }

  /** A push that nobody disturbs. */
  lemma PushPath(s: State, t: Tid, node: Ptr)
    requires t in s.locals && s.locals[t] == Idle && Owns(s, t, node)
    ensures Path(s, PushSteps(t, node), AfterPush(s, node))
  {
    hide Path, Next, Enabled;
    WritePath(s, t, node);
    InstallPath(s, t, node);
    PathJoin(s, WriteSteps(t, node), AfterWrite(s, t, node), InstallSteps(t), AfterPush(s, node));
  }

  function AfterLoad(s: State, t: Tid, node: Ptr): State
    requires node in s.next
  {
    Goto(s, t, PopReady(s.head, s.next[node], s.removals))
  }

  lemma LoadPath(s: State, t: Tid, node: Ptr)
    requires t in s.locals && s.locals[t] == Idle
    requires node in s.next && node != NULL && Pointer(s.head) == node
    ensures Path(s, LoadSteps(t), AfterLoad(s, t, node))
  {
    var steps := LoadSteps(t);
    var s1 := Next(s, steps[0]);
    var s2 := Next(s1, steps[1]);
    var s3 := Next(s2, steps[2]);
    assert s3 == AfterLoad(s, t, node);
    assert Path(s2, steps[2..], s3);
    assert Path(s1, steps[1..], s3);
  }

  lemma TakePath(s: State, t: Tid, node: Ptr)
    requires t in s.locals && s.locals[t] == Idle
    requires node in s.next && s.list != [] && Pointer(s.head) == node
    ensures Path(AfterLoad(s, t, node), TakeSteps(t), AfterPop(s, t, node))
  {
    var steps := TakeSteps(t);
    var s0 := AfterLoad(s, t, node);
    var s1 := Next(s0, steps[0]);
    var s2 := Next(s1, steps[1]);
    var s3 := Next(s2, steps[2]);
    assert s3.locals == s.locals;
    assert s3.place == s.place[node := Client(t)];
    assert s3 == AfterPop(s, t, node);
    assert Path(s2, steps[2..], s3);
    assert Path(s1, steps[1..], s3);
  }

  /** A pop that nobody disturbs. */
  lemma PopPath(s: State, t: Tid, node: Ptr)
    requires t in s.locals && s.locals[t] == Idle && node in s.next && node != NULL
    requires s.list != [] && Pointer(s.head) == node
    ensures Path(s, PopSteps(t), AfterPop(s, t, node))
  {
    hide Path;
    LoadPath(s, t, node);
    TakePath(s, t, node);
    PathJoin(s, LoadSteps(t), AfterLoad(s, t, node), TakeSteps(t), AfterPop(s, t, node));
  }

  /** Thread 0 holds the word it loaded at version 0; thread 1 owns B and has made n removals. */
  function Spin(n: nat): State {
    State(
      Pack(A, n),
      map[A := NULL, B := NULL],
      map[0 := PopReady(Pack(A, 0), B, 0), 1 := Idle],
      [A],
      map[A := Listed, B := Client(1)],
      n)
  }

  /** Packing the pointer again under a version that is n modulo 2^16. */
  lemma Repacked(p: Ptr, v: int, n: int)
    requires Canonical(p) && v % POW_16 == n % POW_16
    ensures Pack(p, v) == Pack(p, n)
  {
    SameWord(p, v, p, n);
  }

  /** Popping A and pushing it back changes the version and nothing else. */
  lemma SpinOnce(n: nat)
    ensures Path(Spin(n), PopSteps(1) + PushSteps(1, A), Spin(n + 1))
  {
    hide Path, Next, Enabled, Pack, Pointer, Version;
    var s := Spin(n);
    Unpack(A, n);
    PopPath(s, 1, A);
    var m := AfterPop(s, 1, A);
    PushPath(m, 1, A);
    Unpack(NULL, Version(s.head) + 1);
    Repacked(A, Version(m.head), n + 1);
    assert AfterPush(m, A) == Spin(n + 1);
    PathJoin(s, PopSteps(1), m, PushSteps(1, A), Spin(n + 1));
  }

  function Spins(n: nat): seq<Step> {
    if n == 0 then [] else Spins(n - 1) + (PopSteps(1) + PushSteps(1, A))
  }

  lemma {:induction false} SpinMany(start: nat, n: nat)
    ensures Path(Spin(start), Spins(n), Spin(start + n))
  {
    hide Next, Enabled;
    if n > 0 {
      SpinMany(start, n - 1);
      SpinOnce(start + n - 1);
      PathJoin(Spin(start), Spins(n - 1), Spin(start + n - 1), PopSteps(1) + PushSteps(1, A), Spin(start + n));
    }
  }

  /** Thread 1 owns both nodes and nothing has happened. */
  function Start(): State {
    State(Pack(NULL, 0), map[A := NULL, B := NULL], map[0 := Idle, 1 := Idle], [],
          map[A := Client(1), B := Client(1)], 0)
  }

  /** The list A, B, with thread 0 inside a pop that has read A's link. */
  function Loaded(): State {
    State(Pack(A, 0), map[A := B, B := NULL], map[0 := PopReady(Pack(A, 0), B, 0), 1 := Idle], [A, B],
          map[A := Listed, B := Listed], 0)
  }

  lemma ReachLoaded()
    ensures Path(Start(), PushSteps(1, B) + PushSteps(1, A) + LoadSteps(0), Loaded())
  {
    hide Path, Next, Enabled, Pack, Pointer, Version;
    var s := Start();
    Unpack(NULL, 0);
    PushPath(s, 1, B);
    var s1 := AfterPush(s, B);
    Repacked(B, Version(s.head), 0);
    Unpack(B, 0);
    PushPath(s1, 1, A);
    var s2 := AfterPush(s1, A);
    Repacked(A, Version(s1.head), 0);
    PathJoin(s, PushSteps(1, B), s1, PushSteps(1, A), s2);
    Unpack(A, 0);
    LoadPath(s2, 0, A);
    assert AfterLoad(s2, 0, A) == Loaded();
    PathJoin(s, PushSteps(1, B) + PushSteps(1, A), s2, LoadSteps(0), Loaded());
  }

  lemma ReachSpin()
    ensures Path(Loaded(), PopSteps(1) + PopSteps(1) + PushSteps(1, A), Spin(2))
  {
    hide Path, Next, Enabled, Pack, Pointer, Version;
    var s := Loaded();
    Unpack(A, 0);
    PopPath(s, 1, A);
    var s1 := AfterPop(s, 1, A);
    Unpack(B, Version(s.head) + 1);
    PopPath(s1, 1, B);
    var s2 := AfterPop(s1, 1, B);
    Unpack(NULL, Version(s1.head) + 1);
    PushPath(s2, 1, A);
    Repacked(A, Version(s2.head), 2);
    assert AfterPush(s2, A) == Spin(2);
    PathJoin(s, PopSteps(1), s1, PopSteps(1), s2);
    PathJoin(s, PopSteps(1) + PopSteps(1), s2, PushSteps(1, A), Spin(2));
  }

  function History(): seq<Step> {
    PushSteps(1, B) + PushSteps(1, A) + LoadSteps(0)
    + (PopSteps(1) + PopSteps(1) + PushSteps(1, A))
    + Spins(POW_16 - 2)
  }

  lemma ReachLastSpin()
    ensures Path(Start(), History(), Spin(POW_16))
  {
    hide Path, Next, Enabled;
    var opening := PushSteps(1, B) + PushSteps(1, A) + LoadSteps(0);
    var drain := PopSteps(1) + PopSteps(1) + PushSteps(1, A);
    ReachLoaded();
    ReachSpin();
    PathJoin(Start(), opening, Loaded(), drain, Spin(2));
    SpinMany(2, POW_16 - 2);
    PathJoin(Start(), opening + drain, Spin(2), Spins(POW_16 - 2), Spin(POW_16));
  }

  lemma StaleSwap(s: State)
    requires s == Spin(POW_16)
    ensures Enabled(s, PopCas(0)) && s.removals - s.locals[0].stamp == POW_16
    ensures s.head == s.locals[0].temp
    ensures Next(s, PopCas(0)) == DoPopCas(s, 0, s.head, B)
  {
    Repacked(A, POW_16, 0);
  }

  /** The clients see an empty list, and the head points to a node that thread 1 owns. */
  ghost predicate Broken(s: State) {
    B in s.place && Pointer(s.head) == B && s.place[B] == Client(1) && s.list == [] && !Inv(s)
  }

  /**
   After exactly 2^16 removals the stale pop wins: the head points to B, which thread 1
   owns, while the list that the clients have been told about is empty.
   */
  lemma StalePopWins(s: State)
    requires s == Spin(POW_16)
    ensures Init(Start()) && Path(Start(), History(), s)
    ensures Enabled(s, PopCas(0)) && s.removals - s.locals[0].stamp == POW_16
    ensures Broken(Next(s, PopCas(0)))
  {
    hide Path, Pack, Pointer, Version;
    ReachLastSpin();
    StaleSwap(s);
    Unpack(B, Version(s.head) + 1);
    Unpack(A, POW_16);
    var s' := Next(s, PopCas(0));
    assert s'.list == [];
    assert s'.place[B] == Client(1);
    assert Pointer(s'.head) == B;
    assert Init(Start());
  }

  // ---------- the window, exactly ----------

  /** No pop wins after more than n removals since its load. */
  ghost predicate Windowed(states: seq<State>, steps: seq<Step>, n: nat)
    requires Run(states, steps)
  {
    forall i | 0 <= i < |steps| && steps[i].PopCas? && states[i].head == states[i].locals[steps[i].t].temp ::
      states[i].removals - states[i].locals[steps[i].t].stamp <= n
  }

  /** The states of a path, with the removals counted. */
  lemma {:induction false} PathStates(s: State, steps: seq<Step>, s': State) returns (states: seq<State>)
    requires Path(s, steps, s')
    ensures |states| == |steps| + 1 && states[0] == s && states[|steps|] == s'
    ensures forall i | 0 <= i < |steps| :: Enabled(states[i], steps[i]) && states[i + 1] == Next(states[i], steps[i])
    ensures forall i | 0 <= i < |states| :: states[i].removals <= s'.removals
    decreases |steps|
  {
    hide Pointer, Pack, Version;
    if steps == [] {
      states := [s];
    } else {
      var next := Next(s, steps[0]);
      assert s.removals <= next.removals;
      hide Next, Enabled;
      var rest := PathStates(next, steps[1..], s');
      states := [s] + rest;
      forall i | 0 <= i < |steps| ensures Enabled(states[i], steps[i]) && states[i + 1] == Next(states[i], steps[i]) {
        if i > 0 {
          assert steps[1..][i - 1] == steps[i] && states[i] == rest[i - 1] && states[i + 1] == rest[i];
        }
      }
    }
  }

  /** A pop that has lost its race changes the program counter only, so only winning pops need a window. */
  lemma {:induction false} WindowedRunInv(states: seq<State>, steps: seq<Step>, n: nat, i: nat)
    requires Run(states, steps) && Windowed(states, steps, n) && n < POW_16 && i < |states|
    ensures Inv(states[i])
  {
    hide Pointer, Pack, Version;
    if i == 0 {
      InitInv(states[0]);
    } else {
      WindowedRunInv(states, steps, n, i - 1);
      var s, step := states[i - 1], steps[i - 1];
      hide Inv;
      if step.PopCas? && s.head != s.locals[step.t].temp {
        LostPopKeepsInv(s, step.t);
      } else {
        StepKeepsInv(s, step);
      }
    }
  }

  lemma LostPopKeepsInv(s: State, t: Tid)
    requires Inv(s) && Enabled(s, PopCas(t)) && s.head != s.locals[t].temp
    ensures Inv(Next(s, PopCas(t)))
  {
    MoveKeepsInv(s, t, PopStart);
  }

  lemma FewRemovals(states: seq<State>, steps: seq<Step>, n: nat)
    requires Run(states, steps) && forall i | 0 <= i < |steps| :: states[i].removals <= n
    ensures Windowed(states, steps, n)
  {
    hide Next;
  }

  /** A run with windows of 2^16 removals that ends in a broken list. */
  lemma BrokenRun() returns (states: seq<State>, steps: seq<Step>)
    ensures Run(states, steps) && Windowed(states, steps, POW_16) && !Inv(states[|steps|])
  {
    hide Path, Next, Enabled, Inv;
    var s := Spin(POW_16);
    StalePopWins(s);
    var front := PathStates(Start(), History(), s);
    var s' := Next(s, PopCas(0));
    states, steps := front + [s'], History() + [PopCas(0)];
    forall i | 0 <= i < |steps| ensures Enabled(states[i], steps[i]) && states[i + 1] == Next(states[i], steps[i]) {
      if i < |History()| {
        assert steps[i] == History()[i] && states[i] == front[i] && states[i + 1] == front[i + 1];
      }
    }
    forall i | 0 <= i < |steps| ensures states[i].removals <= POW_16 {
      assert states[i] == front[i];
    }
    FewRemovals(states, steps, POW_16);
  }

  /** Windows of at most n removals keep every run right if and only if n is below 2^16. */
  lemma WindowIsSharp(n: nat)
    ensures (forall states, steps | Run(states, steps) && Windowed(states, steps, n) :: forall i | 0 <= i < |states| :: Inv(states[i]))
            <==> n < POW_16
  {
    hide Inv;
    if n < POW_16 {
      forall states, steps, i | Run(states, steps) && Windowed(states, steps, n) && 0 <= i < |states| ensures Inv(states[i]) {
        WindowedRunInv(states, steps, n, i);
      }
    } else {
      var states, steps := BrokenRun();
      assert Windowed(states, steps, n);
      assert 0 <= |steps| < |states|;
    }
  }
}
