/** The limit on batches in flight, checked without a lock by any number of writepages callers. */
module WbThrottle {
  import opened Basics
  import opened Machines

  const MAX_IN_FLIGHT: nat := 128

  /** A caller outside, cleared to send one batch, or about to read the counter again. */
  datatype Caller = Out | Cleared | Rereading

  datatype State = State(callers: seq<Caller>, inFlight: nat)

  /** Send is a batch in the loop, SendLast the batch left over at the end. */
  datatype Action = Enter(c: nat) | Send(c: nat) | Reread(c: nat) | SendLast(c: nat) | Leave(c: nat) | Complete

  function Init(n: nat): State {
    State(seq(n, _ => Out), 0)
  }

  predicate Enabled(s: State, act: Action) {
    match act
    case Enter(c) => c < |s.callers| && s.callers[c] == Out
    case Send(c) => c < |s.callers| && s.callers[c] == Cleared
    case Reread(c) => c < |s.callers| && s.callers[c] == Rereading
    case SendLast(c) => c < |s.callers| && s.callers[c] == Cleared
    case Leave(c) => c < |s.callers| && s.callers[c] == Cleared
    case Complete => s.inFlight > 0
  }

  function Do(s: State, act: Action): State
    requires Enabled(s, act)
  {
    match act
    case Enter(c) => s.(callers := s.callers[c := if s.inFlight >= MAX_IN_FLIGHT then Out else Cleared])
    case Send(c) => State(s.callers[c := Rereading], s.inFlight + 1)
    case Reread(c) => s.(callers := s.callers[c := if s.inFlight >= MAX_IN_FLIGHT then Out else Cleared])
    case SendLast(c) => State(s.callers[c := Out], s.inFlight + 1)
    case Leave(c) => s.(callers := s.callers[c := Out])
    case Complete => s.(inFlight := s.inFlight - 1)
  }

  function Next(): (State, Action) -> Option<State> {
    (s, act) => if Enabled(s, act) then Some(Do(s, act)) else None
  }

  function ClearedCount(callers: seq<Caller>): nat {
    if callers == [] then 0
    else ClearedCount(callers[..|callers| - 1]) + (if callers[|callers| - 1] == Cleared then 1 else 0)
  }

  lemma {:induction false} ClearedUpdate(callers: seq<Caller>, c: nat, x: Caller)
    requires c < |callers|
    ensures ClearedCount(callers[c := x]) ==
      ClearedCount(callers) - (if callers[c] == Cleared then 1 else 0) + (if x == Cleared then 1 else 0)
  {
    var n := |callers| - 1;
    if c < n {
      ClearedUpdate(callers[..n], c, x);
      assert callers[c := x][..n] == callers[..n][c := x];
    } else {
      assert callers[c := x][..n] == callers[..n];
    }
  }

  lemma {:induction false} ClearedBound(callers: seq<Caller>)
    ensures ClearedCount(callers) <= |callers|
  {
    if callers != [] { ClearedBound(callers[..|callers| - 1]); }
  }

  /** Whoever is cleared may still add one batch. */
  ghost predicate Inv(n: nat, s: State) {
    |s.callers| == n && s.inFlight + ClearedCount(s.callers) <= MAX_IN_FLIGHT + n - 1
  }

  lemma StepInv(n: nat, s: State, act: Action)
    requires Inv(n, s) && Enabled(s, act)
    ensures Inv(n, Do(s, act))
  {
    ClearedBound(Do(s, act).callers);
    match act
    case Enter(c) => ClearedUpdate(s.callers, c, if s.inFlight >= MAX_IN_FLIGHT then Out else Cleared);
    case Send(c) => ClearedUpdate(s.callers, c, Rereading);
    case Reread(c) => ClearedUpdate(s.callers, c, if s.inFlight >= MAX_IN_FLIGHT then Out else Cleared);
    case SendLast(c) => ClearedUpdate(s.callers, c, Out);
    case Leave(c) => ClearedUpdate(s.callers, c, Out);
    case Complete =>
  }

  /** With n callers, at most 128 + n - 1 batches are ever in flight. */
  lemma InFlightBound(n: nat, s: State)
    requires n > 0 && Reachable(Next(), Init(n), s)
    ensures s.inFlight <= MAX_IN_FLIGHT + n - 1
  {
    NoneCleared(n);
    var acts :| Runs(Next(), Init(n), acts, s);
    forall u, act | Inv(n, u) && Next()(u, act).Some?
      ensures Inv(n, Next()(u, act).value)
    {
      StepInv(n, u, act);
    }
    InvariantHolds(Next(), u => Inv(n, u), Init(n), acts, s);
  }

  lemma {:induction false} NoneCleared(n: nat)
    ensures ClearedCount(Init(n).callers) == 0
  {
    if n > 0 {
      NoneCleared(n - 1);
      assert Init(n).callers[..n - 1] == Init(n - 1).callers;
    }
  }

  // ------------------------------------------------------------ and the bound is reached

  /** One caller alone can bring the counter up to k and be cleared again. */
  lemma {:induction false} OneCallerFills(n: nat, k: nat)
    requires n > 0 && k < MAX_IN_FLIGHT
    ensures Reachable(Next(), Init(n), State(Init(n).callers[0 := Cleared], k))
    decreases k
  {
    var base := Init(n).callers;
    if k == 0 {
      ReachInit(Next(), Init(n));
      Reach(Next(), Init(n), Init(n), Enter(0));
    } else {
      OneCallerFills(n, k - 1);
      var s := State(base[0 := Cleared], k - 1);
      Reach(Next(), Init(n), s, Send(0));
      var t := State(base[0 := Rereading], k);
      assert Do(s, Send(0)) == t;
      Reach(Next(), Init(n), t, Reread(0));
      assert Do(t, Reread(0)) == State(base[0 := Cleared], k);
    }
  }

  /** The first j callers cleared, the others outside. */
  function FirstCleared(n: nat, j: nat): seq<Caller> {
    seq(n, i => if i < j then Cleared else Out)
  }

  lemma {:induction false} AllEnter(n: nat, j: nat)
    requires 0 < j <= n
    ensures Reachable(Next(), Init(n), State(FirstCleared(n, j), MAX_IN_FLIGHT - 1))
    decreases j
  {
    if j == 1 {
      OneCallerFills(n, MAX_IN_FLIGHT - 1);
      assert FirstCleared(n, 1) == Init(n).callers[0 := Cleared];
    } else {
      AllEnter(n, j - 1);
      Reach(Next(), Init(n), State(FirstCleared(n, j - 1), MAX_IN_FLIGHT - 1), Enter(j - 1));
      assert FirstCleared(n, j) == FirstCleared(n, j - 1)[j - 1 := Cleared];
    }
  }

  lemma {:induction false} AllSend(n: nat, j: nat)
    requires j <= n && n > 0
    ensures Reachable(Next(), Init(n), State(FirstCleared(n, n - j), MAX_IN_FLIGHT - 1 + j))
    decreases j
  {
    if j == 0 {
      AllEnter(n, n);
    } else {
      AllSend(n, j - 1);
      Reach(Next(), Init(n), State(FirstCleared(n, n - j + 1), MAX_IN_FLIGHT - 2 + j), SendLast(n - j));
      assert FirstCleared(n, n - j) == FirstCleared(n, n - j + 1)[n - j := Out];
    }
  }

  /** No smaller bound holds: some run has 128 + n - 1 batches in flight. */
  lemma BoundIsReached(n: nat)
    requires n > 0
    ensures exists s :: Reachable(Next(), Init(n), s) && s.inFlight == MAX_IN_FLIGHT + n - 1
  {
    AllSend(n, n);
    assert State(FirstCleared(n, 0), MAX_IN_FLIGHT - 1 + n).inFlight == MAX_IN_FLIGHT + n - 1;
  }
}
