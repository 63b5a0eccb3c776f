/** The SSE slot counter of crates/folk-transport/src/lib.rs: threads interleave the atomic
    adds and subtracts of acquire_sse_slot and release_sse_slot in any order. */
module SseSlots {

  const MAX_SSE_CLIENTS: nat := 32
  const TWO_32: nat := 0x1_0000_0000

  type Thread = nat

  type U32 = n: nat | n < TWO_32

  /** failing holds the threads between a failed add and its undo. */
  datatype State = State(counter: U32, holding: set<Thread>, failing: set<Thread>)

  const INITIAL := State(0, {}, {})

  /** One atomic instruction: the add of an acquire, the undo of a failed one, a release. */
  datatype Action = Add(thread: Thread) | Undo(thread: Thread) | Release(thread: Thread)

  predicate Enabled(st: State, action: Action) {
    match action
    case Add(t) => t !in st.holding && t !in st.failing
    case Undo(t) => t in st.failing
    case Release(t) => t in st.holding
  }

  /** The u32 counter wraps, as fetch_add and fetch_sub do. */
  function Step(st: State, action: Action): State {
    match action
    case Add(t) =>
      var next := (st.counter + 1) % TWO_32;
      if st.counter >= MAX_SSE_CLIENTS then st.(counter := next, failing := st.failing + {t})
      else st.(counter := next, holding := st.holding + {t})
    case Undo(t) => st.(counter := (st.counter + TWO_32 - 1) % TWO_32, failing := st.failing - {t})
    case Release(t) => st.(counter := (st.counter + TWO_32 - 1) % TWO_32, holding := st.holding - {t})
  }

  ghost predicate Possible(st: State, actions: seq<Action>)
    decreases |actions|
  {
    actions == [] || (Enabled(st, actions[0]) && Possible(Step(st, actions[0]), actions[1..]))
  }

  function Run(st: State, actions: seq<Action>): State
    decreases |actions|
  {
    if actions == [] then st else Run(Step(st, actions[0]), actions[1..])
  }

  ghost predicate Inv(st: State, threads: set<Thread>) {
    && st.holding !! st.failing
    && st.holding + st.failing <= threads
    && st.counter == |st.holding| + |st.failing|
    && |st.holding| <= MAX_SSE_CLIENTS
  }

  lemma SizeBounded(a: set<Thread>, b: set<Thread>)
    requires a <= b
    ensures |a| <= |b|
  {
    assert b == a + (b - a);
  }

  lemma BusyBounded(st: State, t: Thread, threads: set<Thread>)
    requires st.holding !! st.failing && st.holding + st.failing <= threads
    requires t in threads && t !in st.holding && t !in st.failing
    ensures |st.holding| + |st.failing| < |threads|
  {
    var busy := st.holding + st.failing;
    assert |busy| == |st.holding| + |st.failing|;
    SizeBounded(busy + {t}, threads);
    assert |busy + {t}| == |busy| + 1;
  }

  lemma AddInv(st: State, t: Thread, threads: set<Thread>)
    requires Inv(st, threads) && Enabled(st, Add(t)) && t in threads && |threads| < TWO_32
    ensures Inv(Step(st, Add(t)), threads)
    ensures Step(st, Add(t)).counter == st.counter + 1
  {
    BusyBounded(st, t, threads);
    if st.counter >= MAX_SSE_CLIENTS {
      assert |st.failing + {t}| == |st.failing| + 1;
    } else {
      assert |st.holding + {t}| == |st.holding| + 1;
    }
  }

  lemma UndoInv(st: State, t: Thread, threads: set<Thread>)
    requires Inv(st, threads) && t in st.failing
    ensures Inv(Step(st, Undo(t)), threads)
    ensures Step(st, Undo(t)).counter == st.counter - 1
  {
    assert |st.failing - {t}| == |st.failing| - 1;
  }

  lemma ReleaseInv(st: State, t: Thread, threads: set<Thread>)
    requires Inv(st, threads) && t in st.holding
    ensures Inv(Step(st, Release(t)), threads)
    ensures Step(st, Release(t)).counter == st.counter - 1
  {
    assert |st.holding - {t}| == |st.holding| - 1;
  }

  /** Every atomic step keeps the counter equal to the holders plus the failing, unwrapped. */
  lemma StepInv(st: State, action: Action, threads: set<Thread>)
    requires Inv(st, threads) && Enabled(st, action) && action.thread in threads
    requires |threads| < TWO_32
    ensures Inv(Step(st, action), threads)
    ensures Step(st, action).counter == if action.Add? then st.counter + 1 else st.counter - 1
  {
    hide Inv;
    match action
    case Add(t) => AddInv(st, t, threads);
    case Undo(t) => UndoInv(st, t, threads);
    case Release(t) => ReleaseInv(st, t, threads);
  }

  /** For every interleaving of fewer than 2^32 threads: at most 32 hold a slot, the counter is
      the holders plus the threads about to undo, and it never wraps. */
  lemma {:induction false} RunInv(st: State, actions: seq<Action>, threads: set<Thread>)
    requires Inv(st, threads) && Possible(st, actions) && |threads| < TWO_32
    requires forall i :: 0 <= i < |actions| ==> actions[i].thread in threads
    ensures Inv(Run(st, actions), threads)
    decreases |actions|
  {
    if actions != [] {
      StepInv(st, actions[0], threads);
      RunInv(Step(st, actions[0]), actions[1..], threads);
    }
  }

  lemma SlotsBounded(actions: seq<Action>, threads: set<Thread>)
    requires Possible(INITIAL, actions) && |threads| < TWO_32
    requires forall i :: 0 <= i < |actions| ==> actions[i].thread in threads
    ensures var st := Run(INITIAL, actions);
            && |st.holding| <= 32
            && st.counter == |st.holding| + |st.failing|
            && (st.failing == {} ==> st.counter == |st.holding|)
  {
    RunInv(INITIAL, actions, threads);
  }

  /** A thread is refused while a slot is free, exactly when failed adds that are not yet
      undone fill the difference. */
  lemma RefusedExactly(actions: seq<Action>, threads: set<Thread>, t: Thread)
    requires Possible(INITIAL, actions) && |threads| < TWO_32 && t in threads
    requires forall i :: 0 <= i < |actions| ==> actions[i].thread in threads
    requires Enabled(Run(INITIAL, actions), Add(t))
    ensures var st := Run(INITIAL, actions);
            t in Step(st, Add(t)).failing <==> |st.holding| + |st.failing| >= 32
  {
    RunInv(INITIAL, actions, threads);
  }

  // A refusal while a slot is free.

  function Below(n: nat): (r: set<Thread>)
    ensures |r| == n && forall t: Thread :: t in r <==> t < n
  {
    if n == 0 then {}
    else
      var rest := Below(n - 1);
      assert |rest + {n - 1}| == |rest| + 1;
      rest + {n - 1}
  }

  function FirstHold(n: nat): State
    requires n <= MAX_SSE_CLIENTS
  {
    State(n, Below(n), {})
  }

  lemma FirstHoldStep(n: nat)
    requires n < MAX_SSE_CLIENTS
    ensures Enabled(FirstHold(n), Add(n)) && Step(FirstHold(n), Add(n)) == FirstHold(n + 1)
  {
  }

  lemma RunCons(st: State, action: Action, rest: seq<Action>)
    requires Enabled(st, action)
    ensures Run(st, [action] + rest) == Run(Step(st, action), rest)
    ensures Possible(st, [action] + rest) == Possible(Step(st, action), rest)
  {
    var all := [action] + rest;
    assert all[0] == action && all[1..] == rest;
  }

  /** One acquire each by the threads from a to 31. */
  function AcquiresFrom(a: nat): seq<Action>
    decreases MAX_SSE_CLIENTS - a
  {
    if a >= MAX_SSE_CLIENTS then [] else [Add(a)] + AcquiresFrom(a + 1)
  }

  lemma {:induction false} AllAcquire(a: nat, rest: seq<Action>)
    requires a <= MAX_SSE_CLIENTS
    ensures Run(FirstHold(a), AcquiresFrom(a) + rest) == Run(FirstHold(MAX_SSE_CLIENTS), rest)
    ensures Possible(FirstHold(a), AcquiresFrom(a) + rest) == Possible(FirstHold(MAX_SSE_CLIENTS), rest)
    decreases MAX_SSE_CLIENTS - a
  {
    hide FirstHold, Run, Possible, Step, Enabled;
    if a == MAX_SSE_CLIENTS {
      assert AcquiresFrom(a) + rest == rest;
    } else {
      AllAcquire(a + 1, rest);
      FirstHoldStep(a);
      assert AcquiresFrom(a) + rest == [Add(a)] + (AcquiresFrom(a + 1) + rest);
      RunCons(FirstHold(a), Add(a), AcquiresFrom(a + 1) + rest);
    }
  }

  lemma FailThenRelease(full: State)
    requires full == FirstHold(MAX_SSE_CLIENTS)
    ensures var fail, release, next := Add(MAX_SSE_CLIENTS), Release(0), Add(MAX_SSE_CLIENTS + 1);
            && Enabled(full, fail) && Enabled(Step(full, fail), release)
            && var st := Step(Step(full, fail), release);
               && |st.holding| == MAX_SSE_CLIENTS - 1
               && Enabled(st, next) && next.thread in Step(st, next).failing
  {
    hide Below;
    var all := Below(MAX_SSE_CLIENTS);
    assert |all - {0}| == MAX_SSE_CLIENTS - 1;
  }

  /** The state RefusedExactly speaks of is reached, when threads 0 to 31 acquire, thread 32
      fails and thread 0 releases: 31 threads hold a slot, and another one is refused because
      thread 32 has not yet undone its add. */
  lemma RefusedWithFreeSlot() returns (actions: seq<Action>, t: Thread)
    ensures Possible(INITIAL, actions)
    ensures var st := Run(INITIAL, actions);
            && |st.holding| == 31
            && Enabled(st, Add(t)) && t in Step(st, Add(t)).failing
  {
    hide Below, AcquiresFrom, Step, Enabled;
    var fail, release, full := Add(MAX_SSE_CLIENTS), Release(0), FirstHold(MAX_SSE_CLIENTS);
    actions, t := AcquiresFrom(0) + [fail, release], MAX_SSE_CLIENTS + 1;
    FailThenRelease(full);
    var st := Step(Step(full, fail), release);
    assert Run(st, []) == st && Possible(st, []);
    StartEmpty();
    hide Run, Possible, FirstHold;
    AllAcquire(0, [fail, release]);
    assert [fail] + [release] == [fail, release] && [release] + [] == [release];
    RunCons(full, fail, [release]);
    RunCons(Step(full, fail), release, []);
  }

  lemma StartEmpty()
    ensures FirstHold(0) == INITIAL
  {
  }
}
