/** How many relays of one identity the room's limiter lets through, over whole runs. */
module RateLimit {
  import opened Wrappers
  import opened Protocol
  import opened SignalRoom
  import opened RoomProperties

  /** The event is a relay by the socket that holds the identity, and the limiter passes it. */
  predicate Passes<D>(st: State, event: Event<D>, id: string) {
    && event.Message? && event.msg.Forward? && event.msg.kind == Relay
    && event.socket in st.sockets && st.sockets[event.socket] == id
    && event.msg.from == Some(id)
    && NextWindow(st, ByIdentity(id), event.now).count <= MAX_RELAY_PER_WINDOW
  }

  /** The passes of a run whose clock reads at least a and less than b. */
  ghost function PassCount<D>(size: D -> nat, st: State, events: seq<Event<D>>, id: string, a: int, b: int): nat
    requires Inv(st)
    decreases |events|
  {
    if events == [] then 0
    else
      StepInv(size, st, events[0]);
      (if Passes(st, events[0], id) && a <= events[0].now < b then 1 else 0)
      + PassCount(size, Step(size, st, events[0]).0, events[1..], id, a, b)
  }

  /** The clock never runs backwards, from a reading on. */
  predicate Clocked<D>(last: int, events: seq<Event<D>>)
    decreases |events|
  {
    events == [] || (TimeAfter(last, events[0]) >= last && Clocked(TimeAfter(last, events[0]), events[1..]))
  }

  function TimeAfter<D>(last: int, event: Event<D>): int {
    if event.Message? then event.now else last
  }

  /** Windows needed to cover a span of milliseconds. */
  function WindowsIn(span: int): nat {
    if span <= 0 then 0 else (span + RELAY_RATE_LIMIT_WINDOW_MS - 1) / RELAY_RATE_LIMIT_WINDOW_MS
  }

  /** The most relays of one identity that pass in span > 0 milliseconds: a window that was
      started just before adds 59, unless its end costs one window of its own. */
  function MaxPasses(span: int): nat {
    MAX_RELAY_PER_WINDOW * WindowsIn(span)
    + if span % RELAY_RATE_LIMIT_WINDOW_MS == 1 then 0 else MAX_RELAY_PER_WINDOW - 1
  }

  function WindowOf(st: State, id: string): Option<Window> {
    if ByIdentity(id) in st.rateLimit then Some(st.rateLimit[ByIdentity(id)]) else None
  }

  /** At most how many passes in [a, b) can follow, once the clock has read now. */
  function Budget(window: Option<Window>, now: int, a: int, b: int): nat {
    if now >= b then 0
    else if now < a then MaxPasses(b - a)
    else if window.Some? && now < window.value.resetAt then
      (if window.value.count < MAX_RELAY_PER_WINDOW then MAX_RELAY_PER_WINDOW - window.value.count else 0)
      + MAX_RELAY_PER_WINDOW * WindowsIn(b - window.value.resetAt)
    else MAX_RELAY_PER_WINDOW * WindowsIn(b - now)
  }

  /** A stored window has counted the relay that started it. */
  ghost predicate WindowsStarted(st: State) {
    forall key :: key in st.rateLimit ==> st.rateLimit[key].count >= 1
  }

  lemma WindowsGrow(span: int, longer: int)
    requires span <= longer
    ensures WindowsIn(span) <= WindowsIn(longer)
  {
  }

  lemma MaxPassesAtLeast(span: int)
    requires span > 0
    ensures MaxPasses(span) >= MAX_RELAY_PER_WINDOW * WindowsIn(span)
    ensures MaxPasses(span) >= MAX_RELAY_PER_WINDOW - 1 + MAX_RELAY_PER_WINDOW * WindowsIn(span - 1)
  {
  }

  lemma BudgetMonotone(window: Option<Window>, now: int, later: int, a: int, b: int)
    requires now <= later && a < b && (window.Some? ==> window.value.count >= 1)
    ensures Budget(window, later, a, b) <= Budget(window, now, a, b)
  {
    hide WindowsIn, MaxPasses;
    MaxPassesAtLeast(b - a);
    WindowsGrow(b - later, if now < a <= later then b - a else b - now);
    if window.Some? {
      if window.value.resetAt <= later {
        WindowsGrow(b - later, b - window.value.resetAt);
      }
      if a < window.value.resetAt {
        WindowsGrow(b - window.value.resetAt, b - a - 1);
      }
    }
  }

  lemma BudgetSpent(st: State, id: string, now: int, a: int, b: int)
    requires a < b && WindowsStarted(st)
    ensures var next := NextWindow(st, ByIdentity(id), now);
            (if a <= now < b && next.count <= MAX_RELAY_PER_WINDOW then 1 else 0) + Budget(Some(next), now, a, b)
            <= Budget(WindowOf(st, id), now, a, b)
  {
  }

  lemma StepBudget<D>(size: D -> nat, st: State, event: Event<D>, id: string, last: int, a: int, b: int)
    requires Inv(st) && WindowsStarted(st) && a < b && last <= TimeAfter(last, event)
    ensures var st' := Step(size, st, event).0;
            && WindowsStarted(st')
            && (if Passes(st, event, id) && a <= event.now < b then 1 else 0)
               + Budget(WindowOf(st', id), TimeAfter(last, event), a, b)
               <= Budget(WindowOf(st, id), last, a, b)
  {
    hide Broadcast, Without, IsIdentity, Budget;
    var now := TimeAfter(last, event);
    BudgetMonotone(WindowOf(st, id), last, now, a, b);
    BudgetSpent(st, id, now, a, b);
  }

  lemma {:induction false} RunBudget<D>(
    size: D -> nat, st: State, events: seq<Event<D>>, id: string, last: int, a: int, b: int)
    requires Inv(st) && WindowsStarted(st) && a < b && Clocked(last, events)
    ensures PassCount(size, st, events, id, a, b) <= Budget(WindowOf(st, id), last, a, b)
    decreases |events|
  {
    hide Step, Budget, Passes;
    if events != [] {
      StepInv(size, st, events[0]);
      StepBudget(size, st, events[0], id, last, a, b);
      RunBudget(size, Step(size, st, events[0]).0, events[1..], id, TimeAfter(last, events[0]), a, b);
    }
  }

  lemma PassesInNumbers()
    ensures MaxPasses(1) == 60 && MaxPasses(1_000) == 119 && MaxPasses(60_000) == 3_659
  {
  }

  /** For every run and every half-open interval of b - a milliseconds, through any joins,
      takeovers and closes: at most MaxPasses relays of one identity pass the limiter. */
  lemma RelaysBounded<D>(size: D -> nat, events: seq<Event<D>>, id: string, start: int, a: int, b: int)
    requires a < b && Clocked(start, events)
    ensures PassCount(size, EMPTY, events, id, a, b) <= MaxPasses(b - a)
  {
    RunBudget(size, EMPTY, events, id, start, a, b);
  }

  /** Every relay the room forwards is one the limiter passed for the identity it carries. */
  lemma ForwardedRelaysPass<D>(size: D -> nat, st: State, event: Event<D>, to: Socket, id: string, data: D)
    requires Inv(st) && Send(to, Forwarded(Relay, id, data)) in Step(size, st, event).1
    ensures Passes(st, event, id)
  {
    if event.Message? && event.msg.Forward? {
      ForwardedFaithfully(size, st, event.socket, event.msg, event.now);
    } else {
      OnlyForwardsForward(size, st, event);
    }
  }

  // The bound is reached for every interval.

  function Repeat<T>(x: T, n: nat): (r: seq<T>)
    ensures |r| == n
  {
    if n == 0 then [] else [x] + Repeat(x, n - 1)
  }

  function RelayAt<D>(s: Socket, id: string, data: D, now: int): Event<D> {
    Message(s, Forward(Relay, Some(id), Some(id), data), now, now)
  }

  function WithWindow(st: State, id: string, window: Window): State {
    st.(rateLimit := st.rateLimit[ByIdentity(id) := window])
  }

  /** One more relay in an open window. */
  lemma OneMoreRelay<D>(
    size: D -> nat, st: State, s: Socket, id: string, data: D, now: int, rest: seq<Event<D>>, a: int, b: int)
    requires Inv(st) && s in st.sockets && st.sockets[s] == id && a <= now < b
    requires ByIdentity(id) in st.rateLimit && now < st.rateLimit[ByIdentity(id)].resetAt
    requires st.rateLimit[ByIdentity(id)].count < MAX_RELAY_PER_WINDOW
    ensures var window := st.rateLimit[ByIdentity(id)];
            var st' := WithWindow(st, id, window.(count := window.count + 1));
            && Inv(st')
            && PassCount(size, st, [RelayAt(s, id, data, now)] + rest, id, a, b)
               == 1 + PassCount(size, st', rest, id, a, b)
  {
    hide Broadcast, Without, IsIdentity, JoinStep, CloseStep;
    var event := RelayAt(s, id, data, now);
    var window := st.rateLimit[ByIdentity(id)];
    var st' := WithWindow(st, id, window.(count := window.count + 1));
    assert forall t :: t in st.sockets ==> Owns(st, t);
    assert ([event] + rest)[1..] == rest;
    assert Step(size, st, event).0 == st';
  }

  /** Relays at one instant of an open window all pass until it is full. */
  lemma {:induction false} BurstPasses<D>(
    size: D -> nat, st: State, s: Socket, id: string, data: D, now: int, n: nat, rest: seq<Event<D>>, a: int, b: int)
    requires Inv(st) && s in st.sockets && st.sockets[s] == id && a <= now < b
    requires ByIdentity(id) in st.rateLimit && now < st.rateLimit[ByIdentity(id)].resetAt
    requires st.rateLimit[ByIdentity(id)].count + n <= MAX_RELAY_PER_WINDOW
    ensures var window := st.rateLimit[ByIdentity(id)];
            var st' := WithWindow(st, id, window.(count := window.count + n));
            && Inv(st')
            && PassCount(size, st, Repeat(RelayAt(s, id, data, now), n) + rest, id, a, b)
               == n + PassCount(size, st', rest, id, a, b)
    decreases n
  {
    hide Inv, PassCount;
    var event := RelayAt(s, id, data, now);
    var window := st.rateLimit[ByIdentity(id)];
    var all := Repeat(event, n) + rest;
    if n == 0 {
      assert all == rest;
      assert WithWindow(st, id, window) == st;
    } else {
      var next := WithWindow(st, id, window.(count := window.count + 1));
      assert all == [event] + (Repeat(event, n - 1) + rest);
      OneMoreRelay(size, st, s, id, data, now, Repeat(event, n - 1) + rest, a, b);
      BurstPasses(size, next, s, id, data, now, n - 1, rest, a, b);
      assert WithWindow(next, id, window.(count := window.count + n))
             == WithWindow(st, id, window.(count := window.count + n));
    }
  }

  /** A first relay opens a window. */
  lemma OpeningRelay<D>(
    size: D -> nat, st: State, s: Socket, id: string, data: D, now: int, rest: seq<Event<D>>, a: int, b: int)
    requires Inv(st) && s in st.sockets && st.sockets[s] == id
    requires ByIdentity(id) in st.rateLimit ==> st.rateLimit[ByIdentity(id)].resetAt <= now
    ensures var st' := WithWindow(st, id, Window(1, now + RELAY_RATE_LIMIT_WINDOW_MS));
            && Inv(st')
            && PassCount(size, st, [RelayAt(s, id, data, now)] + rest, id, a, b)
               == (if a <= now < b then 1 else 0) + PassCount(size, st', rest, id, a, b)
  {
    hide Broadcast, Without, IsIdentity, JoinStep, CloseStep;
    var event := RelayAt(s, id, data, now);
    var st' := WithWindow(st, id, Window(1, now + RELAY_RATE_LIMIT_WINDOW_MS));
    assert forall t :: t in st.sockets ==> Owns(st, t);
    assert ([event] + rest)[1..] == rest;
    assert Step(size, st, event).0 == st';
  }

  lemma NothingPasses<D>(size: D -> nat, st: State, id: string, a: int, b: int)
    requires Inv(st)
    ensures PassCount(size, st, [], id, a, b) == 0
  {
  }

  function Burst<D>(s: Socket, id: string, data: D, now: int): seq<Event<D>> {
    [RelayAt(s, id, data, now)] + Repeat(RelayAt(s, id, data, now), MAX_RELAY_PER_WINDOW - 1)
  }

  /** A full window of relays at now, and at every window's end before b. */
  function Train<D>(s: Socket, id: string, data: D, now: int, b: int): seq<Event<D>>
    decreases b - now
  {
    if now >= b then []
    else Burst(s, id, data, now) + Train(s, id, data, now + RELAY_RATE_LIMIT_WINDOW_MS, b)
  }

  lemma {:induction false} TrainPasses<D>(
    size: D -> nat, st: State, s: Socket, id: string, data: D, now: int, a: int, b: int)
    requires Inv(st) && s in st.sockets && st.sockets[s] == id && a <= now
    requires ByIdentity(id) in st.rateLimit ==> st.rateLimit[ByIdentity(id)].resetAt <= now
    ensures PassCount(size, st, Train(s, id, data, now, b), id, a, b) == MAX_RELAY_PER_WINDOW * WindowsIn(b - now)
    decreases b - now
  {
    hide PassCount, Repeat, Inv;
    if now >= b {
      NothingPasses(size, st, id, a, b);
    } else {
      var again := now + RELAY_RATE_LIMIT_WINDOW_MS;
      var rest := Train(s, id, data, again, b);
      var more := Repeat(RelayAt(s, id, data, now), MAX_RELAY_PER_WINDOW - 1) + rest;
      assert Train(s, id, data, now, b) == [RelayAt(s, id, data, now)] + more;
      OpeningRelay(size, st, s, id, data, now, more, a, b);
      var started := WithWindow(st, id, Window(1, again));
      BurstPasses(size, started, s, id, data, now, MAX_RELAY_PER_WINDOW - 1, rest, a, b);
      var full := WithWindow(started, id, Window(MAX_RELAY_PER_WINDOW, again));
      TrainPasses(size, full, s, id, data, again, a, b);
    }
  }

  lemma ClockedCons<D>(last: int, event: Event<D>, rest: seq<Event<D>>)
    requires event.Message? && last <= event.now && Clocked(event.now, rest)
    ensures Clocked(last, [event] + rest)
  {
    assert ([event] + rest)[1..] == rest;
  }

  lemma {:induction false} ClockedRepeat<D>(event: Event<D>, n: nat, rest: seq<Event<D>>)
    requires event.Message? && Clocked(event.now, rest)
    ensures Clocked(event.now, Repeat(event, n) + rest)
  {
    if n == 0 {
      assert Repeat(event, n) + rest == rest;
    } else {
      ClockedRepeat(event, n - 1, rest);
      ClockedCons(event.now, event, Repeat(event, n - 1) + rest);
      assert Repeat(event, n) + rest == [event] + (Repeat(event, n - 1) + rest);
    }
  }

  lemma {:induction false} ClockedTrain<D>(last: int, s: Socket, id: string, data: D, now: int, b: int)
    requires last <= now
    ensures Clocked(last, Train(s, id, data, now, b))
    decreases b - now
  {
    hide Repeat;
    if now < b {
      var event := RelayAt(s, id, data, now);
      var rest := Train(s, id, data, now + RELAY_RATE_LIMIT_WINDOW_MS, b);
      ClockedTrain(now, s, id, data, now + RELAY_RATE_LIMIT_WINDOW_MS, b);
      ClockedRepeat(event, MAX_RELAY_PER_WINDOW - 1, rest);
      ClockedCons(last, event, Repeat(event, MAX_RELAY_PER_WINDOW - 1) + rest);
      assert Train(s, id, data, now, b) == [event] + (Repeat(event, MAX_RELAY_PER_WINDOW - 1) + rest);
    }
  }

  /** One relay just under a window before a, 59 more at a, and full windows from a + 1 on. */
  function Late<D>(s: Socket, id: string, data: D, a: int, b: int): seq<Event<D>> {
    [RelayAt(s, id, data, a + 1 - RELAY_RATE_LIMIT_WINDOW_MS)]
    + (Repeat(RelayAt(s, id, data, a), MAX_RELAY_PER_WINDOW - 1) + Train(s, id, data, a + 1, b))
  }

  lemma LatePasses<D>(size: D -> nat, st: State, s: Socket, id: string, data: D, a: int, b: int)
    requires Inv(st) && s in st.sockets && st.sockets[s] == id && ByIdentity(id) !in st.rateLimit && a < b
    ensures PassCount(size, st, Late(s, id, data, a, b), id, a, b)
            == MAX_RELAY_PER_WINDOW - 1 + MAX_RELAY_PER_WINDOW * WindowsIn(b - a - 1)
    ensures Clocked(a - RELAY_RATE_LIMIT_WINDOW_MS, Late(s, id, data, a, b))
  {
    hide PassCount, Repeat, Inv, Train, WindowsIn, Clocked;
    var opens := RelayAt(s, id, data, a + 1 - RELAY_RATE_LIMIT_WINDOW_MS);
    var train := Train(s, id, data, a + 1, b);
    var rest := Repeat(RelayAt(s, id, data, a), MAX_RELAY_PER_WINDOW - 1) + train;
    OpeningRelay(size, st, s, id, data, opens.now, rest, a, b);
    var started := WithWindow(st, id, Window(1, a + 1));
    BurstPasses(size, started, s, id, data, a, MAX_RELAY_PER_WINDOW - 1, train, a, b);
    var full := WithWindow(started, id, Window(MAX_RELAY_PER_WINDOW, a + 1));
    TrainPasses(size, full, s, id, data, a + 1, a, b);
    ClockedTrain(a, s, id, data, a + 1, b);
    ClockedRepeat(RelayAt(s, id, data, a), MAX_RELAY_PER_WINDOW - 1, train);
    ClockedLater(opens.now, a, rest);
    ClockedCons(a - RELAY_RATE_LIMIT_WINDOW_MS, opens, rest);
  }

  lemma ClockedLater<D>(last: int, later: int, events: seq<Event<D>>)
    requires last <= later && Clocked(later, events)
    ensures Clocked(last, events)
    decreases |events|
  {
  }

  function JoinAt<D>(s: Socket, id: string, now: int): Event<D> {
    Message(s, Join(Some(id)), now, now)
  }

  lemma Alone<D>(
    size: D -> nat, s: Socket, id: string, now: int, rest: seq<Event<D>>, a: int, b: int) returns (st: State)
    requires IsIdentity(Some(id))
    ensures Inv(st) && s in st.sockets && st.sockets[s] == id && ByIdentity(id) !in st.rateLimit
    ensures PassCount(size, EMPTY, [JoinAt<D>(s, id, now)] + rest, id, a, b) == PassCount(size, st, rest, id, a, b)
  {
    var join := JoinAt<D>(s, id, now);
    st := Step(size, EMPTY, join).0;
    StepInv(size, EMPTY, join);
    assert ([join] + rest)[1..] == rest;
  }

  /** For every interval and identity some run from the empty room passes that many. */
  lemma BoundReached<D>(size: D -> nat, s: Socket, id: string, data: D, a: int, b: int)
    returns (start: int, events: seq<Event<D>>)
    requires IsIdentity(Some(id)) && a < b
    ensures Clocked(start, events) && PassCount(size, EMPTY, events, id, a, b) == MaxPasses(b - a)
  {
    start := a - RELAY_RATE_LIMIT_WINDOW_MS;
    var relays;
    if (b - a) % RELAY_RATE_LIMIT_WINDOW_MS == 1 {
      relays := Train(s, id, data, a, b);
      ClockedTrain(start, s, id, data, a, b);
    } else {
      relays := Late(s, id, data, a, b);
      assert WindowsIn(b - a) == WindowsIn(b - a - 1);
    }
    hide PassCount, Train, Late, Inv, WindowsIn, IsIdentity, Clocked;
    events := [JoinAt<D>(s, id, start)] + relays;
    var st := Alone(size, s, id, start, relays, a, b);
    if (b - a) % RELAY_RATE_LIMIT_WINDOW_MS == 1 {
      TrainPasses(size, st, s, id, data, a, a, b);
    } else {
      LatePasses(size, st, s, id, data, a, b);
    }
    ClockedCons(start, JoinAt<D>(s, id, start), relays);
  }
}
