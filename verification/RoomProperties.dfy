/** What holds of the signalling room in every reachable state: who owns which identity,
    what each client believes about its peers, and who a forwarded message came from. */
module RoomProperties {
  import opened Wrappers
  import opened Protocol
  import opened SignalRoom

  ghost predicate Owns(st: State, s: Socket)
    requires s in st.sockets
  {
    st.sockets[s] in st.peers.entries && st.peers.entries[st.sockets[s]].ws == s
  }

  ghost predicate Inv(st: State) {
    && st.peers.Valid()
    && (forall s :: s in st.sockets ==> Owns(st, s))
    && (forall id :: id in st.peers.entries ==> IsIdentity(Some(id)))
  }

  lemma StepInv<D>(size: D -> nat, st: State, event: Event<D>)
    requires Inv(st)
    ensures Inv(Step(size, st, event).0)
  {
    hide JoinStep, CloseStep, Deliver;
    match event
    case Closed(server) => CloseInv<D>(st, server);
    case Message(server, msg, now, stamp) =>
      if msg.Join? {
        JoinInv<D>(st, server, msg.identity, now, stamp);
      } else {
        var st' := Step(size, st, event).0;
        assert st'.peers == st.peers && st'.sockets == st.sockets;
        assert forall s :: s in st.sockets ==> Owns(st, s);
      }
  }

  lemma JoinInv<D>(st: State, server: Socket, identity: Option<string>, now: int, stamp: int)
    requires Inv(st)
    ensures Inv(JoinStep<D>(st, server, identity, now, stamp).0)
  {
    hide Broadcast, Without, IsIdentity;
    if IsIdentity(identity) {
      SetValid(st.peers, identity.value, Entry(server, stamp));
      JoinOwners(st, server, identity.value, stamp);
    }
  }

  lemma CloseInv<D>(st: State, server: Socket)
    requires Inv(st)
    ensures Inv(CloseStep<D>(st, server).0)
  {
    hide Broadcast, Without, IsIdentity;
    if server in st.sockets {
      DeleteValid(st.peers, st.sockets[server]);
      assert Owns(st, server);
      CloseOwners(st, server);
    }
  }

  /** The state an accepted join leads to. */
  function Admitted(st: State, server: Socket, id: string, stamp: int): State {
    var holder := Holder(st, id, server);
    var sockets := if holder.Some? then st.sockets - {holder.value.ws} else st.sockets;
    st.(peers := st.peers.Set(id, Entry(server, stamp)), sockets := sockets[server := id])
  }

  lemma JoinOwners(st: State, server: Socket, id: string, stamp: int)
    requires Inv(st)
    ensures var st' := Admitted(st, server, id, stamp);
            forall s :: s in st'.sockets ==> Owns(st', s)
  {
    assert forall s :: s in st.sockets ==> Owns(st, s);
  }

  lemma CloseOwners(st: State, server: Socket)
    requires Inv(st) && server in st.sockets
    ensures var st' := st.(peers := st.peers.Delete(st.sockets[server]), sockets := st.sockets - {server});
            forall s :: s in st'.sockets ==> Owns(st', s)
  {
    assert forall s :: s in st.sockets ==> Owns(st, s);
  }

  // Runs.

  ghost function Run<D>(size: D -> nat, st: State, events: seq<Event<D>>): (r: (State, seq<Effect<D>>))
    requires Inv(st)
    ensures Inv(r.0)
    decreases |events|
  {
    if events == [] then (st, [])
    else
      StepInv(size, st, events[0]);
      var (next, effects) := Step(size, st, events[0]);
      var (last, rest) := Run(size, next, events[1..]);
      (last, effects + rest)
  }

  /** In every reachable state the socket an identity maps to is the one that maps to it, all
      identities are valid, and no two sockets hold one identity. */
  lemma SocketsOwnTheirIdentities<D>(size: D -> nat, events: seq<Event<D>>, s: Socket, t: Socket)
    ensures var st := Run(size, EMPTY, events).0;
            && (s in st.sockets ==> st.sockets[s] in st.peers.entries && st.peers.entries[st.sockets[s]].ws == s
                                    && IsIdentity(Some(st.sockets[s])))
            && (s in st.sockets && t in st.sockets && st.sockets[s] == st.sockets[t] ==> s == t)
  {
    var st := Run(size, EMPTY, events).0;
    assert s in st.sockets ==> Owns(st, s);
    assert t in st.sockets ==> Owns(st, t);
  }

  // What each event does to the two maps.

  /** When a join is refused: not an identity, or held by a socket that joined it less than
      five seconds ago. */
  predicate JoinRefused(st: State, server: Socket, identity: Option<string>, now: int) {
    !IsIdentity(identity)
    || (Holder(st, identity.value, server).Some?
        && now - st.peers.entries[identity.value].joinedAt < IDENTITY_GRACE_PERIOD_MS)
  }

  /** The entries and the sockets after an event. */
  function Maps<D>(st: State, event: Event<D>): (map<string, Entry>, map<Socket, string>)
    requires Inv(st)
  {
    match event
    case Closed(s) =>
      (if s in st.sockets then st.peers.entries - {st.sockets[s]} else st.peers.entries, st.sockets - {s})
    case Message(server, msg, now, stamp) =>
      if !msg.Join? || JoinRefused(st, server, msg.identity, now) then (st.peers.entries, st.sockets)
      else
        var admitted := Admitted(st, server, msg.identity.value, stamp);
        (admitted.peers.entries, admitted.sockets)
  }

  lemma StepMaps<D>(size: D -> nat, st: State, event: Event<D>)
    requires Inv(st)
    ensures var st' := Step(size, st, event).0;
            (st'.peers.entries, st'.sockets) == Maps(st, event)
  {
    hide Broadcast, Without, IsIdentity, Deliver;
    match event
    case Closed(s) =>
      if s in st.sockets {
        assert Owns(st, s);
      }
    case Message(server, msg, now, stamp) =>
  }

  // Sockets that were replaced, and entries nobody holds.

  predicate JoinsFrom<D>(event: Event<D>, s: Socket) {
    event.Message? && event.socket == s && event.msg.Join?
  }

  predicate JoinsAs<D>(event: Event<D>, id: string) {
    event.Message? && event.msg == Join(Some(id))
  }

  lemma OutStaysOut<D>(size: D -> nat, st: State, event: Event<D>, s: Socket)
    requires Inv(st) && s !in st.sockets && !JoinsFrom(event, s)
    ensures s !in Step(size, st, event).0.sockets
    ensures forall id :: id in st.peers.entries && st.peers.entries[id].ws == s && !JoinsAs(event, id)
                         ==> id in Step(size, st, event).0.peers.entries
                             && Step(size, st, event).0.peers.entries[id] == st.peers.entries[id]
  {
    hide Step, IsIdentity;
    StepMaps(size, st, event);
  }

  /** Once a socket is not registered (a takeover replaced it, say), closing it later changes
      no peer entry and announces nothing, unless it sends another join first. */
  lemma {:induction false} ReplacedCloseIsSilent<D>(size: D -> nat, st: State, events: seq<Event<D>>, s: Socket)
    requires Inv(st) && s !in st.sockets
    requires forall i :: 0 <= i < |events| ==> !JoinsFrom(events[i], s)
    ensures var later := Run(size, st, events).0;
            && s !in later.sockets
            && CloseStep<D>(later, s).0.peers == later.peers
            && CloseStep<D>(later, s).1 == []
    decreases |events|
  {
    hide Step;
    if events != [] {
      StepInv(size, st, events[0]);
      OutStaysOut(size, st, events[0], s);
      ReplacedCloseIsSilent(size, Step(size, st, events[0]).0, events[1..], s);
    }
  }

  /** A join is admitted, and its socket told so, exactly when it is not refused; a refused one
      changes nothing and nobody else hears of it. */
  lemma JoinRefusedExactly<D>(st: State, server: Socket, identity: Option<string>, now: int, stamp: int)
    requires Inv(st)
    ensures var (st', effects) := JoinStep<D>(st, server, identity, now, stamp);
            && (JoinRefused(st, server, identity, now) <==>
                  forall i :: 0 <= i < |effects| ==> !(effects[i].Send? && effects[i].msg.Joined?))
            && (JoinRefused(st, server, identity, now) ==>
                  && st' == st && |effects| >= 1 && effects[0].Send? && effects[0].msg.Error?
                  && forall i :: 0 <= i < |effects| ==>
                       if effects[i].Send? then effects[i].to == server else effects[i] == Close(server, 1008))
            && (!JoinRefused(st, server, identity, now) ==>
                  && server in st'.sockets && st'.sockets[server] == identity.value
                  && Send(server, Joined(Without(st'.peers.order, identity.value))) in effects)
  {
    hide Broadcast, Without, IsIdentity;
    if !JoinRefused(st, server, identity, now) {
      var (st', effects) := JoinStep<D>(st, server, identity, now, stamp);
      var list: Effect<D> := Send(server, Joined(Without(st'.peers.order, identity.value)));
      var k := if Holder(st, identity.value, server).Some? then 1 else 0;
      assert effects[k] == list;
    }
  }

  /** An accepted takeover leaves the replaced socket unregistered. */
  lemma TakeoverReplaces<D>(st: State, server: Socket, id: string, now: int, stamp: int)
    requires Inv(st) && IsIdentity(Some(id)) && Holder(st, id, server).Some?
    requires now - st.peers.entries[id].joinedAt >= IDENTITY_GRACE_PERIOD_MS
    ensures var (st', effects) := JoinStep<D>(st, server, Some(id), now, stamp);
            && st.peers.entries[id].ws !in st'.sockets
            && Close(st.peers.entries[id].ws, 1000) in effects
            && st'.sockets[server] == id && st'.peers.entries[id] == Entry(server, stamp)
  {
    hide Broadcast, Without, IsIdentity;
    var effects := JoinStep<D>(st, server, Some(id), now, stamp).1;
    assert effects[0] == Close(st.peers.entries[id].ws, 1000);
  }

  /** The identity has an entry, but its socket is not registered under it: the socket is not
      registered at all, or under another identity. */
  ghost predicate Orphan(st: State, id: string) {
    id in st.peers.entries && (st.peers.entries[id].ws in st.sockets ==> st.sockets[st.peers.entries[id].ws] != id)
  }

  /** The event is a join as id, and admitted. */
  ghost predicate Admits<D>(st: State, event: Event<D>, id: string) {
    JoinsAs(event, id) && !JoinRefused(st, event.socket, Some(id), event.now)
  }

  /** An orphan entry ends with an admitted join as its identity; any other event, a close of
      its socket included, leaves it as it is. */
  lemma OrphanStep<D>(size: D -> nat, st: State, event: Event<D>, id: string)
    requires Inv(st) && Orphan(st, id)
    ensures var st' := Step(size, st, event).0;
            if Admits(st, event, id) then id in st'.peers.entries && !Orphan(st', id)
            else Orphan(st', id) && st'.peers.entries[id] == st.peers.entries[id]
  {
    hide Step, IsIdentity;
    StepMaps(size, st, event);
  }

  /** An entry that is no orphan becomes one exactly when another identity is joined, admitted,
      from its socket, or from any socket if that identity too had an entry for its socket. */
  lemma OrphanArises<D>(size: D -> nat, st: State, event: Event<D>, id: string)
    requires Inv(st) && id in st.peers.entries && !Orphan(st, id)
    ensures var ws := st.peers.entries[id].ws;
            Orphan(Step(size, st, event).0, id)
            <==> exists other :: other != id && Admits(st, event, other)
                   && (event.socket == ws || (other in st.peers.entries && st.peers.entries[other].ws == ws))
  {
    hide Step, IsIdentity;
    StepMaps(size, st, event);
    assert Owns(st, st.peers.entries[id].ws);
    if event.Message? && event.msg.Join? && event.msg.identity.Some? {
      var other := event.msg.identity.value;
      assert Admits(st, event, other) <==> !JoinRefused(st, event.socket, Some(other), event.now);
    }
  }

  /** Without a join as its identity, an orphan entry outlives any events. */
  lemma {:induction false} OrphanStays<D>(size: D -> nat, st: State, events: seq<Event<D>>, id: string)
    requires Inv(st) && Orphan(st, id) && forall i :: 0 <= i < |events| ==> !JoinsAs(events[i], id)
    ensures var later := Run(size, st, events).0;
            Orphan(later, id) && later.peers.entries[id] == st.peers.entries[id]
    decreases |events|
  {
    hide Step, Orphan, JoinRefused;
    if events != [] {
      StepInv(size, st, events[0]);
      OrphanStep(size, st, events[0], id);
      OrphanStays(size, Step(size, st, events[0]).0, events[1..], id);
    }
  }

  /** The two maps are inverse to each other. */
  ghost predicate TwoWay(st: State) {
    forall id :: id in st.peers.entries ==> !Orphan(st, id)
  }

  /** From such a state an accepted join keeps the maps inverse exactly when the socket joins
      for the first time, or again as itself. */
  lemma TwoWayJoin<D>(st: State, server: Socket, id: string, now: int, stamp: int)
    requires Inv(st) && TwoWay(st) && IsIdentity(Some(id))
    requires Holder(st, id, server).Some? ==> now - st.peers.entries[id].joinedAt >= IDENTITY_GRACE_PERIOD_MS
    ensures TwoWay(JoinStep<D>(st, server, Some(id), now, stamp).0)
            <==> (server in st.sockets ==> st.sockets[server] == id)
  {
    hide Broadcast, Without, IsIdentity;
    var st' := JoinStep<D>(st, server, Some(id), now, stamp).0;
    if server in st.sockets && st.sockets[server] != id {
      assert Owns(st, server);
      assert st'.peers.entries[st.sockets[server]].ws == server;
    }
  }

  /** Every other event keeps them inverse. */
  lemma TwoWayOther<D>(size: D -> nat, st: State, event: Event<D>)
    requires Inv(st) && TwoWay(st) && !(event.Message? && event.msg.Join?)
    ensures TwoWay(Step(size, st, event).0)
  {
    hide Step, JoinRefused;
    StepMaps(size, st, event);
    if event.Closed? {
      assert forall s :: s in st.sockets ==> Owns(st, s);
    }
  }

  /** One socket joins as a, then as b. */
  function TwoJoins<D>(s: Socket, a: string, b: string): seq<Event<D>> {
    [Message(s, Join(Some(a)), 0, 0), Message(s, Join(Some(b)), 0, 0)]
  }

  lemma RunCons<D>(size: D -> nat, st: State, event: Event<D>, rest: seq<Event<D>>)
    requires Inv(st)
    ensures Inv(Step(size, st, event).0)
    ensures Run(size, st, [event] + rest).0 == Run(size, Step(size, st, event).0, rest).0
    ensures Run(size, st, []).0 == st
  {
    StepInv(size, st, event);
    assert ([event] + rest)[1..] == rest;
  }

  lemma JoinAccepted<D>(size: D -> nat, st: State, server: Socket, id: string, now: int, stamp: int)
    requires Inv(st) && IsIdentity(Some(id)) && Holder(st, id, server) == None
    ensures var st' := Step(size, st, Message(server, Join(Some(id)), now, stamp)).0;
            && st'.peers.entries == st.peers.entries[id := Entry(server, stamp)]
            && st'.sockets == st.sockets[server := id]
  {
    hide Step, IsIdentity;
    StepMaps(size, st, Message(server, Join(Some(id)), now, stamp));
  }

  lemma CloseForgets<D>(size: D -> nat, st: State, s: Socket)
    requires Inv(st)
    ensures s !in Step<D>(size, st, Closed(s)).0.sockets
  {
    hide Step;
    StepMaps<D>(size, st, Closed(s));
  }

  lemma {:induction false} RunConcat<D>(size: D -> nat, st: State, a: seq<Event<D>>, b: seq<Event<D>>)
    requires Inv(st)
    ensures Run(size, st, a + b).0 == Run(size, Run(size, st, a).0, b).0
    decreases |a|
  {
    hide Step;
    if a == [] {
      assert a + b == b;
    } else {
      assert (a + b)[0] == a[0] && (a + b)[1..] == a[1..] + b;
      StepInv(size, st, a[0]);
      RunConcat(size, Step(size, st, a[0]).0, a[1..], b);
    }
  }

  /** Orphans are reached: after the second join a has an entry for a socket registered as b. */
  lemma SecondJoinOrphans<D>(size: D -> nat, s: Socket, a: string, b: string)
    requires IsIdentity(Some(a)) && IsIdentity(Some(b)) && a != b
    ensures var st := Run(size, EMPTY, TwoJoins<D>(s, a, b)).0;
            Orphan(st, a) && st.peers.entries[a].ws == s && s in st.sockets && st.sockets[s] == b
  {
    assert Inv(EMPTY);
    hide Step, Run, IsIdentity, Inv;
    var first: Event<D> := Message(s, Join(Some(a)), 0, 0);
    var second: Event<D> := Message(s, Join(Some(b)), 0, 0);
    assert TwoJoins(s, a, b) == [first] + ([second] + []);
    RunCons(size, EMPTY, first, [second] + []);
    JoinAccepted(size, EMPTY, s, a, 0, 0);
    var st1 := Step(size, EMPTY, first).0;
    RunCons(size, st1, second, []);
    JoinAccepted(size, st1, s, b, 0, 0);
    RunCons(size, Step(size, st1, second).0, second, []);
  }

  /** Once the socket closes, a has an entry for a socket that is gone, which OrphanStays says
      no close will remove. */
  lemma ClosedSocketKeepsEntry<D>(size: D -> nat, s: Socket, a: string, b: string)
    requires IsIdentity(Some(a)) && IsIdentity(Some(b)) && a != b
    ensures var st := Run(size, EMPTY, TwoJoins<D>(s, a, b) + [Closed(s)]).0;
            Orphan(st, a) && st.peers.entries[a].ws == s && s !in st.sockets
  {
    hide Step, Run, IsIdentity, Orphan;
    var close: Event<D> := Closed(s);
    SecondJoinOrphans(size, s, a, b);
    RunConcat(size, EMPTY, TwoJoins<D>(s, a, b), [close]);
    var st := Run(size, EMPTY, TwoJoins<D>(s, a, b)).0;
    assert [close] + [] == [close];
    RunCons(size, st, close, []);
    OrphanStep(size, st, close, a);
    CloseForgets(size, st, s);
    RunCons(size, Step(size, st, close).0, close, []);
  }

  // What each client knows about its peers.

  function ApplyView<D>(view: set<string>, msg: ServerMessage<D>): set<string> {
    match msg
    case Joined(peers) => set id | id in peers
    case PeerJoined(identity) => view + {identity}
    case PeerLeft(identity) => view - {identity}
    case _ => view
  }

  /** A client's view after the sends among the effects that go to its socket. */
  function FoldView<D>(view: set<string>, effects: seq<Effect<D>>, s: Socket): set<string>
    decreases |effects|
  {
    if effects == [] then view
    else
      var next := if effects[0].Send? && effects[0].to == s then ApplyView(view, effects[0].msg) else view;
      FoldView(next, effects[1..], s)
  }

  lemma {:induction false} FoldViewConcat<D>(view: set<string>, a: seq<Effect<D>>, b: seq<Effect<D>>, s: Socket)
    ensures FoldView(view, a + b, s) == FoldView(FoldView(view, a, s), b, s)
    decreases |a|
  {
    if a == [] {
      assert a + b == b;
    } else {
      var next := if a[0].Send? && a[0].to == s then ApplyView(view, a[0].msg) else view;
      assert (a + b)[1..] == a[1..] + b;
      FoldViewConcat(next, a[1..], b, s);
    }
  }

  /** A broadcast reaches a socket once per identity it has an entry for; once or more often
      makes no difference to its view. */
  lemma {:induction false} BroadcastView<D>(
    peers: Roster, order: seq<string>, msg: ServerMessage<D>, exclude: Socket, view: set<string>, s: Socket)
    requires forall i :: 0 <= i < |order| ==> order[i] in peers.entries
    requires msg.PeerJoined? || msg.PeerLeft?
    ensures FoldView(view, Broadcast(peers, order, msg, exclude), s)
            == if s != exclude && exists i :: 0 <= i < |order| && peers.entries[order[i]].ws == s
               then ApplyView(view, msg) else view
    decreases |order|
  {
    if order != [] {
      var ws := peers.entries[order[0]].ws;
      var first: seq<Effect<D>> := if ws != exclude then [Send(ws, msg)] else [];
      var next := if ws != exclude && ws == s then ApplyView(view, msg) else view;
      FoldViewConcat(view, first, Broadcast(peers, order[1..], msg, exclude), s);
      assert FoldView(view, first, s) == next;
      BroadcastView(peers, order[1..], msg, exclude, next, s);
      assert ApplyView(next, msg) == ApplyView(view, msg);
      assert (exists i :: 0 <= i < |order| && peers.entries[order[i]].ws == s)
             <==> ws == s || (exists i :: 0 <= i < |order[1..]| && peers.entries[order[1..][i]].ws == s) by {
        assert forall i :: 1 <= i < |order| ==> order[i] == order[1..][i - 1];
      }
    }
  }

  /** The identities a client should know of: all but its own. */
  ghost function Others(st: State, s: Socket): set<string>
    requires s in st.sockets
  {
    st.peers.entries.Keys - {st.sockets[s]}
  }

  /** A registered socket hears a broadcast. */
  lemma RegisteredHears(st: State, peers: Roster, s: Socket)
    requires peers.Valid() && s in st.sockets
    requires st.sockets[s] in peers.entries && peers.entries[st.sockets[s]].ws == s
    ensures exists i :: 0 <= i < |peers.order| && peers.entries[peers.order[i]].ws == s
  {
    var i :| 0 <= i < |peers.order| && peers.order[i] == st.sockets[s];
    assert peers.entries[peers.order[i]].ws == s;
  }

  lemma AdmittedView<D>(st: State, server: Socket, id: string, stamp: int, s: Socket, view: set<string>)
    requires Inv(st) && (s in st.sockets ==> view == Others(st, s))
    requires s in Admitted(st, server, id, stamp).sockets
    ensures var st' := Admitted(st, server, id, stamp);
            && st'.peers.Valid()
            && FoldView(if s == server then st'.peers.entries.Keys - {id} else view,
                        Broadcast<D>(st'.peers, st'.peers.order, PeerJoined(id), server), s) == Others(st', s)
  {
    hide Broadcast, IsIdentity, NoDuplicates, FoldView;
    var st' := Admitted(st, server, id, stamp);
    SetValid(st.peers, id, Entry(server, stamp));
    JoinOwners(st, server, id, stamp);
    var before := if s == server then st'.peers.entries.Keys - {id} else view;
    BroadcastView<D>(st'.peers, st'.peers.order, PeerJoined(id), server, before, s);
    if s != server {
      assert Owns(st, s) && Owns(st', s);
      RegisteredHears(st', st'.peers, s);
    }
  }

  lemma JoinView<D>(
    st: State, server: Socket, identity: Option<string>, now: int, stamp: int, s: Socket, view: set<string>)
    requires Inv(st) && (s in st.sockets ==> view == Others(st, s))
    ensures var (st', effects) := JoinStep<D>(st, server, identity, now, stamp);
            s in st'.sockets ==> FoldView(view, effects, s) == Others(st', s)
  {
    hide Broadcast, IsIdentity, Without;
    var (st', effects) := JoinStep<D>(st, server, identity, now, stamp);
    if |effects| > 0 && effects[0].Send? && effects[0].msg.Error? {
      RefusalView(view, effects, s);
    } else if s in st'.sockets {
      var id := identity.value;
      assert st' == Admitted(st, server, id, stamp);
      AdmittedView<D>(st, server, id, stamp, s, view);
      var holder := Holder(st, id, server);
      var closes: seq<Effect<D>> := if holder.Some? then [Close(holder.value.ws, 1000)] else [];
      var joined: seq<Effect<D>> := [Send(server, Joined(Without(st'.peers.order, id)))];
      var broadcast := Broadcast<D>(st'.peers, st'.peers.order, PeerJoined(id), server);
      assert effects == closes + joined + broadcast;
      JoinedListView(st'.peers, id);
      HeadView(view, closes, joined, broadcast, s);
    }
  }

  lemma HeadView<D>(view: set<string>, closes: seq<Effect<D>>, joined: seq<Effect<D>>, rest: seq<Effect<D>>, s: Socket)
    requires |closes| == 0 || (|closes| == 1 && closes[0].Close?)
    requires |joined| == 1 && joined[0].Send?
    ensures FoldView(view, closes + joined + rest, s)
            == FoldView(if joined[0].to == s then ApplyView(view, joined[0].msg) else view, rest, s)
  {
    FoldViewConcat(view, closes + joined, rest, s);
    FoldViewConcat(view, closes, joined, s);
  }

  lemma JoinedListView(peers: Roster, id: string)
    requires peers.Valid()
    ensures (set k | k in Without(peers.order, id)) == peers.entries.Keys - {id}
  {
    hide Without;
    assert forall k :: k in peers.order <==> k in peers.entries by {
      assert forall i :: 0 <= i < |peers.order| ==> peers.order[i] in peers.entries;
    }
  }

  /** Errors, closes and forwarded messages do not touch a view. */
  lemma {:induction false} RefusalView<D>(view: set<string>, effects: seq<Effect<D>>, s: Socket)
    requires forall i :: 0 <= i < |effects|
               ==> effects[i].Send? ==> effects[i].msg.Error? || effects[i].msg.Forwarded?
    ensures FoldView(view, effects, s) == view
    decreases |effects|
  {
    if effects != [] {
      RefusalView(view, effects[1..], s);
    }
  }

  lemma CloseView<D>(st: State, server: Socket, s: Socket, view: set<string>)
    requires Inv(st) && (s in st.sockets ==> view == Others(st, s))
    ensures var (st', effects) := CloseStep<D>(st, server);
            s in st'.sockets ==> FoldView(view, effects, s) == Others(st', s)
  {
    hide Broadcast, Without, IsIdentity;
    var (st', effects) := CloseStep<D>(st, server);
    StepInv<D>(_ => 0, st, Closed(server));
    if s in st'.sockets {
      assert Owns(st, s);
      if server in st.sockets {
        assert Owns(st, server);
        var id := st.sockets[server];
        BroadcastView<D>(st'.peers, st'.peers.order, PeerLeft(id), server, view, s);
        assert Owns(st', s);
        RegisteredHears(st', st'.peers, s);
      }
    }
  }

  lemma StepView<D>(size: D -> nat, st: State, event: Event<D>, s: Socket, view: set<string>)
    requires Inv(st) && (s in st.sockets ==> view == Others(st, s))
    ensures var (st', effects) := Step(size, st, event);
            s in st'.sockets ==> FoldView(view, effects, s) == Others(st', s)
  {
    hide JoinStep, CloseStep, ForwardStep, IsIdentity, FoldView;
    match event
    case Closed(server) => CloseView<D>(st, server, s, view);
    case Message(server, msg, now, stamp) =>
      match msg
      case Join(identity) => JoinView<D>(st, server, identity, now, stamp, s, view);
      case Forward(_, _, _, _) =>
        ForwardEffects(size, st, server, msg, now);
        RefusalView(view, ForwardStep(size, st, server, msg, now).1, s);
      case _ => RefusalView(view, Step(size, st, event).1, s);
  }

  lemma ForwardEffects<D>(size: D -> nat, st: State, server: Socket, msg: ClientMessage<D>, now: int)
    requires msg.Forward?
    ensures var (st', effects) := ForwardStep(size, st, server, msg, now);
            && st'.peers == st.peers && st'.sockets == st.sockets
            && forall i :: 0 <= i < |effects| ==>
                 effects[i].Send? && (effects[i].msg.Error? || effects[i].msg.Forwarded?)
  {
    hide IsIdentity, NextWindow;
  }

  lemma {:induction false} RunView<D>(size: D -> nat, st: State, events: seq<Event<D>>, s: Socket, view: set<string>)
    requires Inv(st) && (s in st.sockets ==> view == Others(st, s))
    ensures var (st', effects) := Run(size, st, events);
            s in st'.sockets ==> FoldView(view, effects, s) == Others(st', s)
    decreases |events|
  {
    hide Step;
    if events != [] {
      StepInv(size, st, events[0]);
      StepView(size, st, events[0], s, view);
      var (next, effects) := Step(size, st, events[0]);
      var rest := Run(size, next, events[1..]).1;
      RunView(size, next, events[1..], s, FoldView(view, effects, s));
      FoldViewConcat(view, effects, rest, s);
    }
  }

  /** In every reachable state, what a registered client was told (its last joined list, plus
      later peer_joined, minus later peer_left) is every identity in the room but its own. */
  lemma ViewsAgree<D>(size: D -> nat, events: seq<Event<D>>, s: Socket, view: set<string>)
    ensures var (st, effects) := Run(size, EMPTY, events);
            s in st.sockets ==> FoldView(view, effects, s) == st.peers.entries.Keys - {st.sockets[s]}
  {
    RunView(size, EMPTY, events, s, view);
  }

  // Forwarding.

  /** When a message is forwarded at all. */
  ghost predicate Forwards<D>(size: D -> nat, st: State, server: Socket, msg: ClientMessage<D>, now: int)
    requires msg.Forward?
  {
    && server in st.sockets && msg.from == Some(st.sockets[server])
    && (msg.kind == Relay ==> NextWindow(st, ByIdentity(st.sockets[server]), now).count <= MAX_RELAY_PER_WINDOW)
    && IsIdentity(msg.to) && msg.to.value in st.peers.entries
    && size(msg.data) <= MAX_MESSAGE_BYTES
  }

  /** An offer, answer or relay reaches exactly the socket that owns its target, once, unchanged,
      under the identity the sending socket owns; or nobody, and then at most the sender hears
      of it. */
  lemma ForwardedFaithfully<D>(size: D -> nat, st: State, server: Socket, msg: ClientMessage<D>, now: int)
    requires Inv(st) && msg.Forward?
    ensures var (st', effects) := ForwardStep(size, st, server, msg, now);
            && st'.peers == st.peers && st'.sockets == st.sockets
            && (Forwards(size, st, server, msg, now) ==>
                  && Owns(st, server)
                  && effects == [Send(st.peers.entries[msg.to.value].ws,
                                      Forwarded(msg.kind, st.sockets[server], msg.data))])
            && (!Forwards(size, st, server, msg, now) ==>
                  && |effects| <= 1
                  && forall i :: 0 <= i < |effects| ==>
                       effects[i].Send? && effects[i].to == server && effects[i].msg.Error?)
  {
    if server in st.sockets {
      assert Owns(st, server);
    }
  }

  /** The later test on the sender's identity never fails: only the target's can. */
  lemma SenderAlwaysValid(st: State, server: Socket, from: Option<string>)
    requires Inv(st) && SenderError(st, server, from) == None
    ensures IsIdentity(from)
  {
    assert Owns(st, server);
  }

  /** Nothing but a forward message is ever forwarded. */
  lemma {:induction false} BroadcastForwardsNothing<D>(
    peers: Roster, order: seq<string>, msg: ServerMessage<D>, exclude: Socket)
    requires forall i :: 0 <= i < |order| ==> order[i] in peers.entries
    ensures forall e :: e in Broadcast(peers, order, msg, exclude) ==> e.Send? && e.to != exclude && e.msg == msg
    decreases |order|
  {
    if order != [] {
      BroadcastForwardsNothing(peers, order[1..], msg, exclude);
    }
  }

  lemma OnlyForwardsForward<D>(size: D -> nat, st: State, event: Event<D>)
    requires Inv(st) && !(event.Message? && event.msg.Forward?)
    ensures forall e :: e in Step(size, st, event).1 ==> e.Send? ==> !e.msg.Forwarded?
  {
    hide Without, IsIdentity;
    match event
    case Closed(server) =>
      if server in st.sockets {
        DeleteValid(st.peers, st.sockets[server]);
        var peers := st.peers.Delete(st.sockets[server]);
        BroadcastForwardsNothing<D>(peers, peers.order, PeerLeft(st.sockets[server]), server);
      }
    case Message(server, msg, now, stamp) =>
      if msg.Join? && IsIdentity(msg.identity) {
        SetValid(st.peers, msg.identity.value, Entry(server, stamp));
        var peers := st.peers.Set(msg.identity.value, Entry(server, stamp));
        BroadcastForwardsNothing<D>(peers, peers.order, PeerJoined(msg.identity.value), server);
      }
  }
}
