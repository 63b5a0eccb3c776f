/** The room on a platform whose WebSocket.send throws on a socket that is closed: the throw
    ends a broadcast, and the handler with it. For which clients that makes no difference,
    and how little it takes to make one. */
module BrokenSends {
  import opened Wrappers
  import opened Protocol
  import opened SignalRoom
  import Props = RoomProperties

  /** shut holds the sockets that were closed, by the room or by the client. */
  datatype Hub = Hub(room: State, shut: set<Socket>)

  const START := Hub(EMPTY, {})

  /** What becomes of effects in order: those before the first send that throws, whether one
      does, and the sockets shut by then. */
  function Delivered<D>(effects: seq<Effect<D>>, shut: set<Socket>): (r: (seq<Effect<D>>, bool, set<Socket>))
    ensures |r.0| <= |effects|
    decreases |effects|
  {
    if effects == [] then ([], false, shut)
    else
      match effects[0]
      case Close(s, _) =>
        var (rest, threw, shut') := Delivered(effects[1..], shut + {s});
        ([effects[0]] + rest, threw, shut')
      case Send(to, _) =>
        if to in shut then ([], true, shut)
        else
          var (rest, threw, shut') := Delivered(effects[1..], shut);
          ([effects[0]] + rest, threw, shut')
  }

  /** A message handler has changed its maps before it first sends; a throw is caught, and
      answered if the sender can hear. The close handler forgets the socket only after its
      broadcast; a throw there is not caught. */
  function Step<D>(size: D -> nat, hub: Hub, event: Event<D>): (Hub, seq<Effect<D>>)
    requires hub.room.peers.Valid()
  {
    var (room, effects) := SignalRoom.Step(size, hub.room, event);
    match event
    case Message(server, _, _, _) =>
      var (sent, threw, shut) := Delivered(effects, hub.shut);
      (Hub(room, shut), if threw && server !in shut then sent + [Send(server, Error("Invalid message"))] else sent)
    case Closed(server) =>
      var (sent, threw, shut) := Delivered(effects, hub.shut + {server});
      (Hub(if threw then room.(sockets := hub.room.sockets, rateLimit := hub.room.rateLimit) else room, shut), sent)
  }

  lemma StepValid<D>(size: D -> nat, hub: Hub, event: Event<D>)
    requires hub.room.peers.Valid()
    ensures Step(size, hub, event).0.room.peers.Valid()
  {
    hide Broadcast, Without, IsIdentity, Delivered;
    match event
    case Closed(server) =>
      if server in hub.room.sockets {
        DeleteValid(hub.room.peers, hub.room.sockets[server]);
      }
    case Message(server, msg, now, stamp) =>
      if msg.Join? && IsIdentity(msg.identity) {
        SetValid(hub.room.peers, msg.identity.value, Entry(server, stamp));
      }
  }

  ghost function Run<D>(size: D -> nat, hub: Hub, events: seq<Event<D>>): (r: (Hub, seq<Effect<D>>))
    requires hub.room.peers.Valid()
    ensures r.0.room.peers.Valid()
    decreases |events|
  {
    if events == [] then (hub, [])
    else
      StepValid(size, hub, events[0]);
      var (next, effects) := Step(size, hub, events[0]);
      var (last, rest) := Run(size, next, events[1..]);
      (last, effects + rest)
  }

  // When a step is the one of a room whose sends never throw.

  function ClosedBy<D>(effects: seq<Effect<D>>): set<Socket> {
    if effects == [] then {}
    else (if effects[0].Close? then {effects[0].socket} else {}) + ClosedBy(effects[1..])
  }

  /** The socket of the i-th send is shut when its turn comes. */
  predicate Fails<D>(effects: seq<Effect<D>>, shut: set<Socket>, i: nat)
    requires i < |effects|
  {
    effects[i].Send? && (effects[i].to in shut || effects[i].to in ClosedBy(effects[..i]))
  }

  /** The first send that fails ends the delivery; without one there is no end. */
  lemma {:induction false} DeliveredExactly<D>(effects: seq<Effect<D>>, shut: set<Socket>)
    ensures var (sent, threw, shut') := Delivered(effects, shut);
            && sent == effects[..|sent|] && shut' == shut + ClosedBy(sent)
            && (threw <==> |sent| < |effects|)
            && (threw ==> Fails(effects, shut, |sent|))
            && (forall i: nat :: i < |sent| ==> !Fails(effects, shut, i))
    decreases |effects|
  {
    if effects != [] && !(effects[0].Send? && effects[0].to in shut) {
      var rest := effects[1..];
      var shut1 := if effects[0].Close? then shut + {effects[0].socket} else shut;
      DeliveredExactly(rest, shut1);
      var sent := Delivered(effects, shut).0;
      assert sent == [effects[0]] + Delivered(rest, shut1).0;
      forall i: nat | 0 < i < |effects|
        ensures Fails(effects, shut, i) <==> Fails(rest, shut1, i - 1)
      {
        assert effects[..i][0] == effects[0] && effects[..i][1..] == rest[..i - 1];
      }
      assert sent[1..] == rest[..|sent| - 1];
    }
  }

  /** A step is the room's own, in state and effects, exactly when no send fails. */
  lemma StepAgrees<D>(size: D -> nat, hub: Hub, event: Event<D>)
    requires hub.room.peers.Valid()
    ensures var (room, effects) := SignalRoom.Step(size, hub.room, event);
            var (hub', sent) := Step(size, hub, event);
            var shut := if event.Closed? then hub.shut + {event.socket} else hub.shut;
            ((hub'.room, sent) == (room, effects) <==> forall i: nat :: i < |effects| ==> !Fails(effects, shut, i))
            && (hub'.room == room && sent == effects ==> hub'.shut == shut + ClosedBy(effects))
  {
    hide SignalRoom.Step, Fails, ClosedBy, Delivered;
    var effects := SignalRoom.Step(size, hub.room, event).1;
    var shut := if event.Closed? then hub.shut + {event.socket} else hub.shut;
    DeliveredExactly(effects, shut);
    var (sent, threw, shut') := Delivered(effects, shut);
    if !threw {
      assert sent == effects;
    } else if event.Message? {
      FailsShut(effects, shut, |sent|);
      assert effects[..|sent|] == sent;
    }
  }

  lemma FailsShut<D>(effects: seq<Effect<D>>, shut: set<Socket>, i: nat)
    requires i < |effects| && Fails(effects, shut, i)
    ensures effects[i].Send? && effects[i].to in shut + ClosedBy(effects[..i])
  {
  }

  lemma {:induction false} ClosedIsClosed<D>(effects: seq<Effect<D>>)
    ensures forall s :: s in ClosedBy(effects) ==> exists code :: Close(s, code) in effects
    decreases |effects|
  {
    if effects != [] {
      ClosedIsClosed(effects[1..]);
      assert effects == [effects[0]] + effects[1..];
      if effects[0].Close? {
        assert Close(effects[0].socket, effects[0].code) in effects;
      }
    }
  }

  /** Nothing is sent to a socket that is shut, or closed by any of the effects. */
  ghost predicate AllHear<D>(effects: seq<Effect<D>>, shut: set<Socket>) {
    forall e, f :: e in effects && f in effects && e.Send? ==> e.to !in shut && (f.Close? ==> f.socket != e.to)
  }

  lemma NoneFails<D>(effects: seq<Effect<D>>, shut: set<Socket>)
    requires AllHear(effects, shut)
    ensures forall i: nat :: i < |effects| ==> !Fails(effects, shut, i)
  {
    hide ClosedBy;
    forall i: nat | i < |effects|
      ensures !Fails(effects, shut, i)
    {
      ClosedIsClosed(effects[..i]);
      assert forall e :: e in effects[..i] ==> e in effects;
      assert effects[i] in effects;
    }
  }

  /** A send that fails in the close handler leaves the closing socket registered and the limiter
      as it was, although its entry is gone and others may not have heard. One that fails in a
      message handler leaves the new state. */
  lemma FailedStep<D>(size: D -> nat, hub: Hub, event: Event<D>)
    requires Props.Inv(hub.room)
    ensures var (room, effects) := SignalRoom.Step(size, hub.room, event);
            var shut := if event.Closed? then hub.shut + {event.socket} else hub.shut;
            var (hub', sent) := Step(size, hub, event);
            (exists i: nat :: i < |effects| && Fails(effects, shut, i)) ==>
              && hub'.room.peers == room.peers
              && (event.Closed? ==>
                    hub'.room.sockets == hub.room.sockets && hub'.room.rateLimit == hub.room.rateLimit)
              && (event.Message? ==> hub'.room == room)
  {
    hide SignalRoom.Step, Fails, ClosedBy, Delivered;
    var effects := SignalRoom.Step(size, hub.room, event).1;
    var shut := if event.Closed? then hub.shut + {event.socket} else hub.shut;
    DeliveredExactly(effects, shut);
  }

  // Clients that use one identity per connection, and are silent once it is closed.

  /** The maps are inverse, nobody's entry is for a shut socket, and each connection is
      registered under its one name. */
  ghost predicate Healthy(hub: Hub, name: Socket -> string) {
    && Props.Inv(hub.room) && Props.TwoWay(hub.room)
    && (forall id :: id in hub.room.peers.entries ==> hub.room.peers.entries[id].ws !in hub.shut)
    && (forall s :: s in hub.room.sockets ==> hub.room.sockets[s] == name(s))
  }

  ghost predicate Faithful<D>(hub: Hub, event: Event<D>, name: Socket -> string) {
    event.Message? ==>
      && event.socket !in hub.shut
      && (event.msg.Join? && IsIdentity(event.msg.identity) ==> event.msg.identity.value == name(event.socket))
  }

  lemma {:induction false} BroadcastTargets<D>(
    peers: Roster, order: seq<string>, msg: ServerMessage<D>, exclude: Socket)
    requires forall i :: 0 <= i < |order| ==> order[i] in peers.entries
    ensures forall e :: e in Broadcast(peers, order, msg, exclude) ==>
              e.Send? && e.to != exclude && exists id :: id in peers.entries && e.to == peers.entries[id].ws
    decreases |order|
  {
    if order != [] {
      BroadcastTargets(peers, order[1..], msg, exclude);
      assert order[0] in peers.entries;
    }
  }

  /** An admitted join closes at most the socket that held the identity, and sends to the
      newcomer and to sockets that have an entry. */
  lemma AdmittedEffects<D>(room: State, server: Socket, id: string, now: int, stamp: int)
    requires Props.Inv(room) && !Props.JoinRefused(room, server, Some(id), now)
    ensures var (room', effects) := JoinStep<D>(room, server, Some(id), now, stamp);
            && room' == Props.Admitted(room, server, id, stamp)
            && forall e :: e in effects ==>
                 || (e.Close? && Holder(room, id, server).Some? && e.socket == Holder(room, id, server).value.ws)
                 || (e.Send? && e.to == server)
                 || (e.Send? && exists k :: k in room'.peers.entries && e.to == room'.peers.entries[k].ws)
  {
    hide Broadcast, Without, IsIdentity;
    var room' := JoinStep<D>(room, server, Some(id), now, stamp).0;
    SetValid(room.peers, id, Entry(server, stamp));
    BroadcastTargets<D>(room'.peers, room'.peers.order, PeerJoined(id), server);
  }

  /** A connection has no entry but the one under its name. */
  lemma OnlyOwn(hub: Hub, name: Socket -> string, s: Socket)
    requires Healthy(hub, name)
    ensures forall id :: id in hub.room.peers.entries && hub.room.peers.entries[id].ws == s ==>
              id == name(s) && s in hub.room.sockets
    ensures s in hub.room.sockets ==>
              name(s) in hub.room.peers.entries && hub.room.peers.entries[name(s)].ws == s
  {
    assert s in hub.room.sockets ==> Props.Owns(hub.room, s);
    assert forall id :: id in hub.room.peers.entries ==> !Props.Orphan(hub.room, id);
  }

  lemma AdmittedState<D>(hub: Hub, name: Socket -> string, server: Socket, id: string, now: int, stamp: int)
    requires Healthy(hub, name) && server !in hub.shut && id == name(server)
    requires !Props.JoinRefused(hub.room, server, Some(id), now)
    ensures var room := Props.Admitted(hub.room, server, id, stamp);
            var gone := if Holder(hub.room, id, server).Some? then {Holder(hub.room, id, server).value.ws} else {};
            Healthy(Hub(room, hub.shut + gone), name) && server !in gone
  {
    hide Broadcast, Without, IsIdentity, Props.Inv, Props.TwoWay, Props.Owns;
    HealthyValid(hub, name);
    Props.JoinInv<D>(hub.room, server, Some(id), now, stamp);
    Props.TwoWayJoin<D>(hub.room, server, id, now, stamp);
    assert JoinStep<D>(hub.room, server, Some(id), now, stamp).0 == Props.Admitted(hub.room, server, id, stamp);
    if Holder(hub.room, id, server).Some? {
      OnlyOwn(hub, name, Holder(hub.room, id, server).value.ws);
    }
  }

  lemma AdmittedHealthy<D>(hub: Hub, name: Socket -> string, server: Socket, id: string, now: int, stamp: int)
    requires Healthy(hub, name) && server !in hub.shut && id == name(server)
    requires !Props.JoinRefused(hub.room, server, Some(id), now)
    ensures var (room, effects) := JoinStep<D>(hub.room, server, Some(id), now, stamp);
            AllHear(effects, hub.shut) && Healthy(Hub(room, hub.shut + ClosedBy(effects)), name)
  {
    hide JoinStep, Props.JoinRefused, Holder, ClosedBy, Props.Inv, Props.TwoWay, Props.Admitted;
    HealthyValid(hub, name);
    AdmittedEffects<D>(hub.room, server, id, now, stamp);
    AdmittedState<D>(hub, name, server, id, now, stamp);
    ClosedIsClosed(JoinStep<D>(hub.room, server, Some(id), now, stamp).1);
  }

  lemma RefusedHealthy<D>(
    hub: Hub, name: Socket -> string, server: Socket, identity: Option<string>, now: int, stamp: int)
    requires Healthy(hub, name) && server !in hub.shut
    requires IsIdentity(identity) ==> identity.value == name(server)
    requires Props.JoinRefused(hub.room, server, identity, now)
    ensures var (room, effects) := JoinStep<D>(hub.room, server, identity, now, stamp);
            && (forall i: nat :: i < |effects| ==> !Fails(effects, hub.shut, i))
            && Healthy(Hub(room, hub.shut + ClosedBy(effects)), name)
  {
    hide Broadcast, Without, IsIdentity;
    var effects := JoinStep<D>(hub.room, server, identity, now, stamp).1;
    assert effects[0].Send? && effects[..0] == [];
    if IsIdentity(identity) {
      OnlyOwn(hub, name, server);
      assert effects[1..] == [Close(server, 1008)] && effects[1..][1..] == [];
      assert ClosedBy(effects[1..]) == {server};
    } else {
      assert effects[1..] == [];
    }
  }

  lemma ClosedHealthy<D>(hub: Hub, name: Socket -> string, server: Socket)
    requires Healthy(hub, name)
    ensures var (room, effects) := CloseStep<D>(hub.room, server);
            && AllHear(effects, hub.shut + {server})
            && Healthy(Hub(room, hub.shut + {server} + ClosedBy(effects)), name)
  {
    hide Broadcast, Without, IsIdentity, ClosedBy, Props.Inv, Props.TwoWay, Props.Owns;
    HealthyValid(hub, name);
    var (room, effects) := CloseStep<D>(hub.room, server);
    Props.CloseInv<D>(hub.room, server);
    Props.TwoWayOther<D>(_ => 0, hub.room, Closed(server));
    OnlyOwn(hub, name, server);
    ClosedIsClosed(effects);
    if server in hub.room.sockets {
      InvValid(room);
      BroadcastTargets<D>(room.peers, room.peers.order, PeerLeft(hub.room.sockets[server]), server);
    }
  }

  lemma ForwardHealthy<D>(
    size: D -> nat, hub: Hub, name: Socket -> string, server: Socket, msg: ClientMessage<D>, now: int)
    requires Healthy(hub, name) && server !in hub.shut && msg.Forward?
    ensures var (room, effects) := ForwardStep(size, hub.room, server, msg, now);
            AllHear(effects, hub.shut) && Healthy(Hub(room, hub.shut + ClosedBy(effects)), name)
  {
    hide ForwardStep, IsIdentity, ClosedBy;
    var (room, effects) := ForwardStep(size, hub.room, server, msg, now);
    Props.ForwardedFaithfully(size, hub.room, server, msg, now);
    ClosedIsClosed(effects);
    assert forall e :: e in effects ==> e == effects[0];
  }

  /** For such clients no send fails, and the room stays so. */
  lemma HealthyStep<D>(size: D -> nat, hub: Hub, event: Event<D>, name: Socket -> string)
    requires Healthy(hub, name) && Faithful(hub, event, name)
    ensures var (hub', sent) := Step(size, hub, event);
            (hub'.room, sent) == SignalRoom.Step(size, hub.room, event) && Healthy(hub', name)
  {
    hide JoinStep, CloseStep, ForwardStep, IsIdentity, Fails, ClosedBy, AllHear, Healthy, Props.JoinRefused;
    assert hub.room.peers.Valid() by { HealthyValid(hub, name); }
    StepAgrees(size, hub, event);
    var effects := SignalRoom.Step(size, hub.room, event).1;
    match event
    case Closed(server) =>
      ClosedHealthy<D>(hub, name, server);
      NoneFails(effects, hub.shut + {server});
    case Message(server, msg, now, stamp) =>
      match msg
      case Join(identity) =>
        if Props.JoinRefused(hub.room, server, identity, now) {
          RefusedHealthy<D>(hub, name, server, identity, now, stamp);
        } else {
          AdmittedIdentity(hub.room, server, identity, now);
          AdmittedHealthy<D>(hub, name, server, identity.value, now, stamp);
          NoneFails(effects, hub.shut);
        }
      case Forward(_, _, _, _) =>
        ForwardHealthy(size, hub, name, server, msg, now);
        NoneFails(effects, hub.shut);
      case _ => ErrorHealthy(size, hub, name, event);
  }

  lemma InvValid(room: State)
    requires Props.Inv(room)
    ensures room.peers.Valid()
  {
  }

  lemma HealthyValid(hub: Hub, name: Socket -> string)
    requires Healthy(hub, name)
    ensures Props.Inv(hub.room) && hub.room.peers.Valid()
  {
  }

  lemma AdmittedIdentity(room: State, server: Socket, identity: Option<string>, now: int)
    requires !Props.JoinRefused(room, server, identity, now)
    ensures identity.Some? && IsIdentity(identity)
  {
  }

  lemma ErrorHealthy<D>(size: D -> nat, hub: Hub, name: Socket -> string, event: Event<D>)
    requires Healthy(hub, name) && event.Message? && event.socket !in hub.shut
    requires event.msg.UnknownType? || event.msg.Malformed?
    ensures var (room, effects) := SignalRoom.Step(size, hub.room, event);
            && (forall i: nat :: i < |effects| ==> !Fails(effects, hub.shut, i))
            && Healthy(Hub(room, hub.shut + ClosedBy(effects)), name)
  {
    hide IsIdentity;
  }

  ghost predicate FaithfulRun<D>(size: D -> nat, hub: Hub, events: seq<Event<D>>, name: Socket -> string)
    requires hub.room.peers.Valid()
    decreases |events|
  {
    events == [] ||
    (Faithful(hub, events[0], name) &&
     (StepValid(size, hub, events[0]); FaithfulRun(size, Step(size, hub, events[0]).0, events[1..], name)))
  }

  lemma {:induction false} HealthyRun<D>(size: D -> nat, hub: Hub, events: seq<Event<D>>, name: Socket -> string)
    requires Healthy(hub, name) && hub.room.peers.Valid() && FaithfulRun(size, hub, events, name)
    ensures var (last, sent) := Run(size, hub, events);
            (last.room, sent) == Props.Run(size, hub.room, events) && Healthy(last, name)
    decreases |events|
  {
    hide Step, SignalRoom.Step, Faithful;
    if events != [] {
      StepValid(size, hub, events[0]);
      HealthyStep(size, hub, events[0], name);
      Props.StepInv(size, hub.room, events[0]);
      HealthyRun(size, Step(size, hub, events[0]).0, events[1..], name);
    }
  }

  /** If every client uses one identity per connection, and sends nothing once it is closed,
      then no send ever throws, and every registered client knows exactly the others. */
  lemma FaithfulViewsAgree<D>(
    size: D -> nat, events: seq<Event<D>>, name: Socket -> string, s: Socket, view: set<string>)
    requires FaithfulRun(size, START, events, name)
    ensures var (hub, sent) := Run(size, START, events);
            && (hub.room, sent) == Props.Run(size, EMPTY, events)
            && (s in hub.room.sockets ==>
                  Props.FoldView(view, sent, s) == hub.room.peers.entries.Keys - {hub.room.sockets[s]})
  {
    HealthyRun(size, START, events, name);
    Props.ViewsAgree(size, events, s, view);
  }

  // A client that asks for a second identity, and is refused, hides newcomers from the others.

  /** If the first entry is for a shut socket, a newcomer is told that its join failed, and
      nobody is told of it, although it has joined. */
  lemma NewcomerHidden<D>(size: D -> nat, hub: Hub, server: Socket, id: string, now: int, stamp: int)
    requires Props.Inv(hub.room) && hub.room.peers.order != []
    requires hub.room.peers.entries[hub.room.peers.order[0]].ws in hub.shut && server !in hub.shut
    requires IsIdentity(Some(id)) && id !in hub.room.peers.entries
    ensures var (hub', sent) := Step(size, hub, Message(server, Join(Some(id)), now, stamp));
            && hub'.room == Props.Admitted(hub.room, server, id, stamp)
            && sent == [Send(server, Joined(Without(hub'.room.peers.order, id))),
                        Send(server, Error("Invalid message"))]
  {
    hide IsIdentity, Without;
    var event: Event<D> := Message(server, Join(Some(id)), now, stamp);
    var (room, effects) := SignalRoom.Step(size, hub.room, event);
    var first: Effect<D> := Send(server, Joined(Without(room.peers.order, id)));
    var ws := hub.room.peers.entries[hub.room.peers.order[0]].ws;
    BroadcastStarts<D>(room.peers, PeerJoined(id), server);
    var rest := Broadcast<D>(room.peers, room.peers.order, PeerJoined(id), server);
    assert effects == [first] + rest && rest[0] == Send(ws, PeerJoined(id));
    assert effects[1..] == rest;
    assert Delivered(rest, hub.shut) == ([], true, hub.shut);
    assert [first] + [] == [first];
    assert Delivered(effects, hub.shut) == ([first], true, hub.shut);
  }

  lemma BroadcastStarts<D>(peers: Roster, msg: ServerMessage<D>, exclude: Socket)
    requires peers.Valid() && peers.order != [] && peers.entries[peers.order[0]].ws != exclude
    ensures var all := Broadcast(peers, peers.order, msg, exclude);
            all != [] && all[0] == Send(peers.entries[peers.order[0]].ws, msg)
  {
  }

  lemma RunCons<D>(size: D -> nat, hub: Hub, event: Event<D>, rest: seq<Event<D>>)
    requires hub.room.peers.Valid()
    ensures Step(size, hub, event).0.room.peers.Valid()
    ensures var (next, sent) := Step(size, hub, event);
            var (last, more) := Run(size, next, rest);
            Run(size, hub, [event] + rest) == (last, sent + more)
    ensures Run(size, hub, []) == (hub, [])
  {
    StepValid(size, hub, event);
    assert ([event] + rest)[1..] == rest;
  }

  lemma {:induction false} RunConcat<D>(size: D -> nat, hub: Hub, a: seq<Event<D>>, b: seq<Event<D>>)
    requires hub.room.peers.Valid()
    ensures var (mid, sent) := Run(size, hub, a);
            var (last, more) := Run(size, mid, b);
            Run(size, hub, a + b) == (last, sent + more)
    decreases |a|
  {
    hide Step;
    if a == [] {
      var more := Run(size, hub, b).1;
      assert a + b == b && [] + more == more;
    } else {
      assert (a + b)[0] == a[0] && (a + b)[1..] == a[1..] + b;
      StepValid(size, hub, a[0]);
      var (next, sent) := Step(size, hub, a[0]);
      RunConcat(size, next, a[1..], b);
      var (mid, more) := Run(size, next, a[1..]);
      var rest := Run(size, mid, b).1;
      assert sent + (more + rest) == (sent + more) + rest;
    }
  }

  function JoinOf<D>(s: Socket, id: string): Event<D> {
    Message(s, Join(Some(id)), 0, 0)
  }

  lemma NewIdentityJoins<D>(size: D -> nat, hub: Hub, name: Socket -> string, server: Socket, id: string)
    requires Healthy(hub, name) && server !in hub.shut && id == name(server)
    requires IsIdentity(Some(id)) && id !in hub.room.peers.entries
    ensures hub.room.peers.Valid()
    ensures var (hub', sent) := Step(size, hub, JoinOf<D>(server, id));
            && hub' == Hub(Props.Admitted(hub.room, server, id, 0), hub.shut) && Healthy(hub', name)
            && sent == SignalRoom.Step(size, hub.room, JoinOf<D>(server, id)).1
  {
    hide Healthy, Step, IsIdentity, JoinStep, Fails, ClosedBy, Props.Admitted;
    HealthyValid(hub, name);
    HealthyStep(size, hub, JoinOf<D>(server, id), name);
    StepAgrees(size, hub, JoinOf<D>(server, id));
    AdmittedEffects<D>(hub.room, server, id, 0, 0);
    ClosedIsClosed(SignalRoom.Step(size, hub.room, JoinOf<D>(server, id)).1);
  }

  function TwoClients<D>(a: string, b: string): seq<Event<D>> {
    [JoinOf(1, a), JoinOf(2, b)]
  }

  function BothIn(a: string, b: string): State {
    State(Roster(map[a := Entry(1, 0), b := Entry(2, 0)], [a, b]), map[1 := a, 2 := b], map[])
  }

  lemma TwoClientsJoin<D>(size: D -> nat, a: string, b: string, view: set<string>)
    requires IsIdentity(Some(a)) && IsIdentity(Some(b)) && a != b
    ensures var (hub, sent) := Run(size, START, TwoClients<D>(a, b));
            && hub == Hub(BothIn(a, b), {}) && Props.Inv(hub.room) && Props.TwoWay(hub.room)
            && Props.FoldView(view, sent, 2) == {a}
  {
    var name := (s: Socket) => if s == 1 then a else b;
    var first: Event<D> := JoinOf(1, a);
    var second: Event<D> := JoinOf(2, b);
    var st1 := Props.Admitted(EMPTY, 1, a, 0);
    assert Props.Admitted(st1, 2, b, 0) == BothIn(a, b);
    assert BothIn(a, b).peers.entries.Keys - {b} == {a};
    assert Healthy(START, name) && st1.peers.entries == map[a := Entry(1, 0)];
    assert TwoClients(a, b) == [first] + ([second] + []);
    FaithfulPair(size, name, a, b);
    hide Step, Run, IsIdentity, Healthy, Props.Admitted, Props.FoldView, Props.Run, FaithfulRun;
    RunCons(size, START, first, [second] + []);
    NewIdentityJoins(size, START, name, 1, a);
    RunCons(size, Hub(st1, {}), second, []);
    NewIdentityJoins(size, Hub(st1, {}), name, 2, b);
    RunCons(size, Hub(BothIn(a, b), {}), second, []);
    HealthyValid(Hub(BothIn(a, b), {}), name);
    FaithfulViewsAgree(size, TwoClients<D>(a, b), name, 2, view);
  }

  lemma FaithfulPair<D>(size: D -> nat, name: Socket -> string, a: string, b: string)
    requires name(1) == a && name(2) == b && a != b && Healthy(START, name)
    requires IsIdentity(Some(a)) && IsIdentity(Some(b))
    ensures FaithfulRun(size, START, TwoClients<D>(a, b), name)
  {
    hide Step, Healthy, IsIdentity;
    var events := TwoClients<D>(a, b);
    NewIdentityJoins(size, START, name, 1, a);
    var hub := Step(size, START, events[0]).0;
    StepValid(size, hub, events[1]);
    assert Faithful(START, events[0], name) && Faithful(hub, events[1], name);
    assert events[1..][0] == events[1] && events[1..][1..] == [];
    assert FaithfulRun(size, Step(size, hub, events[1]).0, [], name);
    assert FaithfulRun(size, hub, events[1..], name);
  }

  /** Client 1 asks for b, which 2 has just joined: it is refused and its socket closed, but its
      own entry stays. From then on nobody hears of a newcomer: 2 knows only a. The maps are
      inverse throughout, so this takes no orphan entry. */
  lemma RefusalHidesNewcomers<D>(size: D -> nat, a: string, b: string, c: string, view: set<string>)
    requires IsIdentity(Some(a)) && IsIdentity(Some(b)) && IsIdentity(Some(c))
    requires a != b && a != c && b != c
    ensures var events := TwoClients<D>(a, b) + [JoinOf(1, b), JoinOf(3, c)];
            var (hub, sent) := Run(size, START, events);
            && Props.Inv(hub.room) && Props.TwoWay(hub.room)
            && 2 in hub.room.sockets && hub.room.sockets[2] == b
            && hub.room.peers.entries.Keys - {b} == {a, c} && Props.FoldView(view, sent, 2) == {a}
  {
    hide IsIdentity, Props.FoldView, Step, Run, BothIn, Props.Inv, Props.TwoWay;
    var hub, shut := Hub(BothIn(a, b), {}), Hub(BothIn(a, b), {1});
    var asks: Event<D> := JoinOf(1, b);
    var comes: Event<D> := JoinOf(3, c);
    TwoClientsJoin(size, a, b, view);
    RefusalShuts(size, a, b);
    ThirdHidden(size, a, b, c);
    var refused := Step(size, hub, asks).1;
    var (last, told) := Step(size, shut, comes);
    RunConcat(size, START, TwoClients<D>(a, b), [asks, comes]);
    assert [asks] + ([comes] + []) == [asks, comes];
    RunCons(size, hub, asks, [comes] + []);
    RunCons(size, shut, comes, []);
    RunCons(size, last, comes, []);
    var sent := Run(size, START, TwoClients<D>(a, b)).1;
    assert refused + (told + []) == refused + told;
    Props.FoldViewConcat(view, sent, refused + told, 2);
    NotTold({a}, refused + told, 2);
  }

  lemma ThirdHidden<D>(size: D -> nat, a: string, b: string, c: string)
    requires IsIdentity(Some(a)) && IsIdentity(Some(b)) && IsIdentity(Some(c))
    requires a != b && a != c && b != c && Props.Inv(BothIn(a, b)) && Props.TwoWay(BothIn(a, b))
    ensures BothIn(a, b).peers.Valid()
    ensures var (hub, sent) := Step(size, Hub(BothIn(a, b), {1}), JoinOf<D>(3, c));
            && hub.room.peers.Valid() && Props.Inv(hub.room) && Props.TwoWay(hub.room)
            && 2 in hub.room.sockets && hub.room.sockets[2] == b
            && hub.room.peers.entries.Keys - {b} == {a, c}
            && forall e :: e in sent ==> !(e.Send? && e.to == 2)
  {
    hide IsIdentity, Step, JoinStep, Props.Inv, Props.TwoWay;
    var st := BothIn(a, b);
    InvValid(st);
    NewcomerHidden(size, Hub(st, {1}), 3, c, 0, 0);
    var room := Props.Admitted(st, 3, c, 0);
    assert room.peers.entries.Keys - {b} == {a, c};
    AdmittedEffects<D>(st, 3, c, 0, 0);
    Props.JoinInv<D>(st, 3, Some(c), 0, 0);
    Props.TwoWayJoin<D>(st, 3, c, 0, 0);
    InvValid(room);
  }

  lemma RefusalShuts<D>(size: D -> nat, a: string, b: string)
    requires IsIdentity(Some(b)) && a != b && Props.Inv(BothIn(a, b))
    ensures var (hub, sent) := Step(size, Hub(BothIn(a, b), {}), JoinOf<D>(1, b));
            hub == Hub(BothIn(a, b), {1}) && forall e :: e in sent ==> !(e.Send? && e.to == 2)
  {
    hide IsIdentity;
    var effects := SignalRoom.Step(size, BothIn(a, b), JoinOf<D>(1, b)).1;
    assert effects == [Send(1, Error("Identity recently joined, try later")), Close(1, 1008)];
    assert effects[1..] == [Close(1, 1008)] && effects[1..][1..] == [];
    var nobody: set<Socket> := {};
    assert nobody + {1} == {1} && Delivered<D>([], {1}) == ([], false, {1});
    assert [effects[1]] + [] == [effects[1]];
    assert Delivered(effects[1..], {}) == ([Close(1, 1008)], false, {1});
  }

  lemma {:induction false} NotTold<D>(view: set<string>, effects: seq<Effect<D>>, s: Socket)
    requires forall e :: e in effects ==> !(e.Send? && e.to == s)
    ensures Props.FoldView(view, effects, s) == view
    decreases |effects|
  {
    if effects != [] {
      assert effects[0] in effects;
      NotTold(view, effects[1..], s);
    }
  }
}
