/** Daemons that come and go while introductions are under way: in any run with joins, relays,
    lost connections and messages of strangers interleaved, whoever is registered once nothing
    is in flight holds a session with everyone else who is. */
module Churn {
  import opened Wrappers
  import opened Text
  import Hex
  import R = Relay
  import opened PeerManager
  import P = Protocol
  import S = SignalRoom
  import Props = RoomProperties
  import opened Cascade
  import opened Introductions

  datatype Event =
    | Take(move: Move)
    // a daemon opens a connection and sends its join, with the sessions it has from before
    | Connect(socket: S.Socket, manager: R.Manager)
    // any message from any connection
    | Speak(socket: S.Socket, msg: ToRoom)
    // a daemon's end of the connection is gone; the room has not noticed
    | Drop(socket: S.Socket)
    // the room's close handler runs
    | Lose(socket: S.Socket)

  const START := Sys(S.EMPTY, map[], [], [])

  ghost predicate Allowed(env: Env, sys: Sys, event: Event) {
    match event
    case Take(move) => Enabled(sys, move)
    case Connect(s, m) => s !in sys.daemons && s !in sys.room.sockets && Keyed(env.crypto, m)
    case _ => true
  }

  function Next(env: Env, sys: Sys, event: Event): Sys
    requires sys.room.peers.Valid() && (event.Take? ==> Enabled(sys, event.move))
  {
    match event
    case Take(move) => Cascade.Step(env, sys, move)
    case Connect(s, m) =>
      sys.(daemons := sys.daemons[s := m], toRoom := sys.toRoom + [(s, P.Join(Some(m.Name())))])
    case Speak(s, msg) => sys.(toRoom := sys.toRoom + [(s, msg)])
    case Drop(s) => sys.(daemons := sys.daemons - {s})
    case Lose(s) =>
      var (room, effects) := S.CloseStep<Data>(sys.room, s);
      Sys(room, sys.daemons - {s}, sys.toRoom, sys.toDaemons + Sends(effects))
  }

  /** The connection is registered in the room under the name of its daemon. */
  predicate Live(sys: Sys, s: S.Socket) {
    s in sys.daemons && s in sys.room.sockets && sys.room.sockets[s] == sys.daemons[s].Name()
  }

  function LinkOf(sys: Sys, s: S.Socket, t: S.Socket): Link
    requires s in sys.room.sockets && t in sys.room.sockets
  {
    Link(sys.room.sockets[s], s, sys.room.sockets[t], t)
  }

  /** Of any two live connections, each is being introduced to the other or has been. */
  ghost predicate AllLinked(sys: Sys) {
    forall s, t :: Live(sys, s) && Live(sys, t) && s != t ==> Linked(sys, LinkOf(sys, s, t))
  }

  ghost predicate Good(env: Env, sys: Sys) {
    Props.Inv(sys.room) && AllKeyed(env, sys) && AllLinked(sys)
  }

  // Introductions are never lost.

  lemma LinkedGrows(sys: Sys, sys': Sys, l: Link)
    requires l.toSock in sys.daemons && l.toSock in sys'.daemons && Linked(sys, l)
    requires forall e :: e in sys.toRoom ==> e in sys'.toRoom
    requires forall e :: e in sys.toDaemons ==> e in sys'.toDaemons
    requires sys.daemons[l.toSock].sessions.Keys <= sys'.daemons[l.toSock].sessions.Keys
    ensures Linked(sys', l)
  {
  }

  /** What an admitted join changes: the newcomer is registered, nobody else comes in. */
  lemma AdmittedJoin(
    env: Env, sys: Sys, i: nat, now: int, stamp: int, s: S.Socket, t: S.Socket, id: string)
    requires Props.Inv(sys.room) && i < |sys.toRoom| && sys.toRoom[i].1 == P.Join(Some(id))
    requires !Props.JoinRefused(sys.room, sys.toRoom[i].0, Some(id), now)
    requires var sys' := Cascade.Step(env, sys, RoomTakes(i, now, stamp)); Live(sys', s) && Live(sys', t) && s != t
    ensures var sys' := Cascade.Step(env, sys, RoomTakes(i, now, stamp));
            && (s == sys.toRoom[i].0 || t == sys.toRoom[i].0 ==> Linked(sys', LinkOf(sys', s, t)))
            && (s != sys.toRoom[i].0 && t != sys.toRoom[i].0 ==>
                  Live(sys, s) && Live(sys, t) && LinkOf(sys', s, t) == LinkOf(sys, s, t))
  {
    hide S.IsIdentity, S.JoinStep, S.Without, Sends, Hex.Encode, RemoveAt, Props.JoinRefused;
    var server := sys.toRoom[i].0;
    var sys' := Cascade.Step(env, sys, RoomTakes(i, now, stamp));
    var event: S.Event<Data> := S.Message(server, P.Join(Some(id)), now, stamp);
    Props.StepMaps(env.size, sys.room, event);
    Props.StepInv(env.size, sys.room, event);
    assert Props.Owns(sys'.room, s) && Props.Owns(sys'.room, t);
    if s == server || t == server {
      var other := if s == server then t else s;
      JoinAdmits(sys.room, server, id, now);
      JoinTells(sys.room, server, id, now, stamp, sys'.room.sockets[other]);
    }
  }

  lemma JoinAdmits(room: S.State, server: S.Socket, id: string, now: int)
    requires !Props.JoinRefused(room, server, Some(id), now)
    ensures S.IsIdentity(Some(id))
    ensures S.Holder(room, id, server).Some? ==> now - room.peers.entries[id].joinedAt >= S.IDENTITY_GRACE_PERIOD_MS
  {
    hide S.IsIdentity;
  }

  lemma LiveEnds(sys: Sys, s: S.Socket, t: S.Socket)
    requires Props.Inv(sys.room) && Live(sys, s) && Live(sys, t)
    ensures Ends(sys, LinkOf(sys, s, t))
  {
    hide Hex.Encode, S.IsIdentity;
    assert Props.Owns(sys.room, t);
  }

  lemma RoomPair(env: Env, sys: Sys, i: nat, now: int, stamp: int, s: S.Socket, t: S.Socket)
    requires Props.Inv(sys.room) && AllLinked(sys) && SmallIntroductions(env) && i < |sys.toRoom|
    requires var sys' := Cascade.Step(env, sys, RoomTakes(i, now, stamp)); Live(sys', s) && Live(sys', t) && s != t
    ensures var sys' := Cascade.Step(env, sys, RoomTakes(i, now, stamp)); Linked(sys', LinkOf(sys', s, t))
  {
    hide S.Step, S.IsIdentity, RemoveAt, Sends, Hex.Encode, Linked, Ends, SmallIntroductions, Props.JoinRefused;
    var (server, msg) := sys.toRoom[i];
    var sys' := Cascade.Step(env, sys, RoomTakes(i, now, stamp));
    Props.StepMaps(env.size, sys.room, S.Message(server, msg, now, stamp));
    if msg.Join? && !Props.JoinRefused(sys.room, server, msg.identity, now) {
      AdmittedIdentity(sys.room, server, msg.identity, now);
      AdmittedJoin(env, sys, i, now, stamp, s, t, msg.identity.value);
      if s != server && t != server {
        LiveEnds(sys, s, t);
        JoinKeepsLink(env, sys, i, now, stamp, LinkOf(sys, s, t));
      }
    } else {
      LiveEnds(sys, s, t);
      RoomLinked(env, sys, i, now, stamp, LinkOf(sys, s, t));
    }
  }

  lemma AdmittedIdentity(room: S.State, server: S.Socket, identity: Option<string>, now: int)
    requires !Props.JoinRefused(room, server, identity, now)
    ensures identity.Some?
  {
  }

  lemma JoinKeepsLink(env: Env, sys: Sys, i: nat, now: int, stamp: int, l: Link)
    requires sys.room.peers.Valid() && i < |sys.toRoom| && sys.toRoom[i].1.Join?
    requires l.toSock in sys.daemons && Linked(sys, l)
    ensures Linked(Cascade.Step(env, sys, RoomTakes(i, now, stamp)), l)
  {
    hide S.Step, RemoveAt, Sends;
    RemoveKeeps(sys.toRoom, i);
  }

  lemma DaemonPair(env: Env, sys: Sys, i: nat, nonce: Bytes, s: S.Socket, t: S.Socket)
    requires Props.Inv(sys.room) && AllLinked(sys) && i < |sys.toDaemons|
    requires var sys' := Cascade.Step(env, sys, DaemonTakes(i, nonce)); Live(sys', s) && Live(sys', t) && s != t
    ensures var sys' := Cascade.Step(env, sys, DaemonTakes(i, nonce)); Linked(sys', LinkOf(sys', s, t))
  {
    hide React, S.IsIdentity, RemoveAt, From, Hex.Encode, Linked, Ends;
    var (socket, msg) := sys.toDaemons[i];
    if socket in sys.daemons {
      ReactKeeps(env, sys.daemons[socket], msg, nonce);
    }
    LiveEnds(sys, s, t);
    DaemonLinked(env, sys, i, nonce, LinkOf(sys, s, t));
  }

  /** A connection that opens, speaks or is lost leaves the other introductions alone. */
  lemma OtherPair(env: Env, sys: Sys, event: Event, s: S.Socket, t: S.Socket)
    requires Props.Inv(sys.room) && AllLinked(sys) && Allowed(env, sys, event) && !event.Take?
    requires var sys' := Next(env, sys, event); Live(sys', s) && Live(sys', t) && s != t
    ensures var sys' := Next(env, sys, event); Linked(sys', LinkOf(sys', s, t))
  {
    hide S.CloseStep, S.IsIdentity, Sends, Hex.Encode, Linked, Keyed;
    if event.Lose? {
      Props.StepMaps<Data>(env.size, sys.room, S.Closed(event.socket));
      CloseIsStep(env, sys.room, event.socket);
    }
    LinkedGrows(sys, Next(env, sys, event), LinkOf(sys, s, t));
  }

  lemma CloseIsStep(env: Env, room: S.State, s: S.Socket)
    requires room.peers.Valid()
    ensures S.Step<Data>(env.size, room, S.Closed(s)) == S.CloseStep<Data>(room, s)
  {
  }

  /** Any event at all keeps every pair of live connections linked. */
  lemma NextLinked(env: Env, sys: Sys, event: Event)
    requires Props.Inv(sys.room) && AllLinked(sys) && SmallIntroductions(env) && Allowed(env, sys, event)
    ensures AllLinked(Next(env, sys, event))
  {
    hide Linked, SmallIntroductions, Cascade.Step, Live;
    var sys' := Next(env, sys, event);
    forall s, t | Live(sys', s) && Live(sys', t) && s != t
      ensures s in sys'.room.sockets && t in sys'.room.sockets && t in sys'.daemons
      ensures Linked(sys', LinkOf(sys', s, t))
    {
      LivePair(sys', s, t);
      match event
      case Take(RoomTakes(i, now, stamp)) => RoomPair(env, sys, i, now, stamp, s, t);
      case Take(DaemonTakes(i, nonce)) => DaemonPair(env, sys, i, nonce, s, t);
      case _ => OtherPair(env, sys, event, s, t);
    }
  }

  lemma LivePair(sys: Sys, s: S.Socket, t: S.Socket)
    requires Live(sys, s) && Live(sys, t)
    ensures s in sys.room.sockets && t in sys.room.sockets && t in sys.daemons
  {
  }

  lemma NextKeyed(env: Env, sys: Sys, event: Event)
    requires sys.room.peers.Valid() && AllKeyed(env, sys) && Allowed(env, sys, event)
    ensures AllKeyed(env, Next(env, sys, event))
  {
    hide Cascade.Step, S.CloseStep, Sends, Keyed, Hex.Encode;
    if event.Take? {
      StepKeyed(env, sys, event.move);
    }
  }

  lemma NextInv(env: Env, sys: Sys, event: Event)
    requires Props.Inv(sys.room) && Allowed(env, sys, event)
    ensures Props.Inv(Next(env, sys, event).room)
  {
    hide React, S.Step, S.CloseStep, RemoveAt, Sends, From, Keyed, Props.Owns, S.IsIdentity;
    match event
    case Take(RoomTakes(i, now, stamp)) =>
      Props.StepInv(env.size, sys.room, S.Message(sys.toRoom[i].0, sys.toRoom[i].1, now, stamp));
    case Lose(s) =>
      Props.StepInv<Data>(env.size, sys.room, S.Closed(s));
      CloseIsStep(env, sys.room, s);
    case _ =>
  }

  lemma NextGood(env: Env, sys: Sys, event: Event)
    requires Good(env, sys) && SmallIntroductions(env) && Allowed(env, sys, event)
    ensures Good(env, Next(env, sys, event))
  {
    hide Next, AllLinked, AllKeyed, SmallIntroductions;
    NextInv(env, sys, event);
    NextKeyed(env, sys, event);
    NextLinked(env, sys, event);
  }

  // Runs.

  ghost predicate Happens(env: Env, sys: Sys, events: seq<Event>)
    requires Good(env, sys) && SmallIntroductions(env)
    decreases |events|
  {
    events == [] ||
    (Allowed(env, sys, events[0]) &&
     (NextGood(env, sys, events[0]); Happens(env, Next(env, sys, events[0]), events[1..])))
  }

  ghost function After(env: Env, sys: Sys, events: seq<Event>): (r: Sys)
    requires Good(env, sys) && SmallIntroductions(env) && Happens(env, sys, events)
    ensures Good(env, r)
    decreases |events|
  {
    if events == [] then sys
    else
      NextGood(env, sys, events[0]);
      After(env, Next(env, sys, events[0]), events[1..])
  }

  // Silence is always within reach, so the theorem below is never idle.

  lemma TakeFirst(env: Env, sys: Sys) returns (move: Move)
    requires RepliesEnd(env.handler) && Good(env, sys) && (sys.toRoom != [] || sys.toDaemons != [])
    ensures Enabled(sys, move)
    ensures var sys' := Next(env, sys, Take(move));
            if Settled(sys) then Settled(sys') && InFlight(env, Total, sys') < InFlight(env, Total, sys)
            else |sys'.toRoom| < |sys.toRoom|
  {
    hide AllLinked, AllKeyed, React, S.Step, Sends, From, RepliesEnd, InFlight;
    move := if sys.toRoom != [] then RoomTakes(0, 0, 0) else DaemonTakes(0, []);
    if Settled(sys) {
      StepSettled(env, sys, move);
      StepCost(env, Total, sys, move);
    }
  }

  /** From every state of every run, the room and the daemons only have to take what is in
      flight: then there is silence. */
  lemma {:induction false} SilenceInReach(env: Env, sys: Sys) returns (events: seq<Event>)
    requires RepliesEnd(env.handler) && Good(env, sys) && SmallIntroductions(env)
    ensures Happens(env, sys, events) && forall i :: 0 <= i < |events| ==> events[i].Take?
    ensures After(env, sys, events).toRoom == [] && After(env, sys, events).toDaemons == []
    decreases if Settled(sys) then 0 else 1, if Settled(sys) then InFlight(env, Total, sys) else |sys.toRoom|
  {
    hide Next, Good, Settled, InFlight, RepliesEnd, SmallIntroductions;
    if sys.toRoom == [] && sys.toDaemons == [] {
      events := [];
    } else {
      GoodRoom(env, sys);
      var move := TakeFirst(env, sys);
      NextGood(env, sys, Take(move));
      var rest := SilenceInReach(env, Next(env, sys, Take(move)));
      events := [Take(move)] + rest;
      assert events[1..] == rest;
    }
  }

  lemma GoodRoom(env: Env, sys: Sys)
    requires Good(env, sys)
    ensures sys.room.peers.Valid()
  {
  }

  // From the empty room.

  lemma StartGood(env: Env)
    ensures Good(env, START)
  {
  }

  ghost predicate CanHappen(env: Env, events: seq<Event>)
    requires SmallIntroductions(env)
  {
    StartGood(env);
    Happens(env, START, events)
  }

  ghost function Outcome(env: Env, events: seq<Event>): Sys
    requires SmallIntroductions(env) && CanHappen(env, events)
  {
    StartGood(env);
    After(env, START, events)
  }

  /** A daemon that connects and whose join the room takes is live. */
  lemma JoinedLive(env: Env, s: S.Socket, m: R.Manager, now: int, stamp: int)
    requires |m.public| == R.IDENTITY_BYTES && Keyed(env.crypto, m)
    ensures Allowed(env, START, Connect(s, m))
    ensures var connected := Next(env, START, Connect(s, m));
            && Allowed(env, connected, Take(RoomTakes(0, now, stamp)))
            && Live(Next(env, connected, Take(RoomTakes(0, now, stamp))), s)
  {
    hide S.JoinStep, Hex.Encode, Keyed;
    DaemonAdmitted(m, s, now, stamp);
  }

  /** Whatever happened, once nothing is in flight every two connections that are registered
      under the names of their daemons have a session with each other, under one key. */
  lemma EveryoneIntroduced(env: Env, events: seq<Event>, s: S.Socket, t: S.Socket)
    requires R.DiffieHellman(env.crypto) && SmallIntroductions(env) && CanHappen(env, events)
    requires var sys := Outcome(env, events);
             sys.toRoom == [] && sys.toDaemons == [] && Live(sys, s) && Live(sys, t) && s != t
    ensures var daemons := Outcome(env, events).daemons;
            var a, b := daemons[s], daemons[t];
            && b.Name() in a.sessions && a.Name() in b.sessions
            && a.sessions[b.Name()].key == b.sessions[a.Name()].key
  {
    hide Happens, After, SmallIntroductions, R.DiffieHellman, Keyed, Hex.Encode;
    StartGood(env);
    var sys := Outcome(env, events);
    assert Linked(sys, LinkOf(sys, s, t)) && Linked(sys, LinkOf(sys, t, s));
    KeyedAgree(env.crypto, sys.daemons[s], sys.daemons[t]);
  }
}
