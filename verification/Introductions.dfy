/** What a join achieves: once its cascade has gone silent, the newcomer and every daemon in
    the room hold a session with each other, and no daemon has dropped its connection. */
module Introductions {
  import opened Wrappers
  import opened Text
  import Hex
  import R = Relay
  import opened PeerManager
  import P = Protocol
  import S = SignalRoom
  import Props = RoomProperties
  import A = RoomAnswers
  import opened Cascade

  /** Nothing in flight that a daemon could fail on: no relay, and every sender an identity. */
  ghost predicate Quiet(sys: Sys) {
    && (forall e :: e in sys.toRoom ==> e.1.Forward? && e.1.kind != P.Relay)
    && (forall e :: e in sys.toDaemons ==> e.1.Forwarded? ==> e.1.kind != P.Relay && S.IsIdentity(Some(e.1.from)))
  }

  lemma {:induction false} HexDigitsDecode(s: string)
    requires |s| % 2 == 0 && forall i :: 0 <= i < |s| ==> Hex.DigitValue(s[i]).Some?
    ensures Hex.Decode(s).Some?
  {
    if s != "" {
      HexDigitsDecode(s[2..]);
    }
  }

  lemma {:induction false} DecodedDigits(s: string)
    requires Hex.Decode(s).Some?
    ensures forall i :: 0 <= i < |s| ==> Hex.DigitValue(s[i]).Some?
  {
    if s != "" {
      DecodedDigits(s[2..]);
      assert forall i :: 2 <= i < |s| ==> s[i] == s[2..][i - 2];
    }
  }

  /** What the room accepts as an identity is exactly what a manager can parse. */
  lemma IdentityParses(s: string)
    ensures S.IsIdentity(Some(s)) <==> R.ParseIdentity(s).Some?
  {
    if S.IsIdentity(Some(s)) {
      HexDigitsDecode(s);
    }
    if R.ParseIdentity(s).Some? {
      DecodedDigits(s);
    }
  }

  /** The name a daemon joins with is one the room admits: here as the first to come. */
  lemma DaemonAdmitted(m: R.Manager, s: S.Socket, now: int, stamp: int)
    requires |m.public| == R.IDENTITY_BYTES
    ensures var (room, effects) := S.JoinStep<Data>(S.EMPTY, s, Some(m.Name()), now, stamp);
            && room.sockets == map[s := m.Name()] && room.peers.entries == map[m.Name() := S.Entry(s, stamp)]
            && effects == [S.Send(s, P.Joined([]))]
  {
    hide S.JoinStep, Hex.Encode, S.IsIdentity;
    R.NameParses(m.public);
    IdentityParses(m.Name());
    A.IdentityExactly(Some(m.Name()));
    var others, notices := A.JoinAdmitted<Data>(S.EMPTY, s, m.Name(), now, stamp);
    var room := S.JoinStep<Data>(S.EMPTY, s, Some(m.Name()), now, stamp).0;
    assert room.peers.entries == map[m.Name() := S.Entry(s, stamp)];
    assert forall t: S.Socket :: A.HasEntry(room.peers, t) ==> t == s;
    assert forall e :: e !in notices;
    NoMembers(notices);
  }

  lemma HasMember<T>(s: seq<T>) returns (x: T)
    requires s != []
    ensures x in s
  {
    x := s[0];
  }

  lemma NoMembers<T>(s: seq<T>)
    requires forall x :: x !in s
    ensures s == []
  {
    if s != [] {
      var x := HasMember(s);
    }
  }

  /** An offer or answer between two registered names reaches the other's socket. */
  lemma IntroductionForwarded(
    env: Env, room: S.State, s: S.Socket, kind: P.Kind, to: string, accepted: bool, now: int, stamp: int)
    requires Props.Inv(room) && s in room.sockets && to in room.peers.entries && kind != P.Relay
    requires env.size(Introduction(accepted)) <= S.MAX_MESSAGE_BYTES
    ensures var from := room.sockets[s];
            S.Step(env.size, room,
                   S.Message(s, P.Forward(kind, Some(from), Some(to), Introduction(accepted)), now, stamp))
            == (room, [S.Send(room.peers.entries[to].ws, P.Forwarded(kind, from, Introduction(accepted)))])
  {
    hide S.ForwardStep, S.IsIdentity;
    A.IdentityExactly(Some(to));
    A.ForwardAnswered(
      env.size, room, s, P.Forward(kind, Some(room.sockets[s]), Some(to), Introduction(accepted)), now);
  }

  lemma RemoveKeeps<T>(s: seq<T>, i: nat)
    requires i < |s|
    ensures forall x :: x in s ==> x == s[i] || x in RemoveAt(s, i)
    ensures forall x :: x in RemoveAt(s, i) ==> x in s
  {
  }

  lemma {:induction false} FromMembers(socket: S.Socket, msgs: seq<ToRoom>)
    ensures forall x :: x in msgs ==> (socket, x) in From(socket, msgs)
    ensures forall e :: e in From(socket, msgs) ==> e.0 == socket && e.1 in msgs
    decreases |msgs|
  {
    if msgs != [] {
      FromMembers(socket, msgs[1..]);
      assert msgs == [msgs[0]] + msgs[1..];
    }
  }

  lemma {:induction false} OffersMembers(m: R.Manager, peers: seq<string>)
    ensures forall p :: p in peers ==> OfferTo(m, p) in PeerManager.Offers(m, peers)
    ensures forall x :: x in PeerManager.Offers(m, peers) ==> exists p :: p in peers && x == OfferTo(m, p)
  {
    if peers != [] {
      OffersMembers(m, peers[1..]);
      assert peers == [peers[0]] + peers[1..];
    }
  }

  /** A message that is no relay, from an identity, never fails, and never costs a session. */
  lemma ReactQuiet(env: Env, m: R.Manager, msg: ToDaemon, nonce: Bytes)
    requires msg.Forwarded? ==> msg.kind != P.Relay && S.IsIdentity(Some(msg.from))
    ensures var (m', result) := React(env.crypto, env.handler, m, msg, nonce);
            && result.Success?
            && m'.Name() == m.Name() && m.sessions.Keys <= m'.sessions.Keys
            && (forall x :: x in result.value ==> x.Forward? && x.kind != P.Relay)
            && (msg.Joined? ==> forall p :: p in msg.peers ==> OfferTo(m, p) in result.value)
            && (msg.PeerJoined? ==> OfferTo(m, msg.identity) in result.value)
            && (msg.Forwarded? ==> msg.from in m'.sessions)
            && (msg.Forwarded? && msg.kind == P.Offer ==> result.value == [AnswerTo(m, msg.from)])
  {
    hide S.IsIdentity, R.ParseIdentity, R.SessionKey, Hex.Encode;
    if msg.Forwarded? {
      IdentityParses(msg.from);
    }
    if msg.Joined? {
      OffersMembers(m, msg.peers);
    }
  }

  lemma RelayKeeps(c: R.Crypto, handler: Handler, m: R.Manager, from: string, data: Data, nonce: Bytes)
    ensures var m' := AnswerRelay(handler, m, from, data, nonce).0;
            && m'.Name() == m.Name() && m'.sessions.Keys == m.sessions.Keys
            && (Keyed(c, m) ==> Keyed(c, m'))
  {
    hide R.SeqnoOf, R.WellFormed, R.Open, R.MakeRelayAd, R.Utf8.Valid, R.BigEndian, R.Frame;
    hide Hex.Encode, R.ParseIdentity, R.SessionKey;
  }

  /** No reaction costs a session, and the keys stay those of the two names. */
  lemma ReactKeeps(env: Env, m: R.Manager, msg: ToDaemon, nonce: Bytes)
    ensures var (m', result) := React(env.crypto, env.handler, m, msg, nonce);
            && m'.Name() == m.Name() && m.sessions.Keys <= m'.sessions.Keys
            && (Keyed(env.crypto, m) ==> Keyed(env.crypto, m'))
            && (result.Success? ==>
                  && (msg.Joined? ==> forall p :: p in msg.peers ==> OfferTo(m, p) in result.value)
                  && (msg.PeerJoined? ==> OfferTo(m, msg.identity) in result.value)
                  && (msg.Forwarded? && msg.kind != P.Relay ==> msg.from in m'.sessions))
  {
    hide AnswerRelay, R.ParseIdentity, R.SessionKey, Hex.Encode;
    if msg.Joined? {
      OffersMembers(m, msg.peers);
    }
    if msg.Forwarded? && msg.kind == P.Relay {
      RelayKeeps(env.crypto, env.handler, m, msg.from, msg.data, nonce);
    }
  }

  /** What the room makes of a quiet message. */
  lemma RoomQuiet(env: Env, room: S.State, socket: S.Socket, msg: ToRoom, now: int, stamp: int)
    requires Props.Inv(room) && msg.Forward? && msg.kind != P.Relay
    ensures var (room', effects) := S.Step(env.size, room, S.Message(socket, msg, now, stamp));
            && room'.peers == room.peers && room'.sockets == room.sockets
            && (forall e :: e in Sends(effects) ==>
                  e.1.Forwarded? ==> e.1.kind == msg.kind && S.IsIdentity(Some(e.1.from)))
            && (Props.Forwards(env.size, room, socket, msg, now) ==>
                  (room.peers.entries[msg.to.value].ws, P.Forwarded(msg.kind, room.sockets[socket], msg.data))
                  in Sends(effects))
  {
    hide S.Step, S.ForwardStep, S.IsIdentity;
    var (room', effects) := S.Step(env.size, room, S.Message(socket, msg, now, stamp));
    StepIsForward(env, room, socket, msg, now, stamp);
    Props.ForwardedFaithfully(env.size, room, socket, msg, now);
    if |effects| == 1 {
      assert effects == [effects[0]];
      assert Sends(effects) == [(effects[0].to, effects[0].msg)];
    }
    if Props.Forwards(env.size, room, socket, msg, now) {
      assert Props.Owns(room, socket);
    }
  }

  lemma StepQuiet(env: Env, sys: Sys, move: Move)
    requires Settled(sys) && Quiet(sys) && Enabled(sys, move)
    ensures var sys' := Step(env, sys, move);
            && Quiet(sys')
            && sys'.room.peers == sys.room.peers && sys'.room.sockets == sys.room.sockets
            && sys'.daemons.Keys == sys.daemons.Keys
            && forall s :: s in sys.daemons ==>
                 sys'.daemons[s].Name() == sys.daemons[s].Name()
                 && sys.daemons[s].sessions.Keys <= sys'.daemons[s].sessions.Keys
  {
    hide React, S.Step, S.IsIdentity, RemoveAt, Sends, From, Hex.Encode;
    match move
    case RoomTakes(i, now, stamp) =>
      RemoveKeeps(sys.toRoom, i);
      RoomQuiet(env, sys.room, sys.toRoom[i].0, sys.toRoom[i].1, now, stamp);
    case DaemonTakes(i, nonce) =>
      RemoveKeeps(sys.toDaemons, i);
      var (socket, msg) := sys.toDaemons[i];
      if socket in sys.daemons {
        ReactQuiet(env, sys.daemons[socket], msg, nonce);
        FromMembers(socket, React(env.crypto, env.handler, sys.daemons[socket], msg, nonce).1.value);
      }
  }

  // One introduction: a daemon offers itself to another.

  datatype Link = Link(fromName: string, fromSock: S.Socket, toName: string, toSock: S.Socket)

  /** Both ends have daemons; the offering one is registered under its own name, and the other
      owns the target identity. */
  ghost predicate Ends(sys: Sys, l: Link) {
    && l.fromSock in sys.daemons && l.toSock in sys.daemons
    && l.fromSock in sys.room.sockets && sys.room.sockets[l.fromSock] == l.fromName
    && sys.daemons[l.fromSock].Name() == l.fromName
    && l.toName in sys.room.peers.entries && sys.room.peers.entries[l.toName].ws == l.toSock
  }

  /** The introduction is under way, or has ended in a session. */
  ghost predicate Linked(sys: Sys, l: Link)
    requires l.toSock in sys.daemons
  {
    || (exists peers :: (l.fromSock, P.Joined(peers)) in sys.toDaemons && l.toName in peers)
    || (l.fromSock, P.PeerJoined(l.toName)) in sys.toDaemons
    || (l.fromSock, P.Forward(P.Offer, Some(l.fromName), Some(l.toName), Introduction(false))) in sys.toRoom
    || (l.toSock, P.Forwarded(P.Offer, l.fromName, Introduction(false))) in sys.toDaemons
    || l.fromName in sys.daemons[l.toSock].sessions
  }

  ghost predicate SmallIntroductions(env: Env) {
    env.size(Introduction(false)) <= S.MAX_MESSAGE_BYTES
  }

  /** The room takes a message that changes no registration. */
  lemma RoomLinked(env: Env, sys: Sys, i: nat, now: int, stamp: int, l: Link)
    requires Props.Inv(sys.room) && Ends(sys, l) && Linked(sys, l) && SmallIntroductions(env)
    requires i < |sys.toRoom|
    ensures Linked(Step(env, sys, RoomTakes(i, now, stamp)), l)
  {
    hide S.Step, S.IsIdentity, RemoveAt, Sends, Hex.Encode;
    var (socket, msg) := sys.toRoom[i];
    var sys' := Step(env, sys, RoomTakes(i, now, stamp));
    RemoveKeeps(sys.toRoom, i);
    assert forall e :: e in sys.toDaemons ==> e in sys'.toDaemons;
    if (socket, msg) == (l.fromSock, P.Forward(P.Offer, Some(l.fromName), Some(l.toName), Introduction(false))) {
      RoomQuiet(env, sys.room, socket, msg, now, stamp);
      assert S.IsIdentity(Some(l.toName));
      assert Props.Forwards(env.size, sys.room, socket, msg, now);
      assert (l.toSock, P.Forwarded(P.Offer, l.fromName, Introduction(false))) in sys'.toDaemons;
    }
  }

  /** A daemon takes a message, and stays. */
  lemma DaemonLinked(env: Env, sys: Sys, i: nat, nonce: Bytes, l: Link)
    requires Props.Inv(sys.room) && Ends(sys, l) && Linked(sys, l) && i < |sys.toDaemons|
    requires var daemons := Step(env, sys, DaemonTakes(i, nonce)).daemons;
             l.fromSock in daemons && l.toSock in daemons
    ensures Linked(Step(env, sys, DaemonTakes(i, nonce)), l)
  {
    hide React, S.IsIdentity, RemoveAt, From, Hex.Encode;
    var (socket, msg) := sys.toDaemons[i];
    var sys' := Step(env, sys, DaemonTakes(i, nonce));
    RemoveKeeps(sys.toDaemons, i);
    assert forall e :: e in sys.toDaemons ==> e == (socket, msg) || e in sys'.toDaemons;
    if socket in sys.daemons {
      ReactKeeps(env, sys.daemons[socket], msg, nonce);
      var result := React(env.crypto, env.handler, sys.daemons[socket], msg, nonce).1;
      if result.Success? {
        FromMembers(socket, result.value);
        assert forall e :: e in sys.toRoom || e in From(socket, result.value) ==> e in sys'.toRoom;
        if socket == l.fromSock && (msg == P.PeerJoined(l.toName) || (msg.Joined? && l.toName in msg.peers)) {
          assert OfferTo(sys.daemons[socket], l.toName) in result.value;
        }
      }
    }
  }

  lemma StepLinked(env: Env, sys: Sys, move: Move, l: Link)
    requires Settled(sys) && Quiet(sys) && Ends(sys, l) && Linked(sys, l) && SmallIntroductions(env)
    requires Enabled(sys, move)
    ensures var sys' := Step(env, sys, move);
            Settled(sys') && Quiet(sys') && Ends(sys', l) && Linked(sys', l)
  {
    assert Props.Inv(sys.room);
    hide Settled, Quiet, Linked, Step, SmallIntroductions, Props.Inv, Hex.Encode;
    StepSettled(env, sys, move);
    StepQuiet(env, sys, move);
    match move
    case RoomTakes(i, now, stamp) =>
      RoomLinked(env, sys, i, now, stamp, l);
    case DaemonTakes(i, nonce) =>
      DaemonLinked(env, sys, i, nonce, l);
  }

  lemma {:induction false} RunLinked(env: Env, sys: Sys, moves: seq<Move>, l: Link)
    requires Settled(sys) && Quiet(sys) && Ends(sys, l) && Linked(sys, l) && SmallIntroductions(env)
    requires Possible(env, sys, moves)
    ensures var last := Run(env, sys, moves);
            && last.daemons.Keys == sys.daemons.Keys
            && (forall s :: s in sys.daemons ==> last.daemons[s].Name() == sys.daemons[s].Name())
            && Linked(last, l)
    decreases |moves|
  {
    hide Quiet, Ends, Linked, Step, SmallIntroductions, Hex.Encode;
    if moves != [] {
      StepLinked(env, sys, moves[0], l);
      StepQuiet(env, sys, moves[0]);
      RunLinked(env, Step(env, sys, moves[0]), moves[1..], l);
    }
  }

  // The introductions a join starts.

  lemma {:induction false} BroadcastReaches(
    peers: S.Roster, order: seq<string>, msg: ToDaemon, exclude: S.Socket, i: nat)
    requires forall k :: 0 <= k < |order| ==> order[k] in peers.entries
    requires i < |order| && peers.entries[order[i]].ws != exclude
    ensures S.Send(peers.entries[order[i]].ws, msg) in S.Broadcast(peers, order, msg, exclude)
    decreases |order|
  {
    if i > 0 {
      BroadcastReaches(peers, order[1..], msg, exclude, i - 1);
    }
  }

  lemma {:induction false} SendsMembers(effects: seq<S.Effect<Data>>)
    ensures forall to: S.Socket, msg: ToDaemon :: S.Send(to, msg) in effects ==> (to, msg) in Sends(effects)
    decreases |effects|
  {
    if effects != [] {
      SendsMembers(effects[1..]);
      assert effects == [effects[0]] + effects[1..];
    }
  }

  /** An accepted join tells the newcomer of every other identity, and its owner of it. */
  lemma JoinTells(room: S.State, server: S.Socket, id: string, now: int, stamp: int, other: string)
    requires Props.Inv(room) && S.IsIdentity(Some(id))
    requires S.Holder(room, id, server).Some? ==> now - room.peers.entries[id].joinedAt >= S.IDENTITY_GRACE_PERIOD_MS
    requires other in S.JoinStep<Data>(room, server, Some(id), now, stamp).0.peers.entries && other != id
    ensures var (room', effects) := S.JoinStep<Data>(room, server, Some(id), now, stamp);
            var ws := room'.peers.entries[other].ws;
            && (server, P.Joined(S.Without(room'.peers.order, id))) in Sends(effects)
            && other in S.Without(room'.peers.order, id)
            && (ws != server ==> (ws, P.PeerJoined(id)) in Sends(effects))
  {
    hide S.IsIdentity, S.Broadcast, S.Without, Sends;
    var (room', effects) := S.JoinStep<Data>(room, server, Some(id), now, stamp);
    SendsMembers(effects);
    S.SetValid(room.peers, id, S.Entry(server, stamp));
    var list: S.Effect<Data> := S.Send(server, P.Joined(S.Without(room'.peers.order, id)));
    assert list in effects;
    var i :| 0 <= i < |room'.peers.order| && room'.peers.order[i] == other;
    if room'.peers.entries[other].ws != server {
      BroadcastReaches(room'.peers, room'.peers.order, P.PeerJoined(id), server, i);
    }
  }

  /** The daemon of an identity is registered under it, as its own name. */
  ghost predicate Represents(sys: Sys, socket: S.Socket, id: string) {
    && socket in sys.daemons && sys.daemons[socket].Name() == id
    && socket in sys.room.sockets && sys.room.sockets[socket] == id
  }

  lemma JoinLinks(
    env: Env, sys: Sys, room: S.State, server: S.Socket, id: string, now: int, stamp: int,
    socket: S.Socket, other: string)
    requires JustJoined(sys, room, server, id, now, stamp) && other != id
    requires Represents(sys, server, id) && Represents(sys, socket, other)
    ensures Settled(sys) && Quiet(sys)
    ensures var there, back := Link(id, server, other, socket), Link(other, socket, id, server);
            Ends(sys, there) && Linked(sys, there) && Ends(sys, back) && Linked(sys, back)
  {
    hide S.IsIdentity, S.JoinStep, S.Without, Sends, Hex.Encode;
    JustJoinedSettled(env, sys, room, server, id, now, stamp);
    assert Props.Owns(sys.room, server) && Props.Owns(sys.room, socket);
    JoinTells(room, server, id, now, stamp, other);
    JoinSends(Total, env.handler, room, server, id, now, stamp);
    var sends := sys.toDaemons;
    assert forall e :: e in sends ==> e.1.Joined? || e.1.PeerJoined? by {
      assert forall k :: 0 <= k < |sends| ==> sends[k].1.Joined? || sends[k].1.PeerJoined?;
    }
  }

  // Every session has the key its two identities determine.

  ghost predicate Keyed(c: R.Crypto, m: R.Manager) {
    && m.public == c.public(m.secret)
    && forall name :: name in m.sessions ==>
         && R.ParseIdentity(name).Some?
         && m.sessions[name].key == R.SessionKey(c, m.secret, m.public, R.ParseIdentity(name).value)
  }

  ghost predicate AllKeyed(env: Env, sys: Sys) {
    forall s :: s in sys.daemons ==> Keyed(env.crypto, sys.daemons[s])
  }

  lemma StepKeyed(env: Env, sys: Sys, move: Move)
    requires sys.room.peers.Valid() && AllKeyed(env, sys) && Enabled(sys, move)
    ensures AllKeyed(env, Step(env, sys, move))
  {
    hide React, S.Step, RemoveAt, Sends, From, Keyed, Hex.Encode;
    if move.DaemonTakes? {
      var (socket, msg) := sys.toDaemons[move.i];
      if socket in sys.daemons {
        ReactKeeps(env, sys.daemons[socket], msg, move.nonce);
      }
    }
  }

  lemma {:induction false} RunKeyed(env: Env, sys: Sys, moves: seq<Move>)
    requires Settled(sys) && Quiet(sys) && AllKeyed(env, sys) && Possible(env, sys, moves)
    ensures AllKeyed(env, Run(env, sys, moves))
    decreases |moves|
  {
    hide Quiet, AllKeyed, Step;
    if moves != [] {
      StepSettled(env, sys, moves[0]);
      StepQuiet(env, sys, moves[0]);
      StepKeyed(env, sys, moves[0]);
      RunKeyed(env, Step(env, sys, moves[0]), moves[1..]);
    }
  }

  /** Two keyed managers that know each other by name share one key. */
  lemma KeyedAgree(c: R.Crypto, a: R.Manager, b: R.Manager)
    requires R.DiffieHellman(c) && Keyed(c, a) && Keyed(c, b)
    requires b.Name() in a.sessions && a.Name() in b.sessions
    ensures a.sessions[b.Name()].key == b.sessions[a.Name()].key
  {
    hide Hex.Encode, R.ParseIdentity, R.SessionKey;
    R.NameParses(a.public);
    R.NameParses(b.public);
    R.KeysAgree(c, a.secret, b.secret);
  }

  /** After one accepted join has gone silent, the newcomer and the daemon of every other
      identity hold a session with each other, under one key, and every daemon is still
      connected. */
  lemma JoinIntroduces(
    env: Env, sys: Sys, room: S.State, server: S.Socket, id: string, now: int, stamp: int,
    moves: seq<Move>, socket: S.Socket, other: string)
    requires R.DiffieHellman(env.crypto) && SmallIntroductions(env) && AllKeyed(env, sys)
    requires JustJoined(sys, room, server, id, now, stamp)
    requires Settled(sys) && Possible(env, sys, moves)
    requires Represents(sys, server, id) && Represents(sys, socket, other) && other != id
    requires Run(env, sys, moves).toRoom == [] && Run(env, sys, moves).toDaemons == []
    ensures var daemons := Run(env, sys, moves).daemons;
            && daemons.Keys == sys.daemons.Keys
            && id in daemons[socket].sessions && other in daemons[server].sessions
            && daemons[socket].sessions[id].key == daemons[server].sessions[other].key
  {
    hide Settled, Quiet, Ends, Possible, Run, JustJoined, SmallIntroductions, R.DiffieHellman, Keyed, Hex.Encode;
    JoinLinks(env, sys, room, server, id, now, stamp, socket, other);
    RunLinked(env, sys, moves, Link(id, server, other, socket));
    RunLinked(env, sys, moves, Link(other, socket, id, server));
    RunKeyed(env, sys, moves);
    var daemons := Run(env, sys, moves).daemons;
    KeyedAgree(env.crypto, daemons[server], daemons[socket]);
  }
}
