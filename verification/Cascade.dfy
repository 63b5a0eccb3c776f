/** Daemons and the room together: what one join, or one relayed request, sets off, and that
    it ends. Messages in flight are taken in any order, by the room or by the daemon they are
    for; nobody joins or leaves meanwhile. */
module Cascade {
  import opened Wrappers
  import opened Text
  import Hex
  import R = Relay
  import opened PeerManager
  import P = Protocol
  import S = SignalRoom
  import Props = RoomProperties

  datatype Env = Env(crypto: R.Crypto, handler: Handler, size: Data -> nat)

  datatype Sys = Sys(
    room: S.State,
    daemons: map<S.Socket, R.Manager>,
    toRoom: seq<(S.Socket, ToRoom)>,
    toDaemons: seq<(S.Socket, ToDaemon)>)

  datatype Move =
    | RoomTakes(i: nat, now: int, stamp: int)
    | DaemonTakes(i: nat, nonce: Bytes)

  function RemoveAt<T>(s: seq<T>, i: nat): seq<T>
    requires i < |s|
  {
    s[..i] + s[i + 1..]
  }

  function Sends(effects: seq<S.Effect<Data>>): seq<(S.Socket, ToDaemon)>
    decreases |effects|
  {
    if effects == [] then []
    else if effects[0].Send? then [(effects[0].to, effects[0].msg)] + Sends(effects[1..])
    else Sends(effects[1..])
  }

  function From(socket: S.Socket, msgs: seq<ToRoom>): seq<(S.Socket, ToRoom)>
    decreases |msgs|
  {
    if msgs == [] then [] else [(socket, msgs[0])] + From(socket, msgs[1..])
  }

  predicate Enabled(sys: Sys, move: Move) {
    match move
    case RoomTakes(i, _, _) => i < |sys.toRoom|
    case DaemonTakes(i, _) => i < |sys.toDaemons|
  }

  /** What the daemons put into flight in one move: nothing when the room moves, when the
      socket has no daemon any more, or when the daemon ends the connection on an error. */
  function Emitted(env: Env, sys: Sys, move: Move): seq<ToRoom>
    requires Enabled(sys, move)
  {
    match move
    case RoomTakes(_, _, _) => []
    case DaemonTakes(i, nonce) =>
      var (socket, msg) := sys.toDaemons[i];
      if socket !in sys.daemons then []
      else
        match React(env.crypto, env.handler, sys.daemons[socket], msg, nonce).1
        case Success(msgs) => msgs
        case Failure(_) => []
  }

  function Step(env: Env, sys: Sys, move: Move): Sys
    requires Enabled(sys, move) && sys.room.peers.Valid()
  {
    match move
    case RoomTakes(i, now, stamp) =>
      var (socket, msg) := sys.toRoom[i];
      var (room, effects) := S.Step(env.size, sys.room, S.Message(socket, msg, now, stamp));
      sys.(room := room, toRoom := RemoveAt(sys.toRoom, i), toDaemons := sys.toDaemons + Sends(effects))
    case DaemonTakes(i, nonce) =>
      var (socket, msg) := sys.toDaemons[i];
      var rest := sys.(toDaemons := RemoveAt(sys.toDaemons, i));
      if socket !in sys.daemons then rest
      else
        var (m, result) := React(env.crypto, env.handler, sys.daemons[socket], msg, nonce);
        if result.Failure? then rest.(daemons := sys.daemons - {socket})
        else rest.(daemons := sys.daemons[socket := m], toRoom := sys.toRoom + From(socket, result.value))
  }

  /** What a daemon puts into flight is sent from its socket, and is all that is. */
  lemma EmittedSent(env: Env, sys: Sys, i: nat, nonce: Bytes)
    requires i < |sys.toDaemons| && sys.room.peers.Valid()
    ensures Step(env, sys, DaemonTakes(i, nonce)).toRoom
            == sys.toRoom + From(sys.toDaemons[i].0, Emitted(env, sys, DaemonTakes(i, nonce)))
  {
    hide React;
    assert sys.toRoom + [] == sys.toRoom;
  }

  // What a message in flight can still cost.

  /** Total counts moves; the others count messages of a kind that daemons put into flight. */
  datatype Measure = Total | Offers | Answers | Relays

  /** Whether a sealed payload, once opened, gets a reply. */
  predicate GetsReply(handler: Handler, data: Data) {
    match EnvelopeOf(data)
    case Failure(_) => false
    case Success(envelope) =>
      && envelope.ciphertext.Some?
      && var ciphertext := envelope.ciphertext.value;
      && ciphertext.Sealed? && |ciphertext.plain| >= R.SEQNO_BYTES
      && var handled := handler(ciphertext.plain[R.SEQNO_BYTES..]);
         handled.Success? && handled.value.Some?
  }

  function RelayCost(measure: Measure, handler: Handler, data: Data): nat {
    match measure
    case Total => if GetsReply(handler, data) then 3 else 1
    case Relays => if GetsReply(handler, data) then 1 else 0
    case _ => 0
  }

  function DaemonCost(measure: Measure, handler: Handler, msg: ToDaemon): nat {
    match msg
    case Joined(peers) =>
      (match measure case Total => 1 + 4 * |peers| case Relays => 0 case _ => |peers|)
    case PeerJoined(_) =>
      (match measure case Total => 5 case Relays => 0 case _ => 1)
    case Forwarded(Offer, _, _) =>
      (match measure case Total => 3 case Answers => 1 case _ => 0)
    case Forwarded(Relay, _, data) => RelayCost(measure, handler, data)
    case _ => if measure == Total then 1 else 0
  }

  /** A message to the room costs one move more than what the room may make of it; joins are
      outside a cascade. */
  function RoomCost(measure: Measure, handler: Handler, msg: ToRoom): nat {
    var move := if measure == Total then 1 else 0;
    match msg
    case Forward(kind, _, _, data) => move + DaemonCost(measure, handler, P.Forwarded(kind, "", data))
    case _ => 2 * move
  }

  function DaemonSum(measure: Measure, handler: Handler, s: seq<(S.Socket, ToDaemon)>): nat {
    if s == [] then 0 else DaemonCost(measure, handler, s[0].1) + DaemonSum(measure, handler, s[1..])
  }

  function RoomSum(measure: Measure, handler: Handler, s: seq<(S.Socket, ToRoom)>): nat {
    if s == [] then 0 else RoomCost(measure, handler, s[0].1) + RoomSum(measure, handler, s[1..])
  }

  function InFlight(env: Env, measure: Measure, sys: Sys): nat {
    RoomSum(measure, env.handler, sys.toRoom) + DaemonSum(measure, env.handler, sys.toDaemons)
  }

  function KindCount(kind: P.Kind, msgs: seq<ToRoom>): nat {
    if msgs == [] then 0
    else (if msgs[0].Forward? && msgs[0].kind == kind then 1 else 0) + KindCount(kind, msgs[1..])
  }

  lemma {:induction false} KindCounted(kind: P.Kind, a: seq<ToRoom>, b: seq<ToRoom>, msg: ToRoom)
    ensures KindCount(kind, a + b) == KindCount(kind, a) + KindCount(kind, b)
    ensures KindCount(kind, [msg]) == if msg.Forward? && msg.kind == kind then 1 else 0
  {
    assert [msg][1..] == [];
    if a == [] {
      assert a + b == b;
    } else {
      assert (a + b)[0] == a[0] && (a + b)[1..] == a[1..] + b;
      KindCounted(kind, a[1..], b, msg);
    }
  }

  function Produced(measure: Measure, emitted: seq<ToRoom>): nat {
    match measure
    case Total => 1
    case Offers => KindCount(P.Offer, emitted)
    case Answers => KindCount(P.Answer, emitted)
    case Relays => KindCount(P.Relay, emitted)
  }

  lemma {:induction false} DaemonSumConcat(
    measure: Measure, handler: Handler, a: seq<(S.Socket, ToDaemon)>, b: seq<(S.Socket, ToDaemon)>)
    ensures DaemonSum(measure, handler, a + b) == DaemonSum(measure, handler, a) + DaemonSum(measure, handler, b)
  {
    hide DaemonCost;
    if a == [] {
      assert a + b == b;
    } else {
      assert (a + b)[1..] == a[1..] + b;
      DaemonSumConcat(measure, handler, a[1..], b);
    }
  }

  lemma {:induction false} RoomSumConcat(
    measure: Measure, handler: Handler, a: seq<(S.Socket, ToRoom)>, b: seq<(S.Socket, ToRoom)>)
    ensures RoomSum(measure, handler, a + b) == RoomSum(measure, handler, a) + RoomSum(measure, handler, b)
  {
    hide RoomCost;
    if a == [] {
      assert a + b == b;
    } else {
      assert (a + b)[1..] == a[1..] + b;
      RoomSumConcat(measure, handler, a[1..], b);
    }
  }

  lemma DaemonSumRemove(measure: Measure, handler: Handler, s: seq<(S.Socket, ToDaemon)>, i: nat)
    requires i < |s|
    ensures DaemonSum(measure, handler, s)
            == DaemonSum(measure, handler, RemoveAt(s, i)) + DaemonCost(measure, handler, s[i].1)
  {
    hide DaemonCost;
    assert s == s[..i] + ([s[i]] + s[i + 1..]);
    assert ([s[i]] + s[i + 1..])[1..] == s[i + 1..];
    DaemonSumConcat(measure, handler, s[..i], [s[i]] + s[i + 1..]);
    DaemonSumConcat(measure, handler, s[..i], s[i + 1..]);
  }

  lemma RoomSumRemove(measure: Measure, handler: Handler, s: seq<(S.Socket, ToRoom)>, i: nat)
    requires i < |s|
    ensures RoomSum(measure, handler, s)
            == RoomSum(measure, handler, RemoveAt(s, i)) + RoomCost(measure, handler, s[i].1)
  {
    hide RoomCost;
    assert s == s[..i] + ([s[i]] + s[i + 1..]);
    assert ([s[i]] + s[i + 1..])[1..] == s[i + 1..];
    RoomSumConcat(measure, handler, s[..i], [s[i]] + s[i + 1..]);
    RoomSumConcat(measure, handler, s[..i], s[i + 1..]);
  }

  /** A response is a message with no method, and gets no response of its own. */
  ghost predicate RepliesEnd(handler: Handler) {
    forall x, y :: handler(x) == Success(Some(y)) ==> handler(y) == Success(None)
  }

  // One daemon, one message.

  lemma {:induction false} OffersCost(
    measure: Measure, handler: Handler, m: R.Manager, peers: seq<string>, socket: S.Socket)
    ensures var out := PeerManager.Offers(m, peers);
            && RoomSum(measure, handler, From(socket, out))
               == |peers| * (match measure case Total => 4 case Answers => 1 case _ => 0)
            && KindCount(P.Offer, out) == |peers| && KindCount(P.Answer, out) == 0 && KindCount(P.Relay, out) == 0
  {
    if peers != [] {
      OffersCost(measure, handler, m, peers[1..], socket);
    }
  }

  lemma SingleCost(measure: Measure, handler: Handler, socket: S.Socket, msg: ToRoom)
    ensures RoomSum(measure, handler, From(socket, [msg])) == RoomCost(measure, handler, msg)
    ensures forall kind :: KindCount(kind, [msg]) == if msg.Forward? && msg.kind == kind then 1 else 0
    ensures RoomSum(measure, handler, From(socket, [])) == 0
  {
    assert [msg][1..] == [];
    assert From(socket, [msg]) == [(socket, msg)];
  }

  /** A relay's reply costs no more than the relay itself did, less the move. */
  lemma RelayReactionCost(
    env: Env, measure: Measure, m: R.Manager, from: string, data: Data, nonce: Bytes, socket: S.Socket)
    requires RepliesEnd(env.handler)
    ensures var result := AnswerRelay(env.handler, m, from, data, nonce).1;
            var out := if result.Success? then result.value else [];
            RoomSum(measure, env.handler, From(socket, out)) + Produced(measure, out)
            <= RelayCost(measure, env.handler, data)
  {
    hide R.Utf8.Valid, R.SeqnoOf, R.MakeRelayAd, R.BigEndian, Hex.Encode;
    var (m1, decrypted) := DecryptData(m, from, data);
    var result := AnswerRelay(env.handler, m, from, data, nonce).1;
    if result.Success? && result.value != [] {
      var plain := EnvelopeOf(data).value.ciphertext.value.plain;
      assert decrypted.value == plain[R.SEQNO_BYTES..];
      assert GetsReply(env.handler, data);
      var reply := env.handler(decrypted.value).value.value;
      var msg := result.value[0];
      SingleCost(measure, env.handler, socket, msg);
      assert result.value == [msg];
      var seqno := m1.sessions[from].txSeqno;
      R.FrameParts(seqno, reply);
      assert !GetsReply(env.handler, msg.data);
    } else {
      SingleCost(measure, env.handler, socket, P.Malformed);
    }
  }

  lemma ReactionCost(env: Env, measure: Measure, m: R.Manager, msg: ToDaemon, nonce: Bytes, socket: S.Socket)
    requires RepliesEnd(env.handler)
    ensures var result := React(env.crypto, env.handler, m, msg, nonce).1;
            var out := if result.Success? then result.value else [];
            RoomSum(measure, env.handler, From(socket, out)) + Produced(measure, out)
            <= DaemonCost(measure, env.handler, msg)
  {
    hide AnswerRelay, R.Establish, Hex.Encode, RelayCost;
    match msg
    case Joined(peers) => OffersCost(measure, env.handler, m, peers, socket);
    case PeerJoined(peer) => SingleCost(measure, env.handler, socket, OfferTo(m, peer));
    case Forwarded(Relay, from, data) => RelayReactionCost(env, measure, m, from, data, nonce, socket);
    case Forwarded(kind, from, _) =>
      var established := R.Establish(env.crypto, m, from);
      SingleCost(measure, env.handler, socket, AnswerTo(if established.Success? then established.value else m, from));
    case _ => SingleCost(measure, env.handler, socket, P.Malformed);
  }

  // The room forwards a message at most once, and never answers with anything costlier.

  lemma RoomReactionCost(env: Env, measure: Measure, room: S.State, socket: S.Socket, msg: ToRoom, now: int, stamp: int)
    requires Props.Inv(room) && !msg.Join?
    ensures var effects := S.Step(env.size, room, S.Message(socket, msg, now, stamp)).1;
            DaemonSum(measure, env.handler, Sends(effects)) + Produced(measure, [])
            <= RoomCost(measure, env.handler, msg)
  {
    hide GetsReply, Sends, DaemonSum, S.ForwardStep, S.JoinStep, Props.Forwards;
    var effects := S.Step(env.size, room, S.Message(socket, msg, now, stamp)).1;
    OneSend(measure, env.handler, effects);
    if msg.Forward? {
      Props.ForwardedFaithfully(env.size, room, socket, msg, now);
    }
  }

  lemma OneSend(measure: Measure, handler: Handler, effects: seq<S.Effect<Data>>)
    ensures effects == [] ==> DaemonSum(measure, handler, Sends(effects)) == 0
    ensures |effects| == 1 && effects[0].Send? ==>
              DaemonSum(measure, handler, Sends(effects)) == DaemonCost(measure, handler, effects[0].msg)
  {
    if |effects| == 1 && effects[0].Send? {
      assert effects == [effects[0]];
      assert Sends(effects) == [(effects[0].to, effects[0].msg)];
      assert [(effects[0].to, effects[0].msg)][1..] == [];
    }
  }

  lemma StepIsForward(env: Env, room: S.State, socket: S.Socket, msg: ToRoom, now: int, stamp: int)
    requires room.peers.Valid() && msg.Forward?
    ensures S.Step(env.size, room, S.Message(socket, msg, now, stamp))
            == S.ForwardStep(env.size, room, socket, msg, now)
  {
  }

  // A cascade: only forwards on their way to the room.

  ghost predicate Settled(sys: Sys) {
    && Props.Inv(sys.room)
    && forall k :: 0 <= k < |sys.toRoom| ==> sys.toRoom[k].1.Forward?
  }

  lemma {:induction false} FromForwards(socket: S.Socket, msgs: seq<ToRoom>)
    requires forall k :: 0 <= k < |msgs| ==> msgs[k].Forward?
    ensures forall k :: 0 <= k < |From(socket, msgs)| ==>
              From(socket, msgs)[k].0 == socket && From(socket, msgs)[k].1 in msgs
    decreases |msgs|
  {
    if msgs != [] {
      FromForwards(socket, msgs[1..]);
    }
  }

  lemma {:induction false} OffersForward(m: R.Manager, peers: seq<string>)
    ensures forall k :: 0 <= k < |PeerManager.Offers(m, peers)| ==>
              PeerManager.Offers(m, peers)[k].Forward? && PeerManager.Offers(m, peers)[k].kind == P.Offer
  {
    if peers != [] {
      OffersForward(m, peers[1..]);
    }
  }

  lemma EmittedForwards(env: Env, sys: Sys, move: Move)
    requires Enabled(sys, move)
    ensures forall k :: 0 <= k < |Emitted(env, sys, move)| ==> Emitted(env, sys, move)[k].Forward?
  {
    hide R.Decrypt, R.Encrypt, R.Establish, Hex.Encode;
    if move.DaemonTakes? && sys.toDaemons[move.i].1.Joined? && sys.toDaemons[move.i].0 in sys.daemons {
      OffersForward(sys.daemons[sys.toDaemons[move.i].0], sys.toDaemons[move.i].1.peers);
    }
  }

  lemma StepSettled(env: Env, sys: Sys, move: Move)
    requires Settled(sys) && Enabled(sys, move)
    ensures Settled(Step(env, sys, move))
  {
    hide Props.Inv, React, S.Step;
    EmittedForwards(env, sys, move);
    match move
    case RoomTakes(i, now, stamp) =>
      Props.StepInv(env.size, sys.room, S.Message(sys.toRoom[i].0, sys.toRoom[i].1, now, stamp));
    case DaemonTakes(i, nonce) =>
      FromForwards(sys.toDaemons[i].0, Emitted(env, sys, move));
  }

  /** Every move uses up at least what it produces. */
  lemma StepCost(env: Env, measure: Measure, sys: Sys, move: Move)
    requires RepliesEnd(env.handler) && Settled(sys) && Enabled(sys, move)
    ensures InFlight(env, measure, Step(env, sys, move)) + Produced(measure, Emitted(env, sys, move))
            <= InFlight(env, measure, sys)
  {
    hide React, S.Step, RoomCost, DaemonCost, RepliesEnd, RemoveAt, From, Sends;
    match move
    case RoomTakes(i, now, stamp) =>
      var (socket, msg) := sys.toRoom[i];
      RoomSumRemove(measure, env.handler, sys.toRoom, i);
      RoomReactionCost(env, measure, sys.room, socket, msg, now, stamp);
      var effects := S.Step(env.size, sys.room, S.Message(socket, msg, now, stamp)).1;
      DaemonSumConcat(measure, env.handler, sys.toDaemons, Sends(effects));
    case DaemonTakes(i, nonce) =>
      var (socket, msg) := sys.toDaemons[i];
      DaemonSumRemove(measure, env.handler, sys.toDaemons, i);
      if socket in sys.daemons {
        ReactionCost(env, measure, sys.daemons[socket], msg, nonce, socket);
        RoomSumConcat(measure, env.handler, sys.toRoom, From(socket, Emitted(env, sys, move)));
      } else {
        NothingCosts(env, measure, msg);
      }
  }

  lemma NothingCosts(env: Env, measure: Measure, msg: ToDaemon)
    ensures Produced(measure, []) <= DaemonCost(measure, env.handler, msg)
  {
  }

  // Runs.

  ghost predicate Possible(env: Env, sys: Sys, moves: seq<Move>)
    requires Settled(sys)
    decreases |moves|
  {
    moves == [] ||
    (Enabled(sys, moves[0]) &&
     (StepSettled(env, sys, moves[0]); Possible(env, Step(env, sys, moves[0]), moves[1..])))
  }

  ghost function Run(env: Env, sys: Sys, moves: seq<Move>): Sys
    requires Settled(sys) && Possible(env, sys, moves)
    decreases |moves|
  {
    if moves == [] then sys
    else
      StepSettled(env, sys, moves[0]);
      Run(env, Step(env, sys, moves[0]), moves[1..])
  }

  /** Over a run: its length for Total, or the messages of a kind that daemons sent. */
  ghost function Tally(env: Env, measure: Measure, sys: Sys, moves: seq<Move>): nat
    requires Settled(sys) && Possible(env, sys, moves)
    decreases |moves|
  {
    if moves == [] then 0
    else
      StepSettled(env, sys, moves[0]);
      Produced(measure, Emitted(env, sys, moves[0])) + Tally(env, measure, Step(env, sys, moves[0]), moves[1..])
  }

  lemma {:induction false} TallyBounded(env: Env, measure: Measure, sys: Sys, moves: seq<Move>)
    requires RepliesEnd(env.handler) && Settled(sys) && Possible(env, sys, moves)
    ensures Tally(env, measure, sys, moves) <= InFlight(env, measure, sys)
    ensures measure == Total ==> Tally(env, measure, sys, moves) == |moves|
    decreases |moves|
  {
    hide Step, Emitted, RepliesEnd, InFlight;
    if moves != [] {
      StepSettled(env, sys, moves[0]);
      StepCost(env, measure, sys, moves[0]);
      TallyBounded(env, measure, Step(env, sys, moves[0]), moves[1..]);
    }
  }

  /** No cascade goes on for ever: each move spends some of a finite cost. */
  lemma CascadeEnds(env: Env, sys: Sys, moves: seq<Move>)
    requires RepliesEnd(env.handler) && Settled(sys) && Possible(env, sys, moves)
    ensures |moves| <= InFlight(env, Total, sys)
  {
    TallyBounded(env, Total, sys, moves);
  }

  /** Silence is always reached: from any state some run takes everything in flight. */
  lemma {:induction false} SilenceReached(env: Env, sys: Sys) returns (moves: seq<Move>)
    requires RepliesEnd(env.handler) && Settled(sys)
    ensures Possible(env, sys, moves)
    ensures Run(env, sys, moves).toRoom == [] && Run(env, sys, moves).toDaemons == []
    decreases InFlight(env, Total, sys)
  {
    hide Step, Emitted, RepliesEnd, InFlight;
    if sys.toRoom == [] && sys.toDaemons == [] {
      moves := [];
    } else {
      var move := if sys.toRoom != [] then RoomTakes(0, 0, 0) else DaemonTakes(0, []);
      StepSettled(env, sys, move);
      StepCost(env, Total, sys, move);
      var rest := SilenceReached(env, Step(env, sys, move));
      moves := [move] + rest;
      assert moves[1..] == rest;
    }
  }

  /** One relayed message sets off at most one more, whatever it asks. */
  lemma RelayCascade(env: Env, sys: Sys, moves: seq<Move>, socket: S.Socket, msg: ToRoom)
    requires RepliesEnd(env.handler) && Props.Inv(sys.room)
    requires sys.toRoom == [(socket, msg)] && sys.toDaemons == [] && msg.Forward? && msg.kind == P.Relay
    requires Possible(env, sys, moves)
    ensures |moves| <= 4
    ensures Tally(env, Relays, sys, moves) <= 1
    ensures Tally(env, Offers, sys, moves) == 0 && Tally(env, Answers, sys, moves) == 0
  {
    assert Settled(sys);
    hide Settled, Possible, Tally, RepliesEnd, InFlight;
    SingleInFlight(env, Total, sys, socket, msg);
    SingleInFlight(env, Relays, sys, socket, msg);
    SingleInFlight(env, Offers, sys, socket, msg);
    SingleInFlight(env, Answers, sys, socket, msg);
    TallyBounded(env, Total, sys, moves);
    TallyBounded(env, Relays, sys, moves);
    TallyBounded(env, Offers, sys, moves);
    TallyBounded(env, Answers, sys, moves);
  }

  lemma SingleInFlight(env: Env, measure: Measure, sys: Sys, socket: S.Socket, msg: ToRoom)
    requires sys.toRoom == [(socket, msg)] && sys.toDaemons == []
    ensures InFlight(env, measure, sys) == RoomCost(measure, env.handler, msg)
  {
    hide RoomCost;
    assert sys.toRoom[1..] == [] && sys.toRoom[0].1 == msg;
    assert RoomSum(measure, env.handler, []) == 0 && DaemonSum(measure, env.handler, []) == 0;
  }

  // What one join sets off.

  lemma {:induction false} BroadcastCost(
    measure: Measure, handler: Handler, peers: S.Roster, order: seq<string>, id: string, exclude: S.Socket)
    requires forall i :: 0 <= i < |order| ==> order[i] in peers.entries
    ensures var sent := Sends(S.Broadcast<Data>(peers, order, P.PeerJoined(id), exclude));
            var own := if exists i :: 0 <= i < |order| && peers.entries[order[i]].ws == exclude then 1 else 0;
            |sent| <= |order| - own
            && DaemonSum(measure, handler, sent) == |sent| * DaemonCost(measure, handler, P.PeerJoined(id))
            && forall k :: 0 <= k < |sent| ==> sent[k].1 == P.PeerJoined(id)
    decreases |order|
  {
    if order != [] {
      BroadcastCost(measure, handler, peers, order[1..], id, exclude);
      var rest := S.Broadcast<Data>(peers, order[1..], P.PeerJoined(id), exclude);
      var ws := peers.entries[order[0]].ws;
      if ws != exclude {
        var all: seq<S.Effect<Data>> := [S.Send(ws, P.PeerJoined(id))] + rest;
        assert all[1..] == rest;
        assert Sends(all) == [(ws, P.PeerJoined(id))] + Sends(rest);
        if exists i :: 0 <= i < |order| && peers.entries[order[i]].ws == exclude {
          var i :| 0 <= i < |order| && peers.entries[order[i]].ws == exclude;
          assert order[1..][i - 1] == order[i];
        }
      } else {
        assert S.Broadcast<Data>(peers, order, P.PeerJoined(id), exclude) == rest;
      }
    }
  }

  lemma {:induction false} SendsConcat(a: seq<S.Effect<Data>>, b: seq<S.Effect<Data>>)
    ensures Sends(a + b) == Sends(a) + Sends(b)
    decreases |a|
  {
    if a == [] {
      assert a + b == b;
    } else {
      assert (a + b)[1..] == a[1..] + b;
      SendsConcat(a[1..], b);
    }
  }

  lemma {:induction false} WithoutShorter(keys: seq<string>, key: string)
    requires key in keys
    ensures |S.Without(keys, key)| < |keys|
  {
    WithoutNoLonger(keys[1..], key);
    if keys[0] != key {
      assert key in keys[1..];
      WithoutShorter(keys[1..], key);
    }
  }

  lemma {:induction false} WithoutNoLonger(keys: seq<string>, key: string)
    ensures |S.Without(keys, key)| <= |keys|
  {
    if keys != [] {
      WithoutNoLonger(keys[1..], key);
    }
  }

  /** What a join costs in a room with n other identities. */
  function JoinBound(measure: Measure, n: nat): nat {
    match measure
    case Total => 9 * n + 1
    case Relays => 0
    case _ => 2 * n
  }

  /** The sends of an accepted join: one joined list, and at most one notice per other entry. */
  lemma JoinSends(measure: Measure, handler: Handler, room: S.State, server: S.Socket, id: string, now: int, stamp: int)
    requires Props.Inv(room) && S.IsIdentity(Some(id))
    requires S.Holder(room, id, server).Some? ==> now - room.peers.entries[id].joinedAt >= S.IDENTITY_GRACE_PERIOD_MS
    ensures var (room', effects) := S.JoinStep<Data>(room, server, Some(id), now, stamp);
            var sends := Sends(effects);
            && |room'.peers.order| >= 1
            && (forall k :: 0 <= k < |sends| ==> sends[k].1.Joined? || sends[k].1.PeerJoined?)
            && DaemonSum(measure, handler, sends) <= JoinBound(measure, |room'.peers.order| - 1)
  {
    hide S.IsIdentity, S.Broadcast, S.Without, DaemonSum, DaemonCost, JoinBound;
    var (room', effects) := S.JoinStep<Data>(room, server, Some(id), now, stamp);
    var holder := S.Holder(room, id, server);
    var closes: seq<S.Effect<Data>> := if holder.Some? then [S.Close(holder.value.ws, 1000)] else [];
    var others := S.Without(room'.peers.order, id);
    S.SetValid(room.peers, id, S.Entry(server, stamp));
    var broadcast := S.Broadcast<Data>(room'.peers, room'.peers.order, P.PeerJoined(id), server);
    assert effects == closes + [S.Send(server, P.Joined(others))] + broadcast;
    HeadSends(closes, server, P.Joined(others), broadcast);
    hide Sends;
    WithoutShorter(room'.peers.order, id);
    var i :| 0 <= i < |room'.peers.order| && room'.peers.order[i] == id;
    assert room'.peers.entries[room'.peers.order[i]].ws == server;
    BroadcastCost(measure, handler, room'.peers, room'.peers.order, id, server);
    JoinedSum(measure, handler, server, others, id, Sends(broadcast), |room'.peers.order| - 1);
  }

  lemma HeadSends(closes: seq<S.Effect<Data>>, server: S.Socket, msg: ToDaemon, rest: seq<S.Effect<Data>>)
    requires |closes| == 0 || (|closes| == 1 && closes[0].Close?)
    ensures Sends(closes + [S.Send(server, msg)] + rest) == [(server, msg)] + Sends(rest)
  {
    var joined: seq<S.Effect<Data>> := [S.Send(server, msg)];
    SendsConcat(closes + joined, rest);
    SendsConcat(closes, joined);
    assert joined[1..] == [];
  }

  lemma JoinedSum(
    measure: Measure, handler: Handler, server: S.Socket, others: seq<string>, id: string,
    notices: seq<(S.Socket, ToDaemon)>, n: nat)
    requires |others| <= n && |notices| <= n
    requires DaemonSum(measure, handler, notices) == |notices| * DaemonCost(measure, handler, P.PeerJoined(id))
    ensures DaemonSum(measure, handler, [(server, P.Joined(others))] + notices) <= JoinBound(measure, n)
  {
    var all: seq<(S.Socket, ToDaemon)> := [(server, P.Joined(others))] + notices;
    assert all[1..] == notices;
  }

  /** The system right after the room took a join: its sends in flight and nothing else. */
  ghost predicate JustJoined(sys: Sys, room: S.State, server: S.Socket, id: string, now: int, stamp: int) {
    && Props.Inv(room) && S.IsIdentity(Some(id))
    && (S.Holder(room, id, server).Some? ==> now - room.peers.entries[id].joinedAt >= S.IDENTITY_GRACE_PERIOD_MS)
    && sys.room == S.JoinStep<Data>(room, server, Some(id), now, stamp).0
    && sys.toDaemons == Sends(S.JoinStep<Data>(room, server, Some(id), now, stamp).1)
    && sys.toRoom == []
  }

  lemma JustJoinedSettled(env: Env, sys: Sys, room: S.State, server: S.Socket, id: string, now: int, stamp: int)
    requires JustJoined(sys, room, server, id, now, stamp)
    ensures Settled(sys)
  {
    hide Props.Inv, S.JoinStep, S.IsIdentity;
    Props.StepInv(env.size, room, S.Message(server, P.Join(Some(id)), now, stamp));
  }

  /** One accepted join, in a room with n other identities, causes at most 2n offers and 2n
      answers, no relay, and silence after at most 9n + 1 messages have been taken. */
  lemma JoinCascade(
    env: Env, sys: Sys, room: S.State, server: S.Socket, id: string, now: int, stamp: int, moves: seq<Move>)
    requires RepliesEnd(env.handler) && JustJoined(sys, room, server, id, now, stamp)
    requires Settled(sys) && Possible(env, sys, moves)
    ensures var n := |sys.room.peers.order| - 1;
            && n >= 0
            && Tally(env, Offers, sys, moves) <= 2 * n
            && Tally(env, Answers, sys, moves) <= 2 * n
            && Tally(env, Relays, sys, moves) == 0
            && |moves| <= 9 * n + 1
  {
    hide Settled, Possible, Tally, RepliesEnd, JustJoined;
    JoinTally(env, Offers, sys, room, server, id, now, stamp, moves);
    JoinTally(env, Answers, sys, room, server, id, now, stamp, moves);
    JoinTally(env, Relays, sys, room, server, id, now, stamp, moves);
    JoinTally(env, Total, sys, room, server, id, now, stamp, moves);
  }

  lemma JoinTally(
    env: Env, measure: Measure, sys: Sys, room: S.State, server: S.Socket, id: string,
    now: int, stamp: int, moves: seq<Move>)
    requires RepliesEnd(env.handler) && JustJoined(sys, room, server, id, now, stamp)
    requires Settled(sys) && Possible(env, sys, moves)
    ensures |sys.room.peers.order| >= 1
    ensures Tally(env, measure, sys, moves) <= JoinBound(measure, |sys.room.peers.order| - 1)
    ensures measure == Total ==> Tally(env, measure, sys, moves) == |moves|
  {
    hide Settled, Possible, Tally, RepliesEnd, S.JoinStep, Props.Inv, DaemonSum, Sends, JoinBound;
    JoinSends(measure, env.handler, room, server, id, now, stamp);
    TallyBounded(env, measure, sys, moves);
  }
}
