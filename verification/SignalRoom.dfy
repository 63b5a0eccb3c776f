/** The signalling room (class SignalRoom in signal-server/src/index.ts): what each event
    does to the room's maps and which sends and closes it causes. */
module SignalRoom {
  import opened Wrappers
  import opened Protocol
  import Hex

  const MAX_MESSAGE_BYTES := 256 * 1024
  const IDENTITY_GRACE_PERIOD_MS := 5_000
  const RELAY_RATE_LIMIT_WINDOW_MS := 1_000
  const MAX_RELAY_PER_WINDOW := 60

  /** A WebSocket, by object identity. */
  type Socket = nat

  datatype Entry = Entry(ws: Socket, joinedAt: int)

  /** A JavaScript Map: entries, and the keys in insertion order, which iteration follows. */
  datatype Roster = Roster(entries: map<string, Entry>, order: seq<string>) {
    function Set(key: string, entry: Entry): Roster {
      Roster(entries[key := entry], if key in entries then order else order + [key])
    }

    function Delete(key: string): Roster {
      Roster(entries - {key}, Without(order, key))
    }

    ghost predicate Valid() {
      && (forall i :: 0 <= i < |order| ==> order[i] in entries)
      && (forall key :: key in entries ==> key in order)
      && NoDuplicates(order)
    }
  }

  ghost predicate NoDuplicates(keys: seq<string>) {
    forall i, j :: 0 <= i < j < |keys| ==> keys[i] != keys[j]
  }

  function Without(keys: seq<string>, key: string): (r: seq<string>)
    ensures forall k :: k in r <==> k in keys && k != key
  {
    if keys == [] then []
    else
      var rest := Without(keys[1..], key);
      assert forall k :: k in keys <==> k == keys[0] || k in keys[1..];
      if keys[0] == key then rest else [keys[0]] + rest
  }

  lemma {:induction false} WithoutDistinct(keys: seq<string>, key: string)
    requires NoDuplicates(keys)
    ensures NoDuplicates(Without(keys, key))
  {
    if keys != [] {
      var rest := Without(keys[1..], key);
      WithoutDistinct(keys[1..], key);
      assert keys[0] !in keys[1..];
      assert forall i :: 0 <= i < |rest| ==> rest[i] in rest;
    }
  }

  /** The limiter's Map is keyed by identity strings, but the close handler deletes a socket. */
  datatype LimitKey = ByIdentity(identity: string) | BySocket(socket: Socket)

  datatype Window = Window(count: nat, resetAt: int)

  datatype State = State(
    peers: Roster,
    sockets: map<Socket, string>,
    rateLimit: map<LimitKey, Window>)

  const EMPTY := State(Roster(map[], []), map[], map[])

  /** A message carries the clock readings its handler takes: now, then stamp. */
  datatype Event<+D> =
    | Message(socket: Socket, msg: ClientMessage<D>, now: int, stamp: int)
    | Closed(socket: Socket)

  datatype Effect<+D> =
    | Send(to: Socket, msg: ServerMessage<D>)
    | Close(socket: Socket, code: nat)

  predicate IsIdentity(value: Option<string>): (r: bool)
    ensures r ==> value.Some?
  {
    && value.Some?
    && |value.value| == 64
    && forall i :: 0 <= i < 64 ==> Hex.DigitValue(value.value[i]).Some?
  }

  function Broadcast<D>(peers: Roster, order: seq<string>, msg: ServerMessage<D>, exclude: Socket): seq<Effect<D>>
    requires forall i :: 0 <= i < |order| ==> order[i] in peers.entries
  {
    if order == [] then []
    else
      var ws := peers.entries[order[0]].ws;
      (if ws != exclude then [Send(ws, msg)] else []) + Broadcast(peers, order[1..], msg, exclude)
  }

  /** The socket another connection holds the identity with, if any. */
  function Holder(st: State, identity: string, server: Socket): Option<Entry> {
    if identity in st.peers.entries && st.peers.entries[identity].ws != server
    then Some(st.peers.entries[identity]) else None
  }

  function JoinStep<D>(st: State, server: Socket, identity: Option<string>, now: int, stamp: int)
    : (r: (State, seq<Effect<D>>))
    requires st.peers.Valid()
  {
    if !IsIdentity(identity) then (st, [Send(server, Error("Invalid identity"))])
    else
      var id := identity.value;
      var holder := Holder(st, id, server);
      if holder.Some? && now - holder.value.joinedAt < IDENTITY_GRACE_PERIOD_MS then
        (st, [Send(server, Error("Identity recently joined, try later")), Close(server, 1008)])
      else
        var sockets := if holder.Some? then st.sockets - {holder.value.ws} else st.sockets;
        var closes := if holder.Some? then [Close(holder.value.ws, 1000)] else [];
        var peers := st.peers.Set(id, Entry(server, stamp));
        assert forall i :: 0 <= i < |peers.order| ==> peers.order[i] in peers.entries;
        (st.(peers := peers, sockets := sockets[server := id]),
         closes + [Send(server, Joined(Without(peers.order, id)))]
         + Broadcast(peers, peers.order, PeerJoined(id), server))
  }

  /** The close handler. */
  function CloseStep<D>(st: State, server: Socket): (r: (State, seq<Effect<D>>))
    requires st.peers.Valid()
  {
    var rest := st.(sockets := st.sockets - {server}, rateLimit := st.rateLimit - {BySocket(server)});
    if server in st.sockets && st.sockets[server] in st.peers.entries
       && st.peers.entries[st.sockets[server]].ws == server then
      var id := st.sockets[server];
      var peers := st.peers.Delete(id);
      assert forall i :: 0 <= i < |peers.order| ==> peers.order[i] in peers.entries by {
        assert forall i :: 0 <= i < |peers.order| ==> peers.order[i] in peers.order;
      }
      (rest.(peers := peers), Broadcast(peers, peers.order, PeerLeft(id), server))
    else (rest, [])
  }

  /** isSender: the error it sends, or none when the claimed sender is the joined identity. */
  function SenderError(st: State, server: Socket, from: Option<string>): Option<string> {
    if server !in st.sockets then Some("Join required")
    else if from != Some(st.sockets[server]) then Some("Sender identity mismatch")
    else None
  }

  function LimitKeyOf(st: State, server: Socket): LimitKey {
    if server in st.sockets then ByIdentity(st.sockets[server]) else BySocket(server)
  }

  /** checkRateLimit: the window it leaves behind; the relay passes while count is in range. */
  function NextWindow(st: State, key: LimitKey, now: int): Window {
    if key in st.rateLimit && now < st.rateLimit[key].resetAt
    then st.rateLimit[key].(count := st.rateLimit[key].count + 1)
    else Window(1, now + RELAY_RATE_LIMIT_WINDOW_MS)
  }

  /** What is left of forwarding once the sender is known and the limiter has passed. */
  function Deliver<D>(
    size: D -> nat, st: State, server: Socket, kind: Kind, from: Option<string>, to: Option<string>, data: D)
    : seq<Effect<D>>
  {
    if !IsIdentity(from) || !IsIdentity(to) then [Send(server, Error("Invalid peer identity"))]
    else if size(data) > MAX_MESSAGE_BYTES then [Send(server, Error("Message too large"))]
    else if to.value in st.peers.entries
    then [Send(st.peers.entries[to.value].ws, Forwarded(kind, from.value, data))]
    else []
  }

  function ForwardStep<D>(size: D -> nat, st: State, server: Socket, msg: ClientMessage<D>, now: int)
    : (State, seq<Effect<D>>)
    requires msg.Forward?
  {
    var error := SenderError(st, server, msg.from);
    if error.Some? then (st, [Send(server, Error(error.value))])
    else if msg.kind != Relay then
      (st, Deliver(size, st, server, msg.kind, msg.from, msg.to, msg.data))
    else
      var key := LimitKeyOf(st, server);
      var window := NextWindow(st, key, now);
      var st' := st.(rateLimit := st.rateLimit[key := window]);
      if window.count > MAX_RELAY_PER_WINDOW then (st', [Send(server, Error("Rate limit exceeded"))])
      else (st', Deliver(size, st', server, msg.kind, msg.from, msg.to, msg.data))
  }

  /** One event. size is messageSize on the data, in bytes. */
  function Step<D>(size: D -> nat, st: State, event: Event<D>): (State, seq<Effect<D>>)
    requires st.peers.Valid()
  {
    match event
    case Closed(server) => CloseStep(st, server)
    case Message(server, msg, now, stamp) =>
      match msg
      case Join(identity) => JoinStep(st, server, identity, now, stamp)
      case Forward(_, _, _, _) => ForwardStep(size, st, server, msg, now)
      case UnknownType(name) => (st, [Send(server, Error("Unknown type: " + name))])
      case Malformed => (st, [Send(server, Error("Invalid message"))])
  }

  lemma SetValid(peers: Roster, key: string, entry: Entry)
    requires peers.Valid()
    ensures peers.Set(key, entry).Valid()
  {
  }

  lemma DeleteValid(peers: Roster, key: string)
    requires peers.Valid()
    ensures peers.Delete(key).Valid()
  {
    WithoutDistinct(peers.order, key);
    var rest := peers.Delete(key);
    assert forall i :: 0 <= i < |rest.order| ==> rest.order[i] in rest.order;
  }

  lemma BroadcastFrom<D>(peers: Roster, i: nat, msg: ServerMessage<D>, exclude: Socket)
    requires peers.Valid() && i <= |peers.order|
    ensures Broadcast(peers, peers.order[i..], msg, exclude)
            == if i == |peers.order| then []
               else var ws := peers.entries[peers.order[i]].ws;
                    (if ws != exclude then [Send(ws, msg)] else [])
                    + Broadcast(peers, peers.order[i + 1..], msg, exclude)
  {
    if i < |peers.order| {
      assert peers.order[i..][1..] == peers.order[i + 1..];
    }
  }

  /** The object itself: its methods take the clock readings and return the effects. */
  class Room<D> {
    const size: D -> nat
    var peers: Roster
    var sockets: map<Socket, string>
    var rateLimit: map<LimitKey, Window>

    ghost function View(): State
      reads this
    {
      State(peers, sockets, rateLimit)
    }

    constructor (size: D -> nat)
      ensures View() == EMPTY && this.size == size
    {
      this.size := size;
      peers, sockets, rateLimit := Roster(map[], []), map[], map[];
    }

    method BroadcastAll(msg: ServerMessage<D>, exclude: Socket) returns (effects: seq<Effect<D>>)
      requires peers.Valid()
      ensures effects == Broadcast(peers, peers.order, msg, exclude)
    {
      hide Broadcast;
      effects := [];
      for i := 0 to |peers.order|
        invariant effects + Broadcast(peers, peers.order[i..], msg, exclude)
                  == Broadcast(peers, peers.order, msg, exclude)
      {
        BroadcastFrom(peers, i, msg, exclude);
        var ws := peers.entries[peers.order[i]].ws;
        ghost var rest := Broadcast(peers, peers.order[i + 1..], msg, exclude);
        if ws != exclude {
          assert effects + ([Send(ws, msg)] + rest) == (effects + [Send(ws, msg)]) + rest;
          effects := effects + [Send(ws, msg)];
        } else {
          assert [] + rest == rest;
        }
      }
      BroadcastFrom(peers, |peers.order|, msg, exclude);
    }

    method HandleJoin(server: Socket, identity: Option<string>, now: int, stamp: int) returns (effects: seq<Effect<D>>)
      requires peers.Valid()
      modifies this
      ensures peers.Valid()
      ensures (View(), effects) == JoinStep<D>(old(View()), server, identity, now, stamp)
    {
      hide Broadcast, Without;
      if !IsIdentity(identity) {
        return [Send(server, Error("Invalid identity"))];
      }
      var id := identity.value;
      effects := [];
      if id in peers.entries && peers.entries[id].ws != server {
        var existing := peers.entries[id];
        if now - existing.joinedAt < IDENTITY_GRACE_PERIOD_MS {
          return [Send(server, Error("Identity recently joined, try later")), Close(server, 1008)];
        }
        effects := [Close(existing.ws, 1000)];
        sockets := sockets - {existing.ws};
      }
      SetValid(peers, id, Entry(server, stamp));
      peers := peers.Set(id, Entry(server, stamp));
      sockets := sockets[server := id];
      effects := effects + [Send(server, Joined(Without(peers.order, id)))];
      var broadcast := BroadcastAll(PeerJoined(id), server);
      effects := effects + broadcast;
    }

    method CheckRateLimit(server: Socket, now: int) returns (passes: bool, effects: seq<Effect<D>>)
      modifies this`rateLimit
      ensures var key := LimitKeyOf(old(View()), server);
              var window := NextWindow(old(View()), key, now);
              && View() == old(View()).(rateLimit := old(rateLimit)[key := window])
              && passes == (window.count <= MAX_RELAY_PER_WINDOW)
              && effects == if passes then [] else [Send(server, Error("Rate limit exceeded"))]
    {
      var key := if server in sockets then ByIdentity(sockets[server]) else BySocket(server);
      if key !in rateLimit || now >= rateLimit[key].resetAt {
        rateLimit := rateLimit[key := Window(0, now + RELAY_RATE_LIMIT_WINDOW_MS)];
      }
      rateLimit := rateLimit[key := rateLimit[key].(count := rateLimit[key].count + 1)];
      if rateLimit[key].count > MAX_RELAY_PER_WINDOW {
        return false, [Send(server, Error("Rate limit exceeded"))];
      }
      return true, [];
    }

    method HandleForward(server: Socket, msg: ClientMessage<D>, now: int) returns (effects: seq<Effect<D>>)
      requires msg.Forward?
      modifies this`rateLimit
      ensures (View(), effects) == ForwardStep(size, old(View()), server, msg, now)
    {
      if server !in sockets {
        return [Send(server, Error("Join required"))];
      }
      if msg.from != Some(sockets[server]) {
        return [Send(server, Error("Sender identity mismatch"))];
      }
      if msg.kind == Relay {
        var passes;
        passes, effects := CheckRateLimit(server, now);
        if !passes {
          return;
        }
      }
      if !IsIdentity(msg.from) || !IsIdentity(msg.to) {
        return [Send(server, Error("Invalid peer identity"))];
      }
      if size(msg.data) > MAX_MESSAGE_BYTES {
        return [Send(server, Error("Message too large"))];
      }
      effects := [];
      if msg.to.value in peers.entries {
        effects := [Send(peers.entries[msg.to.value].ws, Forwarded(msg.kind, msg.from.value, msg.data))];
      }
    }

    method HandleMessage(server: Socket, msg: ClientMessage<D>, now: int, stamp: int) returns (effects: seq<Effect<D>>)
      requires peers.Valid()
      modifies this
      ensures peers.Valid()
      ensures (View(), effects) == Step(size, old(View()), Message(server, msg, now, stamp))
    {
      match msg {
        case Join(identity) => effects := HandleJoin(server, identity, now, stamp);
        case Forward(_, _, _, _) => effects := HandleForward(server, msg, now);
        case UnknownType(name) => effects := [Send(server, Error("Unknown type: " + name))];
        case Malformed => effects := [Send(server, Error("Invalid message"))];
      }
    }

    method HandleClose(server: Socket) returns (effects: seq<Effect<D>>)
      requires peers.Valid()
      modifies this
      ensures peers.Valid()
      ensures (View(), effects) == Step(size, old(View()), Closed(server))
    {
      effects := [];
      if server in sockets {
        var identity := sockets[server];
        if identity in peers.entries && peers.entries[identity].ws == server {
          DeleteValid(peers, identity);
          peers := peers.Delete(identity);
          effects := BroadcastAll(PeerLeft(identity), server);
        }
      }
      sockets := sockets - {server};
      rateLimit := rateLimit - {BySocket(server)};
    }
  }
}
