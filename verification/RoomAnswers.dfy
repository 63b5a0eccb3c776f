/** What the room does with each message, in the terms of its wire protocol: which characters
    make an identity, who is told what in which order, and which refusal has which text. */
module RoomAnswers {
  import opened Wrappers
  import opened Protocol
  import opened SignalRoom
  import opened RoomProperties
  import Hex

  /** 64 hexadecimal digits, in either letter case. */
  predicate HexName(s: string) {
    |s| == 64 && forall i :: 0 <= i < |s| ==> '0' <= s[i] <= '9' || 'a' <= s[i] <= 'f' || 'A' <= s[i] <= 'F'
  }

  lemma IdentityExactly(value: Option<string>)
    ensures IsIdentity(value) <==> value.Some? && HexName(value.value)
  {
    if value.Some? && |value.value| == 64 {
      assert forall c: char :: Hex.DigitValue(c).Some? <==> '0' <= c <= '9' || 'a' <= c <= 'f' || 'A' <= c <= 'F';
    }
  }

  // Lists and broadcasts keep the order of insertion.

  lemma {:induction false} WithoutAbsent(keys: seq<string>, key: string)
    requires key !in keys
    ensures Without(keys, key) == keys
  {
    if keys != [] {
      WithoutAbsent(keys[1..], key);
    }
  }

  lemma {:induction false} WithoutSplit(a: seq<string>, key: string, b: seq<string>)
    requires key !in a && key !in b
    ensures Without(a + [key] + b, key) == a + b
    decreases |a|
  {
    var whole := a + [key] + b;
    if a == [] {
      assert whole[0] == key && whole[1..] == b;
      WithoutAbsent(b, key);
      assert [] + b == b;
    } else {
      assert whole[0] == a[0] && whole[1..] == a[1..] + [key] + b;
      WithoutSplit(a[1..], key, b);
      assert [a[0]] + (a[1..] + b) == a + b;
    }
  }

  lemma {:induction false} BroadcastConcat<D>(
    peers: Roster, a: seq<string>, b: seq<string>, msg: ServerMessage<D>, exclude: Socket)
    requires forall i :: 0 <= i < |a| ==> a[i] in peers.entries
    requires forall i :: 0 <= i < |b| ==> b[i] in peers.entries
    ensures Broadcast(peers, a + b, msg, exclude)
            == Broadcast(peers, a, msg, exclude) + Broadcast(peers, b, msg, exclude)
    decreases |a|
  {
    if a == [] {
      assert a + b == b;
      assert Broadcast(peers, a, msg, exclude) == [];
    } else {
      assert (a + b)[0] == a[0] && (a + b)[1..] == a[1..] + b;
      BroadcastConcat(peers, a[1..], b, msg, exclude);
      var ws := peers.entries[a[0]].ws;
      var first: seq<Effect<D>> := if ws != exclude then [Send(ws, msg)] else [];
      assert Broadcast(peers, a + b, msg, exclude)
             == first + (Broadcast(peers, a[1..], msg, exclude) + Broadcast(peers, b, msg, exclude));
    }
  }

  lemma BroadcastOne<D>(peers: Roster, key: string, msg: ServerMessage<D>, exclude: Socket)
    requires key in peers.entries
    ensures var ws := peers.entries[key].ws;
            Broadcast(peers, [key], msg, exclude) == if ws == exclude then [] else [Send(ws, msg)]
  {
    assert [key][1..] == [];
  }

  ghost predicate HasEntry(peers: Roster, s: Socket) {
    exists key :: key in peers.entries && peers.entries[key].ws == s
  }

  /** A broadcast reaches the socket of every entry but the excluded one, and nobody else. */
  lemma {:induction false} BroadcastReaches<D>(
    peers: Roster, order: seq<string>, msg: ServerMessage<D>, exclude: Socket)
    requires forall i :: 0 <= i < |order| ==> order[i] in peers.entries
    ensures forall e :: e in Broadcast(peers, order, msg, exclude)
              <==> e.Send? && e.msg == msg && e.to != exclude
                   && exists i :: 0 <= i < |order| && peers.entries[order[i]].ws == e.to
    decreases |order|
  {
    if order != [] {
      BroadcastReaches(peers, order[1..], msg, exclude);
      assert forall i :: 1 <= i < |order| ==> order[i] == order[1..][i - 1];
    }
  }

  // Joins.

  /** Another socket joined as the name less than five seconds ago. */
  predicate Taken(st: State, server: Socket, name: string, now: int) {
    name in st.peers.entries && st.peers.entries[name].ws != server && now - st.peers.entries[name].joinedAt < 5_000
  }

  lemma RefusedMeans(st: State, server: Socket, identity: Option<string>, now: int)
    ensures JoinRefused(st, server, identity, now)
            <==> identity == None || !HexName(identity.value) || Taken(st, server, identity.value, now)
  {
    hide IsIdentity;
    IdentityExactly(identity);
  }

  /** What a refused join gets. */
  lemma JoinRefusal<D>(st: State, server: Socket, identity: Option<string>, now: int, stamp: int)
    requires Inv(st)
    ensures var (st', effects) := JoinStep<D>(st, server, identity, now, stamp);
            && (identity == None || !HexName(identity.value) ==>
                  st' == st && effects == [Send(server, Error("Invalid identity"))])
            && (identity.Some? && HexName(identity.value) && Taken(st, server, identity.value, now) ==>
                  st' == st && effects == [Send(server, Error("Identity recently joined, try later")),
                                           Close(server, 1008)])
  {
    hide Broadcast, Without, IsIdentity;
    IdentityExactly(identity);
  }

  /** Every other join is admitted: a holder of the name is closed and unregistered, the
      newcomer gets the other names in the order they came, and then everyone else hears. */
  lemma JoinAdmitted<D>(st: State, server: Socket, name: string, now: int, stamp: int)
    returns (others: seq<string>, notices: seq<Effect<D>>)
    requires Inv(st) && HexName(name) && !Taken(st, server, name, now)
    ensures var (st', effects) := JoinStep<D>(st, server, Some(name), now, stamp);
            var replaced := name in st.peers.entries && st.peers.entries[name].ws != server;
            && st'.rateLimit == st.rateLimit
            && st'.peers.entries == st.peers.entries[name := Entry(server, stamp)]
            && st'.sockets
               == (if replaced then st.sockets - {st.peers.entries[name].ws} else st.sockets)[server := name]
            && effects == (if replaced then [Close(st.peers.entries[name].ws, 1000)] else [])
                          + [Send(server, Joined(others))] + notices
    ensures if name in st.peers.entries
            then exists a, b :: st.peers.order == a + [name] + b && others == a + b
            else others == st.peers.order
    ensures var st' := JoinStep<D>(st, server, Some(name), now, stamp).0;
            && st'.peers.order == (if name in st.peers.entries then st.peers.order else st.peers.order + [name])
            && forall e :: e in notices
                 <==> e.Send? && e.msg == PeerJoined(name) && e.to != server && HasEntry(st'.peers, e.to)
  {
    hide Broadcast, Without, IsIdentity, NoDuplicates;
    IdentityExactly(Some(name));
    var (st', effects) := JoinStep<D>(st, server, Some(name), now, stamp);
    SetValid(st.peers, name, Entry(server, stamp));
    others := Without(st'.peers.order, name);
    notices := Broadcast(st'.peers, st'.peers.order, PeerJoined(name), server);
    BroadcastToAll<D>(st'.peers, PeerJoined(name), server);
    OthersInOrder(st.peers, st'.peers.order, name);
  }

  lemma ListedHasEntry(peers: Roster, s: Socket)
    requires peers.Valid()
    ensures (exists i :: 0 <= i < |peers.order| && peers.entries[peers.order[i]].ws == s) <==> HasEntry(peers, s)
  {
    if HasEntry(peers, s) {
      var key :| key in peers.entries && peers.entries[key].ws == s;
      var i :| 0 <= i < |peers.order| && peers.order[i] == key;
    }
  }

  lemma BroadcastToAll<D>(peers: Roster, msg: ServerMessage<D>, exclude: Socket)
    requires peers.Valid()
    ensures forall e :: e in Broadcast(peers, peers.order, msg, exclude)
              <==> e.Send? && e.msg == msg && e.to != exclude && HasEntry(peers, e.to)
  {
    BroadcastReaches(peers, peers.order, msg, exclude);
    hide Broadcast, HasEntry;
    forall s: Socket
      ensures (exists i :: 0 <= i < |peers.order| && peers.entries[peers.order[i]].ws == s) <==> HasEntry(peers, s)
    {
      ListedHasEntry(peers, s);
    }
  }

  lemma SplitAt(order: seq<string>, name: string) returns (a: seq<string>, b: seq<string>)
    requires NoDuplicates(order) && name in order
    ensures order == a + [name] + b && name !in a && name !in b
  {
    var i :| 0 <= i < |order| && order[i] == name;
    a, b := order[..i], order[i + 1..];
  }

  lemma OthersInOrder(peers: Roster, order: seq<string>, name: string)
    requires peers.Valid() && order == if name in peers.entries then peers.order else peers.order + [name]
    ensures if name in peers.entries
            then exists a, b :: peers.order == a + [name] + b && Without(order, name) == a + b
            else Without(order, name) == peers.order
  {
    hide Without;
    if name in peers.entries {
      var a, b := SplitAt(order, name);
      WithoutSplit(a, name, b);
    } else {
      assert name !in peers.order;
      WithoutSplit(peers.order, name, []);
      assert peers.order + [name] + [] == order && peers.order + [] == peers.order;
    }
  }

  // Offers, answers and relays.

  /** The window a relay is counted in: the open one, or a new one that starts now. */
  function Counted(st: State, name: string, now: int): Window {
    if ByIdentity(name) in st.rateLimit && now < st.rateLimit[ByIdentity(name)].resetAt
    then Window(st.rateLimit[ByIdentity(name)].count + 1, st.rateLimit[ByIdentity(name)].resetAt)
    else Window(1, now + 1_000)
  }

  /** Who may forward at all. */
  lemma SenderRefusal<D>(size: D -> nat, st: State, server: Socket, msg: ClientMessage<D>, now: int)
    requires Inv(st) && msg.Forward?
    ensures var (st', effects) := ForwardStep(size, st, server, msg, now);
            && (server !in st.sockets ==> st' == st && effects == [Send(server, Error("Join required"))])
            && (server in st.sockets && msg.from != Some(st.sockets[server]) ==>
                  st' == st && effects == [Send(server, Error("Sender identity mismatch"))])
  {
    hide IsIdentity;
  }

  /** What a registered sender gets under its own name: relays are counted before anything else
      is looked at, and a target that is not there is no error. */
  lemma ForwardAnswered<D>(size: D -> nat, st: State, server: Socket, msg: ClientMessage<D>, now: int)
    requires Inv(st) && msg.Forward? && server in st.sockets && msg.from == Some(st.sockets[server])
    ensures var (st', effects) := ForwardStep(size, st, server, msg, now);
            var name := st.sockets[server];
            var window := Counted(st, name, now);
            && st' == (if msg.kind == Relay then st.(rateLimit := st.rateLimit[ByIdentity(name) := window]) else st)
            && (msg.kind == Relay && window.count > 60 ==> effects == [Send(server, Error("Rate limit exceeded"))])
            && (msg.kind != Relay || window.count <= 60 ==>
                  effects == if msg.to == None || !HexName(msg.to.value) then
                               [Send(server, Error("Invalid peer identity"))]
                             else if size(msg.data) > 262_144 then [Send(server, Error("Message too large"))]
                             else if msg.to.value !in st.peers.entries then []
                             else [Send(st.peers.entries[msg.to.value].ws, Forwarded(msg.kind, name, msg.data))])
  {
    hide IsIdentity;
    IdentityExactly(msg.to);
    assert Owns(st, server);
  }

  /** The rest is answered with an error and changes nothing. */
  lemma OtherAnswered<D>(size: D -> nat, st: State, event: Event<D>)
    requires Inv(st) && event.Message? && (event.msg.UnknownType? || event.msg.Malformed?)
    ensures var text := if event.msg.Malformed? then "Invalid message" else "Unknown type: " + event.msg.name;
            Step(size, st, event) == (st, [Send(event.socket, Error(text))])
  {
  }

  // Closes, and the limiter.

  /** The entry a close deletes is announced to everyone who still has one. */
  lemma CloseAnswered<D>(st: State, server: Socket)
    requires Inv(st)
    ensures var (st', effects) := CloseStep<D>(st, server);
            && st'.sockets == st.sockets - {server}
            && st'.rateLimit == st.rateLimit - {BySocket(server)}
            && (server !in st.sockets ==> st'.peers == st.peers && effects == [])
            && (server in st.sockets ==>
                  var name := st.sockets[server];
                  && st'.peers.entries == st.peers.entries - {name}
                  && (exists a, b :: st.peers.order == a + [name] + b && st'.peers.order == a + b)
                  && forall e :: e in effects
                       <==> e.Send? && e.msg == PeerLeft(name) && e.to != server && HasEntry(st'.peers, e.to))
  {
    hide Broadcast, Without, IsIdentity, NoDuplicates;
    if server in st.sockets {
      assert Owns(st, server);
      var name := st.sockets[server];
      var peers := st.peers.Delete(name);
      DeleteValid(st.peers, name);
      BroadcastToAll<D>(peers, PeerLeft(name), server);
      OthersInOrder(st.peers, st.peers.order, name);
    }
  }

  /** In any state at all, a close deletes no entry that another socket has. */
  lemma CloseSparesOthers<D>(st: State, server: Socket)
    requires st.peers.Valid() && server in st.sockets
    requires st.sockets[server] in st.peers.entries ==> st.peers.entries[st.sockets[server]].ws != server
    ensures var (st', effects) := CloseStep<D>(st, server);
            st'.peers == st.peers && st'.sockets == st.sockets - {server} && effects == []
  {
  }

  ghost predicate LimitsNames(st: State) {
    forall key :: key in st.rateLimit ==> key.ByIdentity?
  }

  lemma StepLimits<D>(size: D -> nat, st: State, event: Event<D>)
    requires Inv(st) && LimitsNames(st)
    ensures var st' := Step(size, st, event).0;
            LimitsNames(st') && st.rateLimit.Keys <= st'.rateLimit.Keys
  {
    hide Broadcast, Without, IsIdentity;
  }

  /** The limiter never has an entry for a socket, so the close handler's deletion never finds
      one, and what it has counted under a name is never forgotten. */
  lemma {:induction false} LimiterOnlyGrows<D>(size: D -> nat, st: State, events: seq<Event<D>>)
    requires Inv(st) && LimitsNames(st)
    ensures var later := Run(size, st, events).0;
            LimitsNames(later) && st.rateLimit.Keys <= later.rateLimit.Keys
    decreases |events|
  {
    hide Step;
    if events != [] {
      StepInv(size, st, events[0]);
      StepLimits(size, st, events[0]);
      LimiterOnlyGrows(size, Step(size, st, events[0]).0, events[1..]);
    }
  }
}
