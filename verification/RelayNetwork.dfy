/** Two managers over a network that drops, duplicates, reorders, reflects and forges: what
    one accepts from the other is what the other sealed for it, in order, each at most once.
    The network may replay any ciphertext it has seen inside any envelope and under any claimed
    sender, and inject anything it likes except ciphertexts sealed under the pair's own key. */
module RelayNetwork {
  import opened Wrappers
  import opened Text
  import Hex
  import Utf8
  import opened Relay

  datatype Accepted = Accepted(seqno: nat, payload: Bytes)

  /** A manager with its history with the other one: payloads sealed, payloads accepted. */
  datatype Node = Node(manager: Manager, sent: seq<Bytes>, accepted: seq<Accepted>)

  datatype Side = Left | Right {
    function Other(): Side {
      if Left? then Right else Left
    }
  }

  /** The two nodes, and every ciphertext either has sealed. */
  datatype Net = Net(left: Node, right: Node, wire: set<Ciphertext>) {
    function At(side: Side): Node {
      if side.Left? then left else right
    }

    function With(side: Side, node: Node): Net {
      if side.Left? then this.(left := node) else this.(right := node)
    }

    /** The name a node knows the other one by. */
    function PeerName(side: Side): string {
      At(side.Other()).manager.Name()
    }
  }

  datatype Event =
    | Handshake(side: Side, peer: string)
    | Seal(side: Side, peer: string, payload: Bytes, nonce: Bytes)
    | Deliver(side: Side, from: string, envelope: Envelope)

  /** Nothing sealed under the pair's key reaches a node unless a node sealed it. */
  ghost predicate Possible(net: Net, key: Bytes, e: Event) {
    e.Deliver? && e.envelope.ciphertext.Some? ==>
      var ciphertext := e.envelope.ciphertext.value;
      ciphertext.Sealed? && ciphertext.key == key ==> ciphertext in net.wire
  }

  function HandshakeStep(c: Crypto, net: Net, side: Side, peer: string): Net {
    match Establish(c, net.At(side).manager, peer)
    case Failure(_) => net
    case Success(m) => net.With(side, net.At(side).(manager := m))
  }

  function SealStep(net: Net, side: Side, peer: string, payload: Bytes, nonce: Bytes): Net {
    var node := net.At(side);
    match Encrypt(node.manager, peer, payload, nonce)
    case Failure(_) => net
    case Success((m, envelope)) =>
      var sent := if peer == net.PeerName(side) then node.sent + [payload] else node.sent;
      net.With(side, node.(manager := m, sent := sent)).(wire := net.wire + {envelope.ciphertext.value})
  }

  function DeliverStep(net: Net, side: Side, from: string, envelope: Envelope): Net {
    var node := net.At(side);
    var (m, result) := Decrypt(node.manager, from, envelope);
    var accepted :=
      if result.Success? && from == net.PeerName(side)
      then node.accepted + [Accepted(m.sessions[from].rxSeqno, result.value)]
      else node.accepted;
    net.With(side, node.(manager := m, accepted := accepted))
  }

  function Step(c: Crypto, net: Net, e: Event): Net {
    match e
    case Handshake(side, peer) => HandshakeStep(c, net, side, peer)
    case Seal(side, peer, payload, nonce) => SealStep(net, side, peer, payload, nonce)
    case Deliver(side, from, envelope) => DeliverStep(net, side, from, envelope)
  }

  // The invariant.

  /** Both nodes are who they say, under different identities, and the key is the pair's. */
  ghost predicate Identities(c: Crypto, a: Manager, b: Manager, key: Bytes) {
    && DiffieHellman(c)
    && a.public == c.public(a.secret) && b.public == c.public(b.secret)
    && a.public != b.public
    && key == SessionKey(c, a.secret, a.public, b.public)
  }

  /** What a node accepted has rising sequence numbers from 1 up to the receive counter, and
      is what was sent under those numbers. */
  ghost predicate InOrder(accepted: seq<Accepted>, sent: seq<Bytes>, rx: nat) {
    && (forall k :: 0 <= k < |accepted| ==>
          1 <= accepted[k].seqno <= rx && accepted[k].seqno < |sent| && accepted[k].payload == sent[accepted[k].seqno])
    && (forall j, k :: 0 <= j < k < |accepted| ==> accepted[j].seqno < accepted[k].seqno)
  }

  /** Session names are identities. The session with the other node has the pair's key, has
      counted what was sealed for it, and has received in order what the other sealed. */
  ghost predicate NodeInv(node: Node, peer: string, peerSent: seq<Bytes>, key: Bytes) {
    var sessions := node.manager.sessions;
    && (forall name :: name in sessions ==> ParseIdentity(name).Some?)
    && (if peer in sessions then
          && sessions[peer].key == key
          && sessions[peer].txSeqno == |node.sent| % TWO_64
          && (|peerSent| <= TWO_64 ==> InOrder(node.accepted, peerSent, sessions[peer].rxSeqno))
        else node.sent == [] && node.accepted == [])
  }

  /** The node sealed the ciphertext: for someone else, or as entry n of what it sent the peer. */
  ghost predicate SealedBy(ciphertext: Ciphertext, node: Node, peer: string, name: string, n: nat) {
    && ciphertext.Sealed?
    && ciphertext.ad == MakeRelayAd(node.manager.Name(), name)
    && (name == peer ==> n < |node.sent| && ciphertext.plain == Frame(n % TWO_64, node.sent[n]))
  }

  ghost predicate Genuine(net: Net, ciphertext: Ciphertext) {
    exists side, name, n: nat :: SealedBy(ciphertext, net.At(side), net.PeerName(side), name, n)
  }

  ghost predicate Inv(c: Crypto, net: Net, key: Bytes) {
    && Identities(c, net.left.manager, net.right.manager, key)
    && NodeInv(net.left, net.PeerName(Left), net.right.sent, key)
    && NodeInv(net.right, net.PeerName(Right), net.left.sent, key)
    && (forall ciphertext :: ciphertext in net.wire ==> Genuine(net, ciphertext))
  }

  lemma InvAt(c: Crypto, net: Net, key: Bytes, side: Side)
    requires Inv(c, net, key)
    ensures NodeInv(net.At(side), net.PeerName(side), net.At(side.Other()).sent, key)
    ensures Identities(c, net.At(side).manager, net.At(side.Other()).manager, key)
  {
    hide NodeInv, Genuine, SessionKey, Hex.Encode;
    KeysAgree(c, net.left.manager.secret, net.right.manager.secret);
  }

  lemma NamesDiffer(c: Crypto, a: Manager, b: Manager, key: Bytes)
    requires Identities(c, a, b, key)
    ensures a.Name() != b.Name() && OneLine(a.Name()) && OneLine(b.Name())
    ensures ParseIdentity(b.Name()) == Some(b.public)
  {
    NameParses(a.public);
    NameParses(b.public);
  }

  // What each operation does to a node.

  lemma EstablishNode(c: Crypto, node: Node, other: Manager, peerSent: seq<Bytes>, key: Bytes, name: string)
    requires Identities(c, node.manager, other, key) && NodeInv(node, other.Name(), peerSent, key)
    requires Establish(c, node.manager, name).Success?
    ensures var m := Establish(c, node.manager, name).value;
            && m.public == node.manager.public && m.secret == node.manager.secret
            && NodeInv(node.(manager := m), other.Name(), peerSent, key)
  {
    hide Hex.Encode, SessionKey;
    NamesDiffer(c, node.manager, other, key);
  }

  lemma EncryptNode(
    node: Node, peer: string, peerSent: seq<Bytes>, key: Bytes, name: string, payload: Bytes, nonce: Bytes)
    requires NodeInv(node, peer, peerSent, key)
    requires name in node.manager.sessions
    ensures var (m, envelope) := Encrypt(node.manager, name, payload, nonce).value;
            var node' := Node(m, if name == peer then node.sent + [payload] else node.sent, node.accepted);
            && m.public == node.manager.public && m.secret == node.manager.secret
            && node.sent <= node'.sent
            && NodeInv(node', peer, peerSent, key)
            && SealedBy(envelope.ciphertext.value, node', peer, name, |node.sent|)
  {
    hide ParseIdentity, InOrder, Frame, MakeRelayAd, Hex.Encode;
  }

  /** A delivery leaves the node alone, or accepts something beyond the receive counter. */
  lemma DecryptNode(node: Node, peer: string, peerSent: seq<Bytes>, key: Bytes, from: string, envelope: Envelope)
    requires NodeInv(node, peer, peerSent, key)
    requires var (m, result) := Decrypt(node.manager, from, envelope);
             from == peer && result.Success? && |peerSent| <= TWO_64 ==>
               && m.sessions[from].rxSeqno < |peerSent|
               && result.value == peerSent[m.sessions[from].rxSeqno]
    ensures var (m, result) := Decrypt(node.manager, from, envelope);
            var accepted := if result.Success? && from == peer
                            then node.accepted + [Accepted(m.sessions[from].rxSeqno, result.value)]
                            else node.accepted;
            && m.public == node.manager.public && m.secret == node.manager.secret
            && NodeInv(node.(manager := m, accepted := accepted), peer, peerSent, key)
  {
    hide ParseIdentity, Decrypt, InOrder;
    DecryptEffect(node.manager, from, envelope);
    var (m, result) := Decrypt(node.manager, from, envelope);
    if m != node.manager && from == peer && |peerSent| <= TWO_64 {
      var rx, rx' := node.manager.sessions[from].rxSeqno, m.sessions[from].rxSeqno;
      Advance(node.accepted, peerSent, rx, rx', if result.Success? then result.value else []);
    }
  }

  /** A later counter, with or without one more entry under it, keeps the order. */
  lemma Advance(accepted: seq<Accepted>, sent: seq<Bytes>, rx: nat, rx': nat, payload: Bytes)
    requires InOrder(accepted, sent, rx) && rx < rx'
    ensures InOrder(accepted, sent, rx')
    ensures rx' < |sent| && payload == sent[rx'] ==> InOrder(accepted + [Accepted(rx', payload)], sent, rx')
  {
  }

  lemma PeerSendsMore(node: Node, peer: string, peerSent: seq<Bytes>, peerSent': seq<Bytes>, key: Bytes)
    requires NodeInv(node, peer, peerSent, key) && peerSent <= peerSent'
    ensures NodeInv(node, peer, peerSent', key)
  {
    hide ParseIdentity;
  }

  /** Histories only grow, so a ciphertext stays accounted for. */
  lemma StaysGenuine(net: Net, net': Net, ciphertext: Ciphertext)
    requires Genuine(net, ciphertext)
    requires net'.left.manager.public == net.left.manager.public && net.left.sent <= net'.left.sent
    requires net'.right.manager.public == net.right.manager.public && net.right.sent <= net'.right.sent
    ensures Genuine(net', ciphertext)
  {
    hide Hex.Encode, Frame, MakeRelayAd;
    var side, name, n: nat :| SealedBy(ciphertext, net.At(side), net.PeerName(side), name, n);
    assert SealedBy(ciphertext, net'.At(side), net'.PeerName(side), name, n);
  }

  /** Replacing one node by a later version of itself keeps the invariant. */
  lemma AdvanceInv(c: Crypto, net: Net, key: Bytes, side: Side, node: Node, wire: set<Ciphertext>)
    requires Inv(c, net, key)
    requires node.manager.public == net.At(side).manager.public && node.manager.secret == net.At(side).manager.secret
    requires net.At(side).sent <= node.sent
    requires NodeInv(node, net.PeerName(side), net.At(side.Other()).sent, key)
    requires forall x :: x in wire ==> x in net.wire || Genuine(net.With(side, node), x)
    ensures Inv(c, net.With(side, node).(wire := wire), key)
  {
    hide NodeInv, Genuine, SessionKey, Hex.Encode, DiffieHellman;
    var net' := net.With(side, node).(wire := wire);
    InvAt(c, net, key, side.Other());
    PeerSendsMore(net.At(side.Other()), net.PeerName(side.Other()), net.At(side).sent, node.sent, key);
    forall x | x in wire
      ensures Genuine(net', x)
    {
      if x in net.wire {
        StaysGenuine(net, net', x);
      } else {
        StaysGenuine(net.With(side, node), net', x);
      }
    }
  }

  lemma HandshakeInv(c: Crypto, net: Net, key: Bytes, side: Side, peer: string)
    requires Inv(c, net, key)
    ensures Inv(c, HandshakeStep(c, net, side, peer), key)
  {
    hide Inv, NodeInv, Establish, Identities, Genuine;
    var r := Establish(c, net.At(side).manager, peer);
    if r.Success? {
      InvAt(c, net, key, side);
      EstablishNode(c, net.At(side), net.At(side.Other()).manager, net.At(side.Other()).sent, key, peer);
      AdvanceInv(c, net, key, side, net.At(side).(manager := r.value), net.wire);
    }
  }

  lemma SealInv(c: Crypto, net: Net, key: Bytes, side: Side, peer: string, payload: Bytes, nonce: Bytes)
    requires Inv(c, net, key)
    ensures Inv(c, SealStep(net, side, peer, payload, nonce), key)
  {
    hide Inv, NodeInv, Identities, SealedBy, Frame, MakeRelayAd, Hex.Encode;
    var node, name := net.At(side), net.PeerName(side);
    if peer in node.manager.sessions {
      InvAt(c, net, key, side);
      EncryptNode(node, name, net.At(side.Other()).sent, key, peer, payload, nonce);
      var (m, envelope) := Encrypt(node.manager, peer, payload, nonce).value;
      var node' := Node(m, if peer == name then node.sent + [payload] else node.sent, node.accepted);
      var net' := net.With(side, node');
      var ciphertext := envelope.ciphertext.value;
      assert SealedBy(ciphertext, net'.At(side), net'.PeerName(side), peer, |node.sent|);
      assert Genuine(net', ciphertext);
      AdvanceInv(c, net, key, side, node', net.wire + {ciphertext});
    }
  }

  /** A payload a node accepts under the other's name was sealed for it by the other, and
      carries its place among the payloads sealed. */
  lemma AcceptedIsGenuine(c: Crypto, net: Net, key: Bytes, side: Side, envelope: Envelope)
    requires Inv(c, net, key) && Possible(net, key, Deliver(side, net.PeerName(side), envelope))
    requires |net.At(side.Other()).sent| <= TWO_64
    requires Decrypt(net.At(side).manager, net.PeerName(side), envelope).1.Success?
    ensures var from, sent := net.PeerName(side), net.At(side.Other()).sent;
            var (m, result) := Decrypt(net.At(side).manager, from, envelope);
            m.sessions[from].rxSeqno < |sent| && result.value == sent[m.sessions[from].rxSeqno]
  {
    hide Hex.Encode, ParseIdentity, SessionKey, Frame, MakeRelayAd, DiffieHellman, Utf8.Valid, SeqnoOf, InOrder;
    var node, other := net.At(side), net.At(side.Other());
    var from := other.manager.Name();
    InvAt(c, net, key, side);
    NamesDiffer(c, node.manager, other.manager, key);
    var ciphertext := envelope.ciphertext.value;
    assert Genuine(net, ciphertext);
    var s, name, n: nat :| SealedBy(ciphertext, net.At(s), net.PeerName(s), name, n);
    AdInjective(from, node.manager.Name(), net.At(s).manager.Name(), name);
    assert s == side.Other();
    FrameParts(n % TWO_64, other.sent[n]);
  }

  lemma DeliverInv(c: Crypto, net: Net, key: Bytes, side: Side, from: string, envelope: Envelope)
    requires Inv(c, net, key) && Possible(net, key, Deliver(side, from, envelope))
    ensures Inv(c, DeliverStep(net, side, from, envelope), key)
  {
    hide Inv, NodeInv, Identities, Decrypt, Possible, Genuine;
    var node, peer, peerSent := net.At(side), net.PeerName(side), net.At(side.Other()).sent;
    InvAt(c, net, key, side);
    if from == peer && |peerSent| <= TWO_64 && Decrypt(node.manager, from, envelope).1.Success? {
      AcceptedIsGenuine(c, net, key, side, envelope);
    }
    DecryptNode(node, peer, peerSent, key, from, envelope);
    AdvanceInv(c, net, key, side, DeliverStep(net, side, from, envelope).At(side), net.wire);
  }

  // Runs.

  ghost predicate PossibleRun(c: Crypto, net: Net, key: Bytes, events: seq<Event>)
    decreases |events|
  {
    events == [] || (Possible(net, key, events[0]) && PossibleRun(c, Step(c, net, events[0]), key, events[1..]))
  }

  function Run(c: Crypto, net: Net, events: seq<Event>): Net
    decreases |events|
  {
    if events == [] then net else Run(c, Step(c, net, events[0]), events[1..])
  }

  lemma {:induction false} RunInv(c: Crypto, net: Net, key: Bytes, events: seq<Event>)
    requires Inv(c, net, key) && PossibleRun(c, net, key, events)
    ensures Inv(c, Run(c, net, events), key)
    decreases |events|
  {
    hide Inv, HandshakeStep, SealStep, DeliverStep, Possible;
    if events != [] {
      match events[0] {
        case Handshake(side, peer) => HandshakeInv(c, net, key, side, peer);
        case Seal(side, peer, payload, nonce) => SealInv(c, net, key, side, peer, payload, nonce);
        case Deliver(side, from, envelope) => DeliverInv(c, net, key, side, from, envelope);
      }
      RunInv(c, Step(c, net, events[0]), key, events[1..]);
    }
  }

  /** No sessions, no history, nothing on the wire. */
  ghost predicate Fresh(net: Net) {
    && net.left == Node(net.left.manager.(sessions := map[]), [], [])
    && net.right == Node(net.right.manager.(sessions := map[]), [], [])
    && net.wire == {}
  }

  /** For every run: the payloads one node accepts from the other are, for some rising indices
      from 1 on, the payloads the other sealed for it; so they come in order, each at most once,
      and never the first. The sender's counter must not have wrapped. */
  lemma AcceptedIsSubsequence(c: Crypto, net: Net, key: Bytes, events: seq<Event>, side: Side) returns (at: seq<nat>)
    requires Fresh(net) && Identities(c, net.left.manager, net.right.manager, key)
    requires PossibleRun(c, net, key, events)
    requires |Run(c, net, events).At(side.Other()).sent| <= TWO_64
    ensures var last := Run(c, net, events);
            var accepted, sent := last.At(side).accepted, last.At(side.Other()).sent;
            && |at| == |accepted|
            && (forall k :: 0 <= k < |at| ==> 1 <= at[k] < |sent| && accepted[k].payload == sent[at[k]])
            && (forall j, k :: 0 <= j < k < |at| ==> at[j] < at[k])
  {
    hide Step, Hex.Encode, Identities;
    assert Inv(c, net, key);
    RunInv(c, net, key, events);
    var last := Run(c, net, events);
    InvAt(c, last, key, side);
    var accepted := last.At(side).accepted;
    at := seq(|accepted|, k requires 0 <= k < |accepted| => accepted[k].seqno);
  }

  /** Nothing is lost but by the network: between nodes with sessions, what one seals for the
      other and the network hands over at once is in flight, allowed, and accepted under its
      number, if that is new to the receiver and the payload valid UTF-8. */
  lemma SealThenDeliver(c: Crypto, net: Net, key: Bytes, side: Side, payload: Bytes, nonce: Bytes)
    requires Inv(c, net, key) && |nonce| == NONCE_BYTES && Utf8.Valid(payload)
    requires Paired(net.At(side).manager, net.At(side.Other()).manager)
    requires var a, b := net.At(side).manager, net.At(side.Other()).manager;
             a.sessions[b.Name()].txSeqno > b.sessions[a.Name()].rxSeqno
    ensures var a, b := net.At(side).manager, net.At(side.Other()).manager;
            Encrypt(a, b.Name(), payload, nonce).Success?
    ensures var a, b := net.At(side), net.At(side.Other());
            var from, to := a.manager.Name(), b.manager.Name();
            var envelope := Encrypt(a.manager, to, payload, nonce).value.1;
            var sealed := Step(c, net, Seal(side, to, payload, nonce));
            var delivery := Deliver(side.Other(), from, envelope);
            && sealed.At(side).sent == a.sent + [payload] && envelope.ciphertext.value in sealed.wire
            && Possible(sealed, key, delivery)
            && Step(c, sealed, delivery).At(side.Other()).accepted
               == b.accepted + [Accepted(a.manager.sessions[to].txSeqno, payload)]
  {
    hide Inv, Encrypt, Decrypt, Utf8.Valid, Hex.Encode;
    var a, b := net.At(side).manager, net.At(side.Other()).manager;
    DeliverOpens(a, b, payload, nonce);
    var number := EnvelopeExactly(a, b.Name(), payload, nonce);
  }
}
