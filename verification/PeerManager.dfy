/** The daemon's side of the signalling protocol: how P2PManager in
    crates/folk-transport/src/lib.rs answers each message the room sends it. */
module PeerManager {
  import opened Wrappers
  import opened Text
  import Hex
  import Utf8
  import opened Relay
  import P = Protocol

  /** The data of an offer or answer, which nobody reads; the envelope of a relay, as an object
      or as its JSON in a string; or a string that is not JSON. */
  datatype Data = Introduction(accepted: bool) | Payload(envelope: Envelope) | Garbled

  type ToRoom = P.ClientMessage<Data>

  type ToDaemon = P.ServerMessage<Data>

  /** A text message from the room, as JSON: a field that is absent or of another type, or an
      element of the joined list that is no string, is None. */
  datatype Incoming =
    | NotJson
    | JoinedList(peers: Option<seq<Option<string>>>)
    | JoinNotice(identity: Option<string>)
    | Directed(kind: P.Kind, from: Option<string>, data: Option<Data>)
    | OtherType

  /** MCP dispatch: a reply or none; an error when the payload is not JSON. */
  type Handler = Bytes -> Result<Option<Bytes>, Error>

  function EnvelopeOf(data: Data): Result<Envelope, Error> {
    match data
    case Introduction(_) => Success(Envelope(None, None, None, None))
    case Payload(envelope) => Success(envelope)
    case Garbled => Failure(JsonError)
  }

  function DecryptData(m: Manager, from: string, data: Data): (Manager, Result<Bytes, Error>) {
    match EnvelopeOf(data)
    case Failure(error) => (m, Failure(error))
    case Success(envelope) => Decrypt(m, from, envelope)
  }

  function OfferTo(m: Manager, peer: string): ToRoom {
    P.Forward(P.Offer, Some(m.Name()), Some(peer), Introduction(false))
  }

  function AnswerTo(m: Manager, peer: string): ToRoom {
    P.Forward(P.Answer, Some(m.Name()), Some(peer), Introduction(true))
  }

  function RelayTo(m: Manager, peer: string, envelope: Envelope): ToRoom {
    P.Forward(P.Relay, Some(m.Name()), Some(peer), Payload(envelope))
  }

  function Offers(m: Manager, peers: seq<string>): seq<ToRoom> {
    if peers == [] then [] else [OfferTo(m, peers[0])] + Offers(m, peers[1..])
  }

  /** handle_relay: the session's receive counter moves even when the payload is then refused. */
  function AnswerRelay(handler: Handler, m: Manager, from: string, data: Data, nonce: Bytes)
    : (Manager, Result<seq<ToRoom>, Error>)
  {
    if from !in m.sessions then (m, Failure(InvalidPeerIdentity))
    else
      var (m1, decrypted) := DecryptData(m, from, data);
      match decrypted
      case Failure(error) => (m1, Failure(error))
      case Success(payload) =>
        match handler(payload)
        case Failure(error) => (m1, Failure(error))
        case Success(None) => (m1, Success([]))
        case Success(Some(reply)) =>
          match Encrypt(m1, from, reply, nonce)
          case Failure(error) => (m1, Failure(error))
          case Success((m2, envelope)) => (m2, Success([RelayTo(m2, from, envelope)]))
  }

  /** What one message from the room does to the manager, and what it sends back; an error
      ends the connection. */
  function React(c: Crypto, handler: Handler, m: Manager, msg: ToDaemon, nonce: Bytes)
    : (Manager, Result<seq<ToRoom>, Error>)
  {
    match msg
    case Joined(peers) => (m, Success(Offers(m, peers)))
    case PeerJoined(peer) => (m, Success([OfferTo(m, peer)]))
    case Forwarded(Relay, from, data) => AnswerRelay(handler, m, from, data, nonce)
    case Forwarded(kind, from, _) =>
      (match Establish(c, m, from)
       case Failure(error) => (m, Failure(error))
       case Success(m') => (m', Success(if kind == P.Offer then [AnswerTo(m', from)] else [])))
    case PeerLeft(_) => (m, Success([]))
    case Error(_) => (m, Success([]))
  }

  /** The strings of a JSON array, which may hold anything. */
  function Strings(values: seq<Option<string>>): seq<string> {
    if values == [] then []
    else (if values[0].Some? then [values[0].value] else []) + Strings(values[1..])
  }

  /** What a text message says to the manager: nothing, when it is of another type or lacks a
      field; only a relay must have its fields, and from is looked for first. */
  function Understand(msg: Incoming): Result<Option<ToDaemon>, Error> {
    match msg
    case NotJson => Failure(JsonError)
    case JoinedList(Some(peers)) => Success(Some(P.Joined(Strings(peers))))
    case JoinNotice(Some(peer)) => Success(Some(P.PeerJoined(peer)))
    case Directed(Relay, None, _) => Failure(InvalidPeerIdentity)
    case Directed(Relay, _, None) => Failure(InvalidEncryptedPayload)
    case Directed(Relay, Some(from), Some(data)) => Success(Some(P.Forwarded(P.Relay, from, data)))
    case Directed(kind, Some(from), _) => Success(Some(P.Forwarded(kind, from, Introduction(false))))
    case _ => Success(None)
  }

  function ReactToText(c: Crypto, handler: Handler, m: Manager, msg: Incoming, nonce: Bytes)
    : (Manager, Result<seq<ToRoom>, Error>)
  {
    match Understand(msg)
    case Failure(error) => (m, Failure(error))
    case Success(None) => (m, Success([]))
    case Success(Some(understood)) => React(c, handler, m, understood, nonce)
  }

  /** The text of a message of the room. */
  function AsText(msg: ToDaemon): Incoming {
    match msg
    case Joined(peers) => JoinedList(Some(seq(|peers|, i requires 0 <= i < |peers| => Some(peers[i]))))
    case PeerJoined(peer) => JoinNotice(Some(peer))
    case Forwarded(kind, from, data) => Directed(kind, Some(from), Some(data))
    case PeerLeft(_) => OtherType
    case Error(_) => OtherType
  }

  lemma {:induction false} StringsOf(peers: seq<string>)
    ensures Strings(seq(|peers|, i requires 0 <= i < |peers| => Some(peers[i]))) == peers
    decreases |peers|
  {
    if peers != [] {
      StringsOf(peers[1..]);
      var values := seq(|peers|, i requires 0 <= i < |peers| => Some(peers[i]));
      var rest := peers[1..];
      assert values[1..] == seq(|rest|, i requires 0 <= i < |rest| => Some(rest[i]));
    }
  }

  /** The text of every message of the room gets the message's reaction. */
  lemma TextReaction(c: Crypto, handler: Handler, m: Manager, msg: ToDaemon, nonce: Bytes)
    ensures ReactToText(c, handler, m, AsText(msg), nonce) == React(c, handler, m, msg, nonce)
  {
    hide Strings, Establish, AnswerRelay, Offers;
    if msg.Joined? {
      StringsOf(msg.peers);
    }
  }

  lemma StringsOne(x: string)
    ensures Strings([Some(x)]) == [x] && Strings([None]) == []
  {
    var one: seq<Option<string>> := [Some(x)];
    var none: seq<Option<string>> := [None];
    assert one[1..] == [] && none[1..] == [];
  }

  lemma {:induction false} StringsConcat(a: seq<Option<string>>, b: seq<Option<string>>)
    ensures Strings(a + b) == Strings(a) + Strings(b)
  {
    if a == [] {
      assert a + b == b;
    } else {
      assert (a + b)[0] == a[0] && (a + b)[1..] == a[1..] + b;
      StringsConcat(a[1..], b);
    }
  }

  /** Of another type, or without the field its type is about. */
  predicate Ignored(msg: Incoming) {
    match msg
    case NotJson => false
    case JoinedList(peers) => peers == None
    case JoinNotice(identity) => identity == None
    case Directed(kind, from, _) => kind != P.Relay && from == None
    case OtherType => true
  }

  /** An offer from an identity leaves a session and is met with one answer, an answer leaves a
      session and is met with silence, whatever either carries. A joined list is met with one
      offer to each string in it, in order; a notice with one offer. The rest is ignored. */
  lemma IntroductionsMet(c: Crypto, handler: Handler, m: Manager, msg: Incoming, nonce: Bytes)
    ensures var (m', result) := ReactToText(c, handler, m, msg, nonce);
            var me := Some(m.Name());
            && (msg.Directed? && msg.kind != P.Relay && msg.from.Some? && ParseIdentity(msg.from.value).Some? ==>
                  && msg.from.value in m'.sessions
                  && result == Success(if msg.kind == P.Offer
                                       then [P.Forward(P.Answer, me, msg.from, Introduction(true))] else []))
            && (msg.JoinedList? && msg.peers.Some? ==>
                  && m' == m && result.Success? && |result.value| == |Strings(msg.peers.value)|
                  && forall i :: 0 <= i < |result.value| ==>
                       var to := Some(Strings(msg.peers.value)[i]);
                       result.value[i] == P.Forward(P.Offer, me, to, Introduction(false)))
            && (msg.JoinNotice? && msg.identity.Some? ==>
                  m' == m && result == Success([P.Forward(P.Offer, me, msg.identity, Introduction(false))]))
            && (Ignored(msg) ==> m' == m && result == Success([]))
  {
    hide Strings, Hex.Encode, ParseIdentity, SessionKey;
    if msg.JoinedList? && msg.peers.Some? {
      OffersExactly(m, Strings(msg.peers.value));
    }
  }

  lemma {:induction false} OffersExactly(m: Manager, peers: seq<string>)
    ensures |Offers(m, peers)| == |peers|
    ensures forall i :: 0 <= i < |peers| ==>
              Offers(m, peers)[i] == P.Forward(P.Offer, Some(m.Name()), Some(peers[i]), Introduction(false))
  {
    hide Hex.Encode;
    if peers != [] {
      OffersExactly(m, peers[1..]);
    }
  }

  /** What ends the connection, other than a relay: text that is not JSON, and an offer or
      answer from a name that is no identity. The manager is then as it was. */
  lemma NonRelayFails(c: Crypto, handler: Handler, m: Manager, msg: Incoming, nonce: Bytes)
    requires !(msg.Directed? && msg.kind == P.Relay)
    ensures var (m', result) := ReactToText(c, handler, m, msg, nonce);
            && (result.Failure? <==>
                  || msg.NotJson?
                  || (msg.Directed? && msg.from.Some? && ParseIdentity(msg.from.value) == None))
            && (result.Failure? ==> m' == m)
  {
    hide Strings, ParseIdentity, Offers, Hex.Encode;
  }

  /** What a relay must bring to leave the connection up: a sender with a session, an envelope
      sealed from it to this daemon under the session's key, with a new number and UTF-8, that
      dispatch takes. */
  ghost predicate Answerable(handler: Handler, m: Manager, from: Option<string>, data: Option<Data>) {
    && from.Some? && from.value in m.sessions
    && exists nonce, plain :: |nonce| == 24 && |plain| >= 8
         && data == Some(SealedData(m.sessions[from.value].key, nonce, from.value, m.Name(), plain))
         && SeqnoOf(plain[..8]) > m.sessions[from.value].rxSeqno
         && Utf8.Valid(plain[8..]) && handler(plain[8..]).Success?
  }

  function SealedData(key: Bytes, nonce: Bytes, from: string, to: string, plain: Bytes): Data {
    var ad := "folk-around p2p relay\nfrom=" + from + "\nto=" + to;
    Payload(Envelope(Some(1), Some("xchacha20poly1305"), Some(nonce), Some(Sealed(key, nonce, ad, plain))))
  }

  /** Every other relay ends the connection, and one from a peer without a session changes
      nothing. A relay never costs or adds a session. */
  lemma RelayFails(
    c: Crypto, handler: Handler, m: Manager, from: Option<string>, data: Option<Data>, nonce: Bytes)
    ensures var (m', result) := ReactToText(c, handler, m, Directed(P.Relay, from, data), nonce);
            && (result.Failure? <==> !Answerable(handler, m, from, data))
            && m'.sessions.Keys == m.sessions.Keys
            && (from.Some? && from.value !in m.sessions ==>
                  m' == m && (data.Some? ==> result == Failure(InvalidPeerIdentity)))
  {
    hide SeqnoOf, Utf8.Valid, Hex.Encode, BigEndian, Frame;
    if ReactToText(c, handler, m, Directed(P.Relay, from, data), nonce).1.Success? {
      var envelope := data.value.envelope;
      var plain := envelope.ciphertext.value.plain;
      assert data == Some(SealedData(m.sessions[from.value].key, envelope.nonce.value, from.value, m.Name(), plain));
    }
  }

  /** Which error each refusal is, in the order they are looked for. A relay that opens moves the
      receive counter even if it is refused after that. */
  lemma RelayErrors(
    c: Crypto, handler: Handler, m: Manager, from: string, data: Data, nonce: Bytes, sealNonce: Bytes, plain: Bytes)
    requires from in m.sessions
    ensures var (m', result) := ReactToText(c, handler, m, Directed(P.Relay, Some(from), Some(data)), nonce);
            var session := m.sessions[from];
            && (data.Garbled? ==> m' == m && result == Failure(JsonError))
            && (data.Introduction? ==> m' == m && result == Failure(InvalidEncryptedPayload))
            && (data == SealedData(session.key, sealNonce, from, m.Name(), plain) && |sealNonce| == 24 ==>
                  if |plain| < 8 || SeqnoOf(plain[..8]) <= session.rxSeqno then
                    m' == m && result == Failure(InvalidEncryptedPayload)
                  else
                    && m'.sessions[from].rxSeqno == SeqnoOf(plain[..8])
                    && (!Utf8.Valid(plain[8..]) ==> result == Failure(InvalidEncryptedPayload))
                    && (Utf8.Valid(plain[8..]) && handler(plain[8..]).Failure? ==>
                          result == Failure(handler(plain[8..]).error)))
            && (data.Payload? && data.envelope.v == Some(1) && data.envelope.alg == Some("xchacha20poly1305")
                && data.envelope.nonce.Some? && |data.envelope.nonce.value| == 24
                && data.envelope.ciphertext.Some? && !SealedFor(data.envelope, session.key, from, m.Name()) ==>
                  m' == m && result == Failure(CryptoError))
  {
    hide SeqnoOf, Utf8.Valid, Hex.Encode, BigEndian, Frame;
  }

  /** The envelope opens under this key, from and to these names. */
  predicate SealedFor(envelope: Envelope, key: Bytes, from: string, to: string) {
    && envelope.nonce.Some? && envelope.ciphertext.Some? && envelope.ciphertext.value.Sealed?
    && Payload(envelope) == SealedData(key, envelope.nonce.value, from, to, envelope.ciphertext.value.plain)
  }

  /** A request sealed by a paired daemon with a new number, when dispatch answers it, gets
      exactly one relay back, in which the requester finds the answer; when dispatch has none,
      nothing is sent. */
  lemma RelayAnswered(
    c: Crypto, handler: Handler, a: Manager, b: Manager, request: Bytes, sealNonce: Bytes,
    answer: Option<Bytes>, nonce: Bytes) returns (reply: Envelope)
    requires Paired(a, b) && |sealNonce| == NONCE_BYTES && |nonce| == NONCE_BYTES
    requires a.sessions[b.Name()].txSeqno > b.sessions[a.Name()].rxSeqno
    requires Utf8.Valid(request) && handler(request) == Success(answer)
    ensures Encrypt(a, b.Name(), request, sealNonce).Success?
    ensures var (a', envelope) := Encrypt(a, b.Name(), request, sealNonce).value;
            var (b', result) := ReactToText(
              c, handler, b, Directed(P.Relay, Some(a.Name()), Some(Payload(envelope))), nonce);
            && a.Name() in b'.sessions
            && b'.sessions[a.Name()].rxSeqno == a.sessions[b.Name()].txSeqno
            && (if answer == None then
                  result == Success([]) && b'.sessions[a.Name()].txSeqno == b.sessions[a.Name()].txSeqno
                else
                  && result == Success([P.Forward(P.Relay, Some(b.Name()), Some(a.Name()), Payload(reply))])
                  && b'.sessions[a.Name()].txSeqno == (b.sessions[a.Name()].txSeqno + 1) % TWO_64
                  && (b.sessions[a.Name()].txSeqno > a.sessions[b.Name()].rxSeqno && Utf8.Valid(answer.value) ==>
                        Decrypt(a', b.Name(), reply).1 == Success(answer.value)))
  {
    hide Decrypt, Encrypt, Hex.Encode, Utf8.Valid;
    DeliverOpens(a, b, request, sealNonce);
    var (a', envelope) := Encrypt(a, b.Name(), request, sealNonce).value;
    var b1 := Decrypt(b, a.Name(), envelope).0;
    reply := envelope;
    if answer.Some? {
      DeliverOne(b1, a', answer.value, nonce);
      var number := EnvelopeExactly(b1, a.Name(), answer.value, nonce);
      reply := Encrypt(b1, a.Name(), answer.value, nonce).value.1;
    }
  }

  /** The first payload over a fresh session, whatever it holds, makes the receiving daemon drop
      its connection: it is numbered 0, and the receiver wants more. */
  lemma FirstRelayDisconnects(
    c: Crypto, handler: Handler, a: Manager, b: Manager, payload: Bytes, sealNonce: Bytes, nonce: Bytes)
    requires Paired(a, b) && |sealNonce| == NONCE_BYTES && a.sessions[b.Name()].txSeqno == 0
    ensures Encrypt(a, b.Name(), payload, sealNonce).Success?
    ensures var envelope := Encrypt(a, b.Name(), payload, sealNonce).value.1;
            ReactToText(c, handler, b, Directed(P.Relay, Some(a.Name()), Some(Payload(envelope))), nonce).1
            == Failure(InvalidEncryptedPayload)
  {
    hide Decrypt, Encrypt, Hex.Encode;
    DeliverOne(a, b, payload, sealNonce);
  }

  /** The object itself. Its identity never changes; its sessions map does. */
  class P2PManager {
    const crypto: Crypto
    const handler: Handler
    const identityPublic: Bytes
    const identitySecret: Bytes
    var sessions: map<string, Session>

    ghost function View(): Manager
      reads this
    {
      Manager(identityPublic, identitySecret, sessions)
    }

    constructor (crypto: Crypto, handler: Handler, secret: Bytes)
      ensures View() == Manager(crypto.public(secret), secret, map[])
      ensures this.crypto == crypto && this.handler == handler
    {
      this.crypto, this.handler := crypto, handler;
      identityPublic, identitySecret := crypto.public(secret), secret;
      sessions := map[];
    }

    method EstablishSession(peer: string) returns (error: Option<Error>)
      modifies this
      ensures match Establish(crypto, old(View()), peer)
              case Success(m) => error == None && View() == m
              case Failure(e) => error == Some(e) && View() == old(View())
    {
      var peerPublic := ParseIdentity(peer);
      if peerPublic == None {
        return Some(InvalidPeerIdentity);
      }
      var shared := crypto.shared(identitySecret, peerPublic.value);
      var salt: Bytes;
      if Less(identityPublic, peerPublic.value) {
        salt := identityPublic + peerPublic.value;
      } else {
        salt := peerPublic.value + identityPublic;
      }
      var key := crypto.hkdf(salt, shared, KDF_INFO);
      if peer !in sessions {
        sessions := sessions[peer := Session(key, 0, 0)];
      }
      return None;
    }

    method EncryptRelayPayload(peer: string, plaintext: Bytes, nonce: Bytes) returns (r: Result<Envelope, Error>)
      modifies this
      ensures match Encrypt(old(View()), peer, plaintext, nonce)
              case Success((m, envelope)) => r == Success(envelope) && View() == m
              case Failure(error) => r == Failure(error) && View() == old(View())
    {
      if peer !in sessions {
        return Failure(HandshakeRequired);
      }
      var session := sessions[peer];
      var seqno := session.txSeqno;
      sessions := sessions[peer := session.(txSeqno := (session.txSeqno + 1) % TWO_64)];
      var buffer := BigEndian(seqno, SEQNO_BYTES);
      buffer := buffer + plaintext;
      var ad := MakeRelayAd(Hex.Encode(identityPublic), peer);
      r := Success(Envelope(Some(1), Some(ALGORITHM), Some(nonce), Some(Sealed(session.key, nonce, ad, buffer))));
    }

    method DecryptRelayData(from: string, data: Data) returns (r: Result<Bytes, Error>)
      modifies this
      ensures (View(), r) == DecryptData(old(View()), from, data)
    {
      var parsed := EnvelopeOf(data);
      if parsed.Failure? {
        return Failure(parsed.error);
      }
      var env := parsed.value;
      if env.v != Some(1) || env.alg != Some(ALGORITHM) || env.nonce == None || env.ciphertext == None {
        return Failure(InvalidEncryptedPayload);
      }
      if |env.nonce.value| != NONCE_BYTES {
        return Failure(InvalidEncryptedPayload);
      }
      if from !in sessions {
        return Failure(HandshakeRequired);
      }
      var session := sessions[from];
      var ad := MakeRelayAd(from, Hex.Encode(identityPublic));
      var buffer := Open(session.key, env.nonce.value, ad, env.ciphertext.value);
      if buffer == None {
        return Failure(CryptoError);
      }
      if |buffer.value| < SEQNO_BYTES {
        return Failure(InvalidEncryptedPayload);
      }
      var seqno := SeqnoOf(buffer.value[..SEQNO_BYTES]);
      if seqno <= session.rxSeqno {
        return Failure(InvalidEncryptedPayload);
      }
      sessions := sessions[from := session.(rxSeqno := seqno)];
      var payload := buffer.value[SEQNO_BYTES..];
      if Utf8.Valid(payload) {
        return Success(payload);
      }
      return Failure(InvalidEncryptedPayload);
    }

    method HandleRelay(from: Option<string>, data: Option<Data>, nonce: Bytes) returns (r: Result<seq<ToRoom>, Error>)
      modifies this
      ensures (View(), r) == ReactToText(crypto, handler, old(View()), Directed(P.Relay, from, data), nonce)
    {
      hide Decrypt, Encrypt, Hex.Encode;
      if from == None {
        return Failure(InvalidPeerIdentity);
      }
      if data == None {
        return Failure(InvalidEncryptedPayload);
      }
      var peer := from.value;
      if peer !in sessions {
        return Failure(InvalidPeerIdentity);
      }
      var decrypted := DecryptRelayData(peer, data.value);
      if decrypted.Failure? {
        return Failure(decrypted.error);
      }
      var handled := handler(decrypted.value);
      if handled.Failure? {
        return Failure(handled.error);
      }
      if handled.value == None {
        return Success([]);
      }
      var encrypted := EncryptRelayPayload(peer, handled.value.value, nonce);
      if encrypted.Failure? {
        return Failure(encrypted.error);
      }
      return Success([RelayTo(Manager(identityPublic, identitySecret, sessions), peer, encrypted.value)]);
    }

    method OfferAll(peers: seq<Option<string>>) returns (sent: seq<ToRoom>)
      ensures sent == Offers(View(), Strings(peers))
    {
      hide Hex.Encode;
      var self := Manager(identityPublic, identitySecret, sessions);
      sent := [];
      for i := 0 to |peers|
        invariant sent + Offers(self, Strings(peers[i..])) == Offers(self, Strings(peers))
      {
        if peers[i].Some? {
          OffersCons(self, peers[i].value, Strings(peers[i + 1..]));
          sent := sent + [OfferTo(self, peers[i].value)];
        } else {
          assert [] + Strings(peers[i + 1..]) == Strings(peers[i + 1..]);
        }
        assert peers[i..][1..] == peers[i + 1..];
      }
      assert peers[|peers|..] == [] && sent + [] == sent;
    }

    method HandleSignalMessage(msg: Incoming, nonce: Bytes) returns (r: Result<seq<ToRoom>, Error>)
      modifies this
      ensures (View(), r) == ReactToText(crypto, handler, old(View()), msg, nonce)
    {
      hide Hex.Encode, Offers, Strings;
      match msg {
        case NotJson =>
          return Failure(JsonError);
        case JoinedList(peers) =>
          if peers.Some? {
            var sent := OfferAll(peers.value);
            return Success(sent);
          }
        case JoinNotice(peer) =>
          if peer.Some? {
            return Success([OfferTo(Manager(identityPublic, identitySecret, sessions), peer.value)]);
          }
        case Directed(kind, from, data) =>
          if kind == P.Relay {
            r := HandleRelay(from, data, nonce);
            return;
          }
          if from.Some? {
            var error := EstablishSession(from.value);
            if error.Some? {
              return Failure(error.value);
            }
            if kind == P.Offer {
              return Success([AnswerTo(Manager(identityPublic, identitySecret, sessions), from.value)]);
            }
          }
        case OtherType =>
      }
      return Success([]);
    }
  }

  lemma OffersCons(m: Manager, peer: string, rest: seq<string>)
    ensures Offers(m, [peer] + rest) == [OfferTo(m, peer)] + Offers(m, rest)
  {
    assert ([peer] + rest)[1..] == rest;
  }
}
