/** Encrypted relay sessions (P2PManager in crates/folk-transport/src/lib.rs).
    The primitives are parameters; a sealed ciphertext is a symbolic term that opens only
    under the key, nonce and associated data it was sealed with. */
module Relay {
  import opened Wrappers
  import opened Text
  import Hex
  import Utf8

  const IDENTITY_BYTES: nat := 32
  const NONCE_BYTES: nat := 24
  const SEQNO_BYTES: nat := 8
  const TWO_64: nat := 0x1_0000_0000_0000_0000
  const KDF_INFO := "folk-around p2p relay v1"
  const ALGORITHM := "xchacha20poly1305"

  type U64 = n: nat | n < TWO_64

  /** X25519 on a secret's base point, X25519, and HKDF-SHA256 on salt, key and info. */
  datatype Crypto = Crypto(
    public: Bytes -> Bytes,
    shared: (Bytes, Bytes) -> Bytes,
    hkdf: (Bytes, Bytes, string) -> Bytes)

  /** What section 6.1 of RFC 7748 promises: 32-byte keys and one shared secret. */
  ghost predicate DiffieHellman(c: Crypto) {
    && (forall a :: |c.public(a)| == IDENTITY_BYTES)
    && (forall a, b :: c.shared(a, c.public(b)) == c.shared(b, c.public(a)))
  }

  datatype Ciphertext =
    | Sealed(key: Bytes, nonce: Bytes, ad: string, plain: Bytes)
    | Other(bytes: Bytes)

  function Open(key: Bytes, nonce: Bytes, ad: string, ciphertext: Ciphertext): Option<Bytes> {
    if ciphertext.Sealed? && ciphertext.key == key && ciphertext.nonce == nonce && ciphertext.ad == ad
    then Some(ciphertext.plain) else None
  }

  /** The JSON object of a relay; None is a field that is missing, of another type or not hex. */
  datatype Envelope = Envelope(
    v: Option<int>,
    alg: Option<string>,
    nonce: Option<Bytes>,
    ciphertext: Option<Ciphertext>)

  datatype Error = InvalidPeerIdentity | HandshakeRequired | InvalidEncryptedPayload | CryptoError | JsonError

  datatype Session = Session(key: Bytes, rxSeqno: U64, txSeqno: U64)

  datatype Manager = Manager(public: Bytes, secret: Bytes, sessions: map<string, Session>) {
    function Name(): string {
      Hex.Encode(public)
    }
  }

  // Identities, keys and associated data.

  function ParseIdentity(name: string): (r: Option<Bytes>)
    ensures r.Some? ==> |r.value| == IDENTITY_BYTES && |name| == 2 * IDENTITY_BYTES
  {
    match Hex.Decode(name)
    case Some(bytes) => if |bytes| == IDENTITY_BYTES then Some(bytes) else None
    case None => None
  }

  /** Lexicographic order, as arrays compare. */
  predicate Less(a: Bytes, b: Bytes) {
    if a == [] || b == [] then a == [] && b != []
    else a[0] < b[0] || (a[0] == b[0] && Less(a[1..], b[1..]))
  }

  function Salt(own: Bytes, peer: Bytes): Bytes {
    if Less(own, peer) then own + peer else peer + own
  }

  function SessionKey(c: Crypto, secret: Bytes, own: Bytes, peer: Bytes): Bytes {
    c.hkdf(Salt(own, peer), c.shared(secret, peer), KDF_INFO)
  }

  function MakeRelayAd(from: string, to: string): string {
    "folk-around p2p relay\nfrom=" + from + "\nto=" + to
  }

  // The sequence number in front of a payload.

  function BigEndian(n: nat, width: nat): (r: Bytes)
    ensures |r| == width
  {
    if width == 0 then [] else BigEndian(n / 256, width - 1) + [(n % 256) as char]
  }

  function FromBigEndian(s: Bytes): nat {
    if s == [] then 0 else 256 * FromBigEndian(s[..|s| - 1]) + s[|s| - 1] as int
  }

  function Pow256(k: nat): (r: nat)
    ensures r > 0
  {
    if k == 0 then 1 else 256 * Pow256(k - 1)
  }

  lemma {:induction false} BigEndianRoundTrip(n: nat, width: nat)
    requires n < Pow256(width)
    ensures FromBigEndian(BigEndian(n, width)) == n
  {
    if width > 0 {
      BigEndianRoundTrip(n / 256, width - 1);
      var r := BigEndian(n, width);
      assert r[..|r| - 1] == BigEndian(n / 256, width - 1);
    }
  }

  lemma {:induction false} FromBigEndianBound(s: Bytes)
    ensures FromBigEndian(s) < Pow256(|s|)
  {
    if s != [] {
      FromBigEndianBound(s[..|s| - 1]);
    }
  }

  lemma Pow256Of8()
    ensures Pow256(SEQNO_BYTES) == TWO_64
  {
    assert Pow256(2) == 0x1_0000;
    assert Pow256(4) == 0x1_0000_0000;
    assert Pow256(6) == 0x1_0000_0000_0000;
  }

  function SeqnoOf(s: Bytes): U64
    requires |s| == SEQNO_BYTES
  {
    FromBigEndianBound(s);
    Pow256Of8();
    FromBigEndian(s)
  }

  function Frame(seqno: U64, payload: Bytes): Bytes {
    BigEndian(seqno, SEQNO_BYTES) + payload
  }

  // The operations, on values.

  /** establish_session: a session that exists is left alone. */
  function Establish(c: Crypto, m: Manager, peer: string): Result<Manager, Error> {
    match ParseIdentity(peer)
    case None => Failure(InvalidPeerIdentity)
    case Some(peerPublic) =>
      if peer in m.sessions then Success(m)
      else Success(m.(sessions := m.sessions[peer := Session(SessionKey(c, m.secret, m.public, peerPublic), 0, 0)]))
  }

  /** encrypt_relay_payload: the counter wraps at 2^64, as in a release build. */
  function Encrypt(m: Manager, peer: string, plaintext: Bytes, nonce: Bytes): Result<(Manager, Envelope), Error> {
    if peer !in m.sessions then Failure(HandshakeRequired)
    else
      var session := m.sessions[peer];
      var next := session.(txSeqno := (session.txSeqno + 1) % TWO_64);
      var ciphertext := Sealed(session.key, nonce, MakeRelayAd(m.Name(), peer), Frame(session.txSeqno, plaintext));
      Success((m.(sessions := m.sessions[peer := next]),
               Envelope(Some(1), Some(ALGORITHM), Some(nonce), Some(ciphertext))))
  }

  predicate WellFormed(env: Envelope) {
    && env.v == Some(1)
    && env.alg == Some(ALGORITHM)
    && env.nonce.Some? && |env.nonce.value| == NONCE_BYTES
    && env.ciphertext.Some?
  }

  /** decrypt_relay_data: the receive counter moves before the payload is checked for UTF-8. */
  function Decrypt(m: Manager, from: string, env: Envelope): (Manager, Result<Bytes, Error>) {
    if !WellFormed(env) then (m, Failure(InvalidEncryptedPayload))
    else if from !in m.sessions then (m, Failure(HandshakeRequired))
    else
      var session := m.sessions[from];
      match Open(session.key, env.nonce.value, MakeRelayAd(from, m.Name()), env.ciphertext.value)
      case None => (m, Failure(CryptoError))
      case Some(plain) =>
        if |plain| < SEQNO_BYTES then (m, Failure(InvalidEncryptedPayload))
        else
          var seqno := SeqnoOf(plain[..SEQNO_BYTES]);
          if seqno <= session.rxSeqno then (m, Failure(InvalidEncryptedPayload))
          else
            var payload := plain[SEQNO_BYTES..];
            (m.(sessions := m.sessions[from := session.(rxSeqno := seqno)]),
             if Utf8.Valid(payload) then Success(payload) else Failure(InvalidEncryptedPayload))
  }

  // Sequence numbers survive the byte form.

  lemma FrameParts(seqno: U64, payload: Bytes)
    ensures var plain := Frame(seqno, payload);
            && |plain| >= SEQNO_BYTES
            && SeqnoOf(plain[..SEQNO_BYTES]) == seqno
            && plain[SEQNO_BYTES..] == payload
  {
    Pow256Of8();
    BigEndianRoundTrip(seqno, SEQNO_BYTES);
    var plain := Frame(seqno, payload);
    assert plain[..SEQNO_BYTES] == BigEndian(seqno, SEQNO_BYTES);
    assert plain[SEQNO_BYTES..] == payload;
  }

  lemma DivideTwice(n: nat, p: nat)
    requires p > 0
    ensures 256 * p > 0 && n / 256 / p == n / (256 * p)
  {
    var q, r := n / 256 / p, n / 256 % p;
    assert n / 256 == p * q + r;
    assert n == 256 * (p * q + r) + n % 256;
    assert 256 * r + n % 256 < 256 * p;
    var rest := 256 * r + n % 256;
    assert n == 256 * p * q + rest;
    DivisionUnique(n, 256 * p, q, rest);
  }

  lemma DivisionUnique(n: nat, d: nat, q: nat, r: nat)
    requires d > 0 && n == d * q + r && r < d
    ensures n / d == q
  {
    var q' := n / d;
    assert n == d * q' + n % d;
    TimesStep(d, q, q');
    TimesStep(d, q', q);
  }

  lemma TimesStep(d: nat, a: nat, b: nat)
    ensures a < b ==> d * a + d <= d * b
  {
    if a < b {
      assert d * b == d * (a + 1) + d * (b - a - 1);
    }
  }

  /** The bytes of a number, most significant first. */
  lemma {:induction false} BigEndianAt(n: nat, width: nat, i: nat)
    requires i < width
    ensures BigEndian(n, width)[i] as int == n / Pow256(width - 1 - i) % 256
  {
    if i < width - 1 {
      BigEndianAt(n / 256, width - 1, i);
      DivideTwice(n, Pow256(width - 2 - i));
    }
  }

  /** The envelope a session's next payload gets: which cipher, nonce, key and associated data,
      and the counter in front of the payload. */
  lemma EnvelopeExactly(m: Manager, peer: string, payload: Bytes, nonce: Bytes) returns (number: Bytes)
    requires peer in m.sessions
    ensures |number| == 8 && forall i: nat :: i < 8 ==>
              number[i] as int == m.sessions[peer].txSeqno / Pow256(7 - i) % 256
    ensures Encrypt(m, peer, payload, nonce).Success?
    ensures var (m', envelope) := Encrypt(m, peer, payload, nonce).value;
            var session, ad := m.sessions[peer], "folk-around p2p relay\nfrom=" + m.Name() + "\nto=" + peer;
            && envelope == Envelope(Some(1), Some("xchacha20poly1305"), Some(nonce),
                                    Some(Sealed(session.key, nonce, ad, number + payload)))
            && m' == m.(sessions := m.sessions[peer := session.(txSeqno := (session.txSeqno + 1) % TWO_64)])
  {
    hide Hex.Encode, Pow256;
    number := BigEndian(m.sessions[peer].txSeqno, SEQNO_BYTES);
    forall i: nat | i < 8
      ensures number[i] as int == m.sessions[peer].txSeqno / Pow256(7 - i) % 256
    {
      BigEndianAt(m.sessions[peer].txSeqno, SEQNO_BYTES, i);
    }
    hide BigEndian;
  }

  /** A delivery changes nothing, or moves the one receive counter up. */
  lemma DecryptEffect(m: Manager, from: string, env: Envelope)
    ensures var (m', result) := Decrypt(m, from, env);
            && m'.public == m.public && m'.secret == m.secret
            && (result.Success? ==> m' != m)
            && (m' != m ==>
                  && from in m.sessions && from in m'.sessions
                  && m.sessions[from].rxSeqno < m'.sessions[from].rxSeqno
                  && m'.sessions == m.sessions[from := m.sessions[from].(rxSeqno := m'.sessions[from].rxSeqno)])
  {
    hide SeqnoOf, WellFormed, Open, MakeRelayAd, Hex.Encode, Utf8.Valid;
  }

  // Both sides derive one key.

  lemma {:induction false} LessTotal(a: Bytes, b: Bytes)
    ensures a == b || Less(a, b) || Less(b, a)
  {
    if a != [] && b != [] && a[0] == b[0] {
      LessTotal(a[1..], b[1..]);
      assert a == [a[0]] + a[1..] && b == [b[0]] + b[1..];
    }
  }

  lemma {:induction false} LessAsymmetric(a: Bytes, b: Bytes)
    ensures !(Less(a, b) && Less(b, a))
  {
    if a != [] && b != [] {
      LessAsymmetric(a[1..], b[1..]);
    }
  }

  lemma SaltSymmetric(a: Bytes, b: Bytes)
    ensures Salt(a, b) == Salt(b, a)
  {
    LessTotal(a, b);
    LessAsymmetric(a, b);
  }

  lemma KeysAgree(c: Crypto, secretA: Bytes, secretB: Bytes)
    requires DiffieHellman(c)
    ensures var a, b := c.public(secretA), c.public(secretB);
            SessionKey(c, secretA, a, b) == SessionKey(c, secretB, b, a)
  {
    SaltSymmetric(c.public(secretA), c.public(secretB));
  }

  // The associated data names both ends without ambiguity.

  lemma {:induction false} HexIsOneLine(s: string)
    requires Hex.Decode(s).Some?
    ensures OneLine(s)
  {
    if s != "" {
      HexIsOneLine(s[2..]);
      assert forall i :: 2 <= i < |s| ==> s[i] == s[2..][i - 2];
    }
  }

  lemma NameParses(public: Bytes)
    requires |public| == IDENTITY_BYTES
    ensures ParseIdentity(Hex.Encode(public)) == Some(public)
    ensures OneLine(Hex.Encode(public))
  {
    Hex.DecodeEncode(public);
    HexIsOneLine(Hex.Encode(public));
  }

  lemma AdInjective(from: string, to: string, from': string, to': string)
    requires OneLine(from) && OneLine(from')
    requires MakeRelayAd(from, to) == MakeRelayAd(from', to')
    ensures from == from' && to == to'
  {
    var head, sep := "folk-around p2p relay\nfrom=", "to=";
    var tail, tail' := from + ['\n'] + (sep + to), from' + ['\n'] + (sep + to');
    assert MakeRelayAd(from, to) == head + tail && MakeRelayAd(from', to') == head + tail';
    assert tail == (head + tail)[|head|..] && tail' == (head + tail')[|head|..];
    IndexOfFirst(from, '\n', sep + to);
    IndexOfFirst(from', '\n', sep + to');
    assert from == tail[..|from|] && from' == tail'[..|from'|];
    assert to == tail[|from| + 4..] && to' == tail'[|from'| + 4..];
  }

  /** Without the one-line names that parsed identities have, the data would be ambiguous. */
  lemma AdAmbiguousAcrossLines()
    ensures MakeRelayAd("a", "b\nto=c") == MakeRelayAd("a\nto=b", "c")
  {
    assert MakeRelayAd("a", "b\nto=c") == "folk-around p2p relay\nfrom=a\nto=b\nto=c";
    assert MakeRelayAd("a\nto=b", "c") == "folk-around p2p relay\nfrom=a\nto=b\nto=c";
  }

  // Later handshakes change nothing that exists.

  /** The manager after a series of offers and answers, those with bad identities refused. */
  function Handshakes(c: Crypto, m: Manager, peers: seq<string>): Manager
    decreases |peers|
  {
    if peers == [] then m
    else
      var next := match Establish(c, m, peers[0])
                  case Success(m') => m'
                  case Failure(_) => m;
      Handshakes(c, next, peers[1..])
  }

  lemma {:induction false} HandshakesKeepSessions(c: Crypto, m: Manager, peers: seq<string>)
    ensures var m' := Handshakes(c, m, peers);
            && m'.public == m.public && m'.secret == m.secret
            && forall name :: name in m.sessions ==> name in m'.sessions && m'.sessions[name] == m.sessions[name]
    decreases |peers|
  {
    if peers != [] {
      match Establish(c, m, peers[0])
      case Success(m') => HandshakesKeepSessions(c, m', peers[1..]);
      case Failure(_) => HandshakesKeepSessions(c, m, peers[1..]);
    }
  }

  /** Two managers that hear from each other, among any other handshakes, share a key. */
  lemma HandshakesAgree(c: Crypto, a: Manager, b: Manager, heardByA: seq<string>, heardByB: seq<string>)
    requires DiffieHellman(c)
    requires a.public == c.public(a.secret) && b.public == c.public(b.secret)
    requires a.sessions == map[] && b.sessions == map[]
    requires b.Name() in heardByA && a.Name() in heardByB
    ensures var a', b' := Handshakes(c, a, heardByA), Handshakes(c, b, heardByB);
            && b.Name() in a'.sessions && a.Name() in b'.sessions
            && a'.sessions[b.Name()] == b'.sessions[a.Name()]
            && a'.sessions[b.Name()].rxSeqno == 0 && a'.sessions[b.Name()].txSeqno == 0
  {
    NameParses(a.public);
    NameParses(b.public);
    HandshakeEstablishes(c, a, heardByA, b.Name());
    HandshakeEstablishes(c, b, heardByB, a.Name());
    KeysAgree(c, a.secret, b.secret);
  }

  lemma {:induction false} HandshakeEstablishes(c: Crypto, m: Manager, peers: seq<string>, peer: string)
    requires peer in peers && peer !in m.sessions && ParseIdentity(peer).Some?
    ensures var m' := Handshakes(c, m, peers);
            && peer in m'.sessions
            && m'.sessions[peer] == Session(SessionKey(c, m.secret, m.public, ParseIdentity(peer).value), 0, 0)
    decreases |peers|
  {
    var next := match Establish(c, m, peers[0])
                case Success(m') => m'
                case Failure(_) => m;
    if peers[0] == peer {
      HandshakesKeepSessions(c, next, peers[1..]);
    } else {
      assert peers == [peers[0]] + peers[1..];
      HandshakeEstablishes(c, next, peers[1..], peer);
    }
  }

  // What the key is made of.

  /** Lexicographic order: the first byte that differs decides. */
  lemma {:induction false} LessAt(a: Bytes, b: Bytes, k: nat)
    requires k < |a| && k < |b| && a[..k] == b[..k] && a[k] < b[k]
    ensures Less(a, b) && !Less(b, a)
  {
    if k > 0 {
      assert a[0] == a[..k][0] && b[0] == b[..k][0];
      assert a[1..][..k - 1] == a[..k][1..] && b[1..][..k - 1] == b[..k][1..];
      LessAt(a[1..], b[1..], k - 1);
    }
  }

  /** Both ends of a new pair derive their key from the shared secret, with the identity that is
      smaller in byte order first in the salt: the one whose byte is less at the first index k
      where they differ. */
  lemma SessionKeyExactly(c: Crypto, a: Manager, b: Manager, k: nat)
    requires DiffieHellman(c)
    requires a.public == c.public(a.secret) && b.public == c.public(b.secret)
    requires k < IDENTITY_BYTES && a.public[..k] == b.public[..k] && a.public[k] < b.public[k]
    requires b.Name() !in a.sessions && a.Name() !in b.sessions
    ensures var key := c.hkdf(a.public + b.public, c.shared(a.secret, b.public), "folk-around p2p relay v1");
            && c.shared(a.secret, b.public) == c.shared(b.secret, a.public)
            && Establish(c, a, b.Name())
               == Success(a.(sessions := a.sessions[b.Name() := Session(key, 0, 0)]))
            && Establish(c, b, a.Name())
               == Success(b.(sessions := b.sessions[a.Name() := Session(key, 0, 0)]))
  {
    NameParses(a.public);
    NameParses(b.public);
    LessAt(a.public, b.public, k);
  }

  ghost predicate InjectiveKdf(c: Crypto) {
    forall salt, secret, info, salt', secret', info' ::
      c.hkdf(salt, secret, info) == c.hkdf(salt', secret', info') ==> (salt, secret, info) == (salt', secret', info')
  }

  lemma SaltNamesPair(own: Bytes, peer: Bytes, own': Bytes, peer': Bytes)
    requires |own| == |peer| == |own'| == |peer'| && Salt(own, peer) == Salt(own', peer')
    ensures {own, peer} == {own', peer'}
  {
    var n, salt := |own|, Salt(own, peer);
    assert (own + peer)[..n] == own && (own + peer)[n..] == peer;
    assert (peer + own)[..n] == peer && (peer + own)[n..] == own;
    assert (own' + peer')[..n] == own' && (own' + peer')[n..] == peer';
    assert (peer' + own')[..n] == peer' && (peer' + own')[n..] == own';
    assert {own, peer} == {salt[..n], salt[n..]} == {own', peer'};
  }

  /** If the key derivation loses nothing, two handshakes anywhere that leave equal session keys
      were between the same two identities, and over the same shared secret. */
  lemma KeySeparates(
    c: Crypto, m: Manager, peers: seq<string>, peer: string, m': Manager, peers': seq<string>, peer': string)
    requires InjectiveKdf(c) && |m.public| == |m'.public| == IDENTITY_BYTES
    requires peer in peers && peer !in m.sessions && ParseIdentity(peer).Some?
    requires peer' in peers' && peer' !in m'.sessions && ParseIdentity(peer').Some?
    ensures peer in Handshakes(c, m, peers).sessions && peer' in Handshakes(c, m', peers').sessions
    ensures Handshakes(c, m, peers).sessions[peer].key == Handshakes(c, m', peers').sessions[peer'].key ==>
              && c.shared(m.secret, ParseIdentity(peer).value) == c.shared(m'.secret, ParseIdentity(peer').value)
              && {m.public, ParseIdentity(peer).value} == {m'.public, ParseIdentity(peer').value}
  {
    hide ParseIdentity, Salt;
    HandshakeEstablishes(c, m, peers, peer);
    HandshakeEstablishes(c, m', peers', peer');
    var own, other, own', other' := m.public, ParseIdentity(peer).value, m'.public, ParseIdentity(peer').value;
    if Handshakes(c, m, peers).sessions[peer].key == Handshakes(c, m', peers').sessions[peer'].key {
      assert SessionKey(c, m.secret, own, other) == SessionKey(c, m'.secret, own', other');
      SaltNamesPair(own, other, own', other');
    }
  }

  // Lossless delivery in order.

  /** The envelopes a sender makes of a series of payloads. */
  function SealAll(m: Manager, peer: string, payloads: seq<Bytes>, nonces: seq<Bytes>): seq<Envelope>
    requires |nonces| == |payloads| && peer in m.sessions
    decreases |payloads|
  {
    if payloads == [] then []
    else
      var (next, envelope) := Encrypt(m, peer, payloads[0], nonces[0]).value;
      [envelope] + SealAll(next, peer, payloads[1..], nonces[1..])
  }

  /** The payloads a receiver accepts from a series of envelopes. */
  function AcceptAll(m: Manager, from: string, envelopes: seq<Envelope>): seq<Bytes>
    decreases |envelopes|
  {
    if envelopes == [] then []
    else
      var (next, result) := Decrypt(m, from, envelopes[0]);
      (if result.Success? then [result.value] else []) + AcceptAll(next, from, envelopes[1..])
  }

  function ValidOnly(payloads: seq<Bytes>): seq<Bytes> {
    if payloads == [] then []
    else (if Utf8.Valid(payloads[0]) then [payloads[0]] else []) + ValidOnly(payloads[1..])
  }

  ghost predicate Paired(a: Manager, b: Manager) {
    && b.Name() in a.sessions && a.Name() in b.sessions
    && a.sessions[b.Name()].key == b.sessions[a.Name()].key
  }

  /** One envelope, straight from sender to receiver. */
  lemma DeliverOne(a: Manager, b: Manager, payload: Bytes, nonce: Bytes)
    requires Paired(a, b) && |nonce| == NONCE_BYTES
    ensures Encrypt(a, b.Name(), payload, nonce).Success?
    ensures var tx, rx := a.sessions[b.Name()].txSeqno, b.sessions[a.Name()].rxSeqno;
            var (a', envelope) := Encrypt(a, b.Name(), payload, nonce).value;
            var (b', result) := Decrypt(b, a.Name(), envelope);
            && Paired(a', b') && a'.Name() == a.Name() && b'.Name() == b.Name()
            && a'.sessions[b.Name()].txSeqno == (tx + 1) % TWO_64
            && b'.sessions[a.Name()].rxSeqno == (if tx > rx then tx else rx)
            && result == (if tx > rx && Utf8.Valid(payload) then Success(payload)
                          else Failure(InvalidEncryptedPayload))
  {
    FrameParts(a.sessions[b.Name()].txSeqno, payload);
  }

  /** With a number that is new and valid UTF-8 it opens, and moves nothing but its counter. */
  lemma DeliverOpens(a: Manager, b: Manager, payload: Bytes, nonce: Bytes)
    requires Paired(a, b) && |nonce| == NONCE_BYTES
    requires a.sessions[b.Name()].txSeqno > b.sessions[a.Name()].rxSeqno && Utf8.Valid(payload)
    ensures Encrypt(a, b.Name(), payload, nonce).Success?
    ensures var (a', envelope) := Encrypt(a, b.Name(), payload, nonce).value;
            var (b', result) := Decrypt(b, a.Name(), envelope);
            && result == Success(payload) && Paired(b', a') && a'.Name() == a.Name() && b'.Name() == b.Name()
            && a'.sessions[b.Name()].rxSeqno == a.sessions[b.Name()].rxSeqno
            && b'.sessions[a.Name()].rxSeqno == a.sessions[b.Name()].txSeqno
            && b'.sessions[a.Name()].txSeqno == b.sessions[a.Name()].txSeqno
  {
    hide Hex.Encode, Utf8.Valid, BigEndian, SeqnoOf, MakeRelayAd;
    DeliverOne(a, b, payload, nonce);
  }

  lemma {:induction false} DeliverInOrder(a: Manager, b: Manager, payloads: seq<Bytes>, nonces: seq<Bytes>)
    requires Paired(a, b) && |nonces| == |payloads|
    requires forall k :: 0 <= k < |nonces| ==> |nonces[k]| == NONCE_BYTES
    requires b.sessions[a.Name()].rxSeqno < a.sessions[b.Name()].txSeqno
    requires a.sessions[b.Name()].txSeqno + |payloads| <= TWO_64
    ensures AcceptAll(b, a.Name(), SealAll(a, b.Name(), payloads, nonces)) == ValidOnly(payloads)
    decreases |payloads|
  {
    hide Encrypt, Decrypt;
    if payloads != [] {
      DeliverOne(a, b, payloads[0], nonces[0]);
      var (a', envelope) := Encrypt(a, b.Name(), payloads[0], nonces[0]).value;
      var (b', _) := Decrypt(b, a.Name(), envelope);
      var rest := SealAll(a', b.Name(), payloads[1..], nonces[1..]);
      if |payloads| > 1 {
        DeliverInOrder(a', b', payloads[1..], nonces[1..]);
      }
      assert ([envelope] + rest)[1..] == rest;
    }
  }

  /** Over a fresh session the receiver accepts every valid payload in order, except the
      first, which it refuses whatever it holds. */
  lemma FreshDelivery(a: Manager, b: Manager, payloads: seq<Bytes>, nonces: seq<Bytes>)
    requires Paired(a, b) && |nonces| == |payloads| > 0
    requires forall k :: 0 <= k < |nonces| ==> |nonces[k]| == NONCE_BYTES
    requires a.sessions[b.Name()].txSeqno == 0 && b.sessions[a.Name()].rxSeqno == 0
    requires |payloads| <= TWO_64
    ensures AcceptAll(b, a.Name(), SealAll(a, b.Name(), payloads, nonces)) == ValidOnly(payloads[1..])
  {
    DeliverOne(a, b, payloads[0], nonces[0]);
    var (a', envelope) := Encrypt(a, b.Name(), payloads[0], nonces[0]).value;
    var (b', _) := Decrypt(b, a.Name(), envelope);
    var rest := SealAll(a', b.Name(), payloads[1..], nonces[1..]);
    DeliverInOrder(a', b', payloads[1..], nonces[1..]);
    assert ([envelope] + rest)[1..] == rest;
  }

  lemma {:induction false} AllValidKept(payloads: seq<Bytes>)
    requires forall k :: 0 <= k < |payloads| ==> Utf8.Valid(payloads[k])
    ensures ValidOnly(payloads) == payloads
  {
    if payloads != [] {
      AllValidKept(payloads[1..]);
      assert payloads == [payloads[0]] + payloads[1..];
    }
  }

  /** From nothing to delivery: two managers that hear an offer or answer from each other, among
      any others, and then a lossless network in order: every payload that is valid UTF-8
      arrives, except the first one sealed. */
  lemma HandshakeThenDelivery(
    c: Crypto, a: Manager, b: Manager, heardByA: seq<string>, heardByB: seq<string>,
    payloads: seq<Bytes>, nonces: seq<Bytes>)
    requires DiffieHellman(c)
    requires a.public == c.public(a.secret) && b.public == c.public(b.secret)
    requires a.sessions == map[] && b.sessions == map[]
    requires b.Name() in heardByA && a.Name() in heardByB
    requires |nonces| == |payloads| && 0 < |payloads| <= TWO_64
    requires forall k :: 0 <= k < |nonces| ==> |nonces[k]| == NONCE_BYTES
    requires forall k :: 1 <= k < |payloads| ==> Utf8.Valid(payloads[k])
    ensures var a', b' := Handshakes(c, a, heardByA), Handshakes(c, b, heardByB);
            && b.Name() in a'.sessions
            && AcceptAll(b', a.Name(), SealAll(a', b.Name(), payloads, nonces)) == payloads[1..]
  {
    hide Handshakes, AcceptAll, SealAll, DiffieHellman, Hex.Encode;
    HandshakesAgree(c, a, b, heardByA, heardByB);
    HandshakesKeepSessions(c, a, heardByA);
    HandshakesKeepSessions(c, b, heardByB);
    FreshDelivery(Handshakes(c, a, heardByA), Handshakes(c, b, heardByB), payloads, nonces);
    AllValidKept(payloads[1..]);
  }
}
