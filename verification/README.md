# Folk Around: models and proofs

Dafny models of the stateful parts of Folk Around, with proofs over all inputs, runs and
reachable states. `dafny verify dfyconfig.toml` checks everything.

- `Relay`, `RelayNetwork`, `PeerManager`: the daemon's encrypted sessions. X25519 and HKDF are
  parameters, assumed to commute as section 6.1 of RFC 7748 says and to be a function as RFC 5869
  says; the AEAD of RFC 8439 is symbolic: a ciphertext opens only under the key, nonce and
  associated data it was sealed with. The network may drop, replay, reorder, reflect and re-label
  ciphertexts, and inject any that are not sealed under the pair's own key.
- `Protocol`, `SignalRoom`, `RoomAnswers`, `RoomProperties`, `RateLimit`: the signalling room, as a
  class whose methods follow the source and as a state machine whose steps they are proved to take.
  `RoomAnswers` says in the protocol's own characters, numbers and texts what each step does.
- `BrokenSends`: the same room on a platform where a send to a closed socket throws.
- `Cascade`, `Introductions`, `Churn`: daemons and room together, from one join to silence, and
  with daemons that come and go at any time.
- `Http`, `HttpFragments`, `Stdio`, `SseSlots`: the transport's byte streams, what the cut of a
  request into reads can change, and the shared slot counter.
- `Config`, `Hex`, `Text`, `Utf8`: the configuration file, base 16 and the text functions under
  them. A byte is written as the character with its code.
- `ObservationCache`, `RetrySafety`: the observation cache against its whole history, and the
  retry classifier.

Where the code departs from what one would expect, the model follows the code:

- Both relay counters start at 0 and the receiver wants a larger number, so the first payload of
  every session is refused (`Relay.FreshDelivery`), and the receiving daemon drops its connection
  (`PeerManager.FirstRelayDisconnects`). The receive counter also moves past a payload
  that then fails the UTF-8 check (`Relay.DeliverOne`).
- A socket may join under several identities. It is then registered under the last one only, and
  no close removes the entries of the others, which point at it: only a join as their identity
  does (`RoomProperties.SecondJoinOrphans`, `OrphanStep`).
- A registered client that asks for an identity another has just joined is closed, but keeps its
  entry until its close event. Where a send to a closed socket throws, broadcasts meanwhile end
  there (`BrokenSends.RefusalHidesNewcomers`).
- The close handler deletes a socket from a limiter keyed by identities, so closing never resets
  a window, which makes the bound of `RateLimit.RelaysBounded` hold through reconnects, and the
  limiter only grows (`RoomAnswers.LimiterOnlyGrows`).
- A request whose head ends in CR LF CR LF at offset 65534, 65535 or 65536 passes or is refused
  depending on how it arrives; later heads are always refused (`HttpFragments.CrlfRequestPasses`).
- The reader accepts LF LF as the end of a head, but the handler looks for CR LF CR LF again in
  all that was read, so a body or what follows it can move the head
  (`HttpFragments.LfRequestDepends`, `LengthlessDepends`).
- An SSE client may be refused while a slot is free (`SseSlots.RefusedWithFreeSlot`).
- An observation dropped as expired does not return when the clock is set back
  (`ObservationCache.LastReadingMisses`).

## Model

| member | source | states |
|---|---|---|
| `Relay.KeysAgree` | crates/folk-transport/src/lib.rs:610-631 | Both ends of a pair derive one session key from their own secret and the other's public key: the salt does not depend on which side sorts first. |
| `Relay.SessionKeyExactly` | crates/folk-transport/src/lib.rs:610-631 | That key is the KDF of the shared secret, with the identity that is smaller in byte order first in the salt, and the info string of the protocol; the new session counts from 0 at both ends. |
| `Relay.KeySeparates` | crates/folk-transport/src/lib.rs:610-631 | If the KDF loses nothing, equal keys left by any two series of handshakes mean the same two identities and the same shared secret. |
| `Relay.HandshakesKeepSessions` | crates/folk-transport/src/lib.rs:623-631 | Any later series of offers and answers leaves an existing session as it is: key and both counters. |
| `Relay.HandshakesAgree` | crates/folk-transport/src/lib.rs:530-543 | Two managers that hear from each other, among any other handshakes in any order, end with equal sessions whose counters are 0. |
| `Relay.AdInjective` | crates/folk-transport/src/lib.rs:738-745 | The associated data determines sender and recipient, for names on one line, as every parsed identity is. |
| `Relay.AdAmbiguousAcrossLines` | crates/folk-transport/src/lib.rs:738-745 | Without that condition it does not: two different pairs with the same associated data. |
| `Relay.FrameParts` | crates/folk-transport/src/lib.rs:650-653 | The eight bytes in front of a payload read back as the sequence number, for every 64-bit value, and the rest is the payload. |
| `Relay.BigEndianAt` | crates/folk-transport/src/lib.rs:650-653 | They are its bytes, most significant first. |
| `Relay.EnvelopeExactly` | crates/folk-transport/src/lib.rs:633-669 | An envelope names the version and cipher, carries its nonce, and seals the counter and payload under the session key and both names; the counter steps by one. |
| `Relay.DecryptEffect` | crates/folk-transport/src/lib.rs:671-727 | A delivery changes nothing, or raises exactly one session's receive counter; acceptance always raises it. |
| `Relay.DeliverOne` | crates/folk-transport/src/lib.rs:633-727 | One envelope straight from a paired sender is accepted exactly when its number exceeds the receive counter and the payload is UTF-8; the counter moves even when only the second fails. |
| `Relay.DeliverInOrder` | crates/folk-transport/src/lib.rs:633-727 | Lossless delivery in order accepts exactly the valid UTF-8 payloads, once the receiver is behind the sender. |
| `Relay.FreshDelivery` | crates/folk-transport/src/lib.rs:627-629 | Over a fresh session the same holds of all payloads but the first, which is refused because both counters start at 0. |
| `Relay.HandshakeThenDelivery` | crates/folk-transport/src/lib.rs:610-727 | From empty managers through the handshake to delivery: everything after the first payload arrives, in order. |
| `RelayNetwork.AcceptedIsGenuine` | crates/folk-transport/src/lib.rs:671-727 | What a node accepts under the other's name, from a network that replays, reflects, re-labels and forges, is the payload the other sealed for it under that sequence number. |
| `RelayNetwork.RunInv` | crates/folk-transport/src/lib.rs:610-727 | Every event of every run keeps keys, counters and histories of both nodes consistent. |
| `RelayNetwork.AcceptedIsSubsequence` | crates/folk-transport/src/lib.rs:633-727 | Over every run, what a node accepts from the other is a subsequence of what the other sealed for it: in order, each at most once, never the first. |
| `RelayNetwork.SealThenDeliver` | crates/folk-transport/src/lib.rs:633-727 | Nothing is lost but by the network: what is handed over at once, with a number new to the receiver, is accepted. |
| `PeerManager.P2PManager.EstablishSession` | crates/folk-transport/src/lib.rs:610-631 | The method that updates the sessions map in place computes the session the lemmas speak of, and refuses exactly the names that are not identities. |
| `PeerManager.P2PManager.EncryptRelayPayload` | crates/folk-transport/src/lib.rs:633-669 | Sealing steps the send counter of one session and nothing else; without a session it changes nothing. |
| `PeerManager.P2PManager.DecryptRelayData` | crates/folk-transport/src/lib.rs:671-727 | Opening, with every refusal of the source in its order of effect on the counters, from string data that is not JSON to a payload that is not UTF-8. |
| `PeerManager.P2PManager.HandleRelay` | crates/folk-transport/src/lib.rs:580-608 | A relay without a sender, without data, or from a peer without a session is refused, in that order, before the data is opened; otherwise the reply, if there is one, is sealed for the sender. |
| `PeerManager.RelayAnswered` | crates/folk-transport/src/lib.rs:580-608 | A request that a paired daemon sealed gets exactly one relay back, in which the requester finds the answer dispatch gave, and none when it gave none; both counters move. |
| `PeerManager.P2PManager.HandleSignalMessage` | crates/folk-transport/src/lib.rs:510-548 | The reaction to any text: not JSON, of another type, with fields missing, or a message of the room, with the offers for a joined list sent one by one. |
| `PeerManager.TextReaction` | crates/folk-transport/src/lib.rs:510-548 | The text of every message the room sends gets the reaction the cascades are about. |
| `PeerManager.NonRelayFails` | crates/folk-transport/src/lib.rs:510-548 | Apart from relays, only text that is not JSON and introductions from a name that is no identity end the connection, and they change no session. |
| `PeerManager.IntroductionsMet` | crates/folk-transport/src/lib.rs:510-578 | Every string of a joined list, and the name of a notice, gets one offer; an offer leaves a session and gets one answer, an answer leaves a session and gets none; other texts are ignored. |
| `PeerManager.StringsConcat` | crates/folk-transport/src/lib.rs:520-526 | What is no string in a joined list is passed over, and the rest keeps its order. |
| `PeerManager.RelayFails` | crates/folk-transport/src/lib.rs:580-608 | A relay leaves the connection up exactly when its sender has a session, its envelope opens under it with a new number and UTF-8, and dispatch takes the payload; it never adds or costs a session, and without one it changes nothing. |
| `PeerManager.RelayErrors` | crates/folk-transport/src/lib.rs:580-727 | Which error each refusal of a relay is, and that one that opens moves the receive counter even if it is refused after that. |
| `PeerManager.FirstRelayDisconnects` | crates/folk-transport/src/lib.rs:580-727 | The first payload over a fresh session, whatever it holds, makes the receiving daemon drop its connection. |
| `SignalRoom.Room.HandleMessage` | signal-server/src/index.ts:131-237 | Each message moves the three maps, and causes the sends and closes, of one step of the state machine. |
| `SignalRoom.Room.HandleClose` | signal-server/src/index.ts:115-126 | So does a close; the limiter entry it deletes is the socket's, never an identity's. |
| `SignalRoom.Room.HandleJoin` | signal-server/src/index.ts:133-171 | Joins: the grace period, takeovers, the joined list in insertion order, the broadcast. |
| `SignalRoom.Room.HandleForward` | signal-server/src/index.ts:173-227 | Offers, answers and relays, with every refusal in the source's order. |
| `SignalRoom.Room.CheckRateLimit` | signal-server/src/index.ts:254-270 | A check leaves one window changed, counted once, and passes while the count is at most 60. |
| `SignalRoom.Room.BroadcastAll` | signal-server/src/index.ts:272-278 | One send per entry, in insertion order, but for the excluded socket. |
| `RoomProperties.StepInv` | signal-server/src/index.ts:115-237 | Every event keeps: a registered socket owns the identity it maps to, all identities are valid, the roster's order lists its keys once. |
| `RoomProperties.SocketsOwnTheirIdentities` | signal-server/src/index.ts:142-160 | Hence in every reachable state sockets and peers agree from the sockets' side and no two sockets hold one identity. |
| `RoomProperties.JoinRefusedExactly` | signal-server/src/index.ts:133-171 | A join is refused exactly when it names no identity or one that another socket joined under less than five seconds ago; then nothing changes and only its socket hears of it. |
| `RoomAnswers.RefusedMeans` | signal-server/src/index.ts:133-151 | In the protocol's terms: the name is not 64 hexadecimal digits, or another socket joined as it less than five seconds ago. |
| `RoomAnswers.IdentityExactly` | signal-server/src/index.ts:30-38 | Identities are exactly the texts of 64 hexadecimal digits, in either letter case. |
| `RoomAnswers.JoinRefusal` | signal-server/src/index.ts:133-151 | Which of the two refusals a join gets, with what text, and that only the second closes the socket. |
| `RoomAnswers.JoinAdmitted` | signal-server/src/index.ts:142-170 | Every other join: its holder, if any, is closed and unregistered, the newcomer gets the other names in the order they came, and then the socket of every entry but its own hears of it. |
| `RoomAnswers.WithoutSplit` | signal-server/src/index.ts:162-164 | Leaving a name out of a list keeps the order of the others. |
| `RoomAnswers.BroadcastToAll` | signal-server/src/index.ts:272-278 | A broadcast reaches the socket of every entry but the excluded one, and nobody else. |
| `RoomAnswers.BroadcastConcat` | signal-server/src/index.ts:272-278 | It goes through the entries in order. |
| `RoomAnswers.SenderRefusal` | signal-server/src/index.ts:239-252 | Who has not joined, or writes another name than its own, is told which of the two. |
| `RoomAnswers.ForwardAnswered` | signal-server/src/index.ts:173-227 | A sender under its own name: relays are counted first, then the target's form and the size are tested, each refusal has its text, and an absent target is no error. |
| `RoomAnswers.OtherAnswered` | signal-server/src/index.ts:106-112 | Anything else changes nothing and is answered with an error. |
| `RoomAnswers.CloseAnswered` | signal-server/src/index.ts:115-126 | A close deletes the one entry its socket is registered under, keeps the order of the others, and tells the sockets that still have one. |
| `RoomAnswers.CloseSparesOthers` | signal-server/src/index.ts:115-126 | In any state at all, a close deletes no entry that another socket has. |
| `RoomAnswers.LimiterOnlyGrows` | signal-server/src/index.ts:123-270 | The limiter never holds an entry for a socket, so the close handler's deletion finds none, and no count is ever forgotten. |
| `RoomProperties.TakeoverReplaces` | signal-server/src/index.ts:142-160 | An accepted takeover closes and unregisters the replaced socket. |
| `RoomProperties.ReplacedCloseIsSilent` | signal-server/src/index.ts:115-126 | The later close of a replaced socket changes no peer entry and announces nothing, whatever happened in between, unless it joined again. |
| `RoomProperties.TwoWayJoin` | signal-server/src/index.ts:159-160 | The naive two-way invariant survives an accepted join exactly when the socket joins for the first time or again as itself. |
| `RoomProperties.TwoWayOther` | signal-server/src/index.ts:115-237 | Every other event keeps the two-way invariant. |
| `RoomProperties.SecondJoinOrphans` | signal-server/src/index.ts:133-171 | A reachable state that breaks it: a second join leaves the first identity with an entry for a socket registered under the second. |
| `RoomProperties.ClosedSocketKeepsEntry` | signal-server/src/index.ts:115-171 | And after the socket closes, with an entry for a socket that is gone. |
| `RoomProperties.OrphanArises` | signal-server/src/index.ts:115-171 | An entry loses its registration exactly when another identity is joined from its socket, or is taken over that had an entry for the same socket. |
| `RoomProperties.OrphanStep` | signal-server/src/index.ts:115-237 | Only an admitted join as that identity ends such an entry; any other event, the close of its socket included, leaves it as it is. |
| `RoomProperties.OrphanStays` | signal-server/src/index.ts:115-237 | So over any run without a join as that identity it stays. |
| `RoomProperties.BroadcastView` | signal-server/src/index.ts:272-278 | A broadcast changes the view of exactly the sockets that own an entry, once however many they own. |
| `RoomProperties.JoinView` | signal-server/src/index.ts:133-171 | A join, accepted or refused, keeps every registered client's view right. |
| `RoomProperties.CloseView` | signal-server/src/index.ts:115-126 | So does a close. |
| `RoomProperties.ViewsAgree` | signal-server/src/index.ts:115-170 | In every reachable state what a registered client was told equals all identities in the room but its own. |
| `BrokenSends.DeliveredExactly` | signal-server/src/index.ts:272-278 | If a send to a closed socket throws, delivery ends before the first send whose socket is closed by then, and otherwise is complete. |
| `BrokenSends.StepAgrees` | signal-server/src/index.ts:98-126 | A step is the one of a room whose sends never throw, in state and effects, exactly when no send of it fails. |
| `BrokenSends.FailedStep` | signal-server/src/index.ts:98-126 | A failed send in the close handler leaves the closing socket registered, without an entry. |
| `BrokenSends.HealthyStep` | signal-server/src/index.ts:98-237 | No send fails while every connection uses one identity and is silent once closed, and the room stays so. |
| `BrokenSends.FaithfulViewsAgree` | signal-server/src/index.ts:98-278 | Hence over every run of such clients what each registered client was told equals all identities but its own, also where sends throw. |
| `BrokenSends.NewcomerHidden` | signal-server/src/index.ts:98-171 | If the first entry is for a closed socket, a newcomer joins, is told its message was invalid, and nobody is told of it. |
| `BrokenSends.RefusalHidesNewcomers` | signal-server/src/index.ts:141-170 | This is reached without any orphan entry: a registered client asks for an identity another has just joined, and is closed but not removed. |
| `RoomProperties.ForwardedFaithfully` | signal-server/src/index.ts:173-227 | Exactly when a message is forwarded; then to one socket, the target's owner, once, data and kind unchanged, under the identity the sender owns; otherwise at most one error, to the sender. |
| `RoomProperties.SenderAlwaysValid` | signal-server/src/index.ts:175-176 | The later validity test on the sender can never fail. |
| `RoomProperties.OnlyForwardsForward` | signal-server/src/index.ts:131-237 | No other event forwards anything. |
| `RateLimit.RelaysBounded` | signal-server/src/index.ts:254-270 | Over every run with a clock that does not run back, in any half-open interval of T ms at most 60*ceil(T/1000) + 59 relays of one identity pass, and only 60*ceil(T/1000) when T leaves 1 modulo 1000, through reconnects, takeovers and closes. |
| `RateLimit.ForwardedRelaysPass` | signal-server/src/index.ts:201-227 | Every relay that is forwarded is one counted there. |
| `RateLimit.BurstPasses` | signal-server/src/index.ts:254-270 | In an open window, relays pass one for one until 60 are counted. |
| `RateLimit.BoundReached` | signal-server/src/index.ts:254-270 | The bound is exact: for every interval some run from the empty room, with a clock that does not run back, passes that many. |
| `RateLimit.PassesInNumbers` | signal-server/src/index.ts:33-34 | In numbers: 60 within a millisecond, 119 within a second, 3659 within a minute. |
| `Cascade.ReactionCost` | crates/folk-transport/src/lib.rs:510-608 | A daemon's reaction to any message costs no more than the message did, less one move. |
| `Cascade.RoomReactionCost` | signal-server/src/index.ts:173-227 | Neither does the room's. |
| `Cascade.CascadeEnds` | crates/folk-transport/src/lib.rs:510-608 | With any messages in flight, taken in any order, the exchange ends: the number of moves is bounded by their cost. |
| `Cascade.RelayCascade` | crates/folk-transport/src/lib.rs:580-608 | One relayed message sets off at most one relayed response and nothing after it. |
| `Cascade.JoinCascade` | crates/folk-transport/src/lib.rs:520-543 | One accepted join among n other identities causes at most 2n offers, 2n answers and no relay, and is over after 9n + 1 moves. |
| `Cascade.SilenceReached` | crates/folk-transport/src/lib.rs:510-608 | From every state some run takes everything in flight, so silence is always within reach. |
| `Introductions.IdentityParses` | crates/folk-transport/src/lib.rs:778-783 | What the room accepts as an identity is exactly what a daemon can parse. |
| `Introductions.DaemonAdmitted` | signal-server/src/index.ts:133-170 | The name a daemon joins with is admitted by the empty room. |
| `Introductions.IntroductionForwarded` | signal-server/src/index.ts:173-196 | An offer or answer between two names in the room reaches the other's socket as it was sent. |
| `Introductions.ReactQuiet` | crates/folk-transport/src/lib.rs:510-548 | A message that is no relay never makes a daemon fail or lose a session; a list or notice is met with an offer to each identity it names, and an offer with a session and exactly one answer. |
| `Introductions.StepQuiet` | crates/folk-transport/src/lib.rs:510-548 | While it lasts no daemon fails, and none loses a session. |
| `Introductions.StepLinked` | crates/folk-transport/src/lib.rs:520-543 | An introduction under way is never lost: it is in flight at some stage or has ended in a session. |
| `Introductions.JoinIntroduces` | crates/folk-transport/src/lib.rs:520-543 | When it is over, the newcomer and the daemon of every other identity hold a session with each other under one key, and all daemons are still connected. |
| `Introductions.ReactKeeps` | crates/folk-transport/src/lib.rs:510-608 | No message at all, relays included, costs a daemon a session or changes the key of one. |
| `Churn.NextLinked` | crates/folk-transport/src/lib.rs:471-543 | While daemons connect, drop and are closed, and strangers send anything, any two connections registered under their daemons' names are being introduced to each other or have been. |
| `Churn.SilenceInReach` | crates/folk-transport/src/lib.rs:510-608 | From every state of every such run, the room and the daemons only have to take what is in flight, and there is silence. |
| `Churn.JoinedLive` | crates/folk-transport/src/lib.rs:471-489 | A daemon that connects to the empty room, and whose join is taken, is such a connection. |
| `Churn.EveryoneIntroduced` | crates/folk-transport/src/lib.rs:471-543 | Then every two such connections hold a session with each other, under one key. |
| `Http.FindBytes` | crates/folk-transport/src/lib.rs:433-437 | The index found is the first occurrence, and none is reported only when there is none. |
| `Http.LineLengthExactly` | crates/folk-transport/src/lib.rs:379-391 | A line declares a length exactly when its name, up to the first colon, is content-length in any letter case and its trimmed value is a number in range. |
| `Http.OtherHeader` | crates/folk-transport/src/lib.rs:379-391 | A line without a colon, or with another name, declares nothing. |
| `Http.ContentLengthDeclared` | crates/folk-transport/src/lib.rs:379-391 | The content length is what the first line that declares one says, anywhere in the head; lines before it whose value is no number are passed over. |
| `Http.NoLengthDeclared` | crates/folk-transport/src/lib.rs:379-391 | A head without such a line has length 0. |
| `Http.ReadRequest` | crates/folk-transport/src/lib.rs:158-203 | The read loop computes the outcome the lemmas speak of, and for any client never holds more than 64 KiB + 4 + 1 MiB + 4095 bytes. |
| `HttpFragments.PrefixHeaderEnd` | crates/folk-transport/src/lib.rs:373-377 | A prefix of a stream shows a head exactly when it contains a whole separator, CR LF CR LF before LF LF. |
| `HttpFragments.AnyFragmentation` | crates/folk-transport/src/lib.rs:154-307 | However the stream is cut into reads, a CR LF head that ends by offset 65533 gets the same body, or the client the same refusal; one that ends past 65536 is always refused with 400. |
| `HttpFragments.LongHeadRefused` | crates/folk-transport/src/lib.rs:192-201 | For every CR LF head that ends past offset 65533 there is a fragmentation that is refused. |
| `HttpFragments.LongHeadAnswered` | crates/folk-transport/src/lib.rs:192-201 | For every one that ends by 65536 there is a fragmentation that gets the body, or the refusal the head itself calls for. |
| `HttpFragments.CrlfRequestPasses` | crates/folk-transport/src/lib.rs:154-307 | A complete request with a CR LF head passes its body under every fragmentation exactly when the head ends by offset 65533, and under some exactly when by 65536. |
| `HttpFragments.LfRequestPasses` | crates/folk-transport/src/lib.rs:154-307 | A complete request with an LF head passes its body under every fragmentation exactly when the head ends by offset 65535 and no CR LF CR LF ends less than 4096 bytes after the body does; if none ends in the body, under some fragmentation exactly when the head ends by 65536. |
| `HttpFragments.LfRequestDepends` | crates/folk-transport/src/lib.rs:154-307 | If a CR LF CR LF ends shortly after the body, one fragmentation passes the body and another is refused, because the handler looks for the head again. |
| `HttpFragments.StopPastCrlf` | crates/folk-transport/src/lib.rs:154-307 | A CR LF CR LF within reach always gives a fragmentation that does not pass the body; in the part of it after the body, one that is refused. |
| `HttpFragments.SplitBody` | crates/folk-transport/src/lib.rs:154-307 | If a CR LF CR LF ends inside the body, every fragmentation is refused or passes the bytes after it instead; some is refused, and some passes them exactly when the LF head ends by 65536, the two heads end within 4093 bytes of each other and that many bytes follow. |
| `HttpFragments.LfRefused` | crates/folk-transport/src/lib.rs:154-307 | An LF head that ends past 65536, declares more than 1 MiB or more than follows is refused under every fragmentation, also when a later CR LF CR LF arrives with it. |
| `Http.LengthStands` | crates/folk-transport/src/lib.rs:379-391 | A length that a head declares is the length of every longer head of the same stream. |
| `HttpFragments.LengthlessAnswered` | crates/folk-transport/src/lib.rs:154-307 | An LF head without a length gets an answer other than 400 under some fragmentation exactly when the first CR LF CR LF ends a head by offset 65536, fits one 4096-byte read with the end of the LF LF, and calls for another answer. |
| `HttpFragments.LengthlessDepends` | crates/folk-transport/src/lib.rs:154-307 | Then the same stream is refused under one fragmentation and gets the later head's answer under another. |
| `HttpFragments.HeadCases` | crates/folk-transport/src/lib.rs:373-377 | These are all streams: no head, a CR LF head first, or an LF head first without a length, complete or hopeless. |
| `HttpFragments.HeadlessRefused` | crates/folk-transport/src/lib.rs:154-307 | A stream without a head is refused with 400 under every fragmentation. |
| `Http.BufferBounded` | crates/folk-transport/src/lib.rs:158-203 | The bound on the buffer, from every state of the loop. |
| `Http.EndOfFileStops` | crates/folk-transport/src/lib.rs:159-163 | A read of nothing ends the loop; nothing after it is read. |
| `Stdio.Reader.ReadLine` | crates/folk-transport/src/lib.rs:116-144 | A line is taken with its terminator, and invalid UTF-8 is an error. |
| `Stdio.Reader.ReadStdioMessage` | crates/folk-transport/src/lib.rs:116-144 | The recursive reader with its header loop computes the message the lemmas speak of; it terminates because the input shrinks. |
| `Stdio.SkipBlanks` | crates/folk-transport/src/lib.rs:121-124 | Blank lines before a message make no difference. |
| `Stdio.RawLineRead` | crates/folk-transport/src/lib.rs:125-127 | A line that is not blank and does not begin with content-length and a colon, in any letter case, is itself a message, without the white space around it. |
| `Stdio.FramedRead` | crates/folk-transport/src/lib.rs:128-143 | A frame, with any letter case, white space and further header lines, reads as exactly as many bytes after its blank line as it declares, none if that is no number; fewer are an error. |
| `Stdio.HeadingCut` | crates/folk-transport/src/lib.rs:132-140 | Input that ends among the header lines is end of input, and a line there that is not UTF-8 an error. |
| `Stdio.FrameRead` | crates/folk-transport/src/lib.rs:72-73 | A written frame reads back as its body, whatever bytes follow. |
| `Stdio.ReadBack` | crates/folk-transport/src/lib.rs:52-144 | Any series of raw lines and frames with blank lines between reads as exactly their texts and bodies, in order, and then end of input. |
| `Utf8.ValidExactly` | crates/folk-transport/src/lib.rs:725-727 | Bytes are accepted as text exactly when they encode some Unicode characters. |
| `SseSlots.StepInv` | crates/folk-transport/src/lib.rs:359-371 | Every atomic add or subtract keeps the counter equal to the holders plus the threads about to undo, without wrapping. |
| `SseSlots.SlotsBounded` | crates/folk-transport/src/lib.rs:359-371 | For every interleaving at most 32 threads hold a slot, and with no thread mid-acquire the counter is the number of holders. |
| `SseSlots.RefusedExactly` | crates/folk-transport/src/lib.rs:359-367 | A thread is refused exactly when holders and failed adds not yet undone make 32, so a free slot may be refused. |
| `SseSlots.RefusedWithFreeSlot` | crates/folk-transport/src/lib.rs:359-371 | It happens: after 32 acquires, a failed one and a release, 31 threads hold a slot and another thread is refused. |
| `Config.LoadConfig` | crates/folk-core/src/lib.rs:90-111 | The loop over lines computes the record the lemmas speak of. |
| `Config.SettingExactly` | crates/folk-core/src/lib.rs:91-109 | A line sets a key exactly when the text before its first '=' is that key and the text after it is not blank, each but for white space around it. |
| `Config.SaveExactly` | crates/folk-core/src/lib.rs:117-137 | The text of a record: one line for each field it has, in a fixed order. |
| `Text.ParseExactly` | crates/folk-core/src/lib.rs:106 | A number parses exactly when it is as printed, after an optional plus and zeros, and in range. |
| `Text.TrimExactly` | crates/folk-core/src/lib.rs:92-100 | Trimming takes off all the white space around a text and nothing else. |
| `Text.LinesSplit` | crates/folk-core/src/lib.rs:91 | Both kinds of line end are taken off. |
| `Config.SaveConfig` | crates/folk-core/src/lib.rs:117-137 | The appends make the text the lemmas speak of. |
| `Config.LoadedIsStorable` | crates/folk-core/src/lib.rs:90-111 | Every loaded string is non-empty, trimmed and on one line, whatever the file held. |
| `Config.LoadAppended` | crates/folk-core/src/lib.rs:90-111 | Later lines win: a saved record after other settings overrides exactly those it has. |
| `Config.BadPortClears` | crates/folk-core/src/lib.rs:106 | A port that does not parse clears an earlier one. |
| `Config.RoundTrip` | crates/folk-core/src/lib.rs:90-137 | Saving then loading returns the record exactly when its strings are non-empty, trimmed and on one line. |
| `Config.Canonical` | crates/folk-core/src/lib.rs:90-137 | Loading, saving and loading again equals loading once, for every text. |
| `Hex.GenerateHex` | crates/folk-core/src/lib.rs:221-229 | The loop that appends two digits per byte computes the encoding. |
| `Hex.EncodeAt` | crates/folk-core/src/lib.rs:221-229 | Each byte becomes two lower-case digits, the high one first. |
| `Hex.DigitsExactly` | crates/folk-transport/src/lib.rs:778-783 | Digits of both letter cases are read. |
| `Hex.DecodeEncode` | crates/folk-core/src/lib.rs:221-229 | The encoding decodes to the same bytes. |
| `Hex.EncodeInjective` | crates/folk-core/src/lib.rs:221-229 | Different bytes have different encodings. |
| `Hex.EncodeDecode` | crates/folk-transport/src/lib.rs:778-783 | Whatever an identity parser decodes is an encoding, up to letter case. |
| `Hex.BearerExactlyGenerated` | crates/folk-core/src/lib.rs:217-236 | The bearer check accepts exactly the tokens the generator can make of 32 bytes. |
| `ObservationCache.Cache.CacheObservation` | crates/folk-computer-use/src/praefectus_adapter.rs:184-198 | The two retains, the push and the pop loop compute one insertion; a refused observation changes nothing. |
| `ObservationCache.LastOfExactly` | crates/folk-computer-use/src/praefectus_adapter.rs:194-196 | What the pop loop leaves is the end of the list, as long as allowed. |
| `ObservationCache.Cache.CachedTarget` | crates/folk-computer-use/src/praefectus_adapter.rs:200-214 | The search finds the first entry with the id. |
| `ObservationCache.SurvivorsStep` | crates/folk-computer-use/src/praefectus_adapter.rs:190-193 | An insertion filters the history's survivors, the latest versions that were unexpired at every later insertion, and adds the new observation. |
| `ObservationCache.InsertAgrees` | crates/folk-computer-use/src/praefectus_adapter.rs:191-196 | Whatever the clock and expiry times, a cache that held the last 8 survivors still does after an insertion exactly when 7 cached entries stay or no older survivor does. |
| `ObservationCache.AgreesExactly` | crates/folk-computer-use/src/praefectus_adapter.rs:184-198 | So the cache is the last 8 survivors throughout a history exactly when every insertion meets that condition. |
| `ObservationCache.EvictedSurvivor` | crates/folk-computer-use/src/praefectus_adapter.rs:184-198 | It can fail: an observation pushed out by eight short-lived ones survives them, but does not come back. |
| `ObservationCache.CacheIsLastSurvivors` | crates/folk-computer-use/src/praefectus_adapter.rs:184-198 | With expiry times that never decrease, the cache is always the last 8 survivors of the whole history, whatever the clock does. |
| `ObservationCache.LastReadingDecides` | crates/folk-computer-use/src/praefectus_adapter.rs:190-193 | Whether an entry survives can be told from the last insertion alone, whatever its expiry time, exactly when no clock reading after its own exceeds the last one. |
| `ObservationCache.MonotoneDecides` | crates/folk-computer-use/src/praefectus_adapter.rs:190-193 | In particular under a clock that never runs back. |
| `ObservationCache.LastReadingMisses` | crates/folk-computer-use/src/praefectus_adapter.rs:190-193 | Under one that does, not: an entry unexpired at the last insertion is gone, with expiry times in order and room left. |
| `ObservationCache.CacheShape` | crates/folk-computer-use/src/praefectus_adapter.rs:184-198 | Without any assumption: at most 8 entries, distinct ids, insertion order, newest last, each the latest version of its id and unexpired at every later insertion. |
| `ObservationCache.LookupIsLatest` | crates/folk-computer-use/src/praefectus_adapter.rs:200-213 | A lookup succeeds exactly when the most recent observation with that id is still cached, validates and resolves the tag; it gives that target, and its expiry as the deadline. |
| `RetrySafety.SafeExactly` | crates/folk-computer-use/src/praefectus_adapter.rs:295-314 | Retry-safe holds exactly when something terminated and every terminal is a rejection, or a cancellation or expiry before effect. |
| `RetrySafety.SafeUnderPermutation` | crates/folk-computer-use/src/praefectus_adapter.rs:295-307 | The order of acknowledgements does not matter. |
| `RetrySafety.UnsafeForever` | crates/folk-computer-use/src/praefectus_adapter.rs:295-307 | After any other terminal, no other acknowledgements make a retry safe. |

## Left out

- RelayNetwork.AcceptedIsSubsequence: does not cover a sender that has sealed more than 2^64 payloads for one peer; the counter wraps then, and order is lost.
- ObservationCache.CacheIsLastSurvivors: assumes expiry times that do not decrease from one insertion to the next, which the source does not ask for; `AgreesExactly` is the exact condition for every history, and `EvictedSurvivor` a history that fails it.
- SseSlots.SlotsBounded: does not cover 2^32 or more threads, which would wrap the counter.
- Cascade.CascadeEnds: nobody joins or closes during a cascade, and a daemon that drops its connection on an error rejoins outside it; `Churn` has no bound on moves, because every join adds to them.
- Real cryptography, random numbers, TLS, WebSockets, sockets, time-outs, sleeps and thread spawning. Random bytes, nonces and clock readings are inputs.
- A WebSocket send never throws except in `BrokenSends`, which takes a closed socket for the only cause, and close for an operation that never throws.
- JSON parsing and printing. The size of a message's data in bytes is a parameter of the room.
- In the HTTP server, request line, origin and bearer checks, which come before the POST handler, and responses; a read that fails drops the connection.
- MCP dispatch is a parameter; for the cascades it is assumed to give a response no response, as a message without a method gets none (crates/folk-mcp/src/lib.rs:146-148).
- Allocation failure when a stdio header declares a body too large for memory.
- Trimming knows ASCII white space only; other Unicode white space is not modelled.
- The Praefectus engine, ledger and signing; validation and target lookup of observations are parameters.
- Reading and writing the configuration and token files, their permissions, and artifact files.
- The Worker's HTTP routes and home page, the installer, the command line and the tool handlers.
