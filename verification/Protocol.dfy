/** The messages daemons and the signalling room exchange. D is the JSON data of an offer,
    answer or relay. A field that is absent, or not a string, is None. */
module Protocol {
  import opened Wrappers

  datatype Kind = Offer | Answer | Relay

  datatype ClientMessage<+D> =
    | Join(identity: Option<string>)
    | Forward(kind: Kind, from: Option<string>, to: Option<string>, data: D)
    | UnknownType(name: string)
    | Malformed

  datatype ServerMessage<+D> =
    | Joined(peers: seq<string>)
    | PeerJoined(identity: string)
    | PeerLeft(identity: string)
    | Forwarded(kind: Kind, from: string, data: D)
    | Error(message: string)
}
