/** The signaling protocol: what a client may send, what the server emits, and
    the check that keeps the two apart (internal/signaling/protocol.go).
    JSON text is not modelled: a decoded value stands for the bytes. */
module Protocol {

  const TYPE_OFFER := "offer"
  const TYPE_ANSWER := "answer"
  const TYPE_CANDIDATE := "candidate"
  const TYPE_BYE := "bye"
  const TYPE_CHAT := "chat"

  const TYPE_WELCOME := "welcome"
  const TYPE_PEER_JOINED := "peer-joined"
  const TYPE_PEER_LEFT := "peer-left"

  datatype Peer = Peer(id: string, displayName: string)

  /** What the JSON decoder makes of the bytes of a client frame. */
  datatype Decoded = NotJson | Fields(inbound: Inbound)

  datatype Inbound = Inbound(msgType: string, to: string, payload: string)

  datatype Outbound = Outbound(msgType: string, sender: string, payload: string, peers: seq<Peer>)

  datatype ParseResult = Parsed(value: Inbound) | DecodeError | UnknownType(msgType: string)

  predicate IsClientType(msgType: string) {
    msgType in [TYPE_OFFER, TYPE_ANSWER, TYPE_CANDIDATE, TYPE_BYE, TYPE_CHAT]
  }

  /** The frames that tell a client who is in its room. */
  predicate IsPresence(frame: Outbound) {
    frame.msgType in [TYPE_WELCOME, TYPE_PEER_JOINED, TYPE_PEER_LEFT]
  }

  /** A frame the hub relays on behalf of a client. */
  type Relayed = f: Outbound | IsClientType(f.msgType)
    witness Outbound(TYPE_BYE, "", "", [])

  function ParseInbound(data: Decoded): ParseResult {
    match data
    case NotJson => DecodeError
    case Fields(inbound) =>
      if IsClientType(inbound.msgType) then Parsed(inbound) else UnknownType(inbound.msgType)
  }

  function Welcome(userID: string, peers: seq<Peer>): Outbound {
    Outbound(TYPE_WELCOME, userID, "", peers)
  }

  function PeerJoined(peer: Peer): Outbound {
    Outbound(TYPE_PEER_JOINED, peer.id, "", [peer])
  }

  function PeerLeft(peer: Peer): Outbound {
    Outbound(TYPE_PEER_LEFT, peer.id, "", [peer])
  }

  lemma ClientTypesAreNotPresence(frame: Outbound)
    requires IsClientType(frame.msgType)
    ensures !IsPresence(frame)
  {
    assert TYPE_WELCOME[0] == 'w';
    assert TYPE_PEER_JOINED[0] == 'p' && TYPE_PEER_LEFT[0] == 'p';
    assert TYPE_OFFER[0] == 'o' && TYPE_ANSWER[0] == 'a' && TYPE_CANDIDATE[0] == 'c';
    assert TYPE_BYE[0] == 'b' && TYPE_CHAT[0] == 'c';
  }

  /** A client frame that is parsed and re-encoded under the server's stamp is
      never mistaken for presence, whatever the client wrote in it; and every
      presence type is refused on the way in. */
  lemma RelayedIsNeverPresence(data: Decoded, stamp: string)
    ensures ParseInbound(data).Parsed? ==>
              var in' := ParseInbound(data).value;
              !IsPresence(Outbound(in'.msgType, stamp, in'.payload, []))
    ensures data.Fields? && IsPresence(Outbound(data.inbound.msgType, stamp, "", [])) ==>
              ParseInbound(data) == UnknownType(data.inbound.msgType)
  {
    if data.Fields? && IsClientType(data.inbound.msgType) {
      ClientTypesAreNotPresence(Outbound(data.inbound.msgType, stamp, data.inbound.payload, []));
    }
  }
}
