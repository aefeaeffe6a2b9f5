/**
 * The wire-level vocabulary of the real-time hub: payload bytes, decoded
 * inbound frames, broadcast envelopes, and the decision the reader of a
 * connection takes for each frame (websocket/hub.go).
 */
module Protocol {
  import opened Wrappers

  newtype byte = x: int | 0 <= x < 256

  /** An opaque byte blob (Go's []byte). */
  type Bytes = seq<byte>

  /** The fields of an inbound frame the hub looks at: `type` and `chat_id`. A missing `chat_id` decodes as 0. */
  datatype WSMessage = WSMessage(kind: string, chatID: nat)

  /** One frame read from a connection: its raw bytes and, when it is valid JSON, its decoded fields. */
  datatype Frame = Frame(raw: Bytes, decoded: Option<WSMessage>)

  /** A broadcast request: conversation id, payload, and the user id not to deliver to (0 excludes no real user). */
  datatype Envelope = Envelope(chatID: nat, message: Bytes, exclude: nat)

  /** What the reader of a connection does with one frame. */
  datatype Action = JoinRoom(chatID: nat) | LeaveRoom(chatID: nat) | Relay(env: Envelope) | Drop

  /** The pass-through event kinds that are relayed to the other members of a room. */
  predicate IsRelayKind(kind: string) {
    kind == "typing" || kind == "message_delivered" || kind == "message_read"
  }

  /** The conversation id a frame refers to, 0 for an undecodable frame. */
  function FrameChat(f: Frame): nat {
    if f.decoded.Some? then f.decoded.value.chatID else 0
  }

  /**
   * The `switch wsMsg.Type` of the reader: join and leave act on the named
   * room, the three event kinds relay the raw frame with the sender's own
   * id excluded, and anything else (or a frame that does not decode) is
   * dropped. No outcome stops the read loop.
   */
  function Classify(f: Frame, sender: nat): (a: Action)
    ensures a.Drop? <==> f.decoded.None? || !(f.decoded.value.kind in {"join_chat", "leave_chat"} || IsRelayKind(f.decoded.value.kind))
    ensures a.JoinRoom? <==> f.decoded.Some? && f.decoded.value.kind == "join_chat"
    ensures a.LeaveRoom? <==> f.decoded.Some? && f.decoded.value.kind == "leave_chat"
    ensures (a.JoinRoom? || a.LeaveRoom?) ==> a.chatID == f.decoded.value.chatID
    ensures a.Relay? ==> a.env.chatID == f.decoded.value.chatID && a.env.message == f.raw && a.env.exclude == sender
  {
    match f.decoded
    case None => Drop
    case Some(m) =>
      if m.kind == "join_chat" then JoinRoom(m.chatID)
      else if m.kind == "leave_chat" then LeaveRoom(m.chatID)
      else if IsRelayKind(m.kind) then Relay(Envelope(m.chatID, f.raw, sender))
      else Drop
  }
}
