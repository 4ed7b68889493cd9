/** The chat wire protocol as the hub sees it: the user identity a ticket
    resolves to, the envelope type names, a client frame after JSON decoding,
    the envelopes the hub sends, and the text of its system notices. */
module Protocol {
  import opened Wrappers
  import opened Text

  datatype User = User(userId: string, nickname: string)

  const MessageSend := "MESSAGE_SEND"
  const MessageReceive := "MESSAGE_RECEIVE"
  const SystemMessageReceive := "SYSTEM_MESSAGE_RECEIVE"
  const ServerStatusRequest := "SERVERSTATUS_REQUEST"
  const ServerStatusResponse := "SERVERSTATUS_RESPONSE"

  /** The payload of MESSAGE_SEND; `message` is null when absent. */
  datatype MessageSendPayload = MessageSendPayload(message: Option<string>)

  /** The `payload` property as the MESSAGE_SEND handler finds it. `Absent`:
      the property is missing, so the envelope holds a default JSON element,
      on which decoding throws an error the handler does not catch.
      `Undecodable`: it is null or does not decode as the record, and
      decoding gives null. `Decoded`: the record it decodes to. */
  datatype Payload = Absent | Undecodable | Decoded(value: MessageSendPayload)

  /** A text frame the JSON decoder accepted: the `type` property (null when
      absent) and the payload. JSON itself is not modelled. */
  datatype ClientMessage = ClientMessage(kind: Option<string>, payload: Payload)

  /** The envelopes the hub writes; timestamps are the hub's clock reading. */
  datatype OutEnvelope =
    | MessageReceived(timestamp: int, nickname: string, message: string)
    | SystemMessage(timestamp: int, text: string)
    | StatusResponse(clientCount: nat)
  {
    function TypeName(): string {
      match this
      case MessageReceived(_, _, _) => MessageReceive
      case SystemMessage(_, _) => SystemMessageReceive
      case StatusResponse(_) => ServerStatusResponse
    }
  }

  /** "{nickname} has joined". */
  function JoinNotice(nickname: string): string {
    nickname + " 님이 입장했습니다."
  }

  /** "{nickname} has left", as the current hub words it. */
  function LeaveNotice(nickname: string): string {
    nickname + " 님이 퇴장했습니다."
  }

  /** "{nickname} has left. Now N users", as the older hub words it. */
  function LeaveNoticeWithCount(nickname: string, count: nat): string {
    LeaveNotice(nickname) + " 현재 접속자 " + NatToString(count) + "명"
  }
}
