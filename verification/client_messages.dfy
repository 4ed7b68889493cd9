/** The terminal client's envelopes (chat-client/src/messages.ts): the two
    envelopes it builds and the one-line text it shows for an inbound value.

    A JavaScript value is modelled as a datatype. `String(x)` and
    `JSON.stringify(x)` are not modelled; they are parameters. */
module ClientMessages {
  import opened Wrappers
  import opened Text
  import opened Protocol

  datatype JsValue =
    | JsUndefined
    | JsNull
    | JsBool(b: bool)
    | JsNumber(n: real)
    | JsString(s: string)
    | JsArray(items: seq<JsValue>)
    | JsObject(props: map<string, JsValue>)

  /** Property access `v.name`: undefined when `v` has no such own property
      (arrays are taken to have no named properties). */
  function Get(v: JsValue, name: string): JsValue {
    if v.JsObject? && name in v.props then v.props[name] else JsUndefined
  }

  /** `typeof v === "object" && v !== null`. */
  predicate IsPlainObject(v: JsValue) {
    v.JsArray? || v.JsObject?
  }

  function Envelope(kind: string, payload: JsValue): JsValue {
    JsObject(map["type" := JsString(kind), "payload" := payload])
  }

  /** buildMessageSend. */
  function BuildMessageSend(message: string): (v: JsValue)
    ensures Get(v, "type") == JsString(MessageSend)
    ensures Get(Get(v, "payload"), "message") == JsString(message)
    ensures v.JsObject? && v.props.Keys == {"type", "payload"}
  {
    var v := Envelope(MessageSend, JsObject(map["message" := JsString(message)]));
    assert v.props.Keys == {"type", "payload"};
    v
  }

  /** The message can be read back from the envelope: different messages
      make different envelopes. */
  lemma BuildMessageSendInjective(a: string, b: string)
    ensures BuildMessageSend(a) == BuildMessageSend(b) <==> a == b
  {
    if BuildMessageSend(a) == BuildMessageSend(b) {
      assert Get(Get(BuildMessageSend(a), "payload"), "message") == JsString(a);
    }
  }

  /** buildServerStatusRequest. */
  function BuildServerStatusRequest(): (v: JsValue)
    ensures Get(v, "type") == JsString(ServerStatusRequest)
    ensures Get(v, "payload") == JsObject(map[])
  {
    Envelope(ServerStatusRequest, JsObject(map[]))
  }

  // ---------------------------------------------------------------------
  // Upper-casing as String.prototype.toUpperCase does it

  /** The upper-case form of one character. ASCII letters map to their
      capitals; the non-ASCII characters whose upper-case form is pure ASCII
      are mapped too (dotless i, long s, sharp s and the Latin ligatures).
      Every other character is kept: its real upper-case form is either
      itself or not ASCII, which is all the type comparison below needs. */
  function UpperJsChar(c: char): string {
    if 'a' <= c <= 'z' then [UpperChar(c)]
    else if c == 'ı' then "I"
    else if c == 'ſ' then "S"
    else if c == 'ß' then "SS"
    else if c == 'ﬀ' then "FF"
    else if c == 'ﬁ' then "FI"
    else if c == 'ﬂ' then "FL"
    else if c == 'ﬃ' then "FFI"
    else if c == 'ﬄ' then "FFL"
    else if c == 'ﬅ' || c == 'ﬆ' then "ST"
    else [c]
  }

  function ToUpperJs(s: string): (r: string) {
    if |s| == 0 then "" else UpperJsChar(s[0]) + ToUpperJs(s[1..])
  }

  /** On text without those special characters, toUpperCase is the ASCII
      upper-casing. */
  lemma {:induction false} ToUpperJsOfPlain(s: string)
    requires forall i :: 0 <= i < |s| ==> UpperJsChar(s[i]) == [UpperChar(s[i])]
    ensures ToUpperJs(s) == ToUpperAscii(s)
  {
    if |s| > 0 {
      ToUpperJsOfPlain(s[1..]);
      assert ToUpperAscii(s) == [UpperChar(s[0])] + ToUpperAscii(s[1..]);
    }
  }

  // ---------------------------------------------------------------------
  // Formatting an inbound value

  /** `String(value.type ?? "").toUpperCase()`. */
  function TypeOf(v: JsValue, str: JsValue -> string): string {
    var t := Get(v, "type");
    ToUpperJs(if t.JsUndefined? || t.JsNull? then "" else if t.JsString? then t.s else str(t))
  }

  /** `ts ? "@" + ts : ""` for a timestamp that is a string, and nothing
      otherwise. */
  function AtTimestamp(ts: JsValue): string {
    if ts.JsString? && ts.s != "" then "@" + ts.s else ""
  }

  /** formatInboundMessage; `str` is String() and `stringify` is
      JSON.stringify. */
  function FormatInboundMessage(v: JsValue, str: JsValue -> string, stringify: JsValue -> string): string {
    if !IsPlainObject(v) then str(v)
    else
      var t := TypeOf(v, str);
      var data := Get(v, "payload");
      if t == MessageReceive && IsPlainObject(data) && Get(data, "message").JsString? then
        var nickname := Get(data, "nickname");
        var author := if nickname.JsString? then nickname.s else "unknown";
        author + AtTimestamp(Get(data, "timestamp")) + ": " + Get(data, "message").s
      else if t == ServerStatusResponse && IsPlainObject(data) && Get(data, "clientCount").JsNumber? then
        "[서버 인원] 현재 접속자 " + str(Get(data, "clientCount")) + "명"
      else if t == SystemMessageReceive && IsPlainObject(data) && Get(data, "message").JsString? then
        "[system" + AtTimestamp(Get(data, "timestamp")) + "] " + Get(data, "message").s
      else stringify(v)
  }

  /** A chat line: author (or "unknown"), "@" and the timestamp when it is a
      non-empty string, then the message. */
  lemma ChatLine(nickname: JsValue, message: string, timestamp: JsValue, kind: string,
                 str: JsValue -> string, stringify: JsValue -> string)
    requires ToUpperJs(kind) == MessageReceive
    ensures var data := JsObject(map["nickname" := nickname, "message" := JsString(message), "timestamp" := timestamp]);
      var v := JsObject(map["type" := JsString(kind), "payload" := data]);
      FormatInboundMessage(v, str, stringify)
      == (if nickname.JsString? then nickname.s else "unknown")
         + (if timestamp.JsString? && timestamp.s != "" then "@" + timestamp.s else "")
         + ": " + message
  {
  }

  /** A status line: the count as String() shows it, between the fixed
      words; whatever else the payload holds. */
  lemma StatusLine(kind: string, data: map<string, JsValue>, str: JsValue -> string, stringify: JsValue -> string)
    requires ToUpperJs(kind) == ServerStatusResponse
    requires "clientCount" in data && data["clientCount"].JsNumber?
    ensures var v := JsObject(map["type" := JsString(kind), "payload" := JsObject(data)]);
      FormatInboundMessage(v, str, stringify) == "[서버 인원] 현재 접속자 " + str(data["clientCount"]) + "명"
  {
  }

  /** A system line: "[system", "@" and the timestamp when it is a non-empty
      string, "] ", then the message. */
  lemma SystemLine(kind: string, data: map<string, JsValue>, str: JsValue -> string, stringify: JsValue -> string)
    requires ToUpperJs(kind) == SystemMessageReceive
    requires "message" in data && data["message"].JsString?
    ensures var v := JsObject(map["type" := JsString(kind), "payload" := JsObject(data)]);
      FormatInboundMessage(v, str, stringify)
      == "[system"
         + (if "timestamp" in data && data["timestamp"].JsString? && data["timestamp"].s != ""
            then "@" + data["timestamp"].s else "")
         + "] " + data["message"].s
  {
    var v := JsObject(map["type" := JsString(kind), "payload" := JsObject(data)]);
    assert TypeOf(v, str) == SystemMessageReceive;
    assert |SystemMessageReceive| != |MessageReceive| && |SystemMessageReceive| != |ServerStatusResponse|;
    assert Get(v, "payload") == JsObject(data);
  }

  /** An object whose payload is not an object is shown as JSON, whatever
      its type. */
  lemma NonObjectPayloadIsJson(v: JsValue, str: JsValue -> string, stringify: JsValue -> string)
    requires IsPlainObject(v) && !IsPlainObject(Get(v, "payload"))
    ensures FormatInboundMessage(v, str, stringify) == stringify(v)
  {
  }

  /** An object of any other type is shown as JSON. */
  lemma UnknownTypeIsJson(v: JsValue, str: JsValue -> string, stringify: JsValue -> string)
    requires IsPlainObject(v)
    requires TypeOf(v, str) !in {MessageReceive, ServerStatusResponse, SystemMessageReceive}
    ensures FormatInboundMessage(v, str, stringify) == stringify(v)
  {
  }

  /** Types match whatever the case of their ASCII letters. */
  lemma TypeIsCaseInsensitive(kind: string, known: string, str: JsValue -> string, payload: JsValue)
    requires known in {MessageReceive, ServerStatusResponse, SystemMessageReceive}
    requires EqualsIgnoreAsciiCase(kind, known)
    requires forall i :: 0 <= i < |kind| ==> UpperJsChar(kind[i]) == [UpperChar(kind[i])]
    ensures TypeOf(JsObject(map["type" := JsString(kind), "payload" := payload]), str) == known
  {
    var v := JsObject(map["type" := JsString(kind), "payload" := payload]);
    assert Get(v, "type") == JsString(kind);
    assert NoLowerAscii(known);
    ToUpperJsOfPlain(kind);
    UpperMatchesIgnoringCase(kind, known);
  }

  /** A recognised type whose field has the wrong type falls through to the
      JSON text of the whole value. */
  lemma WrongFieldFallsThrough(kind: string, data: map<string, JsValue>, str: JsValue -> string,
                               stringify: JsValue -> string)
    requires ToUpperJs(kind) in {MessageReceive, SystemMessageReceive}
    requires "message" in data ==> !data["message"].JsString?
    ensures var v := JsObject(map["type" := JsString(kind), "payload" := JsObject(data)]);
      FormatInboundMessage(v, str, stringify) == stringify(v)
  {
  }

  /** Anything that is not an object, null included, is shown with String(). */
  lemma NonObjectsAreStringified(v: JsValue, str: JsValue -> string, stringify: JsValue -> string)
    requires !v.JsArray? && !v.JsObject?
    ensures FormatInboundMessage(v, str, stringify) == str(v)
  {
  }
}
