/**
 * The HTTP replies of the relay: the publish acknowledgement with its JSON
 * body, the mapping of middleware errors to statuses, and the fallback reply
 * for unmatched routes.
 */
module Http {

  datatype Option<T> = None | Some(value: T)

  /** A reply: status code and body text. */
  datatype Reply = Reply(status: int, body: string)

  const StatusCreated: int := 201
  const StatusNotFound: int := 404
  const StatusRequestTimeout: int := 408
  const StatusInternalServerError: int := 500

  /** The acknowledgement of a publish request. */
  datatype Message = Message(messageId: string)

  /** The JSON text around the identifier; the field is renamed to `messageId`. */
  const JsonOpen: string := "{\"messageId\":\""
  const JsonClose: string := "\"}"

  predicate IsLowerHex(c: char)
  {
    '0' <= c <= '9' || 'a' <= c <= 'f'
  }

  /**
   * The text of a random (version 4) UUID in hyphenated lower-case form:
   * 8-4-4-4-12 hex digits, version digit `4`, variant digit one of `89ab`.
   */
  predicate IsUuidV4Text(id: string)
  {
    |id| == 36
    && (forall i :: 0 <= i < 36 ==>
          if i == 8 || i == 13 || i == 18 || i == 23 then id[i] == '-' else IsLowerHex(id[i]))
    && id[14] == '4' && id[19] in "89ab"
  }

  /** A string that JSON carries between quotes without any escape. */
  predicate IsPlainJsonText(s: string)
  {
    forall c :: c in s ==> c != '"' && c != '\\' && c >= ' '
  }

  /** UUID text never needs escaping. */
  lemma UuidIsPlainJsonText(id: string)
    requires IsUuidV4Text(id)
    ensures IsPlainJsonText(id)
  {
    forall c | c in id ensures c != '"' && c != '\\' && c >= ' ' {
      var i :| 0 <= i < |id| && id[i] == c;
    }
  }

  /**
   * The serialised acknowledgement, `{"messageId":"<id>"}`; reading it back
   * gives the acknowledgement.
   */
  function MessageJson(m: Message): (r: string)
    requires IsPlainJsonText(m.messageId)
    ensures ParseMessageJson(r) == Some(m)
  {
    var text := JsonOpen + m.messageId + JsonClose;
    assert text[..|JsonOpen|] == JsonOpen;
    assert text[|text| - |JsonClose|..] == JsonClose;
    assert text[|JsonOpen|..|text| - |JsonClose|] == m.messageId;
    text
  }

  /** Reads an acknowledgement back; `None` for any other text. */
  function ParseMessageJson(text: string): (r: Option<Message>)
  {
    var n := |JsonOpen|;
    var k := |JsonClose|;
    if |text| >= n + k && text[..n] == JsonOpen && text[|text| - k..] == JsonClose
       && IsPlainJsonText(text[n..|text| - k])
    then Some(Message(text[n..|text| - k]))
    else None
  }

  /** Every text that reads as an acknowledgement is that acknowledgement's serialisation. */
  lemma ParseMessageJsonExact(text: string, m: Message)
    requires ParseMessageJson(text) == Some(m)
    ensures IsPlainJsonText(m.messageId) && MessageJson(m) == text
  {
    var n := |JsonOpen|;
    var k := |JsonClose|;
    assert text == text[..n] + text[n..|text| - k] + text[|text| - k..];
  }

  /** What `publish` answers once its job is enqueued: 201 and the identifier. */
  function PublishReply(messageId: string): (r: Reply)
    requires IsUuidV4Text(messageId)
    ensures r.status == StatusCreated
    ensures ParseMessageJson(r.body) == Some(Message(messageId))
  {
    UuidIsPlainJsonText(messageId);
    Reply(StatusCreated, MessageJson(Message(messageId)))
  }

  /** The errors the middleware stack hands to its error handler. */
  datatype MiddlewareError =
    | Elapsed                        // the request timeout fired
    | Other(description: string)     // any other error, with its display text

  const InternalErrorPrefix: string := "Unhandled internal error: "

  /** The error handler: a timeout becomes 408, anything else 500 with its description. */
  function HandleError(e: MiddlewareError): (r: Reply)
    ensures r.status == StatusRequestTimeout <==> e.Elapsed?
    ensures r.status == StatusInternalServerError <==> e.Other?
    ensures e.Elapsed? ==> r.body == ""
    ensures e.Other? ==> |r.body| >= |InternalErrorPrefix|
                         && r.body[..|InternalErrorPrefix|] == InternalErrorPrefix
                         && r.body[|InternalErrorPrefix|..] == e.description
  {
    match e
    case Elapsed => Reply(StatusRequestTimeout, "")
    case Other(description) => Reply(StatusInternalServerError, InternalErrorPrefix + description)
  }

  /** The fallback for unmatched routes: 404 with a non-empty text body. */
  function NotFound(): (r: Reply)
    ensures r.status == StatusNotFound && |r.body| > 0
  {
    Reply(StatusNotFound, "nothing to see here")
  }
}
