/** How the non-streaming `chat` handler picks the assistant reply out of the completion
    response (app.py:152-156): the first choice's `message.content` when there is one,
    otherwise `None`. The response is a decoded JSON object. */
module ReplyExtraction {
  import opened Wrappers

  datatype Json =
    | Null
    | Bool(b: bool)
    | Number(n: int)
    | Str(s: string)
    | Array(items: seq<Json>)
    | Object(fields: map<string, Json>)

  /** The reply found, or `Raised` for the exception the lookup throws on a response of
      an unexpected shape (which `chat` turns into a 500 error). */
  datatype Extraction = Extracted(reply: Option<Json>) | Raised

  /** Python truthiness of a JSON value. */
  predicate Truthy(j: Json)
  {
    match j
    case Null => false
    case Bool(b) => b
    case Number(n) => n != 0
    case Str(s) => s != ""
    case Array(items) => items != []
    case Object(fields) => fields != map[]
  }

  predicate StartsWith(s: string, prefix: string)
  {
    |prefix| <= |s| && s[..|prefix|] == prefix
  }

  /** Python's substring test `needle in hay`. */
  predicate Contains(hay: string, needle: string)
    decreases |hay|
  {
    StartsWith(hay, needle) || (hay != [] && Contains(hay[1..], needle))
  }

  const ContentKey: string := "content"

  /** `message_data["content"]` after `"content" in message_data`, for a truthy value. */
  function ContentOf(messageData: Json): Extraction
  {
    match messageData
    case Object(fields) =>
      if ContentKey in fields then Extracted(Some(fields[ContentKey])) else Extracted(None)
    // `in` on a string is a substring test, and indexing a string by a string raises
    case Str(s) => if Contains(s, ContentKey) then Raised else Extracted(None)
    // `in` on a list compares elements, and indexing a list by a string raises
    case Array(items) => if Str(ContentKey) in items then Raised else Extracted(None)
    // `in` on a number or a boolean raises
    case _ => Raised
  }

  /** An OpenAI-style response whose first choice carries a message object with a
      `content` field, which is `reply`. */
  predicate HasReply(response: map<string, Json>, reply: Json)
  {
    && "choices" in response
    && response["choices"].Array?
    && |response["choices"].items| > 0
    && response["choices"].items[0].Object?
    && "message" in response["choices"].items[0].fields
    && response["choices"].items[0].fields["message"].Object?
    && ContentKey in response["choices"].items[0].fields["message"].fields
    && reply == response["choices"].items[0].fields["message"].fields[ContentKey]
  }

  /** A response whose choices are a list, whose first choice (if any) is an object, and
      whose message there (if any) is `null` or an object. */
  predicate WellShaped(response: map<string, Json>)
  {
    "choices" in response ==>
      && response["choices"].Array?
      && (response["choices"].items != [] ==>
            && response["choices"].items[0].Object?
            && var fields := response["choices"].items[0].fields;
               "message" in fields ==> fields["message"].Null? || fields["message"].Object?)
  }

  /** app.py:152-156. */
  function ExtractReply(response: map<string, Json>): (r: Extraction)
    ensures r.Extracted? && r.reply.Some? ==> HasReply(response, r.reply.value)
    ensures forall reply :: HasReply(response, reply) ==> r == Extracted(Some(reply))
    ensures WellShaped(response) ==> r.Extracted?
    ensures "choices" !in response ==> r == Extracted(None)
    ensures "choices" in response && response["choices"].Array? && response["choices"].items == [] ==>
      r == Extracted(None)
  {
    if "choices" !in response then Extracted(None)
    else
      match response["choices"]
      case Array(items) =>
        if |items| == 0 then Extracted(None)
        else (
          match items[0]
          case Object(fields) =>
            var messageData := if "message" in fields then fields["message"] else Object(map[]);
            if Truthy(messageData) then ContentOf(messageData) else Extracted(None)
          // only a dict has `.get`
          case _ => Raised)
      // `len(...)` holds for these, and `[0]` on a non-empty one does not give a dict
      case Str(s) => if |s| == 0 then Extracted(None) else Raised
      case Object(fields) => if |fields| == 0 then Extracted(None) else Raised
      // `len(...)` raises
      case _ => Raised
  }
}
