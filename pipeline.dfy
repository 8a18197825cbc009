/** The streaming chat handler (`chat_stream` and its inner generator `generate()`,
    app.py:176-250) as a reference definition: what one request appends to the history,
    writes to the memory store and sends to the client, given how its collaborators
    behave. StreamHandler runs the same steps imperatively; PipelineProperties proves
    the ordering and exactly-once rules about this definition. */
module Pipeline {
  import opened Wrappers
  import opened Session
  import opened Events

  /** How the completion stream ends once it has yielded its chunks. */
  datatype StreamEnd = Completed | Failed(message: string)

  /** What `chat_completion(stream=True, ...)` produces: the chunks it yields (`None` for
      a chunk without text), then either a normal end or an exception whose `str(e)` is
      `message`. An exception raised while opening the stream is a failure after no chunks. */
  datatype CompletionStream = CompletionStream(chunks: seq<Option<string>>, end: StreamEnd)

  /** What `option_service.generate_options(...)` does: return a list, or raise. */
  datatype OptionOutcome = Generated(options: seq<string>) | GenerationFailed

  /** The behaviour of every collaborator during one request. `characterId` is the
      configured current character id, with "" standing for an unset one. */
  datatype Collaborators = Collaborators(
    completion: CompletionStream,
    characterId: string,
    memoryFails: bool,
    options: OptionOutcome)

  /** What one run of `generate()` does: the events it yields, the history entries it
      appends and the memory records it writes. */
  datatype Run = Run(events: seq<Event>, appended: seq<Message>, recorded: seq<MemoryRecord>)

  /** The HTTP-level answer of `chat_stream`: a 400 error, or an event stream. */
  datatype StreamResponse = BadRequest(status: int, error: string) | EventStream(events: seq<Event>)

  /** What one request does: its response and its effect on the history and the store. */
  datatype Outcome = Outcome(response: StreamResponse, appended: seq<Message>, recorded: seq<MemoryRecord>)

  const BadRequestStatus: int := 400
  /** "The message must not be empty". */
  const EmptyMessageError: string := "\U{6D88}\U{606F}\U{4E0D}\U{80FD}\U{4E3A}\U{7A7A}"
  const DefaultCharacter: string := "default"

  function Concat(parts: seq<string>): string
  {
    if parts == [] then "" else Concat(parts[..|parts| - 1]) + parts[|parts| - 1]
  }

  /** `full_content` once the stream has yielded all its chunks: the concatenation of the
      non-`None` ones. */
  function FullContent(chunks: seq<Option<string>>): string
  {
    Concat(Values(chunks))
  }

  /** `current_character_id or "default"`. */
  function CharacterName(characterId: string): string
  {
    if characterId == "" then DefaultCharacter else characterId
  }

  /** The `options` event, sent only for a non-empty list that was actually returned. */
  function OptionsEvents(outcome: OptionOutcome): seq<Event>
  {
    match outcome
    case Generated(options) => if options != [] then [Options(options)] else []
    case GenerationFailed => []
  }

  /** One run of `generate()` for the user message `message`. */
  function Generate(message: string, c: Collaborators): Run
  {
    var parts := Values(c.completion.chunks);
    var full := Concat(parts);
    match c.completion.end
    case Failed(e) =>
      Run(ContentEvents(parts) + [Error(e), Done], [], [])
    case Completed =>
      if full == "" then
        Run(ContentEvents(parts) + [Done], [], [])
      else
        Run(ContentEvents(parts) + OptionsEvents(c.options) + [Done],
            [Message(Assistant, full)],
            if c.memoryFails then [] else [MemoryRecord(message, full, CharacterName(c.characterId))])
  }

  /** One request to `chat_stream` whose JSON body carries `message` ("" when absent). */
  function Handle(message: string, c: Collaborators): Outcome
  {
    if message == "" then
      Outcome(BadRequest(BadRequestStatus, EmptyMessageError), [], [])
    else
      var run := Generate(message, c);
      Outcome(EventStream(run.events), [Message(User, message)] + run.appended, run.recorded)
  }
}
