/** The ordering and exactly-once rules of the streaming chat handler, proved about the
    reference definition in Pipeline. */
module PipelineProperties {
  import opened Wrappers
  import opened Session
  import opened Events
  import opened Pipeline

  /** The events `generate()` yields after the relayed chunks. */
  function Ending(c: Collaborators): seq<Event>
  {
    match c.completion.end
    case Failed(e) => [Error(e), Done]
    case Completed =>
      if FullContent(c.completion.chunks) == "" then [Done] else OptionsEvents(c.options) + [Done]
  }

  lemma GenerateSplits(message: string, c: Collaborators)
    ensures Generate(message, c).events == ContentEvents(Values(c.completion.chunks)) + Ending(c)
  {
  }

  lemma {:induction false} CountEnding(c: Collaborators, k: Kind)
    ensures Count(Ending(c), k) ==
      match k
      case ContentKind => 0
      case DoneKind => 1
      case ErrorKind => if c.completion.end.Failed? then 1 else 0
      case OptionsKind =>
        if c.completion.end.Completed? && FullContent(c.completion.chunks) != ""
           && c.options.Generated? && c.options.options != []
        then 1 else 0
  {
    match c.completion.end
    case Failed(e) =>
      CountAppend([Error(e)], [Done], k);
      CountSingleton(Error(e), k);
      CountSingleton(Done, k);
    case Completed =>
      CountSingleton(Done, k);
      if FullContent(c.completion.chunks) != "" {
        CountAppend(OptionsEvents(c.options), [Done], k);
        if OptionsEvents(c.options) != [] {
          CountSingleton(Options(c.options.options), k);
        }
      }
  }

  /** Every run of `generate()` ends with `[DONE]`, and sends it exactly once. */
  lemma {:induction false} DoneExactlyOnceAndLast(message: string, c: Collaborators)
    ensures var events := Generate(message, c).events;
      |events| > 0 && events[|events| - 1] == Done && Count(events, DoneKind) == 1
  {
    var parts := Values(c.completion.chunks);
    GenerateSplits(message, c);
    CountAppend(ContentEvents(parts), Ending(c), DoneKind);
    CountContentEvents(parts, DoneKind);
    CountEnding(c, DoneKind);
  }

  /** One `content` event per non-`None` chunk, carrying that chunk, in stream order and
      before every other event; together they spell out `full_content`. */
  lemma {:induction false} ContentFollowsChunks(message: string, c: Collaborators)
    ensures var events := Generate(message, c).events;
      var parts := Values(c.completion.chunks);
      && |parts| < |events|
      && (forall i :: 0 <= i < |parts| ==> events[i] == Content(parts[i]))
      && (forall i :: |parts| <= i < |events| ==> !events[i].Content?)
      && Count(events, ContentKind) == |parts|
      && Payloads(events) == parts
      && Concat(Payloads(events)) == FullContent(c.completion.chunks)
  {
    var parts := Values(c.completion.chunks);
    GenerateSplits(message, c);
    ContentThenOthers(parts, Ending(c));
  }

  /** An `error` event is sent exactly when the completion stream fails, and then it is the
      one event before `[DONE]`, and the failed turn is neither recorded in the history nor
      in the memory store. */
  lemma {:induction false} ErrorOnlyOnStreamFailure(message: string, c: Collaborators)
    ensures var run := Generate(message, c);
      && Count(run.events, ErrorKind) == (if c.completion.end.Failed? then 1 else 0)
      && (c.completion.end.Failed? ==>
            && |run.events| >= 2
            && run.events[|run.events| - 2] == Error(c.completion.end.message)
            && run.events[|run.events| - 1] == Done
            && run.appended == [] && run.recorded == []
            && Count(run.events, OptionsKind) == 0)
  {
    var parts := Values(c.completion.chunks);
    GenerateSplits(message, c);
    CountAppend(ContentEvents(parts), Ending(c), ErrorKind);
    CountContentEvents(parts, ErrorKind);
    CountEnding(c, ErrorKind);
    CountAppend(ContentEvents(parts), Ending(c), OptionsKind);
    CountContentEvents(parts, OptionsKind);
    CountEnding(c, OptionsKind);
  }

  /** The assistant turn is appended at most once, exactly when the stream ends normally with
      non-empty content, and it holds the concatenation of the `content` payloads sent. */
  lemma AssistantTurnOnlyOnCompletion(message: string, c: Collaborators)
    ensures var run := Generate(message, c);
      var full := Concat(Payloads(run.events));
      && |run.appended| <= 1
      && (run.appended != [] <==> c.completion.end.Completed? && full != "")
      && (run.appended != [] ==> run.appended == [Message(Assistant, full)])
  {
    ContentFollowsChunks(message, c);
  }

  /** A memory record is written only for a turn whose assistant reply was appended, and
      then exactly when the write does not fail; it pairs the user message with that reply. */
  lemma MemoryRecordedOnlyForCompletedTurn(message: string, c: Collaborators)
    ensures var run := Generate(message, c);
      && (run.recorded != [] <==> run.appended != [] && !c.memoryFails)
      && (run.recorded != [] ==>
            run.recorded == [MemoryRecord(message, run.appended[0].content, CharacterName(c.characterId))])
  {
  }

  /** A failing memory write is swallowed: the events (so the content already sent, the
      options and `[DONE]`) and the history are those of a run whose write succeeded. */
  lemma MemoryFailureIsolated(message: string, c: Collaborators)
    ensures Generate(message, c.(memoryFails := true)).events == Generate(message, c.(memoryFails := false)).events
    ensures Generate(message, c.(memoryFails := true)).appended == Generate(message, c.(memoryFails := false)).appended
    ensures Generate(message, c.(memoryFails := true)).recorded == []
  {
  }

  /** At most one `options` event; one exactly when a completed, non-empty turn got a
      non-empty list; it carries that list, comes after every `content` event and right
      before `[DONE]`. */
  lemma {:induction false} OptionsEventPlacement(message: string, c: Collaborators)
    ensures var events := Generate(message, c).events;
      var sent := c.completion.end.Completed? && FullContent(c.completion.chunks) != ""
                  && c.options.Generated? && c.options.options != [];
      && Count(events, OptionsKind) == (if sent then 1 else 0)
      && (sent ==>
            && |events| >= 2
            && events[|events| - 2] == Options(c.options.options)
            && events[|events| - 1] == Done
            && forall i :: 0 <= i < |events| && events[i].Content? ==> i < |events| - 2)
  {
    var parts := Values(c.completion.chunks);
    GenerateSplits(message, c);
    CountAppend(ContentEvents(parts), Ending(c), OptionsKind);
    CountContentEvents(parts, OptionsKind);
    CountEnding(c, OptionsKind);
    ContentFollowsChunks(message, c);
    DoneExactlyOnceAndLast(message, c);
  }

  /** A failing option generation sends nothing and changes nothing else: the run is the
      one that got an empty list. */
  lemma OptionFailureEmitsNothing(message: string, c: Collaborators)
    requires c.options == GenerationFailed
    ensures Generate(message, c) == Generate(message, c.(options := Generated([])))
    ensures Count(Generate(message, c).events, OptionsKind) == 0
  {
    OptionsEventPlacement(message, c);
  }

  /** An empty message is answered with a 400 error before any stream exists: no events,
      nothing appended, nothing recorded. */
  lemma EmptyMessageRejected(c: Collaborators)
    ensures Handle("", c) == Outcome(BadRequest(400, EmptyMessageError), [], [])
  {
  }

  /** A non-empty message is appended as exactly one user turn before anything else, and it
      stays there even when the stream fails; the response is then an event stream that
      ends with exactly one `[DONE]`. */
  lemma UserTurnKept(message: string, c: Collaborators)
    requires message != ""
    ensures var out := Handle(message, c);
      && out.response.EventStream?
      && 1 <= |out.appended| <= 2
      && out.appended[0] == Message(User, message)
      && (forall i :: 1 <= i < |out.appended| ==> out.appended[i].role == Assistant)
      && (c.completion.end.Failed? ==> out.appended == [Message(User, message)] && out.recorded == [])
      && var events := out.response.events;
         |events| > 0 && events[|events| - 1] == Done && Count(events, DoneKind) == 1
  {
    DoneExactlyOnceAndLast(message, c);
    AssistantTurnOnlyOnCompletion(message, c);
    ErrorOnlyOnStreamFailure(message, c);
  }

  /** "hello", chunks "He" and "llo!", memory and options succeed with ["How are you?"]. */
  lemma ScenarioCompletedTurn(characterId: string)
    ensures var c := Collaborators(CompletionStream([Some("He"), Some("llo!")], Completed),
                                   characterId, false, Generated(["How are you?"]));
      Handle("hello", c) ==
        Outcome(EventStream([Content("He"), Content("llo!"), Options(["How are you?"]), Done]),
                [Message(User, "hello"), Message(Assistant, "Hello!")],
                [MemoryRecord("hello", "Hello!", CharacterName(characterId))])
  {
    var chunks := [Some("He"), Some("llo!")];
    assert chunks[..1] == [Some("He")];
    assert Values(chunks) == ["He", "llo!"];
    var parts := ["He", "llo!"];
    assert parts[..1] == ["He"] && ["He"][..0] == [];
    assert Concat(parts) == "He" + "llo!" == "Hello!";
    assert ContentEvents(parts) == [Content("He"), Content("llo!")];
    var c := Collaborators(CompletionStream(chunks, Completed), characterId, false, Generated(["How are you?"]));
    assert Generate("hello", c).events == ContentEvents(parts) + [Options(["How are you?"])] + [Done]
      == [Content("He"), Content("llo!"), Options(["How are you?"]), Done];
    assert Generate("hello", c).appended == [Message(Assistant, "Hello!")];
    var run := Generate("hello", c);
    assert run == Run([Content("He"), Content("llo!"), Options(["How are you?"]), Done],
                      [Message(Assistant, "Hello!")],
                      [MemoryRecord("hello", "Hello!", CharacterName(characterId))]);
    assert [Message(User, "hello")] + run.appended
      == [Message(User, "hello"), Message(Assistant, "Hello!")];
  }

  /** The stream fails with `message` after yielding "Par". */
  lemma ScenarioStreamFails(userMessage: string, failure: string, memoryFails: bool, options: OptionOutcome)
    requires userMessage != ""
    ensures var c := Collaborators(CompletionStream([Some("Par")], Failed(failure)), "", memoryFails, options);
      Handle(userMessage, c) ==
        Outcome(EventStream([Content("Par"), Error(failure), Done]), [Message(User, userMessage)], [])
  {
    var chunks := [Some("Par")];
    assert chunks[..0] == [];
    assert Values(chunks) == ["Par"];
    assert ["Par"][..0] == [];
    assert ContentEvents(["Par"]) == [Content("Par")];
    var c := Collaborators(CompletionStream(chunks, Failed(failure)), "", memoryFails, options);
    assert Generate(userMessage, c).events == ContentEvents(["Par"]) + [Error(failure), Done]
      == [Content("Par"), Error(failure), Done];
    assert [Message(User, userMessage)] + [] == [Message(User, userMessage)];
  }

  /** Chunks without text are skipped; a stream that yields no text appends nothing and
      writes nothing, and sends only `[DONE]`. */
  lemma ScenarioNoContent(userMessage: string, memoryFails: bool, options: OptionOutcome)
    requires userMessage != ""
    ensures var c := Collaborators(CompletionStream([None, None], Completed), "", memoryFails, options);
      Handle(userMessage, c) ==
        Outcome(EventStream([Done]), [Message(User, userMessage)], [])
  {
    var chunks: seq<Option<string>> := [None, None];
    assert chunks[..1] == [None];
    assert chunks[..1][..0] == [];
    assert Values(chunks) == [];
    var c := Collaborators(CompletionStream(chunks, Completed), "", memoryFails, options);
    assert Generate(userMessage, c).events == ContentEvents([]) + [Done] == [Done];
    assert [Message(User, userMessage)] + [] == [Message(User, userMessage)];
  }
}
