/** The streaming chat handler run step by step: `chat_stream` checks the message and
    appends the user turn, then `generate()` relays the completion stream chunk by chunk,
    accumulating `full_content`, and finalises the turn. Each method is proved to do
    what the reference definition in Pipeline says. */
module StreamHandler {
  import opened Wrappers
  import opened Session
  import opened Events
  import opened Pipeline

  /** The relay loop of `generate()` (app.py:198-212): one `content` event per non-`None`
      chunk, in order, and `full_content` as the concatenation of what was sent. */
  method RelayChunks(chunks: seq<Option<string>>) returns (events: seq<Event>, fullContent: string)
    ensures events == ContentEvents(Values(chunks))
    ensures fullContent == FullContent(chunks)
    ensures fullContent == Concat(Payloads(events))
  {
    events, fullContent := [], "";
    var i := 0;
    while i < |chunks|
      invariant 0 <= i <= |chunks|
      invariant events == ContentEvents(Values(chunks[..i]))
      invariant fullContent == Concat(Values(chunks[..i]))
    {
      assert chunks[..i + 1][..i] == chunks[..i];
      ghost var sent := Values(chunks[..i]);
      if chunks[i].Some? {
        var content := chunks[i].value;
        assert Values(chunks[..i + 1]) == sent + [content];
        assert (sent + [content])[..|sent|] == sent;
        fullContent := fullContent + content;
        events := events + [Content(content)];
      } else {
        assert Values(chunks[..i + 1]) == sent + [] == sent;
      }
      i := i + 1;
    }
    assert chunks[..i] == chunks;
    PayloadsOfContentEvents(Values(chunks));
  }

  /** `generate()` (app.py:194-250). The user turn is already in `history`. */
  method Generate(history: ChatHistory, memory: MemoryStore, message: string, c: Collaborators)
    returns (events: seq<Event>)
    modifies history, memory
    ensures var run := Pipeline.Generate(message, c);
      && events == run.events
      && history.messages == old(history.messages) + run.appended
      && memory.records == old(memory.records) + run.recorded
  {
    ghost var run := Pipeline.Generate(message, c);
    var fullContent;
    events, fullContent := RelayChunks(c.completion.chunks);
    if c.completion.end.Failed? {
      // The exception leaves the loop: one error event, then the sentinel.
      events := events + [Error(c.completion.end.message), Done];
      assert run.appended == [] && run.recorded == [];
      assert history.messages == old(history.messages) + [];
      assert memory.records == old(memory.records) + [];
      return;
    }
    if fullContent == "" {
      assert run == Run(events + [Done], [], []);
      assert history.messages == old(history.messages) + [];
      assert memory.records == old(memory.records) + [];
    } else {
      history.AddMessage(Assistant, fullContent);
      // A failed memory write is reported and otherwise ignored.
      var _ := memory.AddConversation(message, fullContent, CharacterName(c.characterId), c.memoryFails);
      match c.options
      case Generated(options) =>
        if options != [] {
          events := events + [Options(options)];
        }
      case GenerationFailed =>
    }
    events := events + [Done];
  }

  /** `chat_stream` (app.py:176-260): reject an empty message, otherwise append the user
      turn and answer with the events of `generate()`. */
  method ChatStream(history: ChatHistory, memory: MemoryStore, message: string, c: Collaborators)
    returns (response: StreamResponse)
    modifies history, memory
    ensures var out := Handle(message, c);
      && response == out.response
      && history.messages == old(history.messages) + out.appended
      && memory.records == old(memory.records) + out.recorded
  {
    if message == "" {
      return BadRequest(BadRequestStatus, EmptyMessageError);
    }
    history.AddMessage(User, message);
    var events := Generate(history, memory, message, c);
    response := EventStream(events);
  }
}
