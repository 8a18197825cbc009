/** The mutable collaborators of the chat handlers: the conversation history kept by
    the chat service and the long-term memory store. Their internals are not part of
    this model; only the appends the handlers ask of them are. */
module Session {

  datatype Role = User | Assistant | System

  /** One entry of the conversation history, as `add_message(role, content)` records it. */
  datatype Message = Message(role: Role, content: string)

  /** One exchange written to the memory store by `add_conversation`. */
  datatype MemoryRecord = MemoryRecord(userMessage: string, assistantMessage: string, characterName: string)

  /** The chat service's history, which the handlers extend in place. */
  class ChatHistory {
    var messages: seq<Message>

    constructor (initial: seq<Message>)
      ensures messages == initial
    {
      messages := initial;
    }

    /** `chat_service.add_message(role, content)`: appends one entry and nothing else. */
    method AddMessage(role: Role, content: string)
      modifies this
      ensures messages == old(messages) + [Message(role, content)]
    {
      messages := messages + [Message(role, content)];
    }
  }

  /** The memory service's store of completed exchanges. */
  class MemoryStore {
    var records: seq<MemoryRecord>

    constructor (initial: seq<MemoryRecord>)
      ensures records == initial
    {
      records := initial;
    }

    /** `memory_service.add_conversation(...)`. Whether the write fails is decided by the
        store's backend, which is outside this model, so it comes in as `fails`; a failed
        write raises (`raised`) and leaves the store as it was. */
    method AddConversation(userMessage: string, assistantMessage: string, characterName: string, fails: bool)
      returns (raised: bool)
      modifies this
      ensures raised == fails
      ensures records == if fails then old(records)
                         else old(records) + [MemoryRecord(userMessage, assistantMessage, characterName)]
    {
      raised := fails;
      if !fails {
        records := records + [MemoryRecord(userMessage, assistantMessage, characterName)];
      }
    }
  }
}
