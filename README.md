# Streaming chat handler of CABM, modelled in Dafny

This project models the core of `app.py`, the Flask front end of a character-chat
application: the streaming chat endpoint `/api/chat/stream`.

The endpoint first rejects an empty user message with a 400 error. Otherwise it appends
the user turn to the chat history and answers with a server-sent event stream built by
the generator `generate()`:

- one `content` event for each non-`None` chunk of the completion stream, accumulating
  `full_content`;
- when the stream ends normally with non-empty content:
  - append the assistant turn;
  - try to write the exchange to the memory store;
  - try to generate follow-up options;
  - send one `options` event if that list is non-empty;
- finally the `[DONE]` sentinel. An exception in any of this instead ends the stream
  with one `error` event followed by `[DONE]`.

Two smaller pieces of the same file are modelled too: the image listing of
`/api/characters/<id>/images` (keep the `N.png` entries, sort them by `N`) and the
extraction of the assistant reply from a non-streaming completion response.

The collaborators are abstract inputs:
- the completion stream is a sequence of optional chunks plus how it ends (normally, or
  with an exception message);
- the memory write gets a flag saying whether it fails;
- option generation returns a list or fails;
- the configured character id is a string.

The history and the memory store are classes whose methods append in place.

Modules (one file each):

- `Wrappers` (`wrappers.dfy`): `Option`, and `Values`, which keeps the values of the `Some` elements in order. It filters both the chunk stream and the directory listing.
- `Session` (`session.dfy`): `Message`, `MemoryRecord`, and the classes `ChatHistory` and `MemoryStore`.
- `Events` (`events.dfy`): the tagged events (`Content`, `Options`, `Error`, `Done`), counting by kind, and the payloads of `content` events.
- `Pipeline` (`pipeline.dfy`): the reference definition of one request, `Handle` and `Generate`, as functions of the message and the collaborators.
- `PipelineProperties` (`pipeline_properties.dfy`): the ordering and exactly-once rules, proved about `Pipeline`.
- `StreamHandler` (`stream_handler.dfy`): `ChatStream`, `Generate` and the relay loop `RelayChunks` as imperative methods. Each is proved to produce the reference result exactly: events, new history, new memory records.
- `ImageListing` (`image_listing.dfy`): the filename filter, the `int()` parse, the stable sort by number and the `ListImages` loop.
- `ReplyExtraction` (`reply_extraction.dfy`): `ExtractReply` over decoded JSON.

## Model

| member | source | states |
|---|---|---|
| `Session.ChatHistory.AddMessage` | app.py:191 | appending a turn adds exactly one `(role, content)` entry at the end and changes nothing else |
| `Session.MemoryStore.AddConversation` | app.py:219-224 | a successful write appends exactly one record pairing the user message, the assistant reply and the character name; a failing one raises and leaves the store unchanged |
| `StreamHandler.RelayChunks` | app.py:198-212 | the loop sends one `content` event per non-`None` chunk, in order, and `full_content` is the concatenation of the payloads it sent |
| `StreamHandler.Generate` | app.py:194-250 | the generator's events, the history entries it appends and the memory records it writes are exactly those of the reference run `Pipeline.Generate` |
| `StreamHandler.ChatStream` | app.py:176-191 | the handler's response and its effect on history and memory are exactly those of the reference `Pipeline.Handle`: an empty message gives a 400 error, otherwise the user turn and then the generator run |
| `PipelineProperties.EmptyMessageRejected` | app.py:182-188 | an empty message is answered with status 400 and the "message must not be empty" error; it gets no event stream, appends nothing and records nothing |
| `PipelineProperties.UserTurnKept` | app.py:190-191 | a non-empty message is appended as exactly one user turn, before anything the generator appends, and it stays when the stream later fails; the response is then an event stream ending in exactly one `[DONE]` |
| `PipelineProperties.ContentFollowsChunks` | app.py:201-212 | `content` events come first, one per non-`None` chunk, in stream order, each carrying its chunk; no `content` event follows another kind; their payloads concatenate to `full_content` |
| `PipelineProperties.AssistantTurnOnlyOnCompletion` | app.py:214-216 | the assistant turn is appended at most once, and exactly when the stream ends without an exception and the sent content is non-empty; it holds the concatenation of the sent payloads |
| `PipelineProperties.MemoryRecordedOnlyForCompletedTurn` | app.py:215-224 | a memory record is written only for a turn whose assistant reply was appended, and then exactly when the write does not fail; it pairs the user message with that reply under `current_character_id or "default"` |
| `PipelineProperties.MemoryFailureIsolated` | app.py:218-226 | a failing memory write changes neither the events (content already sent, options, `[DONE]`) nor the history; only the record is missing |
| `PipelineProperties.OptionsEventPlacement` | app.py:228-242 | at most one `options` event; there is one exactly when a normally ended, non-empty turn got a non-empty list; it carries that list, comes after every `content` event and immediately before `[DONE]` |
| `PipelineProperties.OptionFailureEmitsNothing` | app.py:229-242 | a failing option generation sends no `options` event and otherwise behaves like an empty list |
| `PipelineProperties.DoneExactlyOnceAndLast` | app.py:244-250 | every run of the generator ends with `[DONE]` and sends it exactly once, on both the normal and the exception path |
| `PipelineProperties.ErrorOnlyOnStreamFailure` | app.py:246-250 | exactly one `error` event when the stream raises, none otherwise; it carries the exception message and comes immediately before `[DONE]`; the failed turn adds no assistant entry, no memory record and no options |
| `PipelineProperties.ScenarioCompletedTurn` | app.py:194-244 | "hello" with chunks "He", "llo!" and options ["How are you?"] gives the events content "He", content "llo!", options, `[DONE]`; history gains user "hello" and assistant "Hello!"; one memory record |
| `PipelineProperties.ScenarioStreamFails` | app.py:201-250 | a stream that raises after "Par" gives content "Par", error, `[DONE]`, keeps only the user turn and records nothing |
| `PipelineProperties.ScenarioNoContent` | app.py:207-216 | a stream of `None` chunks sends only `[DONE]`, appends no assistant turn and records nothing |
| `ImageListing.PngNameCaseInsensitive` | app.py:431 | a name passes the `.png` test exactly when it ends in a dot followed by p, n, g in any letter case |
| `ImageListing.LastIndexOf` | app.py:433 | the result is the position of the last occurrence of the character, or `None` when it does not occur |
| `ImageListing.ParseDecimal` | app.py:435 | `int()` inverts the decimal rendering of every integer, with an optional `+` or `-` sign |
| `ImageListing.EntryKept` | app.py:430-443 | an entry is kept exactly when its name passes the `.png` test and the name without its last four characters parses as an integer; it is then listed with that number, its name and the URL `/{image_dir}/{filename}` |
| `ImageListing.NumberedPngKept` | app.py:430-440 | every entry named `N.png`, with `N` a natural number in decimal, is listed with number `N` |
| `ImageListing.CollectMembers` | app.py:429-443 | the unsorted list holds exactly the entries the loop keeps |
| `ImageListing.CollectAppend` | app.py:429-443 | filtering a listing split in two gives the filtered first part followed by the filtered second part |
| `ImageListing.CollectKeepsOrder` | app.py:430-440 | kept entries stay in directory order: the entry of an earlier name comes before the entry of a later one |
| `ImageListing.SortByNumberSorted` | app.py:446 | the sorted list is in ascending order of number |
| `ImageListing.SortByNumberPermutes` | app.py:446 | sorting is a permutation: it loses no entry and adds none |
| `ImageListing.SortByNumberMembers` | app.py:446 | the sorted list holds exactly the entries of the unsorted one |
| `ImageListing.SortByNumberStable` | app.py:446 | sorting is stable: for every number, the entries with that number keep their input order |
| `ImageListing.SortedStableUnique` | app.py:446 | two lists sorted by number that keep the same order among equal numbers are equal |
| `ImageListing.SortByNumberIsTheStableSort` | app.py:446 | any sorted, stable rearrangement of the list (what Python's `list.sort` produces) equals the modelled sort |
| `ImageListing.ListImages` | app.py:429-451 | the images are the kept entries sorted stably by number: ascending, a permutation of the kept entries, ties in input order. An image is listed exactly when some directory entry yields it; each URL is `/{image_dir}/{filename}`; the default image is `/{image_dir}/1.png` |
| `ReplyExtraction.ExtractReply` | app.py:152-156 | the reply is found exactly when the first choice is an object whose `message` is an object with a `content` field, and then it is that field's value. With no `choices` or an empty list it is `None`. On a response of the expected shape the lookup never raises |

## Left out

- Flask routing, request JSON parsing, response headers and the `Response` object. The request's `message` is taken as a string, with "" for a missing field. Non-string values that `not message` would also reject are not modelled.
- The `data: ...\n\n` framing and `json.dumps` of each event: events are tagged values.
- Lazy consumption of the generator by the web server and client disconnects. The model runs `generate()` to completion, right after the user turn is appended.
- The internals of the chat, memory, option and configuration services. Memory retrieval happens inside `chat_completion` and only shows up through the chunks it yields. Whether a memory write or option generation fails is an input.
- Exceptions raised by `add_message` itself, or thrown between the relay loop and the memory write: the model assumes the history append always succeeds. An exception from the completion stream, including one raised as the stream is opened, is modelled; it is a failure after zero chunks.
- The `print` logging of swallowed errors.
- `ImageListing.LowerAscii`: `str.lower()` is modelled on ASCII letters only. Unicode case mapping, which can change a string's length, is not modelled.
- `ImageListing.ParseInt`: `int()` is modelled on an optional sign followed by ASCII digits only. Surrounding whitespace, `_` separators and non-ASCII digits, which Python also accepts, are not.
- `ImageListing.SplitextRoot`: `os.path.splitext` is modelled for names without directory separators, which is all `os.listdir` returns.
- The character lookup, the missing image-directory checks and `os.listdir` in `get_character_images` (app.py:398-427). The directory listing is an input sequence of names.
- `ReplyExtraction.ExtractReply`: JSON numbers are integers only. The rest of `chat` (its guard, history append and response building) is not part of this model.
- Audio, speech, background rendering, character switching, history clearing and process exit are framework or foreign-library code outside this model.
- The memory write and option generation are not modelled as concurrent tasks: the code runs them one after the other, and so does the model.
