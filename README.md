# A verified model of the agent-series demo core

The repository is a set of demo scripts that wrap hosted AI services. This project models, in Dafny, the small pieces of sequential logic inside them, and proves what those pieces promise:

- **Paragraph chunking** (`rag/paragraph_chunking.py`). `paragraph_based_chunking` splits a document on line feeds and keeps the lines whose `strip()` is non-empty. The upsert loop names chunk `i` as `document_1_chunk_{i}`. Module `Chunking` covers this, on top of `Text` (Python whitespace, `strip`, `split`, `join`) and `Decimal` (rendering a number and reading it back).
- **The sales-team agents** (`openai/swarm/multi_agents.py`). Module `MultiAgents` covers three pieces:
  - the five-entry registry behind `transfer_to_agent`;
  - the recency phrase and query that `web_search` builds, with the current date as a parameter;
  - the loop in `chat()` that turns the orchestration library's messages into display messages. It is a method proved against the function `FormatAll`.
- **The realtime voice client** (`openai/realtime-voice.py`). Module `RealtimeVoice` has two classes:
  - `AsyncMicrophone` holds the byte buffer that the audio callback fills and `get_audio_data` drains in 2400-byte frames.
  - `VoiceInterface` holds the `response_active` flag, driven by `handle_event` and `handle_speech_stopped`. The websocket is replaced by a log (`trace`) of every message sent and received.
- **RAG context assembly** (`rag/hierarchical_semantic_search.py`). Module `HierarchicalSearch` covers the `context` string that `generate_response` builds from the metadata of the search matches. It is a loop method proved against the fold `Context`.

`chat()` compares `content.strip() != "None"` case-sensitively, so a message whose content is `"none"` is shown (`MultiAgents.LowerCasePlaceholderShown`).

## Model

| member | source | states |
|---|---|---|
| `Text.StripEmptyIffBlank` | rag/paragraph_chunking.py:17 | `p.strip()` is empty exactly when every character of `p` is whitespace (CPython's `isspace` set) |
| `Text.StripSurrounded` | openai/swarm/multi_agents.py:146 | `strip()` removes exactly the whitespace around a string whose two ends are not whitespace |
| `Text.JoinSplit` | rag/paragraph_chunking.py:17 | joining the pieces of `text.split("\n")` with `"\n"` gives back the text |
| `Text.SplitJoin` | rag/paragraph_chunking.py:17 | splitting the `"\n"`-join of newline-free pieces gives back the pieces |
| `Chunking.KeepNonBlank` | rag/paragraph_chunking.py:17 | the comprehension's filter: never longer than its input, and every line it keeps is non-blank (the order and the exact selection are proved by `KeepNonBlankAt` and `KeepNonBlankLength`) |
| `Chunking.ParagraphChunks` | rag/paragraph_chunking.py:16-18 | every chunk is a whole line of `text.split("\n")`, contains no line feed, and has a non-whitespace character |
| `Chunking.StripFilterIsKeepNonBlank` | rag/paragraph_chunking.py:17 | the comprehension's test `if p.strip()` keeps exactly the lines that are not blank |
| `Chunking.KeptAreLines` | rag/paragraph_chunking.py:17 | every kept chunk is one of the input lines, unchanged (not trimmed) |
| `Chunking.KeepNonBlankLength` | rag/paragraph_chunking.py:17 | the number of chunks is the number of non-blank lines |
| `Chunking.KeepNonBlankAt` | rag/paragraph_chunking.py:17 | the non-blank line at index `i` is the chunk at the position equal to the number of non-blank lines before it: the result is the non-blank subsequence, in order |
| `Chunking.KeepNonBlankConcat` | rag/paragraph_chunking.py:17 | filtering `a + b` is filtering `a`, then `b` |
| `Chunking.KeepNonBlankIdentity` | rag/paragraph_chunking.py:17 | lines that are all non-blank pass through unchanged |
| `Chunking.CountSplitBlank` | rag/paragraph_chunking.py:17 | the split has no non-blank line exactly when the text is blank |
| `Chunking.NoChunksIffBlank` | rag/paragraph_chunking.py:17 | the result is empty if and only if the text is empty or all whitespace |
| `Chunking.SingleLine` | rag/paragraph_chunking.py:17 | a non-blank text without a line feed is its own single chunk |
| `Chunking.Idempotent` | rag/paragraph_chunking.py:17 | rechunking the chunks joined with `"\n"` returns the same chunks |
| `Chunking.ChunkIdInjective` | rag/paragraph_chunking.py:98 | ids `document_1_chunk_{i}` of distinct positions differ |
| `Chunking.ChunkRecords` | rag/paragraph_chunking.py:91-98 | the loop stores one record per chunk, in order, with id `document_1_chunk_{i}` for the 0-based position `i` and the chunk itself as the text metadata |
| `Chunking.ChunkRecordIdsDistinct` | rag/paragraph_chunking.py:91-98 | no two records of one document share an id (0-based positions) |
| `Decimal.ParseRender` | rag/paragraph_chunking.py:98 | the decimal rendering of a number reads back as that number |
| `Decimal.RenderInjective` | rag/paragraph_chunking.py:98 | distinct numbers render differently |
| `Decimal.ParsePadded` | openai/swarm/multi_agents.py:53 | a zero-padded field (`%m`, `%d`) reads back as its number |
| `Decimal.PaddedTwoDigits` | openai/swarm/multi_agents.py:53 | `%m` and `%d` of a valid month and day are exactly two characters |
| `MultiAgents.TransferToAgent` | openai/swarm/multi_agents.py:37-48 | the lookup succeeds exactly for the five registry names, returns the agent whose `name` is the query, and prints the notice only on success; any other name gives `None` and no error |
| `MultiAgents.TransferToEachAgent` | openai/swarm/multi_agents.py:38-44 | each registry name maps to the agent defined under that name (models and tool lists as at 69-122) |
| `MultiAgents.IsoDateRoundTrip` | openai/swarm/multi_agents.py:53 | `strftime('%Y-%m-%d')` of any date a `datetime` can hold (years 1-9999, each month with its own length) reads back as that date |
| `MultiAgents.IsoDateInjective` | openai/swarm/multi_agents.py:53 | distinct valid dates are written differently |
| `MultiAgents.TimePhrase` | openai/swarm/multi_agents.py:52-57 | the `time_phrase` table with the `.get` fallback; its properties are proved by `DatedPhrase`, `YearPhraseTracksYear`, `DatedPhraseDistinguishesDates`, `UnknownKeysShareFallback` and the three distinctness lemmas |
| `MultiAgents.WebSearch` | openai/swarm/multi_agents.py:50-65 | the query sent is `query + " " + phrase`; `search_depth` is `"advanced"`; `time_range` is the raw `time_period`, which defaults to `"day"` |
| `MultiAgents.DatedPhrase` | openai/swarm/multi_agents.py:52-57 | every key but `year`, unknown keys included, ends its phrase with `(current date: YYYY-MM-DD)` |
| `MultiAgents.DatedLength` | openai/swarm/multi_agents.py:52-57 | a phrase for a key other than `year` is as long as its opening words plus `(current date: `, the date and `)` |
| `MultiAgents.YearPhraseTracksYear` | openai/swarm/multi_agents.py:51-56 | two dates give the same `year` phrase if and only if their years agree: the phrase carries the current year and ignores month and day |
| `MultiAgents.DatedPhraseDistinguishesDates` | openai/swarm/multi_agents.py:52-57 | for the keys other than `year`, two different dates give different phrases |
| `MultiAgents.UnknownKeysShareFallback` | openai/swarm/multi_agents.py:57 | every key outside `day`/`week`/`month`/`year` gets the same "recently" phrase |
| `MultiAgents.PhrasesDistinct` | openai/swarm/multi_agents.py:53-55 | for one date, the `day`, `week` and `month` phrases are pairwise distinct |
| `MultiAgents.YearPhraseDistinct` | openai/swarm/multi_agents.py:52-57 | the `year` phrase differs from the phrase of every other key, unknown keys included |
| `MultiAgents.FallbackDistinct` | openai/swarm/multi_agents.py:52-57 | the fallback phrase of an unknown key differs from the `day`, `week` and `month` phrases |
| `MultiAgents.FormatMessage` | openai/swarm/multi_agents.py:143-156 | the loop body for one message; its branches are stated by `FormatMessageCases`, `PlaceholderSuppressed` and `LowerCasePlaceholderShown` |
| `MultiAgents.FormatMessages` | openai/swarm/multi_agents.py:141-156 | the loop returns exactly `FormatAll` of the messages: the appended entries, or the first `KeyError` |
| `MultiAgents.FormatConcat` | openai/swarm/multi_agents.py:141-156 | formatting `a + b` is formatting `a`, then `b`: the output follows input order |
| `MultiAgents.FormatFailureSticks` | openai/swarm/multi_agents.py:142-156 | once a message raises `KeyError`, the later messages do not change the outcome |
| `MultiAgents.FormatSingle` | openai/swarm/multi_agents.py:142-156 | the loop over one message is the loop body for it |
| `MultiAgents.FormatMessageCases` | openai/swarm/multi_agents.py:143-156 | a message fails exactly when it lacks the key its branch reads; `tool` messages show nothing; a `function` message shows exactly one system note ("Web search performed" for `web_search`, "Function '<name>' called" otherwise); any other message shows once, with its unstripped content, exactly when the content is non-empty and does not strip to `"None"`; an assistant without a `name` key is named `"Assistant"` |
| `MultiAgents.PlaceholderSuppressed` | openai/swarm/multi_agents.py:146 | assistant and other plain messages whose content is `"None"` surrounded by any whitespace are suppressed |
| `MultiAgents.LowerCasePlaceholderShown` | openai/swarm/multi_agents.py:146 | the comparison is case-sensitive: `"none"` is shown |
| `MultiAgents.FormatSucceedsIff` | openai/swarm/multi_agents.py:143-156 | the loop finishes if and only if every message has the keys its branch reads |
| `MultiAgents.FormatNoLonger` | openai/swarm/multi_agents.py:141-156 | the output is never longer than the input |
| `RealtimeVoice.AsyncMicrophone.constructor` | openai/realtime-voice.py:24-28 | the buffer starts empty, not recording, with no stream |
| `RealtimeVoice.AsyncMicrophone.Callback` | openai/realtime-voice.py:30-33 | appends `in_data` to the buffer if and only if recording; nothing else changes |
| `RealtimeVoice.AsyncMicrophone.StartRecording` | openai/realtime-voice.py:35-40 | sets `is_recording` and opens a stream only when none is open |
| `RealtimeVoice.AsyncMicrophone.StopRecording` | openai/realtime-voice.py:42-43 | clears `is_recording` and touches nothing else |
| `RealtimeVoice.AsyncMicrophone.GetAudioData` | openai/realtime-voice.py:45-49 | with at least 2400 bytes buffered, returns exactly 2400; the old buffer is the frame followed by the new buffer; delivered bytes stay a prefix of accepted bytes (first in, first out) |
| `RealtimeVoice.AnsweredWhenNotPending` | openai/realtime-voice.py:113-125 | with no response pending, every earlier `response.create` was followed by a `response.done` |
| `RealtimeVoice.NoDoubleCreateExtend` | openai/realtime-voice.py:122-125 | sending `response.create` only when none is pending keeps "no two `response.create` without a `response.done` between them" |
| `RealtimeVoice.PendingExtend` | openai/realtime-voice.py:113-125 | a `response.create` makes a response pending, a `response.done` ends it, other traffic leaves it as it was |
| `RealtimeVoice.VoiceInterface.constructor` | openai/realtime-voice.py:71-75 | a fresh microphone, no traffic, `response_active` false |
| `RealtimeVoice.VoiceInterface.InitializeSession` | openai/realtime-voice.py:81-91 | sends `session.update` and keeps the response protocol |
| `RealtimeVoice.VoiceInterface.SendInitialGreetingAsWritten` | openai/realtime-voice.py:93-98 | sends the greeting item and `response.create`, and leaves `response_active` as it was |
| `RealtimeVoice.VoiceInterface.SendInitialGreeting` | openai/realtime-voice.py:93-98 | corrected greeting: same messages, raises `response_active`, keeps the response protocol |
| `RealtimeVoice.VoiceInterface.Send` | openai/realtime-voice.py:122 | `websocket.send` of one client event: appends it to the trace; a response is pending afterwards exactly when it is a `response.create` or one was pending; a `response.create` sent with none pending keeps the protocol |
| `RealtimeVoice.VoiceInterface.SendAudioFrame` | openai/realtime-voice.py:100-105 | one round of `process_audio`: the next 2400-byte frame leaves the buffer and is sent as `input_audio_buffer.append` |
| `RealtimeVoice.VoiceInterface.HandleEvent` | openai/realtime-voice.py:107-118 | `response.done` clears the flag; audio deltas go to the player; text deltas, errors and unknown types change nothing else; speech-stopped runs `HandleSpeechStopped`; the protocol is kept |
| `RealtimeVoice.VoiceInterface.HandleSpeechStopped` | openai/realtime-voice.py:120-125 | with an empty buffer, sends nothing and keeps the flag; otherwise always commits, and sends `response.create` and raises the flag only when the flag was down; the protocol is kept |
| `RealtimeVoice.GreetingThenSpeechAsWritten` | openai/realtime-voice.py:93-125 | as written, the greeting followed by the user's first speech sends two `response.create` with no `response.done` between them |
| `RealtimeVoice.GreetingThenSpeech` | openai/realtime-voice.py:93-125 | with the corrected greeting, speech that stops while the greeting's response is under way is committed without a `response.create`; the next `response.create` is sent at the first speech stop after `response.done`; the whole trace is given and has no two creates without a done between them |
| `HierarchicalSearch.Block` | rag/hierarchical_semantic_search.py:58-64 | the text one match adds to `context`; its shape is stated by `BlockShape` and `MissingSubsectionOmitted` |
| `HierarchicalSearch.BuildContext` | rag/hierarchical_semantic_search.py:56-64 | the loop's `context` is exactly the fold `Context` of the matches |
| `HierarchicalSearch.ContextConcat` | rag/hierarchical_semantic_search.py:56-64 | the fold is a homomorphism: `Context(a + b) == Context(a) + Context(b)` |
| `HierarchicalSearch.ContextEmpty` | rag/hierarchical_semantic_search.py:56 | no matches give the empty context |
| `HierarchicalSearch.ContextInOrder` | rag/hierarchical_semantic_search.py:56-64 | each match contributes its block, in match order |
| `HierarchicalSearch.BlockShape` | rag/hierarchical_semantic_search.py:58-64 | a block opens with `\nSection: ` and the section (`General` when missing) and closes with `\nContent: <text>\n`; a subsection line follows the section line if and only if the subsection is non-empty |
| `HierarchicalSearch.MissingSubsectionOmitted` | rag/hierarchical_semantic_search.py:59-63 | a missing subsection renders like an empty one: the line is left out |

## Left out

- Provider calls are not modelled: OpenAI embeddings and chat completion, the Pinecone upsert and query, the Tavily search and the Swarm `client.run` are foreign network services. Their outputs enter the model as inputs: the match metadata, the provider messages and the search request that is sent.
- Flask routing, `request.json`, `jsonify` and `render_template` are web I/O.
- The voice client's asyncio and device I/O are not modelled: the endless `process_audio` and `recv` loops, their polling sleeps, task cancellation, pyaudio streams, `AudioPlayer`, `AsyncMicrophone.close`, and base64/JSON encoding. The callback runs on an audio thread in the source; here each buffer operation is one atomic step.
- `AsyncMicrophone.GetAudioData` waits until 2400 bytes have arrived; here that wait is its precondition.
- `AsyncMicrophone.Callback` ignores `frame_count`, `time_info` and `status` and returns `(None, paContinue)`, so the model takes only the data.
- `datetime.now()` is evaluated once at import; here the date is the parameter `today`.
- `strftime('%Y')` is rendered without padding, as the C library on Linux does. The two agree for the years 1000-9999.
- The agents' instruction texts are prompts and are not modelled. `Agent` keeps the name, model and tool list.
- Printing and logging are not modelled: the text deltas, error messages and search banners. The one exception is the transfer notice, which comes back as data so that "printed only on success" can be stated.
- `chat()` could also fail on a missing `role` key or on content that is not a string. These cases are not modelled: every message has a role, and content is a string or `None`.
- Only string metadata is modelled: `Match` holds `Section` and `Subsection` as strings, while Pinecone metadata may also be numbers, booleans or lists of strings, which the source formats with `f"{section}"` and tests with `if subsection:`.
- `generate_response` reads `match.metadata['text']`, which would raise on a match without text. Here every match has a text.
- `semantic_search` only prints matches. It is not modelled.
- `handle_event` raises on an event without a `type` and can fail in base64 decoding. These cases are not modelled.
- `openai/swarm/main.py` resolves agents through `globals()`, which fails on the display names. It has no stable contract and is not modelled.
- The `langchain/` memory demos and the database agent wrap LangChain and SQLAlchemy internals that are not in the repository. `config.py` only reads the environment.
- Agent switching and tool dispatch happen inside Swarm's `client.run` (openai/swarm/multi_agents.py:136), which is not modelled. `web_search` returns the provider's result unchanged (65).

## Findings

| source | as written | input that shows it | evidently intended | confidence | as-written member | corrected member |
|---|---|---|---|---|---|---|
| openai/realtime-voice.py:98 | `send_initial_greeting` sends `response.create` but leaves `response_active` false | the session starts and the greeting's response is under way; the user speaks, and speech stops before `response.done` arrives; `handle_speech_stopped` sees the flag down and sends a second `response.create` (`RealtimeVoice.GreetingThenSpeechAsWritten`) | the greeting's `response.create` raises `response_active`, so speech that stops during the greeting's response is only committed, and the next `response.create` is sent at the first speech stop after `response.done` (`RealtimeVoice.GreetingThenSpeech`) | medium; not executed | `RealtimeVoice.VoiceInterface.SendInitialGreetingAsWritten` | `RealtimeVoice.VoiceInterface.SendInitialGreeting` |
