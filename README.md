# Text-to-speech conversion pipeline (polly)

A Dafny model of the conversion core of a small web app that turns text into
one playable mp3 file with a cloud text-to-speech service and keeps a history of
past inputs. The model covers:

- the chunk splitter `chunkText`: cut a text into consecutive slices of at most
  `chunkSize` characters (1000 by default), as a reference function `Chunks`
  and as the source's counting loop `ChunkText`;
- the placeholder summariser `summarizeText`: the first 1000 characters;
- the history store: an in-memory list of past texts mirrored in durable
  storage, with append (`saveTextToHistory`) and delete-by-position
  (`deleteTextFromHistory`), as the class `HistoryStore` with fields `entries`
  and `persisted`;
- the orchestrator `convertTextToSpeech`: summarise a text longer than 2000
  characters, chunk it, synthesise the chunks in order, stop at the first
  failure, otherwise join the audio in chunk order into one `audio/mp3` blob
  and append the original (not the summarised) text to history. It is the
  method `App.ConvertTextToSpeech`.

The speech service is a parameter: any total function from a request (SSML
text `<speak>chunk</speak>`, output format, voice, text type) to
`Success(audio bytes)` or `Failure(reason)`. Every property is proved for all
such functions. The method returns the list of requests it sent, so "no later
chunk is requested after a failure" is part of its contract. The text being
converted and the selected voice are parameters of the method. In the app
they are component state.

Behaviour of the code worth noting:

- Deleting at a position that names no entry is a silent no-op. The code
  filters by position, so nothing matches. It does not report an out-of-range
  error.
- A history mutation writes durable storage before it replaces the in-memory
  list, and nothing catches a failing write (for example, over quota). A
  rejected write therefore leaves both views as they were. The model makes the
  storage's answer a parameter, `storageAccepts`. In a conversion the write
  comes after the new audio is set, so a rejected write leaves new audio and
  an unchanged history, and the conversion ends with that error.
- The summary is 1000 characters long, so an over-long text always makes
  exactly one chunk. No conversion can have three chunks: at most two
  (`AtMostTwoChunks`).
- The empty text is not rejected. It yields no chunk and no synthesis call.
  It produces an empty mp3 blob and appends `""` to the history.
- A failed conversion leaves the previous audio in place. The code returns
  before setting audio; it does not clear it.
- The code does not check the summariser's output length. It does not need
  to: the summary is always at most 1000 characters.

## Model

| member | source | states |
|---|---|---|
| TextChunks.ChunkText | src/App.js:59-65 | the counting loop returns exactly the reference split `Chunks(text, chunkSize)`, with chunkSize defaulting to 1000 |
| TextChunks.ChunksConcat | src/App.js:59-65 | joining the chunks in order gives back exactly the text: no character lost or duplicated |
| TextChunks.ChunkSizes | src/App.js:61-62 | every chunk is non-empty and at most chunkSize long; every chunk but the last is exactly chunkSize long |
| TextChunks.ChunkCount | src/App.js:61 | the number of chunks is ceil(L / chunkSize) for a text of length L, so the empty text gives none |
| TextChunks.ChunkAt | src/App.js:61-62 | chunk k is the slice of the text from offset k * chunkSize to (k + 1) * chunkSize, clipped at the end |
| Summary.SummarizeText | src/App.js:54-56 | the summary is a prefix of the input of length min(length, 1000) |
| TextHistory.WithoutInRange | src/App.js:47-48 | filtering out a valid position removes exactly that entry, later entries shift down and the length drops by one |
| TextHistory.WithoutOutOfRange | src/App.js:47-48 | filtering out a negative or too-large position returns the list unchanged |
| TextHistory.HistoryStore.Load | src/App.js:33-37 | after start-up both views hold the saved list, or the empty list when nothing was saved |
| TextHistory.HistoryStore.SaveTextToHistory | src/App.js:39-44 | when storage takes the write, the new list is the old list followed by the text and the durable copy equals the in-memory list; when it rejects the write, both views are unchanged |
| TextHistory.HistoryStore.DeleteTextFromHistory | src/App.js:46-51 | when storage takes the write, a valid position is removed with later entries shifted down, any other position leaves the list (and a consistent durable copy) unchanged, and both views agree; when it rejects the write, both views are unchanged |
| Speech.RequestFor | src/App.js:80-85 | the request text is `<speak>`, then the chunk unchanged, then `</speak>`; the request asks for mp3 output of SSML text in the selected voice |
| Conversion.Synthesize | src/App.js:78-93 | a failure names a chunk that exists; a success has one audio part per chunk |
| Conversion.SynthesizedIffAllSucceed | src/App.js:78-93 | synthesis succeeds exactly when every chunk's call succeeds, and part j is the audio of chunk j |
| Conversion.FailedAtFirstFailure | src/App.js:88-92 | a failure reports the first failing chunk: its call failed with that reason and every earlier call succeeded |
| Conversion.FailureIsFinal | src/App.js:88-92 | once a prefix of the chunks has failed, the later chunks do not change the outcome |
| Conversion.OverLengthIsOneChunk | src/App.js:71-75 | a text over 2000 characters is synthesised as the single chunk of its first 1000 characters |
| Conversion.AtMostTwoChunks | src/App.js:71-75 | every conversion synthesises at most two chunks |
| Conversion.EmptyTextNoChunks | src/App.js:61 | the empty text makes no chunk, hence no synthesis call |
| Seqs.ConcatLength | src/App.js:95 | the joined audio is as long as all chunk audio together |
| Seqs.PieceAt | src/App.js:95 | the audio of chunk j sits in the blob right after the audio of the chunks before it |
| Conversion.App.constructor | src/App.js:26-37 | a fresh app has no audio and a history loaded from the saved list |
| Conversion.App.ConvertTextToSpeech | src/App.js:68-100 | on success it requested every chunk once in order, the audio is the in-order join of the chunk audio as `audio/mp3`, and the history gains the original text with both views in agreement, unless storage rejects the write, in which case the audio is still set and both history views are unchanged; on the first failure it requested exactly the chunks up to the failing one, the audio and both history views are unchanged |

## Left out

- The cloud client's configuration and the network call itself. The service is
  a parameter returning success or failure, and it is deterministic per request.
  Retries do not exist in the code, so none are modelled.
- Serialising the history to JSON and reading it back from browser storage. The
  durable medium is the field `persisted`, and the start-up read is the
  constructor's `saved` argument.
- `async`/`await`. The code awaits each call in turn, so the model is a
  sequential loop. React may hand a running conversion a stale copy of the
  history list, so a delete during a conversion could be undone. The model does
  not capture that interleaving.
- Toast notifications, console logging, the voice selector, the playback-speed
  slider, the history list rendering and the audio player component. These are
  presentation only.
- String length is counted in characters (`seq<char>`). The code counts UTF-16
  code units, which differ for characters outside the Basic Multilingual Plane.
- TextChunks.ChunkText: requires a positive chunk size. With zero or a negative
  size the source loop never ends on a non-empty text (on the empty text it
  returns no chunk); the app always uses 1000.
- TextHistory.HistoryStore.DeleteTextFromHistory: the position is an integer.
  A fractional position also filters nothing in the code; that case is not
  modelled.
