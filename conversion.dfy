/**
 The conversion orchestrator: summarise an over-long text, split it into chunks,
 synthesise the chunks one after another, stop at the first failure, and on
 success join the audio in chunk order and record the original text in history.
 */
module Conversion {
  import opened Seqs
  import opened TextChunks
  import opened Summary
  import opened TextHistory
  import opened Speech

  /** Texts longer than this are summarised before synthesis. */
  const OverLengthThreshold: nat := 2000

  /** The single audio asset produced by a successful conversion. */
  datatype AudioBlob = AudioBlob(data: seq<byte>, contentType: string)

  /** The outcome of synthesising a list of chunks in order. */
  datatype Synthesis = Synthesized(parts: seq<seq<byte>>) | FailedAt(index: nat, error: string)

  /** The text that is actually synthesised: the summary when the input is over-long, else the input. */
  function TextToConvert(text: string): string
  {
    if |text| > OverLengthThreshold then SummarizeText(text) else text
  }

  /** The chunks synthesised for `text`. */
  function ChunksFor(text: string): seq<string>
  {
    Chunks(TextToConvert(text), DefaultChunkSize)
  }

  /**
   Sequential synthesis with early exit, defined on growing prefixes: once a chunk
   fails, the outcome of the prefix is final; otherwise the next chunk's audio is
   appended.
   */
  function Synthesize(chunks: seq<string>, voiceId: string, synthesize: Synthesizer): (r: Synthesis)
    ensures r.FailedAt? ==> r.index < |chunks|
    ensures r.Synthesized? ==> |r.parts| == |chunks|
    decreases |chunks|
  {
    if chunks == [] then Synthesized([])
    else
      var last := |chunks| - 1;
      match Synthesize(chunks[..last], voiceId, synthesize)
      case FailedAt(k, e) => FailedAt(k, e)
      case Synthesized(parts) =>
        match synthesize(RequestFor(chunks[last], voiceId))
        case Success(audio) => Synthesized(parts + [audio])
        case Failure(e) => FailedAt(last, e)
  }

  /** All chunks succeed exactly when synthesis succeeds, and then part j is chunk j's audio. */
  lemma {:induction false} SynthesizedIffAllSucceed(chunks: seq<string>, voiceId: string, synthesize: Synthesizer)
    ensures Synthesize(chunks, voiceId, synthesize).Synthesized? <==>
      forall j | 0 <= j < |chunks| :: synthesize(RequestFor(chunks[j], voiceId)).Success?
    ensures Synthesize(chunks, voiceId, synthesize).Synthesized? ==>
      var parts := Synthesize(chunks, voiceId, synthesize).parts;
      |parts| == |chunks| &&
      forall j | 0 <= j < |chunks| :: synthesize(RequestFor(chunks[j], voiceId)) == Success(parts[j])
    decreases |chunks|
  {
    if chunks != [] {
      var last := |chunks| - 1;
      var prefix := chunks[..last];
      SynthesizedIffAllSucceed(prefix, voiceId, synthesize);
      assert forall j | 0 <= j < last :: prefix[j] == chunks[j];
    }
  }

  /** A failure reports the first failing chunk: every earlier chunk succeeded. */
  lemma {:induction false} FailedAtFirstFailure(chunks: seq<string>, voiceId: string, synthesize: Synthesizer)
    requires Synthesize(chunks, voiceId, synthesize).FailedAt?
    ensures var f := Synthesize(chunks, voiceId, synthesize);
      f.index < |chunks| &&
      synthesize(RequestFor(chunks[f.index], voiceId)) == Failure(f.error) &&
      forall j | 0 <= j < f.index :: synthesize(RequestFor(chunks[j], voiceId)).Success?
    decreases |chunks|
  {
    var last := |chunks| - 1;
    var prefix := chunks[..last];
    assert forall j | 0 <= j < last :: prefix[j] == chunks[j];
    if Synthesize(prefix, voiceId, synthesize).FailedAt? {
      FailedAtFirstFailure(prefix, voiceId, synthesize);
    } else {
      SynthesizedIffAllSucceed(prefix, voiceId, synthesize);
    }
  }

  /** Once a prefix has failed, no later chunk changes the outcome (later chunks are never asked for). */
  lemma {:induction false} FailureIsFinal(chunks: seq<string>, m: nat, voiceId: string, synthesize: Synthesizer)
    requires m <= |chunks|
    requires Synthesize(chunks[..m], voiceId, synthesize).FailedAt?
    ensures Synthesize(chunks, voiceId, synthesize) == Synthesize(chunks[..m], voiceId, synthesize)
    decreases |chunks| - m
  {
    if m < |chunks| {
      var longer := chunks[..m + 1];
      assert longer[..m] == chunks[..m];
      FailureIsFinal(chunks, m + 1, voiceId, synthesize);
    } else {
      assert chunks[..m] == chunks;
    }
  }

  /** An over-long text is cut to its first 1000 characters, which make exactly one chunk. */
  lemma OverLengthIsOneChunk(text: string)
    requires |text| > OverLengthThreshold
    ensures ChunksFor(text) == [text[..SummaryLength]]
  {
  }

  /** Every conversion makes at most two synthesis calls. */
  lemma AtMostTwoChunks(text: string)
    ensures |ChunksFor(text)| <= 2
  {
    if |text| <= OverLengthThreshold {
      ChunkCount(text, DefaultChunkSize);
    }
  }

  /** The empty text yields no chunk, so it converts without any synthesis call. */
  lemma EmptyTextNoChunks()
    ensures ChunksFor("") == []
  {
  }

  class App {
    /** The current playable asset, if any. */
    var audioFile: Option<AudioBlob>
    /** The history of converted texts. */
    const history: HistoryStore

    constructor(saved: Option<seq<string>>)
      ensures audioFile == None
      ensures fresh(history) && history.Valid()
      ensures history.entries == if saved.Some? then saved.value else []
    {
      audioFile := None;
      history := new HistoryStore.Load(saved);
    }

    /**
     Converts `text` with the voice `voiceId`. Returns the requests sent to the
     synthesiser, in order, and whether the history was saved. On success the
     audio is the chunk audio joined in chunk order and the original text is
     appended to the history, unless the durable medium rejects the write
     (`storageAccepts` false): then the new audio stays set, the history is
     unchanged and the conversion ends with that error. On the first synthesis
     failure nothing later is requested, the audio is left as it was and the
     history is untouched.
     */
    method ConvertTextToSpeech(text: string, voiceId: string, synthesize: Synthesizer, storageAccepts: bool)
      returns (requests: seq<SpeechRequest>, historySaved: bool)
      modifies this, history
      ensures var chunks := ChunksFor(text);
        match Synthesize(chunks, voiceId, synthesize)
        case Synthesized(parts) =>
          && requests == Requests(chunks, voiceId)
          && audioFile == Some(AudioBlob(Concat(parts), "audio/mp3"))
          && historySaved == storageAccepts
          && (historySaved ==> history.Valid() && history.entries == old(history.entries) + [text])
          && (!historySaved ==> history.entries == old(history.entries) && history.persisted == old(history.persisted))
        case FailedAt(k, _) =>
          && !historySaved
          && requests == Requests(chunks[..k + 1], voiceId)
          && audioFile == old(audioFile)
          && history.entries == old(history.entries)
          && history.persisted == old(history.persisted)
    {
      var textToConvert := text;
      if |text| > OverLengthThreshold {
        textToConvert := SummarizeText(text);
      }
      var textChunks := ChunkText(textToConvert);
      var audioChunks: seq<seq<byte>> := [];
      requests, historySaved := [], false;
      var i := 0;
      while i < |textChunks|
        invariant 0 <= i <= |textChunks|
        invariant Synthesize(textChunks[..i], voiceId, synthesize) == Synthesized(audioChunks)
        invariant requests == Requests(textChunks[..i], voiceId)
        invariant audioFile == old(audioFile)
        invariant history.entries == old(history.entries) && history.persisted == old(history.persisted)
      {
        var chunk := textChunks[i];
        var request := RequestFor(chunk, voiceId);
        requests := requests + [request];
        assert textChunks[..i + 1][..i] == textChunks[..i];
        assert requests == Requests(textChunks[..i + 1], voiceId);
        var result := synthesize(request);
        match result
        case Failure(e) =>
          FailureIsFinal(textChunks, i + 1, voiceId, synthesize);
          return;
        case Success(audioStream) =>
          audioChunks := audioChunks + [audioStream];
        i := i + 1;
      }
      assert textChunks[..i] == textChunks;
      audioFile := Some(AudioBlob(Concat(audioChunks), "audio/mp3"));
      historySaved := history.SaveTextToHistory(text, storageAccepts);
    }
  }
}
