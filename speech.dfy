/**
 The boundary to the text-to-speech vendor. The vendor call itself is not part of
 this model: a synthesiser is any total function from a request to an outcome,
 so the pipeline is proved for every possible behaviour of the service.
 */
module Speech {

  newtype byte = x: int | 0 <= x < 256

  /** The arguments of one synthesis call: SSML text, mp3 output, the chosen voice. */
  datatype SpeechRequest = SpeechRequest(text: string, outputFormat: string, voiceId: string, textType: string)

  /** What one call yields: the audio stream, or the error it raised. */
  datatype SynthesisOutcome = Success(audioStream: seq<byte>) | Failure(error: string)

  type Synthesizer = SpeechRequest -> SynthesisOutcome

  const SpeakOpen: string := "<speak>"
  const SpeakClose: string := "</speak>"

  /** The request for one chunk: the chunk wrapped in a `speak` element, sent as SSML for mp3 output. */
  function RequestFor(chunk: string, voiceId: string): (r: SpeechRequest)
    ensures |r.text| == |SpeakOpen| + |chunk| + |SpeakClose|
    ensures r.text[..|SpeakOpen|] == SpeakOpen
    ensures r.text[|SpeakOpen|..|r.text| - |SpeakClose|] == chunk
    ensures r.text[|r.text| - |SpeakClose|..] == SpeakClose
    ensures r.voiceId == voiceId
    ensures r.outputFormat == "mp3" && r.textType == "ssml"
  {
    SpeechRequest(SpeakOpen + chunk + SpeakClose, "mp3", voiceId, "ssml")
  }

  /** The requests for a list of chunks, in chunk order. */
  function Requests(chunks: seq<string>, voiceId: string): (rs: seq<SpeechRequest>)
    ensures |rs| == |chunks|
  {
    seq(|chunks|, j requires 0 <= j < |chunks| => RequestFor(chunks[j], voiceId))
  }
}
