/**
 The placeholder summariser: it keeps the first 1000 characters of its input.
 */
module Summary {

  /** How many characters the summary keeps. */
  const SummaryLength: nat := 1000

  /** A prefix of the input, exactly min(|inputText|, 1000) long (a slice from 0 to 1000, clipped at the end). */
  function SummarizeText(inputText: string): (summary: string)
    ensures summary <= inputText
    ensures |summary| == if |inputText| < SummaryLength then |inputText| else SummaryLength
  {
    if |inputText| <= SummaryLength then inputText else inputText[..SummaryLength]
  }
}
