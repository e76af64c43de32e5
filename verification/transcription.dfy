/** The outcome mapping of `transcribe_audio` (Untitled-3.py:44-56). The
    recogniser (speech_recognition's `AudioFile`, ambient-noise calibration,
    `record` and the remote `recognize_google` call) is not part of this
    model: it is passed in as a function from audio bytes and a language tag
    to the provider's outcome. */
module Transcription {
  import opened Wrappers

  /** What the provider call ends in: recognised text, `UnknownValueError`
      (no intelligible speech), or `RequestError` with its text `str(e)`. */
  datatype ProviderOutcome = Recognized(text: string) | Unintelligible | RequestError(message: string)

  type Recognizer = (seq<bv8>, string) -> ProviderOutcome

  /** The success dictionary `{"ok": True, "transcript": text}`. */
  datatype Reply = Reply(ok: bool, transcript: string)

  const NotAcceptable: nat := 406
  const NotRecognizableDetail := "Your voice is not recognizable!"

  /** Recognised text becomes an ok reply carrying it; either provider error
      becomes a 406 `HTTPException`, with a fixed message for unintelligible
      speech and the provider's own text for a failed request. */
  function TranscribeAudio(fileBinary: seq<bv8>, lang: string, recognize: Recognizer): (r: Result<Reply, Error>)
    ensures r.Ok? <==> recognize(fileBinary, lang).Recognized?
    ensures r.Ok? ==> r.value.ok && r.value.transcript == recognize(fileBinary, lang).text
    ensures r.Err? ==> r.error.HttpException? && r.error.status == NotAcceptable
    ensures recognize(fileBinary, lang).Unintelligible? ==> r.error.detail == NotRecognizableDetail
    ensures recognize(fileBinary, lang).RequestError? ==> r.error.detail == recognize(fileBinary, lang).message
  {
    match recognize(fileBinary, lang)
    case Recognized(text) => Ok(Reply(true, text))
    case Unintelligible => Err(HttpException(NotAcceptable, NotRecognizableDetail))
    case RequestError(message) => Err(HttpException(NotAcceptable, message))
  }

  /** The mapping loses nothing about the provider's outcome except which of
      the two errors carried the fixed message: the outcome can be read back
      from the result. */
  lemma TranscribeAudioRecovers(fileBinary: seq<bv8>, lang: string, recognize: Recognizer)
    ensures var r := TranscribeAudio(fileBinary, lang, recognize);
      var o := recognize(fileBinary, lang);
      (r.Ok? ==> o == Recognized(r.value.transcript)) &&
      (r.Err? && r.error.detail != NotRecognizableDetail ==> o == RequestError(r.error.detail)) &&
      (r.Err? && r.error.detail == NotRecognizableDetail ==>
        o == Unintelligible || o == RequestError(NotRecognizableDetail))
  {
  }
}
