/** The orchestration of `prepare_text_from_path` (Untitled-3.py:59-68):
    media-kind dispatch, then transcription of whatever bytes it hands on.
    Reading the file, the worker-thread offload and the disabled
    authentication step are not part of this model. */
module Pipeline {
  import opened Wrappers
  import opened Media
  import opened Transcription

  /** A dispatch error is raised as is; otherwise the bytes it returns go to
      the recogniser with the caller's language tag. */
  function PrepareText(content: seq<bv8>, sniff: Sniffer, transcode: Transcoder, recognize: Recognizer, lang: string := "eng"): (r: Result<Reply, Error>)
    ensures r.Ok? ==> r.value.ok
    ensures r.Err? ==> r.error.DecodeFailure? || r.error.status == BadRequest || r.error.status == NotAcceptable
  {
    match ConvertKind(content, sniff, transcode)
    case Err(e) => Err(e)
    case Ok(audio) => TranscribeAudio(audio, lang, recognize)
  }

  /** Without a tag, whatever the dispatch hands on (audio as read, or a
      decoded video) is sent to the recogniser for English, "eng". */
  lemma DefaultLanguageIsEnglish(content: seq<bv8>, sniff: Sniffer, transcode: Transcoder, recognize: Recognizer)
    ensures ConvertKind(content, sniff, transcode).Ok? ==>
      PrepareText(content, sniff, transcode, recognize) ==
      TranscribeAudio(ConvertKind(content, sniff, transcode).value, "eng", recognize)
  {
  }

  /** Status 400 comes out exactly when the sniffed kind is neither audio nor
      video; then neither the decoder nor the recogniser is consulted. */
  lemma BadRequestIffNotMedia(content: seq<bv8>, lang: string, sniff: Sniffer,
                              t1: Transcoder, t2: Transcoder, r1: Recognizer, r2: Recognizer)
    ensures var r := PrepareText(content, sniff, t1, r1, lang);
      (r.Err? && r.error.HttpException? && r.error.status == BadRequest) <==> !IsMedia(sniff(content))
    ensures !IsMedia(sniff(content)) ==>
      PrepareText(content, sniff, t1, r1, lang) == PrepareText(content, sniff, t2, r2, lang) ==
      Err(HttpException(BadRequest, InvalidFileDetail))
  {
  }

  /** Audio goes to the recogniser exactly as read. */
  lemma AudioReachesRecognizerUnchanged(content: seq<bv8>, lang: string, sniff: Sniffer, transcode: Transcoder, recognize: Recognizer)
    requires IsCategory(sniff(content), "audio")
    ensures PrepareText(content, sniff, transcode, recognize, lang) == TranscribeAudio(content, lang, recognize)
  {
  }

  /** A video the decoder cannot parse fails with the decoder's error before
      the recogniser is consulted; a decoded video is transcribed from the
      decoder's output, whatever the sniffer would make of those bytes. */
  lemma VideoReachesRecognizerDecoded(content: seq<bv8>, lang: string, sniff: Sniffer,
                                      transcode: Transcoder, r1: Recognizer, r2: Recognizer)
    requires IsCategory(sniff(content), "video")
    ensures transcode(Format(VideoContainer), content).None? ==>
      PrepareText(content, sniff, transcode, r1, lang) == PrepareText(content, sniff, transcode, r2, lang) &&
      PrepareText(content, sniff, transcode, r1, lang) == Err(DecodeFailure)
    ensures transcode(Format(VideoContainer), content).Some? ==>
      PrepareText(content, sniff, transcode, r1, lang) ==
      TranscribeAudio(transcode(Format(VideoContainer), content).value, lang, r1)
  {
  }

  /** A video whose soundtrack the decoder extracts is transcribed exactly as
      that soundtrack would be if it were uploaded on its own as audio. */
  lemma VideoLikeItsSoundtrack(content: seq<bv8>, soundtrack: seq<bv8>, lang: string,
                               sniff: Sniffer, transcode: Transcoder, recognize: Recognizer)
    requires IsCategory(sniff(content), "video")
    requires transcode(Format(VideoContainer), content) == Some(soundtrack)
    requires IsCategory(sniff(soundtrack), "audio")
    ensures PrepareText(content, sniff, transcode, recognize, lang) == PrepareText(soundtrack, sniff, transcode, recognize, lang)
  {
  }
}
