/** Media-kind dispatch (`convert_kind_type_from_path`, Untitled-3.py:71-91)
    and the WAV-or-transcode decision of `convert_to_wav`
    (Untitled-3.py:23-41). The content sniffer (`filetype.guess`) and the
    decoder/encoder (pydub over ffmpeg) are not part of this model: they are
    passed in as functions. */
module Media {
  import opened Wrappers
  import opened PyStr
  import opened WavHeader

  /** What the decoder is told about its source: an explicit container name
      (`format="webm"`), or only the suffix of the file it is pointed at. */
  datatype SourceHint = Format(name: string) | FileSuffix(suffix: string)

  /** Decode the source and re-encode it as WAV; None when the decoder cannot
      parse the source (its exception). */
  type Transcoder = (SourceHint, seq<bv8>) -> Option<seq<bv8>>

  /** Content sniffing: the MIME type recognised in the bytes, if any. */
  type Sniffer = seq<bv8> -> Option<string>

  const InvalidFileDetail := "Your file is not valid. Please upload a valid audio or video file."
  const BadRequest: nat := 400
  /** The container every video upload is decoded as. */
  const VideoContainer := "webm"

  /** `mime.split('/')[0]`: the top-level MIME category, i.e. the text before
      the first '/', or the whole string when there is none. */
  function MimeCategory(mime: string): (category: string)
    ensures '/' !in category
    ensures |category| <= |mime| && mime[..|category|] == category
    ensures |category| < |mime| ==> mime[|category|] == '/'
  {
    JoinStarts(Split(mime, '/'), '/');
    Split(mime, '/')[0]
  }

  predicate IsCategory(kind: Option<string>, category: string)
  {
    kind.Some? && MimeCategory(kind.value) == category
  }

  /** The sniffed kind is audio or video. */
  predicate IsMedia(kind: Option<string>)
  {
    IsCategory(kind, "audio") || IsCategory(kind, "video")
  }

  /** The bytes `convert_kind_type_from_path` hands on for transcription:
      rejected with 400 unless the sniffed category is audio or video; video
      is decoded as webm and re-encoded as WAV; audio passes through as read,
      whether or not it is WAV. */
  function ConvertKind(content: seq<bv8>, sniff: Sniffer, transcode: Transcoder): (r: Result<seq<bv8>, Error>)
    ensures r == Err(HttpException(BadRequest, InvalidFileDetail)) <==> !IsMedia(sniff(content))
    ensures r.Err? ==> r.error == HttpException(BadRequest, InvalidFileDetail) || r.error == DecodeFailure
    ensures IsCategory(sniff(content), "audio") ==> r == Ok(content)
    ensures IsCategory(sniff(content), "video") ==>
      (r.Ok? <==> transcode(Format(VideoContainer), content).Some?) &&
      (r.Ok? ==> r.value == transcode(Format(VideoContainer), content).value)
  {
    var kind := sniff(content);
    if kind.None? || (MimeCategory(kind.value) != "audio" && MimeCategory(kind.value) != "video") then
      Err(HttpException(BadRequest, InvalidFileDetail))
    else if MimeCategory(kind.value) == "video" then
      match transcode(Format(VideoContainer), content)
      case None => Err(DecodeFailure)
      case Some(wav) => Ok(wav)
    else
      Ok(content)
  }

  /** A rejected file never reaches the decoder: the outcome is the same
      whatever the decoder would have done. */
  lemma RejectionSkipsTranscoder(content: seq<bv8>, sniff: Sniffer, t1: Transcoder, t2: Transcoder)
    requires !IsMedia(sniff(content))
    ensures ConvertKind(content, sniff, t1) == ConvertKind(content, sniff, t2)
    ensures ConvertKind(content, sniff, t1) == Err(HttpException(BadRequest, InvalidFileDetail))
  {
  }

  /** Only video reaches the decoder. */
  lemma OnlyVideoIsTranscoded(content: seq<bv8>, sniff: Sniffer, t1: Transcoder, t2: Transcoder)
    requires !IsCategory(sniff(content), "video")
    ensures ConvertKind(content, sniff, t1) == ConvertKind(content, sniff, t2)
  {
  }

  /** Category of a MIME string written as `category/subtype`. */
  lemma MimeCategoryOf(category: string, subtype: string)
    requires '/' !in category
    ensures MimeCategory(category + "/" + subtype) == category
    ensures MimeCategory(category) == category
  {
    SplitBeforeFirst(category, subtype, '/');
    SplitNoSeparator(category, '/');
  }

  /** `"." + file_name.split(".")[-1]`: the suffix of the first temporary
      file. It is a dot followed by the text after the last dot of the name,
      or by the whole name when it has no dot. */
  function TempSuffix(fileName: string): (suffix: string)
    ensures |suffix| >= 1 && suffix[0] == '.'
    ensures '.' !in suffix[1..]
    ensures '.' !in fileName ==> suffix == "." + fileName
    ensures '.' in fileName ==> |suffix| <= |fileName| && fileName[|fileName| - |suffix|..] == suffix
  {
    var parts := Split(fileName, '.');
    JoinEnds(parts, '.');
    assert '.' !in fileName ==> parts == [fileName] by {
      if '.' !in fileName { SplitNoSeparator(fileName, '.'); }
    }
    var suffix := "." + Last(parts);
    assert suffix[1..] == Last(parts);
    suffix
  }

  /** The suffix is fixed by the last dot alone: whatever precedes it. */
  lemma TempSuffixAfterLastDot(prefix: string, ext: string)
    requires '.' !in ext
    ensures TempSuffix(prefix + "." + ext) == "." + ext
  {
    SplitAfterLast(prefix, ext, '.');
  }

  /** The suffix keeps every '/' after the last dot: only dots are excluded
      after its first character, so a directory-like name yields a suffix no
      temporary file can carry. */
  lemma TempSuffixKeepsSlash(prefix: string, ext: string)
    requires '.' !in ext && '/' in ext
    ensures '/' in TempSuffix(prefix + "." + ext)
  {
    TempSuffixAfterLastDot(prefix, ext);
    assert TempSuffix(prefix + "." + ext)[1..] == ext;
  }

  /** For example, "a.b/c" gives ".b/c". */
  lemma TempSuffixMayHoldSlash()
    ensures TempSuffix("a.b/c") == ".b/c"
  {
    TempSuffixAfterLastDot("a", "b/c");
    assert "a" + "." + "b/c" == "a.b/c";
  }

  /** What `convert_to_wav` produces: the suffix of the temporary file the
      source bytes were written to (None when no such file is made), and the
      bytes of the ".wav" temporary file whose path it returns. */
  datatype WavConversion = WavConversion(sourceSuffix: Option<string>, wav: seq<bv8>)

  /** WAV input is copied out byte for byte and the decoder is not used;
      anything else is written under `TempSuffix(fileName)` and handed to the
      decoder, whose failure propagates. */
  function ConvertToWav(fileName: string, content: seq<bv8>, transcode: Transcoder): (r: Result<WavConversion, Error>)
    ensures IsWavFile(content) ==> r == Ok(WavConversion(None, content))
    ensures !IsWavFile(content) ==>
      (r.Ok? <==> transcode(FileSuffix(TempSuffix(fileName)), content).Some?) &&
      (r.Ok? ==> r.value == WavConversion(Some(TempSuffix(fileName)), transcode(FileSuffix(TempSuffix(fileName)), content).value))
    ensures r.Err? ==> r.error == DecodeFailure
  {
    if !IsWavFile(content) then
      var suffix := TempSuffix(fileName);
      match transcode(FileSuffix(suffix), content)
      case None => Err(DecodeFailure)
      case Some(wav) => Ok(WavConversion(Some(suffix), wav))
    else
      Ok(WavConversion(None, content))
  }

  /** WAV input never reaches the decoder. */
  lemma WavInputSkipsTranscoder(fileName: string, content: seq<bv8>, t1: Transcoder, t2: Transcoder)
    requires IsWavFile(content)
    ensures ConvertToWav(fileName, content, t1) == ConvertToWav(fileName, content, t2)
  {
  }

  /** With a decoder that only ever writes WAV, every successful conversion
      yields WAV, and converting that output again changes nothing. */
  lemma ConvertToWavIdempotent(fileName: string, other: string, content: seq<bv8>, transcode: Transcoder)
    requires forall h, b :: transcode(h, b).Some? ==> IsWavFile(transcode(h, b).value)
    requires ConvertToWav(fileName, content, transcode).Ok?
    ensures IsWavFile(ConvertToWav(fileName, content, transcode).value.wav)
    ensures var wav := ConvertToWav(fileName, content, transcode).value.wav;
      ConvertToWav(other, wav, transcode) == Ok(WavConversion(None, wav))
  {
  }
}
