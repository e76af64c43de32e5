# Speech2Text decision logic in Dafny

This project models the decision logic of the Speech2Text pipeline script `Untitled-3.py`. The script takes an uploaded audio or video file, turns it into WAV audio, and sends it to a remote speech-recognition provider for a transcript. The model covers the parts of the script that decide things:

- the WAV header test `is_wav_file`;
- the media-kind dispatch of `convert_kind_type_from_path`. It rejects anything whose sniffed MIME category is neither `audio` nor `video` with status 400. It transcodes video, and it passes audio through unchanged;
- the WAV-or-transcode branch of `convert_to_wav`, and the suffix it gives its temporary file;
- the mapping in `transcribe_audio` from the provider's outcome to a reply or a 406 error;
- the composition of dispatch and transcription in `prepare_text_from_path`.

The model is pure: datatypes, functions and lemmas, which matches the script. It has no loops and no in-place updates. The foreign collaborators are passed in as function-typed parameters, and the model only says how the script uses what they return:

- the content sniffer `filetype.guess` is a `Sniffer`, from bytes to an optional MIME string;
- the pydub/ffmpeg decode-and-re-encode step is a `Transcoder`. It takes a `SourceHint` (the explicit container `webm`, or the suffix of the temporary file it reads) and the source bytes. It returns the WAV bytes, or `None` when its exception escapes;
- the recogniser (speech_recognition's `AudioFile`, `record`, `recognize_google`) is a `Recognizer`. It maps audio bytes and a language tag to a `ProviderOutcome`.

Python semantics are written out where they matter. `PyStr.PySlice` is slicing with clamped bounds, which never fails. `PyStr.Split` is `str.split(sep)`, and it always yields at least one piece.

Modules: `Wrappers` (Option, Result, the error type), `PyStr`, `WavHeader`, `Media`, `Transcription` and `Pipeline`, one per file.

Three facts about the script shape the model:

- `convert_kind_type_from_path` never calls `is_wav_file`. It decides on the sniffed MIME category alone (Untitled-3.py:79-84).
- Every audio upload, WAV or not, reaches `transcribe_audio` exactly as read (Untitled-3.py:84-91, 60, 67). Only `convert_to_wav` transcodes non-WAV audio, and nothing in the script calls it (Untitled-3.py:23-41).
- WAV output is guaranteed only for WAV input to `convert_to_wav`, which copies it (Untitled-3.py:36-39). Every other output is whatever the decoder writes, so `Media.ConvertToWavIdempotent` takes "the decoder writes WAV" as a hypothesis.

## Model

| member | source | states |
|---|---|---|
| `PyStr.PySlice` | Untitled-3.py:18 | a slice `s[lo:hi]` never fails; its length is clamped to what the sequence holds, and element `i` is `s[lo+i]` |
| `PyStr.Split` | Untitled-3.py:26 | `split(sep)` yields at least one piece, no piece contains the separator, and joining the pieces with the separator gives the input back |
| `PyStr.SplitJoin` | Untitled-3.py:26 | split inverts join on separator-free pieces, so `Split` is the unique such cutting of a string |
| `PyStr.SplitNoSeparator` | Untitled-3.py:81 | a string without the separator splits into itself alone |
| `PyStr.SplitAfterLast` | Untitled-3.py:26 | the pieces of `p + sep + t`, with `t` separator-free, are the pieces of `p` followed by `t` |
| `PyStr.SplitBeforeFirst` | Untitled-3.py:81 | the first piece of `c + sep + rest`, with `c` separator-free, is `c` |
| `WavHeader.IsWavFile` | Untitled-3.py:13-20 | content is WAV exactly when it has at least 12 bytes, bytes 0-3 are `RIFF` and bytes 8-11 are `WAVE` |
| `WavHeader.ShortContentIsNotWav` | Untitled-3.py:18 | content shorter than 12 bytes is never WAV |
| `WavHeader.HeaderIsWav` | Untitled-3.py:18-20 | `RIFF` + any 4-byte size + `WAVE` + any tail is WAV |
| `WavHeader.SizeFieldIgnored` | Untitled-3.py:18 | replacing bytes 4-7 never changes the verdict |
| `WavHeader.FirstTwelveBytesDecide` | Untitled-3.py:18 | two inputs that agree on their first 12 bytes get the same verdict |
| `WavHeader.AppendCanCompleteHeader` | Untitled-3.py:18 | on fewer than 12 bytes appending can change the verdict: `RIFF` + four zero bytes + `WAV` is not WAV, and appending `E` makes it WAV |
| `WavHeader.AppendKeepsVerdict` | Untitled-3.py:18 | appending bytes keeps a WAV verdict, and never changes the verdict on content of at least 12 bytes |
| `Media.MimeCategory` | Untitled-3.py:81 | the category contains no `/`, is a prefix of the MIME string, and is followed by `/` unless it is the whole string, i.e. it is the text before the first `/` |
| `Media.MimeCategoryOf` | Untitled-3.py:81 | the category of `c/subtype` is `c`, and a string without `/` is its own category |
| `Media.ConvertKind` | Untitled-3.py:79-91 | the result is the 400 error with the fixed "not valid" message exactly when the sniffed kind is missing or neither audio nor video; audio is returned byte-identical; video succeeds exactly when the decoder, told `webm`, succeeds, and yields its output; any other failure is a decode failure |
| `Media.RejectionSkipsTranscoder` | Untitled-3.py:81-82 | a rejected file gets the 400 error whatever the decoder would do, so no conversion is made |
| `Media.OnlyVideoIsTranscoded` | Untitled-3.py:84-89 | for anything but video the result does not depend on the decoder |
| `Media.TempSuffix` | Untitled-3.py:26 | the suffix is `.` followed by no further dot; without a dot in the name it is `.` + name, otherwise the name ends with it, i.e. it is the text after the last dot |
| `Media.TempSuffixAfterLastDot` | Untitled-3.py:26 | the suffix of `prefix.ext`, with `ext` dot-free, is `.ext` whatever the prefix |
| `Media.TempSuffixKeepsSlash` | Untitled-3.py:26 | every `/` after the last dot of the name stays in the suffix |
| `Media.TempSuffixMayHoldSlash` | Untitled-3.py:26 | the name `a.b/c` gives the suffix `.b/c`, which holds a `/` |
| `Media.ConvertToWav` | Untitled-3.py:23-41 | WAV input is written out unchanged with no source temp file; other input is written under `TempSuffix(file_name)`, and conversion succeeds exactly when the decoder does, yielding its output; within the model the only failure is a decode failure (the temp-file failure is under "## Left out") |
| `Media.WavInputSkipsTranscoder` | Untitled-3.py:24-39 | for WAV input the result does not depend on the decoder |
| `Media.ConvertToWavIdempotent` | Untitled-3.py:23-41 | with a decoder that only writes WAV, every successful conversion is WAV, and converting it again copies it unchanged |
| `Transcription.TranscribeAudio` | Untitled-3.py:44-56 | the reply is ok exactly when the provider recognised speech, and carries its text; unintelligible speech gives 406 with "Your voice is not recognizable!"; a request error gives 406 with the error's own text |
| `Transcription.TranscribeAudioRecovers` | Untitled-3.py:51-56 | the provider's outcome can be read back from the result, up to a request error whose text equals the fixed message |
| `Pipeline.PrepareText` | Untitled-3.py:59-68 | every reply is ok, and every HTTP error has status 400 or 406 |
| `Pipeline.DefaultLanguageIsEnglish` | Untitled-3.py:59-67 | without a language tag, whatever the dispatch hands on (audio as read or a decoded video) goes to the recogniser with `eng` |
| `Pipeline.BadRequestIffNotMedia` | Untitled-3.py:79-82 | the pipeline fails with status 400 exactly when the sniffed kind is neither audio nor video, and then neither the decoder nor the recogniser is consulted |
| `Pipeline.AudioReachesRecognizerUnchanged` | Untitled-3.py:84-91 | audio reaches the recogniser exactly as read |
| `Pipeline.VideoReachesRecognizerDecoded` | Untitled-3.py:84-91 | a video the decoder cannot parse fails with the decode failure whatever the recogniser would do; a decoded video is transcribed from the decoder's output, whatever the sniffer would say about it |
| `Pipeline.VideoLikeItsSoundtrack` | Untitled-3.py:84-91 | a video is transcribed as its extracted soundtrack would be if uploaded as audio |

## Left out

- Reading the input file and writing `output.txt` in `main` (Untitled-3.py:76-77, 96-104): filesystem I/O. The model takes the file's bytes as its input.
- Creating, writing and removing the temporary files in `convert_to_wav` (Untitled-3.py:26-41): filesystem I/O. The model gives the suffix of the source temp file and the bytes of the `.wav` file, not its path. A file name whose last dot is followed by a `/` gives a suffix holding a `/` (`"a.b/c"` gives `".b/c"`). Then `NamedTemporaryFile` fails at Untitled-3.py:26, and the `finally` at line 35 raises `UnboundLocalError` because `temp_file_path` was never bound. The model does not capture this failure: its `TempSuffix` is only the string, and `ConvertToWav` fails only on a decode failure.
- The decoder internals of pydub `AudioSegment.from_file`/`export` (Untitled-3.py:30-32, 86-89): a foreign library, modelled as the `Transcoder` parameter.
- The magic-number detection inside `filetype.guess` (Untitled-3.py:79): a foreign library, modelled as the `Sniffer` parameter.
- The `Recognizer` and `AudioFile` handling, the 0.5-second ambient-noise calibration and the remote `recognize_google` call (Untitled-3.py:45-51). These are a foreign library, floating-point numerics and a network call, modelled as the `Recognizer` parameter. The model has no case for an `AudioFile` that cannot read its input. Because the dispatch passes every audio upload through unchanged (Untitled-3.py:84-91), audio that `sr.AudioFile` cannot read, such as mp3 or ogg, ends in an uncaught `ValueError` at Untitled-3.py:48. Nothing at Untitled-3.py:53-56 catches it. The model's `Recognizer` always returns one of the three `ProviderOutcome`s instead. The provider and the decoder are modelled as deterministic functions. A remote `recognize_google` call is not one: two calls with the same audio can end differently, for example with a transient `RequestError`. So `Pipeline.VideoLikeItsSoundtrack` and the other equalities between pipeline results say that the same bytes and the same tag reach the provider, not that two real calls give the same reply.
- `run_in_threadpool` and async/await (Untitled-3.py:59-68, 94-107): concurrency. `Pipeline.PrepareText` composes the two steps sequentially.
- The commented-out authentication step (Untitled-3.py:62-65): dead code.
