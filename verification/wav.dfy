/** The WAV header test `is_wav_file` (Untitled-3.py:13-20). A RIFF/WAVE file
    opens with the chunk id "RIFF" (bytes 0-3), a 32-bit chunk size (bytes
    4-7) and the form type "WAVE" (bytes 8-11). */
module WavHeader {
  import opened PyStr

  /** b"RIFF" */
  const Riff: seq<bv8> := [0x52, 0x49, 0x46, 0x46]
  /** b"WAVE" */
  const Wave: seq<bv8> := [0x57, 0x41, 0x56, 0x45]

  /** `content[:4] == b"RIFF"` and `content[8:12] == b"WAVE"`, with Python's
      slices: a short input yields short slices, so the test fails instead of
      going out of bounds. */
  function IsWavFile(content: seq<bv8>): (wav: bool)
    ensures wav <==> |content| >= 12 && content[..4] == Riff && content[8..12] == Wave
  {
    if PySlice(content, 0, 4) != Riff || PySlice(content, 8, 12) != Wave then false else true
  }

  /** Anything shorter than the 12-byte header is not WAV. */
  lemma ShortContentIsNotWav(content: seq<bv8>)
    requires |content| < 12
    ensures !IsWavFile(content)
  {
  }

  /** Every header with the two markers in place is WAV, whatever the size
      field holds and whatever follows. */
  lemma HeaderIsWav(size: seq<bv8>, rest: seq<bv8>)
    requires |size| == 4
    ensures IsWavFile(Riff + size + Wave + rest)
  {
    var c := Riff + size + Wave + rest;
    assert c[..4] == Riff;
    assert c[8..12] == Wave;
  }

  /** The size field, bytes 4-7, is never inspected. */
  lemma SizeFieldIgnored(content: seq<bv8>, size: seq<bv8>)
    requires |content| >= 8 && |size| == 4
    ensures IsWavFile(content[..4] + size + content[8..]) == IsWavFile(content)
  {
    var c := content[..4] + size + content[8..];
    assert c[..4] == content[..4];
    assert |c| == |content|;
    if |content| >= 12 {
      assert c[8..12] == content[8..12];
    }
  }

  /** The verdict depends on the first 12 bytes only. */
  lemma FirstTwelveBytesDecide(a: seq<bv8>, b: seq<bv8>)
    requires |a| >= 12 && |b| >= 12 && a[..12] == b[..12]
    ensures IsWavFile(a) == IsWavFile(b)
  {
    assert a[..4] == a[..12][..4] && b[..4] == b[..12][..4];
    assert a[8..12] == a[..12][8..12] && b[8..12] == b[..12][8..12];
  }

  /** On fewer than 12 bytes appending can change the verdict: the 11 bytes
      "RIFF" + four zero bytes + "WAV" are not WAV, but with "E" appended
      they are. */
  lemma AppendCanCompleteHeader()
    ensures var short: seq<bv8> := Riff + [0, 0, 0, 0] + Wave[..3];
      !IsWavFile(short) && IsWavFile(short + [Wave[3]])
  {
    var short: seq<bv8> := Riff + [0, 0, 0, 0] + Wave[..3];
    assert short + [Wave[3]] == Riff + [0, 0, 0, 0] + Wave + [];
    HeaderIsWav([0, 0, 0, 0], []);
  }

  /** Appending bytes never changes the verdict on a full header, and never
      turns a WAV file into a non-WAV one. */
  lemma AppendKeepsVerdict(content: seq<bv8>, extra: seq<bv8>)
    ensures IsWavFile(content) ==> IsWavFile(content + extra)
    ensures |content| >= 12 ==> IsWavFile(content + extra) == IsWavFile(content)
  {
    if |content| >= 12 {
      FirstTwelveBytesDecide(content, content + extra);
    }
  }
}
