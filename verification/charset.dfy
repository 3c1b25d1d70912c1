/**
 * Character-set handling for inline text: `detect_file_encoding` (a
 * confidence threshold over an external detector's guess on the first
 * 1024 bytes) and `convert_to_utf8` (decode with the detected codec,
 * re-encode as UTF-8).
 *
 * The detector's heuristic and the codecs other than UTF-8 are parameters
 * of the model.
 */
module Charset {
  import opened Common
  import Utf8

  /** What the detector reports for a sample: an encoding name or none, and a confidence. */
  datatype Guess = Guess(encoding: Option<string>, confidence: real)

  /** The encoding detector, as a function of the sampled bytes. */
  type Detector = seq<byte> -> Guess

  /**
   * `bytes.decode(name, errors='replace')`: `None` when `name` is not a
   * codec Python knows (the `except` branch); otherwise the decoded text.
   */
  type Codec = (string, seq<byte>) -> Option<string>

  const SampleSize: nat := 1024
  const MinConfidence: real := 0.5

  /** The bytes `f.read(sample_size)` returns. */
  function Sample(content: seq<byte>): (s: seq<byte>)
    ensures |s| <= SampleSize && |s| <= |content|
    ensures s == content[..|s|]
    ensures |s| == SampleSize || s == content
  {
    if |content| <= SampleSize then content else content[..SampleSize]
  }

  function DetectEncoding(content: seq<byte>, detect: Detector): Option<string>
  {
    var sample := Sample(content);
    if sample == [] then None
    else
      var g := detect(sample);
      if g.confidence < MinConfidence then None else g.encoding
  }

  /** `detected_encoding and detected_encoding.lower() != 'utf-8'` */
  predicate NeedsTranscode(detected: Option<string>) {
    detected.Some? && detected.value != "" && AsciiLower(detected.value) != "utf-8"
  }

  function ConvertToUtf8(content: seq<byte>, detected: Option<string>, codec: Codec): seq<byte>
  {
    if NeedsTranscode(detected) then
      match codec(detected.value, content)
      case Some(text) => Utf8.Encode(text)
      case None => content
    else content
  }

  /**
   * Detection: nothing for an empty file, nothing below the confidence
   * threshold, otherwise the detector's own answer on the first 1024
   * bytes; so files that agree on their first 1024 bytes are detected alike.
   */
  lemma DetectEncodingSpec(content: seq<byte>, other: seq<byte>, detect: Detector)
    ensures content == [] ==> DetectEncoding(content, detect) == None
    ensures content != [] ==>
      var g := detect(content[..if |content| < SampleSize then |content| else SampleSize]);
      DetectEncoding(content, detect) == if g.confidence < MinConfidence then None else g.encoding
    ensures |content| >= SampleSize && |other| >= SampleSize && content[..SampleSize] == other[..SampleSize] ==>
      DetectEncoding(content, detect) == DetectEncoding(other, detect)
  {
    if |content| < SampleSize {
      assert content[..|content|] == content;
    }
  }

  /**
   * The content is left byte for byte as it is exactly when no transcoding
   * is called for, or the codec is unknown, or decoding and re-encoding
   * happen to give the same bytes back.
   */
  lemma ConvertUnchanged(content: seq<byte>, detected: Option<string>, codec: Codec)
    ensures !NeedsTranscode(detected) ==> ConvertToUtf8(content, detected, codec) == content
    ensures NeedsTranscode(detected) && codec(detected.value, content).None? ==>
      ConvertToUtf8(content, detected, codec) == content
    ensures ConvertToUtf8(content, detected, codec) != content ==>
      NeedsTranscode(detected) && codec(detected.value, content).Some?
  {
  }

  /** "utf-8" in any ASCII letter case means no transcoding; so does no detection at all. */
  lemma Utf8NamesNeedNothing(name: string)
    requires AsciiLower(name) == "utf-8"
    ensures !NeedsTranscode(Some(name))
    ensures !NeedsTranscode(None)
    ensures !NeedsTranscode(Some(""))
  {
  }

  /**
   * Transcoded output is well-formed UTF-8 and decodes to the codec's text,
   * so nothing is lost between the detected encoding and the bytes sent.
   */
  lemma ConvertedIsUtf8(content: seq<byte>, detected: Option<string>, codec: Codec)
    requires NeedsTranscode(detected)
    requires codec(detected.value, content).Some?
    ensures var out := ConvertToUtf8(content, detected, codec);
      Utf8.Valid(out) && Utf8.Decode(out) == codec(detected.value, content).value
  {
    var text := codec(detected.value, content).value;
    Utf8.EncodeIsValid(text);
    Utf8.DecodeEncode(text);
  }
}
