/**
 * The request handler `convert_audio` of app.py: the payload is normalised
 * (whitespace deleted, data-URI prefix cut off at the last comma), padded with
 * `=` to a multiple of four characters, and Base 64 decoded, any failure being
 * answered with status 400 "Invalid Base-64". The decoded bytes go to an external
 * transcoder, which is a parameter here, and its MP3 output is Base 64 encoded
 * into a response whose MIME type and file name are fixed.
 */
module Converter {
  import opened Wrappers
  import opened PyStr
  import opened Base64

  /** An `HTTPException(status, detail)` raised by the handler. */
  datatype HttpError = HttpError(status: nat, detail: string)

  /** The error every decoding failure becomes (app.py:25). */
  const InvalidBase64: HttpError := HttpError(400, "Invalid Base-64")

  /**
   * The error a failed transcoder becomes (app.py:40). `subprocess.run` is called
   * without capturing the error stream, so `e.stderr` is `None` and the detail is
   * always this text, including the mis-encoded arrow the source file holds.
   */
  const TranscodeFailure: HttpError := HttpError(500, "FFmpeg error \U{E2}\U{2020}\U{2019} None")

  const MimeType: string := "audio/mpeg"
  const FileName: string := "converted.mp3"

  /** The response model `AudioOut` (app.py:12-15). */
  datatype AudioOut = AudioOut(audioMp3Base64: string, mimeType: string, fileName: string)

  /**
   * What the workspace and the external transcoder did with the input bytes:
   * MP3 bytes; `ffmpeg` exiting with an error (`CalledProcessError`, app.py:39);
   * or any other exception on the way, which the handler does not catch
   * (`ffmpeg` not found, or an `OSError` from the temporary directory or a file
   * read or write, app.py:27-42).
   */
  datatype TranscodeOutcome = Transcoded(mp3: seq<byte>) | TranscodeFailed | Crashed

  /**
   * What the endpoint answers: a body, a raised `HTTPException`, or an exception
   * the handler does not catch, which the framework answers with its own
   * generic server error.
   */
  datatype Response = Converted(body: AudioOut) | Raised(error: HttpError) | Unhandled

  lemma NoSpaceSuffix(t: string, k: nat)
    requires NoSpace(t) && k <= |t|
    ensures NoSpace(t[k..])
  {
    assert forall i :: 0 <= i < |t| - k ==> t[k..][i] == t[k + i];
  }

  /**
   * app.py:19, `"".join(payload.split()).split(",")[-1]`: the payload without its
   * whitespace, and of that only the part after the last comma.
   */
  function Normalize(payload: string): (r: string)
    ensures NoSpace(r) && ',' !in r
    ensures IsLastField(r, RemoveSpace(payload), ',')
    ensures ',' !in RemoveSpace(payload) ==> r == RemoveSpace(payload)
  {
    JoinSplitWords(payload);
    LastSplitOn(RemoveSpace(payload), ',');
    var r := Last(SplitOn(Concat(SplitWords(payload)), ','));
    NoSpaceSuffix(RemoveSpace(payload), |RemoveSpace(payload)| - |r|);
    r
  }

  /**
   * The normalised payload is `t`, for `t` without comma, exactly when the payload
   * without its whitespace is `t` or ends in a comma followed by `t`.
   */
  lemma NormalizeIs(payload: string, t: string)
    requires ',' !in t
    ensures Normalize(payload) == t <==>
      var s := RemoveSpace(payload);
      s == t || (|s| > |t| && s[|s| - |t| - 1..] == [','] + t)
  {
    JoinSplitWords(payload);
    LastSplitOnIs(RemoveSpace(payload), ',', t);
  }

  /** Normalising a normalised payload changes nothing. */
  lemma NormalizeIdempotent(payload: string)
    ensures Normalize(Normalize(payload)) == Normalize(payload)
  {
  }

  /** Python's `c * n` for a one-character string `c`. */
  function Repeat(c: char, n: nat): (r: string)
    ensures |r| == n
    ensures forall i :: 0 <= i < n ==> r[i] == c
  {
    if n == 0 then [] else [c] + Repeat(c, n - 1)
  }

  /**
   * app.py:20-21: when the length is not a multiple of 4, append `=` until it is.
   * Only `=` is appended, at most three of them, and a string whose length is
   * already a multiple of 4 is left as it is.
   */
  function Pad(s: string): (r: string)
    ensures |r| % 4 == 0
    ensures |s| <= |r| <= |s| + 3 && r[..|s|] == s
    ensures forall i :: |s| <= i < |r| ==> r[i] == PadChar
    ensures |s| % 4 == 0 ==> r == s
  {
    if |s| % 4 != 0 then s + Repeat(PadChar, 4 - |s| % 4) else s
  }

  /** Padding a padded string changes nothing. */
  lemma PadIdempotent(s: string)
    ensures Pad(Pad(s)) == Pad(s)
  {
  }

  /**
   * app.py:19-25: normalise, pad and decode; every decoding failure is the 400
   * error. It succeeds exactly when the padded text is well-formed Base 64.
   */
  function FrontEnd(payload: string): (r: Result<seq<byte>, HttpError>)
    ensures r.Err? ==> r.error == InvalidBase64
    ensures r.Ok? <==> WellFormed(Pad(Normalize(payload)))
  {
    DecodeAcceptsWellFormed(Pad(Normalize(payload)));
    match Decode(Pad(Normalize(payload)))
    case Ok(raw) => Ok(raw)
    case Err(_) => Err(InvalidBase64)
  }

  /** A Base 64 encoding passes through the front end unchanged: `FrontEnd(Encode(b)) == Ok(b)`. */
  lemma FrontEndRoundTrip(b: seq<byte>)
    ensures Normalize(Encode(b)) == Encode(b)
    ensures Pad(Normalize(Encode(b))) == Encode(b)
    ensures FrontEnd(Encode(b)) == Ok(b)
  {
    EncodeHasNoSpaceOrComma(b);
    DecodeEncode(b);
  }

  /** An encoding holds neither whitespace nor a comma. */
  lemma EncodeHasNoSpaceOrComma(b: seq<byte>)
    ensures NoSpace(Encode(b)) && ',' !in Encode(b)
  {
    EncodeCharacters(b);
  }

  /** Whitespace anywhere in the payload makes no difference to the front end. */
  lemma FrontEndIgnoresSpace(payload: string)
    ensures Normalize(RemoveSpace(payload)) == Normalize(payload)
    ensures FrontEnd(RemoveSpace(payload)) == FrontEnd(payload)
  {
    RemoveSpaceIdempotent(payload);
  }

  /** The round trip survives whitespace put anywhere in the encoding. */
  lemma FrontEndIgnoresInsertedSpace(payload: string, b: seq<byte>)
    requires RemoveSpace(payload) == Encode(b)
    ensures FrontEnd(payload) == Ok(b)
  {
    FrontEndIgnoresSpace(payload);
    FrontEndRoundTrip(b);
  }

  /**
   * The round trip survives a data-URI prefix such as `data:audio/wav;base64,`:
   * whatever `prefix` holds, commas included, a payload that without its
   * whitespace is `prefix + "," + Encode(b)` decodes to `b`.
   */
  lemma FrontEndDataUri(payload: string, prefix: string, b: seq<byte>)
    requires RemoveSpace(payload) == prefix + [','] + Encode(b)
    ensures Normalize(payload) == Encode(b)
    ensures FrontEnd(payload) == Ok(b)
  {
    var e := Encode(b);
    EncodeHasNoSpaceOrComma(b);
    SuffixAfterComma(prefix, e);
    NormalizeIs(payload, e);
    FrontEndRoundTrip(b);
  }

  lemma SuffixAfterComma(prefix: string, e: string)
    ensures var s := prefix + [','] + e; |s| > |e| && s[|s| - |e| - 1..] == [','] + e
  {
    var s := prefix + [','] + e;
    assert s == prefix + ([','] + e);
  }

  /**
   * A normalised payload one more than a multiple of 4 long is always rejected:
   * padding puts `===` after its last character, leaving a final quantum with a
   * single data character.
   */
  lemma FrontEndRejectsOneModFour(payload: string)
    requires |Normalize(payload)| % 4 == 1
    ensures Pad(Normalize(payload)) == Normalize(payload) + "==="
    ensures FrontEnd(payload) == Err(InvalidBase64)
  {
    var n := Normalize(payload);
    var s := Pad(n);
    assert s[|s| - 3] == PadChar;
    PadCharNotInAlphabet();
    assert !WellFormed(s);
    assert s == n + "===";
  }

  /**
   * Decoding and re-encoding gives back the padded normalised payload exactly
   * when its pad bits are zero; only whitespace, the prefix, the added padding
   * and non-zero pad bits are lost.
   */
  lemma FrontEndReencodes(payload: string, b: seq<byte>)
    requires FrontEnd(payload) == Ok(b)
    ensures Encode(b) == Pad(Normalize(payload)) <==> PadBitsZero(Pad(Normalize(payload)))
  {
    EncodeDecode(Pad(Normalize(payload)), b);
  }

  /**
   * `convert_audio` (app.py:18-44) with the workspace and the `ffmpeg` run folded
   * into `transcode`: a decoding failure is answered before the transcoder is
   * reached, a transcoder failure is the 500 error, any other exception goes
   * uncaught, and a success carries the MP3 bytes Base 64 encoded together with
   * the two fixed fields.
   */
  function ConvertAudio(payload: string, transcode: seq<byte> -> TranscodeOutcome): (r: Response)
    ensures FrontEnd(payload).Err? ==> r == Raised(InvalidBase64)
    ensures r.Converted? <==> FrontEnd(payload).Ok? && transcode(FrontEnd(payload).value).Transcoded?
    ensures r.Converted? ==> r.body.mimeType == "audio/mpeg" && r.body.fileName == "converted.mp3"
    ensures r.Converted? ==> Decode(r.body.audioMp3Base64) == Ok(transcode(FrontEnd(payload).value).mp3)
    ensures r.Raised? ==> r.error == InvalidBase64 || r.error == TranscodeFailure
    ensures r == Raised(TranscodeFailure) <==> FrontEnd(payload).Ok? && transcode(FrontEnd(payload).value).TranscodeFailed?
    ensures r.Unhandled? <==> FrontEnd(payload).Ok? && transcode(FrontEnd(payload).value).Crashed?
  {
    match FrontEnd(payload)
    case Err(e) => Raised(e)
    case Ok(raw) =>
      match transcode(raw)
      case Crashed => Unhandled
      case TranscodeFailed => Raised(TranscodeFailure)
      case Transcoded(mp3) =>
        DecodeEncode(mp3);
        Converted(AudioOut(Encode(mp3), MimeType, FileName))
  }

  /** On a payload the front end rejects, what the transcoder would do makes no difference. */
  lemma RejectedBeforeTranscoding(payload: string, t1: seq<byte> -> TranscodeOutcome, t2: seq<byte> -> TranscodeOutcome)
    requires FrontEnd(payload).Err?
    ensures ConvertAudio(payload, t1) == ConvertAudio(payload, t2) == Raised(InvalidBase64)
  {
  }

  /** A data URI from a browser: its prefix is cut off at the comma and `AAAA` decodes to three zero bytes. */
  lemma DataUriExample(payload: string)
    requires payload == "data:audio/wav;base64" + "," + "AAAA"
    ensures Normalize(payload) == "AAAA"
    ensures FrontEnd(payload) == Ok([0, 0, 0])
  {
    DataUriHasNoSpace(payload);
    EncodeThreeZeros([0, 0, 0]);
    FrontEndDataUri(payload, "data:audio/wav;base64", [0, 0, 0]);
  }

  lemma DataUriHasNoSpace(payload: string)
    requires payload == "data:audio/wav;base64" + "," + "AAAA"
    ensures RemoveSpace(payload) == payload
  {
    assert NoSpace("data:audio/wav;base64");
    NoSpaceJoin("data:audio/wav;base64", ",");
    NoSpaceJoin("data:audio/wav;base64" + ",", "AAAA");
  }

  lemma EncodeThreeZeros(g: seq<byte>)
    requires g == [0, 0, 0]
    ensures Encode(g) == "AAAA"
  {
    EncodeOneQuantum(g);
    assert CharOf(0) == 'A';
  }

  /**
   * `not-base64!!` is the 400 error: its `-` is outside the alphabet. CPython
   * rejects it too, since without `-` and `!` it has 9 data characters.
   */
  lemma InvalidCharacterExample(payload: string)
    requires payload == "not-base64!!"
    ensures FrontEnd(payload) == Err(InvalidBase64)
  {
    assert NoSpace(payload) && ',' !in payload;
    assert Normalize(payload) == payload;
    assert |payload| == 12;
    assert Pad(payload) == payload;
    assert !InAlphabet(payload[3]);
  }
}
