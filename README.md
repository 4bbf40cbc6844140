# base64-2-mp3 in Dafny

A model of the one endpoint of base64-2-mp3, `POST /to-mp3` (`convert_audio` in
app.py). The endpoint takes a Base 64 text, possibly line-wrapped and possibly
behind a data-URI prefix such as `data:audio/wav;base64,`. It turns the text into
audio bytes, has `ffmpeg` transcode them to MP3, and answers with the MP3 bytes in
Base 64 together with a fixed MIME type and file name.

The model is written as pure functions with lemmas about them, in four modules:

- `Wrappers` — `Option` and `Result`.
- `PyStr` — the Python string operations that app.py:19 chains together:
  - `str.split()` with no argument, on Python's whitespace set;
  - `"".join`;
  - `str.split(",")[-1]`.

  Each gets a reference definition (`RemoveSpace`, `IsLastField`) and lemmas that
  connect the two.
- `Base64` — Base 64 as section 4 of RFC 4648 defines it. It contains:
  - the Table 1 alphabet;
  - an encoder (`base64.b64encode`, app.py:42);
  - a strict decoder (`base64.b64decode`, app.py:23), which accepts exactly the
    well-formed texts;
  - the round trip in both directions, with re-encoding exact exactly when the pad
    bits of section 3.5 are zero.
- `Converter` — the handler itself:
  - normalisation (app.py:19), padding (app.py:20-21) and decoding, with every
    failure turned into `400 "Invalid Base-64"` (app.py:22-25);
  - the transcoder as a function parameter, whose `ffmpeg` error becomes the 500
    error (app.py:37-40);
  - the response `AudioOut` with its two fixed fields (app.py:12-15, 42-44).

The transcoder is the function parameter `transcode: seq<byte> -> TranscodeOutcome`.
The temporary directory, the file writes and reads, and the `ffmpeg` process are
all folded into it. It has three outcomes:
- MP3 bytes;
- `ffmpeg` exiting with an error, which app.py:39-40 turns into the 500 error;
- any other exception, such as `ffmpeg` missing from the path or an `OSError` from
  the directory or a file. The handler does not catch these, so they become the
  `Unhandled` response, the framework's own server error.

The 500 error does not carry ffmpeg's error output. The code calls
`subprocess.run(cmd, check=True)` without capturing it, so `e.stderr` is always
`None`. The source file also holds the arrow as the three characters `â†’`
(U+00E2 U+2020 U+2019). `TranscodeFailure` is therefore the constant
`HttpError(500, "FFmpeg error â†’ None")`.

## Model

| member | source | states |
|---|---|---|
| PyStr.IsSpace | app.py:19 | the characters Python's `str.isspace` accepts, which `split()` splits on: U+0009-U+000D, U+001C-U+0020, U+0085, U+00A0, U+1680, U+2000-U+200A, U+2028, U+2029, U+202F, U+205F and U+3000 |
| PyStr.RemoveSpace | app.py:19 | the payload with its whitespace deleted: no whitespace is left, nothing gets longer, and text without whitespace is unchanged |
| PyStr.RemoveSpaceAppend | app.py:19 | deleting whitespace distributes over concatenation |
| PyStr.RemoveSpaceIdempotent | app.py:19 | deleting whitespace a second time changes nothing |
| PyStr.SplitWordsFromConcat | app.py:19 | joining what the `split()` scan returns gives the word read so far followed by the rest without its whitespace |
| PyStr.SplitWordsFromWords | app.py:19 | every word the `split()` scan returns is non-empty and holds no whitespace |
| PyStr.SplitWords | app.py:19 | every word of `s.split()` is non-empty and holds no whitespace |
| PyStr.Concat | app.py:19 | `"".join` of whitespace-free words is whitespace-free |
| PyStr.NoSpaceAppend | app.py:19 | a concatenation is whitespace-free if and only if both parts are |
| PyStr.JoinSplitWords | app.py:19 | `"".join(s.split())` is `s` with exactly its whitespace characters deleted, in order; every word of `s.split()` is non-empty and whitespace-free |
| PyStr.Last | app.py:19 | `xs[-1]` on a list with at least one element |
| PyStr.SplitOn | app.py:19 | `s.split(sep)` returns at least one field, so `[-1]` always exists |
| PyStr.JoinSplitOnFrom | app.py:19 | joining the fields of the split scan with the separator gives back the field read so far followed by the rest of the text |
| PyStr.JoinSplitOn | app.py:19 | `sep.join(s.split(sep)) == s`: splitting loses nothing |
| PyStr.LastSplitOnFrom | app.py:19 | the last field of the split scan is the last field of the whole text |
| PyStr.LastFieldExtend | app.py:19 | text ending in the separator, put in front, leaves the last field unchanged |
| PyStr.LastFieldUnique | app.py:19 | a text has at most one last field; `LastSplitOn` shows that `split(sep)[-1]` is one, so it is the one |
| PyStr.LastSplitOn | app.py:19 | `s.split(sep)[-1]` is the suffix of `s` after its last separator, or all of `s` when it has none |
| PyStr.LastSplitOnIs | app.py:19 | `s.split(sep)[-1] == t` for a separator-free `t` if and only if `s` is `t` or ends in the separator followed by `t` |
| Converter.Normalize | app.py:19 | the normalised payload holds no whitespace and no comma; it is the last comma field of the whitespace-free payload, and the whole of it when the payload has no comma |
| Converter.NormalizeIs | app.py:19 | the normalised payload is a comma-free `t` if and only if the whitespace-free payload is `t` or ends in `,` followed by `t` |
| Converter.NormalizeIdempotent | app.py:19 | normalising twice is normalising once |
| Converter.Repeat | app.py:21 | `"=" * n` has length `n` and only that character |
| Converter.Pad | app.py:20-21 | the padded length is a multiple of 4; the input is a prefix; at most 3 characters are added, all `=`; a length already a multiple of 4 is left alone |
| Converter.PadIdempotent | app.py:20-21 | padding twice is padding once |
| Converter.FrontEnd | app.py:19-25 | every failure is `400 "Invalid Base-64"`; it succeeds if and only if the padded normalised payload is well-formed Base 64 |
| Converter.FrontEndRoundTrip | app.py:19-23 | an encoding is unchanged by normalising and padding, and `FrontEnd(Encode(b)) == Ok(b)` for every byte sequence `b` |
| Converter.EncodeHasNoSpaceOrComma | app.py:19 | an encoding holds neither whitespace nor a comma, so normalisation leaves it whole |
| Converter.FrontEndIgnoresSpace | app.py:19 | whitespace anywhere in the payload changes neither the normalised text nor the outcome |
| Converter.FrontEndIgnoresInsertedSpace | app.py:19-23 | a payload that is an encoding of `b` with whitespace inserted anywhere decodes to `b` |
| Converter.FrontEndDataUri | app.py:19-23 | a payload that is an arbitrary prefix, a comma and an encoding of `b` (whitespace aside) normalises to the encoding and decodes to `b` |
| Converter.FrontEndRejectsOneModFour | app.py:20-25 | a normalised payload of length 1 mod 4 is padded with `===` and rejected by the strict decoder, so it is answered with the 400 error |
| Converter.FrontEndReencodes | app.py:22-23 | re-encoding the decoded bytes gives the padded normalised payload back if and only if its pad bits are zero |
| Converter.HttpError | app.py:25 | an `HTTPException(status, detail)` as raised at app.py:25 and app.py:40 |
| Converter.AudioOut | app.py:12-15 | the response model: the MP3 bytes in Base 64, the MIME type and the file name |
| Converter.TranscodeOutcome | app.py:27-42 | what the workspace and `ffmpeg` do with the decoded bytes: MP3 bytes, an `ffmpeg` failure (`CalledProcessError`, app.py:39), or any other exception of the directory, the files or the process |
| Converter.Response | app.py:22-44 | the endpoint's answer: a body (`return AudioOut(...)`, app.py:44), a raised `HTTPException` (app.py:25, 40), or an uncaught exception answered by the framework's generic server error |
| Converter.InvalidBase64 | app.py:25 | the error every decoding failure becomes: status 400, detail `Invalid Base-64` |
| Converter.TranscodeFailure | app.py:40 | the error an `ffmpeg` failure becomes: status 500, detail `FFmpeg error â†’ None` |
| Converter.MimeType | app.py:14 | the fixed MIME type `audio/mpeg` |
| Converter.FileName | app.py:15 | the fixed file name `converted.mp3` |
| Converter.ConvertAudio | app.py:18-44 | a decoding failure is the 400 error; the answer is a body if and only if decoding and transcoding both succeed; a body carries `audio/mpeg` and `converted.mp3` and a text that decodes to the transcoder's MP3 bytes; every raised error is the 400 or the 500 one; the 500 error is given exactly when `ffmpeg` fails, and any other exception of the workspace or the transcoder goes uncaught (`Unhandled`) |
| Converter.RejectedBeforeTranscoding | app.py:22-27 | on a payload the decoder rejects, the answer is the 400 error whatever the transcoder would do |
| Converter.DataUriExample | app.py:19-23 | `data:audio/wav;base64,AAAA` normalises to `AAAA` and decodes to three zero bytes |
| Converter.InvalidCharacterExample | app.py:19-25 | `not-base64!!` is answered with the 400 error |
| Base64.CharOfTable | app.py:42 | `CharOf` is Table 1 of RFC 4648: values 0-25 are exactly the ones written `A`-`Z`, 26-51 `a`-`z`, 52-61 `0`-`9`, 62 `+` and 63 `/` |
| Base64.ValueOfTable | app.py:23 | under `ValueOf`, a character has a value if and only if it is one of the 64 characters of Table 1 |
| Base64.ValueOfCharOf | app.py:23 | every sextet has a character in the alphabet, and that character decodes to it |
| Base64.CharOfValueOf | app.py:23 | every alphabet character is the character of the value it decodes to |
| Base64.PadCharNotInAlphabet | app.py:21 | the padding character `=` is not in the alphabet |
| Base64.Encode | app.py:42 | an encoding of `n` bytes is `4 * ceil(n / 3)` characters long |
| Base64.EncodeQuanta | app.py:42 | an encoding is whole quanta, and at least one when there are bytes |
| Base64.EncodeCharacters | app.py:42 | every character of an encoding is in the alphabet or is `=` |
| Base64.EncodeWellFormed | app.py:42 | an encoding is well formed and its pad bits are zero |
| Base64.EncodePadBitsZero | app.py:42 | the bits a padded final quantum leaves over are zero in an encoding |
| Base64.EncodeGroup | app.py:42 | one group of 1 to 3 bytes is four characters |
| Base64.EncodeGroupLayout | app.py:42 | in the quantum of a group the first two are in the alphabet; the third is `=` exactly for one byte and the fourth exactly for fewer than three; every other character is in the alphabet |
| Base64.EncodeRfcVectorF | app.py:42 | `f` encodes as `Zg==`, the test vector of RFC 4648 section 10 |
| Base64.EncodeRfcVectorFo | app.py:42 | `fo` encodes as `Zm8=`, the test vector of RFC 4648 section 10 |
| Base64.EncodeRfcVectorFoo | app.py:42 | `foo` encodes as `Zm9v`, the test vector of RFC 4648 section 10 |
| Base64.DecodeRfcVectorFoo | app.py:23 | `Zm9v` decodes to `foo` |
| Base64.EncodeGroupDecodes | app.py:23 | the quantum of a group of 1 to 3 bytes decodes back to that group |
| Base64.DecodeQuantum | app.py:23 | a decoded quantum gives 1 to 3 bytes, and 3 when it is not the final one |
| Base64.DecodeQuantumInner | app.py:23 | a quantum that is not the final one is accepted if and only if all four characters are in the alphabet |
| Base64.DecodeQuantumFinal | app.py:23 | a final quantum is accepted if and only if it is well formed on its own |
| Base64.WellFormedStep | app.py:23 | text longer than one quantum is well formed if and only if its first quantum is alphabet characters and the rest is well formed |
| Base64.Decode | app.py:23 | a length that is not a multiple of 4 is an `IncorrectLength` failure; on success, `k` quanta give between `3k - 2` and `3k` bytes |
| Base64.DecodeEncode | app.py:23 | decoding undoes encoding: `Decode(Encode(b)) == Ok(b)` for every byte sequence |
| Base64.DecodeAcceptsWellFormed | app.py:22-25 | the decoder succeeds if and only if the text is well formed: alphabet characters only, a multiple of 4 long, with `=` only as the last one or two characters of the final quantum |
| Base64.EncodeDecode | app.py:23 | for text the decoder accepts, encoding the decoded bytes gives the text back if and only if its pad bits are zero |
| Base64.EncodeDecodePadBitsZero | app.py:23 | accepted text with zero pad bits is the encoding of what it decodes to |
| Base64.QuantumEncodes | app.py:23 | an accepted quantum, with zero pad bits when final, is the encoding of its bytes |

## Left out

- Routing and request parsing by the web framework are not modelled (app.py:3-10, 17). The request is its `audio_base64` string. The response model `AudioOut` (app.py:12-15) is the datatype of that name.
- The `extension` field and the input file name built from it (app.py:10, 29) are not modelled. They matter only to the transcoder, which is a parameter here.
- The temporary directory, the file write and read, and the `ffmpeg` process (app.py:27-38, and the read in 42) are not modelled. They are the `transcode` parameter, whose three outcomes are MP3 bytes, an `ffmpeg` error, or an uncaught exception.
- Base64.Decode: the model is the strict RFC 4648 section 4 decoder. `base64.b64decode` in its default non-validating mode is more lenient, and the model does not capture that:
  - it drops ASCII characters outside the alphabet;
  - it stops reading at the first complete padding sequence;
  - only text that is not ASCII it rejects outright.

  The model rejects every such text, always with the same 400 error.
- Converter.FrontEnd: it inherits the strict decoder, so it answers some payloads with the 400 error that the program accepts. Two examples:
  - `AAAA====` decodes in CPython to three zero bytes.
  - `AAA=A` is padded to `AAA=A===`; CPython stops at the complete padding `AAA=` and returns two zero bytes.
- Converter.FrontEndRejectsOneModFour: the rejection of a normalised length of 1 mod 4 holds for the strict decoder. CPython accepts some ASCII payloads of this length, such as `AAA=A` (it stops at the complete padding `AAA=`) and `AAAA!` (it drops the `!` and ignores the `===` after a complete quantum). Text that is not ASCII CPython rejects in any case.
- Base64.Decode: like CPython, it does not check that the pad bits of a padded final quantum are zero. `PadBitsZero` states that condition separately, and `EncodeDecode` proves what it decides.
- Base64.CharOf: the alphabet of Table 1 is written as character ranges rather than as a literal table.
- Python strings may hold lone surrogates, which a Dafny `char` cannot; such payloads are not modelled.
- The traceback chaining of the 500 error (`from e`, app.py:40) does not reach the client and is not modelled.
