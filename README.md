# MedTech Phase Simulator: the `/process` decision pipeline

The service takes an uploaded image and a phase label (`arterial` or
`venous`). It applies one of two fixed filters: a contrast boost for
arterial, a Gaussian blur for venous. It then returns the result as a PNG.
This project models the handler `process_medical_image` as one pure Dafny
function, `App.Process`, and proves what the handler promises about its
decisions.

The handler works through four guards in a fixed order:

1. The declared content type must be present and start with `image/`. If
   not, the result is 400 "Invalid file type. Please upload a valid image
   (JPG/PNG).".
2. The bytes must decode. If not, the result is 400 "Invalid image file.
   Could not process: " followed by the decoder's error text.
3. The phase label is lowered, then stripped. It must then equal
   `arterial` or `venous` exactly. If not, the result is 400 "Invalid phase.
   Must be 'arterial' or 'venous'.".
4. The filtered image must encode as PNG, and the response must be
   buildable. If not, the result is 500 "Error processing image: " followed
   by the error text. Building the response fails when the
   `Content-Disposition` header holds a character above U+00FF, because the
   web framework encodes header values as Latin-1 while it builds the
   response (inside the `try` at backend/app.py:115-135). The header's only
   variable text that can hold such a character is the upload's filename.

On success the response has media type `image/png`. Its
`Content-Disposition` header is
`inline; filename=processed_<normalised phase>_<upload filename>`.

Decoding, the two filters and PNG encoding are library calls on pixel data.
`App.Process` takes the decode outcome as a `Result<Img, string>`. It takes
the contrast filter, the blur filter and the encoder as function parameters.
The encoder may fail; the filters are taken as total functions (see "Left
out"). The model is therefore generic in the image type `Img` and the encoded
type `Png`.

Files:

- `wrappers.dfy`: `Option` and `Result`.
- `text.dfy` (module `Text`): the Python string operations the handler uses.
  These are `str.startswith`, `str.lower` and `str.strip()`. `Strip` scans
  from each end the way CPython's strip does. Whitespace is Python's
  `str.isspace()` set: ASCII 0x09–0x0D, 0x1C–0x20, and U+0085, U+00A0,
  U+1680, U+2000–U+200A, U+2028, U+2029, U+202F, U+205F and U+3000.
- `header.dfy` (module `Header`): Latin-1 encoding of a header value and the
  text of the `UnicodeEncodeError` CPython raises when a character does not
  fit: the first offending run, `\uXXXX` or `\UXXXXXXXX` for one character,
  decimal positions.
- `app.dfy` (module `App`): the phases, error kinds, response record and
  `Process`, with the lemmas about them.

Two details of the code:

- The handler lowers, then strips (backend/app.py:100).
  `Text.NormaliseCommutes` proves that the order does not matter in this
  model.
- The guard at backend/app.py:77 also rejects an empty content type.
  `App.ContentTypePrefixOnly` proves that the prefix test already rejects
  it, so that test never decides anything on its own.

## Model

| member | source | states |
|---|---|---|
| App.Process | backend/app.py:60-135 | Success exactly when the content type passes, the image decodes, the phase selects a filter, encoding that filter's output succeeds and the filename is Latin-1. On success: media type `image/png`, phase equal to the selected phase, header built from that phase's name and the filename, body equal to the encoder's output on the selected filter's result. Every failure carries 500 if it is an encode error and 400 otherwise |
| App.AcceptsContentType | backend/app.py:77 | The content-type guard: present, non-empty and starting with `image/`. Characterised by `App.ContentTypePrefixOnly` (exactly `image/` followed by any text) and `App.ContentTypeExamples` |
| App.SelectPhase | backend/app.py:100-112 | The dispatch: the normalised label compared exactly with `arterial`, then `venous`, otherwise no phase. Characterised by `App.SelectPhaseExact`, `App.SelectPhaseMatches` and `App.SelectPhaseNormalised` |
| App.ApplyFilter | backend/app.py:102-107 | The contrast filter for arterial, the blur filter for venous. Characterised by `App.ExactlyOneFilter` |
| App.Disposition | backend/app.py:126 | The header f-string `inline; filename=processed_{phase_lower}_{file.filename}`. Characterised by `App.SuccessHeader`, `App.DispositionInjective` and `App.DispositionLatin1` |
| App.Finish | backend/app.py:115-135 | The encode-and-respond block: the encoder's failure, then a header that is not Latin-1, each become 500 with "Error processing image: " and the error text; otherwise the PNG response. Characterised by `App.EncodeErrorIsServerError`, `App.WideFilenameIsServerError` and `App.SuccessHeader` |
| App.BadContentTypeRejected | backend/app.py:77-81 | A missing or non-`image/` content type gives 400 with the invalid-file-type detail, whatever the decode outcome, phase, filename, filters and encoder are |
| App.ContentTypePrefixOnly | backend/app.py:77 | A present content type passes exactly when it starts with `image/`, that is, when it is `image/` followed by any text at all. The separate emptiness test never decides anything |
| App.ContentTypeExamples | backend/app.py:77 | None, `""`, `IMAGE/PNG` and `text/plain` are rejected. `image/` and `image/x-not-really-an-image` are accepted: the test is case-sensitive and does not look at the bytes |
| App.DecodeErrorPrecedence | backend/app.py:83-100 | Once the content type passes, a decode failure gives 400 with "Invalid image file. Could not process: " followed by the error text, for every phase, valid or not |
| App.SelectPhaseExact | backend/app.py:100-112 | The label selects phase p exactly when its normalised form equals p's name, so arterial and venous exclude each other |
| App.SelectPhaseMatches | backend/app.py:100-107 | The label selects p exactly when some slice of it spells p's name in any mix of case and has only whitespace before and after it |
| App.SelectPhaseNormalised | backend/app.py:100 | Normalising a label first does not change which phase it selects |
| App.MixedCaseArterial | backend/app.py:100-104 | `" ArteriaL "` selects the arterial phase |
| App.UpperCaseVenous | backend/app.py:100-107 | `"\tVENOUS\n"` selects the venous phase |
| App.OtherNormalLabelRejected | backend/app.py:100-112 | A label with no upper-case letters and no whitespace at its ends selects nothing unless it is exactly `arterial` or `venous`. Prefixes such as `art`, longer phrases such as `arterial phase` and the empty string are all rejected |
| App.BlankPhaseRejected | backend/app.py:100-112 | A label made only of whitespace, including the empty label, selects no phase |
| App.InvalidPhaseRejected | backend/app.py:108-112 | With a passing content type and a decoded image, a label that selects no phase gives 400 with "Invalid phase. Must be 'arterial' or 'venous'.", whatever the encoder does |
| App.ExactlyOneFilter | backend/app.py:102-107 | On success the response phase is arterial exactly when the normalised label is `arterial`, and venous exactly when it is `venous`. The body is the encoding of the contrast filter's output for arterial and of the blur filter's output for venous |
| App.EncodeErrorIsServerError | backend/app.py:115-135 | After a good upload and a valid phase, an encoder failure gives 500 with "Error processing image: " followed by the error text |
| App.WideFilenameIsServerError | backend/app.py:115-135 | After a good upload, a valid phase and a successful encoding, a filename with a character above U+00FF gives 500 with "Error processing image: " followed by the codec's message about the header, and the position that message names is the offending filename position plus the length of the text in front of it |
| App.NarrowSpaceFilename | backend/app.py:122-135 | The arterial header for `scan` U+202F `AM.png` is not Latin-1, and the error text is `'latin-1' codec can't encode character '\u202f' in position 40: ordinal not in range(256)` |
| App.ChineseFilename | backend/app.py:122-135 | The venous header for `x` U+4E2D U+6587 `y` is not Latin-1, and the two adjacent characters are reported together: `'latin-1' codec can't encode characters in position 35-36: ordinal not in range(256)` |
| App.DispositionLatin1 | backend/app.py:122-128 | The header is Latin-1 exactly when the filename is, and the first character that does not fit is the filename's, moved along by the fixed text in front |
| App.StatusClasses | backend/app.py:77-135 | In the model, the status is 200 exactly on success and 500 exactly on a failure of the encode-and-respond block (the encoder, or a header that is not Latin-1). Every other failure is 400. The filters are total in the model, so the framework's own 500 for an exception in a filter is not among the outcomes |
| App.SuccessHeader | backend/app.py:100-128 | On success the media type is `image/png`. The header is `inline; filename=processed_` + normalised phase + `_` + filename, and the normalised phase is `arterial` or `venous`, never the raw label |
| App.DispositionInjective | backend/app.py:126 | Two success headers are equal only when their phases and their filenames are equal, so a header determines both |
| Text.IsSpace | backend/app.py:100 | Python's `str.isspace()` for one character, the set `strip()` removes: ASCII 0x09–0x0D and 0x1C–0x20, U+0085, U+00A0, U+1680, U+2000–U+200A, U+2028, U+2029, U+202F, U+205F and U+3000. Used by `Text.SkipSpace`, `Text.BackSpace` and `Text.StripSplits` |
| Text.StartsWith | backend/app.py:77 | `str.startswith(prefix)`: the first `|prefix|` characters are the prefix. Characterised by `App.ContentTypePrefixOnly` |
| Text.Lower | backend/app.py:100 | `str.lower()` character by character over `Text.LowerChar`. Characterised by `Text.LowerIdempotent` and `Text.LowerChar`'s contract |
| Text.Strip | backend/app.py:100 | `str.strip()`: the slice between `Text.SkipSpace` and `Text.BackSpace`. Characterised by `Text.StripSplits` and `Text.StripAt` |
| Text.Normalise | backend/app.py:100 | `phase.lower().strip()`. Characterised by `Text.NormaliseMatches`, `Text.NormaliseIdempotent` and `Text.NormaliseCommutes` |
| Text.LowerChar | backend/app.py:100 | Lowering a character sends `A`–`Z` to the matching letter of `a`–`z`, leaves every other character as it is, leaves no upper-case ASCII letter and keeps whether the character is whitespace |
| Text.SkipSpace | backend/app.py:100 | The start index `strip()` keeps: everything before it is whitespace and the character at it is not |
| Text.BackSpace | backend/app.py:100 | The end index `strip()` keeps: everything after it is whitespace and the character before it is not, unless the kept part is empty |
| Text.StripSplits | backend/app.py:100 | `strip()` keeps a slice with whitespace only before and after it and none at its own ends |
| Text.StripAt | backend/app.py:100 | Any slice with whitespace only around it and none at its own ends is exactly what `strip()` returns |
| Text.LowerIdempotent | backend/app.py:100 | Lowering twice is the same as lowering once |
| Text.NormaliseCommutes | backend/app.py:100 | `s.lower().strip()` equals `s.strip().lower()` |
| Text.NormaliseIdempotent | backend/app.py:100 | Normalising an already normalised phase leaves it unchanged |
| Header.Latin1 | backend/app.py:122-128 | Every character fits in one Latin-1 byte, so the framework can encode the header value. Characterised by `Header.FirstWideFound` and `App.DispositionLatin1` |
| Header.FirstWide | backend/app.py:122-128 | The first position, from a given one, whose character is above U+00FF, or the end: every character before it fits in Latin-1 |
| Header.WideRunEnd | backend/app.py:122-128 | The end of the run of characters above U+00FF that the codec reports together |
| Header.FirstWideFound | backend/app.py:122-128 | The text is Latin-1 exactly when the scan finds no offending character |
| Header.FirstWideAfter | backend/app.py:122-128 | A Latin-1 prefix moves the first offending position along by its length |
| Header.Escape | backend/app.py:130-135 | The escape the error text uses for a character above U+00FF is a backslash, then `u` and four lower-case hexadecimal digits up to U+FFFF, or `U` and eight above it, and the digits spell the code point |
| Header.EncodeErrorText | backend/app.py:130-135 | The codec's message, `str(e)` at backend/app.py:134, starts with `'latin-1' codec can't encode character` and ends with `ordinal not in range(256)`; `App.NarrowSpaceFilename` and `App.ChineseFilename` pin down its one-character and its run form |
| Header.DecimalValue | backend/app.py:130-135 | The decimal position in the error text reads back as the position |
| Header.HexPadValue | backend/app.py:130-135 | Zero-padded lower-case hexadecimal reads back as the number when it fits in the width |
| Text.NormaliseMatches | backend/app.py:100-105 | For a target with no whitespace at its ends, the normalised label equals the target exactly when the raw label is the target in any case with only whitespace around it |

## Left out

- Decoding (`Image.open(...).convert("RGB")`, backend/app.py:89), the 1.7 contrast enhancement (backend/app.py:50-51), the radius-2 Gaussian blur (backend/app.py:58) and PNG encoding (backend/app.py:116-118) are floating-point pixel work done by the imaging library. The model takes the decode outcome as an input and the filters and encoder as unconstrained function parameters. Pixel-level claims are therefore not modelled: equal dimensions, higher contrast, and a blur that leaves a uniform image unchanged.
- The `quality=95` argument to the PNG save (backend/app.py:117) has no effect on PNG output and is not modelled.
- Routing, multipart parsing and `await file.read()` (backend/app.py:60-64, 85) belong to the web framework. A request without a `file` or `phase` field is rejected by the framework before the handler runs, so that case is not part of this model.
- The in-memory buffer and the response streaming (backend/app.py:116-123) are plumbing. The model keeps only the encoder's outcome and the response's media type and header.
- The Latin-1 encoding of header values is done by the web framework, and the error text comes from CPython's `UnicodeEncodeError`. Neither is part of this model's source. `Header` follows their known behaviour: the whole value is encoded, and the first run of characters above U+00FF is reported. The filename is placed in the header unquoted and otherwise unchanged, exactly as the code does.
- The two filters (backend/app.py:102-107) run outside any `try`. An exception in one of them would reach the framework, which answers with its own generic 500. The model takes the filters as total functions, so it never produces that 500. On an RGB image that has already decoded, these filters are not expected to raise.
- A `file.filename` of `None` (Python would format it as the text `None`) is not modelled. The filename is an ordinary string.
- CORS middleware, logging, the `/` and `/health` endpoints and server start-up (backend/app.py:9-43, 137-140) carry no decision logic and are not modelled.
- Text.LowerChar: lowers only the ASCII letters A–Z and leaves every other character as it is. Python's `str.lower()` also lowers non-ASCII letters and can lengthen a string: `İ` (U+0130) becomes `i` followed by a combining dot. As far as the Unicode case tables go, the only non-ASCII characters whose lower case contains an ASCII letter are U+0130 and the Kelvin sign U+212A, which becomes `k`. Neither can make a label normalise to `arterial` or `venous`, so the phase decision should be the same as Python's.
- Determinism (the same request gives the same response twice) holds because `App.Process` is a function. It is not stated separately.
