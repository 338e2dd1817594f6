# Blob name sanitizing and fit-mode dispatch, in Dafny

This project models the first-party logic of a small image-upload app (`app.py`).
The app removes an image's background, fits it into a 600×600 square and can
upload the PNG to cloud blob storage. Two pieces of logic are modelled:

- `sanitize_blob_name` (app.py:11-14). It turns the uploaded file's name into
  the name of the blob. It drops the final extension (`re.sub(r"\.[^.]+$", "", name)`),
  strips surrounding whitespace, turns spaces into `_`, deletes every character
  outside `[A-Za-z0-9_-]`, and appends `_`, the first 8 hex digits of a fresh
  UUID4, and `.png`.
- The framing-mode dispatch (app.py:50-54). A mode label starting with
  `"Contain"` pads the image onto a white background. That background is fully
  transparent when the transparency box is ticked and opaque otherwise. Any
  other label crops. Both calls target 600 pixels and pass the upscaling flag through.

Files:

- `name_text.dfy`, module `NameText`: the four string steps of lines 12-13. Each
  is a function on Python strings, modelled as sequences of code points. The
  lemmas say how the steps behave on concatenations and padding.
- `blob_name.dfy`, module `BlobName`: the composed `Stem`, `Base` and
  `SanitizeBlobName`, the properties of the blob name, and worked examples.
- `fit_mode.dfy`, module `FitMode`: the dispatch, as a function returning the
  fit call that is made (`FitCall`).

Modelling decisions:

- The UUID is random in the program. Here its 8-character fragment is a
  parameter, and the function requires it to be 8 lowercase hex digits, which
  is what `uuid.uuid4().hex[:8]` always yields.
- In the regex `\.[^.]+$`, `[^.]` also matches a newline. The greedy run after
  the last dot therefore always reaches the true end of the string, so `$`'s
  second position (just before a final newline) never adds a match. The
  pattern matches exactly when the last dot has at least one character after
  it, and it removes everything from that dot on (`ExtensionAt`, `StripExtension`).
- `str.strip()` removes exactly the characters for which Python's
  `str.isspace()` holds. `IsWhitespace` lists them by code point: ASCII 9-13,
  28-31 and 32, plus U+0085, U+00A0, U+1680, U+2000-U+200A, U+2028, U+2029,
  U+202F, U+205F and U+3000.
- The character ranges in `[A-Za-z0-9_\-]` are ASCII-only, as in Python's `re`
  without flags (`IsNameChar`).

## Model

| member | source | states |
|---|---|---|
| NameText.LastDot | app.py:12 | the result is -1 or the index of a '.', and no '.' follows it |
| NameText.StripExtension | app.py:12 | the result is a prefix of the name; it is shorter exactly when `\.[^.]+$` matches, and then it ends where the match starts; otherwise the pattern matches nowhere |
| NameText.ExtensionAtUnique | app.py:12 | `\.[^.]+$` can match at one position at most |
| NameText.StripExtensionAt | app.py:12 | wherever the pattern matches, the name is cut exactly there |
| NameText.StripExtensionKeepsInnerDots | app.py:12 | only the final extension goes: "a.b.c" becomes "a.b" |
| NameText.StripExtensionTrailingDot | app.py:12 | a dot with nothing after it is not an extension: "a.b." is unchanged |
| NameText.StripExtensionPrefix | app.py:12 | a dot-free prefix (such as leading whitespace) does not move the cut: StripExtension(p + s) == p + StripExtension(s) |
| NameText.LeadingWhitespace | app.py:12 | counts the leading whitespace of `str.strip()`: all of it is whitespace and the next character is not |
| NameText.TrailingWhitespace | app.py:12 | the same for the trailing whitespace |
| NameText.Strip | app.py:12 | `str.strip()`: the result sits right after the leading whitespace, only whitespace follows it, and neither of its ends is whitespace |
| NameText.StripExact | app.py:12 | Strip is determined by its contract: whitespace padding around a piece whose ends are not whitespace is removed, and nothing more |
| NameText.StripTrimmed | app.py:12 | a string without whitespace at either end is unchanged by Strip |
| NameText.LeadingWhitespaceIgnoredByStrip | app.py:12 | leading whitespace never survives Strip |
| NameText.StripPadding | app.py:12 | whitespace added on both sides never survives Strip: Strip(p + t + q) == Strip(t) |
| NameText.ReplaceSpaces | app.py:12 | `.replace(" ", "_")` keeps the length, turns every space at position i into '_' at position i, keeps every other character in place, and leaves no space |
| NameText.ReplaceSpacesAppend | app.py:12 | space replacement splits over concatenation |
| NameText.KeepNameChars | app.py:13 | the filter's result holds only `[A-Za-z0-9_-]` characters and is no longer than its input |
| NameText.KeepNameCharsSubsequence | app.py:13 | the filter only deletes: its result is a subsequence of the input (no reordering, no insertion) |
| NameText.KeepNameCharsCounts | app.py:13 | every name character is kept as often as it occurs, and every other character occurs zero times |
| NameText.KeepNameCharsAppend | app.py:13 | the filter splits over concatenation |
| NameText.KeepNameCharsClean | app.py:13 | a string of name characters passes the filter unchanged |
| NameText.KeepNameCharsIdempotent | app.py:13 | the filter is idempotent |
| NameText.InteriorSpaceBecomesUnderscore | app.py:12-13 | an interior space turns into exactly one '_' of the filtered stem |
| NameText.InteriorWhitespaceDropped | app.py:12-13 | any other interior whitespace (tab, newline, ...) disappears from the filtered stem |
| BlobName.Stem | app.py:12 | the text the filter runs on is never longer than the name and holds no space |
| BlobName.Base | app.py:12-13 | the base holds only name characters and is never longer than the name |
| BlobName.TailHasOneDot | app.py:14 | the appended tail "_" + fragment + ".png" is 13 characters long and has its only dot before "png" |
| BlobName.SanitizeBlobName | app.py:11-14 | the blob name ends with "_" + fragment + ".png"; everything before that tail is exactly the base of the name, and it is a name character (no space, dot or path separator); it is obtained from the stem by deleting characters only; the blob is at most 13 characters longer than the file name; its only dot is the one of ".png" |
| BlobName.CleanTextUnchanged | app.py:12-13 | a string of name characters comes through strip, replace and the filter unchanged |
| BlobName.CleanBaseFixed | app.py:12-13 | a base that is already clean is its own base |
| BlobName.BaseIdempotent | app.py:12-13 | computing the base twice gives the same result as computing it once |
| BlobName.NameCharsAppend | app.py:13-14 | the base followed by "_" and a hex fragment is still made of name characters |
| BlobName.CleanTextWithExtension | app.py:12-13 | a clean text followed by a dot and a dot-free, non-empty extension has that text as its base |
| BlobName.CleanTextWithPng | app.py:12-14 | a clean text followed by ".png" has that text as its base |
| BlobName.ResanitizeKeepsFragment | app.py:11-14 | sanitizing a blob name again keeps its base and old fragment and only appends a new fragment |
| BlobName.LeadingWhitespaceIgnored | app.py:12 | whitespace in front of the file name never reaches the blob name |
| BlobName.WhitespaceAroundStemIgnored | app.py:12 | whitespace on either side of the stem, as in "  my photo  .png", becomes neither '_' nor anything else |
| BlobName.BaseWithoutDots | app.py:12-13 | for a name without a dot the extension step changes nothing: the base is strip, replace and filter alone |
| BlobName.WhitespaceAroundDotlessNameIgnored | app.py:12 | whitespace around a name without an extension, as in "my photo  ", never reaches the base |
| BlobName.InteriorWhitespaceOfBase | app.py:12-13 | whitespace between two dot-free parts that are trimmed on the outside becomes one '_' of the base if it is a space and disappears otherwise |
| BlobName.ExampleSpacesBeforeFinalDot | app.py:12-13 | a final dot with nothing after it keeps the spaces before it interior: the base of "a  ." is "a__" |
| BlobName.StemOfTrimmedCut | app.py:12 | a cut that leaves a text with no space and no whitespace at its ends is the stem itself |
| BlobName.ExampleInnerDotsStem | app.py:12 | the stem of "a.b.c" is "a.b" |
| BlobName.ExampleInnerDots | app.py:12-13 | the base of "a.b.c" is "ab" |
| BlobName.ExampleInnerDotsBlob | app.py:11-14 | "a.b.c" with fragment "0123abcd" is stored as "ab_0123abcd.png" |
| FitMode.SelectFit | app.py:50-54 | a label starting with "Contain" selects the padding fit, and only such a label does; its background is white, with alpha 0 exactly when the transparency box is ticked and alpha 255 exactly when it is not; both fits target 600 and pass the upscaling flag through |
| FitMode.RadioOptionsSelect | app.py:50-54 | the radio option "Contain (padding)" selects the padding fit and "Cover (recorte)" the cropping fit |
| FitMode.TransparencyOnlyAffectsContain | app.py:50-54 | the transparency box never turns a crop into a pad, nor changes a crop call |

## Left out

- The Streamlit UI (app.py:16-28, 41, 56, 64-65): page setup, radio, checkboxes, uploader, image display and download button. This is interactive I/O. The two radio labels of line 21 appear only as constants.
- Background removal with `rembg.remove` (app.py:45). It is a call into a machine-learning model.
- Decoding with PIL, RGBA conversion and PNG encoding into a buffer (app.py:40, 59-62). These are a foreign library and byte I/O.
- The secrets lookup and the Azure Blob client (app.py:31-37, 68-84): connection, container, upload, public URL and error display. This is network plumbing. The call `sanitize_blob_name(uploaded_file.name)` at line 73 is modelled only through its callee.
- The randomness of `uuid.uuid4()` (app.py:14). Its 8-digit fragment is a parameter instead.
- `trim_alpha`, `to_square_contain` and `to_square_cover` (called at app.py:47, 52, 54). Their bodies are not in `app.py`; lines 8-9 only hold a placeholder comment. The model records which of them is called and with which arguments (`FitCall`), not what they do to the image. Trimming, scaling, centring and cropping therefore have no code here to be checked against.
- Python strings may hold lone surrogate code points; Dafny's `char` cannot, so such names are outside the model.
