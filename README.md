# Segmentation-mask and poem-illustration orchestration

This project models the request and selection logic of three generator scripts.
The scripts ask an image-generation service (Gemini, model
`gemini-3-pro-image-preview`) for a segmentation mask of an artwork, fit the mask
to the artwork's size, ask a follow-up question about the mask's regions, and
generate one illustration per poem keyword:

- `generate_segmentation.py` reads the API key and tries the candidate models in
  order until one returns an image. It saves the first image part as
  `outputs/segmentation_mask.png`, resampled with NEAREST only when the size
  differs from the artwork's. It then illustrates every poem into
  `outputs/poem_{keyword}.png`, whether or not a mask was obtained.
- `tests/generate_segmentation_lourmarin.py` makes a single mask request with no
  fallback and no `try`. A `mask_saved` flag guards `exit(1)`. A text-only
  follow-up request then replays the first prompt, the artwork, the model's mask
  reply and a new question, in that order. The non-empty text parts, each
  followed by `\n`, are written to the metadata file, even when the result is empty.
- `tests/generate_poem_images_lourmarin.py` reads the key and illustrates every
  poem into `images/lourmarin/lourmarin_{keyword}.png`.

The outside world is modelled as values, in module `Service`:

- The service is a total function `Client` from a `Request` to an `Outcome`.
  An outcome is `ServiceError` when the call raises, a `Response` with its
  ordered parts, or `PartsMissing` when the response has no candidate content, so
  `response.parts` is `None` and looping over it raises `TypeError`.
- A part is `ImagePart(width, height, data)` or `TextPart(Option<string>)`.
- Images are symbolic. `Decode` gives an image of the part's size.
  `NearestResized(src, w, h)` records a NEAREST resize to `w x h`. No pixel values are modelled.
- The file system is a map from path to `PngFile` or `TextFile`. Saving a file is a map update.

Each script is a method `RunScript` proved equal to a function `ScriptTrace`.
The trace holds the final files, the requests issued in order, and how the run
ended: `Completed`, `Exited(code)`, or `Raised` for an uncaught exception.
The loops of the scripts are methods with invariants: the key-line search, the
candidate loop, the part scans, the text accumulator and the per-keyword loop.
Each is proved against a specification function, and the properties are lemmas
about those functions. In `generate_segmentation.py` everything after the key
is read is the function `KeyedTrace`, and the lemmas about the mask and the poem
files are stated for it with the key as a parameter.

The key parser is shared by all three scripts, because the code is identical at
lines 11-15 of each. The poem loop is shared by `generate_segmentation.py` and
`tests/generate_poem_images_lourmarin.py`, parametrised by the output prefix.
The mask decode paths (`part.as_image()` and
`Image.open(io.BytesIO(part.inline_data.data))`) are the single function `Decode`.

## Notes on the scripts


- The Lourmarin segmentation script has no fallback chain. Its one mask call is
  not wrapped in `try`, so a service error ends the run (`Raised`).
- `generate_segmentation.py` never requests region metadata.
- `generate_segmentation.py` reports a failed mask only through printed lines, then goes on to the poems.
- The candidate list in `generate_segmentation.py` has a single model. The
  fallback lemmas are stated for any list.

## Model

| member | source | states |
|---|---|---|
| `EnvKey.LoadApiKey` | generate_segmentation.py:11-15 | the line loop returns the key of the first key line, and returns a key exactly when some line starts with `VITE_GEMINI_API_KEY=` |
| `EnvKey.KeyFromFirstKeyLine` | tests/generate_segmentation_lourmarin.py:11-15 | if line `i` is the first key line, the key is taken from line `i` |
| `EnvKey.LaterLinesIgnored` | tests/generate_poem_images_lourmarin.py:11-15 | once a key line has been read, appending more lines (key lines included) does not change the key |
| `EnvKey.NoKeyWithoutKeyLine` | generate_segmentation.py:11-15 | no key is found exactly when no line is a key line |
| `EnvKey.KeyValueIsRestOfLine` | generate_segmentation.py:14 | the key is the stripped line after the prefix: the first `=` is the one that ends the prefix |
| `EnvKey.KeyValueKeepsValue` | tests/generate_poem_images_lourmarin.py:14 | for a line `prefix + v + whitespace`, the key is exactly `v`; an `=` or a leading blank inside `v` is kept |
| `EnvKey.StripKeyLine` | tests/generate_segmentation_lourmarin.py:13-14 | on a key line, `strip()` only trims the end and keeps the whole prefix |
| `EnvKey.SplitOnce` | generate_segmentation.py:14 | `split("=", 1)` gives one piece iff there is no `=`; otherwise `before + "=" + after` is the input and `before` holds no `=` |
| `EnvKey.SplitOnceAtFirst` | tests/generate_poem_images_lourmarin.py:14 | splitting happens at the first `=`, wherever it is |
| `EnvKey.TrimStart` | generate_segmentation.py:14 | the result is a suffix of the input; every character removed is whitespace; it does not start with whitespace |
| `EnvKey.TrimEnd` | tests/generate_segmentation_lourmarin.py:14 | the result is a prefix of the input; every character removed is whitespace; it does not end with whitespace |
| `EnvKey.LinesJoinToText` | generate_segmentation.py:11-12 | the lines that `for line in f` yields concatenate back to the whole file |
| `EnvKey.LinesAreLines` | tests/generate_segmentation_lourmarin.py:11-12 | every line holds `\n` only at its end, and every line but the last ends with `\n` |
| `Selection.FirstImage` | generate_segmentation.py:44-45 | gives the index of the first part with inline data, with no image part before it; gives nothing iff no part has inline data |
| `Selection.FindImage` | tests/generate_poem_images_lourmarin.py:76-82 | the part scan with `break` finds exactly the first image part |
| `Selection.FitToArtwork` | generate_segmentation.py:48-50 | the result is always `(w, h)`; an image of size `(w, h)` is returned unchanged; otherwise the result is the NEAREST resize of the image |
| `Selection.MaskOf` | tests/generate_segmentation_lourmarin.py:40-45 | the mask taken from a reply (first image part, decoded and fitted) has size `(w, h)` |
| `Illustrations.PoemPathInjective` | tests/generate_poem_images_lourmarin.py:65 | two keywords with the same output path are the same keyword |
| `Illustrations.Illustrate` | generate_segmentation.py:92-109 | a keyword's status is `Failed` iff its call raised or its response had no parts (`TypeError` caught), and `Saved` iff the reply has an image part; a saved image is the decoded first image part |
| `Illustrations.RequestIllustration` | tests/generate_poem_images_lourmarin.py:69-86 | the `try` body for one keyword gives exactly the status `Illustrate` specifies |
| `Illustrations.WrittenOnlyPoemPaths` | generate_segmentation.py:89-103 | the poem loop writes only to `prefix + keyword + ".png"` paths |
| `Illustrations.WrittenAt` | tests/generate_poem_images_lourmarin.py:64-86 | with distinct keywords, a keyword's file holds its own first image when one was returned, and is not written otherwise |
| `Illustrations.IllustrateAll` | generate_segmentation.py:88-109 | every keyword is requested in order, with prompt = instruction + `\n` + poem, whatever happened to earlier keywords; the report and the files written follow `Illustrate` |
| `Segmentation.FirstSuccess` | generate_segmentation.py:32-57 | selects the first candidate whose response has an image part; every earlier candidate failed; selects nothing iff every candidate fails |
| `Segmentation.FallbackSelectsFirstWorking` | generate_segmentation.py:54-60 | if candidates `0..k-1` raise or return no image and candidate `k` yields one, candidate `k` is selected, `k + 1` candidates are called, and the mask is taken from candidate `k`'s reply |
| `Segmentation.Tried` | generate_segmentation.py:32-60 | the number of candidates called never exceeds the list |
| `Segmentation.MaskOutcome` | generate_segmentation.py:32-53 | a mask is obtained iff some candidate yields an image, and it always has the artwork's size |
| `Segmentation.TryCandidate` | generate_segmentation.py:33-60 | one candidate gives a mask iff its call returns parts with an image part; the mask is the first image part, decoded and fitted to the artwork |
| `Segmentation.RequestMask` | generate_segmentation.py:32-60 | candidates are called in list order, each at most once, up to and including the first that yields an image; the mask returned is `MaskOutcome`; the mask file is written iff a mask was obtained |
| `Segmentation.ExhaustionFindsNoMask` | generate_segmentation.py:32-60 | when no candidate yields an image, every candidate is called and there is no mask |
| `Segmentation.RunScript` | generate_segmentation.py:11-109 | the script's files, calls and end follow `ScriptTrace`: without a key line `api_key` is unbound and the script raises before any call; otherwise the mask calls, then one call per poem |
| `Segmentation.MaskPathIsNoPoemPath` | generate_segmentation.py:51-89 | no poem file can be written to the mask's path |
| `Segmentation.PersistedMaskFitsArtwork` | generate_segmentation.py:32-62 | after the run, an obtained mask is on disk with the artwork's size; with no mask, the mask path is left as it was |
| `Segmentation.ExhaustionStillIllustrates` | generate_segmentation.py:30-88 | when every candidate fails, each was called once and the poem loop still runs for every keyword |
| `Segmentation.PoemFilePerKeyword` | generate_segmentation.py:88-109 | each keyword is requested after the mask calls; `outputs/poem_{keyword}.png` holds its own first image, or is untouched when there is none |
| `Segmentation.SavesOverwrite` | generate_segmentation.py:51-103 | the files after a run are the files before it with the run's own writes (mask, then poem images) laid over them |
| `Segmentation.RerunReplaces` | generate_segmentation.py:44-105 | a second run, whatever the service answers this time, leaves at every path it writes exactly what it would write over the original files, and leaves every other path as the first run left it |
| `Segmentation.SecondCandidateResized` | generate_segmentation.py:32-60 | on a 1920x1080 artwork, with `m1` raising and `m2` returning one 1024x1024 image, two calls are made and the mask is the NEAREST resize of that image to 1920x1080 |
| `LourmarinSegmentation.FollowUpRequest` | tests/generate_segmentation_lourmarin.py:61-71 | the follow-up's contents are the mask request's contents, then the model's reply, then the new question; it asks for TEXT only |
| `LourmarinSegmentation.SaveFirstMask` | tests/generate_segmentation_lourmarin.py:37-49 | `mask_saved` is true iff some part has inline data; then only the first such part, fitted to `(w, h)`, is saved; otherwise nothing is written |
| `LourmarinSegmentation.TextOfAppend` | tests/generate_segmentation_lourmarin.py:74-78 | the text collected from two part lists in turn is the concatenation of their texts |
| `LourmarinSegmentation.TextOfEmptyIff` | tests/generate_segmentation_lourmarin.py:75-78 | the collected text is empty iff no part has non-empty text |
| `LourmarinSegmentation.CollectText` | tests/generate_segmentation_lourmarin.py:74-78 | the accumulator loop yields the in-order concatenation of `text + "\n"` over the parts with non-empty text |
| `LourmarinSegmentation.RunScript` | tests/generate_segmentation_lourmarin.py:11-84 | the script's files, calls and end follow `ScriptTrace`; without a key line the script raises before any call |
| `LourmarinSegmentation.MaskGatesFollowUp` | tests/generate_segmentation_lourmarin.py:28-53 | the run exits with status 1 iff the mask reply has parts but no image part; an exit with status 1 comes after the single mask call and writes nothing; a follow-up is sent only after a mask reply with an image, and then the saved mask has the artwork's size |
| `LourmarinSegmentation.MaskCallFailureIsFatal` | tests/generate_segmentation_lourmarin.py:28-38 | when the mask call raises or its response has no parts, the run raises after that single call and writes nothing |
| `LourmarinSegmentation.FollowUpReplaysExchange` | tests/generate_segmentation_lourmarin.py:28-71 | the mask call asks for IMAGE only; the follow-up sends exactly `[prompt1, artwork, mask reply, prompt2]` and asks for TEXT only |
| `LourmarinSegmentation.MetadataAlwaysWritten` | tests/generate_segmentation_lourmarin.py:74-81 | a completed run writes the metadata file with the collected text, which is `""` when no part has text |
| `LourmarinSegmentation.FollowUpFailureIsFatal` | tests/generate_segmentation_lourmarin.py:61-81 | when the follow-up call raises or its response has no parts, the run raises after both calls with the mask saved, and the metadata file is not written |
| `LourmarinSegmentation.SavesOverwrite` | tests/generate_segmentation_lourmarin.py:46-81 | the files after a run are the files before it with the mask and metadata writes laid over them |
| `LourmarinSegmentation.RerunReplaces` | tests/generate_segmentation_lourmarin.py:46-81 | a second run, whatever the service answers this time, leaves at every path it writes exactly what it would write over the original files, and leaves every other path as the first run left it |
| `LourmarinPoems.RunScript` | tests/generate_poem_images_lourmarin.py:10-86 | the script's files, calls and end follow `ScriptTrace`: without a key line the script raises before any call; with a key, one status is reported per keyword |
| `LourmarinPoems.EachKeywordOnItsOwn` | tests/generate_poem_images_lourmarin.py:64-86 | every keyword is requested with its own prompt; `images/lourmarin/lourmarin_{keyword}.png` holds its first image, or is untouched when the call failed or returned none |

## Left out

- Service calls: the service is a deterministic function of the request, so a model listed twice would get the same answer twice. Network behaviour, timeouts and retries are not modelled.
- Exceptions inside `generate_segmentation.py`'s `try` other than a failed call are not modelled: a decode, resize or save error would also move to the next candidate or keyword. Decoding and saving always succeed in the model.
- Image content: pixels, the NEAREST sampling algorithm and PNG encoding are not modelled. Only image sizes and the fact that a resize happened are observable.
- `Selection.FitToArtwork`: the model assumes the decoded mask has a size. If `as_image()` yields an object without `size`, `generate_segmentation.py` saves it unresized (line 48), which the model does not capture.
- `response1.candidates[0].content` also carries a role. It is modelled as `ModelTurn(parts)` with the parts of the reply.
- Reading `~/.env` and the artwork file: the environment file's text and the artwork's `Image` are parameters. Text-mode newline translation (`\r`, `\r\n`) is not modelled; only `\n` ends a line.
- The poem dictionaries: the poems are a parameter list of keyword and text, in dictionary order. The literal poem texts are not reproduced.
- Printed progress and error lines are not modelled. The per-keyword `Status` stands in for the "Saved", "No image" and "Error" lines.
- Process exit: an uncaught exception is the distinct end `Raised`; the interpreter's own exit status for it is not modelled.
- `images/lourmarin/cliffs/geology/generate_limestone_diagrams.py` and `images/lourmarin/meadow/botany/generate_flora.py`: static plotting with no logic to verify.
- `images/marsh/marsh/cs/generate_knowledge_graph.py`: a constant DOT text and a subprocess call.
- `tests/auto/capture_doc_screenshots.py`: browser automation with sleeps.
