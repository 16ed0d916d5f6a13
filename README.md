# SageMaker inference client: a Dafny model

The system is a small web client for Amazon SageMaker object detection.

- A browser page lets the user pick an image and type an endpoint name. It posts the image as a base64 data URL, and draws the returned bounding boxes on a canvas.
- A Lambda/Express backend checks the request, extracts the image's MIME type and payload, calls the endpoint, and answers with one uniform response record.

The project models the discrete logic of both halves and proves what it promises.

- `wrappers.dfy` (`Wrappers`): `Option` and `Result`.
- `text.dfy` (`Text`): removal of spaces from endpoint names, integer printing, and the percentage text produced by `Math.round(c * 10000) / 100`, computed on exact reals.
- `codec.dfy` (`Codec`) covers three steps:
  - the MIME-type regular expression of `postInference`, written as a deterministic matcher and proved equal to a relational reading of the pattern;
  - `split(';base64,').pop()`;
  - the byte-to-string conversion of the endpoint's reply.
- `controller.dfy` (`SagemakerController`): the two backend handlers `postInference` and `postEndpoints`.
  - They are pure functions from the request body to the response record.
  - The cloud calls and the JSON parse are function parameters that return a value or an error message.
- `canvas.dfy` (`Canvas`): the part of the browser's 2D context the overlay uses.
  - It is a class holding the stroke colour, the fill colour and the current path, plus a record of strokes and texts.
  - This is a model of the browser API, not of repository code, so its members have no row below.
- `overlay.dfy` (`Overlay`): prediction filtering and drawing, labels, palette and box geometry (`applyPredictionsToImage` as a loop over the canvas), and the HTML summary (`getPredictionHtmlPrettyPrint` as a loop). The body of the drawing loop for a drawn prediction is the method `DrawPrediction`; the strokes and labels are the entries of the drawn predictions, in order.
- `client.dfy` (`Client`): the page's state as the class `Session` (`predictions`, `classCnt`, `classMap`).
  - It covers the add and remove buttons as a bounded counter, the input checks, the rebuild of `classMap`, and the check of the backend's reply.

Some behaviours of the code a reader might not expect:

- **Empty class name.** A class whose name is the empty string gets the fallback label `label:<c>`, because the empty string is falsy in the guard.
- **Endpoint characters.** Only U+0020 spaces are removed from endpoint names. Tabs and other whitespace are kept.
- **Missing marker.** If the data URL has no `;base64,` marker, the payload is the whole string and no error is raised.
- **MIME type quirks.** The first character of the match is any character but `:`, followed by at least one word character. So:
  - A one-letter type such as `a/b` is not matched at the type.
  - A type containing `-`, such as `x-world/x-vrml`, yields `-world/x-vrml`.

## Model

| member | source | states |
|---|---|---|
| Text.StripSpaces | lambda-function/src/controllers/sagemakerController.js:29 | the result has no space and is no longer than the input |
| Text.StripSpacesKeepsOthers | lambda-function/src/controllers/sagemakerController.js:29 | every character other than a space is kept as often as it occurs |
| Text.StripSpacesAppend | lambda-function/src/controllers/sagemakerController.js:29 | removing spaces distributes over concatenation, so the other characters keep their order |
| Text.StripSpacesNoSpaces | lambda-function/src/controllers/sagemakerController.js:29 | a name with no space is unchanged |
| Text.StripSpacesIdempotent | lambda-function/src/controllers/sagemakerController.js:29 | removing spaces twice is the same as once |
| Text.StripSpacesAllSpaces | lambda-function/src/controllers/sagemakerController.js:25-30 | an endpoint made only of spaces becomes the empty name |
| Text.NatToString | src/js/app.js:229 | a non-empty digit string without leading zero, "0" exactly for zero |
| Text.ParseNatToString | src/js/app.js:229 | reading back the printed digits gives the number |
| Text.NatToStringInjective | src/js/app.js:229 | different natural numbers print different digit strings |
| Text.IntToStringInjective | src/js/app.js:320 | different integers print differently |
| Text.Round | src/js/app.js:228 | `Math.round`: the integer n with n <= x + 0.5 < n + 1 |
| Text.NatHundredthsShape | src/js/app.js:228 | the printed number of hundredths has a decimal point exactly when it is not a whole number |
| Text.HundredthsSign | src/js/app.js:228 | the printed number is never empty and starts with a minus sign exactly when it is negative |
| Text.HundredthsInjective | src/js/app.js:228 | different numbers of hundredths print different decimal texts, so the printed text determines the rounded value |
| Codec.WordRunEnd | lambda-function/src/controllers/sagemakerController.js:41 | the end of the maximal run of word characters |
| Codec.SubtypeRunEnd | lambda-function/src/controllers/sagemakerController.js:41 | the end of the maximal run of subtype characters (word characters, `-`, `+`, `.`) |
| Codec.MatchEndAt | lambda-function/src/controllers/sagemakerController.js:41 | the match found at a position satisfies the pattern, and when none is found there is no match at that position |
| Codec.RegexMatchUnique | lambda-function/src/controllers/sagemakerController.js:41 | at a given start the pattern matches with at most one end |
| Codec.MatchShape | lambda-function/src/controllers/sagemakerController.js:41 | any match at a start consists of the maximal word run, a `/`, and the maximal subtype run |
| Codec.FindMatch | lambda-function/src/controllers/sagemakerController.js:41 | a match found at or after a position satisfies the pattern there |
| Codec.FindMatchLeftmost | lambda-function/src/controllers/sagemakerController.js:41 | no start before the found one matches, and none found means no start from the position matches |
| Codec.MimeType | lambda-function/src/controllers/sagemakerController.js:41 | an error (null indexed) exactly when the pattern matches nowhere, otherwise the text of a match that starts at the leftmost position where any match starts |
| Codec.MimeTypeOfDataUrl | lambda-function/src/controllers/sagemakerController.js:41 | for `data:<type>/<subtype>;base64,<p>` with a type of two or more word characters, the MIME type is `<type>/<subtype>` |
| Codec.MimeTypeOfHyphenatedType | lambda-function/src/controllers/sagemakerController.js:41 | for a type `<c>-<w>`, the MIME type loses `<c>` and starts at the hyphen |
| Codec.MatchesFromSlice | lambda-function/src/controllers/sagemakerController.js:44 | the character-by-character comparison of the search agrees with equality of the slice |
| Codec.FindFromSpec | lambda-function/src/controllers/sagemakerController.js:44 | the search returns an occurrence with none before it, and returns nothing only when the marker does not occur from that position on |
| Codec.SplitFromJoin | lambda-function/src/controllers/sagemakerController.js:44 | joining the split pieces with the marker gives back the text |
| Codec.SplitFromPieces | lambda-function/src/controllers/sagemakerController.js:44 | no split piece contains the marker |
| Codec.LastPieceNoOccurrence | lambda-function/src/controllers/sagemakerController.js:44 | no marker occurrence starts in the last piece |
| Codec.LastPieceAfterOccurrence | lambda-function/src/controllers/sagemakerController.js:44 | unless the last piece is the whole scanned text, a marker occurrence ends right where it starts |
| Codec.SplitPop | lambda-function/src/controllers/sagemakerController.js:44 | a suffix without the marker; the whole text when the marker is absent; otherwise the text right after an occurrence |
| Codec.LastPieceOfSplitFrom | lambda-function/src/controllers/sagemakerController.js:44 | the popped element, the last piece of the split, starts where LastPieceStart says |
| Codec.PayloadOfDataUrl | lambda-function/src/controllers/sagemakerController.js:44 | for `<header>;base64,<p>` with no `;` in `<p>`, the payload is `<p>` |
| Codec.BytesToString | lambda-function/src/controllers/sagemakerController.js:68 | one character per byte, the character's code being the byte's value |
| Codec.BytesToStringInjective | lambda-function/src/controllers/sagemakerController.js:68 | different bodies give different strings |
| SagemakerController.ValidateInference | lambda-function/src/controllers/sagemakerController.js:20-35 | fails with the image message iff the image is missing or empty; the endpoint message iff the image is present and the endpoint is not; the region message iff only the region is missing; otherwise succeeds with the endpoint's spaces removed |
| SagemakerController.BuildInvokeRequest | lambda-function/src/controllers/sagemakerController.js:20-64 | validation errors first, then the null-index error when no MIME type matches; otherwise the call parameters: endpoint without spaces, JSON accept header, the matched MIME type as content type, the popped payload, the region and API version |
| SagemakerController.BuildInvokeRequestOfDataUrl | lambda-function/src/controllers/sagemakerController.js:20-64 | for a well-formed data URL the request carries exactly its MIME type and its payload |
| SagemakerController.Respond | lambda-function/src/controllers/sagemakerController.js:72-84 | success gives status `success`, code 200 and the payload; an error gives status `error`, code 500 and its message; one response per outcome |
| SagemakerController.PostInference | lambda-function/src/controllers/sagemakerController.js:6-86 | code 200 iff the request builds, the call succeeds and the reply parses, with the parsed predictions as payload and status `success`; once the call succeeds the answer is exactly the reply's parse outcome, so a reply that does not parse gives status `error`, code 500 and the parser's message; every earlier failure is answered with its own message and code 500 |
| SagemakerController.ValidationPrecedesInvocation | lambda-function/src/controllers/sagemakerController.js:20-35 | a failed check is answered with the first failing check's message, whatever the endpoint would have returned |
| SagemakerController.PostEndpoints | lambda-function/src/controllers/sagemakerController.js:88-140 | a missing or empty region is answered with the region message; otherwise the response is the outcome of one listing call with the region and the fixed parameters `Name`, `Descending`, `InService` |
| Overlay.Palette | src/js/app.js:52 | a colour exactly for classes 0 to 8, undefined for the others |
| Overlay.PaletteDistinct | src/js/app.js:52 | the nine palette classes have distinct colours |
| Overlay.PredictionLabel | src/js/app.js:313-324 | the user's name when the entry exists and is non-empty, else `label:<c>`; never empty |
| Overlay.FallbackLabelsDistinct | src/js/app.js:313-324 | unnamed classes get distinct labels |
| Overlay.Threshold | src/js/app.js:191 | the threshold is the slider's percentage divided by 100 |
| Overlay.DrawnAgainstSlider | src/js/app.js:191-209 | a prediction is drawn exactly when 100 times its confidence exceeds the slider value; a confidence equal to the threshold is not drawn |
| Overlay.DrawnSpec | src/js/app.js:208-209 | every drawn index is above the threshold, and every index above the threshold is drawn |
| Overlay.DrawnIncreasing | src/js/app.js:208 | drawn predictions keep their original order |
| Overlay.Box | src/js/app.js:218-221 | the box runs from (xmin·w, ymin·h) to (xmax·w, ymax·h) |
| Overlay.ConfidenceTextDeterminesRounding | src/js/app.js:228 | equal confidence texts mean equal rounded confidences |
| Overlay.PathIsDrawnBoxes | src/js/app.js:205-224 | the path holds one box per drawn prediction, in order |
| Overlay.ColorOfDrawn | src/js/app.js:212-215 | a drawn class from the palette sets its colour; a class outside the palette keeps the previous colour |
| Overlay.StrokesRestrokePath | src/js/app.js:205-224 | the k-th stroke outlines the first k + 1 boxes, because the path is never reset inside the loop |
| Overlay.StrokeColors | src/js/app.js:212-224 | one stroke per drawn prediction, each in the colour current once that prediction's colour is set |
| Overlay.LastStrokeCoversAllBoxes | src/js/app.js:205-224 | the last stroke outlines every drawn box in the last colour |
| Overlay.LastStrokeColor | src/js/app.js:205-224 | once a box is drawn, the latest stroke is in the current colour, however many later predictions were skipped |
| Overlay.TextsAreLabels | src/js/app.js:226-232 | one label per drawn prediction, in order, numbered `ID:<i+1>` with i the index among all predictions, at (x1, y1 - 2), in the colour current once that prediction's colour is set (the previous colour for a class outside the palette) |
| Overlay.DrawPrediction | src/js/app.js:209-232 | one pass of the loop body for a prediction above the threshold takes the canvas from the state after i predictions to the state after i + 1 |
| Overlay.ApplyPredictionsToImage | src/js/app.js:189-239 | on a fresh canvas, the path, strokes, texts and colours are those of the drawn predictions |
| Overlay.Entries | src/js/app.js:286-311 | one entry per prediction whatever its confidence, numbered i + 1, with its colour, label and confidence |
| Overlay.ConcatParts | src/js/app.js:310 | each entry appears in the joined HTML right after the entries before it |
| Overlay.PredictionHtml | src/js/app.js:286-311 | the HTML is the concatenation of all prediction entries in order |
| Client.AfterAdd | src/js/app.js:249-255 | refused at 9, otherwise one more |
| Client.AfterRemove | src/js/app.js:272-279 | refused below 0, otherwise one less, because removing the row never fails |
| Client.RunStaysInRange | src/js/app.js:249-279 | any sequence of clicks keeps a counter in [-1, 9] within it |
| Client.RunAdds | src/js/app.js:249-255 | k add clicks raise the counter by k while it stays at most 9 |
| Client.EveryCountReachable | src/js/app.js:249-279 | each value in [-1, 9] is reached from the initial 0 |
| Client.ClassMapOf | src/js/app.js:105-108 | the rebuilt class map has classCnt + 1 entries (none when classCnt is -1), entry i read from input i |
| Client.ValidateUserInputs | src/js/app.js:175-186 | the no-image message iff no file is selected; the no-endpoint message iff a file is selected and the endpoint is missing or empty; otherwise success |
| Client.RequestValidation | src/js/app.js:98-123 | the backend keeps the endpoint the page stripped; an endpoint of spaces only passes the page and is refused by the backend |
| Client.CheckReply | src/js/app.js:125-132 | success iff the status is 200, with the reply's predictions; missing or zero status gives the unknown-error message; another status gives the backend's message |
| Client.ReplyRoundTrip | src/js/app.js:125-132 | the page recovers exactly the backend's outcome from its response |
| Client.Session.constructor | src/js/app.js:48-50 | no predictions, counter 0, empty class map |
| Client.Session.AddClassInput | src/js/app.js:249-269 | the counter follows AfterAdd and stays in range; nothing else changes |
| Client.Session.RemoveClassInput | src/js/app.js:272-279 | the counter follows AfterRemove and stays in range; nothing else changes |
| Client.Session.ImageSelected | src/js/app.js:59-81 | a new image clears the predictions and keeps the counter and the class map |
| Client.Session.ThresholdUpdate | src/js/app.js:241-245 | the overlay is redrawn exactly when there are predictions, and then shows the strokes and labels of those above the new threshold; nothing else changes |
| Client.Session.SubmitInference | src/js/app.js:89-142 | a failed page check changes nothing; otherwise the class map is rebuilt, a failed reply keeps the old predictions, and a successful one stores its predictions, returns their HTML and draws them |

## Left out

- The AWS SDK calls (`invokeEndpoint`, `listEndpoints`), the write and read of `/tmp/image`, and Node's lenient base64 decoding are modelled only as parameters. `PostInference` receives the request, whose payload text stands for the file's bytes.
- `JSON.parse(result).prediction` is a parameter from the reply text to a value or an error.
- `error_trace` (`err.stack`) and the `console.log` calls are not modelled. The stack trace is runtime text.
- The limit on the number of arguments of `String.fromCharCode.apply` for very large replies is not modelled. It is an engine limit.
- IEEE-754 arithmetic is not modelled. Confidences and coordinates are exact reals. `Math.round(c * 10000) / 100` is computed exactly and printed as its shortest decimal, so a product that floating point would round differently at a half is not captured.
- The canvas is modelled as its state and the list of strokes and texts. Rendering, `drawImage`, `lineWidth`, `font` and `toDataURL` are not modelled.
- DOM and jQuery updates, the HTML of the class inputs, FileReader, and the text written to the inference panel are not modelled. The values read from the page are parameters. `SubmitInference` returns the summary or the error message instead of appending it to the panel.
- `imageSelected` is modelled only by its effect on the page state, `Session.ImageSelected`. The FileReader, the image source and the labels it writes are DOM work.
- `thresholdUpdate`'s label text is not modelled. `Session.ThresholdUpdate` covers its guard and the redraw.
- `setSagemakerEndpoints` is not modelled. It checks the reply's status in the same way as `CheckReply`, then writes one `<option>` per endpoint name into the select element, which is DOM output only.
- Strings are modelled as sequences of Unicode scalar values, not of UTF-16 code units. For a character outside the Basic Multilingual Plane, JavaScript's non-`u` regex matches its surrogates one at a time, so the first character of `ContentType` can differ from the model's. Whether a match exists does not. Lone surrogates in request bodies cannot be represented.
- Concurrency is not modelled: async handlers and overlapping submissions.
- Client.ApiReply: a reply with status 200 but no `predictions` field is not modelled. The page would store `undefined` and then fail while printing.
- Overlay.Prediction: the class is an integer. `parseInt` on a fractional or non-numeric class, and the raw class used for the palette index in `applyPredictionsToImage`, are not distinguished.
- JSON body fields that are present but not strings are not modelled.
- lambda-function/src/app.js, webpack.config.js, the health controller and the route files contain no logic of their own and are not modelled.
- Codec.NullIndexMessage: the text is the one Node.js 16 and later give for indexing `null`. Older runtimes word the same TypeError differently (`Cannot read property '0' of null`), and the model fixes the newer wording.
