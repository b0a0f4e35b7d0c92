# PNG post-processing of generated product images, in Dafny

The web application sends a product photo and a prompt to an image-generation
provider and post-processes the PNG it gets back. This project models that
post-processing step (`lib/postprocess.ts`) and the option derivation of the
route that calls it (`app/api/image2/route.ts`), and proves properties of both.

- **Background pass** (`makeWhiteTransparent`). The PNG is decoded to RGBA and
  copied into a private buffer. One loop steps through the buffer four bytes at
  a time and writes only the alpha byte of each pixel. If all three channels are
  at least 248 the alpha becomes 0. Otherwise, if the channel mean is at
  least 242, the alpha becomes the smaller of the old alpha and a feather value
  that falls from 255 to 0 as the pixel gets whiter. The buffer is then
  re-encoded as a palette PNG. This is one global per-pixel threshold. There is
  no flood fill and no test for connection to the image border, so enclosed
  white regions become transparent too.
- **Budget loop** (`postprocessPng`). If a non-zero byte budget is set and the
  buffer exceeds it, the loop starts at width `min(meta.width ?? 1024, 1400)`.
  It resizes the *previous candidate* to that width without enlargement and
  re-encodes it. It stops at the first candidate within budget. Otherwise the
  width becomes `floor(w * 0.85)` and the loop continues while the width is at
  least 256. When the schedule runs out, the *last* candidate is returned. With
  neither option the input bytes are returned unchanged, with no re-encode.
- **Route options**. The route maps the `packagingType` field onto one of four
  packaging types and picks a prompt. It sets the ice-pack flag only for
  vacuum packs and turns `maxKb` into a byte budget.

The codec (the `sharp` library) is a parameter: `Codec.ImageCodec` is a record
of total functions for decoding to RGBA, palette encoding, metadata and
resize-and-encode. The lemmas require only the two facts the code relies on:
`Codec.DecodesToRgba` (a decode yields `width * height * 4` bytes) and
`Codec.ResizeNeverEnlarges` (`withoutEnlargement`). Nothing assumes that a
narrower image encodes to fewer bytes.

The pass is a global per-pixel threshold: there is no flood fill from the
image border. When the width schedule runs out, the loop returns the last
candidate it made, not the smallest. The model does the same.

Files: `wrappers.dfy` (Option, Result), `codec.dfy` (bytes, decoded images, the
codec record), `postprocess.dfy` (module `Postprocess`), `route.dfy` (module
`Image2Route`).

## Model

| member | source | states |
|---|---|---|
| `Postprocess.NearWhite` | lib/postprocess.ts:23 | a pixel is near-white when all three channels are at least 248, and then its channel sum is at least 744, past the feathering band |
| `Postprocess.Feather` | lib/postprocess.ts:27-29 | the feather value is 0 once `r+g+b >= 744`, 255 at `r+g+b <= 726` (mean 242), and strictly between 0 and 255 in between |
| `Postprocess.FeatherIsRounded` | lib/postprocess.ts:29-30 | `Feather` is `Math.round` (half up) of `clamp(((248 - avg) / 6) * 255, 0, 255)` computed exactly |
| `Postprocess.FeatherNonIncreasing` | lib/postprocess.ts:29 | the feather value never rises as `r + g + b` grows |
| `Postprocess.NewAlpha` | lib/postprocess.ts:23-31 | a pixel's alpha never rises; near-white gives 0; a dark pixel keeps its alpha; a feathered alpha is at most the feather value |
| `Postprocess.NewAlphaIdempotent` | lib/postprocess.ts:23-31 | recomputing an already recomputed alpha gives the same alpha (`min(min(a,f),f) = min(a,f)`, 0 stays 0) |
| `Postprocess.WhiteToAlpha` | lib/postprocess.ts:18-33 | the pass as a function on the byte buffer; it keeps the buffer length (what it does to each byte is stated by the lemmas below) |
| `Postprocess.AlphaPassFrame` | lib/postprocess.ts:14-33 | the pass keeps the buffer length and every R, G and B byte; only bytes at offset `i+3` of a pixel can change |
| `Postprocess.AlphaNeverRises` | lib/postprocess.ts:25-30 | no byte of the buffer is larger after the pass |
| `Postprocess.NearWhiteBecomesTransparent` | lib/postprocess.ts:23-25 | a pixel with all channels `>= 248` ends with alpha 0 |
| `Postprocess.DarkPixelKeepsAlpha` | lib/postprocess.ts:27-28 | a pixel that is not near-white and has `r+g+b < 726` keeps its alpha exactly |
| `Postprocess.FeatheredPixelAlpha` | lib/postprocess.ts:28-30 | a feathered pixel ends with `min(old alpha, Feather(r+g+b))`, never above the old alpha, and with 0 when `r+g+b >= 744` |
| `Postprocess.AlphaPassIdempotent` | lib/postprocess.ts:18-33 | running the pass on its own output gives the same buffer |
| `Postprocess.PartialPixelAfterPass` | lib/postprocess.ts:18-21 | the bytes of a trailing partial pixel are left as they are |
| `Postprocess.WhiteTransparentKeepsGeometry` | lib/postprocess.ts:11-14 | with a decoder that yields `w*h*4` bytes, the buffer handed to the encoder still has `w*h*4` bytes |
| `Postprocess.WhiteTransparentPng` | lib/postprocess.ts:8-42 | `makeWhiteTransparent` as a function: it fails exactly when decoding fails, and then with `DecodeFailed` |
| `Postprocess.ClearWhiteBackground` | lib/postprocess.ts:18-33 | the in-place loop, stepping by four bytes, leaves the buffer equal to `WhiteToAlpha` of its old contents |
| `Postprocess.MakeWhiteTransparent` | lib/postprocess.ts:8-42 | returns the palette encoding of the decoded image, whose pixel bytes are replaced by the pass's result on a private copy; a decode failure is returned as an error |
| `Postprocess.NextWidth` | lib/postprocess.ts:73 | the next width is the floor of 85% of the current one, and strictly smaller for a positive width |
| `Postprocess.StartWidth` | lib/postprocess.ts:56 | the start width is the minimum of the reported width (1024 if none) and 1400 |
| `Postprocess.Widths` | lib/postprocess.ts:56-59 | the widths the loop tries when no candidate fits: none exactly when the start width is below 256, and otherwise starting with the start width |
| `Postprocess.WidthsSchedule` | lib/postprocess.ts:57-59 | the schedule starts at the start width, each width follows from the previous by `floor(w*0.85)`, widths strictly decrease and lie in [256, start], and the width after the last is below 256 |
| `Postprocess.WidthsMonotone` | lib/postprocess.ts:59 | a smaller start width never gives a longer schedule |
| `Postprocess.WidthsAtMostEleven` | lib/postprocess.ts:56-59 | from any start width up to 1400 the loop body runs at most 11 times |
| `Postprocess.TriedWidthsInRange` | lib/postprocess.ts:56-59 | every width tried lies in [256, 1400], whatever the metadata reports |
| `Postprocess.Candidates` | lib/postprocess.ts:59-74 | the candidates the loop makes: none exactly when the start width is below 256 |
| `Postprocess.Shrink` | lib/postprocess.ts:59-74 | what the loop leaves in `buf`: its input when the start width is below 256, and otherwise one of the candidates it made |
| `Postprocess.CandidatesFollowSchedule` | lib/postprocess.ts:59-74 | candidate `i` is the resize of candidate `i-1` (of the starting buffer for `i = 0`) at schedule width `i`; all but the last candidate are over budget; the last fits unless the whole schedule was used; there is no candidate exactly when the start width is below 256 |
| `Postprocess.ShrinkOutcome` | lib/postprocess.ts:59-74 | the loop returns the first candidate within budget, else the last candidate after the schedule is exhausted, else the input when no candidate was made |
| `Postprocess.CandidatesNeverEnlarge` | lib/postprocess.ts:60-65 | with a non-enlarging resize, no candidate is wider than its schedule width or than the image it was resized from |
| `Postprocess.ShrinkNeverEnlarges` | lib/postprocess.ts:59-74 | with a non-enlarging resize, the loop's result is never wider than the buffer it started from |
| `Postprocess.DownscaleLoop` | lib/postprocess.ts:59-74 | the loop returns the last candidate it produced (the first within budget, if any), or its input when the start width is below 256 |
| `Postprocess.OverBudget` | lib/postprocess.ts:54 | the gate holds only when a budget is set and the buffer is longer than it; with a positive budget it is exactly that; a negative budget is truthy, so every buffer passes the gate |
| `Postprocess.BackgroundStage` | lib/postprocess.ts:48-52 | without `transparentBg` the input comes through unchanged; it can fail only with `transparentBg`, and then with `DecodeFailed` |
| `Postprocess.PostprocessSpec` | lib/postprocess.ts:44-78 | `postprocessPng` as a function: a decode failure happens only with `transparentBg`, a metadata failure only past the gate, and below the gate the background stage's buffer is returned |
| `Postprocess.PostprocessPng` | lib/postprocess.ts:44-78 | runs the background pass only with `transparentBg`, propagates decode and metadata failures, enters the loop only when a non-zero budget is exceeded, and otherwise returns the buffer unchanged (`PostprocessSpec`) |
| `Postprocess.PassThrough` | lib/postprocess.ts:48-54 | without `transparentBg`, and with no budget, a zero budget or an input within budget, the input bytes come back unchanged |
| `Postprocess.NarrowImageReturnedOverBudget` | lib/postprocess.ts:54-59 | when the start width is below 256, no candidate is made and the over-budget buffer is returned |
| `Postprocess.BudgetMetOrScheduleExhausted` | lib/postprocess.ts:54-77 | a result either is the gate's unchanged buffer, or fits the budget, or comes after every width of the schedule was tried |
| `Postprocess.ResultNeverEnlarged` | lib/postprocess.ts:60-72 | with a non-enlarging resize, the result is never wider than the buffer the loop started from |
| `Image2Route.FormString` | app/api/image2/route.ts:44 | `String(form.get(..))`: a text field gives its text; a missing field or a file gives a non-empty string that is no packaging name and not "true" |
| `Image2Route.IsTrue` | app/api/image2/route.ts:39 | `form.get(..) === "true"` holds exactly for a text field whose text is "true" |
| `Image2Route.MaxKb` | app/api/image2/route.ts:41 | a missing or empty field gives 0, a file gives NaN, other text is converted by `Number` |
| `Image2Route.MaxBytes` | app/api/image2/route.ts:41-42 | a budget exists exactly when `maxKb` is a positive number, and then it is `maxKb * 1024`; NaN, 0 and negatives give none |
| `Image2Route.NoBudgetFields` | app/api/image2/route.ts:41-42 | a missing field, an empty one and an upload give no budget; a non-empty text field gives one exactly when it converts to a positive number |
| `Image2Route.NormalizePackaging` | app/api/image2/route.ts:17-20 | the result is not vacuum exactly for "gembolan", "mika" and "mesh", and then it is that very type; every other string means vacuum |
| `Image2Route.NormalizeName` | app/api/image2/route.ts:18-19 | each of the four types, "vacuum" included, normalises to itself |
| `Image2Route.NormalizeIdempotent` | app/api/image2/route.ts:17-20 | normalising a normalised value changes nothing |
| `Image2Route.NonTextPackagingIsVacuum` | app/api/image2/route.ts:44 | a missing field (`String(null)` is "null") or a file upload means vacuum |
| `Image2Route.PickPrompt` | app/api/image2/route.ts:22-31 | the chosen prompt is written for the given type, and shows an ice pack exactly when the type is vacuum and `ice` is set |
| `Image2Route.PickPromptIgnoresIce` | app/api/image2/route.ts:28-30 | for gembolan, mika and mesh the `ice` argument makes no difference |
| `Image2Route.PickPromptInjective` | app/api/image2/route.ts:22-31 | different packaging types, or vacuum with a different `ice`, give different prompts |
| `Image2Route.AddIcePack` | app/api/image2/route.ts:45-46 | the flag is set only for vacuum, and for vacuum exactly when the field is the text "true" |
| `Image2Route.DeriveOptions` | app/api/image2/route.ts:39-48 | the derived packaging is the normalised field; the prompt is written for it and shows an ice pack exactly when the ice flag is set; the ice flag is vacuum and `addIcePack` "true"; `transparentBg` is the field being "true"; the budget is `MaxBytes(MaxKb(maxKb))` and is positive when present |
| `Image2Route.NoOptionsPassThrough` | app/api/image2/route.ts:39-42 | a form whose `maxKb` gives no budget (missing, empty, a file, or not a positive number) and without `transparentBg=true` gets the provider's bytes back unchanged |
| `Image2Route.RouteBudgetGate` | app/api/image2/route.ts:41-42 | with a budget the route produced, the gate is just "the buffer is longer than the budget" |

## Left out

- The `sharp` codec: decoding with `ensureAlpha`, palette encoding at compression level 9 (quality 70 when resizing), resizing and metadata. These belong to a foreign library and are parameters of the model.
- Codec exceptions from encoding and resizing: these calls are total functions. Only failures of decode and metadata are modelled, as `Failure` results.
- Asynchrony (`await`): it has no effect on the result, because each call's outcome is used in sequence.
- Buffer identity: byte sequences are values. The model does not express that pass-through returns the same `Buffer` object.
- Feather: computed in exact rational arithmetic rather than in double precision. For every channel sum in the band (726 to 744) the double result of `((248 - avg) / 6) * 255` rounds to the same integer: at 729, 735 and 741, where the exact value ends in .5, the double result is exactly 212.5, 127.5 and 42.5.
- NextWidth: integer `w * 85 / 100`, which equals `Math.floor(w * 0.85)` in floating point for widths up to 1400. Those are the only widths the loop sees.
- MaxKb: JavaScript's string-to-number conversion is the parameter `parse`. The infinities (`Number("Infinity")`) are not modelled.
- PostOpts: a `maxBytes` of NaN passed directly is not distinguished from an undefined one. Both are falsy at the gate. The route never passes NaN.
- Budget monotonicity across candidates is not stated. Nothing in the code or the codec guarantees that a narrower candidate encodes to fewer bytes.
- The HTTP handling of the route: the provider choice, the file check, the provider calls, the response headers and error responses. `lib/gemini.ts`, `lib/openai.ts`, `app/api/image1/route.ts`, `app/page.tsx` and the prompt texts of `lib/prompts.ts` are not part of this model. The prompts appear only as the tags of `Image2Route.Prompt`.
