# ESP32-CAM Teachable Machine capture page — a Dafny model

The ESP32 camera server serves one page, `GetImageCamServer/tm_capture_page.h`. Its
script previews the camera, records a timed series of 96x96 grayscale JPEG frames
and exports them as a ZIP archive for Teachable Machine. This project models that
script's capture pipeline:

- **Session** (`session.dfy`): the page's mutable state (`captures`, `isRecording`,
  `pendingFrame`, the two timers, the status label) as the class
  `Session.CaptureSession`. `takeFrame(save)` becomes two callbacks: `BeginFrame`
  checks and claims the in-flight guard, and `CompleteFrame` settles the fetch.
  `stopRecording` becomes `StopRecording` (its part up to `await`) and
  `CompleteExport` (what runs when `generateAsync` settles). An interleaving of
  timers, clicks and completions is therefore a sequence of method calls. The
  invariant `Valid()` counts issued and settled fetches. It holds after every
  call, so at most one fetch is ever in flight.
- **Events** (`events.dfy`): a dispatcher that delivers any sequence of browser
  events to a session, and scenarios that follow typical runs.
- **Interval** (`interval.dfy`): `Math.max(200, Number(v) || 1000)` on JavaScript
  numbers (NaN, the infinities, finite reals).
- **Archive** (`archive.dfy`): `buildZip`'s checks, its `forEach` loop over
  `zip.file`, the entry names `capture_NNNN.jpg` and the archive name
  `tm_captures_<ms>.zip`.
- **Grayscale** (`grayscale.dfy`): the stride-4 `applyGrayscale` loop on the canvas
  bytes, proved equal to a function on sequences.
- **Numerals** (`numerals.dfy`): `String(n)` for 0 <= n < 10^21 (every index and
  timestamp the page renders), `padStart` and the digit value that
  reads a rendered number back.

## Behaviour of the code that the model keeps

- NaN and zero (an empty control reads as zero) become 1000. Only other numbers
  below 200, negatives included, become 200 (`Interval.EffectiveInterval`).
- A fetch issued before stop still appends its frame: line 184 does not look at
  `isRecording` (`Session.CaptureSession.CompleteFrame`, `Events.LateFrameAfterStop`).
- Start is enabled again before `generateAsync` settles. The settling export then
  empties the new recording's buffer (`Events.RestartDuringExport`).
- A successful frame does not reset a "Camera error" status
  (`Events.SecondTickFails`).

## Model

| member | source | states |
|---|---|---|
| Numerals.Decimal | GetImageCamServer/tm_capture_page.h:220 | `String(n)` is a non-empty digit string; it has at most k digits exactly when n < 10^k |
| Numerals.PadStart | GetImageCamServer/tm_capture_page.h:220 | `padStart` yields max(width, length) characters, ends with the original string and fills the rest with the fill character; it never truncates |
| Numerals.DecimalNoLeadingZero | GetImageCamServer/tm_capture_page.h:247 | `String(n)` starts with `0` only when n is 0 |
| Numerals.ValueOfDecimal | GetImageCamServer/tm_capture_page.h:220 | reading the digits of `String(n)` gives n back |
| Numerals.ValueOfPadded | GetImageCamServer/tm_capture_page.h:220 | zero padding keeps the index readable: the padded digits still denote n |
| Archive.AddFile | GetImageCamServer/tm_capture_page.h:221 | `zip.file` grows the archive by one file exactly when the name is new, and the archive then holds the given file under that name; every file of another name keeps its content and its position, so a same-named file is replaced where it stands |
| Archive.AddNewFile | GetImageCamServer/tm_capture_page.h:221 | adding a file under a new name appends it after the existing files |
| Archive.EntryName | GetImageCamServer/tm_capture_page.h:220 | the name of 0-based position i, `capture_` + pad4(i+1) + `.jpg`: its contract gives the prefix, the suffix and at least four characters between them; EntryNameRoundTrip, EntryNameInjective and EntryNameLength pin down the rest |
| Archive.EntryNameRoundTrip | GetImageCamServer/tm_capture_page.h:219-220 | the name of 0-based position i reads back as i (its digits denote i + 1) |
| Archive.EntryNameInjective | GetImageCamServer/tm_capture_page.h:219-221 | two buffer positions get the same entry name if and only if they are the same position |
| Archive.EntryNameLength | GetImageCamServer/tm_capture_page.h:220 | names are 16 characters (four digits) up to index 9999, and longer after that because `padStart` does not truncate |
| Archive.EntryNameExamples | GetImageCamServer/tm_capture_page.h:220 | positions 0, 1, 2 give `capture_0001.jpg`, `capture_0002.jpg`, `capture_0003.jpg`; position 9999 gives `capture_10000.jpg` (FiveDigitEntryName) |
| Archive.ArchiveOfOne | GetImageCamServer/tm_capture_page.h:219-222 | the archive of a single frame is that frame alone, under the first entry name |
| Archive.ArchiveOfThree | GetImageCamServer/tm_capture_page.h:219-222 | the archive of three frames is exactly `capture_0001.jpg`..`capture_0003.jpg` holding them in capture order |
| Archive.ArchiveNamesDistinct | GetImageCamServer/tm_capture_page.h:219-222 | the files of an archive of the buffer have pairwise distinct names, so no frame overwrites another |
| Archive.BuildZip | GetImageCamServer/tm_capture_page.h:211-224 | fails with "JSZip not loaded" without the library, then with "Nothing to download" on an empty buffer; otherwise yields one file per frame, file i = frame i named `capture_` + pad4(i+1) + `.jpg`, never an empty archive |
| Archive.ArchiveFileName | GetImageCamServer/tm_capture_page.h:247 | the download name starts with `tm_captures_`, ends with `.zip` and has something between; ArchiveFileNameReadsBack pins the middle down to exactly `String(Date.now())` |
| Archive.ArchiveFileNameReadsBack | GetImageCamServer/tm_capture_page.h:247 | the download is `tm_captures_` + the digits of the export time + `.zip`: the middle has exactly as many characters as `String(Date.now())`, is all digits, starts with `0` only for time 0, and reads back as the time, so it is that decimal rendering and no other |
| Interval.Max | GetImageCamServer/tm_capture_page.h:201 | `Math.max` is NaN exactly when an argument is NaN, and otherwise is one of its arguments and not below either |
| Interval.EffectiveInterval | GetImageCamServer/tm_capture_page.h:201 | the resolved interval is always at least 200 (or +Infinity); NaN and zero give 1000; other values below 200, negatives included, give 200; values of at least 200 are kept |
| Interval.EffectiveIntervalIdempotent | GetImageCamServer/tm_capture_page.h:201-202 | the value written back into the control resolves to itself at the next start |
| Interval.EffectiveIntervalFixedPoints | GetImageCamServer/tm_capture_page.h:201 | the resolution keeps a value exactly when it is already a valid interval |
| Interval.EffectiveIntervalExamples | GetImageCamServer/tm_capture_page.h:201 | 50 gives 200, 0 and NaN give 1000, -5 and -Infinity give 200, 250 stays 250 |
| Grayscale.Luma601 | GetImageCamServer/tm_capture_page.h:124 | `Math.round(0.299 r + 0.587 g + 0.114 b)` on exact rationals: the result y satisfies y - 1/2 <= (299 r + 587 g + 114 b) / 1000 < y + 1/2, i.e. the nearest integer with halves rounded up; LumaBetweenChannels and LumaOfGray give its range and fixed points |
| Grayscale.LumaBetweenChannels | GetImageCamServer/tm_capture_page.h:124 | the BT.601 gray value lies between the smallest and largest of r, g, b, so byte inputs give a byte |
| Grayscale.LumaOfGray | GetImageCamServer/tm_capture_page.h:124 | a pixel with r = g = b = y gets gray value y |
| Grayscale.GrayscaleAt | GetImageCamServer/tm_capture_page.h:120-128 | for the pixel at byte i (i a multiple of 4), R, G and B become luma(r, g, b) of that pixel and alpha keeps its value |
| Grayscale.GrayscaleIsGray | GetImageCamServer/tm_capture_page.h:120-128 | after the pass every pixel has R = G = B and every alpha byte is unchanged |
| Grayscale.GrayscaleIdempotentFor | GetImageCamServer/tm_capture_page.h:120-128 | with any luma that maps gray pixels to themselves, a second pass changes nothing |
| Grayscale.GrayscaleIdempotent | GetImageCamServer/tm_capture_page.h:117-130 | with the BT.601 weights, a second pass changes nothing |
| Grayscale.ApplyGrayscale | GetImageCamServer/tm_capture_page.h:117-130 | the in-place stride-4 loop leaves the array equal to the grayscale of its old contents |
| Session.ExportFailureStatus | GetImageCamServer/tm_capture_page.h:255 | a failed export shows the error's message, or "ZIP failed" when it has none; never an empty status |
| Session.CaptureSession.constructor | GetImageCamServer/tm_capture_page.h:86-96 | at page load the buffer is empty, nothing is recording or pending, the control holds 1000 and the status is "Idle" |
| Session.CaptureSession.BeginFrame | GetImageCamServer/tm_capture_page.h:174-178 | while a call is pending nothing changes; otherwise the guard is claimed, one fetch is issued and its `save` remembered; only those fields change |
| Session.CaptureSession.CompleteFrame | GetImageCamServer/tm_capture_page.h:179-192 | a successful `takeFrame(true)` appends exactly its frame at the end of the buffer; a failure leaves the buffer as it was and sets "Camera error"; `isRecording` is untouched and the guard is released in every case |
| Session.CaptureSession.StartPreviewLoop | GetImageCamServer/tm_capture_page.h:263-270 | arms the preview timer and issues `takeFrame(false)` |
| Session.CaptureSession.PreviewTick | GetImageCamServer/tm_capture_page.h:264-267 | the preview timer issues `takeFrame(false)` only when not recording, and never changes the buffer |
| Session.CaptureSession.RecordingTick | GetImageCamServer/tm_capture_page.h:208 | the armed recording timer issues `takeFrame(true)`, subject to the guard |
| Session.CaptureSession.EditInterval | GetImageCamServer/tm_capture_page.h:201-202 | editing the control changes only the control; a running timer keeps the interval it was armed with |
| Session.CaptureSession.StartRecording | GetImageCamServer/tm_capture_page.h:195-209 | a no-op while recording, so the buffer is kept; otherwise empties the buffer, writes the resolved interval back, arms the timer with it, enters recording and issues one `takeFrame(true)` |
| Session.CaptureSession.StopRecording | GetImageCamServer/tm_capture_page.h:226-243 | a no-op unless recording; with an empty buffer it only stops and shows "Idle", with no export; a missing JSZip is reported and empties the buffer; otherwise the archive of the buffer is queued for generation |
| Session.CaptureSession.CompleteExport | GetImageCamServer/tm_capture_page.h:243-260 | when generation settles the archive is downloaded as `tm_captures_<ms>.zip` ("Download ready") or the error is shown; in both cases the buffer ends empty and a return to "Idle" is scheduled |
| Session.CaptureSession.IdleTimerFires | GetImageCamServer/tm_capture_page.h:259 | the delayed `setStatus("Idle")` sets the status and nothing else |
| Events.Dispatch | GetImageCamServer/tm_capture_page.h:174-280 | every event the browser can deliver keeps the session invariant, and after it at most one fetch is in flight |
| Events.Run | GetImageCamServer/tm_capture_page.h:174-192 | across any sequence of timer firings, clicks and completions the invariant holds, so at the end one fetch is in flight exactly while `pendingFrame` holds and none otherwise |
| Events.SecondTickFails | GetImageCamServer/tm_capture_page.h:179-192 | three recording ticks with the second fetch failing leave frames 1 and 3 and the session still recording |
| Events.ShortIntervalRaised | GetImageCamServer/tm_capture_page.h:201-202 | an interval of 50 becomes 200 in the control and in the timer |
| Events.ThreeFramesExported | GetImageCamServer/tm_capture_page.h:219-259 | three frames then stop give one download holding `capture_0001.jpg`..`capture_0003.jpg` in order, and an empty buffer |
| Events.LateFrameAfterStop | GetImageCamServer/tm_capture_page.h:182-184 | a fetch issued before stop still appends its frame after stop |
| Events.OneFrameQueued | GetImageCamServer/tm_capture_page.h:226-243 | one frame then stop queue the archive holding that frame alone for generation, with status "Preparing ZIP..." and the frame still in the buffer |
| Events.RestartDuringExport | GetImageCamServer/tm_capture_page.h:231-258 | a start during generation is followed by the old export emptying the new recording's buffer |

## Left out

- HTML markup, CSS and the enabling and disabling of the buttons (lines 4-76, 205-206, 231-232): presentation only. Clicks are modelled as allowed at any time; each operation guards itself.
- The `PROGMEM` raw-string wrapper (lines 1-3): it only stores the page in flash.
- `fetch('/capture?_ts=...')` and `Date.now()` (lines 99, 247): network and clock. A fetch's outcome is the `FrameOutcome` argument of `CompleteFrame`, and the export time is the `epochMillis` argument of `CompleteExport`.
- Decoding, resampling and JPEG encoding (`createImageBitmap`, `blobToImage`, `drawImage`, `toBlob` at quality 0.92, lines 106-115 and 132-156): browser calls. `resizeTo96`'s result, or its failure, is part of `FrameOutcome`. `ApplyGrayscale` is modelled on its own.
- Grayscale.ApplyGrayscale: takes the luma as a parameter, because `Math.round` of the floating-point weighted sum can differ from the exact-rational `Luma601` at half-way points. `Uint8ClampedArray` clamping is not modelled, because `Luma601` never leaves the byte range. The method requires a length that is a multiple of 4, which `getImageData` always returns.
- Session.CaptureSession.CompleteFrame: the two `await`s of `takeFrame` (fetch, then resize) settle in one callback. The preview therefore changes at the resize's completion, not at the fetch's. No other operation reads the preview, and `pendingFrame` stays set in between, so nothing else observes the difference.
- `updatePreview`'s object-URL revocation, `updateCount` and `console.error`: the preview is a single field, so there is at most one preview at a time; the count label is `|captures|`.
- `generateAsync` internals, the ZIP byte format, and the download link with its object URL (lines 218-251): a foreign library and the DOM. A generated archive is the list of files it was built from.
- `Number(intervalInput.value)`: the browser's string-to-number conversion is not modelled; the control holds the number it yields. The write-back `interval.toString()` is modelled as storing the number, which `Number` reads back unchanged.
- Timer periods (1300 ms preview, the user interval, the 1000 ms and 1200 ms timeouts): timing, not logic. Each firing is an event.
- The `beforeunload` handler (lines 282-287): page teardown; no callback runs after it.
