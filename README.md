# YouTube voucher-code extractor, modelled in Dafny

`voucher_extractor.py` is a command-line tool. It checks that a URL looks like
a YouTube video URL, downloads the video, and samples about one frame per
second. Each sampled frame is sent to the Google Cloud Vision text detector,
and the recognised text is searched for voucher codes of the form
`XXXX-XXXX-XXXX` (upper-case letters and digits). The codes found in all
frames are merged into one set.

This project models the part of the tool that decides what the answer is:

- `CodeMatcher` (`code_matcher.dfy`): the code pattern and `re.findall` over
  it. It is a leftmost, non-overlapping scan of fourteen-character windows
  with word boundaries on both sides. The scanner is generic over the match
  test. Its result is proved equal to the only order-free characterisation:
  reported matches ascend and do not overlap, and every match lies inside one
  of them.
- `TextDetection` (`text_detection.dfy`): `extract_text_from_image`. It turns
  a detection response, or an exception from the client, into the text or a
  `RuntimeError` message.
- `Video` (`video.dfy`): a `VideoCapture` class. It is read one frame at a
  time, and its `isOpen`, `position` and release count are updated in place.
- `FrameSampling` (`frame_sampling.dfy`): which frames the
  `frame_count % frame_interval == 0` test selects, for positive and negative
  intervals.
- `Extractor` (`extractor.dfy`): `process_frame`, the `int(fps)` interval,
  the fatal guards of `extract_codes`, its read loop as a `while` loop over
  the capture, and the merge of the per-frame results. `Extraction` is the
  specification function of the whole extraction, and `ExtractCodes` is the
  imperative method proved against it.
- `UrlValidation` (`url_validation.dfy`): `validate_url`. A computable
  check is proved equivalent to a declarative decomposition of a prefix of
  the URL.
- `Wrappers` (`wrappers.dfy`): `Option` and `Result`.

Python's `\w` is Unicode-aware. The model leaves open which non-ASCII
characters are word characters: a `WordClass` parameter must agree with
`[A-Za-z0-9_]` on ASCII, and every property holds for every such class.

Behaviour of the code that the model keeps, where a reader might expect otherwise:

- The frame interval is `int(fps)`, which truncates toward zero, so a 29.97
  fps video is sampled every 29 frames, not rounded to 30.
- Only a frame rate of exactly 0 is refused. A rate in (-1, 1) gives interval
  0, and the first frame read then raises `ZeroDivisionError`. A negative
  rate of -1 or less samples every |k| frames, because Python's `%` is zero
  at the same places for k and -k.
- `cap.release()` is reached only on the normal path. On the fatal errors
  the capture is left unreleased.
- Results are merged by draining the futures one after another in
  submission order. The merged set is proved independent of that order.

## Model

| member | source | states |
|---|---|---|
| CodeMatcher.CodeShape | voucher_extractor.py:14 | a string is a code iff it has 14 characters, hyphens at positions 4 and 9, and an upper-case letter or digit everywhere else |
| CodeMatcher.MatchesAtIffNonWordNeighbours | voucher_extractor.py:14 | the pattern matches at `i` iff a code fills `s[i..i+14]` and the characters just before and just after it (if any) are not word characters |
| CodeMatcher.ScanFrom | voucher_extractor.py:69 | the scan returns offsets at or after `from` where the pattern matches and the whole match fits in the text, each at least 14 after the previous one |
| CodeMatcher.ScanComplete | voucher_extractor.py:69 | every match at or after `from` lies inside one of the reported matches |
| CodeMatcher.ScanIsLeftmostNonOverlapping | voucher_extractor.py:69 | the scan meets the order-free characterisation: ascending, non-overlapping and covering every match |
| CodeMatcher.DropFirstMatch | voucher_extractor.py:69 | a leftmost non-overlapping report from `from`, when the pattern matches at `from`, starts with `from` and continues as a report from `from + 14` |
| CodeMatcher.LeftmostNonOverlappingIsUnique | voucher_extractor.py:69 | any list of offsets meeting that characterisation is exactly what the scan returns, so `findall`'s result is determined by it |
| CodeMatcher.MatchOffsets | voucher_extractor.py:69 | every offset `findall` reports is a position where the whole pattern matches |
| CodeMatcher.FindAll | voucher_extractor.py:69 | every string `re.findall(CODE_PATTERN, text)` returns is a code |
| CodeMatcher.FindAllReportsBoundedMatches | voucher_extractor.py:69 | each reported code is the text at its offset, ascending and non-overlapping, with a non-word character or the text's end on both sides |
| CodeMatcher.FindAllEmptyIffNoMatch | voucher_extractor.py:69 | `findall` returns nothing iff the pattern matches nowhere in the text |
| CodeMatcher.CodeLiteral | voucher_extractor.py:14 | three groups of four code characters joined by hyphens form a code |
| CodeMatcher.FindsLoneCode | voucher_extractor.py:14 | a text that is exactly one code yields that code and nothing else, for every word class |
| CodeMatcher.FindsSampleCode | voucher_extractor.py:14 | `WXYZ-1234-5678` on its own yields itself |
| CodeMatcher.DropsTrailingGroup | voucher_extractor.py:14 | `ABCD-1234-EFGH-IJKL` yields only `ABCD-1234-EFGH`: a hyphen is not a word character, so the boundary holds |
| CodeMatcher.RejectsNearMatches | voucher_extractor.py:14 | lower-case groups and a three-character last group are not codes |
| CodeMatcher.RejectsCodeInsideWord | voucher_extractor.py:14 | a code preceded by a letter or followed by `_` is not reported |
| CodeMatcher.OverlappingMatchReportedOnce | voucher_extractor.py:69 | in four groups joined by hyphens, matches exist at 0 and at 5, but `findall` reports only the first |
| TextDetection.ExtractText | voucher_extractor.py:45-57 | the call fails iff the client raised or the response's error message is non-empty; every failure message has the `Error extracting text from image: ` prefix, wrapping `API Error: ` plus the service message or the client's message; otherwise the result is the first annotation, or "" when there is none |
| Extractor.ProcessFrame | voucher_extractor.py:59-69 | a frame fails iff JPEG encoding fails (with the fixed `ValueError` message when encoding reports failure) or text extraction fails (its message); otherwise its result is `findall` on the recognised text, and every item is a code |
| Extractor.ExtractionFailures | voucher_extractor.py:74-93 | the extraction fails iff the file does not open, the frame rate is 0, or the interval is 0 and a frame is read; checked in that order, with the messages "Unable to open video file", "Invalid video frame rate" and, for the modulo error, CPython 3.12's "integer modulo by zero" |
| Extractor.FrameInterval | voucher_extractor.py:82 | `int(fps)` truncates toward zero: for fps ≥ 0 it is the largest integer not above fps, for fps < 0 the smallest not below it |
| FrameSampling.SampledAtMultiples | voucher_extractor.py:86-96 | with interval k > 0, the submitted frames are exactly frames 0, k, 2k, … in order, and their count c satisfies c·k − k < n ≤ c·k |
| FrameSampling.SampledLength | voucher_extractor.py:86-96 | with interval k > 0, the number c of submitted frames satisfies c·k − k < n ≤ c·k for n frames read |
| FrameSampling.SampledCount | voucher_extractor.py:86-96 | with interval k > 0, ⌈n / k⌉ frames are submitted |
| FrameSampling.DivisibleInWindow | voucher_extractor.py:93 | within a window of k consecutive integers, only the multiple of k passes the `% k == 0` test |
| FrameSampling.ModNegatedDivisor | voucher_extractor.py:93 | `i % -k` and `i % k` are zero at the same `i` |
| FrameSampling.SampledIgnoresSign | voucher_extractor.py:93 | a negative interval selects the same frames as its magnitude |
| FrameSampling.SomeSampledFrame | voucher_extractor.py:86-96 | some submitted frame satisfies a property iff frame j·k does for some j < ⌈n / k⌉ |
| Extractor.MergedCodesMembers | voucher_extractor.py:98-102 | a string is in the merged set iff some successful frame result contains it |
| Extractor.MergedOutcomesMembers | voucher_extractor.py:94-102 | a string is merged from the submitted frames iff processing one of them succeeded and reported it |
| Extractor.MergeIgnoresOrder | voucher_extractor.py:98-102 | two collections of the same frame results, in any order, merge to the same set |
| Extractor.FailedFrameContributesNothing | voucher_extractor.py:101-102 | removing a failed frame's result leaves the merged set unchanged, so a failure loses no other frame's codes |
| Extractor.ReportedWithoutFailure | voucher_extractor.py:101-102 | a code is reported by the results iff it is reported by them without the failed one |
| Extractor.AllFramesFailedGivesNoCodes | voucher_extractor.py:98-105 | when every frame fails, `extract_codes` returns the empty set rather than raising |
| Extractor.MergeResults | voucher_extractor.py:98-102 | the loop over the futures yields exactly the merged set of the successful results |
| Extractor.ExtractionCollectsSampledCodes | voucher_extractor.py:71-105 | with a non-zero interval k the extraction succeeds, and a string is in its result iff it is a code some frame j·\|k\| (j < ⌈n / \|k\|⌉) reported without error |
| Extractor.ExtractionYieldsOnlyCodes | voucher_extractor.py:71-105 | every string `extract_codes` returns is a code |
| Extractor.ExtractCodes | voucher_extractor.py:71-105 | the method returns `Extraction`: `UnableToOpen` if the capture does not open, `InvalidFrameRate` for fps 0, `ModuloByZero` when the interval is 0 and a frame is read, otherwise the merged codes of the sampled frames; on success the capture has been read to the end and released once and is closed; on an error it was never released and stays open exactly when the file decoded (the handle leaks on the frame-rate and modulo errors), with no frame read for the two guards and one frame read for the modulo error; on every path the capture holds the file's frames and frame rate and is valid |
| Video.VideoCapture.constructor | voucher_extractor.py:74 | a new capture is open iff the file can be decoded, at position 0, never released |
| Video.VideoCapture.Read | voucher_extractor.py:89 | an open capture with frames left returns the next frame and advances by one; otherwise it returns nothing and stays put |
| Video.VideoCapture.Release | voucher_extractor.py:104 | the capture is closed and its release count goes up by one; the capture stays valid |
| UrlValidation.ValidateUrl | voucher_extractor.py:19-26 | the check accepts iff some prefix of the URL splits into scheme (optional), `www.` (optional), host, dot, domain, slash, path (optional) and an eleven-character id without `&`, `=`, `%` or `?` |
| UrlValidation.PathThenIdMeansSplit | voucher_extractor.py:24 | after a given site, the scan for a path and then an id succeeds iff the rest of the URL splits into an allowed path and an id |
| UrlValidation.ScanFindsSplit | voucher_extractor.py:24 | a successful scan after the site gives a path and an id |
| UrlValidation.SplitIsScanned | voucher_extractor.py:24 | a path and id after the site are found by the scan |
| UrlValidation.AnythingMayFollow | voucher_extractor.py:26 | `re.match` anchors only the start: any suffix keeps a valid URL valid |
| UrlValidation.AnchoredAtStart | voucher_extractor.py:21-26 | a valid URL has at least 20 characters and starts with `h`, `w` or `y` |
| UrlValidation.AcceptsWatchUrl | voucher_extractor.py:21-26 | a full `https://www.youtube.com/watch?v=` URL is accepted |
| UrlValidation.AcceptsShortUrl | voucher_extractor.py:21-26 | a `youtu.be/` short URL is accepted |
| UrlValidation.RejectsOtherSites | voucher_extractor.py:21-26 | another host, and an id cut short, are refused |

## Left out

- `download_video` (yt-dlp, temporary directories) and `main` (argument parsing, console output, file removal) are I/O around the core. The video file they produce enters the model as a `VideoFile` value.
- The Vision client call (`client.text_detection`) becomes the `detectText` parameter. It returns either a response (error message and annotation texts) or an exception message.
- `cv2.imencode` becomes the `encodeJpeg` parameter. Decoding and the container's frame rate are the fields of `VideoFile`, and a failed `cap.read()` in mid-stream is modelled as the end of the frames.
- The `ThreadPoolExecutor` is not modelled. Each frame's outcome is computed when it is submitted, and the futures are drained in submission order, as the code does. Because `MergeIgnoresOrder` holds, completion order cannot change the result.
- The per-frame error printout (`print` in the merge loop) is left out. Only the fact that the failure is skipped is modelled.
- Extractor.FrameInterval: the frame rate is a `real`, so NaN and infinite rates (`int()` raises on them) are not modelled.
- CodeMatcher.FindAll: which non-ASCII characters are word characters is a parameter (`WordClass`), not Python's Unicode tables.
- Video.VideoCapture.Release: releasing the capture on the error paths is not modelled, because the code does not do it. Every other form of resource cleanup is left out.
- `types.Image` construction and `buffer.tobytes()` are identity conversions on the encoded bytes.
- The Vision service is modelled as a function of the image bytes, so two submissions of identical frames always get the same outcome. A transient error that hits one request and not its identical twin (each `client.text_detection` call is a separate network request) is not represented by `Extraction`, `ExtractCodes` or `ExtractionCollectsSampledCodes`. The outcome-level lemmas (`MergedCodesMembers`, `MergeIgnoresOrder`, `FailedFrameContributesNothing`) hold for any sequence of outcomes, including such runs.
- Extractor.ProcessFrame: an exception raised by `cv2.imencode` itself (e.g. `cv2.error` on an empty image) is folded into `EncodingFailed` with the fixed message. The merged set is the same, because the merge loop catches every exception, but the message the code would print differs.
- Extractor.Message: the modulo-by-zero text comes from the Python interpreter, not the program. The model fixes CPython 3.12's wording, "integer modulo by zero"; older releases print "integer division or modulo by zero".
