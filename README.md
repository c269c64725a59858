# Face authentication with a blink check — a Dafny model

This project models the core of a small face-authentication web application.

- A Flask server (`app.py`) enrolls a user from one camera frame and a name. It refuses a face too close to an enrolled one.
- The server recognizes a returning face by its nearest stored encoding (`/check_face`), or by the first encoding `compare_faces` accepts (`/login`).
- It answers whether one frame shows a blink: the mean eye aspect ratio of the first face is below 0.2 (`/detect_action`). The server keeps no blink state. `/check_face` and `/login` never consult `/detect_action`, so the server itself does not enforce a blink before recognition.
- Face encodings are stored in the `users` table as base 64 text of their little-endian `float64` bytes.
- The browser client (`static/js/main.js`) polls `/detect_action` up to 50 times and asks `/check_face` only after two blink frames. That client-side count is the only blink gate. The client never calls `/login`.
- The dashboard (`static/js/dashboard.js`) lists the users, escaping each name for HTML.
- Helper classes under `utils/` wrap the face library, decode and size-check images, and colour and score stored emotions.

The face-recognition library, OpenCV and NumPy's `norm` are not part of this model. They enter as the function values of `Vision.Backend`. The properties proved about the server hold for every backend, or for every backend whose `face_distance` is a distance (`Vision.IsDistance`).

Modules, one per source component:

- `Common`: `Option`, `Result`, bytes.
- `Text`: `str.split`, `str.strip`.
- `Base64`: RFC 4648, section 4.
- `StoredEncoding`: `float64` words and the stored text.
- `Vision`: the library boundary.
- `Liveness`: the eye aspect ratio.
- `FaceAuthServer`: `app.py`, with class `App` holding the `users` table, the next `AUTO_INCREMENT` id and the session.
- `Config`, `FaceRecognitionUtils`, `ImageProcessor`, `EmotionUtils`: the `utils/` helpers and `config.py`.
- `Dashboard`: `escapeHtml` and `updateUsersTable`.
- `FaceAuthClient`: the `FaceAuth` counters.

Three behaviours of the code are worth stating outright, because a reader might expect otherwise:

- A frame without landmarks is an ordinary "no blink" reply (`detected: False`), not a distinct failure.
- `/register` checks for a face before it checks the frame size.
- `/check_face` and `/register` use a 0.4 distance, while `/login` accepts on `compare_faces` at tolerance 0.6. These are two independent criteria, not one two-tier policy.

## Model

| member | source | states |
|---|---|---|
| Text.Split | app.py:105 | `str.split(sep)` gives at least one piece and no piece contains the separator |
| Text.JoinSplit | app.py:105 | joining the pieces with the separator gives back the original text |
| Text.SecondPiece | app.py:105 | `split(',')[1]` exists exactly when the text contains a comma (an `IndexError` otherwise); it is then the second piece of `Split`, which contains no comma |
| Text.SplitHasSecondPiece | app.py:105 | there are at least two pieces exactly when the separator occurs |
| Text.LeadingSpaces | app.py:99 | the leading white space that `strip` removes: all white space, followed by a non-space |
| Text.TrailingStart | app.py:99 | the trailing white space that `strip` removes: all white space, preceded by a non-space |
| Text.Strip | app.py:99 | `strip()` is empty exactly when every character is white space; otherwise it starts and ends with a non-space and is the text between the removed runs |
| Base64.SextetOf | app.py:128 | a character decodes to a sextet only when that sextet encodes back to the character |
| Base64.SextetOfCharOf | app.py:128 | every sextet's character decodes back to the sextet |
| Base64.Encode | app.py:136 | `b64encode` writes 4 characters per started group of 3 bytes |
| Base64.EncodeAlphabet | app.py:136 | every written character is in the alphabet, except `=` padding in the last two positions |
| Base64.DecodeTriple | app.py:128 | a full group of four characters decodes to the three bytes it encodes |
| Base64.DecodeSingle | app.py:128 | a `xx==` group decodes to its one byte |
| Base64.DecodePair | app.py:128 | a `xxx=` group decodes to its two bytes |
| Base64.DecodeAppend | app.py:128 | decoding proceeds group by group |
| Base64.DecodeLast | app.py:128 | a lone group is decoded as the last group, padding allowed |
| Base64.Decode | app.py:128 | (definition) `b64decode` on canonical text, group by group, `=` padding allowed only in the last group |
| Base64.DecodeLength | app.py:128 | a text that decodes has a length that is a multiple of 4 and gives 3 bytes per group, less at most 2 for padding |
| Base64.DecodeEncodeOne | app.py:128-136 | one byte survives encoding and decoding |
| Base64.DecodeEncodeTwo | app.py:128-136 | two bytes survive encoding and decoding |
| Base64.DecodeEncode | app.py:128-136 | `b64decode(b64encode(bs)) == bs` for every byte string |
| StoredEncoding.LittleEndian | app.py:136 | a word is written as exactly `n` bytes |
| StoredEncoding.ValueOf | app.py:128 | reading `n` bytes gives a value below 256^n |
| StoredEncoding.ValueOfLittleEndian | app.py:128-136 | reading back the bytes of a word gives the word |
| StoredEncoding.LittleEndianValueOf | app.py:128-136 | writing back the value of bytes gives the bytes |
| StoredEncoding.ToBytes | app.py:136 | an encoding of `n` doubles is `8n` bytes |
| StoredEncoding.FromBytes | app.py:128 | `np.frombuffer(.., float64)` succeeds exactly when the length is a multiple of 8, giving one double per 8 bytes |
| StoredEncoding.FromBytesToBytes | app.py:128-136 | reading the bytes of an encoding gives the encoding back |
| StoredEncoding.LoadStore | app.py:128-136 | an encoding stored in the `face_encoding` column loads back unchanged |
| StoredEncoding.StoreInjective | app.py:136 | distinct encodings are stored as distinct text |
| StoredEncoding.Store | app.py:136 | `base64.b64encode(face_encoding)`, which reads the array's buffer: `n` doubles are stored as `4 × ceil(8n / 3)` characters |
| StoredEncoding.Load | app.py:128 | `np.frombuffer(base64.b64decode(text), dtype=np.float64)`: succeeds exactly when the text decodes to a whole number of 8-byte words, one double per word |
| Liveness.AspectRatio | app.py:42-48 | `(A + B) / (2C)` is finite exactly when `C` is non-zero, and then times `2C` gives `A + B` |
| Liveness.EyeAspectRatio | app.py:42-48 | the ratio exists exactly when the eye has at least six points (an `IndexError` otherwise) |
| Liveness.Mean | app.py:85 | the mean of both ratios is finite exactly when both are, and is their average |
| Liveness.BelowWithoutDivision | app.py:87 | for a non-degenerate eye the ratio is below `t` exactly when `A + B < 2tC` |
| Liveness.DegenerateEyeNeverBlinks | app.py:47 | an eye with zero corner distance never produces a blink, whatever the other eye shows |
| Liveness.ClosedLidsGiveZero | app.py:42-48 | coinciding upper and lower lid points give ratio 0 |
| Liveness.ClosedEyesBlink | app.py:84-87 | two closed eyes are a blink |
| Liveness.OpenEyesDoNotBlink | app.py:84-89 | lid gaps of at least 0.4 of the corner distance on both eyes are not a blink |
| Liveness.BlinkNeedsOneClosedEye | app.py:84-86 | a blink needs one eye below 0.2, and both below always make one |
| Liveness.IsBlink | app.py:85-88 | (definition) the frame is a blink when the mean of both eye ratios is finite and strictly below 0.2 |
| FaceAuthServer.DecodeFrame | app.py:67-69 | no comma is an `IndexError`; a frame it returns is what OpenCV reads from the decoded payload after the first comma |
| FaceAuthServer.DecodeFrameCases | app.py:67-69 | every case: no comma is an `IndexError`, a payload that does not decode a `binascii.Error`, a decoded payload the frame OpenCV reads from it, or `UndecodableImage` when OpenCV reads nothing |
| FaceAuthServer.DetectAction | app.py:61-93 | a missing `image` is an error; no landmarks is "no blink"; the reply is a blink exactly when the first face has six-point eyes whose mean ratio is below 0.2 |
| FaceAuthServer.DetectUsesFirstFaceOnly | app.py:72-80 | faces after the first never change the reply |
| FaceAuthServer.StoredDistance | app.py:128-129 | (definition) a stored row's distance to the probe, `None` where its `face_encoding` does not read back |
| FaceAuthServer.Distances | app.py:186-189 | on a loading table, one distance per row, agreeing with `StoredDistance` row by row |
| FaceAuthServer.FirstWhere | app.py:127-133 | the first index satisfying the stop condition, with none before it; `None` when no index does |
| FaceAuthServer.FindDuplicate | app.py:127-133 | the `/register` loop leaves at the first row that fails to load or is closer than 0.4 |
| FaceAuthServer.NearestIndex | app.py:183-194 | the scan with strict `<` ends at the first row of minimal distance |
| FaceAuthServer.NearestIndexSnoc | app.py:192-194 | a new row replaces the choice only when strictly closer |
| FaceAuthServer.FindNearest | app.py:183-194 | with `face_distance` total, as in `Vision.Backend`: the `/check_face` loop fails exactly when a row does not load; otherwise it yields the first nearest row and its distance, or infinity on an empty table |
| FaceAuthServer.Recognized | app.py:197-212 | a face is recognized as the first nearest row when that row is closer than 0.4, and is unknown exactly when every distance is at least 0.4 |
| FaceAuthServer.FindLoginMatch | app.py:236-246 | the `/login` loop leaves at the first row that fails to load or that `compare_faces` accepts |
| FaceAuthServer.ValidateEnrollment | app.py:98-119 | a missing `image` and then a blank stripped name are refused first; an accepted request carries the stripped name and the first encoding of a frame with a face and both sides at least 200 |
| FaceAuthServer.EnrollmentChecks | app.py:104-119 | the remaining `/register` checks in order, both ways: a frame that does not decode reports its fault; then the frame is refused with "未检测到人脸" exactly when no face is found, with the low-quality message exactly when a face is found but a side is under 200, with `IndexError` exactly when no encoding exists, and is otherwise accepted with the stripped name and the first encoding |
| FaceAuthServer.CheckProbe | app.py:162-176 | a missing `image` is an error; a probe it proceeds with is the first encoding of a decoded frame in which a face was found |
| FaceAuthServer.CheckProbeCases | app.py:162-176 | for a present `image`, every case: an undecodable frame reports its fault; a decoded frame is refused with "未检测到人脸" exactly when no face is found; with a face it proceeds with the first encoding when there is one, and is an `IndexError` exactly when there is none |
| FaceAuthServer.LoginProbe | app.py:220-228 | a missing `image` is an error and every failure is a `/login` error; a probe it proceeds with is the first encoding of a decoded frame, with no face or size check |
| FaceAuthServer.LoginProbeCases | app.py:220-228 | for a present `image`, every case: an undecodable frame reports its fault; a decoded frame proceeds with its first encoding when there is one, and is an `IndexError` exactly when there is none |
| FaceAuthServer.AppendRow | app.py:27-41 | inserting a row with a larger id keeps ids increasing, and a loading row keeps the table loading |
| FaceAuthServer.App.constructor | app.py:27-41 | the table as found, an empty session, and the given `AUTO_INCREMENT` counter, which must exceed every id in the table (it may be higher than the last id + 1 after deletions) |
| FaceAuthServer.App.Register | app.py:95-153 | a refused or failed request changes nothing; otherwise, if no row stops the scan, the row is appended with the next id and the session set; a close row refuses as a duplicate and an unreadable row is an error |
| FaceAuthServer.App.CheckFace | app.py:159-215 | only the session changes: it is set to the recognized row's id; an unknown face or any error leaves it |
| FaceAuthServer.App.Login | app.py:217-254 | only the session changes: it is set to the first accepted row's id; no match is "user does not exist" |
| FaceAuthServer.CloseRowStopsEnrollment | app.py:130-133 | a row closer than 0.4 stops enrollment at that row or before it |
| FaceAuthServer.EnrollmentRefusedIffCloseRow | app.py:127-133 | on a loading table, `/register` refuses exactly when some row anywhere is closer than 0.4 |
| FaceAuthServer.ReEnrollmentIsDuplicate | app.py:127-133 | enrolling an already stored encoding is refused as a duplicate |
| FaceAuthServer.ExactMatchIsRecognized | app.py:183-198 | a stored encoding is recognized, at distance 0 |
| FaceAuthServer.LoginNeedNotPickNearest | app.py:236-240 | `/login` can accept a farther user than `/check_face` would pick |
| FaceAuthServer.SingleStoredRow | app.py:127-198 | on a one-row table holding the probe, enrollment stops at that row and `/check_face` recognizes it |
| FaceAuthServer.EnrollmentScenario | app.py:95-215 | on an empty table: the first enrollment succeeds, the same face is then a duplicate, and `/check_face` recognizes it as user 1 |
| FaceRecognitionUtils.DetectFace | utils/face_recognition.py:7-12 | raises "未检测到人脸" exactly when no face is found, else returns the boxes |
| FaceRecognitionUtils.GetFaceEncoding | utils/face_recognition.py:15-20 | raises exactly when there is no encoding, else the first one |
| FaceRecognitionUtils.CalculateFaceDistance | utils/face_recognition.py:23-25 | the library's distance from the known to the probe encoding |
| FaceRecognitionUtils.CheckFaceSimilarity | utils/face_recognition.py:28-31 | similar exactly when the distance is strictly below `face_distance_threshold` |
| FaceRecognitionUtils.GetFaceLandmarks | utils/face_recognition.py:34-39 | raises exactly when there are no landmarks, else the first face's |
| FaceRecognitionUtils.SimilarityBounds | utils/face_recognition.py:28-31 | an encoding is similar to itself; a distance equal to the threshold is not similar |
| FaceRecognitionUtils.SimilarityIsTheEnrollmentGuard | utils/face_recognition.py:28-31 | the helper's test refuses exactly the enrollments `/register` refuses |
| ImageProcessor.Payload | utils/image_processor.py:11-12 | the text after the first comma when there is one, otherwise the whole text; never contains a comma |
| ImageProcessor.DecodeBase64Image | utils/image_processor.py:8-20 | an image exactly when the payload decodes and OpenCV reads it; every error carries the "图片处理失败: " prefix; a non-empty buffer OpenCV cannot read is "图片解码失败" |
| ImageProcessor.CheckImageQuality | utils/image_processor.py:22-28 | raises exactly when `shape[0]` or `shape[1]` is below 200 |
| ImageProcessor.QualityGateMonotone | utils/image_processor.py:25-26 | a larger image passes whenever a smaller one does |
| ImageProcessor.ScaledSides | utils/image_processor.py:35-36 | scaling by `target / max_dim` keeps the order of sides, and the longer side becomes exactly the target |
| ImageProcessor.ScaleBounds | utils/image_processor.py:35-36 | `int(side * scale)` is the whole part of `side × target / max_dim`, within one pixel of the exact size |
| ImageProcessor.ResizeTarget | utils/image_processor.py:30-37 | a 0×0 image divides by zero; otherwise the longer side becomes the target, the orientation is kept, and each new side is the whole part of `side × target / max_dim`, so the aspect ratio is kept up to one pixel |
| EmotionUtils.EmotionColor | utils/emotion_utils.py:1-11 | the alpha is copied; the colour is grey exactly for labels without their own colour |
| EmotionUtils.ColorsDistinct | utils/emotion_utils.py:3-10 | distinct coloured labels never share a colour |
| EmotionUtils.StoredLabelColors | config.py:33-41 | of the stored labels, exactly 恐惧 and 厌恶 are drawn grey, and the colour of 疲惫 is never used |
| EmotionUtils.EmotionTenths | utils/emotion_utils.py:19-29 | each label's value lies in [-1, 1] (in tenths); 开心 is 1, 伤心 is -1, and a label outside the table contributes 0 |
| EmotionUtils.Variance | utils/emotion_utils.py:13-35 | never negative; 0 without records; 0 exactly when the scaled deviations are all 0 |
| EmotionUtils.DeviationsZero | utils/emotion_utils.py:34 | the squared deviations sum to 0 exactly when every value equals the mean |
| EmotionUtils.TotalOfUniform | utils/emotion_utils.py:33 | `n` equal values sum to `n` times the value |
| EmotionUtils.NoVariationIffUniform | utils/emotion_utils.py:28-35 | the variation index is 0 exactly when every record weighs the same |
| Dashboard.ReplaceAll | static/js/dashboard.js:310-315 | a global replacement whose replacement lacks the pattern character leaves none of it |
| Dashboard.ReplaceAllAppend | static/js/dashboard.js:310-315 | a global replacement distributes over concatenation |
| Dashboard.ReplaceAllKeepsAbsent | static/js/dashboard.js:310-315 | a replacement never introduces a character absent from both the text and the replacement |
| Dashboard.ReplaceAllAbsent | static/js/dashboard.js:310-315 | replacing an absent character changes nothing |
| Dashboard.EscapeHtml | static/js/dashboard.js:309-316 | (definition) the five chained global replacements, `&` first; its meaning is stated by the lemmas below |
| Dashboard.EscapeHtmlOfChar | static/js/dashboard.js:309-316 | one character becomes its entity, or stays |
| Dashboard.EscapeHtmlAppend | static/js/dashboard.js:309-316 | escaping distributes over concatenation |
| Dashboard.EscapeHtmlIsPerChar | static/js/dashboard.js:309-316 | because `&` is replaced first, the five chained replacements escape each character independently |
| Dashboard.UnescapeChar | static/js/dashboard.js:309-316 | each entity reads back as its character |
| Dashboard.UnescapeEach | static/js/dashboard.js:309-316 | character-wise escaping reads back as the original |
| Dashboard.UnescapeEscapeHtml | static/js/dashboard.js:309-316 | an escaped name reads back as the original name |
| Dashboard.EscapeHtmlInjective | static/js/dashboard.js:309-316 | distinct names stay distinct once escaped |
| Dashboard.EscapedHasNoMarkup | static/js/dashboard.js:309-316 | no `<`, `>`, `"` or `'` survives escaping |
| Dashboard.EscapeEachGrows | static/js/dashboard.js:309-316 | a name without special characters is unchanged; one with them grows and contains `&` |
| Dashboard.EscapeHtmlFixedPoints | static/js/dashboard.js:309-316 | a name is unchanged exactly when it has none of the five characters; otherwise escaping it twice differs from escaping it once |
| Dashboard.RowOf | static/js/dashboard.js:175-184 | (definition) one `<tr>`: the escaped name, the latest emotion or `neutral` as the badge class, the latest emotion or "暂无记录", the time or "暂无记录" |
| Dashboard.TableRows | static/js/dashboard.js:172-191 | (definition) the rows of a non-empty user list, or the single "暂无数据" row |
| Dashboard.RowsOf | static/js/dashboard.js:173-185 | one row per user, in order |
| Dashboard.TableShowsEveryUser | static/js/dashboard.js:168-191 | with users: one row per user naming that user exactly and without markup; with none or a missing list: only the placeholder row |
| Dashboard.UpdateUsersTable | static/js/dashboard.js:168-191 | a missing table body is left alone; otherwise its rows become exactly the rows for the users |
| FaceAuthClient.DetectBody | app.py:72-93 | `/detect_action` sends no `status` field, and `detected` is true exactly for a blink |
| FaceAuthClient.CheckBody | app.py:170-215 | `/check_face` sends no `status` or `data` field, and `success` is true exactly when the scan completed |
| FaceAuthClient.ReadBlinkAsWritten | static/js/main.js:108 | (definition) `detectBlink` counts a blink only when the body's `status` is `'success'` |
| FaceAuthClient.ReadCheckAsWritten | static/js/main.js:152 | (definition) `checkFace` moves on only when `status` is `'success'` and `data.data.exists` is true |
| FaceAuthClient.AsWrittenNeverSeesBlink | static/js/main.js:108-121 | as written, every `/detect_action` reply counts as "no blink", even a blink |
| FaceAuthClient.AsWrittenNeverSeesMatch | static/js/main.js:152-158 | as written, every `/check_face` reply counts as a rejection |
| FaceAuthClient.ReadBlink | static/js/main.js:108 | a blink is counted exactly when `detected` is true |
| FaceAuthClient.ReadCheck | static/js/main.js:152 | the client moves on exactly when `success` and `exists` are both true |
| FaceAuthClient.ReadBlinkAgreesWithServer | static/js/main.js:108-118 | read as intended, a blink is counted exactly when the server saw one, and a "no blink" keeps the server's message |
| FaceAuthClient.ReadCheckAgreesWithServer | static/js/main.js:152-155 | read as intended, the client moves on exactly when the server recognized the face |
| FaceAuthClient.FaceAuth.constructor | static/js/main.js:22-25 | both counters start at 0, with at most 50 attempts |
| FaceAuthClient.FaceAuth.DetectBlink | static/js/main.js:81-97 | once the attempts are spent it gives up, resetting the attempts but keeping the blinks seen; otherwise it sends a frame |
| FaceAuthClient.FaceAuth.DetectFace | static/js/main.js:71-79 | without a running camera only an alert; otherwise the prompt and the first `detectBlink` |
| FaceAuthClient.FaceAuth.OnBlinkReply | static/js/main.js:107-126 | the second blink hands over to `checkFace`; a first blink or "no blink" spends an attempt and schedules a retry; a failed request stops with both counters kept |
| FaceAuthClient.FaceAuth.OnRetryTimer | static/js/main.js:121 | the timer runs the next `detectBlink` |
| FaceAuthClient.FaceAuth.OnCheckReply | static/js/main.js:151-165 | a recognized face goes to the dashboard with the counters untouched; a rejection or a failed request resets both counters |
| FaceAuthClient.PollWithoutBlinks | static/js/main.js:81-121 | with no blink seen, one click sends exactly as many frames as attempts are left, then gives up with the attempts reset |

## Left out

- Flask routing, the JSON request parsing, the MySQL connection and `fetchall`, and cursor handling are not modelled. A request is the `image` and `username` fields, and the table is a sequence of rows.
- The DOM is reduced to the rows of the table body and the text of `blink-text`. So are the camera, `fetch` and `setTimeout`.
- Of the exceptions, only those the modelled code raises are modelled. `str(e)` of a caught exception is the `errorText` parameter.
- The face-recognition library, OpenCV decoding and NumPy's `norm` are function values in `Vision.Backend`. `compare_faces` is kept abstract, so `/login`'s acceptance is not tied to `face_distance`.
- Floating point: distances, ratios and thresholds are exact reals. A `float64` is its 64-bit pattern, and bytes are little-endian, as on the usual hosts. NaN is reduced to `Liveness.NotFinite`.
- Base64.Decode: models only canonical base 64 and refuses the rest. Python's non-strict `b64decode` is more lenient than the model in three ways: it skips ASCII characters outside the alphabet (a non-ASCII character makes it raise, where the model also gives `None`), it stops after the first completed padded group (`"AA==AAAA"` gives one byte), and it ignores a stray `=` after complete groups (`"AAAA="` gives three bytes). The model agrees with Python on every text `b64encode` writes, which is every text `/register` stores.
- ImageProcessor.DecodeBase64Image: the wording of `binascii.Error` messages is not modelled. One fixed detail text stands for all of them.
- ImageProcessor.ResizeTarget: the target size is computed exactly. With floating point, `int(side * (224 / max_dim))` can round the longer side down to 223. `cv2.resize` itself is not part of this model.
- EmotionUtils.Variance: the model computes the variance exactly in tenths, as `sum((n*w - total)^2) / (100 * n^3)`, where `n` is the number of records and `total` the sum of their weights. This equals the two-pass float formula in exact arithmetic. The final `sqrt` and `* 100` are stated only by `EmotionUtils.IsVariationIndex`.
- EmotionUtils.EmotionColor: returns the colour's four components rather than the formatted `rgba(...)` text. `alpha` is the text formatted into it.
- FaceAuthClient.FaceAuth.DetectFace: a click is modelled only while no chain is running. A click during a chain starts a second chain in parallel, and such concurrent chains are not modelled.
- FaceAuthClient: the `blink-text` messages that `main.js` never reads back are kept as text. The camera error text of `startVideo` and the emotion-capture part of the page are left out.
- FaceAuthServer.FindNearest: `face_distance` is total in `Vision.Backend`. In NumPy it raises `ValueError` when a stored encoding that loads does not broadcast against the probe, that is, when its length differs from the probe's and neither length is 1 (a stored `""` loads as an empty encoding). `/check_face` turns that into an error reply (app.py:189). The model yields a distance instead, so the scan, and `App.CheckFace` on it, fails only on a row that does not load.
- FaceAuthServer.FindDuplicate: for the same reason, a loaded row of another length makes `/register` reply with an error (app.py:129), where the model's scan computes a distance and goes on; `App.Register` inherits this.
- FaceAuthServer.FindLoginMatch: `compare_faces` raises on such a row too (app.py:238), where the model's abstract verdict lets the scan go on; `App.Login` inherits this.
- ImageProcessor.DecodeBase64Image: on an empty payload (`"data:image/jpeg;base64,"`) `cv2.imdecode` raises its own assertion error, whose text follows the "图片处理失败: " prefix. The model's `imdecode` returns `None` and the reply is "图片解码失败". `FaceAuthServer.DecodeFrame` likewise reports `UndecodableImage` for that payload where the source's reply carries OpenCV's text.
- FaceAuthServer.App.Register: the `username` column is `VARCHAR(255)` (app.py:33). Under MySQL's strict mode a longer stripped name makes the `INSERT` fail with an error reply. The model has no length limit and appends the row.
- FaceAuthServer.App.Register: a JSON `null` username, which raises `AttributeError` on `.strip()`, is not modelled. A missing username is the empty name.
- The emotion analyzer, the emotion history and charts, search, logout and the dashboard's other views are not part of the core modelled here.

## Findings

| source | as written | input that shows it | evidently intended | confidence | as-written member | corrected member |
|---|---|---|---|---|---|---|
| static/js/main.js:108 | counts a blink only when `data.status === 'success'` | the `/detect_action` reply for a blink, `{detected: true, message: '检测到眨眼'}` (app.py:88), which has no `status` | count a blink when `detected` is true, or have the server wrap its replies as `{status, data}` | medium; not executed | FaceAuthClient.AsWrittenNeverSeesBlink | FaceAuthClient.ReadBlinkAgreesWithServer |
| static/js/main.js:152 | accepts only when `data.status === 'success' && data.data && data.data.exists` | the `/check_face` reply for a recognized face, `{success: true, exists: true, username}` (app.py:201-205) | accept when `success` and `exists` are true, or have the server wrap its replies as `{status, data}` | medium; not executed | FaceAuthClient.AsWrittenNeverSeesMatch | FaceAuthClient.ReadCheckAgreesWithServer |

The client and this server disagree on the shape of a reply. `main.js` reads `{status, data}` throughout: at lines 108 and 152, and at line 212 for `/record_emotion`. It also navigates to `/dashboard` and fetches `/get_user_list`, routes this `app.py` does not serve. The client may therefore have been written against a different revision of the server. In that case the repair belongs on the server side. The corrected members model the client-side repair.

With the client as written, no blink is ever counted. `FaceAuthClient.PollWithoutBlinks` shows the consequence: one click sends 50 frames and then gives up.
