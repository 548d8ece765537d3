# Tello drone control: command language and visual servoing

A Dafny model of the decision-making core of a DJI Tello drone controller.
An AI assistant proposes drone commands in free text. The drone also follows
a detected target with a small control loop. The model covers four pieces.

- **Command validation and extraction** (`chatbot.dfy`). `validate_command`
  accepts the ten Tello verbs. A move (`up`, `down`, `left`, `right`,
  `forward`, `back`) needs one integer argument in 20..500 cm. A rotation
  (`cw`, `ccw`) needs one integer argument in 1..360 degrees. `takeoff` and
  `land` take no argument. The verb is matched in lower case. The run_ai
  scan splits the AI reply at newlines. It takes the command from the last
  line that starts with `[DECISÃO]`, and raises the continue flag when some
  line starts with `[CONTINUA]`.
- **Forwarding** (`tello_control.dfy`). `process_ai_command` queues the
  command, unchanged, when its base verb is one of the valid commands.
  Matching is exact and case-sensitive. A command of spaces alone raises.
- **Visual servo, current version** (`follow_servo.dfy`). The step turns
  (yaw) and climbs (up/down) toward a bounding box in a 960x720 frame. It
  acts only while the box area lies strictly between 20000 and 80000. Errors
  are smoothed as `0.8 raw + 0.2 previous` and clipped to ±200. The speed is
  then `int(clip(0.2 e + 0.2 (e - prev), -100, 100))`.
- **Visual servo, older version** (`qr_tracking.dfy`). The step works on an
  800x600 frame with raw errors and a ±25 forward nudge. It sends a command
  only for a single QR code labelled `dados de leitura`.

Python's string builtins used by the core are modelled in `pystrings.dfy`:
`strip`, `split()`, `split('\n')`, `lower`, `startswith`, `replace(pat, '')`
and `int(str)`. The core never calls `str(int)`. It is modelled as
`PyStrings.IntToString`, the inverse of `int(str)`, only to write the text
of a command (`Chatbot.Format`) and to state round trips. The shared servo
arithmetic is in `servo_law.dfy`: floor halves, `np.clip`, `int()` on
floats and the PD law. Gains and smoothing weights are exact reals.

Python's module globals become object fields. `prevErrorX`/`prevErrorY` of
`follow` are the fields of `FollowServo.FollowController`. `prevErrorX`,
`prevErrorY`, `width_detect` and `text` of `tracking` are the fields of
`QrTracking.QrTracker`. Each call of `send_rc_control` or `add_command` is
the returned value of the method or function that models the step.

Outside the band, `follow` assigns a forward/back speed of 15 to a box
that is too small and -15 to one that is too large
(codes/modules/tracking_base.py:73-76). It then sends `(0, 0, 0, 0)`
there instead (codes/modules/tracking_base.py:81-82). Inside the band the
speed keeps its initial value 0. So the forward/back speed that reaches
the drone is always 0. `FollowServo.FollowController.Follow` states this.

## Model

| member | source | states |
|---|---|---|
| PyStrings.StripStartIsSuffix | codes/modules/chatbot.py:157 | `lstrip` removes a leading run of whitespace and nothing else |
| PyStrings.StripEndIsPrefix | codes/modules/chatbot.py:157 | `rstrip` removes a trailing run of whitespace and nothing else |
| PyStrings.Strip | codes/modules/chatbot.py:129 | the stripped text neither starts nor ends with whitespace |
| PyStrings.StripIsInfix | codes/modules/chatbot.py:129 | `strip` returns a contiguous piece of the input, with only whitespace cut on either side |
| PyStrings.StripOfSpaces | codes/modules/chatbot.py:157-159 | stripping all-whitespace text leaves nothing |
| PyStrings.Words | codes/modules/chatbot.py:157 | every `split()` token is non-empty and holds no whitespace |
| PyStrings.WordsEmptyIffSpaces | codes/modules/chatbot.py:157-159 | `split()` yields no token exactly when the text is empty or all whitespace |
| PyStrings.WordsAppendSpace | codes/modules/chatbot.py:157 | a trailing whitespace character does not change the tokens |
| PyStrings.WordsOfStrip | codes/modules/chatbot.py:157 | `strip().split()` has the same tokens as `split()` |
| PyStrings.WordsCons | codes/modules/chatbot.py:157 | a word followed by whitespace and more text splits into that word and the tokens of the rest |
| PyStrings.WordsOfPair | codes/modules/chatbot.py:157 | "verb argument" splits into exactly the verb and the argument |
| PyStrings.FirstWordPosition | codes/modules/tello_control.py:14 | the first `split()` token is the first maximal run of non-whitespace characters, preceded only by whitespace |
| PyStrings.FirstWordUnique | codes/modules/tello_control.py:14 | the first word of a text and its position are unique |
| PyStrings.Lower | codes/modules/chatbot.py:161 | `lower()` keeps the length of the text |
| PyStrings.LowerIdempotent | codes/modules/chatbot.py:161 | lower-casing twice is lower-casing once |
| PyStrings.StartsWithCharwise | codes/modules/chatbot.py:128 | `startswith(p)` holds iff `p` is no longer than the text and agrees with it character by character |
| PyStrings.LowerOfLowerAscii | codes/modules/chatbot.py:161 | lower-case ASCII text is its own `lower()` |
| PyStrings.RemoveAll | codes/modules/chatbot.py:129 | `replace(marker, '')` never lengthens the text |
| PyStrings.RemoveAllSkipsMatch | codes/modules/chatbot.py:129 | an occurrence of the marker at the front is removed, and the rest is treated as if it stood alone |
| PyStrings.RemoveAllKeepsOther | codes/modules/chatbot.py:129 | a first character that does not start an occurrence is kept, in front of the result for the rest |
| PyStrings.RemoveAllUntouched | codes/modules/chatbot.py:129 | text without the marker is left unchanged by `replace` |
| PyStrings.SplitOn | codes/modules/chatbot.py:126 | `split('\n')` gives at least one piece, no piece holds a newline, and joining the pieces with newlines gives the reply back |
| PyStrings.ParseInt | codes/modules/chatbot.py:171 | a parsed number's text ends with a digit, and a negative one starts with '-' |
| PyStrings.ParseIntAccepts | codes/modules/chatbot.py:171 | `int(s)` succeeds iff `s` is a digit run (single underscores between digits allowed) with at most one leading '+' or '-' |
| PyStrings.IntToString | codes/modules/chatbot.py:171 | `str(n)` is a single `split()` token |
| PyStrings.NatToStringValue | codes/modules/chatbot.py:171 | the decimal digits of `str(n)` spell `n` |
| PyStrings.ParseIntOfIntToString | codes/modules/chatbot.py:171 | `int(str(n)) == n` for every integer |
| Chatbot.ValidateCommand | codes/modules/chatbot.py:146-183 | an accepted command is present and its `split()` tokens pass the verb and argument rules |
| Chatbot.ValidateParts | codes/modules/chatbot.py:158-183 | accepted tokens are one or two, the first a known verb in lower case; a bare verb stands alone; a move or rotation has exactly one integer argument within its range |
| Chatbot.ValidateByTokens | codes/modules/chatbot.py:154-161 | acceptance depends only on the `split()` tokens: the leading `strip()` changes nothing |
| Chatbot.VerbClasses | codes/modules/chatbot.py:163-179 | the ten verbs split into six moves, two rotations and two bare verbs, with no overlap |
| Chatbot.ValidateRejectsBlank | codes/modules/chatbot.py:154-159 | `None`, the empty string and whitespace-only text are rejected, without an error |
| Chatbot.ValidateNeedsKnownVerb | codes/modules/chatbot.py:161-164 | an accepted command's first token, lower-cased, is one of the ten verbs |
| Chatbot.ValidateIgnoresVerbCase | codes/modules/chatbot.py:161 | two commands whose verbs agree in lower case and whose other tokens are equal are both accepted or both rejected |
| Chatbot.ValidateArgumentVerbs | codes/modules/chatbot.py:167-177 | a move or rotation is accepted iff there are exactly two tokens and the second parses as an integer in 20..500 (moves) or 1..360 (rotations), bounds included; a non-integer argument is a rejection, not an error |
| Chatbot.ValidateBareVerbs | codes/modules/chatbot.py:179-183 | `takeoff` and `land` are accepted iff they are the only token |
| Chatbot.DirectionWord | codes/modules/chatbot.py:167 | every direction's word is a move verb |
| Chatbot.Verb | codes/modules/chatbot.py:17-19 | every command's verb is one of the ten verbs |
| Chatbot.Format | codes/modules/chatbot.py:157-171 | a command's text starts with its verb |
| Chatbot.VerbIsLowerAscii | codes/modules/chatbot.py:17-19 | every verb is a non-empty lower-case ASCII word |
| Chatbot.ValidatePartsWithArgument | codes/modules/chatbot.py:167-177 | for tokens "verb number", acceptance is exactly the verb's range check on the number |
| Chatbot.ValidatePartsBare | codes/modules/chatbot.py:179-183 | a lone bare verb is accepted |
| Chatbot.ValidateFormat | codes/modules/chatbot.py:146-183 | the text of any command is accepted iff its argument is within the command's limits |
| Chatbot.ValidateFormatWithArgument | codes/modules/chatbot.py:167-177 | "verb n" is accepted iff `n` is within the verb's range |
| Chatbot.DecisionOf | codes/modules/chatbot.py:128-133 | a command taken from a decision line is non-empty, trimmed, and not "nenhum comando necessário" in any case |
| Chatbot.MarkersExclusive | codes/modules/chatbot.py:128-137 | no line starts with both markers, so a decision line never raises the continue flag |
| Chatbot.ExtractDecision | codes/modules/chatbot.py:121-139 | the continue flag is raised iff some line starts with `[CONTINUA]`; the command is the one carried by the last line starting with `[DECISÃO]`, and `None` when there is no such line |
| Chatbot.DecisionOfMarkedLine | codes/modules/chatbot.py:128-133 | a marker at the front of a line is removed before anything else: the line yields what the text after it yields |
| Chatbot.DecisionOfUnmarkedRest | codes/modules/chatbot.py:128-133 | a decision line holding one marker yields its stripped remainder, unless that is empty or the no-command phrase |
| Chatbot.RepeatedMarkerIgnored | codes/modules/chatbot.py:129 | a marker written twice at the front yields the same as a single one |
| Chatbot.DecisionOfFormat | codes/modules/chatbot.py:128-133 | the line "[DECISÃO] c" yields exactly the text of command `c` |
| Chatbot.DecisionOfPadded | codes/modules/chatbot.py:128-133 | a decision line with trimmed, bracket-free text after the marker yields that text |
| Chatbot.DecisionOfDoubleMarkedFormat | codes/modules/chatbot.py:128-133 | the line "[DECISÃO][DECISÃO] c" also yields exactly the text of command `c` ("up 30" for `up 30`) |
| Chatbot.DecisionOfDoublePadded | codes/modules/chatbot.py:128-133 | with the marker doubled, trimmed bracket-free text after it is still yielded unchanged |
| Chatbot.FormatEnds | codes/modules/chatbot.py:129-130 | a command's text starts with a lower-case letter other than 'n' and ends without whitespace |
| Chatbot.NotNoCommandPhrase | codes/modules/chatbot.py:130 | text starting with a letter other than 'n' is never the no-command phrase in any case |
| Chatbot.StripOfPadded | codes/modules/chatbot.py:129 | stripping the space after the marker gives the command text back |
| Chatbot.NoMarkerInBracketFree | codes/modules/chatbot.py:129 | text without '[' holds no decision marker |
| Chatbot.FormatHasNoBracket | codes/modules/chatbot.py:129 | a command's text holds no '[' |
| TelloControl.BaseCommand | codes/modules/tello_control.py:14 | with no space the base is the whole command; with a space it is missing exactly when the command is all whitespace, and otherwise it is the first `split()` token: a word preceded only by whitespace and followed by whitespace or the end |
| TelloControl.ProcessAiCommand | codes/modules/tello_control.py:7-16 | at most one command is queued, and it is the original command unchanged; it is queued iff the base verb is a valid command, and the call raises iff the command has a space but no token |
| TelloControl.ValidCommandsAreCommandList | codes/modules/tello_control.py:1-3 | the forwarder's valid commands are the validator's ten verbs |
| TelloControl.SpacesRaise | codes/modules/tello_control.py:14 | the command " " makes `split()[0]` fail |
| TelloControl.ValidCommandsAreLowerAscii | codes/modules/tello_control.py:1-3 | every valid command is a lower-case ASCII word |
| TelloControl.OtherCaseVerbValidatedButDropped | codes/modules/tello_control.py:14-15 | a move or rotation within limits, with its verb written in another case ("Forward 30"), is accepted by the validator and then dropped |
| TelloControl.TrailingWhitespaceValidatedButDropped | codes/modules/tello_control.py:14-15 | `takeoff` or `land` followed by a whitespace character other than a space ("takeoff\n") is accepted by the validator and then dropped |
| TelloControl.ValidatedIsQueued | codes/interface.py:155-157 | a validated command whose verb is lower-case and whose only whitespace is spaces is queued unchanged |
| TelloControl.FormatIsQueued | codes/modules/tello_control.py:14-16 | the text of every command is queued unchanged |
| ServoLaw.FloorHalf | codes/modules/tracking_base.py:44-45 | the box centre is the floor of the midpoint |
| ServoLaw.Clip | codes/modules/tracking_base.py:61-62 | the clipped value lies in the interval, and a value already inside is unchanged |
| ServoLaw.ClipIsNearest | codes/modules/tracking_base.py:61-62 | clipping moves a value to the nearest point of the interval |
| ServoLaw.ClipNonExpansive | codes/modules/tracking_base.py:61-62 | clipping never moves a value away from any point of the interval |
| ServoLaw.ClipMonotone | codes/modules/tracking_base.py:69-70 | clipping preserves order |
| ServoLaw.Truncate | codes/modules/tracking_base.py:69-70 | `int()` on a float rounds toward zero |
| ServoLaw.TruncateTowardZero | codes/modules/tracking_base.py:69-70 | truncation keeps the sign and never increases the magnitude |
| ServoLaw.TruncateMonotone | codes/modules/tracking_base.py:69-70 | truncation preserves order |
| ServoLaw.TruncateOfInt | codes/modules/tracking_base.py:69-70 | truncation fixes whole numbers |
| ServoLaw.PdSpeed | codes/modules/tracking_base.py:69-70 | every speed is an integer in -100..100 |
| ServoLaw.PdSpeedFollowsTerm | codes/modules/tracking_base.py:69-70 | the speed has the sign of `Kp e + Kd (e - prev)` and no larger magnitude |
| ServoLaw.PdSpeedSaturates | codes/modules/tracking_base.py:69-70 | a PD term of 100 or more in magnitude gives exactly ±100 |
| ServoLaw.PdSpeedMonotone | codes/modules/tracking_base.py:69-70 | a larger error never gives a smaller speed |
| ServoLaw.PdSpeedAntitone | codes/modules/tracking_base.py:69-70 | a larger previous error never gives a larger speed |
| ServoLaw.PdSpeedAtRest | codes/modules/tracking_base.py:69-70 | a centred target that was centred before gives speed 0 |
| FollowServo.SmoothedError | codes/modules/tracking_base.py:57-62 | the smoothed error lies in -200..200 |
| FollowServo.SmoothedBetween | codes/modules/tracking_base.py:57-58 | within the limit, the smoothed error lies between the raw and the previous error |
| FollowServo.SmoothedContracts | codes/modules/tracking_base.py:57-62 | each frame closes at least 80% of the gap between the previous and the raw error |
| FollowServo.ShrunkIsScaled | codes/modules/tracking_base.py:57-58 | shrinking a gap by 0.2 per frame for `n` frames scales it by 0.2 to the power `n` |
| FollowServo.SmoothingShrinksGap | codes/modules/tracking_base.py:57-93 | over `n` frames of a still box, the gap to the raw error shrinks by a factor 0.2 per frame |
| FollowServo.SmoothingConverges | codes/modules/tracking_base.py:57-93 | for a still box, the stored error converges geometrically to the raw error |
| FollowServo.SmoothedFixedPoint | codes/modules/tracking_base.py:57-62 | a stored error equal to the raw error stays put |
| FollowServo.FollowController.constructor | codes/modules/tracking_base.py:12-13 | both previous errors start at 0 |
| FollowServo.FollowController.Follow | codes/modules/tracking_base.py:26-95 | one command per call with speeds in -100..100 and no sideways or forward/back motion. Strictly inside the 20000..80000 band, the stored errors are the smoothed, clipped errors from centre (480, 360) and the command carries their PD speeds. Outside the band, ends included, the command is all zeros and the stored errors are 0 |
| FollowServo.FollowTwoFrames | codes/modules/tracking_base.py:26-95 | the same 200x200 box seen twice from rest gives (0, 0, -12, 6), then (0, 0, -8, 4) |
| QrTracking.QrTracker.constructor | codes/tracking_base.py:11-21 | the previous errors and the width start at 0, the text empty |
| QrTracking.QrTracker.Tracking | codes/tracking_base.py:24-82 | a command is sent iff there is exactly one detection labelled "dados de leitura". It carries the PD speeds, in -100..100, on the raw errors from centre (400, 300), and a forward speed of 25 below area 20000, -25 above 80000, 0 otherwise. The errors (0 with no detection), the box width and the label are stored on every call |
| QrTracking.LostFrameResetsDerivative | codes/tracking_base.py:61-81 | a box seen right after a frame with no detection is turned toward at least as fast as the same box seen twice in a row |

## Left out

- The Gemini chat session, prompt construction, WAV encoding, the `send_message` call and its error path (codes/modules/chatbot.py:21-120,141-144) are network and foreign-library calls. The reply text is the input of `Chatbot.ExtractDecision`.
- `Chatbot.ExtractDecision` models only the scan of the reply. The reply text itself is returned unchanged by run_ai.
- The Streamlit interface, webcam capture, threads and video loop (codes/interface.py, codes/main.py, codes/drone_controller.py) are I/O and concurrency. The validate-then-forward step at codes/interface.py:155-157 appears only through the lemmas about `TelloControl.ProcessAiCommand`.
- `tello_control.readQueue`, `moves`, `search`, `stop_searching`, `enable_search` and the `tello.add_command` queue are not part of this model: they are referenced, but their code is not shown.
- The `response` and `log_messages` globals of codes/modules/tello_control.py:4-5 are never written by `process_ai_command`. The model has no state for them.
- All `cv2` drawing (`draw`, codes/modules/tracking_base.py:85-89, codes/tracking_base.py:51-55) is rendering with no effect on control. So is the `print` at codes/tracking_base.py:77.
- `detect_qr.process` (codes/tracking_base.py:34) is not part of this model. Its outputs are the `Detection` passed to `QrTracking.QrTracker.Tracking`.
- `FollowServo.FollowController.Follow` does not take the `tello`, `frame`, `detections` and `text` arguments. `follow` reads them only for sending and drawing. The sent command is the method's result.
- The unused globals `width_detect` and `text` of codes/modules/tracking_base.py:23-24 and `old_move` of codes/tracking_base.py:22 are never written by the modelled steps and are left out.
- Floating point: gains, smoothing weights and errors are exact reals, so the rounding of Python floats is not modelled. `int()` truncation is modelled exactly.
- PyStrings.Lower: Python's `lower()` is modelled for ASCII, the Latin-1 upper-case block and KELVIN SIGN only. This decides every comparison the core makes, against the ten verbs and "nenhum comando necessário".
- PyStrings.ParseInt: Python's `int(str)` is modelled for an optional sign and ASCII digits with single underscores between digits. Non-ASCII decimal digits are not accepted, and surrounding whitespace never occurs because the argument is a `split()` token. The model has no limit on the number of digits. Python 3.11 and later (and 3.10.7) raise ValueError for a string of more than 4300 digits, leading zeros included. So `validate_command` rejects "forward " followed by 4299 zeros and "30" there, while the model accepts it.
