# Dustbin sorting pipeline: a Dafny model of its decision layer

The Dustbin project drives a waste-sorting bin. Two cameras feed two object
detectors. The detected class names become numeric *flags*. Those flags and a
few fixed commands go to ESP8266 boards that move a robotic hand, a cutter and
a plate. The repository ships two deployments that do not share code:

- **helper.py + routes.py** run one cycle per `GET /process_garbage`. Phase 1
  captures camera 1 and looks for polythene. It sends `H`, `C`, `O` when
  polythene is found and `O` alone otherwise. Phase 2 captures camera 2,
  resolves flags, and sends `HAND_MOTOR:<min flag>` then `HAND_MOTOR:RESET`.
- **m.py** runs a background loop, started by `/start_process` or by
  `/receive_trigger`. Each iteration checks that camera 1 delivers a frame. It
  then runs four sub-steps. Each sub-step sends `MOVE`, captures camera 2, and
  sends the smallest flag to the flag board and `HAND_MOTOR:<flag>` (or
  `HAND_MOTOR:RESET`) to the motor board.

The model keeps everything deterministic and replaces the rest with inputs.
A captured image is `Frame(classNames)`: the class names the detector reports
for it, in order. For helper.py these are the names of every box of every
result; m.py iterates the prediction itself as class names. A camera fetch is an
`Option<Frame>`. `None` stands for a failed request, a non-200 status or an
undecodable image. Every operation is a pure function. Actuator traffic is the
returned list of `Command`s (helper deployment, whose `send_command` only logs)
or of HTTP `Request`s (m.py, whose `send_command`/`send_flag` issue GETs).

Modules, one per file:

| file | module | models |
|---|---|---|
| wrappers.dfy | `Wrappers` | `Option` |
| text.dfy | `Text` | `str.lower()`, `p in s`, `str(n)` and its decimal reading |
| detection.dfy | `Detection` | frames, dictionary lookup, the flag-collecting loop, `min` |
| commands.dfy | `Commands` | the command alphabet, its text form, the ESP8266 request URLs |
| http.dfy | `Http` | JSON replies of the Flask views |
| helper.dfy | `Helper` | helper.py: its two-entry table, normalisation, resolution, `detect_polythene`, `detect_biodegradable` |
| routes.dfy | `Routes` | routes.py: `process_garbage` |
| continuous.dfy | `Continuous` | m.py: its five-entry table, normalisation, `detect_biodegradable`, one loop iteration, `/receive_trigger`, `/start_process` |
| divergence.dfy | `Divergence` | where the two flag resolvers agree and where they differ |

The two resolvers really disagree. helper.py deletes spaces
(`"Biogas Ready"` → `biogasready` → 4). m.py turns spaces into `-`
(`"Biogas Ready"` → `biogas-ready` → no flag). In m.py a spaced name can only
ever reach flag 1 (`non-biodegradable`). The model keeps both and proves the
difference.

Points where the code behaves differently from what one might expect:

- With no flag detected, routes.py sends nothing in phase 2. Only m.py sends an
  explicit `HAND_MOTOR:RESET` in that case.
- helper.py's `send_command` only logs; it sends nothing over HTTP.
- m.py's loop never runs polythene detection. Camera 1's frame is only checked
  for presence.
- A successful `/process_garbage` issues 1, 3 or 5 commands. Phase 1 sends 1 or
  3 and phase 2 sends 0 or 2, so 2 and 4 cannot happen.
- m.py's detection step cannot run with the repository's own pickle. m.py:15-16
  loads `Models_pickle.pkl` as `model_data`, and pkl.py:7-13 writes a dict of
  two path strings to that file. Calling `.predict` on a dict raises
  `AttributeError`. The model assumes a detector that returns class names.
- m.py's `detect_biodegradable` has no guard for a missing frame. Its only
  caller checks first, so the model takes a `Frame`, not an `Option<Frame>`.

## Model

| member | source | states |
|---|---|---|
| Text.LowerInPlace | helper.py:88 | `str.lower()` keeps the length, leaves no upper-case letter, moves each upper-case letter to its lower-case partner in place and keeps every other character |
| Text.Contains | helper.py:69 | Python's substring test: true exactly when the pattern occurs at some index of the string |
| Text.NatToString | routes.py:42 | formatting a flag gives a non-empty run of digits, starting with '0' only for zero |
| Text.DecimalRoundTrip | m.py:37 | reading a flag's decimal text back gives the flag |
| Text.NatToStringInjective | m.py:84 | distinct flags are formatted as distinct texts |
| Detection.Lookup | m.py:58 | `dict.get` returns a value exactly for the table's keys, and that value is the one stored under the key |
| Detection.MatchedFlags | helper.py:84-97 | a flag is in the result exactly when some detected name resolves to it; never more flags than detections |
| Detection.MatchedFlagsAppend | helper.py:84-94 | flags come out in detection order: the flags of two detection runs in sequence are the two flag lists in sequence |
| Detection.MatchedFlagsSingle | helper.py:92-97 | a single name contributes exactly its mapped flag, or nothing when it is not in the table |
| Detection.UnmatchedLabelIgnored | helper.py:96-97 | an unrecognised name anywhere among the detections changes nothing and does not stop the scan |
| Detection.MinOf | helper.py:99-100 | the selected flag is a member of the non-empty flag list and no member is smaller |
| Detection.MinOfUnique | routes.py:41 | any member that bounds the list from below is the selected flag |
| Detection.MinOfExample | helper.py:100 | the minimum of [5, 4, 5] is 4 |
| Commands.Wire | routes.py:23-44 | every command text is non-empty; exactly the hand-motor commands start with `HAND_MOTOR:`, and for a flag the rest is the flag's decimal digits with no leading zero, as `str(f)` writes them |
| Commands.Url | m.py:29-37 | a command goes to `http://<ip>` with path `/command?value=` and the command text; a flag goes to the flag board `http://192.168.1.28` with path `/flag?value=` and the flag's digits |
| Commands.ParseHandMotor | routes.py:42 | the text `HAND_MOTOR:<flag>` reads back as the hand-motor command for that flag |
| Commands.ParseWire | routes.py:22-44 | every command text (`H`, `C`, `O`, `MOVE`, `HAND_MOTOR:<flag>`, `HAND_MOTOR:RESET`) reads back as the command that produced it |
| Commands.WireInjective | m.py:84 | two different commands never share a text |
| Commands.CommandUrlRoundTrip | m.py:29-30 | `http://<ip>/command?value=<cmd>` reads back as that board and command when the ip holds no '/' |
| Commands.FlagUrlRoundTrip | m.py:36-37 | `http://192.168.1.28/flag?value=<flag>` reads back as that flag |
| Commands.ParseUrlRoundTrip | m.py:29-41 | every request URL the loop builds can be read back as the request that produced it |
| Helper.NormaliseAppend | helper.py:88 | `Helper.Normalise` (lower-case, delete spaces) distributes over concatenation of names |
| Helper.NormaliseIgnoresSpace | helper.py:88 | inserting a space anywhere in a name leaves its normal form unchanged |
| Helper.NormaliseIgnoresCase | helper.py:88 | names that agree letter by letter up to case have the same normal form |
| Helper.NormalFormIsNormal | helper.py:88 | a normal form holds no space and no upper-case letter, and normalising it again changes nothing |
| Helper.ResolveMeaning | helper.py:92-93 | under `Helper.Resolve` a name resolves exactly when its normal form is a table key, then to that key's flag, which is 4 or 5 |
| Helper.BiogasReadyVariants | helper.py:38-41 | "Biogas Ready", "BiogasReady" and "biogasready" all resolve to 4 |
| Helper.NonBiogasReadyResolves | helper.py:38-41 | "NonBiogasReady" resolves to 5 |
| Helper.DetectPolythene | helper.py:57-73 | false without a frame; otherwise true exactly when some class name, lower-cased, contains "polythene" |
| Helper.AnyPolythene | helper.py:64-73 | the scan is true exactly when some name, lower-cased, contains "polythene" |
| Helper.DetectBiodegradable | helper.py:75-105 | no flags without a frame; otherwise exactly the flags of names that resolve, each a table value (4 or 5) |
| Helper.DetectBiodegradableAppend | helper.py:84-94 | the flag list of detections in sequence is their flag lists in sequence |
| Helper.TwoResolvedNames | helper.py:84-94 | two resolvable names give their two flags, in detection order |
| Helper.MixedBinExample | helper.py:84-100 | "BiogasReady" with "NonBiogasReady" yields flags [4, 5], and 4 is selected |
| Routes.PolythenePhase | routes.py:21-27 | phase 1 is exactly H, C, O when polythene was found and O alone otherwise: three commands starting with the hand press, or one; the plate is opened once, last; no hand-motor command |
| Routes.SortingPhase | routes.py:40-44 | phase 2 sends nothing exactly when no flag was detected; otherwise the hand goes to the smallest detected flag and is then reset |
| Routes.ProcessGarbage | routes.py:11-47 | camera 1 failing gives 500 and no command; phase 1 is H, C, O on polythene and O alone otherwise; camera 2 failing gives 500 after phase 1 only; success gives 200, with HAND_MOTOR at the smallest detected flag then RESET, or no phase-2 command when no flag; success issues 1, 3 or 5 commands |
| Routes.HandMotorSent | routes.py:40-42 | on success a HAND_MOTOR command is sent for a flag exactly when flags were detected and that flag is their minimum |
| Routes.SmallestOfFourAndFive | routes.py:41 | over flags drawn from 4 and 5, the selected flag is 4 exactly when a 4 is present, and 5 exactly when only 5s are |
| Routes.BiogasReadyTakesPriority | routes.py:40-44 | on success the hand goes to 4 exactly when some name resolves to biogas-ready, and to 5 exactly when some resolves to non-biogas-ready and none to biogas-ready |
| Routes.PolytheneBagScenario | routes.py:21-25 | a camera-1 frame labelled "Polythene Bag" starts the request with H, C, O |
| Routes.MixedBinScenario | routes.py:37-44 | camera 2 seeing "BiogasReady" and "NonBiogasReady" ends a successful request with HAND_MOTOR:4, HAND_MOTOR:RESET |
| Continuous.TableFlagsInRange | m.py:21-27 | every flag of the five-entry table lies in 1..5 |
| Continuous.ResolveMeaning | m.py:57-58 | under `Continuous.Resolve` a name resolves exactly when its normal form is a key of the five-entry table, then to that key's flag, which lies in 1..5 |
| Continuous.NormaliseShape | m.py:57 | `Continuous.Normalise` keeps the length and puts '-' exactly where the name has a space or a '-'; other characters are lower-cased in place |
| Continuous.NormaliseIdempotent | m.py:57 | normalising a normal form changes nothing |
| Continuous.DetectBiodegradable | m.py:53-65 | no flag exactly when no name resolves; otherwise the smallest resolved flag, a table value in 1..5, reported once to the flag board with that same value, and no flag request when there is no flag |
| Continuous.TruthyFlagIsPresent | m.py:84 | `Continuous.Truthy`, the loop's Python truthiness test on the selected flag (`None` and `0` false), holds exactly when a flag was selected |
| Continuous.SubStep | m.py:78-85 | a sub-step always sends MOVE first; with no frame nothing else; with a frame and no flag, HAND_MOTOR:RESET; with a flag, the flag request then HAND_MOTOR:<smallest resolved flag> |
| Continuous.Steps | m.py:77-85 | the sub-steps send one MOVE each and one to three requests each |
| Continuous.SubStepMoves | m.py:78 | each sub-step sends exactly one MOVE |
| Continuous.ProcessIteration | m.py:67-86 | camera 1 failing restarts the iteration with nothing sent; otherwise the four sub-steps run in order, with exactly four MOVEs and 4 to 12 requests |
| Continuous.HasTrigger | m.py:99 | `"trigger" in data` is key membership for an object, element membership for a list and the substring test for a string, and raises for a number, a boolean or null |
| Continuous.TriggerIsStart | m.py:102 | `data["trigger"] == "start"` is defined only for an object holding "trigger", and true exactly when that value is the string "start" |
| Continuous.ReceiveTrigger | m.py:96-106 | no body or a falsy body gives 400 "Invalid request", and so does a string, list or object without "trigger"; for an object holding "trigger": success exactly when it is "start", 400 "Invalid trigger command" otherwise; the loop starts exactly on success; a 500 from an uncaught TypeError exactly for a true boolean, a non-zero number, or a string or list that contains "trigger" |
| Continuous.StartProcess | m.py:90-94 | always acknowledged with 200 and always starts the loop |
| Divergence.HelperTableIncluded | m.py:21-27 | each entry of helper.py's table is in m.py's table with the same flag |
| Divergence.SameNormalFormWithoutSpaces | m.py:57 | a name without spaces has the same normal form in both deployments: the name lower-cased |
| Divergence.AgreeWithoutSpaces | m.py:57-60 | for a name without spaces, whatever helper.py resolves m.py resolves to the same flag |
| Divergence.SpacedNamesOnlyReachFlagOne | m.py:57-58 | in m.py a name containing a space resolves to flag 1 or to nothing |
| Divergence.BiogasReadyDiverges | m.py:57-58 | "Biogas Ready" is flag 4 for helper.py and unknown to m.py |
| Divergence.NonBiodegradableDiverges | m.py:21-27 | "Non Biodegradable" is flag 1 for m.py and unknown to helper.py |

## Left out

- Model loading is left out: the pickle file, the `.pt` paths, the existence
  checks and their startup errors (helper.py:11-35, m.py:15-16). These are
  library calls and filesystem checks. The detector is replaced by the class
  names it reports per frame.
- Camera capture internals are left out: `requests.get`/`cv2.VideoCapture`,
  image decoding and the `temp.jpg` write. A capture is only success (a frame)
  or failure. The camera URL constants are not used.
- The HTTP transport of `send_command`/`send_flag` and its swallowed exceptions
  are left out. The model returns the request list. Logging is left out.
- Threads, `time.sleep` and the infinite `while True` are left out. The model
  covers one loop iteration. The hazard of starting several loop threads is not
  modelled.
- Flask app and blueprint wiring and `main.py` are left out.
- pkl.py and src/models/pkl.py are left out. They are one-off scripts that
  write pickle files.
- Text.LowerInPlace: `str.lower()` (`Text.Lower`) is modelled on ASCII letters
  only. Unicode case mapping is not modelled.
- Continuous.ReceiveTrigger: what `request.json` does for a request without a
  JSON body depends on the Flask version. It returns `None` in older versions
  and raises in newer ones. The model takes it as `None`.
- Continuous.ReceiveTrigger: JSON numbers are integers only, and floats are not
  modelled.
- Idempotence of repeated `/process_garbage` calls holds by construction: the
  model is a pure function of the capture outcomes.
