# Start-pose validation for the Coachbot swarm

A Dafny model of the validator in `check_init_pose_validity.py`. The validator
checks a submission of robot start poses before a swarm experiment runs. The
submission is a comma-separated text with one `id,x,y,theta` record per line.

The model covers these steps:

- **Parsing.** The text is split on newlines and empty lines are skipped. Each
  other line is split on commas and every token goes through `float()`. The
  line is stored as `d[first token] = numbers` in an insertion-ordered dict.
  A token that `float()` rejects raises, and the whole parse fails.
- **Capacity.** A dict with more than 50 keys is rejected with one message.
- **Checks per key.** Each key is checked in dict order:
  - format: exactly four numbers;
  - identity: a whole id from 0 to 99;
  - bounds: −1.2 ≤ x ≤ 1.0 and −1.4 ≤ y ≤ 2.35, all limits inclusive;
  - heading: reduced modulo 2π;
  - proximity: every other format-valid record closer than 0.25 is a conflict.
- **Report.** There is one line per key. An accepted record is restated with its
  heading reduced. A rejected record gets its reasons concatenated in check
  order. A malformed record gets the fixed format message. A single flag says
  whether the batch is accepted.
- **Constructor gate.** Validation runs only when the pose file was read and the
  user program compiled. The dict is kept, and its size is the number of robots
  requested, only when the batch is accepted.

Modules follow the program's structure:

- `Text`: `str.split` and its inverse.
- `PoseMap`: the dict as a sequence of `Entry(key, fields)` in insertion order.
- `Parser`: the parsing half of `check_input_file_validity`.
- `Checks`: the limit constants, the format, ID and xy checks, and `modulus_theta`.
- `Proximity`: `check_startdist_validity`.
- `Validation`: `check_validity`. The imperative `CheckValidity` mirrors the
  source's two loops. It is proved equal to the declarative `Validate`.
- `InputFiles`: the constructor's gate and robot count.

Numbers are exact reals. 2π is the constant `TwoPi`. Distances are compared
squared, against 0.25 · 0.25.

How the code behaves in these cases:

- Diagnostics are one per distinct key in dict order, not one per input line.
  Blank lines and repeated keys add no line.
- A record that fails the format check never clears the acceptance flag. A batch
  whose only records are malformed is accepted (`MalformedRecordExample`).
- `num_robots_requested` counts every parsed key when the batch is accepted,
  malformed records included, not only the surviving records. It is 0 when the
  batch is rejected.
- A non-numeric token does not reach the format check. `float()` raises while
  parsing, so there is no dict and no report.

## Model

| member | source | states |
|---|---|---|
| Text.Split | check_init_pose_validity.py:174 | splitting yields one more piece than there are separators, and no piece contains the separator |
| Text.JoinSplit | check_init_pose_validity.py:184 | joining the pieces back with the separator restores the original line, so splitting loses nothing |
| Text.SplitJoin | check_init_pose_validity.py:184 | splitting the join of separator-free pieces gives back exactly those pieces |
| PoseMap.Find | check_init_pose_validity.py:98 | `key in d` finds the first position holding the key, and fails exactly when no entry has it |
| PoseMap.FindUnique | check_init_pose_validity.py:98 | in a dict with distinct keys, looking up an entry's key finds that entry and its value |
| PoseMap.FindSameKeys | check_init_pose_validity.py:98 | two dicts with the same keys at the same positions locate every key at the same place |
| PoseMap.Insert | check_init_pose_validity.py:186-188 | `d[k] = v`: k then holds v and every other key keeps its value; the keys present are the old ones plus k; an existing key keeps its position, a new key goes last; keys stay distinct |
| Parser.ConvertAll | check_init_pose_validity.py:187-188 | converting the tokens succeeds iff every token converts, and then yields one number per token in order |
| Parser.ReadLineSpec | check_init_pose_validity.py:180-188 | a line is skipped iff it is empty; it fails iff some token does not convert; otherwise it is keyed by its raw first token and yields all its tokens as numbers, the id first |
| Parser.Build | check_init_pose_validity.py:178-188 | the dict built from the lines never holds a key twice |
| Parser.BuildFailure | check_init_pose_validity.py:188 | the parse fails iff some line contains a token that `float()` rejects |
| Parser.BuildPresence | check_init_pose_validity.py:186 | storing one more line adds its key and leaves the presence of every other key unchanged |
| Parser.BuildKeys | check_init_pose_validity.py:179-186 | the dict's keys are exactly the first tokens of the non-empty lines |
| Parser.BuildLastWins | check_init_pose_validity.py:186-188 | a key repeated on several lines holds the numbers of its last line |
| Parser.BuildFirstOrder | check_init_pose_validity.py:186 | keys are ordered by their first line: a key placed earlier appears on a line before every line of a later key |
| Checks.IdValid | check_init_pose_validity.py:139-145 | the ID check passes iff the id equals a whole number from 0 to 99 |
| Checks.XyValid | check_init_pose_validity.py:148-153 | the bounds check passes iff the position lies in the closed rectangle [−1.2, 1.0] × [−1.4, 2.35] whose limits are the constants of lines 5-8 |
| Checks.BoundaryExamples | check_init_pose_validity.py:139-153 | ids 99 and 0 pass while 100, 2.5 and −1 fail; all four corners of the arena are inside and x = 1.0001 is outside |
| Checks.ModTheta | check_init_pose_validity.py:156-157 | the reduced heading lies in [0, 2π) and differs from the input by a whole number of turns |
| Checks.ModThetaUnique | check_init_pose_validity.py:156-157 | any value in [0, 2π) a whole number of turns away from the input is the reduced heading |
| Checks.ModThetaIdempotent | check_init_pose_validity.py:156-157 | reducing an already reduced heading changes nothing |
| Checks.ModThetaPeriodic | check_init_pose_validity.py:156-157 | adding whole turns to a heading does not change its reduction |
| Checks.ModThetaExamples | check_init_pose_validity.py:156-157 | −0.1 becomes 2π − 0.1, 2π becomes 0, and 4π + 0.3 becomes 0.3 |
| Proximity.SqrtThreshold | check_init_pose_validity.py:166 | for a non-negative distance, being below 0.25 is the same as its square being below 0.25², so the squared comparison decides what the `sqrt` comparison decides |
| Proximity.TooNearSymmetric | check_init_pose_validity.py:166 | the nearness of two positions does not depend on which one is checked |
| Proximity.TooNearExamples | check_init_pose_validity.py:9 | the threshold is strict: equal positions clash, positions 0.25 apart do not, positions 0.24999 apart do |
| Proximity.CloseKeys | check_init_pose_validity.py:160-169 | a key is reported iff it is not the checked key and belongs to a record closer than 0.25; the reported keys are in dict order |
| Proximity.FindTooClose | check_init_pose_validity.py:160-169 | the loop scanning the dict collects exactly those keys, and never the checked key itself |
| Proximity.CloseSymmetric | check_init_pose_validity.py:160-169 | in a dict, b is reported too close to a iff a is reported too close to b |
| Proximity.CloseKeysSamePlaces | check_init_pose_validity.py:105-106 | proximity reads only keys and positions, so reducing headings in place while the scans run changes no report |
| Validation.FailureTextEmpty | check_init_pose_validity.py:97-114 | the reason text is empty iff no check failed, which is what `ret_str == ""` decides; it starts with "ID is invalid " iff the ID check failed |
| Validation.ReportTexts | check_init_pose_validity.py:113-118 | the error file holds the capacity message alone, or one line per key; a line is a reason text exactly when its record is not accepted: a rejected record's line is its reasons joined in check order, a malformed record's line is the fixed format message; an accepted record's `str` rendering is not modelled and appears as None |
| Validation.FormatFilter | check_init_pose_validity.py:82-90 | the records kept are exactly the dict's records with four numbers |
| Validation.KeepWellFormed | check_init_pose_validity.py:82-91 | keeping the well-formed records in dict order, which is what popping the malformed ones from the copy of the dict leaves, gives exactly the format filter |
| Validation.FormatFilterUnique | check_init_pose_validity.py:82-90 | filtering a dict keeps its keys distinct |
| Validation.FormatFilterGet | check_init_pose_validity.py:84-90 | a key survives the format filter iff its record has four numbers, and then it keeps that record |
| Validation.FailureTextSteps | check_init_pose_validity.py:97-110 | building `ret_str` in steps, the ID and bounds reasons first and then "too close to " with the keys, gives the reason text of the whole record |
| Validation.CheckPlacement | check_init_pose_validity.py:99-104 | the ID and bounds checks start the reason text with exactly the reasons of the checks that failed |
| Validation.DiagnoseAllAt | check_init_pose_validity.py:96-118 | report line i is the diagnosis of dict entry i |
| Validation.DriftedAt | check_init_pose_validity.py:105 | while the second loop runs, each record keeps its id and position, and its heading reduces to the same value as the original |
| Validation.ReduceInPlace | check_init_pose_validity.py:105-106 | reducing one heading in place leaves every key where it was and changes no proximity report |
| Validation.ReduceLocated | check_init_pose_validity.py:98-106 | after its heading is reduced in place, a located record is still found under its key and the proximity scan reports what it reports on the original dict |
| Validation.DiagnoseByText | check_init_pose_validity.py:97-116 | a well-formed record is restated with its heading reduced exactly when its reason text is empty, and otherwise rejected with the failed checks |
| Validation.CheckKey | check_init_pose_validity.py:96-118 | one pass of the second loop produces the declared diagnosis of the key, and clears the flag iff that diagnosis is a rejection |
| Validation.CheckValidity | check_init_pose_validity.py:71-125 | the imperative `check_validity`, with its in-place heading updates, returns the same flag and report as the declarative `Validate` |
| Validation.NoRejectionSnoc | check_init_pose_validity.py:101-112 | the flag stays set after one more line iff it was set and the new line is not a rejection |
| Validation.CloseKeySound | check_init_pose_validity.py:106-108 | every key named in "too close to" belongs to another format-valid record closer than 0.25 |
| Validation.CloseKeyComplete | check_init_pose_validity.py:106-108 | every other format-valid record closer than 0.25 is named in "too close to" |
| Validation.CloseToEntry | check_init_pose_validity.py:106-112 | the keys named are exactly the other format-valid records too near, in dict order; records failing the ID or bounds check still take part |
| Validation.CloseNonEmpty | check_init_pose_validity.py:107 | a record gets a proximity reason iff some other format-valid record stands too near it |
| Validation.KeysInOrderFilter | check_init_pose_validity.py:164 | keys in the order of the format-valid records are in the order of the whole dict |
| Validation.ValidateLine | check_init_pose_validity.py:95-118 | a malformed record gets the format message; an accepted record is restated with only its heading reduced into [0, 2π); a rejected record names exactly the failed checks and its text is never empty |
| Validation.DiagnoseRejected | check_init_pose_validity.py:99-112 | a record is rejected iff it is well formed and fails the ID check, fails the bounds check, or has a neighbour too near |
| Validation.ValidateAccepts | check_init_pose_validity.py:72-125 | the batch is accepted iff it has at most 50 keys, every format-valid record has a valid id and lies in bounds, and every two distinct format-valid records are at least 0.25 apart |
| Validation.CapacityGuard | check_init_pose_validity.py:74-80 | more than 50 keys gives the single capacity rejection, whose only line is the capacity message; exactly 50 keys goes on to the per-key report |
| Validation.SeparatedPairExample | check_init_pose_validity.py:95-125 | robots at (0, 0) and (0.3, 0) are both restated and the batch is accepted |
| Validation.CrowdedPairExample | check_init_pose_validity.py:106-112 | robots at (0, 0) and (0.1, 0) each name the other and the batch is rejected |
| Validation.MalformedRecordExample | check_init_pose_validity.py:115-116 | a three-number record gets the format message, and the batch stays accepted |
| InputFiles.InitGate | check_init_pose_validity.py:22-24 | validation runs iff the pose file loaded, the program compiled and the parse did not raise; a failed compilation leaves its message |
| InputFiles.InitCount | check_init_pose_validity.py:22-26 | the robot count is the number of parsed keys when the batch is accepted and 0 otherwise; the kept dict holds the parsed, unreduced numbers |
| InputFiles.AcceptedBatchInvariants | check_init_pose_validity.py:193-197 | an accepted submission has at most 50 distinct keys, and its format-valid records have valid ids, lie in bounds and are pairwise at least 0.25 apart |

## Left out

- File I/O and console output are not modelled. This covers `load_init_pose_file`,
  `load_email`, the writes to `input_pose_errors.csv` and every `print`. The pose
  file is an `Option<string>` input, and the report is returned as data.
- `load_usr_code_file` calls `py_compile`. Its result is the boolean `usrCodeCompiles`.
- Python's `float()` string parsing is the parameter `num: string -> Option<real>`.
  Whitespace, `inf`/`nan`, underscores and exponents depend on that parameter.
- IEEE-754 behaviour is not modelled: NaN comparisons, rounding in `%` and `sqrt`,
  and `-tiny % 2π == 2π`. Arithmetic is on exact reals.
- Rendering an accepted record with `str` (line 114) is left out. `Accepted` keeps
  the four numbers, and `ReportTexts` gives that line as `None`. The
  newline-joined file contents (line 118) are left out too; the report is a
  sequence of diagnostics.
- The unused numpy import is left out.
- The format check tests only that there are four numbers.
  The parser has already converted every token, and `float()` of a float never
  raises, so the conversion half of `check_format_validity` can never fail here.
- The capacity message contains the number 50 as fixed text. It is not built from
  `max_robots` with `str`.
