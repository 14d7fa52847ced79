/**
  The constructor of `InputFiles` (lines 13-26): validation runs only when the
  pose file was read and the user program compiled; the dict is kept and its
  size is the number of robots requested only when the batch is accepted.
  Reading the files and compiling the program happen outside the model: the
  pose file arrives as `Some(text)` or `None`, the compilation as a boolean,
  and Python's `float()` as `num`.  Line numbers refer to
  `check_init_pose_validity.py`.
 */
module InputFiles {
  import opened Wrappers
  import opened PoseMap
  import opened Parser
  import opened Checks
  import opened Proximity
  import opened Validation

  const CompileErrorText: string :=
    "invalid usr_code.py file, the code was either unable to compile or could not find a file named usr_code.py"

  /** What constructing `InputFiles` leaves behind. */
  datatype Outcome =
    | NotLoaded(errorFile: Option<string>)   // validation never ran; the error report, if one was written
    | ParseRaised                            // `float()` raised while the dict was built
    | Loaded(initPosesValid: bool, report: Report, numRobotsRequested: nat, initPoseDict: PoseMap)

  function Init(poseFile: Option<string>, usrCodeCompiles: bool, num: string -> Option<real>): Outcome
  {
    if poseFile.None? || !usrCodeCompiles then
      NotLoaded(if usrCodeCompiles then None else Some(CompileErrorText))
    else
      match Parse(poseFile.value, num)
      case None => ParseRaised
      case Some(m) =>
        var v := Validate(m);
        var kept := if v.accepted then m else [];
        Loaded(v.accepted, v.report, |kept|, kept)
  }

  /** Validation runs exactly when both files loaded and the parse did not
      raise; a failed compilation always leaves its message in the report. */
  lemma InitGate(poseFile: Option<string>, usrCodeCompiles: bool, num: string -> Option<real>)
    ensures Init(poseFile, usrCodeCompiles, num).Loaded? <==>
              poseFile.Some? && usrCodeCompiles && Parse(poseFile.value, num).Some?
    ensures Init(poseFile, usrCodeCompiles, num).ParseRaised? <==>
              poseFile.Some? && usrCodeCompiles && Parse(poseFile.value, num).None?
    ensures !usrCodeCompiles ==> Init(poseFile, usrCodeCompiles, num) == NotLoaded(Some(CompileErrorText))
  {
  }

  /** The number of robots requested is the number of keys parsed when the
      batch is accepted and 0 otherwise; the kept dict holds the numbers as
      parsed, headings not reduced. */
  lemma InitCount(text: string, num: string -> Option<real>, m: PoseMap)
    requires Parse(text, num) == Some(m)
    ensures var o := Init(Some(text), true, num);
            && o.Loaded?
            && o.initPosesValid == Validate(m).accepted
            && o.report == Validate(m).report
            && (o.initPosesValid ==> o.numRobotsRequested == |m| && o.initPoseDict == m)
            && (!o.initPosesValid ==> o.numRobotsRequested == 0 && o.initPoseDict == [])
  {
  }

  /** An accepted submission meets every invariant of a batch: at most
      `MaxRobots` distinct keys, and among its format-valid records whole ids
      from 0 to 99, positions inside the arena, and pairwise distances of at
      least `MinStartDist`. */
  lemma AcceptedBatchInvariants(text: string, num: string -> Option<real>)
    requires Init(Some(text), true, num).Loaded?
    requires Init(Some(text), true, num).initPosesValid
    ensures var o := Init(Some(text), true, num);
            && o.numRobotsRequested == |o.initPoseDict| <= MaxRobots
            && UniqueKeys(o.initPoseDict)
            && WellPlaced(o.initPoseDict)
            && Separated(o.initPoseDict)
  {
    var m := Parse(text, num).value;
    ValidateAccepts(m);
  }
}
