/**
  `check_validity`: the capacity guard, the per-record checks, the heading
  reduction, the all-pairs proximity check and the per-key report, with the
  batch-acceptance flag.  Line numbers refer to
  `check_init_pose_validity.py`.
 */
module Validation {
  import opened Wrappers
  import opened PoseMap
  import opened Checks
  import opened Proximity
  import Text

  /** The outcome reported for one dict key. */
  datatype Diagnostic =
    | Accepted(pose: seq<real>)          // the record with its heading reduced
    | Rejected(idInvalid: bool, outOfBounds: bool, tooCloseTo: seq<string>)
    | BadFormat

  /** The contents of the error report: one line per key, or the single
      capacity message. */
  datatype Report = TooManyRobots | PerKey(lines: seq<Diagnostic>)

  datatype Verdict = Verdict(accepted: bool, report: Report)

  const IdInvalidText: string := "ID is invalid "
  const OutOfBoundsText: string := "The x and/or y position is out of bounds "
  const TooCloseText: string := "too close to "
  const BadFormatText: string :=
    "Format of line is invalid, make sure there are 4 values and all are numerical values"
  const TooManyRobotsText: string :=
    "Requesting too many robots, please limit your script to using 50 robots"

  /** Each key followed by a space. */
  function KeyList(keys: seq<string>): string
  {
    if |keys| == 0 then "" else keys[0] + " " + KeyList(keys[1..])
  }

  /** The reasons of a rejected record, in the order the checks run. */
  function FailureText(idInvalid: bool, outOfBounds: bool, tooCloseTo: seq<string>): string
  {
    (if idInvalid then IdInvalidText else "")
    + (if outOfBounds then OutOfBoundsText else "")
    + (if |tooCloseTo| > 0 then TooCloseText + KeyList(tooCloseTo) else "")
  }

  /** `ret_str` built in steps: the ID and bounds reasons first, then the
      proximity reason appended when there is one. */
  lemma FailureTextSteps(idInvalid: bool, outOfBounds: bool, tooCloseTo: seq<string>)
    ensures |tooCloseTo| == 0 ==> FailureText(idInvalid, outOfBounds, tooCloseTo) == FailureText(idInvalid, outOfBounds, [])
    ensures |tooCloseTo| > 0 ==>
              FailureText(idInvalid, outOfBounds, []) + TooCloseText + KeyList(tooCloseTo)
              == FailureText(idInvalid, outOfBounds, tooCloseTo)
  {
    var p := (if idInvalid then IdInvalidText else "") + (if outOfBounds then OutOfBoundsText else "");
    assert FailureText(idInvalid, outOfBounds, []) == p + "" == p;
    if |tooCloseTo| > 0 {
      Text.AppendAssoc(p, TooCloseText, KeyList(tooCloseTo));
    }
  }

  /** The text of a report line that is not an accepted record. */
  function ReasonText(d: Diagnostic): string
    requires !d.Accepted?
  {
    match d
    case BadFormat => BadFormatText
    case Rejected(idInvalid, outOfBounds, tooCloseTo) => FailureText(idInvalid, outOfBounds, tooCloseTo)
  }

  /** The lines written to the error file: the capacity message alone, or one
      line per key.  An accepted record's line is its rendering with `str`,
      which is not modelled, so it is `None` here. */
  function ReportTexts(r: Report): (texts: seq<Option<string>>)
    ensures r.TooManyRobots? ==> texts == [Some(TooManyRobotsText)]
    ensures r.PerKey? ==> |texts| == |r.lines|
    ensures r.PerKey? ==> forall i :: 0 <= i < |r.lines| ==>
              && (texts[i].None? <==> r.lines[i].Accepted?)
              && (r.lines[i].BadFormat? ==> texts[i] == Some(BadFormatText))
              && (r.lines[i].Rejected? ==>
                    texts[i] == Some(FailureText(r.lines[i].idInvalid, r.lines[i].outOfBounds, r.lines[i].tooCloseTo)))
  {
    match r
    case TooManyRobots => [Some(TooManyRobotsText)]
    case PerKey(lines) =>
      seq(|lines|, i requires 0 <= i < |lines| =>
        if lines[i].Accepted? then None else Some(ReasonText(lines[i])))
  }

  /** The reason text is empty exactly when no check failed, so testing the
      text for emptiness decides acceptance of the record; and it starts with
      the identity reason exactly when the identity check failed. */
  lemma FailureTextEmpty(idInvalid: bool, outOfBounds: bool, tooCloseTo: seq<string>)
    ensures FailureText(idInvalid, outOfBounds, tooCloseTo) == "" <==>
              !idInvalid && !outOfBounds && |tooCloseTo| == 0
    ensures var t := FailureText(idInvalid, outOfBounds, tooCloseTo);
            idInvalid <==> |t| >= |IdInvalidText| && t[..|IdInvalidText|] == IdInvalidText
  {
    var t := FailureText(idInvalid, outOfBounds, tooCloseTo);
    var rest := (if outOfBounds then OutOfBoundsText else "")
                + (if |tooCloseTo| > 0 then TooCloseText + KeyList(tooCloseTo) else "");
    if idInvalid {
      assert t == IdInvalidText + rest;
      assert t[..|IdInvalidText|] == IdInvalidText;
    } else {
      assert t == rest;
      if outOfBounds {
        assert t[0] == OutOfBoundsText[0] == 'T';
      } else if |tooCloseTo| > 0 {
        assert t[0] == TooCloseText[0] == 't';
      }
    }
  }

  /** The records that pass the format check, in dict order (`to_iterate`
      after the first loop). */
  function FormatFilter(m: PoseMap): (r: PoseMap)
    ensures Shaped(r)
    ensures |r| <= |m|
    ensures forall e :: e in r <==> e in m && FormatValid(e.fields)
  {
    if |m| == 0 then []
    else
      var rest := FormatFilter(m[1..]);
      assert forall e :: e in m <==> e == m[0] || e in m[1..];
      if FormatValid(m[0].fields) then [m[0]] + rest else rest
  }

  /** Filtering a dict keeps its keys distinct. */
  lemma {:induction false} FormatFilterUnique(m: PoseMap)
    requires UniqueKeys(m)
    ensures UniqueKeys(FormatFilter(m))
    decreases |m|
  {
    if |m| > 0 && FormatValid(m[0].fields) {
      var rest := FormatFilter(m[1..]);
      assert UniqueKeys(m[1..]) by {
        forall i, j | 0 <= i < j < |m[1..]|
          ensures m[1..][i].key != m[1..][j].key
        {
          assert m[1..][i] == m[i + 1] && m[1..][j] == m[j + 1];
        }
      }
      FormatFilterUnique(m[1..]);
      var r := [m[0]] + rest;
      forall i, j | 0 <= i < j < |r|
        ensures r[i].key != r[j].key
      {
        assert r[j] == rest[j - 1];
        if i == 0 {
          assert rest[j - 1] in m[1..];
          var w :| 0 <= w < |m[1..]| && m[1..][w] == rest[j - 1];
          assert m[1..][w] == m[w + 1];
        } else {
          assert r[i] == rest[i - 1];
        }
      }
    } else if |m| > 0 {
      assert UniqueKeys(m[1..]) by {
        forall i, j | 0 <= i < j < |m[1..]|
          ensures m[1..][i].key != m[1..][j].key
        {
          assert m[1..][i] == m[i + 1] && m[1..][j] == m[j + 1];
        }
      }
      FormatFilterUnique(m[1..]);
    }
  }

  /** In a dict, a key survives the format filter exactly when its record is
      well formed, and then keeps its record. */
  lemma FormatFilterGet(m: PoseMap, i: nat)
    requires UniqueKeys(m)
    requires i < |m|
    ensures UniqueKeys(FormatFilter(m))
    ensures Get(FormatFilter(m), m[i].key) ==
              if FormatValid(m[i].fields) then Some(m[i].fields) else None
  {
    var r := FormatFilter(m);
    var k := m[i].key;
    FormatFilterUnique(m);
    if FormatValid(m[i].fields) {
      assert m[i] in r;
      var idx :| 0 <= idx < |r| && r[idx] == m[i];
      FindUnique(r, idx);
    }
  }

  /** The report line for one dict entry, given the format-valid records. */
  function Diagnose(e: Entry, valid: PoseMap): Diagnostic
    requires Shaped(valid)
  {
    if !FormatValid(e.fields) then BadFormat
    else
      var f := e.fields;
      var idBad := !IdValid(f[0]);
      var xyBad := !XyValid(f[1], f[2]);
      var close := CloseKeys(e.key, f[1], f[2], valid);
      if !idBad && !xyBad && |close| == 0 then Accepted(f[3 := ModTheta(f[3])])
      else Rejected(idBad, xyBad, close)
  }

  /** The report lines of the entries of `m`, in order. */
  function DiagnoseAll(m: PoseMap, valid: PoseMap): (lines: seq<Diagnostic>)
    requires Shaped(valid)
    ensures |lines| == |m|
  {
    if |m| == 0 then [] else DiagnoseAll(m[..|m| - 1], valid) + [Diagnose(m[|m| - 1], valid)]
  }

  /** Line `i` of the report is the diagnosis of entry `i`. */
  lemma {:induction false} DiagnoseAllAt(m: PoseMap, valid: PoseMap, i: nat)
    requires Shaped(valid)
    requires i < |m|
    ensures DiagnoseAll(m, valid)[i] == Diagnose(m[i], valid)
    decreases |m|
  {
    if i < |m| - 1 {
      DiagnoseAllAt(m[..|m| - 1], valid, i);
    }
  }

  /** No line of a report is a rejection. */
  predicate NoRejection(lines: seq<Diagnostic>)
  {
    forall i :: 0 <= i < |lines| ==> !lines[i].Rejected?
  }

  lemma NoRejectionSnoc(lines: seq<Diagnostic>, d: Diagnostic)
    ensures NoRejection(lines + [d]) <==> NoRejection(lines) && !d.Rejected?
  {
    if NoRejection(lines) && !d.Rejected? {
      forall i | 0 <= i < |lines + [d]|
        ensures !(lines + [d])[i].Rejected?
      {
        if i < |lines| {
          assert (lines + [d])[i] == lines[i];
        }
      }
    }
    if NoRejection(lines + [d]) {
      assert (lines + [d])[|lines|] == d;
      forall i | 0 <= i < |lines|
        ensures !lines[i].Rejected?
      {
        assert (lines + [d])[i] == lines[i];
      }
    }
  }

  /** What `check_validity` decides for a dict: more than `MaxRobots` keys is
      rejected outright; otherwise one line per key in dict order, and the batch
      is accepted when no line is a rejection. */
  function Validate(m: PoseMap): Verdict
  {
    if |m| > MaxRobots then Verdict(false, TooManyRobots)
    else
      var valid := FormatFilter(m);
      var lines := DiagnoseAll(m, valid);
      Verdict(NoRejection(lines), PerKey(lines))
  }

  /** `to_iterate` while the second loop runs: the format-valid records, each
      heading either still as read or already reduced. */
  ghost predicate Drifted(t: PoseMap, valid: PoseMap)
  {
    && SamePlaces(t, valid)
    && forall j :: 0 <= j < |t| ==>
         && t[j].fields[0] == valid[j].fields[0]
         && (t[j].fields[3] == valid[j].fields[3] || t[j].fields[3] == ModTheta(valid[j].fields[3]))
  }

  /** The record `to_iterate` holds for entry `j` agrees with the format-valid
      record in id and position, and its heading reduces to the same value. */
  lemma DriftedAt(t: PoseMap, valid: PoseMap, j: nat)
    requires Drifted(t, valid)
    requires j < |t|
    ensures |t[j].fields| == |valid[j].fields| == 4
    ensures t[j].key == valid[j].key
    ensures t[j].fields[..3] == valid[j].fields[..3]
    ensures ModTheta(t[j].fields[3]) == ModTheta(valid[j].fields[3])
  {
    ModThetaIdempotent(valid[j].fields[3]);
  }

  /** `to_iterate[key][3] = modulus_theta(to_iterate[key])` for the entry at `j`. */
  function ReduceAt(t: PoseMap, j: nat): (r: PoseMap)
    requires j < |t| && |t[j].fields| == 4
    ensures |r| == |t|
  {
    t[j := Entry(t[j].key, t[j].fields[3 := ModTheta(t[j].fields[3])])]
  }

  /** Reducing the heading of entry `j` in place keeps `to_iterate` drifted
      and gives entry `j` the reduced heading of its original record. */
  lemma ReduceKeepsDrifted(t: PoseMap, valid: PoseMap, j: nat)
    requires Drifted(t, valid)
    requires j < |t|
    ensures Drifted(ReduceAt(t, j), valid)
    ensures ReduceAt(t, j)[j].fields == valid[j].fields[3 := ModTheta(valid[j].fields[3])]
  {
    DriftedAt(t, valid, j);
    var next := ReduceAt(t, j);
    var g := next[j].fields;
    var w := valid[j].fields;
    assert g[..3] == w[..3];
    assert g[0] == w[0] && g[1] == w[1] && g[2] == w[2] by {
      assert g[..3][0] == g[0] && g[..3][1] == g[1] && g[..3][2] == g[2];
    }
    assert g == w[3 := ModTheta(w[3])];
    ModThetaIdempotent(w[3]);
    forall i | 0 <= i < |next|
      ensures next[i].key == valid[i].key && |next[i].fields| == |valid[i].fields| == 4
      ensures next[i].fields[0] == valid[i].fields[0]
      ensures next[i].fields[1] == valid[i].fields[1] && next[i].fields[2] == valid[i].fields[2]
      ensures next[i].fields[3] == valid[i].fields[3] || next[i].fields[3] == ModTheta(valid[i].fields[3])
    {
      if i != j {
        assert next[i] == t[i];
      }
    }
  }

  /** Reducing a heading in place leaves every key where it was and changes no
      proximity report. */
  lemma ReduceInPlace(t: PoseMap, valid: PoseMap, j: nat, checkKey: string, x: real, y: real)
    requires Drifted(t, valid)
    requires j < |t|
    ensures Drifted(ReduceAt(t, j), valid)
    ensures ReduceAt(t, j)[j].fields == valid[j].fields[3 := ModTheta(valid[j].fields[3])]
    ensures Find(ReduceAt(t, j), checkKey) == Find(valid, checkKey)
    ensures CloseKeys(checkKey, x, y, ReduceAt(t, j)) == CloseKeys(checkKey, x, y, valid)
  {
    ReduceKeepsDrifted(t, valid, j);
    FindSameKeys(ReduceAt(t, j), valid, checkKey);
    CloseKeysSamePlaces(checkKey, x, y, ReduceAt(t, j), valid);
  }

  /** The ID and bounds checks of one record (lines 99-104): the reason text
      they start, and which of them failed. */
  method CheckPlacement(id: real, x: real, y: real) returns (retStr: string, idBad: bool, xyBad: bool)
    ensures idBad <==> !IdValid(id)
    ensures xyBad <==> !XyValid(x, y)
    ensures retStr == FailureText(idBad, xyBad, [])
  {
    retStr := "";
    idBad := false;
    xyBad := false;
    if !IdValid(id) {
      retStr := IdInvalidText;
      idBad := true;
    }
    if !XyValid(x, y) {
      retStr := retStr + OutOfBoundsText;
      xyBad := true;
    }
  }

  /** A key of the dict still found in `to_iterate` sits at the same position
      with its original id and position. */
  lemma LocateDrifted(e: Entry, toIterate: PoseMap, valid: PoseMap, j: nat)
    requires Drifted(toIterate, valid)
    requires Get(valid, e.key) == if FormatValid(e.fields) then Some(e.fields) else None
    requires Find(toIterate, e.key) == Some(j)
    ensures FormatValid(e.fields) && j < |valid| && valid[j].fields == e.fields
    ensures toIterate[j].key == e.key && |toIterate[j].fields| == 4
    ensures toIterate[j].fields[0] == e.fields[0]
    ensures toIterate[j].fields[1] == e.fields[1] && toIterate[j].fields[2] == e.fields[2]
  {
    FindSameKeys(toIterate, valid, e.key);
    DriftedAt(toIterate, valid, j);
    var f := toIterate[j].fields;
    assert f[0] == e.fields[0] && f[1] == e.fields[1] && f[2] == e.fields[2] by {
      assert f[..3][0] == f[0] && f[..3][1] == f[1] && f[..3][2] == f[2];
    }
  }

  /** After the heading of a located record is reduced in place, the record
      is still found under its key with its original position, so the
      proximity scan reports what it would report on the dict itself. */
  lemma ReduceLocated(e: Entry, toIterate: PoseMap, valid: PoseMap, j: nat)
    requires Drifted(toIterate, valid)
    requires Get(valid, e.key) == if FormatValid(e.fields) then Some(e.fields) else None
    requires Find(toIterate, e.key) == Some(j)
    ensures FormatValid(e.fields) && j < |toIterate|
    ensures Drifted(ReduceAt(toIterate, j), valid)
    ensures ReduceAt(toIterate, j)[j].fields == e.fields[3 := ModTheta(e.fields[3])]
    ensures Find(ReduceAt(toIterate, j), e.key) == Some(j)
    ensures var f := Get(ReduceAt(toIterate, j), e.key).value;
            CloseKeys(e.key, f[1], f[2], ReduceAt(toIterate, j))
            == CloseKeys(e.key, e.fields[1], e.fields[2], valid)
  {
    LocateDrifted(e, toIterate, valid, j);
    ReduceInPlace(toIterate, valid, j, e.key, e.fields[1], e.fields[2]);
  }

  /** The diagnosis of a well-formed record, phrased through the reason text
      `ret_str` the source builds. */
  lemma DiagnoseByText(e: Entry, valid: PoseMap, idBad: bool, xyBad: bool, close: seq<string>)
    requires Shaped(valid) && FormatValid(e.fields)
    requires idBad <==> !IdValid(e.fields[0])
    requires xyBad <==> !XyValid(e.fields[1], e.fields[2])
    requires close == CloseKeys(e.key, e.fields[1], e.fields[2], valid)
    ensures Diagnose(e, valid) == if FailureText(idBad, xyBad, close) == ""
                                  then Accepted(e.fields[3 := ModTheta(e.fields[3])])
                                  else Rejected(idBad, xyBad, close)
  {
    FailureTextEmpty(idBad, xyBad, close);
  }

  /** The body of the second loop for one key (lines 96-118): the record is
      looked up in `to_iterate`, its reasons are collected, its heading is
      reduced in place, and it is restated when the reason text stays empty.
      `ok` is false when a check failed, i.e. when the batch flag is cleared. */
  method CheckKey(e: Entry, toIterate: PoseMap, ghost valid: PoseMap)
    returns (d: Diagnostic, ok: bool, next: PoseMap)
    requires Drifted(toIterate, valid)
    requires Get(valid, e.key) == if FormatValid(e.fields) then Some(e.fields) else None
    ensures d == Diagnose(e, valid)
    ensures ok <==> !d.Rejected?
    ensures Drifted(next, valid)
  {
    var key := e.key;
    next := toIterate;
    FindSameKeys(toIterate, valid, key);
    var found := Find(toIterate, key);
    if found.None? {
      return BadFormat, true, next;
    }
    var j := found.value;
    LocateDrifted(e, toIterate, valid, j);
    ReduceLocated(e, toIterate, valid, j);
    var f := toIterate[j].fields;
    var retStr, idBad, xyBad := CheckPlacement(f[0], f[1], f[2]);
    ok := !idBad && !xyBad;
    next := ReduceAt(toIterate, j);
    var close := FindTooClose(key, next);
    if |close| > 0 {
      retStr := retStr + TooCloseText + KeyList(close);
      ok := false;
    }
    FailureTextSteps(idBad, xyBad, close);
    DiagnoseByText(e, valid, idBad, xyBad, close);
    FailureTextEmpty(idBad, xyBad, close);
    if retStr == "" {
      d := Accepted(next[j].fields);
    } else {
      d := Rejected(idBad, xyBad, close);
    }
  }

  /** The first loop of `check_validity` (lines 82-91): keep the records that
      pass the format check, in dict order. */
  method KeepWellFormed(m: PoseMap) returns (toIterate: PoseMap)
    ensures toIterate == FormatFilter(m)
  {
    toIterate := [];
    var i := 0;
    while i < |m|
      invariant 0 <= i <= |m|
      invariant toIterate + FormatFilter(m[i..]) == FormatFilter(m)
    {
      assert m[i..][1..] == m[i + 1..];
      if FormatValid(m[i].fields) {
        toIterate := toIterate + [m[i]];
      }
      i := i + 1;
    }
    assert m[|m|..] == [];
  }

  /** The imperative `check_validity` (lines 71-125): the capacity guard, the
      format filter, then a loop that diagnoses every key in dict order and
      clears the flag on any failure. */
  method CheckValidity(m: PoseMap) returns (accepted: bool, report: Report)
    requires UniqueKeys(m)
    ensures Verdict(accepted, report) == Validate(m)
  {
    if |m| > MaxRobots {
      return false, TooManyRobots;
    }
    var toIterate := KeepWellFormed(m);
    ghost var valid := toIterate;

    accepted := true;
    var lines: seq<Diagnostic> := [];
    var i := 0;
    while i < |m|
      invariant 0 <= i <= |m|
      invariant lines == DiagnoseAll(m[..i], valid)
      invariant accepted <==> NoRejection(lines)
      invariant Drifted(toIterate, valid)
    {
      FormatFilterGet(m, i);
      var d, ok;
      d, ok, toIterate := CheckKey(m[i], toIterate, valid);
      if !ok {
        accepted := false;
      }
      assert m[..i + 1][..i] == m[..i];
      NoRejectionSnoc(lines, d);
      lines := lines + [d];
      i := i + 1;
    }
    report := PerKey(lines);
    assert m[..|m|] == m;
  }

  /** Every format-valid record has a whole id in range and lies in the arena. */
  ghost predicate WellPlaced(m: PoseMap)
  {
    forall i :: 0 <= i < |m| && FormatValid(m[i].fields) ==>
      IdValid(m[i].fields[0]) && XyValid(m[i].fields[1], m[i].fields[2])
  }

  /** Any two distinct format-valid records stand at least `MinStartDist` apart. */
  ghost predicate Separated(m: PoseMap)
  {
    forall i, j :: 0 <= i < |m| && 0 <= j < |m| && i != j &&
                   FormatValid(m[i].fields) && FormatValid(m[j].fields) ==>
      !TooNear(m[i].fields[1], m[i].fields[2], m[j].fields[1], m[j].fields[2])
  }

  /** Some other format-valid record stands too near record `i`. */
  ghost predicate HasNeighbour(m: PoseMap, i: nat)
    requires i < |m| && FormatValid(m[i].fields)
  {
    exists j :: 0 <= j < |m| && j != i && FormatValid(m[j].fields) &&
                TooNear(m[i].fields[1], m[i].fields[2], m[j].fields[1], m[j].fields[2])
  }

  /** Every record kept by the format filter is a well-formed record of the dict. */
  lemma FilterOrigin(m: PoseMap, idx: nat) returns (j: nat)
    requires idx < |FormatFilter(m)|
    ensures j < |m| && m[j] == FormatFilter(m)[idx] && FormatValid(m[j].fields)
  {
    assert FormatFilter(m)[idx] in FormatFilter(m);
    j :| 0 <= j < |m| && m[j] == FormatFilter(m)[idx];
  }

  /** A key reported too close to record `i` belongs to another format-valid
      record standing too near it. */
  lemma CloseKeySound(m: PoseMap, i: nat, k: string)
    requires UniqueKeys(m)
    requires i < |m| && FormatValid(m[i].fields)
    requires var f := m[i].fields; k in CloseKeys(m[i].key, f[1], f[2], FormatFilter(m))
    ensures exists j :: 0 <= j < |m| && j != i && m[j].key == k && FormatValid(m[j].fields) &&
                        TooNear(m[i].fields[1], m[i].fields[2], m[j].fields[1], m[j].fields[2])
  {
    var f := m[i].fields;
    var valid := FormatFilter(m);
    var idx :| 0 <= idx < |valid| && valid[idx].key == k && TooNear(f[1], f[2], valid[idx].fields[1], valid[idx].fields[2]);
    var j := FilterOrigin(m, idx);
    assert m[j].key != m[i].key;
  }

  /** Every other format-valid record standing too near record `i` is reported. */
  lemma CloseKeyComplete(m: PoseMap, i: nat, j: nat)
    requires UniqueKeys(m)
    requires i < |m| && FormatValid(m[i].fields)
    requires j < |m| && j != i && FormatValid(m[j].fields)
    requires TooNear(m[i].fields[1], m[i].fields[2], m[j].fields[1], m[j].fields[2])
    ensures var f := m[i].fields; m[j].key in CloseKeys(m[i].key, f[1], f[2], FormatFilter(m))
  {
    var valid := FormatFilter(m);
    assert m[j] in valid;
    var idx :| 0 <= idx < |valid| && valid[idx] == m[j];
  }

  /** The keys reported too close to record `i` are exactly the keys of the
      other format-valid records standing too near it, in dict order. */
  lemma CloseToEntry(m: PoseMap, i: nat)
    requires UniqueKeys(m)
    requires i < |m| && FormatValid(m[i].fields)
    ensures var f := m[i].fields;
            var close := CloseKeys(m[i].key, f[1], f[2], FormatFilter(m));
            && KeysInOrder(close, m)
            && (forall k :: k in close <==>
                  exists j :: 0 <= j < |m| && j != i && m[j].key == k && FormatValid(m[j].fields) &&
                              TooNear(f[1], f[2], m[j].fields[1], m[j].fields[2]))
  {
    var f := m[i].fields;
    var close := CloseKeys(m[i].key, f[1], f[2], FormatFilter(m));
    KeysInOrderFilter(close, m);
    forall k | k in close
      ensures exists j :: 0 <= j < |m| && j != i && m[j].key == k && FormatValid(m[j].fields) &&
                          TooNear(f[1], f[2], m[j].fields[1], m[j].fields[2])
    {
      CloseKeySound(m, i, k);
    }
    forall k, j | 0 <= j < |m| && j != i && m[j].key == k && FormatValid(m[j].fields) &&
                  TooNear(f[1], f[2], m[j].fields[1], m[j].fields[2])
      ensures k in close
    {
      CloseKeyComplete(m, i, j);
    }
  }

  /** Record `i` is reported too close to something exactly when another
      format-valid record stands too near it. */
  lemma CloseNonEmpty(m: PoseMap, i: nat)
    requires UniqueKeys(m)
    requires i < |m| && FormatValid(m[i].fields)
    ensures var f := m[i].fields;
            |CloseKeys(m[i].key, f[1], f[2], FormatFilter(m))| > 0 <==> HasNeighbour(m, i)
  {
    var f := m[i].fields;
    var close := CloseKeys(m[i].key, f[1], f[2], FormatFilter(m));
    if |close| > 0 {
      CloseKeySound(m, i, close[0]);
    }
    if HasNeighbour(m, i) {
      var j :| 0 <= j < |m| && j != i && FormatValid(m[j].fields) &&
               TooNear(f[1], f[2], m[j].fields[1], m[j].fields[2]);
      CloseKeyComplete(m, i, j);
    }
  }

  /** Keys in the order of the filtered dict are in the order of the dict. */
  lemma {:induction false} KeysInOrderFilter(ks: seq<string>, m: PoseMap)
    requires KeysInOrder(ks, FormatFilter(m))
    ensures KeysInOrder(ks, m)
    decreases |m|
  {
    if |m| > 0 && |ks| > 0 {
      var rest := FormatFilter(m[1..]);
      if FormatValid(m[0].fields) {
        var r := [m[0]] + rest;
        assert r[1..] == rest;
        if ks[0] == m[0].key && KeysInOrder(ks[1..], rest) {
          KeysInOrderFilter(ks[1..], m[1..]);
        } else {
          KeysInOrderFilter(ks, m[1..]);
        }
      } else {
        KeysInOrderFilter(ks, m[1..]);
      }
    }
  }

  /** Line `i` of a report: a format-invalid record gets the fixed format
      message; an accepted one is the record with only its heading reduced
      into [0, 2π); a rejected one names exactly the checks that failed, and
      its reasons are never empty. */
  lemma ValidateLine(m: PoseMap, i: nat)
    requires UniqueKeys(m)
    requires |m| <= MaxRobots && i < |m|
    ensures Validate(m).report.PerKey? && |Validate(m).report.lines| == |m|
    ensures var d := Validate(m).report.lines[i];
            var f := m[i].fields;
            && (d.BadFormat? <==> !FormatValid(f))
            && (d.BadFormat? ==> ReasonText(d) == BadFormatText)
            && (d.Accepted? ==>
                  && |d.pose| == 4
                  && d.pose[0] == f[0] && d.pose[1] == f[1] && d.pose[2] == f[2]
                  && d.pose[3] == ModTheta(f[3])
                  && 0.0 <= d.pose[3] < TwoPi)
            && (d.Rejected? ==>
                  && d.idInvalid == !IdValid(f[0])
                  && d.outOfBounds == !XyValid(f[1], f[2])
                  && (|d.tooCloseTo| > 0 <==> HasNeighbour(m, i))
                  && ReasonText(d) != "")
  {
    var valid := FormatFilter(m);
    DiagnoseAllAt(m, valid, i);
    var d := Diagnose(m[i], valid);
    if d.Rejected? {
      CloseNonEmpty(m, i);
      FailureTextEmpty(d.idInvalid, d.outOfBounds, d.tooCloseTo);
    }
  }

  /** Record `i` is rejected exactly when it is well formed and fails the
      identity check, the bounds check, or has a neighbour too near. */
  lemma DiagnoseRejected(m: PoseMap, i: nat)
    requires UniqueKeys(m)
    requires i < |m|
    ensures Diagnose(m[i], FormatFilter(m)).Rejected? <==>
              FormatValid(m[i].fields) &&
              (!IdValid(m[i].fields[0]) || !XyValid(m[i].fields[1], m[i].fields[2]) || HasNeighbour(m, i))
  {
    if FormatValid(m[i].fields) {
      CloseNonEmpty(m, i);
    }
  }

  /** The acceptance rule: a batch is accepted exactly when it has at most
      `MaxRobots` keys and every format-valid record has a valid id, lies in the
      arena and stands clear of every other format-valid record.  Format-invalid
      records never cause a rejection. */
  lemma ValidateAccepts(m: PoseMap)
    requires UniqueKeys(m)
    ensures Validate(m).accepted <==> |m| <= MaxRobots && WellPlaced(m) && Separated(m)
  {
    if |m| <= MaxRobots {
      var valid := FormatFilter(m);
      var lines := DiagnoseAll(m, valid);
      forall i | 0 <= i < |m|
        ensures lines[i].Rejected? <==>
                  FormatValid(m[i].fields) &&
                  (!IdValid(m[i].fields[0]) || !XyValid(m[i].fields[1], m[i].fields[2]) || HasNeighbour(m, i))
      {
        DiagnoseAllAt(m, valid, i);
        DiagnoseRejected(m, i);
      }
      if NoRejection(lines) {
        forall i, j | 0 <= i < |m| && 0 <= j < |m| && i != j &&
                      FormatValid(m[i].fields) && FormatValid(m[j].fields)
          ensures !TooNear(m[i].fields[1], m[i].fields[2], m[j].fields[1], m[j].fields[2])
        {
          assert !lines[i].Rejected?;
        }
      } else {
        var i :| 0 <= i < |lines| && lines[i].Rejected?;
        if FormatValid(m[i].fields) && IdValid(m[i].fields[0]) && XyValid(m[i].fields[1], m[i].fields[2]) {
          assert HasNeighbour(m, i);
        }
      }
    }
  }

  /** A batch over the capacity is rejected with the single capacity message;
      a batch of exactly `MaxRobots` keys goes on to the per-record checks. */
  lemma CapacityGuard(m: PoseMap)
    ensures |m| > MaxRobots ==> Validate(m) == Verdict(false, TooManyRobots)
    ensures |m| > MaxRobots ==> ReportTexts(Validate(m).report) == [Some(TooManyRobotsText)]
    ensures |m| == MaxRobots ==> Validate(m).report.PerKey?
  {
  }

  /** Two robots 0.3 apart inside the arena: both lines restate the record
      and the batch is accepted. */
  lemma SeparatedPairExample()
    ensures Validate([Entry("1", [1.0, 0.0, 0.0, 0.0]), Entry("2", [2.0, 0.3, 0.0, 0.0])])
            == Verdict(true, PerKey([Accepted([1.0, 0.0, 0.0, 0.0]), Accepted([2.0, 0.3, 0.0, 0.0])]))
  {
    var m := [Entry("1", [1.0, 0.0, 0.0, 0.0]), Entry("2", [2.0, 0.3, 0.0, 0.0])];
    ModThetaUnique(0.0, 0.0, 0);
    assert IdValid(1.0) && IdValid(2.0) by {
      assert Whole(1) == 1.0 && Whole(2) == 2.0;
    }
    var valid := FormatFilter(m);
    assert valid == m;
    assert CloseKeys("1", 0.0, 0.0, valid) == [];
    assert CloseKeys("2", 0.3, 0.0, valid) == [];
    assert [1.0, 0.0, 0.0, 0.0][3 := 0.0] == [1.0, 0.0, 0.0, 0.0];
    assert [2.0, 0.3, 0.0, 0.0][3 := 0.0] == [2.0, 0.3, 0.0, 0.0];
    var d0 := Diagnose(m[0], valid);
    var d1 := Diagnose(m[1], valid);
    assert d0 == Accepted([1.0, 0.0, 0.0, 0.0]);
    assert d1 == Accepted([2.0, 0.3, 0.0, 0.0]);
    assert m[..1] == [m[0]] && m[..1][..0] == [];
    assert DiagnoseAll(m, valid) == [d0, d1];
  }

  /** Two robots 0.1 apart: each line names the other robot and the batch is
      rejected. */
  lemma CrowdedPairExample()
    ensures Validate([Entry("1", [1.0, 0.0, 0.0, 0.0]), Entry("2", [2.0, 0.1, 0.0, 0.0])])
            == Verdict(false, PerKey([Rejected(false, false, ["2"]), Rejected(false, false, ["1"])]))
  {
    var m := [Entry("1", [1.0, 0.0, 0.0, 0.0]), Entry("2", [2.0, 0.1, 0.0, 0.0])];
    assert IdValid(1.0) && IdValid(2.0) by {
      assert Whole(1) == 1.0 && Whole(2) == 2.0;
    }
    var valid := FormatFilter(m);
    assert valid == m;
    assert CloseKeys("1", 0.0, 0.0, valid) == ["2"];
    assert CloseKeys("2", 0.1, 0.0, valid) == ["1"];
    var d0 := Diagnose(m[0], valid);
    var d1 := Diagnose(m[1], valid);
    assert d0 == Rejected(false, false, ["2"]);
    assert d1 == Rejected(false, false, ["1"]);
    assert m[..1] == [m[0]] && m[..1][..0] == [];
    assert DiagnoseAll(m, valid) == [d0, d1];
    assert [d0, d1][0].Rejected?;
  }

  /** A record with three numbers gets the format message but does not clear
      the flag: a batch of only malformed records is accepted. */
  lemma MalformedRecordExample()
    ensures Validate([Entry("1", [1.0, 0.0, 0.0])]) == Verdict(true, PerKey([BadFormat]))
  {
    var m := [Entry("1", [1.0, 0.0, 0.0])];
    assert m[..0] == [];
    assert DiagnoseAll(m, FormatFilter(m)) == [BadFormat];
  }
}
