/** ui/attendance_taking_ui.py: the state behind the attendance screen,
 *  namely whether the camera runs, the candidate shown to the operator,
 *  and whether the confirm button is enabled, and the write a
 *  confirmation causes.
 *
 *  Widgets are not modelled; the camera's success, the recognizer's
 *  per-frame answer, the selected session, the selected type label and
 *  the clock are parameters. */
module AttendanceTaking {
  import opened Common
  import opened Recognizer
  import opened AttendanceRepo

  /** The part of `current_student` the confirmation uses. */
  datatype Candidate = Candidate(studentId: string, studentName: string)

  /** The three branches update_frame takes for a recognized face. */
  datatype FaceClass = Confident | LowConfidence | Unrecognized

  const ConfidenceCutoff: real := 70.0
  const InPrefix: string := "\U{1F535} "
  const OutPrefix: string := "\U{1F534} "
  /** The two items of the type combo box. */
  const InLabel: string := "\U{1F535} V\U{00E0}o"
  const OutLabel: string := "\U{1F534} Ra"

  /** Python truthiness of a face's student id. */
  predicate HasId(f: FaceResult)
  {
    f.id.Some? && f.id.value != ""
  }

  function Classify(f: FaceResult): (c: FaceClass)
    ensures c == Confident <==> HasId(f) && f.confidence > ConfidenceCutoff
    ensures c == LowConfidence <==> HasId(f) && f.confidence <= ConfidenceCutoff
    ensures c == Unrecognized <==> !HasId(f)
  {
    if HasId(f) && f.confidence > ConfidenceCutoff then Confident
    else if HasId(f) then LowConfidence
    else Unrecognized
  }

  /** The candidate a confident face proposes. */
  function CandidateOf(f: FaceResult): (c: Candidate)
    requires f.id.Some?
    ensures Classify(f) == Confident ==> c.studentId != "" && c.studentId == f.id.value
  {
    Candidate(f.id.value, f.name)
  }

  /** The index of the last confident face of a frame, the one whose
   *  display_student_info call is the last to overwrite current_student. */
  function LastConfident(faces: seq<FaceResult>): (r: Option<nat>)
    ensures r.None? <==> forall j :: 0 <= j < |faces| ==> Classify(faces[j]) != Confident
    ensures r.Some? ==> r.value < |faces| && Classify(faces[r.value]) == Confident
                        && forall j :: r.value < j < |faces| ==> Classify(faces[j]) != Confident
  {
    if faces == [] then None
    else if Classify(faces[|faces| - 1]) == Confident then Some(|faces| - 1)
    else
      var init := faces[..|faces| - 1];
      assert forall j :: 0 <= j < |init| ==> init[j] == faces[j];
      LastConfident(init)
  }

  /** Python's str.replace(pat, ""): one left-to-right pass removing
   *  non-overlapping occurrences. */
  function RemoveAll(s: string, pat: string): (r: string)
    requires pat != []
    ensures |r| <= |s|
    decreases |s|
  {
    if |s| >= |pat| && s[..|pat|] == pat then RemoveAll(s[|pat|..], pat)
    else if s == [] then []
    else [s[0]] + RemoveAll(s[1..], pat)
  }

  /** Text that does not contain the pattern's first character is left alone. */
  lemma {:induction false} RemoveAllAbsent(s: string, pat: string)
    requires pat != [] && pat[0] !in s
    ensures RemoveAll(s, pat) == s
    decreases |s|
  {
    if s != [] {
      assert s[0] in s;
      assert forall c :: c in s[1..] ==> c in s;
      RemoveAllAbsent(s[1..], pat);
    }
  }

  /** The status written for a type label: the label with its blue-circle
   *  and red-circle prefixes removed. */
  function StatusOf(typeLabel: string): (status: string)
    ensures |status| <= |typeLabel|
    ensures '\U{1F535}' !in typeLabel && '\U{1F534}' !in typeLabel ==> status == typeLabel
  {
    PlainLabelKept(typeLabel);
    RemoveAll(RemoveAll(typeLabel, InPrefix), OutPrefix)
  }

  /** A label holding neither circle symbol passes both replacements
   *  unchanged. */
  lemma PlainLabelKept(typeLabel: string)
    ensures '\U{1F535}' !in typeLabel && '\U{1F534}' !in typeLabel ==>
              RemoveAll(RemoveAll(typeLabel, InPrefix), OutPrefix) == typeLabel
  {
    if '\U{1F535}' !in typeLabel && '\U{1F534}' !in typeLabel {
      RemoveAllAbsent(typeLabel, InPrefix);
      RemoveAllAbsent(typeLabel, OutPrefix);
    }
  }

  /** A label made of a prefix and text free of the circle symbols yields
   *  that text, and the two combo items yield "Vào" and "Ra". */
  lemma StatusDropsPrefix(prefix: string, text: string)
    requires prefix == InPrefix || prefix == OutPrefix
    requires '\U{1F535}' !in text && '\U{1F534}' !in text
    ensures StatusOf(prefix + text) == text
  {
    var s := prefix + text;
    assert s[..2] == prefix && s[2..] == text;
    RemoveAllAbsent(text, InPrefix);
    RemoveAllAbsent(text, OutPrefix);
    if prefix == InPrefix {
      assert RemoveAll(s, InPrefix) == text;
    } else {
      var t := s[1..];
      assert t == [' '] + text && t[1..] == text;
      assert !(|t| >= 2 && t[..2] == InPrefix) by {
        if |t| >= 2 {
          assert t[..2][0] == ' ';
        }
      }
      assert RemoveAll(t, InPrefix) == [' '] + text;
      assert !(|s| >= 2 && s[..2] == InPrefix) by {
        assert s[..2][0] == '\U{1F534}';
      }
      assert RemoveAll(s, InPrefix) == [s[0]] + RemoveAll(t, InPrefix);
      assert RemoveAll(s, InPrefix) == s;
    }
  }

  lemma ComboStatuses()
    ensures StatusOf(InLabel) == "V\U{00E0}o"
    ensures StatusOf(OutLabel) == "Ra"
  {
    assert InLabel == InPrefix + "V\U{00E0}o";
    assert OutLabel == OutPrefix + "Ra";
    StatusDropsPrefix(InPrefix, "V\U{00E0}o");
    StatusDropsPrefix(OutPrefix, "Ra");
  }

  class AttendanceUI {
    var cameraRunning: bool
    /** self.cap is not None. */
    var hasCap: bool
    /** self.timer is not None. */
    var timerActive: bool
    var currentStudent: Option<Candidate>
    /** attendance_btn.isEnabled(). */
    var confirmEnabled: bool
    const attendance: AttendanceRepository

    /** The timer runs exactly while the camera runs, a running camera has a
     *  capture, and the confirm button is only enabled while a candidate is
     *  held. */
    ghost predicate Valid()
      reads this
    {
      && (timerActive <==> cameraRunning)
      && (cameraRunning ==> hasCap)
      && (confirmEnabled ==> currentStudent.Some?)
    }

    constructor (repo: AttendanceRepository)
      ensures Valid()
      ensures !cameraRunning && !hasCap && !timerActive && currentStudent == None && !confirmEnabled
      ensures attendance == repo
    {
      cameraRunning, hasCap, timerActive := false, false, false;
      currentStudent := None;
      confirmEnabled := false;
      attendance := repo;
    }

    /** start_camera. `opens` is whether the VideoCapture opened; on
     *  failure the unopened capture object is kept. */
    method StartCamera(opens: bool)
      requires Valid()
      modifies this
      ensures Valid()
      ensures old(cameraRunning) ==>
                cameraRunning && hasCap == old(hasCap) && timerActive == old(timerActive)
                && confirmEnabled == old(confirmEnabled)
      ensures !old(cameraRunning) && !opens ==>
                !cameraRunning && hasCap && !timerActive && confirmEnabled == old(confirmEnabled)
      ensures !old(cameraRunning) && opens ==> cameraRunning && hasCap && timerActive && !confirmEnabled
      ensures currentStudent == old(currentStudent)
    {
      if !cameraRunning {
        hasCap := true;
        if !opens {
          return;
        }
        cameraRunning := true;
        timerActive := true;
        confirmEnabled := false;
      }
    }

    /** display_student_info: the candidate is replaced first; the button
     *  is enabled only when get_student_info finds the student, since
     *  `.get` on its None answer raises before that step. */
    method DisplayStudentInfo(studentId: string, studentName: string, studentIds: set<string>)
      requires Valid()
      modifies this`currentStudent, this`confirmEnabled
      ensures Valid()
      ensures currentStudent == Some(Candidate(studentId, studentName))
      ensures confirmEnabled == (old(confirmEnabled) || studentId in studentIds)
    {
      currentStudent := Some(Candidate(studentId, studentName));
      if studentId in studentIds {
        confirmEnabled := true;
      }
    }

    /** update_frame. `frameOk` is whether the read succeeded, `faces` is
     *  recognize_faces_in_frame's answer, and `studentIds` the students
     *  get_student_info can find. */
    method UpdateFrame(frameOk: bool, faces: seq<FaceResult>, studentIds: set<string>)
      requires Valid()
      modifies this`currentStudent, this`confirmEnabled
      ensures Valid()
      ensures !(hasCap && cameraRunning && frameOk) ==>
                currentStudent == old(currentStudent) && confirmEnabled == old(confirmEnabled)
      ensures hasCap && cameraRunning && frameOk ==>
                && currentStudent == (match LastConfident(faces)
                                      case None => old(currentStudent)
                                      case Some(k) => Some(CandidateOf(faces[k])))
                && confirmEnabled == (old(confirmEnabled) ||
                                      exists j :: 0 <= j < |faces| && Classify(faces[j]) == Confident
                                                  && faces[j].id.value in studentIds)
    {
      if !hasCap || !cameraRunning {
        return;
      }
      if !frameOk {
        return;
      }
      var i := 0;
      while i < |faces|
        invariant 0 <= i <= |faces|
        invariant Valid()
        invariant currentStudent == (match LastConfident(faces[..i])
                                     case None => old(currentStudent)
                                     case Some(k) => Some(CandidateOf(faces[k])))
        invariant confirmEnabled == (old(confirmEnabled) ||
                                     exists j :: 0 <= j < i && Classify(faces[j]) == Confident
                                                 && faces[j].id.value in studentIds)
      {
        var face := faces[i];
        assert faces[..i + 1][..i] == faces[..i];
        if face.id.Some? && face.id.value != "" && face.confidence > ConfidenceCutoff {
          DisplayStudentInfo(face.id.value, face.name, studentIds);
        }
        i := i + 1;
      }
      assert faces[..i] == faces;
    }

    /** process_attendance. Nothing is written without a selected session;
     *  otherwise exactly one record is appended when the insert commits,
     *  with no check for an earlier record of the same student. */
    method ProcessAttendance(studentId: string, sessionId: string, typeLabel: string, now: int,
                             executeOk: bool)
      modifies attendance
      ensures sessionId == "" ==> attendance.records == old(attendance.records)
      ensures sessionId != "" && executeOk ==>
                attendance.records == old(attendance.records)
                                      + [AttendanceRecord(sessionId, studentId, now, StatusOf(typeLabel))]
      ensures sessionId != "" && !executeOk ==> attendance.records == old(attendance.records)
    {
      var status := StatusOf(typeLabel);
      if sessionId == "" {
        return;
      }
      var _ := attendance.AddAttendanceRecord(sessionId, studentId, now, status, executeOk);
    }

    /** confirm_attendance: with a candidate, process it; then the
     *  candidate is dropped and the button disabled, whether or not a
     *  record was written. */
    method ConfirmAttendance(sessionId: string, typeLabel: string, now: int, executeOk: bool)
      requires Valid()
      modifies this, attendance
      ensures Valid()
      ensures cameraRunning == old(cameraRunning) && hasCap == old(hasCap) && timerActive == old(timerActive)
      ensures old(currentStudent).None? ==>
                currentStudent == None && confirmEnabled == old(confirmEnabled)
                && attendance.records == old(attendance.records)
      ensures old(currentStudent).Some? ==> currentStudent == None && !confirmEnabled
      ensures old(currentStudent).Some? && sessionId != "" && executeOk ==>
                attendance.records == old(attendance.records)
                  + [AttendanceRecord(sessionId, old(currentStudent).value.studentId, now, StatusOf(typeLabel))]
      ensures !(old(currentStudent).Some? && sessionId != "" && executeOk) ==>
                attendance.records == old(attendance.records)
    {
      if currentStudent.Some? {
        ProcessAttendance(currentStudent.value.studentId, sessionId, typeLabel, now, executeOk);
        currentStudent := None;
        confirmEnabled := false;
      }
    }

    /** stop_camera: everything is released and the candidate dropped. */
    method StopCamera()
      requires Valid()
      modifies this
      ensures Valid()
      ensures !cameraRunning && !hasCap && !timerActive && currentStudent == None && !confirmEnabled
    {
      if cameraRunning && timerActive {
        timerActive := false;
      }
      hasCap := false;
      cameraRunning := false;
      confirmEnabled := false;
      currentStudent := None;
    }
  }
}
