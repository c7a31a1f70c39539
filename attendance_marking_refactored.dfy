/**
 * The record-list attendance screen of
 * `src/components/attendance/AttendanceMarkingRefactored.tsx`: a class is
 * chosen by year, section and subject, marking starts with every student of
 * that class present, single records are changed by id, and a submission
 * hands the records over and clears the screen.
 */
module AttendanceMarkingRefactored {
  import opened Wrappers
  import opened Seqs
  import opened AttendanceTypes

  /** The `classInfo` handed over with the records. */
  datatype ClassSelection = ClassSelection(year: string, section: string, subject: string)

  /** The counts of the submission toast. */
  datatype Tally = Tally(present: nat, late: nat, absent: nat)

  /** `getStudentsForAttendance`: the roster students of the chosen class. */
  function StudentsForAttendance(students: seq<Student>, year: string, section: string, subject: string): seq<Student> {
    Filter(students, InClass(year, section, subject))
  }

  /** The class list keeps the roster's order and holds exactly the students of that year, section and subject. */
  lemma StudentsForAttendanceSpec(students: seq<Student>, year: string, section: string, subject: string)
    ensures IsSubsequence(StudentsForAttendance(students, year, section, subject), students)
    ensures forall x :: x in StudentsForAttendance(students, year, section, subject) <==>
      x in students && x.year == year && x.section == section && x.subject == subject
    ensures forall x :: multiset(StudentsForAttendance(students, year, section, subject))[x] ==
                        if x.year == year && x.section == section && x.subject == subject
                        then multiset(students)[x] else 0
  {
    FilterIsSubsequence(students, InClass(year, section, subject));
    forall x ensures x in StudentsForAttendance(students, year, section, subject) <==>
      x in students && x.year == year && x.section == section && x.subject == subject
    {
      FilterMembership(students, InClass(year, section, subject), x);
    }
    forall x ensures multiset(StudentsForAttendance(students, year, section, subject))[x] ==
      if x.year == year && x.section == section && x.subject == subject then multiset(students)[x] else 0
    {
      FilterMultiplicity(students, InClass(year, section, subject), x);
    }
  }

  function PresentRecord(st: Student): AttendanceRecord {
    AttendanceRecord(st.id, Present)
  }

  /** The records marking starts with: one `present` record per class student, in class order. */
  function InitialRecords(students: seq<Student>): (r: seq<AttendanceRecord>)
    ensures |r| == |students|
    ensures forall i :: 0 <= i < |students| ==> r[i].studentId == students[i].id && r[i].status == Present
  {
    Map(students, PresentRecord)
  }

  function SetStatusOf(studentId: string, status: Status): AttendanceRecord -> AttendanceRecord {
    (rec: AttendanceRecord) => if rec.studentId == studentId then rec.(status := status) else rec
  }

  /** `updateAttendanceStatus`: records of that student take the new status; all others stay as they are. */
  function UpdateRecords(records: seq<AttendanceRecord>, studentId: string, status: Status): (r: seq<AttendanceRecord>)
    ensures |r| == |records|
    ensures forall i :: 0 <= i < |records| ==> r[i].studentId == records[i].studentId
    ensures forall i :: 0 <= i < |records| && records[i].studentId == studentId ==> r[i].status == status
    ensures forall i :: 0 <= i < |records| && records[i].studentId != studentId ==> r[i] == records[i]
  {
    Map(records, SetStatusOf(studentId, status))
  }

  /** An id with no record leaves the list exactly as it was. */
  lemma UpdateUnknownId(records: seq<AttendanceRecord>, studentId: string, status: Status)
    requires forall i :: 0 <= i < |records| ==> records[i].studentId != studentId
    ensures UpdateRecords(records, studentId, status) == records
  {
  }

  /** `i` holds the first record of that student. */
  predicate FirstRecordAt(records: seq<AttendanceRecord>, studentId: string, i: int) {
    0 <= i < |records| && records[i].studentId == studentId &&
    forall j :: 0 <= j < i ==> records[j].studentId != studentId
  }

  /** `attendanceRecords.find(r => r.studentId === id)`: the first record of that student. */
  function FindRecord(records: seq<AttendanceRecord>, studentId: string): (r: Option<AttendanceRecord>)
    ensures r.None? <==> forall i :: 0 <= i < |records| ==> records[i].studentId != studentId
    ensures r.Some? ==> r.value.studentId == studentId
    ensures r.Some? ==> exists i :: FirstRecordAt(records, studentId, i) && records[i] == r.value
  {
    if records == [] then None
    else if records[0].studentId == studentId then
      assert FirstRecordAt(records, studentId, 0);
      Some(records[0])
    else
      var r := FindRecord(records[1..], studentId);
      if r.Some? then
        var i :| FirstRecordAt(records[1..], studentId, i) && records[1..][i] == r.value;
        assert FirstRecordAt(records, studentId, i + 1);
        r
      else
        r
  }

  /** The radio button shown for a student: the status of their first record, `present` when there is none. */
  function DisplayedStatus(records: seq<AttendanceRecord>, studentId: string): (r: Status)
    ensures (forall i :: 0 <= i < |records| ==> records[i].studentId != studentId) ==> r == Present
    ensures forall i :: FirstRecordAt(records, studentId, i) ==> r == records[i].status
  {
    var rec := FindRecord(records, studentId);
    if rec.Some? then rec.value.status else Present
  }

  /** The first record of any student after an update: that student's takes the new status, others are as before. */
  lemma {:induction false} FindAfterUpdate(records: seq<AttendanceRecord>, studentId: string, status: Status, q: string)
    ensures var f := FindRecord(records, q);
      FindRecord(UpdateRecords(records, studentId, status), q) ==
      (if f.None? then None else Some(if q == studentId then f.value.(status := status) else f.value))
  {
    if records != [] {
      var u := UpdateRecords(records, studentId, status);
      assert u[1..] == UpdateRecords(records[1..], studentId, status);
      if records[0].studentId != q {
        FindAfterUpdate(records[1..], studentId, status, q);
      }
    }
  }

  /**
   * What the screen shows after an update: the updated student's button
   * shows the new status when they have a record, and every other student's
   * button is unchanged.
   */
  lemma UpdateThenDisplayed(records: seq<AttendanceRecord>, studentId: string, status: Status, other: string)
    ensures (exists i :: 0 <= i < |records| && records[i].studentId == studentId) ==>
      DisplayedStatus(UpdateRecords(records, studentId, status), studentId) == status
    ensures other != studentId ==>
      DisplayedStatus(UpdateRecords(records, studentId, status), other) == DisplayedStatus(records, other)
  {
    FindAfterUpdate(records, studentId, status, studentId);
    FindAfterUpdate(records, studentId, status, other);
  }

  function RecordIs(status: Status): AttendanceRecord -> bool {
    (rec: AttendanceRecord) => rec.status == status
  }

  /** The submission toast's counts: together they account for every record. */
  function SubmitTally(records: seq<AttendanceRecord>): (t: Tally)
    ensures t.present == Count(records, RecordIs(Present))
    ensures t.late == Count(records, RecordIs(Late))
    ensures t.absent == Count(records, RecordIs(Absent))
    ensures t.present + t.late + t.absent == |records|
  {
    var none := (rec: AttendanceRecord) => !RecordIs(Present)(rec) && !RecordIs(Late)(rec) && !RecordIs(Absent)(rec);
    CountPartition(records, RecordIs(Present), RecordIs(Late), RecordIs(Absent), none);
    CountNone(records, none);
    Tally(Count(records, RecordIs(Present)), Count(records, RecordIs(Late)), Count(records, RecordIs(Absent)))
  }

  /** Right after starting, every record is `present`, so the tally is all present. */
  lemma InitialTally(students: seq<Student>)
    ensures SubmitTally(InitialRecords(students)) == Tally(|students|, 0, 0)
  {
    var r := InitialRecords(students);
    FilterKeepsAll(r, RecordIs(Present));
    CountNone(r, RecordIs(Late));
    CountNone(r, RecordIs(Absent));
  }

  /** The screen's state. */
  class AttendanceScreen {
    var attendanceYear: string
    var attendanceSection: string
    var attendanceSubject: string
    var attendanceRecords: seq<AttendanceRecord>
    var isMarkingAttendance: bool

    constructor()
      ensures attendanceYear == "" && attendanceSection == "" && attendanceSubject == ""
      ensures attendanceRecords == [] && !isMarkingAttendance
    {
      attendanceYear, attendanceSection, attendanceSubject := "", "", "";
      attendanceRecords := [];
      isMarkingAttendance := false;
    }

    /** The start button is enabled exactly when the class is chosen and has at least one student. */
    function CanStart(students: seq<Student>): (r: bool)
      reads this
      ensures r <==> (attendanceYear != "" && attendanceSection != "" && attendanceSubject != "" &&
        exists i :: 0 <= i < |students| && InClass(attendanceYear, attendanceSection, attendanceSubject)(students[i]))
    {
      var f := StudentsForAttendance(students, attendanceYear, attendanceSection, attendanceSubject);
      FilterNonEmptyIff(students, InClass(attendanceYear, attendanceSection, attendanceSubject));
      attendanceYear != "" && attendanceSection != "" && attendanceSubject != "" && |f| > 0
    }

    /**
     * `startAttendanceMarking`: with year, section and subject chosen, every
     * class student gets a `present` record and marking begins; otherwise
     * nothing changes.
     */
    method StartAttendanceMarking(students: seq<Student>)
      modifies this
      ensures old(attendanceYear != "" && attendanceSection != "" && attendanceSubject != "") ==>
        attendanceRecords == InitialRecords(StudentsForAttendance(students, attendanceYear, attendanceSection, attendanceSubject)) &&
        isMarkingAttendance
      ensures !old(attendanceYear != "" && attendanceSection != "" && attendanceSubject != "") ==>
        attendanceRecords == old(attendanceRecords) && isMarkingAttendance == old(isMarkingAttendance)
      ensures attendanceYear == old(attendanceYear) && attendanceSection == old(attendanceSection)
      ensures attendanceSubject == old(attendanceSubject)
    {
      if attendanceYear != "" && attendanceSection != "" && attendanceSubject != "" {
        var forClass := StudentsForAttendance(students, attendanceYear, attendanceSection, attendanceSubject);
        attendanceRecords := InitialRecords(forClass);
        isMarkingAttendance := true;
      }
    }

    /** `updateAttendanceStatus` applied to the screen's records. */
    method UpdateAttendanceStatus(studentId: string, status: Status)
      modifies this
      ensures attendanceRecords == UpdateRecords(old(attendanceRecords), studentId, status)
      ensures isMarkingAttendance == old(isMarkingAttendance)
      ensures attendanceYear == old(attendanceYear) && attendanceSection == old(attendanceSection)
      ensures attendanceSubject == old(attendanceSubject)
    {
      attendanceRecords := UpdateRecords(attendanceRecords, studentId, status);
    }

    /**
     * `submitAttendance`: the current records and class are handed over with
     * their tally, then marking ends and the records and the class are cleared.
     */
    method SubmitAttendance() returns (submitted: seq<AttendanceRecord>, classInfo: ClassSelection, tally: Tally)
      modifies this
      ensures submitted == old(attendanceRecords)
      ensures classInfo == ClassSelection(old(attendanceYear), old(attendanceSection), old(attendanceSubject))
      ensures tally == SubmitTally(submitted)
      ensures !isMarkingAttendance && attendanceRecords == []
      ensures attendanceYear == "" && attendanceSection == "" && attendanceSubject == ""
    {
      submitted := attendanceRecords;
      classInfo := ClassSelection(attendanceYear, attendanceSection, attendanceSubject);
      tally := SubmitTally(submitted);
      isMarkingAttendance := false;
      attendanceRecords := [];
      attendanceYear, attendanceSection, attendanceSubject := "", "", "";
    }

    /** The cancel button: marking ends; the records and the class stay. */
    method Cancel()
      modifies this
      ensures !isMarkingAttendance
      ensures attendanceRecords == old(attendanceRecords)
      ensures attendanceYear == old(attendanceYear) && attendanceSection == old(attendanceSection)
      ensures attendanceSubject == old(attendanceSubject)
    {
      isMarkingAttendance := false;
    }
  }
}
