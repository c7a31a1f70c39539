/**
 * The attendance ledger of `src/components/attendance/AttendanceMarking.tsx`:
 * the roster is narrowed by section and subject and sorted by name, a map
 * from student id to status collects the marks, and a submission turns the
 * visible students into records, an unmarked student counting as absent.
 */
module AttendanceMarking {
  import opened Wrappers
  import opened Text
  import opened Seqs
  import opened StableSort
  import opened StudentTypes
  import AT = AttendanceTypes

  /** One submitted row: the student, their mark, the session's date and subject, the student's section. */
  datatype MarkRecord = MarkRecord(studentId: string, status: AT.Status, date: string, subject: string, section: Section)

  /** The three bulk buttons. */
  datatype BulkAction = MarkAllPresent | MarkAllAbsent | Reset

  /** The tallies shown above the list; `notMarked` is computed by subtraction, as an integer. */
  datatype StatusCounts = StatusCounts(present: nat, absent: nat, late: nat, notMarked: int)

  /** The comparison the list is sorted by: name against name. */
  predicate ByName(a: Student, b: Student) {
    NameLe(a.name, b.name)
  }

  lemma ByNameOrders()
    ensures Total(ByName) && Transitive(ByName)
  {
    forall x: Student, y: Student ensures ByName(x, y) || ByName(y, x) {
      NameLeTotal(x.name, y.name);
    }
    forall x: Student, y: Student, z: Student | ByName(x, y) && ByName(y, z) ensures ByName(x, z) {
      NameLeTransitive(x.name, y.name, z.name);
    }
  }

  function SectionIs(sec: Section): Student -> bool {
    (st: Student) => st.section == sec
  }

  function SubjectIs(subject: string): Student -> bool {
    (st: Student) => st.subject == subject
  }

  /** The condition a student must meet to be visible: section unless `ALL`, subject unless empty. */
  function Matches(sec: SectionFilter, subject: string): Student -> bool {
    (st: Student) => sec.Admits(st.section) && (subject == "" || st.subject == subject)
  }

  /** The two successive filters of the list. */
  function Filtered(students: seq<Student>, sec: SectionFilter, subject: string): seq<Student> {
    var bySection := if sec.All? then students else Filter(students, SectionIs(sec.section));
    if subject == "" then bySection else Filter(bySection, SubjectIs(subject))
  }

  /** `filteredStudents`: the filtered list, sorted by name. */
  function Visible(students: seq<Student>, sec: SectionFilter, subject: string): seq<Student> {
    SortBy(Filtered(students, sec, subject), ByName)
  }

  /** The two filters amount to one filter by `Matches`. */
  lemma FilteredIsMatches(students: seq<Student>, sec: SectionFilter, subject: string)
    ensures Filtered(students, sec, subject) == Filter(students, Matches(sec, subject))
  {
    var m := Matches(sec, subject);
    if sec.All? && subject == "" {
      FilterKeepsAll(students, m);
    } else if sec.All? {
      FilterCongruent(students, SubjectIs(subject), m);
    } else if subject == "" {
      FilterCongruent(students, SectionIs(sec.section), m);
    } else {
      FilterFilter(students, SectionIs(sec.section), SubjectIs(subject), m);
    }
  }

  /**
   * The visible list holds exactly the matching roster students, each as
   * often as in the roster, ordered by name.
   */
  lemma VisibleSpec(students: seq<Student>, sec: SectionFilter, subject: string)
    ensures forall x :: x in Visible(students, sec, subject) <==> x in students && Matches(sec, subject)(x)
    ensures multiset(Visible(students, sec, subject)) == multiset(Filter(students, Matches(sec, subject)))
    ensures Sorted(Visible(students, sec, subject), ByName)
  {
    var f := Filtered(students, sec, subject);
    FilteredIsMatches(students, sec, subject);
    SortByPermutes(f, ByName);
    ByNameOrders();
    SortBySorted(f, ByName);
    forall x ensures x in Visible(students, sec, subject) <==> x in students && Matches(sec, subject)(x) {
      FilterMembership(students, Matches(sec, subject), x);
      assert x in Visible(students, sec, subject) <==> x in multiset(Visible(students, sec, subject));
    }
  }

  /** The status a submission records: the mark, or absent when there is none. */
  function StatusOrAbsent(attendance: map<string, AT.Status>, id: string): (r: AT.Status)
    ensures id in attendance ==> r == attendance[id]
    ensures id !in attendance ==> r == AT.Absent
  {
    if id in attendance then attendance[id] else AT.Absent
  }

  /** The record `handleSubmit` makes for one student. */
  function RecordFor(attendance: map<string, AT.Status>, date: string, subject: string): Student -> MarkRecord {
    (st: Student) => MarkRecord(st.id, StatusOrAbsent(attendance, st.id), date, subject, st.section)
  }

  /** The records a submission emits: one per visible student, in visible order. */
  function Records(visible: seq<Student>, attendance: map<string, AT.Status>, date: string, subject: string): (r: seq<MarkRecord>)
    ensures |r| == |visible|
    ensures forall i :: 0 <= i < |visible| ==>
      r[i].studentId == visible[i].id && r[i].date == date && r[i].subject == subject &&
      r[i].section == visible[i].section &&
      r[i].status == (if visible[i].id in attendance then attendance[visible[i].id] else AT.Absent)
  {
    Map(visible, RecordFor(attendance, date, subject))
  }

  function HasStatus(attendance: map<string, AT.Status>, status: AT.Status): Student -> bool {
    (st: Student) => st.id in attendance && attendance[st.id] == status
  }

  function Unmarked(attendance: map<string, AT.Status>): Student -> bool {
    (st: Student) => st.id !in attendance
  }

  function RecordIs(status: AT.Status): MarkRecord -> bool {
    (r: MarkRecord) => r.status == status
  }

  /**
   * `getStatusCounts`: the visible students per mark; the students left over
   * are exactly the unmarked ones, so `notMarked` is never negative and the
   * four tallies add up to the number of visible students.
   */
  function GetStatusCounts(visible: seq<Student>, attendance: map<string, AT.Status>): (r: StatusCounts)
    ensures r.present == Count(visible, HasStatus(attendance, AT.Present))
    ensures r.absent == Count(visible, HasStatus(attendance, AT.Absent))
    ensures r.late == Count(visible, HasStatus(attendance, AT.Late))
    ensures r.notMarked == Count(visible, Unmarked(attendance))
    ensures r.notMarked >= 0
    ensures r.present + r.absent + r.late + r.notMarked == |visible|
  {
    var present := Count(visible, HasStatus(attendance, AT.Present));
    var absent := Count(visible, HasStatus(attendance, AT.Absent));
    var late := Count(visible, HasStatus(attendance, AT.Late));
    CountPartition(visible, HasStatus(attendance, AT.Present), HasStatus(attendance, AT.Absent),
      HasStatus(attendance, AT.Late), Unmarked(attendance));
    StatusCounts(present, absent, late, |visible| - present - absent - late)
  }

  /**
   * The submitted records agree with the tallies: as many present and late
   * records as marks, and the absent records are the absent marks plus the
   * unmarked students.
   */
  lemma RecordsMatchCounts(visible: seq<Student>, attendance: map<string, AT.Status>, date: string, subject: string)
    ensures var r := Records(visible, attendance, date, subject);
            var c := GetStatusCounts(visible, attendance);
            Count(r, RecordIs(AT.Present)) == c.present &&
            Count(r, RecordIs(AT.Late)) == c.late &&
            Count(r, RecordIs(AT.Absent)) == c.absent + c.notMarked
  {
    var f := RecordFor(attendance, date, subject);
    CountMap(visible, f, RecordIs(AT.Present), HasStatus(attendance, AT.Present));
    CountMap(visible, f, RecordIs(AT.Late), HasStatus(attendance, AT.Late));
    var absentOrUnmarked := (st: Student) => HasStatus(attendance, AT.Absent)(st) || Unmarked(attendance)(st);
    forall x: Student ensures absentOrUnmarked(x) == RecordIs(AT.Absent)(f(x)) {
      assert f(x).status == StatusOrAbsent(attendance, x.id);
      assert HasStatus(attendance, AT.Absent)(x) == (x.id in attendance && attendance[x.id] == AT.Absent);
      assert Unmarked(attendance)(x) == (x.id !in attendance);
    }
    CountMap(visible, f, RecordIs(AT.Absent), absentOrUnmarked);
    CountUnion(visible, HasStatus(attendance, AT.Absent), Unmarked(attendance), absentOrUnmarked);
  }

  /** After a bulk mark every visible student carries that mark: the tally of that mark is the whole list. */
  lemma BulkMarkCounts(visible: seq<Student>, attendance: map<string, AT.Status>, status: AT.Status)
    requires forall i :: 0 <= i < |visible| ==> visible[i].id in attendance && attendance[visible[i].id] == status
    ensures Count(visible, HasStatus(attendance, status)) == |visible|
    ensures GetStatusCounts(visible, attendance).notMarked == 0
  {
    FilterKeepsAll(visible, HasStatus(attendance, status));
    CountNone(visible, Unmarked(attendance));
  }

  /** An empty ledger: nothing is marked, and a submission records every visible student absent. */
  lemma EmptyLedgerAllAbsent(visible: seq<Student>, date: string, subject: string)
    ensures GetStatusCounts(visible, map[]) == StatusCounts(0, 0, 0, |visible|)
    ensures Count(Records(visible, map[], date, subject), RecordIs(AT.Absent)) == |visible|
  {
    var none: map<string, AT.Status> := map[];
    CountNone(visible, HasStatus(none, AT.Present));
    CountNone(visible, HasStatus(none, AT.Absent));
    CountNone(visible, HasStatus(none, AT.Late));
    RecordsMatchCounts(visible, none, date, subject);
  }

  /** The ids of the students in `s`. */
  function Ids(s: seq<Student>): set<string> {
    set i | 0 <= i < |s| :: s[i].id
  }

  lemma IdsExtend(s: seq<Student>, i: nat)
    requires i < |s|
    ensures Ids(s[..i + 1]) == Ids(s[..i]) + {s[i].id}
  {
    var a, b := s[..i + 1], s[..i];
    forall id | id in Ids(a) ensures id in Ids(b) + {s[i].id} {
      var j :| 0 <= j < |a| && a[j].id == id;
      if j < i { assert b[j] == a[j]; }
    }
    forall id | id in Ids(b) + {s[i].id} ensures id in Ids(a) {
      if id == s[i].id { assert a[i] == s[i]; }
      else {
        var j :| 0 <= j < |b| && b[j].id == id;
        assert a[j] == b[j];
      }
    }
  }

  /** The `forEach` of a bulk action: a fresh ledger giving every student in `visible` the mark `status`. */
  method BulkLedger(visible: seq<Student>, status: AT.Status) returns (bulk: map<string, AT.Status>)
    ensures bulk.Keys == Ids(visible)
    ensures forall i :: 0 <= i < |visible| ==> bulk[visible[i].id] == status
  {
    bulk := map[];
    for i := 0 to |visible|
      invariant bulk.Keys == Ids(visible[..i])
      invariant forall id :: id in bulk ==> bulk[id] == status
    {
      IdsExtend(visible, i);
      bulk := bulk[visible[i].id := status];
    }
    assert visible[..|visible|] == visible;
    forall i | 0 <= i < |visible| ensures visible[i].id in bulk {
      assert visible[i].id in Ids(visible);
    }
  }

  /** The component's state: the selection and the marks taken so far. */
  class AttendanceSession {
    var selectedSubject: string
    var selectedSection: SectionFilter
    var selectedDate: string
    var attendance: map<string, AT.Status>

    /** A fresh screen: no subject, every section, today's date, no marks. */
    constructor(today: string)
      ensures selectedSubject == "" && selectedSection == All && selectedDate == today
      ensures attendance == map[]
    {
      selectedSubject := "";
      selectedSection := All;
      selectedDate := today;
      attendance := map[];
    }

    /**
     * `filteredStudents` as the component computes it: the array is sorted in
     * place. With neither filter in force that array is the `students` prop
     * itself, which is therefore reordered; otherwise a fresh array is sorted
     * and the prop is left alone.
     */
    method FilteredStudents(students: array<Student>) returns (visible: array<Student>)
      modifies students
      ensures visible[..] == Visible(old(students[..]), selectedSection, selectedSubject)
      ensures selectedSection.All? && selectedSubject == "" ==> visible == students
      ensures !(selectedSection.All? && selectedSubject == "") ==>
        fresh(visible) && students[..] == old(students[..])
    {
      if selectedSection.All? && selectedSubject == "" {
        SortInPlace(students, ByName);
        visible := students;
      } else {
        var f := Filtered(students[..], selectedSection, selectedSubject);
        visible := new Student[|f|](i requires 0 <= i < |f| => f[i]);
        assert visible[..] == f;
        SortInPlace(visible, ByName);
      }
    }

    /** `handleStatusChange`: that student's mark is set; every other mark stays. */
    method HandleStatusChange(studentId: string, status: AT.Status)
      modifies this
      ensures attendance == old(attendance)[studentId := status]
      ensures forall id :: id != studentId ==> (id in attendance <==> id in old(attendance))
      ensures forall id :: id != studentId && id in attendance ==> attendance[id] == old(attendance)[id]
      ensures selectedSubject == old(selectedSubject) && selectedSection == old(selectedSection)
      ensures selectedDate == old(selectedDate)
    {
      attendance := attendance[studentId := status];
    }

    /**
     * `handleBulkAction`: reset empties the ledger; a bulk mark replaces the
     * whole ledger by one whose keys are exactly the visible ids, each with
     * that mark.
     */
    method HandleBulkAction(action: BulkAction, students: seq<Student>)
      modifies this
      ensures action == Reset ==> attendance == map[]
      ensures action != Reset ==>
        var visible := Visible(students, selectedSection, selectedSubject);
        var status := if action == MarkAllPresent then AT.Present else AT.Absent;
        attendance.Keys == Ids(visible) &&
        forall i :: 0 <= i < |visible| ==> attendance[visible[i].id] == status
      ensures selectedSubject == old(selectedSubject) && selectedSection == old(selectedSection)
      ensures selectedDate == old(selectedDate)
    {
      if action == Reset {
        attendance := map[];
      } else {
        var visible := Visible(students, selectedSection, selectedSubject);
        var status := if action == MarkAllPresent then AT.Present else AT.Absent;
        var bulk := BulkLedger(visible, status);
        attendance := bulk;
      }
    }

    /**
     * `handleSubmit`: without a subject nothing is emitted and the ledger is
     * kept; otherwise the records of the visible students are emitted, the
     * toast's present count is at most its total, and the ledger is emptied.
     */
    method HandleSubmit(students: seq<Student>) returns (submitted: Option<seq<MarkRecord>>, presentCount: nat, totalCount: nat)
      modifies this
      ensures old(selectedSubject) == "" ==> submitted == None && attendance == old(attendance)
      ensures old(selectedSubject) != "" ==>
        var records := Records(Visible(students, selectedSection, selectedSubject), old(attendance), selectedDate, selectedSubject);
        submitted == Some(records) && attendance == map[] &&
        presentCount == Count(records, RecordIs(AT.Present)) && totalCount == |records| &&
        presentCount <= totalCount
      ensures selectedSubject == old(selectedSubject) && selectedSection == old(selectedSection)
      ensures selectedDate == old(selectedDate)
    {
      if selectedSubject == "" {
        return None, 0, 0;
      }
      var visible := Visible(students, selectedSection, selectedSubject);
      var records := Records(visible, attendance, selectedDate, selectedSubject);
      submitted := Some(records);
      presentCount := Count(records, RecordIs(AT.Present));
      totalCount := |records|;
      attendance := map[];
    }
  }
}
