/**
 * The report page of `src/components/reports/ReportsRefactor.tsx`: three
 * report generators and the spreadsheet export, each a guard on the chosen
 * parameters followed by a `filter` over the students. A generator whose
 * guard fails shows an alert instead; here that is the result `None`. The
 * alert texts, the console output and the floating-point average are not
 * part of this model.
 */
module ReportsRefactor {
  import opened Wrappers
  import opened Seqs
  import opened AttendanceTypes

  /** The page's selections, each a string that starts out `""`. */
  datatype ReportForm = ReportForm(
    reportType: string,
    reportYear: string,
    reportSection: string,
    reportSubject: string,
    reportDate: string,
    reportStudent: string)

  /** What `generateStudentReport` finds: the matching students and the one its alert describes. */
  datatype StudentReport = StudentReport(data: seq<Student>, shown: Option<Student>)

  function HasUsn(usn: string): Student -> bool {
    (st: Student) => st.usn == usn
  }

  /** The filter shared by the daily and the subject report. */
  function ClassData(students: seq<Student>, form: ReportForm): seq<Student> {
    Filter(students, InClass(form.reportYear, form.reportSection, form.reportSubject))
  }

  /** The class data keep the students' order and hold exactly those of that year, section and subject. */
  lemma ClassDataSpec(students: seq<Student>, form: ReportForm)
    ensures IsSubsequence(ClassData(students, form), students)
    ensures forall x :: x in ClassData(students, form) <==>
      x in students && x.year == form.reportYear && x.section == form.reportSection && x.subject == form.reportSubject
    ensures forall x :: multiset(ClassData(students, form))[x] ==
                        if x.year == form.reportYear && x.section == form.reportSection && x.subject == form.reportSubject
                        then multiset(students)[x] else 0
  {
    var p := InClass(form.reportYear, form.reportSection, form.reportSubject);
    FilterIsSubsequence(students, p);
    forall x ensures x in ClassData(students, form) <==> x in students && p(x) {
      FilterMembership(students, p, x);
    }
    forall x ensures multiset(ClassData(students, form))[x] == if p(x) then multiset(students)[x] else 0 {
      FilterMultiplicity(students, p, x);
    }
  }

  /** `generateDailyReport`: date, year, section and subject are all required. */
  function DailyReport(students: seq<Student>, form: ReportForm): (r: Option<seq<Student>>)
    ensures r.None? <==> form.reportDate == "" || form.reportYear == "" || form.reportSection == "" || form.reportSubject == ""
  {
    if form.reportDate == "" || form.reportYear == "" || form.reportSection == "" || form.reportSubject == "" then None
    else Some(ClassData(students, form))
  }

  /** The date is a required field of the daily report but does not select anything. */
  lemma DailyIgnoresDate(students: seq<Student>, form: ReportForm, otherDate: string)
    requires form.reportDate != "" && otherDate != ""
    ensures DailyReport(students, form.(reportDate := otherDate)) == DailyReport(students, form)
  {
  }

  /** `generateSubjectReport`: subject, year and section are required. */
  function SubjectReport(students: seq<Student>, form: ReportForm): (r: Option<seq<Student>>)
    ensures r.None? <==> form.reportSubject == "" || form.reportYear == "" || form.reportSection == ""
  {
    if form.reportSubject == "" || form.reportYear == "" || form.reportSection == "" then None
    else Some(ClassData(students, form))
  }

  /**
   * `generateStudentReport`: a student must be selected; the report covers
   * the students with that USN and its alert describes the first of them,
   * if there is one.
   */
  function GenerateStudentReport(students: seq<Student>, form: ReportForm): (r: Option<StudentReport>)
    ensures r.None? <==> form.reportStudent == ""
    ensures r.Some? ==> r.value.data == Filter(students, HasUsn(form.reportStudent))
    ensures r.Some? ==> (r.value.shown.None? <==> forall i :: 0 <= i < |students| ==> students[i].usn != form.reportStudent)
  {
    if form.reportStudent == "" then None
    else
      var data := Filter(students, HasUsn(form.reportStudent));
      FilterNonEmptyIff(students, HasUsn(form.reportStudent));
      Some(StudentReport(data, if data != [] then Some(data[0]) else None))
  }

  /** The student an alert describes has the selected USN and is the first such in the list. */
  lemma StudentReportShowsFirst(students: seq<Student>, form: ReportForm)
    requires GenerateStudentReport(students, form).Some?
    requires GenerateStudentReport(students, form).value.shown.Some?
    ensures var shown := GenerateStudentReport(students, form).value.shown.value;
      exists i :: FirstMeeting(students, HasUsn(form.reportStudent), i) && students[i] == shown
  {
    FirstKept(students, HasUsn(form.reportStudent));
  }

  /** `i` is the first position of `s` whose element meets `p`. */
  predicate FirstMeeting(s: seq<Student>, p: Student -> bool, i: int) {
    0 <= i < |s| && p(s[i]) && forall j :: 0 <= j < i ==> !p(s[j])
  }

  /** The first element `Filter` keeps is the first element of `s` meeting `p`. */
  lemma {:induction false} FirstKept(s: seq<Student>, p: Student -> bool)
    requires Filter(s, p) != []
    ensures exists i :: FirstMeeting(s, p, i) && s[i] == Filter(s, p)[0]
  {
    if p(s[0]) {
      assert FirstMeeting(s, p, 0) && s[0] == Filter(s, p)[0];
    } else {
      assert Filter(s, p) == Filter(s[1..], p);
      FirstKept(s[1..], p);
      var i :| FirstMeeting(s[1..], p, i) && s[1..][i] == Filter(s[1..], p)[0];
      assert s[i + 1] == s[1..][i];
      forall j | 0 <= j < i + 1 ensures !p(s[j]) {
        if j > 0 { assert s[j] == s[1..][j - 1]; }
      }
      assert FirstMeeting(s, p, i + 1);
    }
  }

  /** `exportToExcel`: the rows of the selected report type, or none when it is unknown or incomplete. */
  function ExportToExcel(students: seq<Student>, form: ReportForm): seq<Student> {
    if form.reportType == "daily" && form.reportDate != "" && form.reportYear != "" && form.reportSection != "" && form.reportSubject != "" then
      ClassData(students, form)
    else if form.reportType == "student" && form.reportStudent != "" then
      Filter(students, HasUsn(form.reportStudent))
    else if form.reportType == "subject" && form.reportSubject != "" && form.reportYear != "" && form.reportSection != "" then
      ClassData(students, form)
    else
      []
  }

  /** Every export is exactly what the generator of that type reports, and empty where that generator refuses. */
  lemma ExportMatchesGenerators(students: seq<Student>, form: ReportForm)
    ensures form.reportType == "daily" ==> ExportToExcel(students, form) == DailyReport(students, form).GetOr([])
    ensures form.reportType == "subject" ==> ExportToExcel(students, form) == SubjectReport(students, form).GetOr([])
    ensures form.reportType == "student" && GenerateStudentReport(students, form).Some? ==>
      ExportToExcel(students, form) == GenerateStudentReport(students, form).value.data
    ensures form.reportType == "student" && GenerateStudentReport(students, form).None? ==> ExportToExcel(students, form) == []
  {
  }

  /** A report type other than the three radio values exports nothing. */
  lemma UnknownTypeExportsNothing(students: seq<Student>, form: ReportForm)
    requires form.reportType != "daily" && form.reportType != "student" && form.reportType != "subject"
    ensures ExportToExcel(students, form) == []
  {
  }

  /** Daily and subject exports chosen for the same year, section and subject hold the same rows. */
  lemma DailyAndSubjectExportAgree(students: seq<Student>, form: ReportForm)
    requires form.reportDate != ""
    ensures ExportToExcel(students, form.(reportType := "daily")) == ExportToExcel(students, form.(reportType := "subject"))
  {
  }

  /** Every exported row is a student of the page. */
  lemma ExportRowsAreStudents(students: seq<Student>, form: ReportForm)
    ensures forall x :: x in ExportToExcel(students, form) ==> x in students
  {
    forall x | x in ExportToExcel(students, form) ensures x in students {
      if form.reportType == "student" && form.reportStudent != "" {
        FilterMembership(students, HasUsn(form.reportStudent), x);
      } else {
        ClassDataSpec(students, form);
      }
    }
  }
}
