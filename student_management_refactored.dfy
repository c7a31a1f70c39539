/**
 * The roster screen of `src/components/student/StudentManagementRefactored.tsx`:
 * the student list is a read-only prop filtered by a search term, a year and
 * a section, and the add and edit dialogs share one five-field form whose
 * contents are handed to the parent's callbacks. A callback invocation is
 * modelled as the handler's out-parameter.
 */
module StudentManagementRefactored {
  import opened Wrappers
  import opened Text
  import opened Seqs
  import opened AttendanceTypes

  /** The value of the year and section selects that lets every student through. */
  const AllValues := "all"

  /** The condition for being listed: the search term, then the year and section selects. */
  function Shown(term: string, year: string, section: string): Student -> bool {
    (st: Student) =>
      MatchesTerm(st.name, st.usn, term) &&
      (year == AllValues || st.year == year) &&
      (section == AllValues || st.section == section)
  }

  /** The year and section selects alone. */
  function InYearAndSection(year: string, section: string): Student -> bool {
    (st: Student) => (year == AllValues || st.year == year) && (section == AllValues || st.section == section)
  }

  /** `filteredStudents`: one `filter` over the prop, with no special case for an empty term. */
  function FilteredStudents(students: seq<Student>, term: string, year: string, section: string): seq<Student> {
    Filter(students, Shown(term, year, section))
  }

  /** The listed students keep the roster's order and are exactly those passing all three tests. */
  lemma FilteredStudentsSpec(students: seq<Student>, term: string, year: string, section: string)
    ensures IsSubsequence(FilteredStudents(students, term, year, section), students)
    ensures forall x :: x in FilteredStudents(students, term, year, section) <==>
      x in students && MatchesTerm(x.name, x.usn, term) &&
      (year == AllValues || x.year == year) && (section == AllValues || x.section == section)
    ensures forall x :: multiset(FilteredStudents(students, term, year, section))[x] ==
                        if MatchesTerm(x.name, x.usn, term) && (year == AllValues || x.year == year) &&
                           (section == AllValues || x.section == section)
                        then multiset(students)[x] else 0
  {
    var p := Shown(term, year, section);
    FilterIsSubsequence(students, p);
    forall x ensures x in FilteredStudents(students, term, year, section) <==> x in students && p(x) {
      FilterMembership(students, p, x);
    }
    forall x ensures multiset(FilteredStudents(students, term, year, section))[x] == if p(x) then multiset(students)[x] else 0 {
      FilterMultiplicity(students, p, x);
    }
  }

  /** An empty search box filters nothing: only the year and section selects apply. */
  lemma EmptySearchIgnored(students: seq<Student>, year: string, section: string)
    ensures FilteredStudents(students, "", year, section) == Filter(students, InYearAndSection(year, section))
  {
    forall st: Student ensures Shown("", year, section)(st) == InYearAndSection(year, section)(st) {
      EmptyTermMatches(st.name, st.usn);
    }
    FilterCongruent(students, Shown("", year, section), InYearAndSection(year, section));
  }

  /** With the initial selects (`""`, `"all"`, `"all"`) the whole roster is listed, in order. */
  lemma InitialListingIsRoster(students: seq<Student>)
    ensures FilteredStudents(students, "", AllValues, AllValues) == students
  {
    EmptySearchIgnored(students, AllValues, AllValues);
    FilterKeepsAll(students, InYearAndSection(AllValues, AllValues));
  }

  /** The guard of both save buttons: every field of the form is non-empty. */
  predicate Filled(form: NewStudent) {
    form.name != "" && form.usn != "" && form.year != "" && form.section != "" && form.subject != ""
  }

  /** The form `handleEditStudent` loads: the five editable fields of that student. */
  function FormOf(st: Student): NewStudent {
    NewStudent(st.name, st.usn, st.year, st.section, st.subject)
  }

  /** The blank form never passes the guard, so saving it calls no callback. */
  lemma BlankNotFilled()
    ensures !Filled(BlankNewStudent)
  {
  }

  /** The screen's state; `students` itself belongs to the parent. */
  class RosterDialogs {
    var searchTerm: string
    var selectedYear: string
    var selectedSection: string
    var isAddDialogOpen: bool
    var editingStudent: Option<Student>
    var newStudent: NewStudent

    constructor()
      ensures searchTerm == "" && selectedYear == AllValues && selectedSection == AllValues
      ensures !isAddDialogOpen && editingStudent == None && newStudent == BlankNewStudent
    {
      searchTerm, selectedYear, selectedSection := "", AllValues, AllValues;
      isAddDialogOpen := false;
      editingStudent := None;
      newStudent := BlankNewStudent;
    }

    /** The rows on screen for the parent's `students`. */
    function Listing(students: seq<Student>): seq<Student>
      reads this
    {
      FilteredStudents(students, searchTerm, selectedYear, selectedSection)
    }

    /**
     * `handleAddStudent`: a filled form is handed to `onAddStudent`, then
     * the form is blanked and the dialog closed; otherwise nothing happens.
     */
    method HandleAddStudent() returns (added: Option<NewStudent>)
      modifies this
      ensures old(Filled(newStudent)) ==> added == Some(old(newStudent)) && newStudent == BlankNewStudent && !isAddDialogOpen
      ensures !old(Filled(newStudent)) ==> added == None && newStudent == old(newStudent) && isAddDialogOpen == old(isAddDialogOpen)
      ensures editingStudent == old(editingStudent)
      ensures searchTerm == old(searchTerm) && selectedYear == old(selectedYear) && selectedSection == old(selectedSection)
    {
      if Filled(newStudent) {
        added := Some(newStudent);
        newStudent := BlankNewStudent;
        isAddDialogOpen := false;
      } else {
        added := None;
      }
    }

    /** `handleEditStudent`: that student is being edited and the form holds its five fields. */
    method HandleEditStudent(st: Student)
      modifies this
      ensures editingStudent == Some(st) && newStudent == FormOf(st)
      ensures isAddDialogOpen == old(isAddDialogOpen)
      ensures searchTerm == old(searchTerm) && selectedYear == old(selectedYear) && selectedSection == old(selectedSection)
    {
      editingStudent := Some(st);
      newStudent := FormOf(st);
    }

    /**
     * `handleUpdateStudent`: with a student being edited and a filled form,
     * `onUpdateStudent` receives that student's id and the form, then editing
     * ends and the form is blanked; otherwise nothing happens.
     */
    method HandleUpdateStudent() returns (updated: Option<(string, NewStudent)>)
      modifies this
      ensures old(editingStudent.Some? && Filled(newStudent)) ==>
        updated == Some((old(editingStudent).value.id, old(newStudent))) &&
        editingStudent == None && newStudent == BlankNewStudent
      ensures !old(editingStudent.Some? && Filled(newStudent)) ==>
        updated == None && editingStudent == old(editingStudent) && newStudent == old(newStudent)
      ensures isAddDialogOpen == old(isAddDialogOpen)
      ensures searchTerm == old(searchTerm) && selectedYear == old(selectedYear) && selectedSection == old(selectedSection)
    {
      if editingStudent.Some? && Filled(newStudent) {
        updated := Some((editingStudent.value.id, newStudent));
        editingStudent := None;
        newStudent := BlankNewStudent;
      } else {
        updated := None;
      }
    }

    /**
     * Opening a student for editing and saving without touching the form:
     * the parent receives that student's id with its own five fields when
     * they are all non-empty, and the dialog then closes with a blank form;
     * when one of them is empty the save is refused and the student stays open.
     */
    method EditThenSaveUntouched(st: Student) returns (updated: Option<(string, NewStudent)>)
      modifies this
      ensures Filled(FormOf(st)) <==> st.name != "" && st.usn != "" && st.year != "" && st.section != "" && st.subject != ""
      ensures Filled(FormOf(st)) ==> updated == Some((st.id, FormOf(st))) && editingStudent == None && newStudent == BlankNewStudent
      ensures !Filled(FormOf(st)) ==> updated == None && editingStudent == Some(st) && newStudent == FormOf(st)
      ensures isAddDialogOpen == old(isAddDialogOpen)
      ensures searchTerm == old(searchTerm) && selectedYear == old(selectedYear) && selectedSection == old(selectedSection)
    {
      HandleEditStudent(st);
      updated := HandleUpdateStudent();
    }

    /** The edit dialog's cancel button: editing ends and the form keeps what it holds. */
    method CancelEdit()
      modifies this
      ensures editingStudent == None && newStudent == old(newStudent)
      ensures isAddDialogOpen == old(isAddDialogOpen)
      ensures searchTerm == old(searchTerm) && selectedYear == old(selectedYear) && selectedSection == old(selectedSection)
    {
      editingStudent := None;
    }
  }
}
