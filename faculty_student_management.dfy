/**
 * The faculty roster of `src/components/facultydashboard/StudentManagement.tsx`:
 * a module-level list of students standing in for a server, changed in
 * place by `push`, index assignment and `splice` after a `findIndex`
 * search, and the screen that queries it for one faculty member's subject
 * and section. The mock delays are left out: each call is one step.
 */
module FacultyStudentManagement {
  import opened Wrappers
  import opened Text
  import opened Seqs

  /** A roster entry; `id` is the optional `_id` the store assigns. */
  datatype RosterStudent = RosterStudent(
    id: Option<string>,
    facultyId: string,
    name: string,
    usn: string,
    email: string,
    subject: string,
    section: string,
    year: string,
    department: string)

  /** The store's initial contents. */
  const MockStudents: seq<RosterStudent> := [
    RosterStudent(Some("1"), "fac123", "John Doe", "USN001", "john@example.com", "CS101", "A", "2023", "Computer Science"),
    RosterStudent(Some("2"), "fac123", "Jane Smith", "USN002", "jane@example.com", "CS101", "A", "2023", "Computer Science"),
    RosterStudent(Some("3"), "fac123", "Bob Johnson", "USN003", "bob@example.com", "CS201", "B", "2023", "Information Technology")
  ]

  /** The form's fields all cleared. */
  const EmptyForm := RosterStudent(None, "", "", "", "", "", "", "", "")

  function InQuery(facultyId: string, subject: string, section: string): RosterStudent -> bool {
    (st: RosterStudent) => st.facultyId == facultyId && st.subject == subject && st.section == section
  }

  function BySearch(search: string): RosterStudent -> bool {
    (st: RosterStudent) => MatchesTerm(st.name, st.usn, search)
  }

  function Listed(facultyId: string, subject: string, section: string, search: string): RosterStudent -> bool {
    (st: RosterStudent) => InQuery(facultyId, subject, section)(st) && (search == "" || MatchesTerm(st.name, st.usn, search))
  }

  /** `listStudents`: the faculty member's students of that subject and section, then the search. */
  function ListStudents(store: seq<RosterStudent>, facultyId: string, subject: string, section: string, search: string): seq<RosterStudent> {
    var inQuery := Filter(store, InQuery(facultyId, subject, section));
    if search == "" then inQuery else Filter(inQuery, BySearch(search))
  }

  /** The listing keeps the store's order and holds exactly the entries meeting the query and the search. */
  lemma ListStudentsSpec(store: seq<RosterStudent>, facultyId: string, subject: string, section: string, search: string)
    ensures ListStudents(store, facultyId, subject, section, search) == Filter(store, Listed(facultyId, subject, section, search))
    ensures IsSubsequence(ListStudents(store, facultyId, subject, section, search), store)
    ensures forall x :: x in ListStudents(store, facultyId, subject, section, search) <==>
      x in store && x.facultyId == facultyId && x.subject == subject && x.section == section &&
      (search == "" || MatchesTerm(x.name, x.usn, search))
  {
    var m := Listed(facultyId, subject, section, search);
    if search == "" {
      FilterCongruent(store, InQuery(facultyId, subject, section), m);
    } else {
      FilterFilter(store, InQuery(facultyId, subject, section), BySearch(search), m);
    }
    FilterIsSubsequence(store, m);
    forall x ensures x in ListStudents(store, facultyId, subject, section, search) <==> x in store && m(x) {
      FilterMembership(store, m, x);
    }
  }

  /** The initial store lists John Doe and Jane Smith for faculty `fac123`, subject CS101, section A. */
  lemma MockListing()
    ensures ListStudents(MockStudents, "fac123", "CS101", "A", "") == MockStudents[..2]
  {
    var p := InQuery("fac123", "CS101", "A");
    assert MockStudents == MockStudents[..2] + [MockStudents[2]];
    FilterConcat(MockStudents[..2], [MockStudents[2]], p);
    FilterKeepsAll(MockStudents[..2], p);
    assert Filter([MockStudents[2]], p) == [] + Filter([], p);
  }

  /** `findIndex(s => s._id === id)`: the first entry carrying that id, or -1. */
  function IndexOf(store: seq<RosterStudent>, id: string): (r: int)
    ensures r == -1 <==> forall i :: 0 <= i < |store| ==> store[i].id != Some(id)
    ensures r != -1 ==> 0 <= r < |store| && store[r].id == Some(id)
    ensures r != -1 ==> forall j :: 0 <= j < r ==> store[j].id != Some(id)
  {
    if store == [] then -1
    else if store[0].id == Some(id) then 0
    else
      var r := IndexOf(store[1..], id);
      if r == -1 then -1 else r + 1
  }

  /** The contents after `createStudent`: the entry, with a fresh `_id` from the clock, pushed at the end. */
  function AfterCreate(store: seq<RosterStudent>, student: RosterStudent, now: nat): (r: seq<RosterStudent>)
    ensures |r| == |store| + 1 && r[..|store|] == store
    ensures r[|store|] == student.(id := Some(Decimal(now)))
  {
    store + [student.(id := Some(Decimal(now)))]
  }

  /** The contents after `updateStudent`: the first entry with that id overwritten; a missing id changes nothing. */
  function AfterUpdate(store: seq<RosterStudent>, id: string, student: RosterStudent): (r: seq<RosterStudent>)
    ensures |r| == |store|
    ensures IndexOf(store, id) == -1 ==> r == store
    ensures IndexOf(store, id) != -1 ==>
      r[IndexOf(store, id)] == student.(id := Some(id)) &&
      forall j :: 0 <= j < |store| && j != IndexOf(store, id) ==> r[j] == store[j]
  {
    var i := IndexOf(store, id);
    if i == -1 then store else store[i := student.(id := Some(id))]
  }

  /** The contents after `deleteStudent`: the first entry with that id spliced out; a missing id changes nothing. */
  function AfterDelete(store: seq<RosterStudent>, id: string): (r: seq<RosterStudent>)
    ensures IndexOf(store, id) == -1 ==> r == store
    ensures IndexOf(store, id) != -1 ==> |r| == |store| - 1
    ensures IndexOf(store, id) != -1 ==> multiset(r) + multiset{store[IndexOf(store, id)]} == multiset(store)
    ensures IndexOf(store, id) != -1 ==> IsSubsequence(r, store)
    ensures IndexOf(store, id) != -1 ==>
              (forall j :: 0 <= j < IndexOf(store, id) ==> r[j] == store[j]) &&
              (forall j :: IndexOf(store, id) <= j < |r| ==> r[j] == store[j + 1])
  {
    var i := IndexOf(store, id);
    if i == -1 then store
    else
      assert store == store[..i] + [store[i]] + store[i + 1..];
      DropOneIsSubsequence(store, i);
      store[..i] + store[i + 1..]
  }

  /** After an update the entry is still found at the same place, now with the submitted fields. */
  lemma UpdateThenFind(store: seq<RosterStudent>, id: string, student: RosterStudent)
    requires IndexOf(store, id) != -1
    ensures IndexOf(AfterUpdate(store, id, student), id) == IndexOf(store, id)
    ensures AfterUpdate(store, id, student)[IndexOf(store, id)] == student.(id := Some(id))
  {
  }

  /** Deleting by the id a create has just handed out restores the store, when no entry had that id before. */
  lemma CreateThenDelete(store: seq<RosterStudent>, student: RosterStudent, now: nat)
    requires IndexOf(store, Decimal(now)) == -1
    ensures AfterDelete(AfterCreate(store, student, now), Decimal(now)) == store
  {
    var s := AfterCreate(store, student, now);
    assert IndexOf(s, Decimal(now)) == |store|;
    assert s[..|store|] == store;
  }

  /** The module-level `mockStudents` list. */
  class MockStore {
    var students: seq<RosterStudent>

    constructor()
      ensures students == MockStudents
    {
      students := MockStudents;
    }

    /** `mockStudents.findIndex(s => s._id === id)`, as a search loop. */
    method FindIndex(id: string) returns (index: int)
      ensures index == IndexOf(students, id)
    {
      var i := 0;
      while i < |students|
        invariant 0 <= i <= |students|
        invariant forall j :: 0 <= j < i ==> students[j].id != Some(id)
        invariant IndexOf(students, id) == -1 || i <= IndexOf(students, id)
      {
        if students[i].id == Some(id) {
          return i;
        }
        i := i + 1;
      }
      return -1;
    }

    /** `createStudent`: the entry, given an id from the clock, is pushed. */
    method CreateStudent(student: RosterStudent, now: nat) returns (created: RosterStudent)
      modifies this
      ensures created == student.(id := Some(Decimal(now)))
      ensures students == AfterCreate(old(students), student, now)
    {
      created := student.(id := Some(Decimal(now)));
      students := students + [created];
    }

    /** `updateStudent`: the first entry with that id is overwritten in place. */
    method UpdateStudent(id: string, student: RosterStudent)
      modifies this
      ensures students == AfterUpdate(old(students), id, student)
    {
      var index := FindIndex(id);
      if index != -1 {
        students := students[index := student.(id := Some(id))];
      }
    }

    /** `deleteStudent`: the first entry with that id is spliced out. */
    method DeleteStudent(id: string)
      modifies this
      ensures students == AfterDelete(old(students), id)
    {
      var index := FindIndex(id);
      if index != -1 {
        students := students[..index] + students[index + 1..];
      }
    }
  }

  /** A form field the dialog edits. */
  datatype FormField = Name | Usn | Email | Subject | Section | Year | Department

  /** An input's change: that field takes the value, the USN input upper-cased. */
  function WithField(form: RosterStudent, field: FormField, value: string): (r: RosterStudent)
    ensures field == Usn ==> r == form.(usn := ToUpper(value))
    ensures field != Usn ==> r.usn == form.usn
  {
    match field
    case Name => form.(name := value)
    case Usn => form.(usn := ToUpper(value))
    case Email => form.(email := value)
    case Subject => form.(subject := value)
    case Section => form.(section := value)
    case Year => form.(year := value)
    case Department => form.(department := value)
  }

  /** The form's USN is kept upper-case: once upper-cased, every later change leaves it so. */
  lemma WithFieldKeepsUsnUpper(form: RosterStudent, field: FormField, value: string)
    requires ToUpper(form.usn) == form.usn
    ensures ToUpper(WithField(form, field, value).usn) == WithField(form, field, value).usn
  {
    if field == Usn { ToUpperIdempotent(value); }
  }

  /** The four fields a submission cannot do without. */
  predicate RequiredFilled(form: RosterStudent) {
    form.name != "" && form.usn != "" && form.subject != "" && form.section != ""
  }

  /** `if (editingId)`: an edit id counts only when it is a non-empty string. */
  predicate Editing(editingId: Option<string>) {
    editingId.Some? && editingId.value != ""
  }

  /** The screen's state; the faculty member and the store are fixed for its lifetime. */
  class RosterView {
    const facultyId: string
    const department: Option<string>
    const store: MockStore
    var selectedSubject: string
    var selectedSection: string
    var search: string
    var students: seq<RosterStudent>
    var openDialog: bool
    var form: RosterStudent
    var editingId: Option<string>

    constructor(facultyId: string, department: Option<string>, store: MockStore)
      ensures this.facultyId == facultyId && this.department == department && this.store == store
      ensures selectedSubject == "" && selectedSection == "" && search == ""
      ensures students == [] && !openDialog && editingId == None
      ensures form == EmptyForm.(facultyId := facultyId)
    {
      this.facultyId := facultyId;
      this.department := department;
      this.store := store;
      selectedSubject, selectedSection, search := "", "", "";
      students := [];
      openDialog := false;
      form := EmptyForm.(facultyId := facultyId);
      editingId := None;
    }

    /** `canQuery`: a faculty member, a subject and a section are all known. */
    predicate CanQuery()
      reads this
    {
      facultyId != "" && selectedSubject != "" && selectedSection != ""
    }

    /** `load`: nothing unless the query is complete; otherwise the listing replaces the shown students. */
    method Load()
      modifies this
      ensures !old(CanQuery()) ==> students == old(students)
      ensures old(CanQuery()) ==> students == ListStudents(store.students, facultyId, selectedSubject, selectedSection, search)
      ensures selectedSubject == old(selectedSubject) && selectedSection == old(selectedSection) && search == old(search)
      ensures openDialog == old(openDialog) && form == old(form) && editingId == old(editingId)
    {
      if CanQuery() {
        students := ListStudents(store.students, facultyId, selectedSubject, selectedSection, search);
      }
    }

    /** The subject select; the effect on the selection reloads. */
    method SelectSubject(subject: string)
      modifies this
      ensures selectedSubject == subject && selectedSection == old(selectedSection) && search == old(search)
      ensures CanQuery() ==> students == ListStudents(store.students, facultyId, subject, selectedSection, search)
      ensures !CanQuery() ==> students == old(students)
      ensures openDialog == old(openDialog) && form == old(form) && editingId == old(editingId)
    {
      selectedSubject := subject;
      Load();
    }

    /** The section select; the effect on the selection reloads. */
    method SelectSection(section: string)
      modifies this
      ensures selectedSection == section && selectedSubject == old(selectedSubject) && search == old(search)
      ensures CanQuery() ==> students == ListStudents(store.students, facultyId, selectedSubject, section, search)
      ensures !CanQuery() ==> students == old(students)
      ensures openDialog == old(openDialog) && form == old(form) && editingId == old(editingId)
    {
      selectedSection := section;
      Load();
    }

    /** The search box; the effect on the search reloads. */
    method SetSearch(term: string)
      modifies this
      ensures search == term && selectedSubject == old(selectedSubject) && selectedSection == old(selectedSection)
      ensures CanQuery() ==> students == ListStudents(store.students, facultyId, selectedSubject, selectedSection, term)
      ensures !CanQuery() ==> students == old(students)
      ensures openDialog == old(openDialog) && form == old(form) && editingId == old(editingId)
    {
      search := term;
      Load();
    }

    /** `onNew`: a blank form for the current subject, section, department and year; nobody is edited. */
    method OnNew(currentYear: nat)
      modifies this
      ensures editingId == None && openDialog
      ensures form == EmptyForm.(facultyId := facultyId, subject := selectedSubject, section := selectedSection,
        department := department.GetOr(""), year := Decimal(currentYear))
      ensures students == old(students) && selectedSubject == old(selectedSubject)
      ensures selectedSection == old(selectedSection) && search == old(search)
    {
      editingId := None;
      form := EmptyForm.(facultyId := facultyId, subject := selectedSubject, section := selectedSection,
        department := department.GetOr(""), year := Decimal(currentYear));
      openDialog := true;
    }

    /** `onEdit`: the form holds that student and their id is the one being edited. */
    method OnEdit(student: RosterStudent)
      modifies this
      ensures editingId == student.id && form == student && openDialog
      ensures students == old(students) && selectedSubject == old(selectedSubject)
      ensures selectedSection == old(selectedSection) && search == old(search)
    {
      editingId := student.id;
      form := student;
      openDialog := true;
    }

    /** An input of the dialog changes one field of the form. */
    method ChangeField(field: FormField, value: string)
      modifies this
      ensures form == WithField(old(form), field, value)
      ensures students == old(students) && editingId == old(editingId) && openDialog == old(openDialog)
      ensures selectedSubject == old(selectedSubject) && selectedSection == old(selectedSection) && search == old(search)
    {
      form := WithField(form, field, value);
    }

    /** `onDelete`: when the user confirms, the entry is deleted and the list reloaded. */
    method OnDelete(id: string, confirmed: bool)
      modifies this, store
      ensures !confirmed ==> store.students == old(store.students) && students == old(students)
      ensures confirmed ==> store.students == AfterDelete(old(store.students), id)
      ensures confirmed && CanQuery() ==>
        students == ListStudents(store.students, facultyId, selectedSubject, selectedSection, search)
      ensures confirmed && !CanQuery() ==> students == old(students)
      ensures selectedSubject == old(selectedSubject) && selectedSection == old(selectedSection) && search == old(search)
      ensures openDialog == old(openDialog) && form == old(form) && editingId == old(editingId)
    {
      if !confirmed {
        return;
      }
      store.DeleteStudent(id);
      Load();
    }

    /**
     * `onSubmit`: an incomplete form changes nothing. Otherwise the entry
     * being edited is updated, or a new one is created, the dialog closes
     * and the list is reloaded.
     */
    method OnSubmit(now: nat)
      modifies this, store
      ensures !old(RequiredFilled(form)) ==>
        store.students == old(store.students) && students == old(students) && openDialog == old(openDialog)
      ensures old(RequiredFilled(form)) && Editing(old(editingId)) ==>
        store.students == AfterUpdate(old(store.students), old(editingId).value, old(form))
      ensures old(RequiredFilled(form)) && !Editing(old(editingId)) ==>
        store.students == AfterCreate(old(store.students), old(form), now)
      ensures old(RequiredFilled(form)) ==> !openDialog
      ensures old(RequiredFilled(form)) && CanQuery() ==>
        students == ListStudents(store.students, facultyId, selectedSubject, selectedSection, search)
      ensures old(RequiredFilled(form)) && !CanQuery() ==> students == old(students)
      ensures form == old(form) && editingId == old(editingId)
      ensures selectedSubject == old(selectedSubject) && selectedSection == old(selectedSection) && search == old(search)
    {
      if !RequiredFilled(form) {
        return;
      }
      if Editing(editingId) {
        store.UpdateStudent(editingId.value, form);
      } else {
        var _ := store.CreateStudent(form, now);
      }
      openDialog := false;
      Load();
    }
  }
}
