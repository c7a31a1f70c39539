/**
 * The roster screen of `src/components/student/StudentManagement.tsx`: a
 * list of students replaced wholesale on create (append), update (map) and
 * delete (filter), a search and section filter over it, and per-section
 * counts. The clock reading `Date.now()` is a parameter `now`.
 */
module StudentManagement {
  import opened Wrappers
  import opened Text
  import opened Seqs
  import opened StudentTypes

  /** The per-section badge counts. */
  datatype SectionCounts = SectionCounts(a: nat, b: nat, c: nat, all: nat)

  function BySearch(term: string): Student -> bool {
    (st: Student) => MatchesTerm(st.name, st.usn, term)
  }

  function InSection(sec: Section): Student -> bool {
    (st: Student) => st.section == sec
  }

  /** The condition for being listed: the search (when there is one) and the section tab (unless `ALL`). */
  function Listed(term: string, sec: SectionFilter): Student -> bool {
    (st: Student) => (term == "" || MatchesTerm(st.name, st.usn, term)) && sec.Admits(st.section)
  }

  /** `filteredStudents`: the search filter, then the section filter. */
  function FilteredStudents(students: seq<Student>, term: string, sec: SectionFilter): seq<Student> {
    var bySearch := if term == "" then students else Filter(students, BySearch(term));
    if sec.All? then bySearch else Filter(bySearch, InSection(sec.section))
  }

  /** The listed students are those of the roster meeting both filters, in roster order. */
  lemma FilteredStudentsSpec(students: seq<Student>, term: string, sec: SectionFilter)
    ensures FilteredStudents(students, term, sec) == Filter(students, Listed(term, sec))
    ensures IsSubsequence(FilteredStudents(students, term, sec), students)
    ensures forall x :: x in FilteredStudents(students, term, sec) <==> x in students && Listed(term, sec)(x)
  {
    var m := Listed(term, sec);
    if term == "" && sec.All? {
      FilterKeepsAll(students, m);
    } else if term == "" {
      FilterCongruent(students, InSection(sec.section), m);
    } else if sec.All? {
      FilterCongruent(students, BySearch(term), m);
    } else {
      FilterFilter(students, BySearch(term), InSection(sec.section), m);
    }
    FilterIsSubsequence(students, m);
    forall x ensures x in FilteredStudents(students, term, sec) <==> x in students && m(x) {
      FilterMembership(students, m, x);
    }
  }

  /**
   * `sectionCounts`: one pass over the roster, bumping the counter of each
   * student's section. Every student is in exactly one of A, B, C, so the
   * three counts add up to `ALL`, the roster length.
   */
  method CountSections(students: seq<Student>) returns (counts: SectionCounts)
    ensures counts.a == Count(students, InSection(A))
    ensures counts.b == Count(students, InSection(B))
    ensures counts.c == Count(students, InSection(C))
    ensures counts.all == |students|
    ensures counts.a + counts.b + counts.c == counts.all
  {
    var a, b, c := 0, 0, 0;
    for i := 0 to |students|
      invariant a == Count(students[..i], InSection(A))
      invariant b == Count(students[..i], InSection(B))
      invariant c == Count(students[..i], InSection(C))
      invariant a + b + c == i
    {
      CountExtend(students, InSection(A), i);
      CountExtend(students, InSection(B), i);
      CountExtend(students, InSection(C), i);
      match students[i].section
      case A => a := a + 1;
      case B => b := b + 1;
      case C => c := c + 1;
    }
    assert students[..|students|] == students;
    counts := SectionCounts(a, b, c, |students|);
  }

  /** The id a new student gets: its section, a dash, and the clock reading. */
  function NewId(section: Section, now: nat): string {
    section.Name() + "-" + Decimal(now)
  }

  /** Ids made at different clock readings, or for different sections, differ. */
  lemma NewIdInjective(s1: Section, now1: nat, s2: Section, now2: nat)
    requires NewId(s1, now1) == NewId(s2, now2)
    ensures s1 == s2 && now1 == now2
  {
    var id1, id2 := NewId(s1, now1), NewId(s2, now2);
    assert id1[0] == s1.Name()[0] && id2[0] == s2.Name()[0];
    assert id1[2..] == Decimal(now1) && id2[2..] == Decimal(now2);
    DecimalInjective(now1, now2);
  }

  /** `createStudent`'s record: the form's fields, a fresh id, both timestamps `now`. */
  function NewStudent(data: StudentFormData, now: nat): (st: Student)
    ensures st.id == NewId(data.section, now)
    ensures st.name == data.name && st.usn == data.usn && st.subject == data.subject
    ensures st.section == data.section && st.year == data.year && st.className == data.className
    ensures st.email == data.email && st.phone == data.phone
    ensures st.createdAt == now && st.updatedAt == now
  {
    Student(NewId(data.section, now), data.name, data.usn, data.subject, data.section, data.year,
      data.className, data.email, data.phone, now, now)
  }

  /**
   * `{ ...editingStudent, ...studentData, updatedAt }`: the form's fields win,
   * an optional field the form leaves out stays as it was, and the id and the
   * creation time are the edited student's.
   */
  function Merge(editing: Student, data: StudentFormData, now: int): (st: Student)
    ensures st.id == editing.id && st.createdAt == editing.createdAt && st.updatedAt == now
    ensures st.name == data.name && st.usn == data.usn && st.subject == data.subject
    ensures st.section == data.section && st.year == data.year && st.className == data.className
    ensures st.email == (if data.email.Some? then data.email else editing.email)
    ensures st.phone == (if data.phone.Some? then data.phone else editing.phone)
  {
    editing.(name := data.name, usn := data.usn, subject := data.subject, section := data.section,
      year := data.year, className := data.className,
      email := if data.email.Some? then data.email else editing.email,
      phone := if data.phone.Some? then data.phone else editing.phone,
      updatedAt := now)
  }

  function ReplaceWith(id: string, updated: Student): Student -> Student {
    (st: Student) => if st.id == id then updated else st
  }

  /** The update's `map`: every student with that id becomes `updated`; the others and the length stay. */
  function ReplaceById(students: seq<Student>, id: string, updated: Student): (r: seq<Student>)
    ensures |r| == |students|
    ensures forall i :: 0 <= i < |students| ==> r[i] == (if students[i].id == id then updated else students[i])
  {
    Map(students, ReplaceWith(id, updated))
  }

  /** While the edited id is kept, replacing changes no student's id. */
  lemma ReplaceByIdKeepsIds(students: seq<Student>, id: string, updated: Student)
    requires updated.id == id
    ensures forall i :: 0 <= i < |students| ==> ReplaceById(students, id, updated)[i].id == students[i].id
  {
  }

  function NotId(id: string): Student -> bool {
    (st: Student) => st.id != id
  }

  /** The delete's `filter`: every student with that id goes; the rest stay in order. */
  function RemoveId(students: seq<Student>, id: string): seq<Student> {
    Filter(students, NotId(id))
  }

  lemma RemoveIdSpec(students: seq<Student>, id: string)
    ensures IsSubsequence(RemoveId(students, id), students)
    ensures forall x :: x in RemoveId(students, id) <==> x in students && x.id != id
    ensures |RemoveId(students, id)| == |students| - Count(students, (st: Student) => st.id == id)
  {
    FilterIsSubsequence(students, NotId(id));
    forall x ensures x in RemoveId(students, id) <==> x in students && x.id != id {
      FilterMembership(students, NotId(id), x);
    }
    var none := (st: Student) => false;
    CountPartition(students, NotId(id), (st: Student) => st.id == id, none, none);
    CountNone(students, none);
  }

  /** Deleting the student just created gives back the roster it was added to, when its id was new. */
  lemma CreateThenDelete(students: seq<Student>, data: StudentFormData, now: nat)
    requires forall i :: 0 <= i < |students| ==> students[i].id != NewId(data.section, now)
    ensures RemoveId(students + [NewStudent(data, now)], NewId(data.section, now)) == students
  {
    var id := NewId(data.section, now);
    FilterConcat(students, [NewStudent(data, now)], NotId(id));
    FilterKeepsAll(students, NotId(id));
    assert Filter([NewStudent(data, now)], NotId(id)) == [] + Filter([], NotId(id));
  }

  /** The roster screen's state. */
  class RosterScreen {
    var students: seq<Student>
    var searchTerm: string
    var activeSection: SectionFilter
    var isFormOpen: bool
    var editingStudent: Option<Student>

    constructor(initial: seq<Student>)
      ensures students == initial && searchTerm == "" && activeSection == All
      ensures !isFormOpen && editingStudent == None
    {
      students := initial;
      searchTerm := "";
      activeSection := All;
      isFormOpen := false;
      editingStudent := None;
    }

    /** `createStudent`: exactly one new student at the end; the earlier ones untouched. */
    method CreateStudent(data: StudentFormData, now: nat)
      modifies this
      ensures students == old(students) + [NewStudent(data, now)]
      ensures |students| == |old(students)| + 1 && students[..|old(students)|] == old(students)
      ensures searchTerm == old(searchTerm) && activeSection == old(activeSection)
      ensures isFormOpen == old(isFormOpen) && editingStudent == old(editingStudent)
    {
      students := students + [NewStudent(data, now)];
      assert students[..|old(students)|] == old(students);
    }

    /** `updateStudent`: nothing without an edited student; otherwise its id's entries take the merged record. */
    method UpdateStudent(data: StudentFormData, now: int)
      modifies this
      ensures old(editingStudent) == None ==> students == old(students)
      ensures old(editingStudent).Some? ==>
        var editing := old(editingStudent).value;
        students == ReplaceById(old(students), editing.id, Merge(editing, data, now))
      ensures |students| == |old(students)|
      ensures forall i :: 0 <= i < |students| ==> students[i].id == old(students)[i].id
      ensures searchTerm == old(searchTerm) && activeSection == old(activeSection)
      ensures isFormOpen == old(isFormOpen) && editingStudent == old(editingStudent)
    {
      if editingStudent.None? {
        return;
      }
      var editing := editingStudent.value;
      var updated := Merge(editing, data, now);
      ReplaceByIdKeepsIds(students, editing.id, updated);
      students := ReplaceById(students, editing.id, updated);
    }

    /** `deleteStudent`: nothing for an unknown id; otherwise every student with that id is removed. */
    method DeleteStudent(id: string)
      modifies this
      ensures (forall i :: 0 <= i < |old(students)| ==> old(students)[i].id != id) ==> students == old(students)
      ensures students == RemoveId(old(students), id)
      ensures searchTerm == old(searchTerm) && activeSection == old(activeSection)
      ensures isFormOpen == old(isFormOpen) && editingStudent == old(editingStudent)
    {
      if forall i :: 0 <= i < |students| ==> students[i].id != id {
        FilterKeepsAll(students, NotId(id));
        return;
      }
      students := RemoveId(students, id);
    }

    /** `handleAddStudent`: the form opens for a new student. */
    method HandleAddStudent()
      modifies this
      ensures editingStudent == None && isFormOpen
      ensures students == old(students) && searchTerm == old(searchTerm) && activeSection == old(activeSection)
    {
      editingStudent := None;
      isFormOpen := true;
    }

    /** `handleEditStudent`: the form opens on that student. */
    method HandleEditStudent(student: Student)
      modifies this
      ensures editingStudent == Some(student) && isFormOpen
      ensures students == old(students) && searchTerm == old(searchTerm) && activeSection == old(activeSection)
    {
      editingStudent := Some(student);
      isFormOpen := true;
    }

    /**
     * `handleFormSubmit`: an update when a student is being edited, a create
     * otherwise; then the form closes and nobody is being edited.
     */
    method HandleFormSubmit(data: StudentFormData, now: nat)
      modifies this
      ensures old(editingStudent).Some? ==>
        var editing := old(editingStudent).value;
        students == ReplaceById(old(students), editing.id, Merge(editing, data, now))
      ensures old(editingStudent).None? ==> students == old(students) + [NewStudent(data, now)]
      ensures !isFormOpen && editingStudent == None
      ensures searchTerm == old(searchTerm) && activeSection == old(activeSection)
    {
      if editingStudent.Some? {
        UpdateStudent(data, now);
      } else {
        CreateStudent(data, now);
      }
      isFormOpen := false;
      editingStudent := None;
    }

    /** `handleFormCancel`: the form closes and nobody is being edited; the roster stays. */
    method HandleFormCancel()
      modifies this
      ensures !isFormOpen && editingStudent == None
      ensures students == old(students) && searchTerm == old(searchTerm) && activeSection == old(activeSection)
    {
      isFormOpen := false;
      editingStudent := None;
    }
  }
}
