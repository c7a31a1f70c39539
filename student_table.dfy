/**
 * The roster table of `src/components/facultydashboard/StudentTable.tsx`:
 * the section badge colours, the criteria listed when no student is shown,
 * and the two-step delete confirmation. The optional props are `Option`s;
 * a prop counts as set when it is present and non-empty, as JavaScript's
 * truthiness test on a string does.
 */
module StudentTable {
  import opened Wrappers
  import opened StudentTypes

  const BlueBadge := "bg-blue-100 text-blue-800"
  const GreenBadge := "bg-green-100 text-green-800"
  const PurpleBadge := "bg-purple-100 text-purple-800"
  const GrayBadge := "bg-gray-100 text-gray-800"

  /** `getSectionColor`: one colour per known section, grey for anything else. */
  function SectionColor(section: string): (r: string)
    ensures section == "A" ==> r == BlueBadge
    ensures section == "B" ==> r == GreenBadge
    ensures section == "C" ==> r == PurpleBadge
    ensures r == GrayBadge <==> section != "A" && section != "B" && section != "C"
  {
    if section == "A" then BlueBadge
    else if section == "B" then GreenBadge
    else if section == "C" then PurpleBadge
    else GrayBadge
  }

  /** The three known sections are told apart by their colours. */
  lemma SectionColorsDistinct(s: string, t: string)
    requires s in {"A", "B", "C"} && t in {"A", "B", "C"} && s != t
    ensures SectionColor(s) != SectionColor(t)
  {
  }

  /** The optional filter props the table is told about. */
  datatype Filters = Filters(
    activeSection: Option<string>,
    searchTerm: Option<string>,
    selectedSubject: Option<string>,
    selectedYear: Option<string>)

  /** JavaScript truthiness of an optional string prop. */
  predicate Set(p: Option<string>) {
    p.Some? && p.value != ""
  }

  predicate SectionActive(f: Filters) {
    Set(f.activeSection) && f.activeSection.value != "ALL"
  }

  /** Some filter is in effect, so an empty table means no student matched. */
  predicate AnyActive(f: Filters) {
    SectionActive(f) || Set(f.searchTerm) || Set(f.selectedSubject) || Set(f.selectedYear)
  }

  function SectionLabel(s: string): string { "Section " + s }
  function SearchLabel(s: string): string { "Search: \"" + s + "\"" }
  function SubjectLabel(s: string): string { "Subject: " + s }
  function YearLabel(s: string): string { "Year: " + s }

  function Part(active: bool, badge: string): seq<string> {
    if active then [badge] else []
  }

  /** The criteria badges in the order the table builds them: section, search, subject, year. */
  function Criteria(f: Filters): seq<string> {
    Part(SectionActive(f), SectionLabel(f.activeSection.GetOr(""))) +
    Part(Set(f.searchTerm), SearchLabel(f.searchTerm.GetOr(""))) +
    Part(Set(f.selectedSubject), SubjectLabel(f.selectedSubject.GetOr(""))) +
    Part(Set(f.selectedYear), YearLabel(f.selectedYear.GetOr("")))
  }

  /**
   * Each badge is shown exactly when its filter is in effect: the section
   * one when a section other than `ALL` is set, each other one when its
   * prop is non-empty.
   */
  lemma CriteriaSpec(f: Filters)
    ensures SectionActive(f) <==> SectionLabel(f.activeSection.GetOr("")) in Criteria(f)
    ensures Set(f.searchTerm) <==> SearchLabel(f.searchTerm.GetOr("")) in Criteria(f)
    ensures Set(f.selectedSubject) <==> SubjectLabel(f.selectedSubject.GetOr("")) in Criteria(f)
    ensures Set(f.selectedYear) <==> YearLabel(f.selectedYear.GetOr("")) in Criteria(f)
    ensures SectionActive(f) ==> Criteria(f)[0] == SectionLabel(f.activeSection.value)
    ensures Set(f.selectedYear) ==> Criteria(f)[|Criteria(f)| - 1] == YearLabel(f.selectedYear.value)
  {
    var sec := SectionLabel(f.activeSection.GetOr(""));
    var sea := SearchLabel(f.searchTerm.GetOr(""));
    var sub := SubjectLabel(f.selectedSubject.GetOr(""));
    var yea := YearLabel(f.selectedYear.GetOr(""));
    // The four labels start differently, so none can stand for another.
    assert sec[2] == 'c' && sea[2] == 'a' && sub[1] == 'u' && yea[0] == 'Y';
    assert sec[0] == 'S' && sea[0] == 'S' && sub[0] == 'S' && sec[1] == 'e' && sea[1] == 'e';
    assert sec != sea && sec != sub && sec != yea && sea != sub && sea != yea && sub != yea;
  }

  /** The criteria list is empty exactly when no filter is in effect. */
  lemma CriteriaEmptyIff(f: Filters)
    ensures Criteria(f) == [] <==> !AnyActive(f)
  {
  }

  /**
   * The `activeCriteria` builder: an empty list and one `push` per filter
   * in effect.
   */
  method ActiveCriteria(f: Filters) returns (criteria: seq<string>)
    ensures criteria == Criteria(f)
  {
    criteria := [];
    if f.activeSection.Some? && f.activeSection.value != "" && f.activeSection.value != "ALL" {
      criteria := criteria + [SectionLabel(f.activeSection.value)];
    }
    if f.searchTerm.Some? && f.searchTerm.value != "" {
      criteria := criteria + [SearchLabel(f.searchTerm.value)];
    }
    if f.selectedSubject.Some? && f.selectedSubject.value != "" {
      criteria := criteria + [SubjectLabel(f.selectedSubject.value)];
    }
    if f.selectedYear.Some? && f.selectedYear.value != "" {
      criteria := criteria + [YearLabel(f.selectedYear.value)];
    }
  }

  /** The text shown for an empty table. */
  datatype EmptyNotice = NoMatch(criteria: seq<string>) | NothingAdded

  function Notice(criteria: seq<string>): EmptyNotice {
    if |criteria| > 0 then NoMatch(criteria) else NothingAdded
  }

  /** "No students have been added yet" is shown exactly when no filter is in effect. */
  lemma NoticeNothingAddedIff(f: Filters)
    ensures Notice(Criteria(f)) == NothingAdded <==> !AnyActive(f)
    ensures Notice(Criteria(f)).NoMatch? ==> Notice(Criteria(f)).criteria == Criteria(f)
  {
    CriteriaEmptyIff(f);
  }

  /** The delete-confirmation state. */
  class DeleteFlow {
    var deleteDialogOpen: bool
    var studentToDelete: Option<Student>

    /** The confirmation dialog is never open without a student to delete. */
    predicate Valid()
      reads this
    {
      deleteDialogOpen ==> studentToDelete.Some?
    }

    constructor()
      ensures Valid() && !deleteDialogOpen && studentToDelete == None
    {
      deleteDialogOpen := false;
      studentToDelete := None;
    }

    /** `handleDeleteClick`: that student is kept and the dialog opens. */
    method HandleDeleteClick(st: Student)
      modifies this
      ensures Valid()
      ensures studentToDelete == Some(st) && deleteDialogOpen
    {
      studentToDelete := Some(st);
      deleteDialogOpen := true;
    }

    /**
     * `handleDeleteConfirm`: `onDeleteStudent` receives the kept student's
     * id, if a student is kept; the dialog then closes and nobody is kept.
     */
    method HandleDeleteConfirm() returns (deleted: Option<string>)
      modifies this
      ensures Valid()
      ensures old(studentToDelete).Some? ==> deleted == Some(old(studentToDelete).value.id)
      ensures old(studentToDelete).None? ==> deleted == None
      ensures !deleteDialogOpen && studentToDelete == None
    {
      if studentToDelete.Some? {
        deleted := Some(studentToDelete.value.id);
      } else {
        deleted := None;
      }
      deleteDialogOpen := false;
      studentToDelete := None;
    }

    /** The dialog's cancel button and `onOpenChange(false)`: it closes and still keeps the student. */
    method DismissDialog()
      modifies this
      ensures Valid()
      ensures !deleteDialogOpen && studentToDelete == old(studentToDelete)
    {
      deleteDialogOpen := false;
    }
  }
}
