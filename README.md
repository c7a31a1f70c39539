# Attendex roster and attendance logic in Dafny

Attendex is a React front end for college attendance. Faculty members keep
class rosters, mark attendance and pull reports. This project models the
logic inside its components, with the JSX taken away:

- the two attendance screens: the ledger map of `AttendanceMarking` and
  the record list of `AttendanceMarkingRefactored`;
- the three roster screens:
  - the functional list of `student/StudentManagement`;
  - the module-level mock store of `facultydashboard/StudentManagement`,
    mutated in place;
  - the read-only filtered list of `StudentManagementRefactored`;
- the student form's validation, submission and reset;
- the report selection of `ReportsRefactor`;
- the small state machines of `StudentTable`, `AppSidebar` and the faculty
  `Navbar`.

State a component keeps in hooks becomes a `class` whose methods are its
handlers. Each handler is one atomic step with `modifies this`.
Filters, counts and checks are functions, with lemmas relating them to
independent descriptions.

Three conventions run through the model:

- A callback to the parent is a `returns` value, or the new content of a
  store.
- The clock (`Date.now()`, `new Date()`, the current year) and the window
  width are parameters.
- JavaScript truthiness of a string becomes `!= ""`.

The modules, one per core file plus shared ones:

- `Wrappers`: `Option`.
- `Text`: `trim`, JavaScript whitespace, ASCII case mapping, `includes`,
  decimal `toString`, and the name order.
- `Seqs`: `filter`, `map` and counting, with their algebra.
- `StableSort`: the stable sort, as a specification function and as an
  in-place insertion sort on an array.
- `StudentTypes` and `AttendanceTypes`: the records of
  `src/components/types/student.tsx` and
  `src/components/types/attendance.tsx`.
- One module for each component.

The two `StudentForm.tsx` files have the same validation, submission,
change and reset logic. Module `StudentForm` models both. The rows below
cite the `student/` copy, and the `facultydashboard/` copy's lines are
70-96.

Three places where the model reads the code more closely than a plain
description would:

- `AttendanceMarking.filteredStudents` sorts the array it filtered. When
  neither filter applies, that array is the `students` prop itself, so the
  prop is reordered in place. `AttendanceSession.FilteredStudents` keeps
  this aliasing.
- `StudentManagementRefactored` searches with `includes` and has no
  empty-term special case. The empty term matches everything, as
  `EmptySearchIgnored` shows.
- `AppSidebar.isActive` matches on characters with `startsWith`, not on path
  segments. So `/facultydashboard` is also active on `/facultydashboardx`,
  as `PrefixIgnoresSegments` shows.

## Model

| member | source | states |
|---|---|---|
| Text.TrimEmptyIffBlank | src/components/student/StudentForm.tsx:70-74 | `s.trim()` is empty exactly when every character of `s` is JavaScript whitespace |
| Text.ToUpper | src/components/student/StudentForm.tsx:76 | `toUpperCase` maps every character through the upper-case mapping and keeps the length |
| Text.ToUpperIdempotent | src/components/student/StudentForm.tsx:108-111 | upper-casing an upper-cased USN changes nothing |
| Text.ToLower | src/components/student/StudentManagement.tsx:63-64 | `toLowerCase` maps every character through the lower-case mapping and keeps the length |
| Text.Includes | src/components/student/StudentManagement.tsx:63-64 | `includes` is true exactly when the needle occurs at some index of the haystack |
| Text.IncludesEmpty | src/components/student/StudentManagementRefactored.tsx:48-50 | every string includes `""` |
| Text.EmptyTermMatches | src/components/student/StudentManagementRefactored.tsx:48-50 | the empty search term matches every name and USN |
| Text.Decimal | src/components/student/StudentManagement.tsx:87 | `toString` of a timestamp is a non-empty run of digits with no leading zero |
| Text.DecimalValue | src/components/student/StudentManagement.tsx:87 | the digit string of a timestamp, read as a decimal numeral, denotes that timestamp |
| Text.DecimalInjective | src/components/student/StudentManagement.tsx:87 | different timestamps give different digit strings |
| Text.NameLeReflexive | src/components/attendance/AttendanceMarking.tsx:50 | the name order puts every name before or level with itself |
| Text.NameLeTotal | src/components/attendance/AttendanceMarking.tsx:50 | any two names are comparable |
| Text.NameLeTransitive | src/components/attendance/AttendanceMarking.tsx:50 | the name order is transitive |
| Text.NameLeAntisymmetric | src/components/attendance/AttendanceMarking.tsx:50 | names that sort level with each other are equal |
| StableSort.SortByPermutes | src/components/attendance/AttendanceMarking.tsx:50 | sorting keeps every element with its multiplicity |
| StableSort.SortBySorted | src/components/attendance/AttendanceMarking.tsx:50 | under a total, transitive comparison the sorted list is ordered |
| StableSort.SortByOfSorted | src/components/attendance/AttendanceMarking.tsx:50 | an already ordered list is left as it is |
| StableSort.SortByIdempotent | src/components/attendance/AttendanceMarking.tsx:50 | sorting twice is sorting once |
| StableSort.SortInPlace | src/components/attendance/AttendanceMarking.tsx:50 | the in-place insertion sort leaves the array holding the sorted sequence of its old contents |
| StudentTypes.ParseSection | src/components/types/student.tsx:6 | a section value is one of `A`, `B`, `C` and names that section; any other string is refused |
| AttendanceMarking.ByNameOrders | src/components/attendance/AttendanceMarking.tsx:50 | comparing students by name is total and transitive |
| AttendanceMarking.FilteredIsMatches | src/components/attendance/AttendanceMarking.tsx:39-48 | the section filter (skipped for `ALL`) and then the subject filter (skipped for `""`) amount to one filter on both conditions |
| AttendanceMarking.VisibleSpec | src/components/attendance/AttendanceMarking.tsx:39-51 | the visible list holds exactly the matching roster students, each as often as in the roster, and is ordered by name |
| AttendanceMarking.StatusOrAbsent | src/components/attendance/AttendanceMarking.tsx:84 | a submitted status is the student's mark, or `absent` when there is none |
| AttendanceMarking.Records | src/components/attendance/AttendanceMarking.tsx:82-88 | one record per visible student, in visible order, with the student's id and section, the mark or `absent`, and the selected date and subject |
| AttendanceMarking.GetStatusCounts | src/components/attendance/AttendanceMarking.tsx:104-111 | each tally counts the visible students with that mark; `notMarked` counts those without one, is never negative, and the four add up to the visible count |
| AttendanceMarking.RecordsMatchCounts | src/components/attendance/AttendanceMarking.tsx:82-111 | the submitted records have as many `present` and `late` entries as the tallies; the `absent` records are the absent plus the unmarked students |
| AttendanceMarking.BulkMarkCounts | src/components/attendance/AttendanceMarking.tsx:60-70 | after a bulk mark every visible student has that status and none is unmarked |
| AttendanceMarking.EmptyLedgerAllAbsent | src/components/attendance/AttendanceMarking.tsx:101-111 | with an empty ledger every visible student is unmarked and is submitted as `absent` |
| AttendanceMarking.BulkLedger | src/components/attendance/AttendanceMarking.tsx:64-67 | the `forEach` builds a map whose keys are exactly the visible ids, each mapped to the chosen status |
| AttendanceMarking.AttendanceSession.constructor | src/components/attendance/AttendanceMarking.tsx:30-35 | no subject, section `ALL`, today's date and an empty ledger |
| AttendanceMarking.AttendanceSession.FilteredStudents | src/components/attendance/AttendanceMarking.tsx:39-51 | the result holds the visible list; with no filter it is the prop's own array, sorted in place, otherwise a fresh array |
| AttendanceMarking.AttendanceSession.HandleStatusChange | src/components/attendance/AttendanceMarking.tsx:53-58 | only that student's entry is set; every other entry is unchanged |
| AttendanceMarking.AttendanceSession.HandleBulkAction | src/components/attendance/AttendanceMarking.tsx:60-70 | reset empties the ledger; present or absent replaces it with exactly the visible ids, all with that status |
| AttendanceMarking.AttendanceSession.HandleSubmit | src/components/attendance/AttendanceMarking.tsx:72-102 | without a subject nothing is submitted and the ledger stays; otherwise the records of all visible students go out, the present count is at most the total, and the ledger is emptied |
| AttendanceMarkingRefactored.StudentsForAttendanceSpec | src/components/attendance/AttendanceMarkingRefactored.tsx:25-32 | the class list keeps roster order and holds exactly the students with equal year, section and subject |
| AttendanceMarkingRefactored.InitialRecords | src/components/attendance/AttendanceMarkingRefactored.tsx:38-41 | one record per class student, in order, each `present` |
| AttendanceMarkingRefactored.UpdateRecords | src/components/attendance/AttendanceMarkingRefactored.tsx:46-50 | length and ids are kept; records of that student take the new status and all others are unchanged |
| AttendanceMarkingRefactored.UpdateUnknownId | src/components/attendance/AttendanceMarkingRefactored.tsx:46-50 | an id with no record leaves the list unchanged |
| AttendanceMarkingRefactored.FindRecord | src/components/attendance/AttendanceMarkingRefactored.tsx:193 | `find` gives nothing exactly when no record has that id, and otherwise the first record that has it |
| AttendanceMarkingRefactored.DisplayedStatus | src/components/attendance/AttendanceMarkingRefactored.tsx:193 | a student without a record is shown as `present`; a student with records is shown the status of their first record |
| AttendanceMarkingRefactored.FindAfterUpdate | src/components/attendance/AttendanceMarkingRefactored.tsx:46-50 | after an update, the first record of that student carries the new status and the first record of any other student is as before |
| AttendanceMarkingRefactored.UpdateThenDisplayed | src/components/attendance/AttendanceMarkingRefactored.tsx:46-50 | after an update the student's display shows the new status when they have a record, and every other student's display is unchanged |
| AttendanceMarkingRefactored.SubmitTally | src/components/attendance/AttendanceMarkingRefactored.tsx:62-65 | the present, late and absent counts count those records and add up to the number of records |
| AttendanceMarkingRefactored.InitialTally | src/components/attendance/AttendanceMarkingRefactored.tsx:38-65 | submitting right after starting reports everyone present |
| AttendanceMarkingRefactored.AttendanceScreen.constructor | src/components/attendance/AttendanceMarkingRefactored.tsx:18-23 | no class chosen, no records, not marking |
| AttendanceMarkingRefactored.AttendanceScreen.CanStart | src/components/attendance/AttendanceMarkingRefactored.tsx:154-159 | the start button is enabled exactly when year, section and subject are chosen and some roster student is in that class |
| AttendanceMarkingRefactored.AttendanceScreen.StartAttendanceMarking | src/components/attendance/AttendanceMarkingRefactored.tsx:34-44 | a no-op unless year, section and subject are all chosen; otherwise it seeds the present records and enters marking |
| AttendanceMarkingRefactored.AttendanceScreen.UpdateAttendanceStatus | src/components/attendance/AttendanceMarkingRefactored.tsx:46-50 | the records become the updated records; marking and the class stay |
| AttendanceMarkingRefactored.AttendanceScreen.SubmitAttendance | src/components/attendance/AttendanceMarkingRefactored.tsx:52-77 | the current records and class go out with their tally; then the records are emptied, marking ends and year, section and subject are cleared |
| AttendanceMarkingRefactored.AttendanceScreen.Cancel | src/components/attendance/AttendanceMarkingRefactored.tsx:237 | marking ends; the records and the class stay |
| StudentManagement.FilteredStudentsSpec | src/components/student/StudentManagement.tsx:57-74 | the list keeps roster order and holds exactly the students matching the search (when it is non-empty) and the section (unless `ALL`) |
| StudentManagement.CountSections | src/components/student/StudentManagement.tsx:77-83 | each section count counts that section's students; A + B + C = ALL = roster length |
| StudentManagement.NewIdInjective | src/components/student/StudentManagement.tsx:87 | ids made at different times or for different sections differ |
| StudentManagement.NewStudent | src/components/student/StudentManagement.tsx:85-91 | the new student carries the form's fields, the section-and-time id and both timestamps |
| StudentManagement.Merge | src/components/student/StudentManagement.tsx:103-107 | the edit keeps id and creation time, takes the form's fields, keeps an email or phone the form leaves out, and stamps the update time |
| StudentManagement.ReplaceById | src/components/student/StudentManagement.tsx:109-113 | length is kept; exactly the elements with that id are replaced |
| StudentManagement.ReplaceByIdKeepsIds | src/components/student/StudentManagement.tsx:109-113 | replacing with a student of the same id keeps every position's id |
| StudentManagement.RemoveIdSpec | src/components/student/StudentManagement.tsx:121-125 | removal keeps order, drops exactly the students with that id, and shortens the list by their number |
| StudentManagement.CreateThenDelete | src/components/student/StudentManagement.tsx:85-125 | deleting a just-created student by its fresh id restores the roster |
| StudentManagement.RosterScreen.constructor | src/components/student/StudentManagement.tsx:48-53 | the given roster, no search, section `ALL`, form closed, nobody edited |
| StudentManagement.RosterScreen.CreateStudent | src/components/student/StudentManagement.tsx:85-93 | exactly one student is appended and the earlier ones are unchanged |
| StudentManagement.RosterScreen.UpdateStudent | src/components/student/StudentManagement.tsx:100-113 | a no-op when nobody is edited, otherwise the merged student replaces that id; length and ids are kept |
| StudentManagement.RosterScreen.DeleteStudent | src/components/student/StudentManagement.tsx:121-125 | an unknown id changes nothing; otherwise every student with that id is removed |
| StudentManagement.RosterScreen.HandleAddStudent | src/components/student/StudentManagement.tsx:133-136 | nobody is edited and the form opens |
| StudentManagement.RosterScreen.HandleEditStudent | src/components/student/StudentManagement.tsx:138-141 | that student is edited and the form opens |
| StudentManagement.RosterScreen.HandleFormSubmit | src/components/student/StudentManagement.tsx:143-151 | update when editing, create otherwise; then the form closes and nobody is edited |
| StudentManagement.RosterScreen.HandleFormCancel | src/components/student/StudentManagement.tsx:153-156 | the form closes, nobody is edited, and the roster stays |
| FacultyStudentManagement.ListStudentsSpec | src/components/facultydashboard/StudentManagement.tsx:71-84 | the listing keeps store order and holds exactly the entries of that faculty, subject and section, matching the search when it is non-empty |
| FacultyStudentManagement.MockListing | src/components/facultydashboard/StudentManagement.tsx:30-84 | for faculty `fac123`, `CS101`, section `A` the initial store lists John Doe and Jane Smith |
| FacultyStudentManagement.IndexOf | src/components/facultydashboard/StudentManagement.tsx:96 | `findIndex` gives -1 exactly when no entry has that `_id`, and otherwise the first such index |
| FacultyStudentManagement.AfterCreate | src/components/facultydashboard/StudentManagement.tsx:87-91 | one entry with the new `_id` is pushed at the end; the rest is unchanged |
| FacultyStudentManagement.AfterUpdate | src/components/facultydashboard/StudentManagement.tsx:94-100 | a missing id changes nothing; otherwise only the first match is overwritten, with `_id` set to the id; length is kept |
| FacultyStudentManagement.AfterDelete | src/components/facultydashboard/StudentManagement.tsx:103-109 | a missing id changes nothing; otherwise exactly the first match is spliced out: one entry fewer, that entry's copy removed from the multiset, the rest an order-preserving subsequence, entries before it in place and entries after it shifted down by one |
| FacultyStudentManagement.UpdateThenFind | src/components/facultydashboard/StudentManagement.tsx:94-100 | after an update the id is found at the same index, holding the new data |
| FacultyStudentManagement.CreateThenDelete | src/components/facultydashboard/StudentManagement.tsx:87-109 | deleting a just-created entry by its fresh `_id` restores the store |
| FacultyStudentManagement.MockStore.constructor | src/components/facultydashboard/StudentManagement.tsx:30-64 | the store starts with the three mock students |
| FacultyStudentManagement.MockStore.FindIndex | src/components/facultydashboard/StudentManagement.tsx:96 | the search loop returns the first index with that `_id`, or -1 |
| FacultyStudentManagement.MockStore.CreateStudent | src/components/facultydashboard/StudentManagement.tsx:87-91 | the store becomes its old contents plus the created entry, which is returned |
| FacultyStudentManagement.MockStore.UpdateStudent | src/components/facultydashboard/StudentManagement.tsx:94-100 | the store becomes the updated store |
| FacultyStudentManagement.MockStore.DeleteStudent | src/components/facultydashboard/StudentManagement.tsx:103-109 | the store becomes the store with the first match spliced out |
| FacultyStudentManagement.WithField | src/components/facultydashboard/StudentManagement.tsx:356-425 | typing into the USN input stores it upper-cased; every other input leaves the USN alone |
| FacultyStudentManagement.WithFieldKeepsUsnUpper | src/components/facultydashboard/StudentManagement.tsx:364 | once upper-cased, the form's USN stays upper-cased through any edit |
| FacultyStudentManagement.RosterView.constructor | src/components/facultydashboard/StudentManagement.tsx:123-132 | nothing selected, no students, dialog closed, the empty form for this faculty member |
| FacultyStudentManagement.RosterView.Load | src/components/facultydashboard/StudentManagement.tsx:134-143 | nothing happens unless faculty id, subject and section are all set; otherwise the list becomes the store's listing |
| FacultyStudentManagement.RosterView.SelectSubject | src/components/facultydashboard/StudentManagement.tsx:145-148 | the subject changes and the list reloads when the query is complete |
| FacultyStudentManagement.RosterView.SelectSection | src/components/facultydashboard/StudentManagement.tsx:145-148 | the section changes and the list reloads when the query is complete |
| FacultyStudentManagement.RosterView.SetSearch | src/components/facultydashboard/StudentManagement.tsx:145-148 | the search changes and the list reloads when the query is complete |
| FacultyStudentManagement.RosterView.OnNew | src/components/facultydashboard/StudentManagement.tsx:150-161 | an empty form carrying the faculty, the selection, the department (or `""`) and the year opens for a new entry |
| FacultyStudentManagement.RosterView.OnEdit | src/components/facultydashboard/StudentManagement.tsx:163-167 | the entry's `_id` is edited and the form opens with a copy of it |
| FacultyStudentManagement.RosterView.ChangeField | src/components/facultydashboard/StudentManagement.tsx:356-425 | the form takes the input's value in that field |
| FacultyStudentManagement.RosterView.OnDelete | src/components/facultydashboard/StudentManagement.tsx:169-174 | without confirmation nothing changes; otherwise the first entry with that id leaves the store and the list reloads when the query is complete, and stays as shown when it is not |
| FacultyStudentManagement.RosterView.OnSubmit | src/components/facultydashboard/StudentManagement.tsx:176-190 | a form missing name, USN, subject or section changes nothing; otherwise it updates when editing, creates otherwise, closes the dialog and reloads when the query is complete, leaving the shown list as it was when it is not |
| StudentForm.EmailPatternIffShape | src/components/student/StudentForm.tsx:84 | an address matches the email pattern exactly when it has no whitespace, one `@` not first, and a dot after it that is neither next to it nor last |
| StudentForm.FieldErrorSpec | src/components/student/StudentForm.tsx:67-91 | name: "required" iff `trim()` leaves nothing; USN: "required" iff `trim()` leaves nothing, else the format message iff the upper-cased USN lacks the 10-character shape; subject: error iff empty; email: error iff given and not of the character-level shape (no whitespace, one `@` not first, a dot after it, neither adjacent nor last); phone: error iff given and not ten digits; other fields never |
| StudentForm.ValidIff | src/components/student/StudentForm.tsx:92-93 | the form is valid exactly when name and USN are not empty after `trim()`, the upper-cased USN has the shape, a subject is chosen, a given email has the character-level shape and a given phone is ten digits |
| StudentForm.ToUpperBlank | src/components/student/StudentForm.tsx:74-76 | upper-casing neither makes nor unmakes a blank USN |
| StudentForm.Submission | src/components/student/StudentForm.tsx:108-111 | the submitted data is the form with only the USN upper-cased |
| StudentForm.SubmissionRevalidates | src/components/student/StudentForm.tsx:96-111 | what a valid form submits passes every check again, and its USN has the required shape |
| StudentForm.UsnExamples | src/components/student/StudentForm.tsx:76-77 | the message's example `1MS21CS001` passes in either case; a short or shuffled one fails |
| StudentForm.ResetData | src/components/student/StudentForm.tsx:40-64 | the edited student's fields with missing email and phone as `""`, or blanks with section `A` and the class's year and class |
| StudentForm.WithFieldKeepsOtherErrors | src/components/student/StudentForm.tsx:114-119 | changing one field leaves every other field's error as it was |
| StudentForm.StudentFormState.constructor | src/components/student/StudentForm.tsx:27-37 | the blank form for the class and no errors |
| StudentForm.StudentFormState.Reset | src/components/student/StudentForm.tsx:40-65 | the form becomes the reset data and the errors are cleared |
| StudentForm.StudentFormState.ValidateForm | src/components/student/StudentForm.tsx:67-94 | the error map holds exactly the failing fields with their messages; the result is true iff it is empty; the form is untouched |
| StudentForm.StudentFormState.HandleSubmit | src/components/student/StudentForm.tsx:96-112 | an invalid form submits nothing; a valid one submits its data with the USN upper-cased |
| StudentForm.StudentFormState.HandleInputChange | src/components/student/StudentForm.tsx:114-119 | only that field changes, and only that field's error is cleared |
| StudentManagementRefactored.FilteredStudentsSpec | src/components/student/StudentManagementRefactored.tsx:47-54 | the list keeps roster order and holds exactly the students whose name or USN contains the term and whose year and section pass (`all` passes all) |
| StudentManagementRefactored.EmptySearchIgnored | src/components/student/StudentManagementRefactored.tsx:48-50 | with an empty term only the year and section selects filter |
| StudentManagementRefactored.InitialListingIsRoster | src/components/student/StudentManagementRefactored.tsx:34-54 | with the initial selects the whole roster is listed in order |
| StudentManagementRefactored.RosterDialogs.EditThenSaveUntouched | src/components/student/StudentManagementRefactored.tsx:70-94 | editing a student and saving the untouched form hands the parent that student's id with its own five fields when all are non-empty, then closes editing with a blank form; otherwise the save is refused and the student stays open |
| StudentManagementRefactored.BlankNotFilled | src/components/student/StudentManagementRefactored.tsx:62-65 | the blank form never passes the guard |
| StudentManagementRefactored.RosterDialogs.constructor | src/components/student/StudentManagementRefactored.tsx:34-45 | empty search, both selects `all`, dialog closed, nobody edited, blank form |
| StudentManagementRefactored.RosterDialogs.HandleAddStudent | src/components/student/StudentManagementRefactored.tsx:62-68 | a filled form goes to `onAddStudent`, and then the form is blanked and the dialog closed; otherwise nothing changes |
| StudentManagementRefactored.RosterDialogs.HandleEditStudent | src/components/student/StudentManagementRefactored.tsx:70-79 | that student is edited and the form holds exactly its five fields |
| StudentManagementRefactored.RosterDialogs.HandleUpdateStudent | src/components/student/StudentManagementRefactored.tsx:81-94 | with a student edited and a filled form, `onUpdateStudent` gets that student's id and the form, and then editing ends and the form is blanked; otherwise nothing changes |
| StudentManagementRefactored.RosterDialogs.CancelEdit | src/components/student/StudentManagementRefactored.tsx:351 | editing ends and the form keeps its contents |
| ReportsRefactor.ClassDataSpec | src/components/reports/ReportsRefactor.tsx:29-32 | the class filter keeps order and holds exactly the students of that year, section and subject |
| ReportsRefactor.DailyReport | src/components/reports/ReportsRefactor.tsx:23-32 | refused exactly when date, year, section or subject is missing |
| ReportsRefactor.DailyIgnoresDate | src/components/reports/ReportsRefactor.tsx:29-32 | the date is required but selects nothing |
| ReportsRefactor.SubjectReport | src/components/reports/ReportsRefactor.tsx:63-72 | refused exactly when subject, year or section is missing |
| ReportsRefactor.GenerateStudentReport | src/components/reports/ReportsRefactor.tsx:43-60 | refused exactly when no student is selected; covers the students with that USN; describes nobody exactly when none has it |
| ReportsRefactor.StudentReportShowsFirst | src/components/reports/ReportsRefactor.tsx:55-56 | the student described is the first one with the selected USN |
| ReportsRefactor.ExportMatchesGenerators | src/components/reports/ReportsRefactor.tsx:85-101 | each export type yields exactly its generator's rows, and none where that generator refuses |
| ReportsRefactor.UnknownTypeExportsNothing | src/components/reports/ReportsRefactor.tsx:87-101 | an unknown report type exports nothing |
| ReportsRefactor.DailyAndSubjectExportAgree | src/components/reports/ReportsRefactor.tsx:89-100 | daily and subject exports for the same year, section and subject are identical |
| ReportsRefactor.ExportRowsAreStudents | src/components/reports/ReportsRefactor.tsx:85-101 | every exported row is one of the page's students |
| StudentTable.SectionColor | src/components/facultydashboard/StudentTable.tsx:49-56 | A, B and C get their own colours; any other section gets grey |
| StudentTable.SectionColorsDistinct | src/components/facultydashboard/StudentTable.tsx:50-54 | the three sections' colours differ |
| StudentTable.CriteriaSpec | src/components/facultydashboard/StudentTable.tsx:59-63 | each badge appears exactly when its filter is in effect, with section first and year last |
| StudentTable.CriteriaEmptyIff | src/components/facultydashboard/StudentTable.tsx:59-63 | the criteria list is empty exactly when no filter is in effect |
| StudentTable.ActiveCriteria | src/components/facultydashboard/StudentTable.tsx:59-63 | the pushes build the criteria list |
| StudentTable.NoticeNothingAddedIff | src/components/facultydashboard/StudentTable.tsx:69-85 | "no students added yet" is chosen exactly when no filter is in effect, and otherwise the criteria are listed |
| StudentTable.DeleteFlow.constructor | src/components/facultydashboard/StudentTable.tsx:33-34 | dialog closed, nobody kept |
| StudentTable.DeleteFlow.HandleDeleteClick | src/components/facultydashboard/StudentTable.tsx:36-39 | the student is kept and the dialog opens |
| StudentTable.DeleteFlow.HandleDeleteConfirm | src/components/facultydashboard/StudentTable.tsx:41-47 | the kept student's id goes to `onDeleteStudent` only if one is kept; the dialog always closes and nobody is kept |
| StudentTable.DeleteFlow.DismissDialog | src/components/facultydashboard/StudentTable.tsx:162 | cancel closes the dialog and keeps the student; the dialog is never open without a kept student |
| AppSidebar.IsActive | src/components/layout/AppSidebar.tsx:39-43 | `/` is active exactly on `/`; any other path exactly when the current path begins with it |
| AppSidebar.ActiveOnItself | src/components/layout/AppSidebar.tsx:39-43 | every path is active on itself |
| AppSidebar.OverviewPrefixesAll | src/components/layout/AppSidebar.tsx:26-31 | the Overview URL begins every entry's URL |
| AppSidebar.OverviewCoActive | src/components/layout/AppSidebar.tsx:26-42 | whenever an entry is active, Overview is active too |
| AppSidebar.SubpagesExclusive | src/components/layout/AppSidebar.tsx:28-42 | at most one of the three sub-page entries is active at a time |
| AppSidebar.PrefixIgnoresSegments | src/components/layout/AppSidebar.tsx:41 | the match is by characters, so an extended path name also activates the entry |
| AppSidebar.NavClass | src/components/layout/AppSidebar.tsx:45-46 | the highlight classes exactly when active, `""` otherwise |
| Navbar.SidebarState.constructor | src/components/facultydashboard/Navbar.tsx:34-36 | all three flags start false |
| Navbar.SidebarState.HandleResize | src/components/facultydashboard/Navbar.tsx:39-44 | desktop iff the width is at least 1024; desktop closes the mobile menu and keeps `collapsed`, mobile expands and keeps `mobileOpen` |
| Navbar.SidebarState.ToggleMobile | src/components/facultydashboard/Navbar.tsx:75 | flips `mobileOpen` only |
| Navbar.SidebarState.ToggleCollapse | src/components/facultydashboard/Navbar.tsx:116-120 | flips `collapsed` only |
| Navbar.SidebarState.CloseOverlay | src/components/facultydashboard/Navbar.tsx:82-85 | closes the mobile menu only |
| Navbar.SidebarState.Navigate | src/components/facultydashboard/Navbar.tsx:153-156 | the tab goes to `onNavigate`; the mobile menu closes only off desktop; `collapsed` stays |
| Navbar.SidebarState.Logout | src/components/facultydashboard/Navbar.tsx:134-137 | the mobile menu closes only off desktop; `collapsed` stays |
| Navbar.SidebarState.Width | src/components/facultydashboard/Navbar.tsx:92 | the width is 0, 72 or 256; 0 exactly when mobile and closed; 72 exactly when desktop and collapsed |
| Navbar.SidebarState.XOffset | src/components/facultydashboard/Navbar.tsx:93 | the sidebar is pushed off-screen exactly when its width is 0 |
| Navbar.SidebarState.AriaHidden | src/components/facultydashboard/Navbar.tsx:98 | hidden from assistive technology exactly when pushed off-screen |
| Navbar.SidebarState.TooltipMode | src/components/facultydashboard/Navbar.tsx:167 | tooltips exactly when the labels of lines 107, 130 and 161 are hidden |
| Navbar.SidebarState.TooltipsOnRail | src/components/facultydashboard/Navbar.tsx:92-167 | in every state the handlers reach, tooltips replace labels exactly on the 72-pixel rail |

## Left out

- JSX, styling beyond the chosen class strings, icons, toasts, `alert`, `confirm`, `console.log` and the spring animation are left out: they are presentation and I/O. A `confirm` answer is a parameter of `FacultyStudentManagement.RosterView.OnDelete`.
- The mock delays and the `loading` flag in `facultydashboard/StudentManagement.tsx` are left out. Each store call is one synchronous, always successful step, so the "failed" alert branches are unreachable and not modelled.
- React scheduling is left out. `useMemo` values are recomputed functions. The effect at lines 145-148 is modelled as a reload inside each selection setter; even an unchanged value reloads.
- `Date.now()`, `new Date()` and `getFullYear()` are parameters, and so is today's date in `AttendanceMarking`. No clock is modelled.
- StudentManagement.NewStudent: one clock parameter stands for the three clock reads at `student/StudentManagement.tsx:87-90` (`Date.now()` in the id and the two `new Date()` timestamps). The model therefore promises `createdAt == updatedAt` and that the id's digits come from that same instant; the source, whose reads may straddle a millisecond boundary, does not.
- The `Math.random` mock roster of `student/StudentManagement.tsx` is left out. The screen starts from a given list.
- Floating-point values are left out. This covers `attendancePercentage`, the subject report's average, and the percentage colour classifier at `StudentManagementRefactored.tsx:56-60`.
- Text.ToUpper: ASCII letters only. JavaScript's full Unicode mapping (for example `ß` to `SS`, which changes the length) is not modelled.
- Text.ToLower: ASCII letters only, for the same reason.
- AttendanceMarking.ByName: code-unit lexicographic order stands in for the locale collation of `localeCompare`.
- AttendanceMarking.StatusOrAbsent: `absent` for every student without a mark. The ledger at `AttendanceMarking.tsx:84` is a plain object, so a student whose id names an `Object.prototype` member (`constructor`, `toString`, ...) finds that member, which is truthy, and is submitted with it as the status instead of `absent`. The ledger is modelled as a map with no such inherited keys.
- StudentTable.SectionColor: grey for every unknown section. In JavaScript a section named like an `Object.prototype` member (`constructor`, `toString`, ...) finds that member instead, so `??` does not fall back.
- StudentForm.StudentFormState.HandleInputChange: the error is removed from the map. The source sets it to `undefined`; both read as "no error" and are replaced on the next validation.
- Navbar.SidebarState.ToggleMobile: requires a non-desktop state. The menu button sits in a top bar hidden from 1024 pixels up (`lg:hidden`), the same breakpoint as `isDesktop`.
- Navbar.SidebarState.ToggleCollapse: requires a desktop state, because the button is rendered only then.
- The plain selection setters are left out: `setSearchTerm`, `setSelectedYear`, `setSelectedSection`, the report page's radio and selects, and the attendance screens' selects. Each only assigns a field. So is the delete button of `StudentManagementRefactored.tsx:361`, which only passes an id to its parent.
- `src/components/types/students`, imported by the `facultydashboard/` form and table, is not part of this model. Its records are taken to be those of `types/student.tsx`.
