/**
 * The roster records of `src/components/types/student.tsx`: a student of a
 * faculty member's class, the data a student form collects, and the class
 * the form is opened for. Dates are clock readings (milliseconds). The
 * source's `class` field is `className` here (`class` is a Dafny keyword).
 */
module StudentTypes {
  import opened Wrappers

  /** The closed set of sections a student can belong to. */
  datatype Section = A | B | C {
    /** The section as the one-letter string the UI shows and compares. */
    function Name(): (r: string)
      ensures |r| == 1
    {
      match this
      case A => "A"
      case B => "B"
      case C => "C"
    }
  }

  /** The section named by `s`, if `s` is one of "A", "B", "C". */
  function ParseSection(s: string): (r: Option<Section>)
    ensures r.Some? ==> r.value.Name() == s
    ensures r.None? ==> s != "A" && s != "B" && s != "C"
  {
    if s == "A" then Some(A) else if s == "B" then Some(B) else if s == "C" then Some(C) else None
  }

  datatype Student = Student(
    id: string,
    name: string,
    usn: string,
    subject: string,
    section: Section,
    year: string,
    className: string,
    email: Option<string>,
    phone: Option<string>,
    createdAt: int,
    updatedAt: int)

  /** What the student form submits; `email`/`phone` are `None` when the key is absent. */
  datatype StudentFormData = StudentFormData(
    name: string,
    usn: string,
    subject: string,
    section: Section,
    year: string,
    className: string,
    email: Option<string>,
    phone: Option<string>)

  datatype ClassInfo = ClassInfo(year: string, className: string, subjects: seq<string>)

  /** A section filter: one section, or every section (`'ALL'`). */
  datatype SectionFilter = All | Only(section: Section) {
    predicate Admits(s: Section) {
      All? || section == s
    }
  }
}
