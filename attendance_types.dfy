/**
 * The records of `src/components/types/attendance.tsx`, used by the
 * refactored attendance, roster and report screens. Here a section is a
 * free string. The floating-point `attendancePercentage` is not part of
 * this model.
 */
module AttendanceTypes {

  /** The three marks a student can receive. */
  datatype Status = Present | Absent | Late

  datatype Student = Student(
    id: string,
    name: string,
    usn: string,
    year: string,
    section: string,
    subject: string,
    totalClasses: nat,
    presentClasses: nat)

  datatype AttendanceRecord = AttendanceRecord(studentId: string, status: Status)

  /** The five fields the add/edit student dialog collects. */
  datatype NewStudent = NewStudent(name: string, usn: string, year: string, section: string, subject: string)

  /** The dialog's fields all cleared. */
  const BlankNewStudent := NewStudent("", "", "", "", "")

  /** The class a screen is opened for: year, section and subject all equal to the chosen ones. */
  function InClass(year: string, section: string, subject: string): Student -> bool {
    (st: Student) => st.year == year && st.section == section && st.subject == subject
  }
}
