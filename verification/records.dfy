/** The records of the grade book: a course, a student that owns an ordered
    list of courses, the copy helpers the book's lists use to take their own
    copy of an appended element, and the invariants the record layer keeps.

    The generic linked list of the original program is modelled by its
    observable contract only: an append-only `seq` iterated in insertion
    order. */
module Records {

  datatype Option<T> = None | Some(value: T)

  /** A course a student took, with the grade obtained. */
  datatype Course = Course(name: string, grade: int)

  /** A student, owning its courses in the order they were added. */
  datatype Student = Student(id: int, name: string, courses: seq<Course>)

  /** The lowest and the highest grade the record layer accepts. */
  const MinGrade := 0
  const MaxGrade := 100

  /** A fresh course record holding its own copy of `name`. */
  function InitCourse(name: string, grade: int): (c: Course)
    ensures c.name == name && c.grade == grade
  {
    Course(name, grade)
  }

  /** The element copy of the course list: an exact duplicate. */
  function CourseCopy(c: Course): (r: Course)
    ensures r == c
  {
    InitCourse(c.name, c.grade)
  }

  /** A fresh student record: its own copy of `name` and a new, empty
      course list. */
  function InitStudent(id: int, name: string): (s: Student)
    ensures s.id == id && s.name == name && s.courses == []
  {
    Student(id, name, [])
  }

  /** The element copy of the student list. It rebuilds the student from its
      id and name only, so it is an exact duplicate exactly when the student
      has no courses -- which is the only way the record layer uses it. */
  function StudentCopy(s: Student): (r: Student)
    ensures r.id == s.id && r.name == s.name && r.courses == []
    ensures r == s <==> s.courses == []
  {
    InitStudent(s.id, s.name)
  }

  /** True when some student of `ss` has id `id`. */
  predicate HasStudent(ss: seq<Student>, id: int) {
    exists i :: 0 <= i < |ss| && ss[i].id == id
  }

  /** True when some course of `cs` is named `name`. */
  predicate HasCourse(cs: seq<Course>, name: string) {
    exists i :: 0 <= i < |cs| && cs[i].name == name
  }

  predicate IdsDistinct(ss: seq<Student>) {
    forall i, j :: 0 <= i < j < |ss| ==> ss[i].id != ss[j].id
  }

  predicate CourseNamesDistinct(cs: seq<Course>) {
    forall i, j :: 0 <= i < j < |cs| ==> cs[i].name != cs[j].name
  }

  predicate GradesInRange(cs: seq<Course>) {
    forall i :: 0 <= i < |cs| ==> MinGrade <= cs[i].grade <= MaxGrade
  }

  /** What the record layer keeps of one student's course list. */
  predicate CoursesWellFormed(cs: seq<Course>) {
    CourseNamesDistinct(cs) && GradesInRange(cs)
  }

  /** What the record layer keeps of the whole book: ids are unique, and
      every course list has unique names and grades within 0..100. */
  predicate WellFormed(ss: seq<Student>) {
    IdsDistinct(ss) && forall i :: 0 <= i < |ss| ==> CoursesWellFormed(ss[i].courses)
  }
}
