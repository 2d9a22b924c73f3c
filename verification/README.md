# Grade book record layer, in Dafny

This project models the record layer of an in-memory grade book (`grades.c`).
A `grades` aggregate owns an ordered list of students. Each student has a
unique integer id, a name and an ordered list of courses. Each course has a
name, unique within its student, and a grade in 0..100. The layer has these
operations:

- create an empty book;
- add a student, refused when the id is already taken;
- add a grade to a student, refused for a grade outside 0..100, an unknown id
  or a course name the student already has;
- compute a student's average, which also hands back a copy of the name;
- print one student, or every student, as lines
  `NAME ID: C1 G1, C2 G2` followed by a line break.

The generic linked list the layer is built on (`linked-list.h`) is not part
of this model. It appears only through what the layer observes of it: an
append-only sequence, iterated in insertion order, that keeps its own copy of
each appended element. Here that is a Dafny `seq`. `list_push_back` with the
element copy callback becomes `s + [Copy(x)]`.

The project has four modules, one file each:

- `records.dfy` (`Records`): the `Course` and `Student` values, the element
  copy helpers (`init_course`, `course_copy`, `init_student`,
  `student_copy`), and the invariants the layer keeps (`WellFormed`).
- `book.dfy` (`Book`): each state-changing operation as a function from the
  old student list to the new one, or `None` when the call is refused. It
  also holds the sum and the average, and lemmas about all of these,
  including over any sequence of calls (`Run`).
- `report.dfy` (`Report`): the text the print functions emit, as pure
  functions. `%d` is written out as decimal digits and proved to read back
  to the same integer.
- `grade_book.dfy` (`GradeBook`): the class `Grades`, holding the student
  list as a field that its methods reassign. Its methods run the same linear
  scans as the C code: a cursor that advances until the first match, an
  `is_found` flag, and early returns. Each method is proved against the
  functions of `Book` and `Report` and keeps `Valid()`. A small client
  (`StartScenario`, `BuildScenario`, `Scenario`) works through a duplicate
  student, a duplicate course, an unknown id, an average of 95 and the
  report `Alice 1: Math 90, CS 100`, using only the method contracts.

Where the code and its header comments disagree, the model follows the code.
The comment on `grades_calc_avg` (grades.c:242) says that `out` is set to
NULL on error. The code returns -1 without writing to `out`
(grades.c:245-247, grades.c:261-263). So `Grades.CalcAvg` takes the caller's
`out` and hands it back unchanged when the id is unknown.

## Model

| member | source | states |
|---|---|---|
| `Records.InitCourse` | grades.c:100-113 | a new course record carries the given name and grade |
| `Records.CourseCopy` | grades.c:56-65 | the course list's element copy is an exact duplicate of the course |
| `Records.InitStudent` | grades.c:78-97 | a new student record carries the given id and name and an empty course list |
| `Records.StudentCopy` | grades.c:33-42 | the student list's element copy keeps id and name but not the courses; it is an exact duplicate exactly when the student has no courses |
| `Book.IndexOfId` | grades.c:197-210 | the student scan finds nothing exactly when no student has the id; otherwise it finds the first position holding that id |
| `Book.AddStudentTo` | grades.c:148-176 | add_student is refused exactly when the id is already present, whatever the name; on success exactly one student `(id, name, no courses)` is appended at the end and all earlier students are unchanged and in order |
| `Book.AddStudentKeepsWellFormed` | grades.c:153-175 | a successful add_student keeps ids pairwise distinct and every course list well formed |
| `Book.AddGradeTo` | grades.c:185-231 | reference definition of add_grade, which `Grades.AddGrade` is proved equal to: success implies a grade in 0..100 and a known id, and a successful call keeps the number of students and every student's id and name |
| `Book.AddGradeRefused` | grades.c:189-219 | add_grade is refused exactly when the grade is below 0 or above 100, no student has the id, or that student already has a course of that name, whatever the grade; so grades 0 and 100 are accepted |
| `Book.AddGradeFrame` | grades.c:220-230 | a successful add_grade appends `(name, grade)` at the end of that one student's course list; that student's id, name and earlier courses, and every other student, are unchanged |
| `Book.AddGradeKeepsWellFormed` | grades.c:192-230 | a successful add_grade keeps course names distinct within the student, grades within 0..100 and ids distinct |
| `Book.SumGradesBounds` | grades.c:267-276 | with every grade in 0..100, the sum of n grades lies between 0 and 100·n |
| `Book.SumGradesSnoc` | grades.c:271-276 | the running sum grows by each grade in list order, so summing front to back gives the sum |
| `Book.Average` | grades.c:277 | reference definition of the average, which `Grades.CalcAvg` is proved to return: 0 with no courses, otherwise the number that times the course count gives the sum of the grades |
| `Book.AverageBounds` | grades.c:277-278 | the average times the course count equals the sum; it is 0 with no courses; it lies in 0..100 |
| `Book.RunKeepsWellFormed` | grades.c:148-231 | across any sequence of add_student and add_grade calls, ids stay pairwise distinct, course names stay distinct per student and grades stay in 0..100 |
| `Book.RunExtends` | grades.c:163-230 | across any sequence of calls, every student already present keeps its position, id and name, and its course list only grows at the end (insertion order is kept) |
| `Report.NatToString` | grades.c:309 | `%d` of a non-negative number is a non-empty string of decimal digits without a leading zero |
| `Report.NatToStringRoundTrip` | grades.c:309 | the digits `%d` writes read back to the number |
| `Report.IntToStringRoundTrip` | grades.c:309 | `%d` writes a minus sign exactly for negative numbers, and what it writes reads back to the number |
| `Report.CoursesText` | grades.c:313-320 | reference definition of a student's course text, which `FormatCourses` is proved equal to: it is empty exactly when the student has no courses |
| `Report.StudentLine` | grades.c:309-321 | reference definition of one student's printed line, which `FormatStudent` and `Grades.PrintStudent` are proved to emit: it is never empty and ends with a line break |
| `Report.AllLines` | grades.c:341-359 | reference definition of print_all's output, which `Grades.PrintAll` is proved to emit: it is empty exactly when the book has no students |
| `Report.CoursesTextSnoc` | grades.c:313-320 | printing a course list that grew at the end gives the old text, a `,` if there were courses before, then ` NAME GRADE` |
| `Report.AllLinesSnoc` | grades.c:341-359 | print_all's output for a list that grew at the end is the old output followed by the new student's line |
| `Report.AllLinesPrefix` | grades.c:341-359 | print_all's output is the lines of the students one after another, in list order, for any split of the list |
| `Report.StudentLineNoCourses` | grades.c:309-321 | a student with no courses prints as `NAME ID:` followed directly by the line break |
| `Report.AddStudentReport` | grades.c:163-175 | after a successful add_student, print_all emits its earlier output followed by the new student's line |
| `Report.AddGradeReport` | grades.c:309-321 | after a course is appended, the student's line keeps everything before its line break and gains `,` (left out for a first course) and ` NAME GRADE` |
| `Report.TwoCourseLine` | grades.c:343-357 | a student with courses Math 90 and CS 100 prints exactly `Alice 1: Math 90, CS 100` and a line break |
| `GradeBook.ScanStudents` | grades.c:153-162 | the student loop stops at the first student with the id, and reports not found exactly when there is none |
| `GradeBook.ScanCourses` | grades.c:211-219 | the course loop finds a course exactly when one has that name |
| `GradeBook.SumCourses` | grades.c:267-276 | the accumulating loop yields the sum of the grades and their count |
| `GradeBook.FormatCourses` | grades.c:310-320 | the course printing loop emits exactly `CoursesText`: each course in order, `,` between consecutive ones, none after the last |
| `GradeBook.FormatStudent` | grades.c:309-321 | one student's output is its line: it starts with the name and ends with a line break |
| `GradeBook.Grades.constructor` | grades.c:119-129 | grades_init gives an empty, well-formed book |
| `GradeBook.Grades.AddStudent` | grades.c:148-176 | returns -1 with the list unchanged when the id exists; otherwise 0 with the new student appended; the book stays well formed |
| `GradeBook.Grades.AddGrade` | grades.c:185-231 | returns -1 with the list unchanged for an out-of-range grade, unknown id or duplicate course name; otherwise 0 with the course appended to that student alone; the book stays well formed |
| `GradeBook.Grades.CalcAvg` | grades.c:244-279 | unknown id: -1 and `out` untouched; otherwise the student's name and the mean grade (0 with no courses), which lies in 0..100 |
| `GradeBook.Grades.PrintStudent` | grades.c:290-323 | unknown id: -1 and nothing emitted; otherwise 0 and exactly the student's line |
| `GradeBook.Grades.PrintAll` | grades.c:336-361 | returns 0 and emits every student's line in insertion order |

## Left out

- The linked list itself (`list_init`, `list_push_back`, `list_begin`, `list_next`, `list_get`, `list_destroy`): `linked-list.h` is not part of this model, so only its observable contract is kept, as an append-only `seq`. Opaque node handles become positions in the sequence.
- `grades_destroy`, `student_destroy`, `course_destroy` and freeing in general: deallocation is not observable in a garbage-collected model, so leak-freedom is not stated.
- Allocation failure: `malloc` or `list_init` returning NULL inside `init_student`, `init_course`, `grades_init` and `list_push_back`, and the resulting -1 returns, are not modelled. Allocation always succeeds in the model. Known defects on these paths are therefore not represented: `student_copy` returns 0 with a NULL copy, `grades_init` leaks its control block when `list_init` fails, and `grades_calc_avg` does not check its `malloc`.
- NULL arguments: Dafny references and strings cannot be null. Where the code checks for NULL and returns -1 (`grades == NULL` in every operation, `name == NULL` in add_student at grades.c:149, `element == NULL` in the copy helpers), that path cannot arise here. Where the code does not check, a NULL argument is undefined behaviour in C, not a -1 return: `name` in add_grade goes unchecked to `strcmp` and `strlen` (grades.c:215, grades.c:221), and calc_avg writes through `out` without a check (grades.c:266).
- `Records.StudentCopy`: it is stated only as what `student_copy` does, which is not a deep copy because the courses are dropped. It is used only in add_student, where the course list is empty anyway.
- `Grades.CalcAvg`: the average is exact over `real`. The C code accumulates in single-precision `float` and divides by the count, so float rounding is not modelled.
- C `int` width: ids, grades and the course count are unbounded integers. Ids are only compared, grades are limited to 0..100 by the range check, and the `count` counter would need more than 2^31 courses to overflow.
- Names are Dafny strings compared with `==`. `strcmp` agrees with this for C strings, which cannot contain a NUL character. Names with an embedded NUL are not excluded.
- `printf` and stdout: the print operations return the text they would emit instead of writing it.
- `strlen`/`strcpy`, the stack buffers used for the transient name, and null terminators: replaced by Dafny's `string` values.
