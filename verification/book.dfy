/** The operations of the grade book stated on values: which call succeeds,
    and what the student list is afterwards. The class in module GradeBook
    is proved to behave as these functions say. */
module Book {
  import opened Records

  /** The position of the first student with id `id`, as the linear scans of
      the record layer find it. */
  function IndexOfId(ss: seq<Student>, id: int): (r: Option<nat>)
    ensures r.None? <==> !HasStudent(ss, id)
    ensures r.Some? ==> r.value < |ss| && ss[r.value].id == id
    ensures r.Some? ==> forall j :: 0 <= j < r.value ==> ss[j].id != id
  {
    if ss == [] then None
    else if ss[0].id == id then Some(0)
    else match IndexOfId(ss[1..], id)
      case None => None
      case Some(k) => Some(k + 1)
  }

  /** add_student: refused when the id is taken, whatever the name; otherwise
      the list's copy of a fresh student is appended. */
  function AddStudentTo(ss: seq<Student>, name: string, id: int): (r: Option<seq<Student>>)
    ensures r.None? <==> HasStudent(ss, id)
    ensures r.Some? ==> |r.value| == |ss| + 1 && r.value[..|ss|] == ss
    ensures r.Some? ==> r.value[|ss|] == Student(id, name, [])
  {
    if HasStudent(ss, id) then None
    else Some(ss + [StudentCopy(InitStudent(id, name))])
  }

  /** add_grade: refused for a grade outside 0..100, an unknown id, or a
      course name the student already has; otherwise the course is appended
      to that student's course list. */
  function AddGradeTo(ss: seq<Student>, name: string, id: int, grade: int): (r: Option<seq<Student>>)
    ensures r.Some? ==> MinGrade <= grade <= MaxGrade && HasStudent(ss, id)
    ensures r.Some? ==>
      (|r.value| == |ss| &&
       forall i :: 0 <= i < |ss| ==> r.value[i].id == ss[i].id && r.value[i].name == ss[i].name)
  {
    if grade < MinGrade || grade > MaxGrade then None
    else match IndexOfId(ss, id)
      case None => None
      case Some(k) =>
        if HasCourse(ss[k].courses, name) then None
        else Some(ss[k := ss[k].(courses := ss[k].courses + [CourseCopy(InitCourse(name, grade))])])
  }

  /** Sum of the grades of `cs`. */
  function SumGrades(cs: seq<Course>): int {
    if cs == [] then 0 else cs[0].grade + SumGrades(cs[1..])
  }

  /** calc_avg's result for a known student: the mean grade, 0 when there
      are no courses. */
  function Average(cs: seq<Course>): (r: real)
    ensures |cs| == 0 ==> r == 0.0
    ensures |cs| > 0 ==> r * (|cs| as real) == SumGrades(cs) as real
  {
    if |cs| == 0 then 0.0 else SumGrades(cs) as real / |cs| as real
  }

  /** The calls a client can make that change the book. */
  datatype Op =
    | AddStudentOp(name: string, id: int)
    | AddGradeOp(course: string, studentId: int, grade: int)

  /** One call: a refused call leaves the list as it was. */
  function Apply(ss: seq<Student>, op: Op): seq<Student> {
    match op
    case AddStudentOp(name, id) =>
      (match AddStudentTo(ss, name, id) case None => ss case Some(t) => t)
    case AddGradeOp(course, sid, grade) =>
      (match AddGradeTo(ss, course, sid, grade) case None => ss case Some(t) => t)
  }

  /** A sequence of calls, in order. */
  function Run(ss: seq<Student>, ops: seq<Op>): seq<Student>
    decreases |ops|
  {
    if ops == [] then ss else Run(Apply(ss, ops[0]), ops[1..])
  }

  // ---------------------------------------------------------------------
  // add_student

  /** A successful add_student keeps the book well formed. */
  lemma AddStudentKeepsWellFormed(ss: seq<Student>, name: string, id: int)
    requires WellFormed(ss)
    requires AddStudentTo(ss, name, id).Some?
    ensures WellFormed(AddStudentTo(ss, name, id).value)
  {
  }

  // ---------------------------------------------------------------------
  // add_grade

  /** When add_grade is refused: exactly for a grade outside 0..100, an
      unknown id, or a course name already present for that student --
      whatever the grade. Grades 0 and 100 are accepted. */
  lemma AddGradeRefused(ss: seq<Student>, name: string, id: int, grade: int)
    requires IdsDistinct(ss)
    ensures AddGradeTo(ss, name, id, grade).None? <==>
      grade < 0 || grade > 100 || !HasStudent(ss, id) ||
      exists k :: 0 <= k < |ss| && ss[k].id == id && HasCourse(ss[k].courses, name)
  {
  }

  /** A successful add_grade appends `(name, grade)` at the end of the course
      list of the student with `id`; that student's id, name and earlier
      courses, and every other student, are unchanged. */
  lemma AddGradeFrame(ss: seq<Student>, name: string, id: int, grade: int)
    requires AddGradeTo(ss, name, id, grade).Some?
    ensures var t := AddGradeTo(ss, name, id, grade).value;
      |t| == |ss| &&
      exists k :: 0 <= k < |ss| && ss[k].id == id &&
        t[k] == Student(id, ss[k].name, ss[k].courses + [Course(name, grade)]) &&
        forall j :: 0 <= j < |ss| && j != k ==> t[j] == ss[j]
  {
  }

  /** A successful add_grade keeps the book well formed: the new course's
      name is new to its student and its grade lies in 0..100. */
  lemma AddGradeKeepsWellFormed(ss: seq<Student>, name: string, id: int, grade: int)
    requires WellFormed(ss)
    requires AddGradeTo(ss, name, id, grade).Some?
    ensures WellFormed(AddGradeTo(ss, name, id, grade).value)
  {
  }

  // ---------------------------------------------------------------------
  // calc_avg

  /** Grades in 0..100 sum to between 0 and 100 per course. */
  lemma {:induction false} SumGradesBounds(cs: seq<Course>)
    requires GradesInRange(cs)
    ensures 0 <= SumGrades(cs) <= MaxGrade * |cs|
  {
    if cs != [] {
      assert GradesInRange(cs[1..]) by {
        forall i | 0 <= i < |cs| - 1 ensures 0 <= cs[1..][i].grade <= 100 {
          assert cs[1..][i] == cs[i + 1];
        }
      }
      SumGradesBounds(cs[1..]);
    }
  }

  /** Summing a list that grew at the end adds the new grade. */
  lemma {:induction false} SumGradesSnoc(cs: seq<Course>, c: Course)
    ensures SumGrades(cs + [c]) == SumGrades(cs) + c.grade
  {
    if cs != [] {
      assert (cs + [c])[1..] == cs[1..] + [c];
      SumGradesSnoc(cs[1..], c);
    }
  }

  /** The average is the sum over the count (0 for no courses), and since
      every grade lies in 0..100 so does the average. */
  lemma AverageBounds(cs: seq<Course>)
    requires GradesInRange(cs)
    ensures |cs| > 0 ==> Average(cs) * (|cs| as real) == SumGrades(cs) as real
    ensures |cs| == 0 ==> Average(cs) == 0.0
    ensures 0.0 <= Average(cs) <= 100.0
  {
    if |cs| > 0 {
      SumGradesBounds(cs);
      DivBounds(SumGrades(cs) as real, |cs| as real);
    }
  }

  /** A total of at most 100 per item, over a positive count, averages to
      at most 100. */
  lemma DivBounds(s: real, n: real)
    requires n > 0.0 && 0.0 <= s <= 100.0 * n
    ensures 0.0 <= s / n <= 100.0
  {
  }

  // ---------------------------------------------------------------------
  // Sequences of calls

  /** Whatever calls are made, the book stays well formed: ids stay
      distinct, course names stay distinct within a student and every grade
      stays within 0..100. */
  lemma {:induction false} RunKeepsWellFormed(ss: seq<Student>, ops: seq<Op>)
    requires WellFormed(ss)
    ensures WellFormed(Run(ss, ops))
    decreases |ops|
  {
    if ops != [] {
      match ops[0] {
        case AddStudentOp(name, id) =>
          if AddStudentTo(ss, name, id).Some? { AddStudentKeepsWellFormed(ss, name, id); }
        case AddGradeOp(course, sid, grade) =>
          if AddGradeTo(ss, course, sid, grade).Some? { AddGradeKeepsWellFormed(ss, course, sid, grade); }
      }
      RunKeepsWellFormed(Apply(ss, ops[0]), ops[1..]);
    }
  }

  /** The student at position `i` after one call, and its course list, begin
      with what was there before the call. */
  predicate Extends(before: seq<Student>, after: seq<Student>) {
    |before| <= |after| &&
    forall i :: 0 <= i < |before| ==>
      after[i].id == before[i].id && after[i].name == before[i].name &&
      |before[i].courses| <= |after[i].courses| &&
      after[i].courses[..|before[i].courses|] == before[i].courses
  }

  lemma ExtendsTransitive(a: seq<Student>, b: seq<Student>, c: seq<Student>)
    requires Extends(a, b) && Extends(b, c)
    ensures Extends(a, c)
  {
  }

  lemma ApplyExtends(ss: seq<Student>, op: Op)
    ensures Extends(ss, Apply(ss, op))
  {
  }

  /** Insertion order is kept for good: after any calls, the students there
      before are still there at the same positions, with the same id and
      name, and their course lists begin with the courses they had. */
  lemma {:induction false} RunExtends(ss: seq<Student>, ops: seq<Op>)
    ensures Extends(ss, Run(ss, ops))
    decreases |ops|
  {
    if ops == [] {
      forall i | 0 <= i < |ss| ensures ss[i].courses[..|ss[i].courses|] == ss[i].courses { }
    } else {
      ApplyExtends(ss, ops[0]);
      RunExtends(Apply(ss, ops[0]), ops[1..]);
      ExtendsTransitive(ss, Apply(ss, ops[0]), Run(ss, ops));
    }
  }
}
