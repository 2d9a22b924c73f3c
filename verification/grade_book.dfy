/** The grade book aggregate: a class owning the student list, whose
    operations walk the lists with the same linear scans as the original
    (a cursor advanced node by node, stopping at the first match). Each
    operation is proved to do what the functions of module Book say, and to
    keep the book well formed. */
module GradeBook {
  import opened Records
  import opened Book
  import opened Report

  // ---------------------------------------------------------------------
  // The scans over a list, as the operations run them

  /** Walks the student list until a student with `id` is found. */
  method ScanStudents(ss: seq<Student>, id: int) returns (found: bool, k: nat)
    ensures found <==> HasStudent(ss, id)
    ensures found ==> k < |ss| && ss[k].id == id
    ensures found ==> forall j :: 0 <= j < k ==> ss[j].id != id
    ensures IndexOfId(ss, id) == if found then Some(k) else None
  {
    found, k := false, 0;
    while k < |ss|
      invariant 0 <= k <= |ss|
      invariant forall j :: 0 <= j < k ==> ss[j].id != id
    {
      if ss[k].id == id {
        found := true;
        break;
      }
      k := k + 1;
    }
  }

  /** Walks a course list looking for a course named `name`. */
  method ScanCourses(cs: seq<Course>, name: string) returns (found: bool)
    ensures found <==> HasCourse(cs, name)
  {
    var i := 0;
    while i < |cs|
      invariant 0 <= i <= |cs|
      invariant forall j :: 0 <= j < i ==> cs[j].name != name
    {
      if cs[i].name == name {
        return true;
      }
      i := i + 1;
    }
    return false;
  }

  /** Walks a course list accumulating the sum of the grades and their
      count. */
  method SumCourses(cs: seq<Course>) returns (sum: int, count: nat)
    ensures sum == SumGrades(cs) && count == |cs|
  {
    sum, count := 0, 0;
    while count < |cs|
      invariant 0 <= count <= |cs|
      invariant sum == SumGrades(cs[..count])
    {
      assert cs[..count + 1] == cs[..count] + [cs[count]];
      SumGradesSnoc(cs[..count], cs[count]);
      sum := sum + cs[count].grade;
      count := count + 1;
    }
    assert cs[..count] == cs;
  }

  /** Emits a course list: ` NAME GRADE` per course, then a comma when a
      next course follows. */
  method FormatCourses(cs: seq<Course>) returns (out: string)
    ensures out == CoursesText(cs)
  {
    out := "";
    var i := 0;
    while i < |cs|
      invariant 0 <= i <= |cs|
      invariant out == CoursesText(cs[..i]) + Separator(i, |cs|)
    {
      FormatStep(cs, i);
      out := out + CourseText(cs[i]);
      i := i + 1;
      assert out == CoursesText(cs[..i]);
      if i < |cs| {
        out := out + ",";
      } else {
        assert Separator(i, |cs|) == "";
      }
    }
    assert cs[..i] == cs;
  }

  /** What the course loop has emitted after `i` of `n` courses besides the
      courses themselves: the comma that precedes the next course. */
  function Separator(i: nat, n: nat): string {
    if 0 < i < n then "," else ""
  }

  /** One round of the course loop. */
  lemma FormatStep(cs: seq<Course>, i: nat)
    requires i < |cs|
    ensures CoursesText(cs[..i]) + Separator(i, |cs|) + CourseText(cs[i]) == CoursesText(cs[..i + 1])
  {
    assert cs[..i + 1] == cs[..i] + [cs[i]];
    CoursesTextSnoc(cs[..i], cs[i]);
  }

  /** Emits the line of one student: `NAME ID:`, the courses, a line
      break. */
  method FormatStudent(s: Student) returns (out: string)
    ensures out == StudentLine(s)
    ensures |out| > |s.name| && out[..|s.name|] == s.name && out[|out| - 1] == '\n'
  {
    var courses := FormatCourses(s.courses);
    out := s.name + " " + IntToString(s.id) + ":" + courses + "\n";
  }

  /** One round of the student loop of print_all. */
  lemma PrintAllStep(ss: seq<Student>, i: nat)
    requires i < |ss|
    ensures AllLines(ss[..i]) + StudentLine(ss[i]) == AllLines(ss[..i + 1])
  {
    assert ss[..i + 1] == ss[..i] + [ss[i]];
    AllLinesSnoc(ss[..i], ss[i]);
  }

  // ---------------------------------------------------------------------
  // The aggregate

  class Grades {
    /** The student list, in insertion order. */
    var students: seq<Student>

    /** Ids are unique; course names are unique within a student; grades
        lie in 0..100. */
    predicate Valid()
      reads this
    {
      WellFormed(students)
    }

    /** grades_init: an empty book. */
    constructor ()
      ensures Valid() && students == []
    {
      students := [];
    }

    /** grades_add_student: 0 and the new student appended at the end, or
        -1 and nothing changed when the id is already taken. */
    method AddStudent(name: string, id: int) returns (r: int)
      requires Valid()
      modifies this
      ensures Valid()
      ensures r == 0 || r == -1
      ensures r == -1 <==> HasStudent(old(students), id)
      ensures r == -1 ==> students == old(students)
      ensures r == 0 ==> students == old(students) + [Student(id, name, [])]
      ensures AddStudentTo(old(students), name, id) ==
        if r == 0 then Some(students) else None
    {
      var found, _ := ScanStudents(students, id);
      if found {
        return -1;
      }
      // the transient record, of which the list keeps its own copy
      var transient := InitStudent(id, name);
      AddStudentKeepsWellFormed(students, name, id);
      students := students + [StudentCopy(transient)];
      r := 0;
    }

    /** grades_add_grade: 0 and the course appended to that student, or -1
        and nothing changed for a grade outside 0..100, an unknown id, or a
        course name the student already has. */
    method AddGrade(name: string, id: int, grade: int) returns (r: int)
      requires Valid()
      modifies this
      ensures Valid()
      ensures r == 0 || r == -1
      ensures r == -1 ==> students == old(students)
      ensures AddGradeTo(old(students), name, id, grade) ==
        if r == 0 then Some(students) else None
      ensures r == 0 <==>
        (MinGrade <= grade <= MaxGrade && HasStudent(old(students), id) &&
         !HasCourse(old(students)[IndexOfId(old(students), id).value].courses, name))
      ensures r == 0 ==>
        var k := IndexOfId(old(students), id).value;
        var s := old(students)[k];
        students == old(students)[k := Student(id, s.name, s.courses + [Course(name, grade)])]
    {
      if grade < MinGrade || grade > MaxGrade {
        return -1;
      }
      var found, k := ScanStudents(students, id);
      if !found {
        return -1;
      }
      var taken := ScanCourses(students[k].courses, name);
      if taken {
        return -1;
      }
      // the transient record, of which the course list keeps its own copy
      var course := InitCourse(name, grade);
      var s := students[k];
      AddGradeKeepsWellFormed(students, name, id, grade);
      students := students[k := s.(courses := s.courses + [CourseCopy(course)])];
      r := 0;
    }

    /** grades_calc_avg: for a known id, the student's name in `out'` and
        the mean of its grades (0 with no courses), which lies in 0..100;
        for an unknown id, -1 and `out` left as it was. */
    method CalcAvg(id: int, out: Option<string>) returns (avg: real, out': Option<string>)
      requires Valid()
      ensures !HasStudent(students, id) ==> avg == -1.0 && out' == out
      ensures HasStudent(students, id) ==>
        var k := IndexOfId(students, id).value;
        out' == Some(students[k].name) && avg == Average(students[k].courses)
      ensures HasStudent(students, id) ==> 0.0 <= avg <= 100.0
    {
      var found, k := ScanStudents(students, id);
      if !found {
        return -1.0, out;
      }
      out' := Some(students[k].name);
      var sum, count := SumCourses(students[k].courses);
      avg := if count == 0 then 0.0 else sum as real / count as real;
      AverageBounds(students[k].courses);
    }

    /** grades_print_student: 0 and the student's line, or -1 and nothing
        emitted for an unknown id. */
    method PrintStudent(id: int) returns (r: int, out: string)
      requires Valid()
      ensures r == 0 || r == -1
      ensures r == -1 <==> !HasStudent(students, id)
      ensures r == -1 ==> out == ""
      ensures r == 0 ==>
        (exists k :: 0 <= k < |students| && students[k].id == id && out == StudentLine(students[k]))
    {
      var found, k := ScanStudents(students, id);
      if !found {
        return -1, "";
      }
      out := FormatStudent(students[k]);
      r := 0;
    }

    /** grades_print_all: the line of every student, in insertion order. */
    method PrintAll() returns (r: int, out: string)
      requires Valid()
      ensures r == 0
      ensures out == AllLines(students)
    {
      out := "";
      var i := 0;
      while i < |students|
        invariant 0 <= i <= |students|
        invariant out == AllLines(students[..i])
      {
        var line := FormatStudent(students[i]);
        PrintAllStep(students, i);
        out := out + line;
        i := i + 1;
      }
      assert students[..i] == students;
      r := 0;
    }
  }

  /** The book's contracts in use: a duplicate student is refused, a
      first course is recorded. */
  method StartScenario() returns (g: Grades)
    ensures fresh(g) && g.Valid()
    ensures g.students == [Student(1, "Alice", [Course("Math", 90)])]
  {
    g := new Grades();
    var r := g.AddStudent("Alice", 1);
    assert r == 0 && g.students == [Student(1, "Alice", [])];
    assert g.students[0].id == 1;
    r := g.AddStudent("Alice", 1);
    assert r == -1;
    assert IndexOfId(g.students, 1) == Some(0);
    r := g.AddGrade("Math", 1, 90);
    assert [] + [Course("Math", 90)] == [Course("Math", 90)];
    assert r == 0;
  }

  /** Continuing: a duplicate course name and an unknown id are refused,
      a second course is recorded after the first. */
  method BuildScenario() returns (g: Grades)
    ensures g.Valid()
    ensures g.students == [Student(1, "Alice", [Course("Math", 90), Course("CS", 100)])]
  {
    g := StartScenario();
    assert IndexOfId(g.students, 1) == Some(0);
    assert g.students[0].courses[0].name == "Math";
    var r := g.AddGrade("Math", 1, 85);
    assert r == -1;
    assert !HasStudent(g.students, 2);
    r := g.AddGrade("Sci", 2, 50);
    assert r == -1;
    assert IndexOfId(g.students, 1) == Some(0);
    assert !HasCourse(g.students[0].courses, "CS");
    r := g.AddGrade("CS", 1, 100);
    assert [Course("Math", 90)] + [Course("CS", 100)] == [Course("Math", 90), Course("CS", 100)];
    assert r == 0;
  }

  /** The average and the report of the book built above. */
  method Scenario() {
    var g := BuildScenario();
    assert IndexOfId(g.students, 1) == Some(0);
    var cs := g.students[0].courses;
    assert cs[1..] == [Course("CS", 100)];
    assert SumGrades(cs) == 190;
    var avg, name := g.CalcAvg(1, None);
    assert avg == 95.0 && name == Some("Alice");
    var r, out := g.PrintAll();
    TwoCourseLine();
    assert out == "Alice 1: Math 90, CS 100\n";
  }
}
