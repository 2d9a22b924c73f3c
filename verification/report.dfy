/** The text print_student and print_all emit, as strings: one line
    `NAME ID: C1 G1, C2 G2` per student, the students in insertion order and
    each student's courses in insertion order. */
module Report {
  import opened Records
  import opened Book

  // ---------------------------------------------------------------------
  // Decimal integers, as printf's %d writes them

  predicate IsDigit(ch: char) {
    '0' <= ch <= '9'
  }

  predicate AllDigits(s: string) {
    forall i :: 0 <= i < |s| ==> IsDigit(s[i])
  }

  function DigitChar(d: nat): (ch: char)
    requires d < 10
    ensures IsDigit(ch) && (ch as int) - ('0' as int) == d
  {
    (('0' as int) + d) as char
  }

  /** The decimal digits of `n`, most significant first, without leading
      zeros. */
  function NatToString(n: nat): (s: string)
    ensures |s| >= 1 && AllDigits(s)
    ensures s[0] == '0' ==> n == 0
  {
    if n < 10 then [DigitChar(n)] else NatToString(n / 10) + [DigitChar(n % 10)]
  }

  /** %d: a minus sign for negative numbers, then the digits. */
  function IntToString(n: int): string {
    if n < 0 then "-" + NatToString(-n) else NatToString(n)
  }

  /** The value of a string of decimal digits. */
  function DigitsValue(s: string): nat
    requires AllDigits(s)
  {
    if s == [] then 0
    else 10 * DigitsValue(s[..|s| - 1]) + ((s[|s| - 1] as int) - ('0' as int))
  }

  /** Reading back what %d wrote. */
  function ParseInt(s: string): int
    requires |s| >= 1
    requires s[0] == '-' ==> AllDigits(s[1..])
    requires s[0] != '-' ==> AllDigits(s)
  {
    if s[0] == '-' then -(DigitsValue(s[1..]) as int) else DigitsValue(s)
  }

  lemma {:induction false} NatToStringRoundTrip(n: nat)
    ensures DigitsValue(NatToString(n)) == n
  {
    if n >= 10 {
      var s := NatToString(n);
      assert s[..|s| - 1] == NatToString(n / 10);
      NatToStringRoundTrip(n / 10);
    }
  }

  /** What %d writes for an id or a grade determines the number: the id and
      the grades can be read back from the report. */
  lemma IntToStringRoundTrip(n: int)
    ensures |IntToString(n)| >= 1
    ensures IntToString(n)[0] == '-' <==> n < 0
    ensures ParseInt(IntToString(n)) == n
  {
    if n < 0 {
      assert IntToString(n)[1..] == NatToString(-n);
      NatToStringRoundTrip(-n);
    } else {
      NatToStringRoundTrip(n);
    }
  }

  // ---------------------------------------------------------------------
  // Lines of the report

  /** One course as printed: ` NAME GRADE`. */
  function CourseText(c: Course): string {
    " " + c.name + " " + IntToString(c.grade)
  }

  /** The courses of a student in order, with `,` between consecutive ones
      and none after the last. */
  function CoursesText(cs: seq<Course>): (r: string)
    ensures r == "" <==> cs == []
  {
    if |cs| == 0 then ""
    else if |cs| == 1 then CourseText(cs[0])
    else CourseText(cs[0]) + "," + CoursesText(cs[1..])
  }

  /** The start of a student's line: `NAME ID:`. */
  function StudentHead(s: Student): string {
    s.name + " " + IntToString(s.id) + ":"
  }

  /** A student's line without its line break. */
  function LineBody(s: Student): string {
    StudentHead(s) + CoursesText(s.courses)
  }

  /** The line print_student emits for `s`. */
  function StudentLine(s: Student): (r: string)
    ensures |r| > 0 && r[|r| - 1] == '\n'
  {
    LineBody(s) + "\n"
  }

  /** What print_all emits: the line of every student, in order. */
  function AllLines(ss: seq<Student>): (r: string)
    ensures r == "" <==> ss == []
  {
    if ss == [] then "" else StudentLine(ss[0]) + AllLines(ss[1..])
  }

  /** Printing a course list that grew at the end: the old text, a comma
      when there were courses before, then the new course. */
  lemma {:induction false} CoursesTextSnoc(cs: seq<Course>, c: Course)
    ensures CoursesText(cs + [c]) ==
      CoursesText(cs) + (if cs == [] then "" else ",") + CourseText(c)
  {
    if cs == [] {
      assert cs + [c] == [c];
    } else if |cs| == 1 {
      assert (cs + [c])[1..] == [c];
      assert CoursesText(cs + [c]) == CourseText(cs[0]) + "," + CourseText(c);
    } else {
      var rest := cs[1..];
      assert (cs + [c])[1..] == rest + [c];
      CoursesTextSnoc(rest, c);
      calc {
        CoursesText(cs + [c]);
        CourseText(cs[0]) + "," + CoursesText(rest + [c]);
        CourseText(cs[0]) + "," + (CoursesText(rest) + "," + CourseText(c));
        (CourseText(cs[0]) + "," + CoursesText(rest)) + "," + CourseText(c);
        CoursesText(cs) + "," + CourseText(c);
      }
    }
  }

  /** The report of a list that grew at the end: the old report, then the
      new student's line. */
  lemma {:induction false} AllLinesSnoc(ss: seq<Student>, s: Student)
    ensures AllLines(ss + [s]) == AllLines(ss) + StudentLine(s)
  {
    if ss != [] {
      assert (ss + [s])[1..] == ss[1..] + [s];
      AllLinesSnoc(ss[1..], s);
    }
  }

  /** The report is the lines of the students one after another: it begins
      with the lines of any prefix of the student list. */
  lemma {:induction false} AllLinesPrefix(ss: seq<Student>, n: nat)
    requires n <= |ss|
    ensures AllLines(ss) == AllLines(ss[..n]) + AllLines(ss[n..])
    decreases n
  {
    if n > 0 {
      var rest := ss[1..];
      assert ss[..n][0] == ss[0] && ss[..n][1..] == rest[..n - 1];
      assert ss[n..] == rest[n - 1..];
      AllLinesPrefix(rest, n - 1);
      assert AllLines(ss[..n]) == StudentLine(ss[0]) + AllLines(rest[..n - 1]);
      ConcatAssoc(StudentLine(ss[0]), AllLines(rest[..n - 1]), AllLines(rest[n - 1..]));
    } else {
      assert ss[..n] == [] && ss[n..] == ss;
    }
  }

  /** A student with no courses prints as `NAME ID:` and a line break. */
  lemma StudentLineNoCourses(s: Student)
    requires s.courses == []
    ensures StudentLine(s) == s.name + " " + IntToString(s.id) + ":\n"
  {
  }

  /** After a successful add_student, print_all emits what it emitted before
      followed by the new student's line, which is `NAME ID:` alone (see
      StudentLineNoCourses). */
  lemma AddStudentReport(ss: seq<Student>, name: string, id: int)
    requires AddStudentTo(ss, name, id).Some?
    ensures AllLines(AddStudentTo(ss, name, id).value) ==
      AllLines(ss) + StudentLine(Student(id, name, []))
  {
    AllLinesSnoc(ss, Student(id, name, []));
  }

  /** After add_grade appends a course, the student's line keeps what it
      had before its line break and gains `,` (left out for a first course)
      and ` NAME GRADE`. */
  lemma AddGradeReport(s: Student, name: string, grade: int)
    ensures LineBody(s.(courses := s.courses + [Course(name, grade)])) ==
      LineBody(s) + (if s.courses == [] then "" else ",") + CourseText(Course(name, grade))
  {
    var c := Course(name, grade);
    var sep := if s.courses == [] then "" else ",";
    var head, text, piece := StudentHead(s), CoursesText(s.courses), CourseText(c);
    CoursesTextSnoc(s.courses, c);
    assert CoursesText(s.courses + [c]) == text + sep + piece;
    ConcatAssoc(head, text + sep, piece);
    ConcatAssoc(head, text, sep);
  }

  lemma ConcatAssoc(a: string, b: string, c: string)
    ensures a + (b + c) == (a + b) + c
  {
  }

  /** The numbers of the example below, as %d writes them. */
  lemma ExampleNumbers()
    ensures IntToString(1) == "1" && IntToString(90) == "90" && IntToString(100) == "100"
  {
    assert DigitChar(0) == '0' && DigitChar(1) == '1' && DigitChar(9) == '9';
    assert NatToString(90) == NatToString(9) + [DigitChar(0)];
    assert NatToString(10) == NatToString(1) + [DigitChar(0)];
    assert NatToString(100) == NatToString(10) + [DigitChar(0)];
  }

  /** The report of a student with two courses. */
  lemma TwoCourseLine()
    ensures AllLines([Student(1, "Alice", [Course("Math", 90), Course("CS", 100)])]) ==
      "Alice 1: Math 90, CS 100\n"
  {
    ExampleNumbers();
    var cs := [Course("Math", 90), Course("CS", 100)];
    var s := Student(1, "Alice", cs);
    assert CourseText(cs[0]) == " Math 90";
    assert CourseText(cs[1]) == " CS 100";
    assert cs[1..] == [cs[1]];
    assert CoursesText(cs) == " Math 90, CS 100";
    assert StudentHead(s) == "Alice 1:";
    assert StudentLine(s) == "Alice 1: Math 90, CS 100\n";
    assert [s][1..] == [];
  }
}
