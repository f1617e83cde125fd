/** The `seed_data` management command: on a database without courses it
    inserts a fixed set of three courses, three lecturers, nine subjects and
    nine students with their subjects; otherwise it does nothing. The rows
    are kept once, in tables, and both the command and the description of
    the store it leaves are read from them. */
module SeedData {
  import opened Common
  import opened CourseRule
  import opened Store
  import StudentSerializers

  /** A seeded subject: `course` and `lecturer` are positions (0, 1, 2) in
      the course and lecturer tables. */
  datatype SubjectSeed = SubjectSeed(name: string, description: string, course: nat, lecturer: nat)

  /** A seeded student: `course` is a position in the course table and
      `subjects` are positions in the subject table. */
  datatype StudentSeed = StudentSeed(
    firstName: string, lastName: string, email: string, dateOfBirth: string, course: nat, subjects: seq<nat>)

  const CourseRows: seq<Course> := [
    Course("Computer Science", "Study of computation, algorithms, and software engineering."),
    Course("Electrical Engineering", "Study of electrical systems, circuits, and power generation."),
    Course("Business Administration", "Study of management, finance, and organizational leadership.")
  ]

  const LecturerRows: seq<Lecturer> := [
    Lecturer("James", "Mokoena", "james.mokoena@university.ac.za"),
    Lecturer("Sarah", "Naidoo", "sarah.naidoo@university.ac.za"),
    Lecturer("David", "van der Merwe", "david.vdm@university.ac.za")
  ]

  const SubjectRows: seq<SubjectSeed> := [
    SubjectSeed("Data Structures", "Arrays, linked lists, trees, and graphs.", 0, 0),
    SubjectSeed("Web Development", "Frontend and backend web technologies.", 0, 0),
    SubjectSeed("Database Systems", "Relational databases, SQL, and data modeling.", 0, 1),
    SubjectSeed("Circuit Analysis", "Fundamentals of electrical circuits and components.", 1, 2),
    SubjectSeed("Digital Electronics", "Logic gates, microprocessors, and digital systems.", 1, 2),
    SubjectSeed("Power Systems", "Electrical power generation and distribution.", 1, 1),
    SubjectSeed("Financial Accounting", "Principles of accounting and financial reporting.", 2, 1),
    SubjectSeed("Marketing Management", "Marketing strategies and consumer behavior.", 2, 2),
    SubjectSeed("Organizational Behavior", "Human behavior in organizational settings.", 2, 0)
  ]

  const StudentRows: seq<StudentSeed> := [
    StudentSeed("Sipho", "Dlamini", "sipho.dlamini@student.ac.za", "2000-03-15", 0, [0, 1, 2]),
    StudentSeed("Naledi", "Khumalo", "naledi.khumalo@student.ac.za", "2001-07-22", 0, [0, 2]),
    StudentSeed("Thabo", "Mthembu", "thabo.mthembu@student.ac.za", "1999-11-08", 0, [1, 2]),
    StudentSeed("Zanele", "Ngcobo", "zanele.ngcobo@student.ac.za", "2000-01-30", 1, [3, 4, 5]),
    StudentSeed("Bongani", "Sithole", "bongani.sithole@student.ac.za", "2001-05-12", 1, [3, 4]),
    StudentSeed("Lerato", "Molefe", "lerato.molefe@student.ac.za", "2000-09-25", 1, [4, 5]),
    StudentSeed("Ayanda", "Zulu", "ayanda.zulu@student.ac.za", "2001-02-14", 2, [6, 7, 8]),
    StudentSeed("Nomvula", "Cele", "nomvula.cele@student.ac.za", "2000-06-18", 2, [6, 8]),
    StudentSeed("Mandla", "Nkosi", "mandla.nkosi@student.ac.za", "1999-12-03", 2, [7, 8])
  ]

  datatype SeedOutcome =
    | Skipped  // the database already had courses
    | Seeded
    | Failed   // an insert raised `IntegrityError`; the rows before it stay

  // ---------------------------------------------------------------------
  // The store the command leaves, as a function of where each id sequence
  // stood when it began: the first `n` rows of each table

  function Courses(c0: nat, n: nat): (m: map<nat, Course>)
    requires n <= |CourseRows|
    ensures forall k :: k in m <==> c0 <= k < c0 + n
    ensures forall k :: k in m ==> m[k] == CourseRows[k - c0]
  {
    if n == 0 then map[] else Courses(c0, n - 1)[c0 + n - 1 := CourseRows[n - 1]]
  }

  function Lecturers(l0: nat, n: nat): (m: map<nat, Lecturer>)
    requires n <= |LecturerRows|
    ensures forall k :: k in m <==> l0 <= k < l0 + n
    ensures forall k :: k in m ==> m[k] == LecturerRows[k - l0]
  {
    if n == 0 then map[] else Lecturers(l0, n - 1)[l0 + n - 1 := LecturerRows[n - 1]]
  }

  function SubjectRow(j: nat, c0: nat, l0: nat): Subject
    requires j < |SubjectRows|
  {
    Subject(SubjectRows[j].name, SubjectRows[j].description, c0 + SubjectRows[j].course, l0 + SubjectRows[j].lecturer)
  }

  function Subjects(s0: nat, c0: nat, l0: nat, n: nat): (m: map<nat, Subject>)
    requires n <= |SubjectRows|
    ensures forall k :: k in m <==> s0 <= k < s0 + n
    ensures forall k :: k in m ==> m[k] == SubjectRow(k - s0, c0, l0)
  {
    if n == 0 then map[] else Subjects(s0, c0, l0, n - 1)[s0 + n - 1 := SubjectRow(n - 1, c0, l0)]
  }

  function StudentRow(j: nat, c0: nat): Student
    requires j < |StudentRows|
  {
    var r := StudentRows[j];
    Student(r.firstName, r.lastName, r.email, r.dateOfBirth, c0 + r.course)
  }

  function Students(st0: nat, c0: nat, n: nat): (m: map<nat, Student>)
    requires n <= |StudentRows|
    ensures forall k :: k in m <==> st0 <= k < st0 + n
    ensures forall k :: k in m ==> m[k] == StudentRow(k - st0, c0)
  {
    if n == 0 then map[] else Students(st0, c0, n - 1)[st0 + n - 1 := StudentRow(n - 1, c0)]
  }

  /** The subject ids `st.subjects.set([...])` gives the `j`-th student. */
  function SubjectIds(j: nat, s0: nat): set<nat>
    requires j < |StudentRows|
  {
    set t | t in StudentRows[j].subjects :: s0 + t
  }

  /** The join-table rows of the `j`-th student. */
  function EnrolmentsOfRow(st0: nat, s0: nat, j: nat): (r: set<Enrolment>)
    requires j < |StudentRows|
    ensures forall e :: e in r ==> e.student == st0 + j
  {
    set k | k in SubjectIds(j, s0) :: Enrolment(st0 + j, k)
  }

  /** The join-table rows of the first `n` students. */
  function Enrolments(st0: nat, s0: nat, n: nat): (r: set<Enrolment>)
    requires n <= |StudentRows|
    ensures forall e :: e in r ==> st0 <= e.student < st0 + n
  {
    if n == 0 then {} else Enrolments(st0, s0, n - 1) + EnrolmentsOfRow(st0, s0, n - 1)
  }

  // ---------------------------------------------------------------------
  // Facts about the tables

  /** Two strings that differ at a position are different. */
  lemma DifferAt(s: string, t: string, i: nat)
    requires i < |s| && i < |t| && s[i] != t[i]
    ensures s != t
  {
  }

  lemma CourseNamesDistinct()
    ensures forall a, b :: 0 <= a < b < |CourseRows| ==> CourseRows[a].name != CourseRows[b].name
  {
    DifferAt(CourseRows[0].name, CourseRows[1].name, 0);
    DifferAt(CourseRows[0].name, CourseRows[2].name, 0);
    DifferAt(CourseRows[1].name, CourseRows[2].name, 0);
  }

  lemma LecturerEmailsDistinct()
    ensures forall a, b :: 0 <= a < b < |LecturerRows| ==> LecturerRows[a].email != LecturerRows[b].email
  {
    DifferAt(LecturerRows[0].email, LecturerRows[1].email, 0);
    DifferAt(LecturerRows[0].email, LecturerRows[2].email, 0);
    DifferAt(LecturerRows[1].email, LecturerRows[2].email, 0);
  }

  /** Within a course no two seeded subjects share a name. */
  lemma SubjectNamesDistinctPerCourse()
    ensures forall a, b :: 0 <= a < b < |SubjectRows| && SubjectRows[a].course == SubjectRows[b].course ==>
      SubjectRows[a].name != SubjectRows[b].name
  {
    DifferAt(SubjectRows[0].name, SubjectRows[1].name, 0);
    DifferAt(SubjectRows[0].name, SubjectRows[2].name, 4);
    DifferAt(SubjectRows[1].name, SubjectRows[2].name, 0);
    DifferAt(SubjectRows[3].name, SubjectRows[4].name, 0);
    DifferAt(SubjectRows[3].name, SubjectRows[5].name, 0);
    DifferAt(SubjectRows[4].name, SubjectRows[5].name, 0);
    DifferAt(SubjectRows[6].name, SubjectRows[7].name, 0);
    DifferAt(SubjectRows[6].name, SubjectRows[8].name, 0);
    DifferAt(SubjectRows[7].name, SubjectRows[8].name, 0);
  }

  lemma StudentEmailsDistinct()
    ensures forall a, b :: 0 <= a < b < |StudentRows| ==> StudentRows[a].email != StudentRows[b].email
  {
    forall a, b | 0 <= a < b < |StudentRows| ensures StudentRows[a].email != StudentRows[b].email {
      if (a, b) == (1, 7) {
        DifferAt(StudentRows[a].email, StudentRows[b].email, 1);
      } else {
        DifferAt(StudentRows[a].email, StudentRows[b].email, 0);
      }
    }
  }

  /** Every seeded student's subjects are subjects of its own course. */
  lemma SubjectsWithinCourseRows()
    ensures forall j, t :: 0 <= j < |StudentRows| && t in StudentRows[j].subjects ==>
      t < |SubjectRows| && SubjectRows[t].course == StudentRows[j].course
  {
  }

  // ---------------------------------------------------------------------
  // How one more row extends the first `n`

  /** No seeded course so far has the name of the next one. */
  lemma CourseNameFree(c0: nat, n: nat)
    requires n < |CourseRows|
    ensures forall k :: k in Courses(c0, n) ==> Courses(c0, n)[k].name != CourseRows[n].name
  {
    CourseNamesDistinct();
  }

  /** Inserting the next seeded lecturer extends the seeded ones by one row. */
  lemma LecturersSnoc(base: map<nat, Lecturer>, l0: nat, n: nat)
    requires n < |LecturerRows|
    ensures (base + Lecturers(l0, n))[l0 + n := LecturerRows[n]] == base + Lecturers(l0, n + 1)
  {
  }

  /** With the seeded ones above every existing id, the next lecturer's
      email is taken exactly when an existing lecturer has it. */
  lemma LecturerEmailFree(base: map<nat, Lecturer>, l0: nat, n: nat)
    requires n < |LecturerRows| && IdsBelow(base, l0)
    ensures (exists k :: k in base + Lecturers(l0, n) && (base + Lecturers(l0, n))[k].email == LecturerRows[n].email)
      <==> exists k :: k in base && base[k].email == LecturerRows[n].email
  {
    var m := base + Lecturers(l0, n);
    if exists k :: k in m && m[k].email == LecturerRows[n].email {
      var k :| k in m && m[k].email == LecturerRows[n].email;
      if k !in base {
        assert m[k] == LecturerRows[k - l0];
        LecturerEmailsDistinct();
        assert false;
      }
      assert base[k] == m[k];
    }
    if exists k :: k in base && base[k].email == LecturerRows[n].email {
      var k :| k in base && base[k].email == LecturerRows[n].email;
      assert k !in Lecturers(l0, n);
      assert m[k] == base[k];
    }
  }

  /** No seeded subject so far shares the next one's name and course. */
  lemma SubjectNameFree(s0: nat, c0: nat, l0: nat, n: nat)
    requires n < |SubjectRows|
    ensures forall k :: k in Subjects(s0, c0, l0, n) ==>
      Subjects(s0, c0, l0, n)[k].name != SubjectRow(n, c0, l0).name
      || Subjects(s0, c0, l0, n)[k].course != SubjectRow(n, c0, l0).course
  {
    SubjectNamesDistinctPerCourse();
  }

  /** No seeded student so far has the next one's email. */
  lemma StudentEmailFree(st0: nat, c0: nat, n: nat)
    requires n < |StudentRows|
    ensures forall k :: k in Students(st0, c0, n) ==> Students(st0, c0, n)[k].email != StudentRow(n, c0).email
  {
    StudentEmailsDistinct();
  }

  /** `subjects.set(...)` of a student without enrolments adds its rows and
      keeps everyone else's. */
  lemma EnrolmentsSnoc(st0: nat, s0: nat, n: nat)
    requires n < |StudentRows|
    ensures (set e | e in Enrolments(st0, s0, n) && e.student != st0 + n)
      + (set k | k in SubjectIds(n, s0) :: Enrolment(st0 + n, k)) == Enrolments(st0, s0, n + 1)
  {
    assert (set e | e in Enrolments(st0, s0, n) && e.student != st0 + n) == Enrolments(st0, s0, n);
  }

  lemma SubjectIdsExist(n: nat, s0: nat, c0: nat, l0: nat)
    requires n < |StudentRows|
    ensures SubjectIds(n, s0) <= Subjects(s0, c0, l0, |SubjectRows|).Keys
    ensures forall k :: k in SubjectIds(n, s0) ==> Subjects(s0, c0, l0, |SubjectRows|)[k].course == c0 + StudentRows[n].course
  {
    SubjectsWithinCourseRows();
    forall k | k in SubjectIds(n, s0)
      ensures k in Subjects(s0, c0, l0, |SubjectRows|)
      ensures Subjects(s0, c0, l0, |SubjectRows|)[k].course == c0 + StudentRows[n].course
    {
      var t :| t in StudentRows[n].subjects && k == s0 + t;
      SubjectAt(s0, c0, l0, t);
    }
  }

  // ---------------------------------------------------------------------
  // One step per `create` of the command

  method InsertSeedCourse(db: Database, c0: nat, n: nat)
    requires db.Valid() && n < |CourseRows|
    requires db.courses == Courses(c0, n) && db.nextCourse == c0 + n
    modifies db`courses, db`nextCourse
    ensures db.Valid()
    ensures db.courses == Courses(c0, n + 1) && db.nextCourse == c0 + n + 1
  {
    CourseNameFree(c0, n);
    var r := db.InsertCourse(CourseRows[n].name, CourseRows[n].description);
  }

  /** A lecturer create, which raises when the email is already taken. */
  method InsertSeedLecturer(db: Database, ghost base: map<nat, Lecturer>, l0: nat, n: nat) returns (r: Result<nat, StoreError>)
    requires db.Valid() && n < |LecturerRows| && IdsBelow(base, l0)
    requires db.lecturers == base + Lecturers(l0, n) && db.nextLecturer == l0 + n
    modifies db`lecturers, db`nextLecturer
    ensures db.Valid()
    ensures r.Err? <==> exists k :: k in base && base[k].email == LecturerRows[n].email
    ensures r.Ok? ==> db.lecturers == base + Lecturers(l0, n + 1)
    ensures r.Err? ==> db.lecturers == old(db.lecturers)
    ensures db.nextLecturer == l0 + n + 1
  {
    LecturerEmailFree(base, l0, n);
    LecturersSnoc(base, l0, n);
    r := db.InsertLecturer(LecturerRows[n].firstName, LecturerRows[n].lastName, LecturerRows[n].email);
  }

  method InsertSeedSubject(db: Database, s0: nat, c0: nat, l0: nat, n: nat)
    requires db.Valid() && n < |SubjectRows|
    requires SubjectRow(n, c0, l0).course in db.courses && SubjectRow(n, c0, l0).lecturer in db.lecturers
    requires db.subjects == Subjects(s0, c0, l0, n) && db.nextSubject == s0 + n
    modifies db`subjects, db`nextSubject
    ensures db.Valid()
    ensures db.subjects == Subjects(s0, c0, l0, n + 1) && db.nextSubject == s0 + n + 1
  {
    var row := SubjectRow(n, c0, l0);
    SubjectNameFree(s0, c0, l0, n);
    var r := db.InsertSubject(row.name, row.description, row.course, row.lecturer);
  }

  /** A student create followed by `st.subjects.set(...)`. */
  method InsertSeedStudent(db: Database, st0: nat, s0: nat, c0: nat, n: nat)
    requires db.Valid() && n < |StudentRows|
    requires StudentRow(n, c0).course in db.courses && SubjectIds(n, s0) <= db.subjects.Keys
    requires db.students == Students(st0, c0, n) && db.nextStudent == st0 + n
    requires db.enrolments == Enrolments(st0, s0, n)
    modifies db`students, db`nextStudent, db`enrolments
    ensures db.Valid()
    ensures db.students == Students(st0, c0, n + 1) && db.nextStudent == st0 + n + 1
    ensures db.enrolments == Enrolments(st0, s0, n + 1)
  {
    var row := StudentRow(n, c0);
    StudentEmailFree(st0, c0, n);
    var r := db.InsertStudent(row.firstName, row.lastName, row.email, row.dateOfBirth, row.course);
    EnrolmentsSnoc(st0, s0, n);
    db.SetStudentSubjects(st0 + n, SubjectIds(n, s0));
  }

  // ---------------------------------------------------------------------
  // The command

  /** The three course creates. */
  method SeedCourses(db: Database, c0: nat)
    requires db.Valid() && db.courses == map[] && db.nextCourse == c0
    modifies db`courses, db`nextCourse
    ensures db.Valid()
    ensures db.courses == Courses(c0, |CourseRows|) && db.nextCourse == c0 + 3 && c0 in db.courses
  {
    InsertSeedCourse(db, c0, 0);
    InsertSeedCourse(db, c0, 1);
    InsertSeedCourse(db, c0, 2);
  }

  /** The three lecturer creates; the first that raises ends the command. */
  method SeedLecturers(db: Database, l0: nat) returns (r: Result<nat, StoreError>)
    requires db.Valid() && db.nextLecturer == l0
    modifies db`lecturers, db`nextLecturer
    ensures db.Valid()
    ensures r.Err? <==>
      || old(db.LecturerEmailTaken(LecturerRows[0].email))
      || old(db.LecturerEmailTaken(LecturerRows[1].email))
      || old(db.LecturerEmailTaken(LecturerRows[2].email))
    ensures r.Ok? ==> r.value == l0 && db.lecturers == old(db.lecturers) + Lecturers(l0, |LecturerRows|) && db.nextLecturer == l0 + 3
  {
    ghost var base := db.lecturers;
    assert base + Lecturers(l0, 0) == base;
    r := InsertSeedLecturer(db, base, l0, 0);
    if r.Err? {
      return;
    }
    r := InsertSeedLecturer(db, base, l0, 1);
    if r.Err? {
      return;
    }
    r := InsertSeedLecturer(db, base, l0, 2);
    if r.Err? {
      return;
    }
    r := Ok(l0);
  }

  /** Every seeded subject's course and lecturer is a seeded one. */
  lemma SubjectKeysSeeded(c0: nat, l0: nat)
    ensures forall n :: 0 <= n < |SubjectRows| ==>
      SubjectRow(n, c0, l0).course in Courses(c0, |CourseRows|) && SubjectRow(n, c0, l0).lecturer in Lecturers(l0, |LecturerRows|)
  {
  }

  /** The three subject creates of one course block, rows `3 * g` to
      `3 * g + 2`. */
  method SeedSubjectBlock(db: Database, s0: nat, c0: nat, l0: nat, g: nat)
    requires db.Valid() && g < 3
    requires db.subjects == Subjects(s0, c0, l0, 3 * g) && db.nextSubject == s0 + 3 * g
    requires forall n :: 0 <= n < |SubjectRows| ==>
      SubjectRow(n, c0, l0).course in db.courses && SubjectRow(n, c0, l0).lecturer in db.lecturers
    modifies db`subjects, db`nextSubject
    ensures db.Valid()
    ensures db.subjects == Subjects(s0, c0, l0, 3 * g + 3) && db.nextSubject == s0 + 3 * g + 3
  {
    InsertSeedSubject(db, s0, c0, l0, 3 * g);
    InsertSeedSubject(db, s0, c0, l0, 3 * g + 1);
    InsertSeedSubject(db, s0, c0, l0, 3 * g + 2);
  }

  /** The nine subject creates, three per course. */
  method SeedSubjects(db: Database, s0: nat, c0: nat, l0: nat)
    requires db.Valid() && db.subjects == map[] && db.nextSubject == s0
    requires db.courses == Courses(c0, |CourseRows|) && Lecturers(l0, |LecturerRows|).Keys <= db.lecturers.Keys
    modifies db`subjects, db`nextSubject
    ensures db.Valid()
    ensures db.subjects == Subjects(s0, c0, l0, |SubjectRows|) && db.nextSubject == s0 + 9
  {
    SubjectKeysSeeded(c0, l0);
    SeedSubjectBlock(db, s0, c0, l0, 0);
    SeedSubjectBlock(db, s0, c0, l0, 1);
    SeedSubjectBlock(db, s0, c0, l0, 2);
  }

  /** Every seeded student's course and subjects are seeded rows. */
  lemma StudentKeysSeeded(s0: nat, c0: nat, l0: nat)
    ensures forall n :: 0 <= n < |StudentRows| ==>
      StudentRow(n, c0).course in Courses(c0, |CourseRows|) && SubjectIds(n, s0) <= Subjects(s0, c0, l0, |SubjectRows|).Keys
  {
    forall n | 0 <= n < |StudentRows| ensures SubjectIds(n, s0) <= Subjects(s0, c0, l0, |SubjectRows|).Keys {
      SubjectIdsExist(n, s0, c0, l0);
    }
  }

  /** The three students of one course block, rows `3 * g` to `3 * g + 2`,
      each created and then given its subjects. */
  method SeedStudentBlock(db: Database, st0: nat, s0: nat, c0: nat, g: nat)
    requires db.Valid() && g < 3
    requires db.students == Students(st0, c0, 3 * g) && db.nextStudent == st0 + 3 * g
    requires db.enrolments == Enrolments(st0, s0, 3 * g)
    requires forall n :: 0 <= n < |StudentRows| ==>
      StudentRow(n, c0).course in db.courses && SubjectIds(n, s0) <= db.subjects.Keys
    modifies db`students, db`nextStudent, db`enrolments
    ensures db.Valid()
    ensures db.students == Students(st0, c0, 3 * g + 3) && db.nextStudent == st0 + 3 * g + 3
    ensures db.enrolments == Enrolments(st0, s0, 3 * g + 3)
  {
    InsertSeedStudent(db, st0, s0, c0, 3 * g);
    InsertSeedStudent(db, st0, s0, c0, 3 * g + 1);
    InsertSeedStudent(db, st0, s0, c0, 3 * g + 2);
  }

  /** The nine students, three per course. */
  method SeedStudents(db: Database, st0: nat, s0: nat, c0: nat, l0: nat)
    requires db.Valid() && db.students == map[] && db.enrolments == {} && db.nextStudent == st0
    requires db.courses == Courses(c0, |CourseRows|) && db.subjects == Subjects(s0, c0, l0, |SubjectRows|)
    modifies db`students, db`nextStudent, db`enrolments
    ensures db.Valid()
    ensures db.students == Students(st0, c0, |StudentRows|) && db.nextStudent == st0 + 9
    ensures db.enrolments == Enrolments(st0, s0, |StudentRows|)
  {
    StudentKeysSeeded(s0, c0, l0);
    SeedStudentBlock(db, st0, s0, c0, 0);
    SeedStudentBlock(db, st0, s0, c0, 1);
    SeedStudentBlock(db, st0, s0, c0, 2);
  }

  /** Without courses there can be no subjects, no students and no
      enrolments, since each of them leads to a course. */
  lemma NoCoursesNoRows(
    courses: map<nat, Course>, lecturers: map<nat, Lecturer>, subjects: map<nat, Subject>,
    students: map<nat, Student>, enrolments: set<Enrolment>)
    requires SubjectKeysExist(subjects, courses, lecturers) && StudentKeysExist(students, courses)
    requires EnrolmentKeysExist(enrolments, students, subjects)
    requires courses == map[]
    ensures subjects == map[] && students == map[] && enrolments == {}
  {
  }

  /** The inserts of `handle` on a database without courses. */
  method Seed(db: Database) returns (outcome: SeedOutcome)
    requires db.Valid() && db.courses == map[]
    modifies db
    ensures db.Valid()
    ensures outcome != Skipped
    ensures db.courses == Courses(old(db.nextCourse), |CourseRows|) && old(db.nextCourse) in db.courses
    ensures outcome == Seeded <==>
      && !old(db.LecturerEmailTaken(LecturerRows[0].email))
      && !old(db.LecturerEmailTaken(LecturerRows[1].email))
      && !old(db.LecturerEmailTaken(LecturerRows[2].email))
    ensures outcome == Seeded ==>
      && db.lecturers == old(db.lecturers) + Lecturers(old(db.nextLecturer), |LecturerRows|)
      && db.subjects == Subjects(old(db.nextSubject), old(db.nextCourse), old(db.nextLecturer), |SubjectRows|)
      && db.students == Students(old(db.nextStudent), old(db.nextCourse), |StudentRows|)
      && db.enrolments == Enrolments(old(db.nextStudent), old(db.nextSubject), |StudentRows|)
  {
    NoCoursesNoRows(db.courses, db.lecturers, db.subjects, db.students, db.enrolments);
    var c0, l0, s0, st0 := db.nextCourse, db.nextLecturer, db.nextSubject, db.nextStudent;
    SeedCourses(db, c0);
    var r := SeedLecturers(db, l0);
    if r.Err? {
      return Failed;
    }
    SeedSubjects(db, s0, c0, l0);
    SeedStudents(db, st0, s0, c0, l0);
    return Seeded;
  }

  /** `Command.handle`: nothing happens when a course exists; otherwise the
      fixed rows are inserted. Only a lecturer email can already be taken,
      since the other tables are empty when no course exists. */
  method Handle(db: Database) returns (outcome: SeedOutcome)
    requires db.Valid()
    modifies db
    ensures db.Valid()
    ensures outcome == Skipped <==> old(db.courses) != map[]
    ensures outcome == Skipped ==> unchanged(db)
    ensures outcome != Skipped ==> db.courses == Courses(old(db.nextCourse), |CourseRows|) && db.courses != map[]
    ensures outcome == Seeded <==>
      && old(db.courses) == map[]
      && !old(db.LecturerEmailTaken(LecturerRows[0].email))
      && !old(db.LecturerEmailTaken(LecturerRows[1].email))
      && !old(db.LecturerEmailTaken(LecturerRows[2].email))
    ensures outcome == Seeded ==>
      && db.lecturers == old(db.lecturers) + Lecturers(old(db.nextLecturer), |LecturerRows|)
      && db.subjects == Subjects(old(db.nextSubject), old(db.nextCourse), old(db.nextLecturer), |SubjectRows|)
      && db.students == Students(old(db.nextStudent), old(db.nextCourse), |StudentRows|)
      && db.enrolments == Enrolments(old(db.nextStudent), old(db.nextSubject), |StudentRows|)
  {
    if db.courses != map[] {
      return Skipped;
    }
    outcome := Seed(db);
  }

  /** Running the command again after it did not skip changes nothing: the
      second run finds a course and skips. */
  method HandleTwice(db: Database) returns (first: SeedOutcome, second: SeedOutcome)
    requires db.Valid()
    modifies db
    ensures db.Valid()
    ensures first == Skipped ==> second == Skipped && unchanged(db)
    ensures second == Skipped
    ensures first == Seeded ==>
      && db.courses == Courses(old(db.nextCourse), |CourseRows|)
      && db.lecturers == old(db.lecturers) + Lecturers(old(db.nextLecturer), |LecturerRows|)
      && db.subjects == Subjects(old(db.nextSubject), old(db.nextCourse), old(db.nextLecturer), |SubjectRows|)
      && db.students == Students(old(db.nextStudent), old(db.nextCourse), |StudentRows|)
      && db.enrolments == Enrolments(old(db.nextStudent), old(db.nextSubject), |StudentRows|)
  {
    first := Handle(db);
    second := Handle(db);
  }

  // ---------------------------------------------------------------------
  // The seeded store

  /** A table whose keys are the `n` ids from `b` has `n` rows. */
  lemma {:induction false} RangeSize<T>(m: map<nat, T>, b: nat, n: nat)
    requires forall k :: k in m <==> b <= k < b + n
    ensures |m| == n
    decreases n
  {
    if n == 0 {
      assert m.Keys == {};
    } else {
      var rest := m - {b + n - 1};
      RangeSize(rest, b, n - 1);
      assert m.Keys == rest.Keys + {b + n - 1};
    }
  }

  /** Seeding creates 3 courses, 3 lecturers, 9 subjects and 9 students. */
  lemma SeedCounts(c0: nat, l0: nat, s0: nat, st0: nat)
    ensures |Courses(c0, |CourseRows|)| == 3 && |Lecturers(l0, |LecturerRows|)| == 3
    ensures |Subjects(s0, c0, l0, |SubjectRows|)| == 9 && |Students(st0, c0, |StudentRows|)| == 9
  {
    RangeSize(Courses(c0, |CourseRows|), c0, 3);
    RangeSize(Lecturers(l0, |LecturerRows|), l0, 3);
    RangeSize(Subjects(s0, c0, l0, |SubjectRows|), s0, 9);
    RangeSize(Students(st0, c0, |StudentRows|), st0, 9);
  }

  /** The seeded names and emails obey the unique constraints. */
  lemma SeedIsUnique(c0: nat, l0: nat, s0: nat, st0: nat)
    ensures UniqueCourseNames(Courses(c0, |CourseRows|))
    ensures UniqueLecturerEmails(Lecturers(l0, |LecturerRows|))
    ensures UniqueSubjectPerCourse(Subjects(s0, c0, l0, |SubjectRows|))
    ensures UniqueStudentEmails(Students(st0, c0, |StudentRows|))
  {
    CourseNamesDistinct();
    LecturerEmailsDistinct();
    SubjectNamesDistinctPerCourse();
    StudentEmailsDistinct();
    var subjects := Subjects(s0, c0, l0, |SubjectRows|);
    forall a, b | a in subjects && b in subjects && a != b
      ensures subjects[a].name != subjects[b].name || subjects[a].course != subjects[b].course
    {
      if a - s0 < b - s0 {
        assert SubjectRows[a - s0].course == SubjectRows[b - s0].course ==> SubjectRows[a - s0].name != SubjectRows[b - s0].name;
      } else {
        assert SubjectRows[b - s0].course == SubjectRows[a - s0].course ==> SubjectRows[b - s0].name != SubjectRows[a - s0].name;
      }
    }
  }

  /** Every seeded enrolment joins a student and a subject of one course. */
  lemma SeedKeepsCourseRule(st0: nat, s0: nat, c0: nat, l0: nat)
    ensures EnrolmentsWithinCourse(Students(st0, c0, |StudentRows|), Subjects(s0, c0, l0, |SubjectRows|), Enrolments(st0, s0, |StudentRows|))
  {
    forall e | e in Enrolments(st0, s0, |StudentRows|)
      ensures e.student in Students(st0, c0, |StudentRows|) && e.subject in Subjects(s0, c0, l0, |SubjectRows|)
      ensures Students(st0, c0, |StudentRows|)[e.student].course == Subjects(s0, c0, l0, |SubjectRows|)[e.subject].course
    {
      EnrolmentFromRow(st0, s0, |StudentRows|, e);
      var j :| 0 <= j < |StudentRows| && e.student == st0 + j && e.subject in SubjectIds(j, s0);
      StudentAt(st0, c0, j);
      SubjectIdsExist(j, s0, c0, l0);
    }
  }

  lemma StudentAt(st0: nat, c0: nat, j: nat)
    requires j < |StudentRows|
    ensures st0 + j in Students(st0, c0, |StudentRows|)
    ensures Students(st0, c0, |StudentRows|)[st0 + j].course == c0 + StudentRows[j].course
  {
    assert Students(st0, c0, |StudentRows|)[st0 + j] == StudentRow(j, c0);
  }

  lemma SubjectAt(s0: nat, c0: nat, l0: nat, t: nat)
    requires t < |SubjectRows|
    ensures s0 + t in Subjects(s0, c0, l0, |SubjectRows|)
    ensures Subjects(s0, c0, l0, |SubjectRows|)[s0 + t].course == c0 + SubjectRows[t].course
  {
    assert Subjects(s0, c0, l0, |SubjectRows|)[s0 + t] == SubjectRow(t, c0, l0);
  }

  /** A seeded enrolment comes from one student row and one of its subjects. */
  lemma {:induction false} EnrolmentFromRow(st0: nat, s0: nat, n: nat, e: Enrolment)
    requires n <= |StudentRows| && e in Enrolments(st0, s0, n)
    ensures exists j :: 0 <= j < n && e.student == st0 + j && e.subject in SubjectIds(j, s0)
  {
    if e !in Enrolments(st0, s0, n - 1) {
      var k :| k in SubjectIds(n - 1, s0) && e == Enrolment(st0 + n - 1, k);
      assert 0 <= n - 1 < n && e.student == st0 + (n - 1) && e.subject in SubjectIds(n - 1, s0);
    } else {
      EnrolmentFromRow(st0, s0, n - 1, e);
    }
  }

  /** The create payload of the `j`-th seeded student, with its subjects as
      the validator sees them. */
  function SeedPayload(j: nat, s0: nat, c0: nat): StudentSerializers.StudentData
    requires j < |StudentRows|
  {
    var r := StudentRows[j];
    var subjects := seq(|r.subjects|, i requires 0 <= i < |r.subjects| =>
      Row(s0 + r.subjects[i], c0 + if r.subjects[i] < |SubjectRows| then SubjectRows[r.subjects[i]].course else 0));
    StudentSerializers.StudentData(
      map["first_name" := r.firstName, "last_name" := r.lastName, "email" := r.email, "date_of_birth" := r.dateOfBirth],
      Some(c0 + r.course), Some(subjects))
  }

  /** Every seeded student, written through the API instead, would pass
      `StudentSerializer.validate`. */
  lemma SeedPassesStudentValidation(j: nat, s0: nat, c0: nat)
    requires j < |StudentRows|
    ensures StudentSerializers.Validate(SeedPayload(j, s0, c0), None).Ok?
  {
    SubjectsWithinCourseRows();
  }

  /** The rows are listed course by course, three to a course. */
  lemma RowsByCourse()
    ensures forall i :: 0 <= i < |SubjectRows| ==> SubjectRows[i].course == i / 3
    ensures forall i :: 0 <= i < |StudentRows| ==> StudentRows[i].course == i / 3
  {
  }

  /** Nine subjects listed three to a course, from course `c0` on. */
  lemma SubjectsThreeToACourse(m: map<nat, Subject>, s0: nat, c0: nat, g: nat)
    requires forall k :: k in m <==> s0 <= k < s0 + 9
    requires forall k :: k in m ==> m[k].course == c0 + (k - s0) / 3
    requires g < 3
    ensures SubjectsOfCourse(m, c0 + g) == {s0 + 3 * g, s0 + 3 * g + 1, s0 + 3 * g + 2}
    ensures |SubjectsOfCourse(m, c0 + g)| == 3
  {
  }

  /** Nine students listed three to a course, from course `c0` on. */
  lemma StudentsThreeToACourse(m: map<nat, Student>, st0: nat, c0: nat, g: nat)
    requires forall k :: k in m <==> st0 <= k < st0 + 9
    requires forall k :: k in m ==> m[k].course == c0 + (k - st0) / 3
    requires g < 3
    ensures StudentsOfCourse(m, c0 + g) == {st0 + 3 * g, st0 + 3 * g + 1, st0 + 3 * g + 2}
    ensures |StudentsOfCourse(m, c0 + g)| == 3
  {
  }

  /** Each course gets three subjects. */
  lemma ThreeSubjectsPerCourse(c0: nat, l0: nat, s0: nat, g: nat)
    requires g < 3
    ensures SubjectsOfCourse(Subjects(s0, c0, l0, |SubjectRows|), c0 + g) == {s0 + 3 * g, s0 + 3 * g + 1, s0 + 3 * g + 2}
    ensures |SubjectsOfCourse(Subjects(s0, c0, l0, |SubjectRows|), c0 + g)| == 3
  {
    var m := Subjects(s0, c0, l0, |SubjectRows|);
    forall k | k in m ensures m[k].course == c0 + (k - s0) / 3 {
      assert m[k] == SubjectRow(k - s0, c0, l0);
      RowsByCourse();
    }
    SubjectsThreeToACourse(m, s0, c0, g);
  }

  /** Each course gets three students. */
  lemma ThreeStudentsPerCourse(c0: nat, st0: nat, g: nat)
    requires g < 3
    ensures StudentsOfCourse(Students(st0, c0, |StudentRows|), c0 + g) == {st0 + 3 * g, st0 + 3 * g + 1, st0 + 3 * g + 2}
    ensures |StudentsOfCourse(Students(st0, c0, |StudentRows|), c0 + g)| == 3
  {
    var m := Students(st0, c0, |StudentRows|);
    forall k | k in m ensures m[k].course == c0 + (k - st0) / 3 {
      assert m[k] == StudentRow(k - st0, c0);
      RowsByCourse();
    }
    StudentsThreeToACourse(m, st0, c0, g);
  }
}
