/** The relational store behind the API: the tables of `Course`, `Lecturer`
    and `Subject` (academics app) and `Student` with its many-to-many link to
    `Subject` (students app), with their uniqueness constraints, foreign keys
    and `on_delete` rules. Each table is a map from primary key to row; ids
    come from one increasing sequence per table, as PostgreSQL hands them out. */
module Store {
  import opened Common

  datatype Course = Course(name: string, description: string)
  datatype Lecturer = Lecturer(firstName: string, lastName: string, email: string)
  datatype Subject = Subject(name: string, description: string, course: nat, lecturer: nat)
  datatype Student = Student(firstName: string, lastName: string, email: string, dateOfBirth: string, course: nat)

  /** A row of the join table of `Student.subjects` (also `Subject.students`). */
  datatype Enrolment = Enrolment(student: nat, subject: nat)

  /** The database refused a write (a unique constraint was violated). */
  datatype StoreError = IntegrityError

  datatype DeleteOutcome = Deleted | Protected | NotFound

  // ---------------------------------------------------------------------
  // Constraints, stated on table values

  /** `Course.name` is `unique=True`. */
  predicate UniqueCourseNames(m: map<nat, Course>) {
    forall a, b :: a in m && b in m && a != b ==> m[a].name != m[b].name
  }

  /** `Lecturer.email` is `unique=True`. */
  predicate UniqueLecturerEmails(m: map<nat, Lecturer>) {
    forall a, b :: a in m && b in m && a != b ==> m[a].email != m[b].email
  }

  /** `Student.email` is `unique=True`. */
  predicate UniqueStudentEmails(m: map<nat, Student>) {
    forall a, b :: a in m && b in m && a != b ==> m[a].email != m[b].email
  }

  /** `unique_together = ("name", "course")` on `Subject`. */
  predicate UniqueSubjectPerCourse(m: map<nat, Subject>) {
    forall a, b :: a in m && b in m && a != b ==> m[a].name != m[b].name || m[a].course != m[b].course
  }

  /** Every key was drawn from a sequence that now stands at `next`. */
  predicate IdsBelow<T>(m: map<nat, T>, next: nat) {
    forall k :: k in m ==> 0 < k < next
  }

  /** `Subject.course` and `Subject.lecturer` name existing rows. */
  predicate SubjectKeysExist(subjects: map<nat, Subject>, courses: map<nat, Course>, lecturers: map<nat, Lecturer>) {
    forall k :: k in subjects ==> subjects[k].course in courses && subjects[k].lecturer in lecturers
  }

  /** `Student.course` names an existing row. */
  predicate StudentKeysExist(students: map<nat, Student>, courses: map<nat, Course>) {
    forall k :: k in students ==> students[k].course in courses
  }

  /** Both ends of every join-table row exist. */
  predicate EnrolmentKeysExist(enrolments: set<Enrolment>, students: map<nat, Student>, subjects: map<nat, Subject>) {
    forall e :: e in enrolments ==> e.student in students && e.subject in subjects
  }

  /** The business rule of the serializers: every enrolment joins a student
      and a subject of the same course. */
  predicate EnrolmentsWithinCourse(students: map<nat, Student>, subjects: map<nat, Subject>, enrolments: set<Enrolment>) {
    forall e :: e in enrolments && e.student in students && e.subject in subjects ==>
      students[e.student].course == subjects[e.subject].course
  }

  /** The same-course rule for every enrolment except those of subject `id`. */
  predicate EnrolmentsWithinCourseExcept(students: map<nat, Student>, subjects: map<nat, Subject>, enrolments: set<Enrolment>, id: nat) {
    forall e :: e in enrolments && e.subject != id && e.student in students && e.subject in subjects ==>
      students[e.student].course == subjects[e.subject].course
  }

  function SubjectsOfCourse(subjects: map<nat, Subject>, c: nat): set<nat> {
    set k | k in subjects && subjects[k].course == c
  }

  function StudentsOfCourse(students: map<nat, Student>, c: nat): set<nat> {
    set k | k in students && students[k].course == c
  }

  /** `student.subjects.all()`, as ids. */
  function SubjectsOf(enrolments: set<Enrolment>, student: nat): set<nat> {
    set e | e in enrolments && e.student == student :: e.subject
  }

  /** `subject.students.all()`, as ids. */
  function StudentsOf(enrolments: set<Enrolment>, subject: nat): set<nat> {
    set e | e in enrolments && e.subject == subject :: e.student
  }

  /** Both directions of the many-to-many field read the same join table. */
  lemma EnrolmentIsOneRelation(enrolments: set<Enrolment>, student: nat, subject: nat)
    ensures subject in SubjectsOf(enrolments, student) <==> student in StudentsOf(enrolments, subject)
  {
    if subject in SubjectsOf(enrolments, student) {
      var e :| e in enrolments && e.student == student && e.subject == subject;
    }
    if student in StudentsOf(enrolments, subject) {
      var e :| e in enrolments && e.subject == subject && e.student == student;
    }
  }

  /** The subjects that survive deleting `course` (`on_delete=CASCADE`). */
  function SubjectsOutside(subjects: map<nat, Subject>, course: nat): (r: map<nat, Subject>)
    ensures r.Keys <= subjects.Keys
    ensures forall k :: k in r <==> k in subjects && subjects[k].course != course
    ensures forall k :: k in r ==> r[k] == subjects[k]
  {
    map k | k in subjects && subjects[k].course != course :: subjects[k]
  }

  /** The cascade splits the subject table in two: the subjects of `course`,
      which go, and the survivors, which keep their rows; the subjects of
      every other course are exactly those they were. */
  lemma CascadeSplitsSubjects(subjects: map<nat, Subject>, course: nat)
    ensures SubjectsOutside(subjects, course).Keys + SubjectsOfCourse(subjects, course) == subjects.Keys
    ensures SubjectsOutside(subjects, course).Keys * SubjectsOfCourse(subjects, course) == {}
    ensures SubjectsOfCourse(SubjectsOutside(subjects, course), course) == {}
    ensures forall c :: c != course ==>
      SubjectsOfCourse(SubjectsOutside(subjects, course), c) == SubjectsOfCourse(subjects, c)
  {
  }

  /** The join-table rows whose subject is still in `subjects`. */
  function EnrolmentsOf(enrolments: set<Enrolment>, subjects: map<nat, Subject>): (r: set<Enrolment>)
    ensures forall e :: e in r <==> e in enrolments && e.subject in subjects
  {
    set e | e in enrolments && e.subject in subjects
  }

  /** Deleting a course without students, with its cascade, keeps every
      constraint of the tables. */
  lemma CourseCascadeKeepsConstraints(
    courses: map<nat, Course>, lecturers: map<nat, Lecturer>, subjects: map<nat, Subject>,
    students: map<nat, Student>, enrolments: set<Enrolment>, id: nat, nextCourse: nat, nextSubject: nat)
    requires IdsBelow(courses, nextCourse) && IdsBelow(subjects, nextSubject)
    requires UniqueCourseNames(courses) && UniqueSubjectPerCourse(subjects)
    requires SubjectKeysExist(subjects, courses, lecturers) && StudentKeysExist(students, courses)
    requires EnrolmentKeysExist(enrolments, students, subjects)
    requires StudentsOfCourse(students, id) == {}
    ensures IdsBelow(courses - {id}, nextCourse) && UniqueCourseNames(courses - {id})
    ensures IdsBelow(SubjectsOutside(subjects, id), nextSubject)
    ensures UniqueSubjectPerCourse(SubjectsOutside(subjects, id))
    ensures SubjectKeysExist(SubjectsOutside(subjects, id), courses - {id}, lecturers)
    ensures StudentKeysExist(students, courses - {id})
    ensures EnrolmentKeysExist(EnrolmentsOf(enrolments, SubjectsOutside(subjects, id)), students, SubjectsOutside(subjects, id))
    ensures SubjectsOfCourse(SubjectsOutside(subjects, id), id) == {}
  {
    forall k | k in students ensures students[k].course != id {
      assert k !in StudentsOfCourse(students, id);
    }
  }

  class Database {
    var courses: map<nat, Course>
    var lecturers: map<nat, Lecturer>
    var subjects: map<nat, Subject>
    var students: map<nat, Student>
    var enrolments: set<Enrolment>
    // the next value of each table's id sequence
    var nextCourse: nat
    var nextLecturer: nat
    var nextSubject: nat
    var nextStudent: nat

    /** The database's constraints: ids come from the sequences, unique
        columns are unique, and every foreign key names an existing row. */
    ghost predicate Valid()
      reads this
    {
      && 0 < nextCourse && 0 < nextLecturer && 0 < nextSubject && 0 < nextStudent
      && IdsBelow(courses, nextCourse)
      && IdsBelow(lecturers, nextLecturer)
      && IdsBelow(subjects, nextSubject)
      && IdsBelow(students, nextStudent)
      && UniqueCourseNames(courses)
      && UniqueLecturerEmails(lecturers)
      && UniqueSubjectPerCourse(subjects)
      && UniqueStudentEmails(students)
      && SubjectKeysExist(subjects, courses, lecturers)
      && StudentKeysExist(students, courses)
      && EnrolmentKeysExist(enrolments, students, subjects)
    }

    predicate CourseNameTaken(name: string)
      reads this
    {
      exists k :: k in courses && courses[k].name == name
    }

    predicate LecturerEmailTaken(email: string)
      reads this
    {
      exists k :: k in lecturers && lecturers[k].email == email
    }

    predicate StudentEmailTaken(email: string)
      reads this
    {
      exists k :: k in students && students[k].email == email
    }

    /** Some subject other than `except` has this (name, course) pair. */
    predicate SubjectNameTaken(name: string, course: nat, except: nat)
      reads this
    {
      exists k :: k in subjects && k != except && subjects[k].name == name && subjects[k].course == course
    }

    ghost predicate SameCourseRule()
      reads this
    {
      EnrolmentsWithinCourse(students, subjects, enrolments)
    }

    constructor ()
      ensures Valid()
      ensures courses == map[] && lecturers == map[] && subjects == map[] && students == map[]
      ensures enrolments == {}
      ensures nextCourse == 1 && nextLecturer == 1 && nextSubject == 1 && nextStudent == 1
    {
      courses, lecturers, subjects, students := map[], map[], map[], map[];
      enrolments := {};
      nextCourse, nextLecturer, nextSubject, nextStudent := 1, 1, 1, 1;
    }

    /** `Course.objects.create`. The id is drawn from the sequence even when
        the row is refused. */
    method InsertCourse(name: string, description: string) returns (r: Result<nat, StoreError>)
      requires Valid()
      modifies this`courses, this`nextCourse
      ensures Valid()
      ensures r.Err? <==> old(CourseNameTaken(name))
      ensures r.Ok? ==> r.value == old(nextCourse) && courses == old(courses)[r.value := Course(name, description)]
      ensures r.Err? ==> courses == old(courses)
      ensures nextCourse == old(nextCourse) + 1
    {
      var id := nextCourse;
      nextCourse := nextCourse + 1;
      if exists k :: k in courses && courses[k].name == name {
        return Err(IntegrityError);
      }
      courses := courses[id := Course(name, description)];
      return Ok(id);
    }

    /** `Lecturer.objects.create`. */
    method InsertLecturer(firstName: string, lastName: string, email: string) returns (r: Result<nat, StoreError>)
      requires Valid()
      modifies this`lecturers, this`nextLecturer
      ensures Valid()
      ensures r.Err? <==> old(LecturerEmailTaken(email))
      ensures r.Ok? ==> r.value == old(nextLecturer) && lecturers == old(lecturers)[r.value := Lecturer(firstName, lastName, email)]
      ensures r.Err? ==> lecturers == old(lecturers)
      ensures nextLecturer == old(nextLecturer) + 1
    {
      var id := nextLecturer;
      nextLecturer := nextLecturer + 1;
      if exists k :: k in lecturers && lecturers[k].email == email {
        return Err(IntegrityError);
      }
      lecturers := lecturers[id := Lecturer(firstName, lastName, email)];
      return Ok(id);
    }

    /** `Subject.objects.create`, for a course and a lecturer that exist. */
    method InsertSubject(name: string, description: string, course: nat, lecturer: nat) returns (r: Result<nat, StoreError>)
      requires Valid()
      requires course in courses && lecturer in lecturers
      modifies this`subjects, this`nextSubject
      ensures Valid()
      ensures r.Err? <==> old(SubjectNameTaken(name, course, nextSubject))
      ensures r.Ok? ==> r.value == old(nextSubject) && subjects == old(subjects)[r.value := Subject(name, description, course, lecturer)]
      ensures r.Err? ==> subjects == old(subjects)
      ensures nextSubject == old(nextSubject) + 1
    {
      var id := nextSubject;
      nextSubject := nextSubject + 1;
      if exists k :: k in subjects && k != id && subjects[k].name == name && subjects[k].course == course {
        return Err(IntegrityError);
      }
      subjects := subjects[id := Subject(name, description, course, lecturer)];
      return Ok(id);
    }

    /** `instance.save()` of an existing subject with new column values. */
    method UpdateSubject(id: nat, row: Subject) returns (r: Result<nat, StoreError>)
      requires Valid()
      requires id in subjects && row.course in courses && row.lecturer in lecturers
      modifies this`subjects
      ensures Valid()
      ensures r.Err? <==> old(SubjectNameTaken(row.name, row.course, id))
      ensures r.Ok? ==> r.value == id && subjects == old(subjects)[id := row]
      ensures r.Err? ==> subjects == old(subjects)
    {
      if exists k :: k in subjects && k != id && subjects[k].name == row.name && subjects[k].course == row.course {
        return Err(IntegrityError);
      }
      subjects := subjects[id := row];
      return Ok(id);
    }

    /** `Student.objects.create`, for a course that exists. */
    method InsertStudent(firstName: string, lastName: string, email: string, dateOfBirth: string, course: nat)
      returns (r: Result<nat, StoreError>)
      requires Valid()
      requires course in courses
      modifies this`students, this`nextStudent
      ensures Valid()
      ensures r.Err? <==> old(StudentEmailTaken(email))
      ensures r.Ok? ==>
        r.value == old(nextStudent) && students == old(students)[r.value := Student(firstName, lastName, email, dateOfBirth, course)]
      ensures r.Err? ==> students == old(students)
      ensures nextStudent == old(nextStudent) + 1
    {
      var id := nextStudent;
      nextStudent := nextStudent + 1;
      if exists k :: k in students && students[k].email == email {
        return Err(IntegrityError);
      }
      students := students[id := Student(firstName, lastName, email, dateOfBirth, course)];
      return Ok(id);
    }

    /** `student.subjects.set(ids)`: afterwards the student's subjects are
        exactly `ids`; every other student's enrolments are untouched. */
    method SetStudentSubjects(student: nat, ids: set<nat>)
      requires Valid()
      requires student in students && ids <= subjects.Keys
      modifies this`enrolments
      ensures Valid()
      ensures enrolments == (set e | e in old(enrolments) && e.student != student) + (set k | k in ids :: Enrolment(student, k))
      ensures SubjectsOf(enrolments, student) == ids
    {
      enrolments := (set e | e in enrolments && e.student != student) + (set k | k in ids :: Enrolment(student, k));
      assert forall k :: k in ids ==> Enrolment(student, k) in enrolments;
    }

    /** `subject.students.set(ids)`: afterwards the subject's students are
        exactly `ids`; every other subject's enrolments are untouched. */
    method SetSubjectStudents(subject: nat, ids: set<nat>)
      requires Valid()
      requires subject in subjects && ids <= students.Keys
      modifies this`enrolments
      ensures Valid()
      ensures enrolments == (set e | e in old(enrolments) && e.subject != subject) + (set k | k in ids :: Enrolment(k, subject))
      ensures StudentsOf(enrolments, subject) == ids
    {
      enrolments := (set e | e in enrolments && e.subject != subject) + (set k | k in ids :: Enrolment(k, subject));
      assert forall k :: k in ids ==> Enrolment(k, subject) in enrolments;
    }

    /** Deleting a course: refused (`PROTECT` of `Student.course`) while it
        has students; otherwise its subjects go with it (`CASCADE` of
        `Subject.course`), and so do their enrolments. */
    method DeleteCourse(id: nat) returns (outcome: DeleteOutcome)
      requires Valid()
      modifies this`courses, this`subjects, this`enrolments
      ensures Valid()
      ensures outcome == NotFound <==> id !in old(courses)
      ensures outcome == Protected <==> id in old(courses) && old(StudentsOfCourse(students, id)) != {}
      ensures outcome != Deleted ==> courses == old(courses) && subjects == old(subjects) && enrolments == old(enrolments)
      ensures outcome == Deleted ==>
        && courses == old(courses) - {id}
        && subjects == SubjectsOutside(old(subjects), id)
        && enrolments == EnrolmentsOf(old(enrolments), subjects)
      ensures outcome == Deleted ==> SubjectsOfCourse(subjects, id) == {}
    {
      if id !in courses {
        return NotFound;
      }
      if exists k :: k in students && students[k].course == id {
        var k :| k in students && students[k].course == id;
        assert k in StudentsOfCourse(students, id);
        return Protected;
      }
      assert StudentsOfCourse(students, id) == {};
      CourseCascadeKeepsConstraints(courses, lecturers, subjects, students, enrolments, id, nextCourse, nextSubject);
      var survivors := SubjectsOutside(subjects, id);
      courses, subjects, enrolments := courses - {id}, survivors, EnrolmentsOf(enrolments, survivors);
      return Deleted;
    }

    /** Deleting a lecturer: refused (`PROTECT` of `Subject.lecturer`) while a
        subject names them. */
    method DeleteLecturer(id: nat) returns (outcome: DeleteOutcome)
      requires Valid()
      modifies this`lecturers
      ensures Valid()
      ensures outcome == NotFound <==> id !in old(lecturers)
      ensures outcome == Protected <==> id in old(lecturers) && exists k :: k in subjects && subjects[k].lecturer == id
      ensures outcome != Deleted ==> lecturers == old(lecturers)
      ensures outcome == Deleted ==> lecturers == old(lecturers) - {id}
    {
      if id !in lecturers {
        return NotFound;
      }
      if exists k :: k in subjects && subjects[k].lecturer == id {
        return Protected;
      }
      lecturers := lecturers - {id};
      return Deleted;
    }

    /** Deleting a subject removes it and its enrolments; nothing protects it. */
    method DeleteSubject(id: nat) returns (outcome: DeleteOutcome)
      requires Valid()
      modifies this`subjects, this`enrolments
      ensures Valid()
      ensures outcome != Protected
      ensures outcome == NotFound <==> id !in old(subjects)
      ensures outcome == NotFound ==> subjects == old(subjects) && enrolments == old(enrolments)
      ensures outcome == Deleted ==>
        subjects == old(subjects) - {id} && enrolments == (set e | e in old(enrolments) && e.subject != id)
    {
      if id !in subjects {
        return NotFound;
      }
      subjects := subjects - {id};
      enrolments := set e | e in enrolments && e.subject != id;
      return Deleted;
    }

    /** Deleting a student removes it and its enrolments; nothing protects it. */
    method DeleteStudent(id: nat) returns (outcome: DeleteOutcome)
      requires Valid()
      modifies this`students, this`enrolments
      ensures Valid()
      ensures outcome != Protected
      ensures outcome == NotFound <==> id !in old(students)
      ensures outcome == NotFound ==> students == old(students) && enrolments == old(enrolments)
      ensures outcome == Deleted ==>
        students == old(students) - {id} && enrolments == (set e | e in old(enrolments) && e.student != id)
      ensures id !in students
    {
      if id !in students {
        return NotFound;
      }
      students := students - {id};
      enrolments := set e | e in enrolments && e.student != id;
      return Deleted;
    }
  }
}
