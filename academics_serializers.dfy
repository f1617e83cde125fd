/** `SubjectSerializer`: its `validate`, and its `create` and `update`, which
    write the subject's students. */
module SubjectSerializers {
  import opened Common
  import opened CourseRule
  import opened Store

  /** The payload after field validation; an omitted field is `None`. */
  datatype SubjectData = SubjectData(
    name: Option<string>, description: Option<string>,
    course: Option<nat>, lecturer: Option<nat>, students: Option<seq<Row>>)

  /** The subject being updated: its course, its lecturer and its students. */
  datatype SubjectInstance = SubjectInstance(course: nat, lecturer: nat, students: set<Row>)

  datatype ValidationError = NoCourse | NoLecturer | CourseChangeStrandsStudents | StudentsFromOtherCourse

  function Message(e: ValidationError): string {
    match e
    case NoCourse => "Subject must belong to a course."
    case NoLecturer => "Subject must have a lecturer."
    case CourseChangeStrandsStudents =>
      "Cannot change subject course while enrolled students are in a different course."
    case StudentsFromOtherCourse => "Cannot assign students from a different course to this subject."
  }

  /** The payload's course when it has one, else the stored subject's course. */
  function EffectiveCourse(data: SubjectData, instance: Option<SubjectInstance>): Option<nat> {
    if data.course.Some? then data.course
    else if instance.Some? then Some(instance.value.course)
    else None
  }

  /** The payload's lecturer when it has one, else the stored subject's lecturer. */
  function EffectiveLecturer(data: SubjectData, instance: Option<SubjectInstance>): Option<nat> {
    if data.lecturer.Some? then data.lecturer
    else if instance.Some? then Some(instance.value.lecturer)
    else None
  }

  /** The decision of `validate`. The course is checked first, then the
      lecturer, then the students against the effective course. */
  function Validate(data: SubjectData, instance: Option<SubjectInstance>): (r: Result<SubjectData, ValidationError>)
    ensures r.Ok? ==> r.value == data
    ensures r == Err(NoCourse) <==> EffectiveCourse(data, instance).None?
    ensures r == Err(NoLecturer) <==>
      EffectiveCourse(data, instance).Some? && EffectiveLecturer(data, instance).None?
    ensures EffectiveCourse(data, instance).Some? && EffectiveLecturer(data, instance).Some? && data.students.Some? ==>
      (r.Err? <==> exists i :: 0 <= i < |data.students.value|
                     && data.students.value[i].course != EffectiveCourse(data, instance).value)
    ensures EffectiveCourse(data, instance).Some? && EffectiveLecturer(data, instance).Some? && data.students.None?
            && instance.Some? && data.course.Some? ==>
      (r.Err? <==> exists x :: x in instance.value.students && x.course != data.course.value)
    ensures EffectiveLecturer(data, instance).Some? && data.students.None? && (instance.None? || data.course.None?) ==>
      (r.Ok? <==> EffectiveCourse(data, instance).Some?)
    ensures r == Err(StudentsFromOtherCourse) ==> data.students.Some?
    ensures r == Err(CourseChangeStrandsStudents) ==> data.students.None? && instance.Some? && data.course.Some?
  {
    var course := EffectiveCourse(data, instance);
    var lecturer := EffectiveLecturer(data, instance);
    if course.None? then Err(NoCourse)
    else if lecturer.None? then Err(NoLecturer)
    else if data.students.None? then
      if instance.Some? && data.course.Some? && OutsideSet(instance.value.students, course.value) != {} then
        Err(CourseChangeStrandsStudents)
      else
        Ok(data)
    else if OutsideIds(data.students.value, course.value) != [] then
      Err(StudentsFromOtherCourse)
    else
      Ok(data)
  }

  /** A create with neither a course nor a lecturer reports the course. */
  lemma CourseCheckedFirst(data: SubjectData)
    requires data.course.None? && data.lecturer.None?
    ensures Validate(data, None) == Err(NoCourse)
  {
  }

  /** A validated subject's students all lie in its course: the given list,
      or, when the list is omitted, the students it already had (provided the
      stored subject obeyed the rule). */
  lemma ValidatedWriteKeepsRule(data: SubjectData, instance: Option<SubjectInstance>)
    requires Validate(data, instance).Ok?
    ensures EffectiveCourse(data, instance).Some?
    ensures data.students.Some? ==> AllIn(RowSet(data.students.value), EffectiveCourse(data, instance).value)
    ensures data.students.None? && instance.Some? && AllIn(instance.value.students, instance.value.course) ==>
      AllIn(instance.value.students, EffectiveCourse(data, instance).value)
  {
    var course := EffectiveCourse(data, instance).value;
    if data.students.Some? {
      forall x | x in RowSet(data.students.value) ensures x.course == course {
        var i :| 0 <= i < |data.students.value| && data.students.value[i] == x;
      }
    }
  }

  // ---------------------------------------------------------------------
  // create and update, against the store

  /** The subject as `validate` sees it while `id` is being updated. */
  function InstanceOf(db: Database, id: nat): (inst: SubjectInstance)
    reads db
    requires id in db.subjects
    ensures inst.course == db.subjects[id].course && inst.lecturer == db.subjects[id].lecturer
    ensures forall x :: x in inst.students <==>
      Enrolment(x.id, id) in db.enrolments && x.id in db.students && x.course == db.students[x.id].course
  {
    SubjectInstance(db.subjects[id].course, db.subjects[id].lecturer,
      set e | e in db.enrolments && e.subject == id && e.student in db.students :: Row(e.student, db.students[e.student].course))
  }

  /** In a store whose join rows name stored students, the instance's rows
      are exactly the subject's students, one row per student, each carrying
      the course the student is stored with. */
  lemma InstanceIsTheSubjectsStudents(db: Database, id: nat)
    requires id in db.subjects
    requires EnrolmentKeysExist(db.enrolments, db.students, db.subjects)
    ensures (set x | x in InstanceOf(db, id).students :: x.id) == StudentsOf(db.enrolments, id)
    ensures forall x, y :: x in InstanceOf(db, id).students && y in InstanceOf(db, id).students && x.id == y.id ==> x == y
  {
    var inst := InstanceOf(db, id);
    forall k | k in StudentsOf(db.enrolments, id) ensures k in (set x | x in inst.students :: x.id) {
      var e :| e in db.enrolments && e.subject == id && e.student == k;
      assert Row(k, db.students[k].course) in inst.students;
    }
  }

  /** Every row of a payload list is a stored student, with its stored course
      (`PrimaryKeyRelatedField` resolves each id against the table). */
  predicate RowsAreStudents(db: Database, rows: seq<Row>)
    reads db
  {
    forall i :: 0 <= i < |rows| ==> rows[i].id in db.students && db.students[rows[i].id].course == rows[i].course
  }

  /** The stored row of an update: given columns replace the old ones. */
  function Updated(old_: Subject, data: SubjectData): (s: Subject)
    ensures data.name.Some? ==> s.name == data.name.value
    ensures data.name.None? ==> s.name == old_.name
    ensures data.description.Some? ==> s.description == data.description.value
    ensures data.description.None? ==> s.description == old_.description
    ensures s.course == data.course.GetOr(old_.course) && s.lecturer == data.lecturer.GetOr(old_.lecturer)
  {
    Subject(data.name.GetOr(old_.name), data.description.GetOr(old_.description),
      data.course.GetOr(old_.course), data.lecturer.GetOr(old_.lecturer))
  }

  /** An update is a partial overwrite: repeating it changes nothing more, an
      empty payload keeps the row, and a payload that gives every column
      yields the same row whatever was stored before. */
  lemma UpdatedLaws(old_: Subject, other: Subject, data: SubjectData)
    ensures Updated(Updated(old_, data), data) == Updated(old_, data)
    ensures data.name.None? && data.description.None? && data.course.None? && data.lecturer.None?
      ==> Updated(old_, data) == old_
    ensures data.name.Some? && data.description.Some? && data.course.Some? && data.lecturer.Some?
      ==> Updated(old_, data) == Updated(other, data)
  {
  }

  /** Changing the row of subject `id` only can break the rule only for the
      enrolments of `id`. */
  lemma RowChangeKeepsRuleElsewhere(
    students: map<nat, Student>, before: map<nat, Subject>, after: map<nat, Subject>, enrolments: set<Enrolment>, id: nat)
    requires forall k :: k in after && k != id ==> k in before && after[k] == before[k]
    requires EnrolmentsWithinCourse(students, before, enrolments)
    ensures EnrolmentsWithinCourseExcept(students, after, enrolments, id)
  {
  }

  /** Replacing the enrolments of subject `id` by enrolments of students of
      its course restores the rule, if it held for every other subject. */
  lemma ReplacingEnrolmentsKeepsRule(
    students: map<nat, Student>, subjects: map<nat, Subject>, old_: set<Enrolment>, new_: set<Enrolment>, id: nat)
    requires id in subjects
    requires EnrolmentsWithinCourseExcept(students, subjects, old_, id)
    requires forall e :: e in new_ ==>
      (e.subject != id && e in old_) || (e.subject == id && e.student in students && students[e.student].course == subjects[id].course)
    ensures EnrolmentsWithinCourse(students, subjects, new_)
  {
  }

  /** No join-table row names a subject id that is not yet in the table. */
  lemma FreshSubjectHasNoEnrolments(enrolments: set<Enrolment>, students: map<nat, Student>, subjects: map<nat, Subject>, id: nat)
    requires EnrolmentKeysExist(enrolments, students, subjects) && id !in subjects
    ensures StudentsOf(enrolments, id) == {}
    ensures forall e :: e in enrolments ==> e.subject != id
  {
  }

  /** After `set` with the ids of a list whose rows are stored students of
      `course`, every student of subject `id` is in `course`. */
  lemma ListedStudentsInCourse(students: map<nat, Student>, rows: seq<Row>, course: nat, enrolments: set<Enrolment>, id: nat)
    requires forall i :: 0 <= i < |rows| ==> rows[i].id in students && students[rows[i].id].course == rows[i].course
    requires AllIn(RowSet(rows), course)
    requires StudentsOf(enrolments, id) == IdSet(rows)
    ensures forall e :: e in enrolments && e.subject == id ==> e.student in students && students[e.student].course == course
  {
    forall e | e in enrolments && e.subject == id
      ensures e.student in students && students[e.student].course == course
    {
      assert e.student in StudentsOf(enrolments, id);
      var i :| 0 <= i < |rows| && rows[i].id == e.student;
      assert rows[i] in RowSet(rows);
    }
  }

  /** The students a subject keeps when its list is omitted lie in `course`
      when the validator's view of them does. */
  lemma KeptStudentsInCourse(students: map<nat, Student>, enrolments: set<Enrolment>, id: nat, kept: set<Row>, course: nat)
    requires forall x :: x in kept <==>
      Enrolment(x.id, id) in enrolments && x.id in students && x.course == students[x.id].course
    requires forall e :: e in enrolments ==> e.student in students
    requires AllIn(kept, course)
    ensures forall e :: e in enrolments && e.subject == id ==> students[e.student].course == course
  {
    forall e | e in enrolments && e.subject == id ensures students[e.student].course == course {
      assert Row(e.student, students[e.student].course) in kept;
    }
  }

  /** `subject.students.set(...)` with a list whose students all lie in the
      subject's course: the same-course rule survives the replacement. */
  method SetStudentsWithinCourse(db: Database, id: nat, rows: seq<Row>)
    requires db.Valid() && id in db.subjects
    requires RowsAreStudents(db, rows) && AllIn(RowSet(rows), db.subjects[id].course)
    modifies db`enrolments
    ensures db.Valid()
    ensures StudentsOf(db.enrolments, id) == IdSet(rows)
    ensures forall e: Enrolment :: e.subject != id ==> (e in db.enrolments <==> e in old(db.enrolments))
    ensures old(EnrolmentsWithinCourseExcept(db.students, db.subjects, db.enrolments, id)) ==> db.SameCourseRule()
  {
    ghost var enrolled := db.enrolments;
    ghost var rule := EnrolmentsWithinCourseExcept(db.students, db.subjects, db.enrolments, id);
    db.SetSubjectStudents(id, IdSet(rows));
    ListedStudentsInCourse(db.students, rows, db.subjects[id].course, db.enrolments, id);
    if rule {
      ReplacingEnrolmentsKeepsRule(db.students, db.subjects, enrolled, db.enrolments, id);
    }
  }

  /** `create`: insert the row, then, when the list is non-empty, set the
      students of the new subject to it. */
  method Create(db: Database, data: SubjectData) returns (r: Result<nat, StoreError>)
    requires db.Valid()
    requires data.name.Some? && data.course.Some? && data.lecturer.Some?
    requires data.course.value in db.courses && data.lecturer.value in db.lecturers
    requires data.students.Some? ==> RowsAreStudents(db, data.students.value)
    requires Validate(data, None).Ok?
    modifies db`subjects, db`nextSubject, db`enrolments
    ensures db.Valid()
    ensures r.Err? <==> old(db.SubjectNameTaken(data.name.value, data.course.value, db.nextSubject))
    ensures r.Ok? ==>
      r.value == old(db.nextSubject) && db.subjects == old(db.subjects)[r.value := Subject(data.name.value, data.description.GetOr(""), data.course.value, data.lecturer.value)]
    ensures r.Ok? ==> StudentsOf(db.enrolments, r.value) == (if data.students.Some? then IdSet(data.students.value) else {})
    ensures r.Ok? ==> forall e: Enrolment :: e.subject != r.value ==> (e in db.enrolments <==> e in old(db.enrolments))
    ensures r.Err? ==> db.subjects == old(db.subjects) && db.enrolments == old(db.enrolments)
    ensures old(db.SameCourseRule()) ==> db.SameCourseRule()
  {
    var students := data.students.GetOr([]);
    FreshSubjectHasNoEnrolments(db.enrolments, db.students, db.subjects, db.nextSubject);
    ghost var before := db.subjects;
    ghost var enrolled := db.enrolments;
    ghost var rule := db.SameCourseRule();
    r := db.InsertSubject(data.name.value, data.description.GetOr(""), data.course.value, data.lecturer.value);
    if r.Err? {
      return;
    }
    var id := r.value;
    assert rule ==> db.SameCourseRule() by {
      if rule {
        RowChangeKeepsRuleElsewhere(db.students, before, db.subjects, enrolled, id);
        ReplacingEnrolmentsKeepsRule(db.students, db.subjects, enrolled, db.enrolments, id);
      }
    }
    if students != [] {
      assert AllIn(RowSet(students), data.course.value) by {
        ValidatedWriteKeepsRule(data, None);
      }
      SetStudentsWithinCourse(db, id, students);
    } else {
      assert IdSet(students) == {};
    }
  }

  /** `super().update(instance, validated_data)`: save the (validated)
      columns of subject `id`. The students are not touched; the rule can
      only have become false for the enrolments of `id`, and not at all when
      no list is given. */
  method SaveColumns(db: Database, id: nat, data: SubjectData) returns (r: Result<nat, StoreError>)
    requires db.Valid() && id in db.subjects
    requires data.course.Some? ==> data.course.value in db.courses
    requires data.lecturer.Some? ==> data.lecturer.value in db.lecturers
    requires Validate(data, Some(InstanceOf(db, id))).Ok?
    modifies db`subjects
    ensures db.Valid()
    ensures r.Err? <==> old(db.SubjectNameTaken(Updated(db.subjects[id], data).name, Updated(db.subjects[id], data).course, id))
    ensures r.Ok? ==> r.value == id && db.subjects == old(db.subjects)[id := Updated(old(db.subjects[id]), data)]
    ensures r.Err? ==> db.subjects == old(db.subjects)
    ensures old(db.SameCourseRule()) ==> EnrolmentsWithinCourseExcept(db.students, db.subjects, db.enrolments, id)
    ensures old(db.SameCourseRule()) && data.students.None? ==> db.SameCourseRule()
    ensures r.Ok? && data.students.Some? ==> AllIn(RowSet(data.students.value), db.subjects[id].course)
  {
    ghost var before := db.subjects;
    ghost var inst := InstanceOf(db, id);
    ghost var rule := db.SameCourseRule();
    r := db.UpdateSubject(id, Updated(db.subjects[id], data));
    if r.Err? {
      return;
    }
    ValidatedWriteKeepsRule(data, Some(inst));
    if rule {
      RowChangeKeepsRuleElsewhere(db.students, before, db.subjects, db.enrolments, id);
      if data.students.None? {
        OmittedListKeepsRule(db.students, before, db.subjects, db.enrolments, id, data, inst);
      }
    }
  }

  /** `update`: save the changed columns, then, when a list is given, replace
      the subject's students by it; an omitted list leaves them alone. */
  method Update(db: Database, id: nat, data: SubjectData) returns (r: Result<nat, StoreError>)
    requires db.Valid() && id in db.subjects
    requires data.course.Some? ==> data.course.value in db.courses
    requires data.lecturer.Some? ==> data.lecturer.value in db.lecturers
    requires data.students.Some? ==> RowsAreStudents(db, data.students.value)
    requires Validate(data, Some(InstanceOf(db, id))).Ok?
    modifies db`subjects, db`enrolments
    ensures db.Valid()
    ensures r.Err? <==> old(db.SubjectNameTaken(Updated(db.subjects[id], data).name, Updated(db.subjects[id], data).course, id))
    ensures r.Ok? ==> r.value == id && db.subjects == old(db.subjects)[id := Updated(old(db.subjects[id]), data)]
    ensures r.Err? ==> db.subjects == old(db.subjects)
    ensures r.Err? || data.students.None? ==> db.enrolments == old(db.enrolments)
    ensures r.Ok? && data.students.Some? ==> StudentsOf(db.enrolments, id) == IdSet(data.students.value)
    ensures forall e: Enrolment :: e.subject != id ==> (e in db.enrolments <==> e in old(db.enrolments))
    ensures old(db.SameCourseRule()) ==> db.SameCourseRule()
  {
    r := SaveColumns(db, id, data);
    if r.Ok? && data.students.Some? {
      SetStudentsWithinCourse(db, id, data.students.value);
    }
  }

  /** An update without a student list that passed `validate` keeps the
      same-course rule: the subject's students are already in its new course. */
  lemma OmittedListKeepsRule(
    students: map<nat, Student>, before: map<nat, Subject>, after: map<nat, Subject>,
    enrolments: set<Enrolment>, id: nat, data: SubjectData, inst: SubjectInstance)
    requires id in before && id in after
    requires forall k :: k in after && k != id ==> k in before && after[k] == before[k]
    requires EnrolmentsWithinCourse(students, before, enrolments) && EnrolmentKeysExist(enrolments, students, before)
    requires inst.course == before[id].course
    requires forall x :: x in inst.students <==>
      Enrolment(x.id, id) in enrolments && x.id in students && x.course == students[x.id].course
    requires data.students.None? && Validate(data, Some(inst)).Ok?
    requires after[id].course == data.course.GetOr(before[id].course)
    ensures EnrolmentsWithinCourse(students, after, enrolments)
  {
    assert AllIn(inst.students, inst.course) by {
      forall x | x in inst.students ensures x.course == inst.course {
        var e := Enrolment(x.id, id);
        assert e in enrolments;
      }
    }
    ValidatedWriteKeepsRule(data, Some(inst));
    KeptStudentsInCourse(students, enrolments, id, inst.students, after[id].course);
    RowChangeKeepsRuleElsewhere(students, before, after, enrolments, id);
    ReplacingEnrolmentsKeepsRule(students, after, enrolments, enrolments, id);
  }
}
