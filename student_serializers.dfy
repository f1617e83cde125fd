/** `StudentSerializer.validate`: a student's subjects must belong to the
    student's course, both for a subject list in the payload and, when only
    the course changes, for the subjects the student already has. */
module StudentSerializers {
  import opened Common
  import opened CourseRule

  /** The payload after field validation: the columns the rule does not read
      (`fields`), the course if given, and the subject list if given. */
  datatype StudentData = StudentData(
    fields: map<string, string>, course: Option<nat>, subjects: Option<seq<Row>>)

  /** The student being updated: its course and its enrolled subjects. */
  datatype StudentInstance = StudentInstance(course: nat, subjects: set<Row>)

  datatype ValidationError = SubjectsOutsideCourse | CourseChangeStrandsSubjects

  function Message(e: ValidationError): string {
    match e
    case SubjectsOutsideCourse => "Student cannot enroll in subjects outside their course."
    case CourseChangeStrandsSubjects =>
      "Cannot change course while enrolled subjects are outside the new course. Clear/replace subjects."
  }

  /** The course of the payload if given, otherwise the instance's. */
  function EffectiveCourse(data: StudentData, instance: Option<StudentInstance>): (c: nat)
    requires data.course.Some? || instance.Some?
  {
    match data.course
    case Some(c) => c
    case None => instance.value.course
  }

  /** The decision of `validate`, on the payload and the optional instance.
      A course always exists: the payload's, or the instance's on an update. */
  function Validate(data: StudentData, instance: Option<StudentInstance>): (r: Result<StudentData, ValidationError>)
    requires data.course.Some? || instance.Some?
    ensures r.Ok? ==> r.value == data
    ensures data.subjects.Some? ==>
      (r.Err? <==> exists i :: 0 <= i < |data.subjects.value| && data.subjects.value[i].course != EffectiveCourse(data, instance))
    ensures data.subjects.Some? && r.Err? ==> r.error == SubjectsOutsideCourse
    ensures data.subjects.None? && instance.Some? && data.course.Some? ==>
      (r.Err? <==> exists x :: x in instance.value.subjects && x.course != data.course.value)
    ensures data.subjects.None? && r.Err? ==> r.error == CourseChangeStrandsSubjects
    ensures data.subjects.None? && (instance.None? || data.course.None?) ==> r.Ok?
  {
    var course := EffectiveCourse(data, instance);
    if data.subjects.Some? then
      if OutsideIds(data.subjects.value, course) != [] then Err(SubjectsOutsideCourse) else Ok(data)
    else if instance.Some? && data.course.Some? then
      if OutsideSet(instance.value.subjects, course) != {} then Err(CourseChangeStrandsSubjects) else Ok(data)
    else
      Ok(data)
  }

  /** The student's subjects once the write is applied: the payload's list if
      given, otherwise those it already had (none on a create). */
  function SubjectsAfter(data: StudentData, instance: Option<StudentInstance>): set<Row> {
    if data.subjects.Some? then RowSet(data.subjects.value)
    else if instance.Some? then instance.value.subjects
    else {}
  }

  /** A write that passes `validate` leaves a student whose subjects all lie in
      its (possibly new) course, provided the stored student obeyed the rule. */
  lemma ValidatedWriteKeepsRule(data: StudentData, instance: Option<StudentInstance>)
    requires data.course.Some? || instance.Some?
    requires instance.Some? ==> AllIn(instance.value.subjects, instance.value.course)
    requires Validate(data, instance).Ok?
    ensures AllIn(SubjectsAfter(data, instance), EffectiveCourse(data, instance))
  {
    var course := EffectiveCourse(data, instance);
    if data.subjects.Some? {
      forall x | x in RowSet(data.subjects.value) ensures x.course == course {
        var i :| 0 <= i < |data.subjects.value| && data.subjects.value[i] == x;
      }
    }
  }

  /** `validate` fails exactly when the written student would break the rule
      (for a payload that lists subjects, or changes only the course). */
  lemma ValidateRejectsExactlyViolations(data: StudentData, instance: Option<StudentInstance>)
    requires data.course.Some? || instance.Some?
    requires data.subjects.Some? || (instance.Some? && data.course.Some?)
    ensures Validate(data, instance).Ok? <==> AllIn(SubjectsAfter(data, instance), EffectiveCourse(data, instance))
  {
    var course := EffectiveCourse(data, instance);
    if data.subjects.Some? {
      var s := data.subjects.value;
      if !Validate(data, instance).Ok? {
        var i :| 0 <= i < |s| && s[i].course != course;
        assert s[i] in RowSet(s);
      }
    }
  }

  /** An empty subject list is never refused. */
  lemma EmptySubjectsAccepted(fields: map<string, string>, course: Option<nat>, instance: Option<StudentInstance>)
    requires course.Some? || instance.Some?
    ensures Validate(StudentData(fields, course, Some([])), instance) == Ok(StudentData(fields, course, Some([])))
  {
  }

  /** Creating a student of course 1 with a subject of course 1 succeeds. */
  lemma CreateWithMatchingSubject()
    ensures Validate(StudentData(map[], Some(1), Some([Row(10, 1)])), None).Ok?
  {
    assert OutsideIds([Row(10, 1)], 1) == [];
  }

  /** Creating a student of course 1 with a subject of course 2 fails. */
  lemma CreateWithForeignSubject()
    ensures Validate(StudentData(map[], Some(1), Some([Row(20, 2)])), None) == Err(SubjectsOutsideCourse)
  {
    assert [Row(20, 2)][0].course != 1;
  }

  /** Moving a student of course 1, enrolled in a subject of course 1, to
      course 2 without a new subject list fails. */
  lemma CourseChangeWithStrandedSubject()
    ensures Validate(StudentData(map[], Some(2), None), Some(StudentInstance(1, {Row(10, 1)})))
      == Err(CourseChangeStrandsSubjects)
  {
    assert Row(10, 1) in {Row(10, 1)};
  }
}
