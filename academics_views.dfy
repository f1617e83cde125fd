/** The academics viewsets: which serializer each action uses, and the
    `destroy` actions, which turn a delete the database refuses into a
    400 response. */
module AcademicsViews {
  import opened Common
  import opened Store

  datatype ViewSet = CourseViewSet | LecturerViewSet | SubjectViewSet

  /** The actions of a `ModelViewSet`. */
  datatype Action = List | Create | Retrieve | Update | PartialUpdate | Destroy

  datatype SerializerClass =
    | CourseSerializer | CourseDetailSerializer
    | LecturerSerializer | LecturerDetailSerializer
    | SubjectSerializer | SubjectDetailSerializer

  /** The serializers that nest the related rows. */
  predicate IsDetail(c: SerializerClass) {
    c.CourseDetailSerializer? || c.LecturerDetailSerializer? || c.SubjectDetailSerializer?
  }

  /** The viewset whose model a serializer class serializes. */
  function ServedBy(c: SerializerClass): ViewSet {
    match c
    case CourseSerializer | CourseDetailSerializer => CourseViewSet
    case LecturerSerializer | LecturerDetailSerializer => LecturerViewSet
    case SubjectSerializer | SubjectDetailSerializer => SubjectViewSet
  }

  /** `get_serializer_class`: the detail serializer of the viewset's model for
      `retrieve`, the plain one for every other action. */
  function SerializerFor(v: ViewSet, a: Action): (c: SerializerClass)
    ensures ServedBy(c) == v
    ensures IsDetail(c) <==> a == Retrieve
  {
    match v
    case CourseViewSet => if a == Retrieve then CourseDetailSerializer else CourseSerializer
    case LecturerViewSet => if a == Retrieve then LecturerDetailSerializer else LecturerSerializer
    case SubjectViewSet => if a == Retrieve then SubjectDetailSerializer else SubjectSerializer
  }

  /** An HTTP response: its status and the `detail` of its body, if any. */
  datatype Response = Response(status: nat, detail: Option<string>)

  const NoContent := 204
  const BadRequest := 400
  const NotFoundStatus := 404

  const CourseProtectedDetail := "Cannot delete course while students exist. Remove/reassign students first."
  const LecturerProtectedDetail := "Cannot delete lecturer while subjects exist. Reassign subjects first."

  /** `CourseViewSet.destroy`: 204 when the course and its subjects are gone,
      400 with a fixed detail while it has students, 404 for an unknown id. */
  method DestroyCourse(db: Database, id: nat) returns (resp: Response)
    requires db.Valid()
    modifies db`courses, db`subjects, db`enrolments
    ensures db.Valid()
    ensures resp.status in {NoContent, BadRequest, NotFoundStatus}
    ensures resp.status == NotFoundStatus <==> id !in old(db.courses)
    ensures resp.status == BadRequest <==> id in old(db.courses) && old(StudentsOfCourse(db.students, id)) != {}
    ensures resp.status == BadRequest ==> resp.detail == Some(CourseProtectedDetail)
    ensures resp.status != NoContent ==>
      db.courses == old(db.courses) && db.subjects == old(db.subjects) && db.enrolments == old(db.enrolments)
    ensures resp.status == NoContent ==>
      && resp.detail == None && id !in db.courses
      && db.courses == old(db.courses) - {id}
      && db.subjects == SubjectsOutside(old(db.subjects), id)
      && db.enrolments == EnrolmentsOf(old(db.enrolments), db.subjects)
  {
    var outcome := db.DeleteCourse(id);
    match outcome
    case Deleted => resp := Response(NoContent, None);
    case Protected => resp := Response(BadRequest, Some(CourseProtectedDetail));
    case NotFound => resp := Response(NotFoundStatus, None);
  }

  /** `LecturerViewSet.destroy`: 204 when the lecturer is gone, 400 with a
      fixed detail while a subject names them, 404 for an unknown id. */
  method DestroyLecturer(db: Database, id: nat) returns (resp: Response)
    requires db.Valid()
    modifies db`lecturers
    ensures db.Valid()
    ensures resp.status in {NoContent, BadRequest, NotFoundStatus}
    ensures resp.status == NotFoundStatus <==> id !in old(db.lecturers)
    ensures resp.status == BadRequest <==>
      id in old(db.lecturers) && exists k :: k in db.subjects && db.subjects[k].lecturer == id
    ensures resp.status == BadRequest ==> resp.detail == Some(LecturerProtectedDetail)
    ensures resp.status != NoContent ==> db.lecturers == old(db.lecturers)
    ensures resp.status == NoContent ==> resp.detail == None && db.lecturers == old(db.lecturers) - {id}
  {
    var outcome := db.DeleteLecturer(id);
    match outcome
    case Deleted => resp := Response(NoContent, None);
    case Protected => resp := Response(BadRequest, Some(LecturerProtectedDetail));
    case NotFound => resp := Response(NotFoundStatus, None);
  }

  /** `SubjectViewSet` keeps the inherited `destroy`: 204 for an existing
      subject, which goes with its enrolments, and 404 otherwise. */
  method DestroySubject(db: Database, id: nat) returns (resp: Response)
    requires db.Valid()
    modifies db`subjects, db`enrolments
    ensures db.Valid()
    ensures resp.status == NoContent <==> id in old(db.subjects)
    ensures resp.status == NotFoundStatus <==> id !in old(db.subjects)
    ensures resp.status == NoContent ==>
      db.subjects == old(db.subjects) - {id} && db.enrolments == (set e | e in old(db.enrolments) && e.subject != id)
    ensures resp.status == NotFoundStatus ==> db.subjects == old(db.subjects) && db.enrolments == old(db.enrolments)
  {
    var outcome := db.DeleteSubject(id);
    if outcome == Deleted {
      resp := Response(NoContent, None);
    } else {
      resp := Response(NotFoundStatus, None);
    }
  }
}
