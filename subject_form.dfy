/** The subject create/edit form (`SubjectFormComponent`): its fields, the
    handlers of its four loads, the student picker, and the submit step. An
    outgoing HTTP call is represented by the `Request` value a method returns. */
module SubjectFormComponent {
  import opened Common
  import opened Forms

  /** An entry of the lecturer drop-down. */
  datatype LecturerOption = LecturerOption(id: nat, firstName: string, lastName: string)

  /** A subject as `GET subjects/<id>` returns it to the form: the form
      fields, the ids of its course and lecturer, and the ids of its students. */
  datatype SubjectDetail = SubjectDetail(
    name: string, description: string, course: nat, lecturer: nat, students: seq<nat>)

  /** The body of a create or update call. */
  datatype SubjectPayload = SubjectPayload(
    name: string, description: string, course: nat, lecturer: nat, students: seq<nat>)

  datatype Request =
    | ListCourses
    | ListLecturers
    | ListStudents
    | GetSubject(lookup: NumericId)
    | CreateSubject(payload: SubjectPayload)
    | UpdateSubject(id: nat, payload: SubjectPayload)

  const SubjectsRoute := "/dashboard/subjects"
  const SaveFailedText := "Failed to save subject. Please try again."

  class SubjectForm {
    // the reactive form's controls; `course` and `lecturer` are `+value` of
    // their controls, 0 while they are empty
    var name: string
    var description: string
    var course: nat
    var lecturer: nat

    var isEdit: bool
    var subjectId: NumericId
    var loading: bool
    var courses: seq<CourseOption>
    var lecturers: seq<LecturerOption>
    var allStudents: seq<Candidate>
    var filteredStudents: seq<Candidate>
    var selectedStudents: seq<nat>

    /** The shown student list is always the students of the chosen course. */
    ghost predicate Valid()
      reads this
    {
      filteredStudents == Filtered(allStudents, course)
    }

    constructor ()
      ensures Valid()
      ensures name == description == "" && course == 0 && lecturer == 0
      ensures !isEdit && subjectId == Null && !loading
      ensures courses == [] && lecturers == []
      ensures allStudents == [] && filteredStudents == [] && selectedStudents == []
    {
      name, description, course, lecturer := "", "", 0, 0;
      isEdit, subjectId, loading := false, Null, false;
      courses, lecturers := [], [];
      allStudents, filteredStudents, selectedStudents := [], [], [];
    }

    /** Issues the three list loads and, for an edit route, the subject load. */
    method NgOnInit(routeId: Option<string>) returns (requests: seq<Request>)
      requires Valid()
      modifies this
      ensures Valid()
      ensures ModeFor(routeId).CreateMode? ==>
        isEdit == old(isEdit) && subjectId == old(subjectId)
        && requests == [ListCourses, ListLecturers, ListStudents]
      ensures ModeFor(routeId).EditMode? ==>
        isEdit && subjectId == ModeFor(routeId).id
        && requests == [ListCourses, ListLecturers, ListStudents, GetSubject(subjectId)]
      ensures name == old(name) && description == old(description)
      ensures course == old(course) && lecturer == old(lecturer) && loading == old(loading)
      ensures courses == old(courses) && lecturers == old(lecturers) && allStudents == old(allStudents)
      ensures filteredStudents == old(filteredStudents) && selectedStudents == old(selectedStudents)
    {
      requests := [ListCourses, ListLecturers, ListStudents];
      var mode := ModeFor(routeId);
      if mode.EditMode? {
        isEdit := true;
        subjectId := mode.id;
        requests := requests + [GetSubject(mode.id)];
      }
    }

    /** `next` of the course list load. */
    method OnCoursesLoaded(loaded: seq<CourseOption>)
      requires Valid()
      modifies this`courses
      ensures Valid()
      ensures courses == loaded
    {
      courses := loaded;
    }

    /** `next` of the lecturer list load. */
    method OnLecturersLoaded(loaded: seq<LecturerOption>)
      requires Valid()
      modifies this`lecturers
      ensures Valid()
      ensures lecturers == loaded
    {
      lecturers := loaded;
    }

    /** `next` of the student list load: store the list, then filter it. */
    method OnStudentsLoaded(loaded: seq<Candidate>)
      requires Valid()
      modifies this`allStudents, this`filteredStudents
      ensures Valid()
      ensures allStudents == loaded && filteredStudents == Filtered(loaded, course)
    {
      allStudents := loaded;
      FilterStudents();
    }

    /** `next` of the subject load: patch the form and take over the loaded
        student ids as the selection, without pruning them, then filter. */
    method OnSubjectLoaded(subject: SubjectDetail)
      requires Valid()
      modifies this
      ensures Valid()
      ensures name == subject.name && description == subject.description
      ensures course == subject.course && lecturer == subject.lecturer
      ensures selectedStudents == subject.students
      ensures filteredStudents == Filtered(allStudents, subject.course)
      ensures isEdit == old(isEdit) && subjectId == old(subjectId) && loading == old(loading)
      ensures courses == old(courses) && lecturers == old(lecturers) && allStudents == old(allStudents)
    {
      name, description := subject.name, subject.description;
      course, lecturer := subject.course, subject.lecturer;
      selectedStudents := subject.students;
      FilterStudents();
    }

    /** The course selector's change handler, with `c` the new value of the
        course control: filter, then drop selected students of other courses. */
    method OnCourseChange(c: nat)
      requires Valid()
      modifies this`course, this`filteredStudents, this`selectedStudents
      ensures Valid()
      ensures course == c && filteredStudents == Filtered(allStudents, c)
      ensures selectedStudents == Prune(old(selectedStudents), allStudents, c)
    {
      course := c;
      FilterStudents();
      selectedStudents := Prune(selectedStudents, allStudents, c);
    }

    method FilterStudents()
      modifies this`filteredStudents
      ensures Valid()
    {
      if course != 0 {
        filteredStudents := OfCourse(allStudents, course);
      } else {
        filteredStudents := [];
      }
    }

    /** `selectedStudents.includes(id)`. */
    function IsStudentSelected(id: nat): (b: bool)
      reads this
      ensures b <==> exists i :: 0 <= i < |selectedStudents| && selectedStudents[i] == id
    {
      id in selectedStudents
    }

    method ToggleStudent(id: nat)
      requires Valid()
      modifies this`selectedStudents
      ensures Valid()
      ensures selectedStudents == Toggle(old(selectedStudents), id)
    {
      var index := IndexOf(selectedStudents, id);
      if index > -1 {
        selectedStudents := selectedStudents[..index] + selectedStudents[index + 1..];
      } else {
        selectedStudents := selectedStudents + [id];
      }
    }

    /** Angular's validity of the form: name, course and lecturer are
        required; the description is not. */
    predicate FormInvalid()
      reads this
    {
      name == "" || course == 0 || lecturer == 0
    }

    /** The request `onSubmit` sends, built from the current state. */
    function SubmitRequest(): (r: Request)
      reads this
      ensures r.UpdateSubject? <==> ChoosesUpdate(isEdit, subjectId)
      ensures r.UpdateSubject? ==> r.id == subjectId.n && r.id != 0
      ensures r.CreateSubject? || r.UpdateSubject?
      ensures r.payload.course == course && r.payload.lecturer == lecturer
      ensures r.payload.students == selectedStudents
      ensures r.payload.name == name && r.payload.description == description
    {
      var payload := SubjectPayload(name, description, course, lecturer, selectedStudents);
      if isEdit && subjectId.Truthy() then UpdateSubject(subjectId.n, payload) else CreateSubject(payload)
    }

    /** An invalid form sends nothing; otherwise `loading` is set and the
        create or update request is sent. */
    method OnSubmit() returns (sent: Option<Request>)
      requires Valid()
      modifies this`loading
      ensures Valid()
      ensures old(FormInvalid()) ==> sent == None && loading == old(loading)
      ensures !old(FormInvalid()) ==> sent == Some(SubmitRequest()) && loading
    {
      if FormInvalid() {
        return None;
      }
      loading := true;
      sent := Some(SubmitRequest());
    }

    /** `next` of the save call: navigate to the subject list. */
    method OnSaved() returns (route: string)
      ensures route == SubjectsRoute
    {
      route := SubjectsRoute;
    }

    /** `error` of the save call: clear `loading` and alert the backend's
        detail, or a fixed text when there is none. */
    method OnSaveFailed(detail: Option<string>) returns (alertText: string)
      requires Valid()
      modifies this`loading
      ensures Valid()
      ensures !loading
      ensures alertText == AlertText(detail, SaveFailedText)
      ensures alertText != ""
      ensures detail.Some? && detail.value != "" ==> alertText == detail.value
    {
      loading := false;
      alertText := AlertText(detail, SaveFailedText);
    }
  }

  /** Loading a subject does not prune: the student list holds student 4 of
      course 2, a subject of course 1 whose student is 4 is loaded, and student
      4 stays selected although it is not a student of course 1. */
  method LoadKeepsForeignSelection() returns (withinCourse: bool)
    ensures !withinCourse
  {
    var f := new SubjectForm();
    f.OnStudentsLoaded([Candidate(4, 2)]);
    f.OnSubjectLoaded(SubjectDetail("Algebra", "", 1, 1, [4]));
    assert f.selectedStudents[0] == 4 && !HasCandidate(f.allStudents, 4, 1);
    withinCourse := SelectionWithin(f.selectedStudents, f.allStudents, f.course);
  }
}
