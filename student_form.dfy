/** The student create/edit form (`StudentFormComponent`): its fields, the
    handlers of its three loads, the subject picker, and the submit step. An
    outgoing HTTP call is represented by the `Request` value a method returns. */
module StudentFormComponent {
  import opened Common
  import opened Forms

  /** A student as `GET students/<id>` returns it to the form: the form
      fields, the id of its course, and the ids of its subjects. */
  datatype StudentDetail = StudentDetail(
    firstName: string, lastName: string, email: string, dateOfBirth: string,
    course: nat, subjects: seq<nat>)

  /** The body of a create or update call. */
  datatype StudentPayload = StudentPayload(
    firstName: string, lastName: string, email: string, dateOfBirth: string,
    course: nat, subjects: seq<nat>)

  datatype Request =
    | ListCourses
    | ListSubjects
    | GetStudent(lookup: NumericId)
    | CreateStudent(payload: StudentPayload)
    | UpdateStudent(id: nat, payload: StudentPayload)

  const StudentsRoute := "/dashboard/students"
  const SaveFailedText := "Failed to save student. Please try again."

  class StudentForm {
    // the reactive form's controls; `course` is `+value` of the course
    // control, 0 while it is empty
    var firstName: string
    var lastName: string
    var email: string
    var dateOfBirth: string
    var course: nat

    var isEdit: bool
    var studentId: NumericId
    var loading: bool
    var courses: seq<CourseOption>
    var allSubjects: seq<Candidate>
    var filteredSubjects: seq<Candidate>
    var selectedSubjects: seq<nat>

    /** The shown subject list is always the subjects of the chosen course. */
    ghost predicate Valid()
      reads this
    {
      filteredSubjects == Filtered(allSubjects, course)
    }

    constructor ()
      ensures Valid()
      ensures firstName == lastName == email == dateOfBirth == "" && course == 0
      ensures !isEdit && studentId == Null && !loading
      ensures courses == [] && allSubjects == [] && filteredSubjects == [] && selectedSubjects == []
    {
      firstName, lastName, email, dateOfBirth, course := "", "", "", "", 0;
      isEdit, studentId, loading := false, Null, false;
      courses, allSubjects, filteredSubjects, selectedSubjects := [], [], [], [];
    }

    /** Issues the two list loads and, for an edit route, the student load. */
    method NgOnInit(routeId: Option<string>) returns (requests: seq<Request>)
      requires Valid()
      modifies this
      ensures Valid()
      ensures ModeFor(routeId).CreateMode? ==>
        isEdit == old(isEdit) && studentId == old(studentId) && requests == [ListCourses, ListSubjects]
      ensures ModeFor(routeId).EditMode? ==>
        isEdit && studentId == ModeFor(routeId).id
        && requests == [ListCourses, ListSubjects, GetStudent(studentId)]
      ensures firstName == old(firstName) && lastName == old(lastName) && email == old(email)
      ensures dateOfBirth == old(dateOfBirth) && course == old(course) && loading == old(loading)
      ensures courses == old(courses) && allSubjects == old(allSubjects)
      ensures filteredSubjects == old(filteredSubjects) && selectedSubjects == old(selectedSubjects)
    {
      requests := [ListCourses, ListSubjects];
      var mode := ModeFor(routeId);
      if mode.EditMode? {
        isEdit := true;
        studentId := mode.id;
        requests := requests + [GetStudent(mode.id)];
      }
    }

    /** `next` of the course list load. */
    method OnCoursesLoaded(loaded: seq<CourseOption>)
      requires Valid()
      modifies this`courses
      ensures Valid()
      ensures courses == loaded
    {
      courses := loaded;
    }

    /** `next` of the subject list load: store the list, then filter it. */
    method OnSubjectsLoaded(loaded: seq<Candidate>)
      requires Valid()
      modifies this`allSubjects, this`filteredSubjects
      ensures Valid()
      ensures allSubjects == loaded && filteredSubjects == Filtered(loaded, course)
    {
      allSubjects := loaded;
      FilterSubjects();
    }

    /** `next` of the student load: patch the form and take over the loaded
        subject ids as the selection, without pruning them, then filter. */
    method OnStudentLoaded(student: StudentDetail)
      requires Valid()
      modifies this
      ensures Valid()
      ensures firstName == student.firstName && lastName == student.lastName
      ensures email == student.email && dateOfBirth == student.dateOfBirth
      ensures course == student.course && selectedSubjects == student.subjects
      ensures filteredSubjects == Filtered(allSubjects, student.course)
      ensures isEdit == old(isEdit) && studentId == old(studentId) && loading == old(loading)
      ensures courses == old(courses) && allSubjects == old(allSubjects)
    {
      firstName, lastName, email, dateOfBirth := student.firstName, student.lastName, student.email, student.dateOfBirth;
      course := student.course;
      selectedSubjects := student.subjects;
      FilterSubjects();
    }

    /** The course selector's change handler, with `c` the new value of the
        course control: filter, then drop selected subjects of other courses. */
    method OnCourseChange(c: nat)
      requires Valid()
      modifies this`course, this`filteredSubjects, this`selectedSubjects
      ensures Valid()
      ensures course == c && filteredSubjects == Filtered(allSubjects, c)
      ensures selectedSubjects == Prune(old(selectedSubjects), allSubjects, c)
    {
      course := c;
      FilterSubjects();
      selectedSubjects := Prune(selectedSubjects, allSubjects, c);
    }

    method FilterSubjects()
      modifies this`filteredSubjects
      ensures Valid()
    {
      if course != 0 {
        filteredSubjects := OfCourse(allSubjects, course);
      } else {
        filteredSubjects := [];
      }
    }

    /** `selectedSubjects.includes(id)`. */
    function IsSubjectSelected(id: nat): (b: bool)
      reads this
      ensures b <==> exists i :: 0 <= i < |selectedSubjects| && selectedSubjects[i] == id
    {
      id in selectedSubjects
    }

    method ToggleSubject(id: nat)
      requires Valid()
      modifies this`selectedSubjects
      ensures Valid()
      ensures selectedSubjects == Toggle(old(selectedSubjects), id)
    {
      var index := IndexOf(selectedSubjects, id);
      if index > -1 {
        selectedSubjects := selectedSubjects[..index] + selectedSubjects[index + 1..];
      } else {
        selectedSubjects := selectedSubjects + [id];
      }
    }

    /** Angular's validity of the form: every control is required, and the
        email control must also pass `Validators.email`, whose verdict on the
        current text is `emailFormatOk`. */
    predicate FormInvalid(emailFormatOk: bool)
      reads this
    {
      firstName == "" || lastName == "" || email == "" || dateOfBirth == "" || course == 0 || !emailFormatOk
    }

    /** The request `onSubmit` sends, built from the current state. */
    function SubmitRequest(): (r: Request)
      reads this
      ensures r.UpdateStudent? <==> ChoosesUpdate(isEdit, studentId)
      ensures r.UpdateStudent? ==> r.id == studentId.n && r.id != 0
      ensures r.CreateStudent? || r.UpdateStudent?
      ensures r.payload.course == course && r.payload.subjects == selectedSubjects
      ensures r.payload.firstName == firstName && r.payload.lastName == lastName
      ensures r.payload.email == email && r.payload.dateOfBirth == dateOfBirth
    {
      var payload := StudentPayload(firstName, lastName, email, dateOfBirth, course, selectedSubjects);
      if isEdit && studentId.Truthy() then UpdateStudent(studentId.n, payload) else CreateStudent(payload)
    }

    /** An invalid form sends nothing; otherwise `loading` is set and the
        create or update request is sent. */
    method OnSubmit(emailFormatOk: bool) returns (sent: Option<Request>)
      requires Valid()
      modifies this`loading
      ensures Valid()
      ensures old(FormInvalid(emailFormatOk)) ==> sent == None && loading == old(loading)
      ensures !old(FormInvalid(emailFormatOk)) ==> sent == Some(SubmitRequest()) && loading
    {
      if FormInvalid(emailFormatOk) {
        return None;
      }
      loading := true;
      sent := Some(SubmitRequest());
    }

    /** `next` of the save call: navigate to the student list. */
    method OnSaved() returns (route: string)
      ensures route == StudentsRoute
    {
      route := StudentsRoute;
    }

    /** `error` of the save call: clear `loading` and alert the backend's
        detail, or a fixed text when there is none. */
    method OnSaveFailed(detail: Option<string>) returns (alertText: string)
      requires Valid()
      modifies this`loading
      ensures Valid()
      ensures !loading
      ensures alertText == AlertText(detail, SaveFailedText)
      ensures alertText != ""
      ensures detail.Some? && detail.value != "" ==> alertText == detail.value
    {
      loading := false;
      alertText := AlertText(detail, SaveFailedText);
    }
  }

  /** A course change to a course none of the loaded subjects belongs to
      empties both the shown list and the selection, whatever was selected. */
  lemma ChangeToCourseWithoutSubjects(selected: seq<nat>, all: seq<Candidate>, c: nat)
    requires forall i :: 0 <= i < |all| ==> all[i].course != c
    ensures Prune(selected, all, c) == []
    ensures Filtered(all, c) == []
  {
    forall id ensures !HasCandidate(all, id, c) { }
    FirstIsMember(Prune(selected, all, c));
    FirstIsMember(Filtered(all, c));
  }

  /** Loading a student does not prune: the subject list holds subject 7 of
      course 2, a student of course 1 enrolled in subject 7 is loaded, and
      subject 7 stays selected although it is not a subject of course 1. */
  method LoadKeepsForeignSelection() returns (withinCourse: bool)
    ensures !withinCourse
  {
    var f := new StudentForm();
    f.OnSubjectsLoaded([Candidate(7, 2)]);
    f.OnStudentLoaded(StudentDetail("Ann", "Lee", "ann@example.com", "2000-01-01", 1, [7]));
    assert f.selectedSubjects[0] == 7 && !HasCandidate(f.allSubjects, 7, 1);
    withinCourse := SelectionWithin(f.selectedSubjects, f.allSubjects, f.course);
  }
}
