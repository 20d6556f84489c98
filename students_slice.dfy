/**
 * The `students` slice of the Redux store (src/store/slices/studentsSlice.ts): the thunks
 * that go through the students collection, the reducers as transitions of the slice state
 * (the list and the separately held `currentStudent`), and `selectFilteredStudents`.
 */
module StudentsSlice {
  import opened Common
  import opened Types
  import opened Text
  import StudentsService

  datatype StudentFilters = StudentFilters(searchTerm: string, selectedSubject: string,
                                           selectedProfessor: string, selectedSemester: string)

  const NoStudentFilters := StudentFilters("", "", "", "")

  /** `Partial<StudentsState['filters']>`. */
  datatype StudentFiltersPatch = StudentFiltersPatch(searchTerm: Option<string>,
                                                     selectedSubject: Option<string>,
                                                     selectedProfessor: Option<string>,
                                                     selectedSemester: Option<string>)

  /** `{ ...filters, ...patch }`. */
  function MergeFilters(f: StudentFilters, p: StudentFiltersPatch): (r: StudentFilters)
    ensures r.searchTerm == (if p.searchTerm.Some? then p.searchTerm.value else f.searchTerm)
    ensures r.selectedSubject ==
              (if p.selectedSubject.Some? then p.selectedSubject.value else f.selectedSubject)
    ensures r.selectedProfessor ==
              (if p.selectedProfessor.Some? then p.selectedProfessor.value else f.selectedProfessor)
    ensures r.selectedSemester ==
              (if p.selectedSemester.Some? then p.selectedSemester.value else f.selectedSemester)
  {
    StudentFilters(Pick(p.searchTerm, f.searchTerm), Pick(p.selectedSubject, f.selectedSubject),
                   Pick(p.selectedProfessor, f.selectedProfessor),
                   Pick(p.selectedSemester, f.selectedSemester))
  }

  // ---------------------------------------------------------------------------
  // Thunks that go through the collection
  // ---------------------------------------------------------------------------

  datatype SubjectPayload = SubjectPayload(studentId: string, subjectId: string)

  /** `selectSubject`: the service call; its error message becomes the rejection reason. */
  function SelectSubjectThunk(remote: map<string, Student>, studentId: string, subjectId: string, now: string)
    : (r: (Settled<SubjectPayload>, map<string, Student>))
    ensures r.0.Fulfilled? <==> StudentsService.SelectSubjectCheck(remote, studentId).None?
    ensures r.0.Rejected? ==>
              r.0.reason == StudentsService.Message(StudentsService.SelectSubjectCheck(remote, studentId).value)
              && r.1 == remote
    ensures r.0.Fulfilled? ==>
              r.0.value == SubjectPayload(studentId, subjectId)
              && r.1 == remote[studentId := StudentsService.AppendSubject(remote[studentId], subjectId, now)]
  {
    match StudentsService.SelectSubjectCheck(remote, studentId)
    case Some(e) => (Rejected(StudentsService.Message(e)), remote)
    case None =>
      (Fulfilled(SubjectPayload(studentId, subjectId)),
       remote[studentId := StudentsService.AppendSubject(remote[studentId], subjectId, now)])
  }

  /** `removeSubject`: the service call; only a missing student is refused. */
  function RemoveSubjectThunk(remote: map<string, Student>, studentId: string, subjectId: string, now: string)
    : (r: (Settled<SubjectPayload>, map<string, Student>))
    ensures r.0.Rejected? <==> studentId !in remote
    ensures r.0.Rejected? ==>
              r.0.reason == StudentsService.Message(StudentsService.StudentNotFound) && r.1 == remote
    ensures r.0.Fulfilled? ==>
              r.0.value == SubjectPayload(studentId, subjectId)
              && r.1 == remote[studentId := StudentsService.DropSubject(remote[studentId], subjectId, now)]
  {
    if studentId !in remote then (Rejected(StudentsService.Message(StudentsService.StudentNotFound)), remote)
    else
      (Fulfilled(SubjectPayload(studentId, subjectId)),
       remote[studentId := StudentsService.DropSubject(remote[studentId], subjectId, now)])
  }

  // ---------------------------------------------------------------------------
  // Transitions of a student record and of the list
  // ---------------------------------------------------------------------------

  /** The selectSubject reducer's change: append and add 3 credits, only if absent. */
  function WithSubject(subjectId: string, now: string): Student -> Student
  {
    (s: Student) =>
      if subjectId in s.subjects then s
      else s.(subjects := s.subjects + [subjectId], credits := s.credits + CREDITS_PER_SUBJECT,
              updatedAt := now)
  }

  /** The removeSubject reducer's change, the same as the service's write. */
  function WithoutSubject(subjectId: string, now: string): Student -> Student
  {
    (s: Student) => StudentsService.DropSubject(s, subjectId, now)
  }

  /** The updateStudent reducer's change. */
  function Merged(updates: StudentPatch, now: string): Student -> Student
  {
    (s: Student) => MergeStudent(s, updates, now)
  }

  /** Selecting the same subject again changes nothing, in the list or in a single record. */
  lemma SelectSubjectIdempotent(students: seq<Student>, studentId: string, subjectId: string,
                                t1: string, t2: string)
    ensures UpdateFirst(UpdateFirst(students, StudentHasId(studentId), WithSubject(subjectId, t1)),
                        StudentHasId(studentId), WithSubject(subjectId, t2))
         == UpdateFirst(students, StudentHasId(studentId), WithSubject(subjectId, t1))
  {
    UpdateFirstTwice(students, StudentHasId(studentId), WithSubject(subjectId, t1), WithSubject(subjectId, t2));
  }

  /**
   * The store's record agrees with the collection's after a selection of a new subject;
   * on a repeated subject the service appends a duplicate while the store keeps the record.
   */
  lemma SelectSubjectStoreMatchesService(s: Student, subjectId: string, now: string)
    ensures subjectId !in s.subjects ==>
              WithSubject(subjectId, now)(s) == StudentsService.AppendSubject(s, subjectId, now)
    ensures subjectId in s.subjects ==>
              WithSubject(subjectId, now)(s) == s
              && multiset(StudentsService.AppendSubject(s, subjectId, now).subjects)[subjectId]
                 == multiset(s.subjects)[subjectId] + 1
  {
  }

  /** `updateStudentFromRealtime` on the list: replace the first record with the id, or append. */
  function Upsert(students: seq<Student>, s: Student): (r: seq<Student>)
    ensures Find(r, StudentHasId(s.id)) == Some(s)
    ensures FirstIndex(students, StudentHasId(s.id)) >= 0 ==>
              r == students[FirstIndex(students, StudentHasId(s.id)) := s]
    ensures FirstIndex(students, StudentHasId(s.id)) == -1 ==> r == students + [s]
  {
    var index := FirstIndex(students, StudentHasId(s.id));
    if index != -1 then
      FirstIndexAgree(students, students[index := s], StudentHasId(s.id), StudentHasId(s.id));
      students[index := s]
    else
      var r := students + [s];
      assert forall k :: 0 <= k < |students| ==> r[k] == students[k];
      assert forall k :: 0 <= k < |students| ==> !StudentHasId(s.id)(r[k]);
      assert StudentHasId(s.id)(r[|students|]);
      assert FirstIndex(r, StudentHasId(s.id)) == |students|;
      r
  }

  /** Upserting the same record twice is upserting it once. */
  lemma UpsertIdempotent(students: seq<Student>, s: Student)
    ensures Upsert(Upsert(students, s), s) == Upsert(students, s)
  {
    var once := Upsert(students, s);
    var index := FirstIndex(students, StudentHasId(s.id));
    if index == -1 {
      assert forall k :: 0 <= k < |students| ==> once[k] == students[k];
      assert FirstIndex(once, StudentHasId(s.id)) == |students|;
    } else {
      FirstIndexAgree(students, once, StudentHasId(s.id), StudentHasId(s.id));
    }
  }

  /** `currentStudent` after a record with the same id arrives. */
  function Refreshed(current: Option<Student>, s: Student): (r: Option<Student>)
    ensures current.Some? && current.value.id == s.id ==> r == Some(s)
    ensures !(current.Some? && current.value.id == s.id) ==> r == current
  {
    if current.Some? && current.value.id == s.id then Some(s) else current
  }

  /** `if (currentStudent?.id === id) currentStudent = f(currentStudent)`. */
  function ApplyToCurrent(current: Option<Student>, id: string, f: Student -> Student): (r: Option<Student>)
    ensures current.Some? && current.value.id == id ==> r == Some(f(current.value))
    ensures !(current.Some? && current.value.id == id) ==> r == current
  {
    if current.Some? && current.value.id == id then Some(f(current.value)) else current
  }

  // ---------------------------------------------------------------------------
  // The slice state and its reducers
  // ---------------------------------------------------------------------------

  class StudentsState {
    var students: seq<Student>
    var currentStudent: Option<Student>
    var isLoading: bool
    var error: Option<string>
    var filters: StudentFilters

    /** `initialState`. */
    constructor()
      ensures students == [] && currentStudent == None && !isLoading && error == None
      ensures filters == NoStudentFilters
    {
      students := [];
      currentStudent := None;
      isLoading := false;
      error := None;
      filters := NoStudentFilters;
    }

    method SetCurrentStudent(s: Student)
      modifies this`currentStudent
      ensures currentStudent == Some(s)
    {
      currentStudent := Some(s);
    }

    method ClearCurrentStudent()
      modifies this`currentStudent
      ensures currentStudent == None
    {
      currentStudent := None;
    }

    method UpdateFilters(patch: StudentFiltersPatch)
      modifies this`filters
      ensures filters == MergeFilters(old(filters), patch)
    {
      filters := MergeFilters(filters, patch);
    }

    method ClearFilters()
      modifies this`filters
      ensures filters == NoStudentFilters
    {
      filters := NoStudentFilters;
    }

    /** Replaces the list wholesale and settles the loading state. */
    method UpdateStudentsFromRealtime(list: seq<Student>)
      modifies this`students, this`isLoading, this`error
      ensures students == list && !isLoading && error == None
    {
      students := list;
      isLoading := false;
      error := None;
    }

    method UpdateStudentFromRealtime(s: Student)
      modifies this`students, this`currentStudent
      ensures students == Upsert(old(students), s)
      ensures currentStudent == Refreshed(old(currentStudent), s)
    {
      var index := FirstIndex(students, StudentHasId(s.id));
      if index != -1 {
        students := students[index := s];
      } else {
        students := students + [s];
      }
      if currentStudent.Some? && currentStudent.value.id == s.id {
        currentStudent := Some(s);
      }
    }

    method ClearError()
      modifies this`error
      ensures error == None
    {
      error := None;
    }

    method ResetStudents()
      modifies this
      ensures students == [] && currentStudent == None && !isLoading && error == None
      ensures filters == NoStudentFilters
    {
      students := [];
      currentStudent := None;
      isLoading := false;
      error := None;
      filters := NoStudentFilters;
    }

    /** The pending case shared by every thunk of the slice. */
    method ThunkPending()
      modifies this`isLoading, this`error
      ensures isLoading && error == None
    {
      isLoading := true;
      error := None;
    }

    /** The rejected case shared by every thunk of the slice. */
    method ThunkRejected(reason: string)
      modifies this`isLoading, this`error
      ensures !isLoading && error == Some(RejectedError(reason))
    {
      isLoading := false;
      error := Some(RejectedError(reason));
    }

    method FetchStudentsFulfilled(list: seq<Student>)
      modifies this`students, this`isLoading, this`error
      ensures students == list && !isLoading && error == None
    {
      isLoading := false;
      students := list;
      error := None;
    }

    method CreateStudentFulfilled(s: Student)
      modifies this`students, this`isLoading, this`error
      ensures students == old(students) + [s] && !isLoading && error == None
    {
      isLoading := false;
      students := students + [s];
      error := None;
    }

    /**
     * The fulfilled case of `updateStudent`, whose thunk only echoes `{ id, updates }`:
     * the updates go into the first record with the id and into `currentStudent`.
     */
    method UpdateStudentFulfilled(id: string, updates: StudentPatch, now: string)
      modifies this`students, this`currentStudent, this`isLoading, this`error
      ensures students == UpdateFirst(old(students), StudentHasId(id), Merged(updates, now))
      ensures currentStudent == ApplyToCurrent(old(currentStudent), id, Merged(updates, now))
      ensures !isLoading && error == None
    {
      isLoading := false;
      var index := FirstIndex(students, StudentHasId(id));
      if index != -1 {
        students := students[index := MergeStudent(students[index], updates, now)];
      }
      if currentStudent.Some? && currentStudent.value.id == id {
        currentStudent := Some(MergeStudent(currentStudent.value, updates, now));
      }
      error := None;
    }

    method DeleteStudentFulfilled(id: string)
      modifies this`students, this`currentStudent, this`isLoading, this`error
      ensures students == Filter(old(students), StudentLacksId(id))
      ensures forall s :: s in students <==> s in old(students) && s.id != id
      ensures currentStudent == (if old(currentStudent).Some? && old(currentStudent).value.id == id
                                 then None else old(currentStudent))
      ensures !isLoading && error == None
    {
      isLoading := false;
      students := Filter(students, StudentLacksId(id));
      if currentStudent.Some? && currentStudent.value.id == id {
        currentStudent := None;
      }
      error := None;
    }

    method SelectSubjectFulfilled(payload: SubjectPayload, now: string)
      modifies this`students, this`currentStudent, this`isLoading, this`error
      ensures students == UpdateFirst(old(students), StudentHasId(payload.studentId),
                                      WithSubject(payload.subjectId, now))
      ensures currentStudent == ApplyToCurrent(old(currentStudent), payload.studentId,
                                               WithSubject(payload.subjectId, now))
      ensures !isLoading && error == None
    {
      isLoading := false;
      var index := FirstIndex(students, StudentHasId(payload.studentId));
      if index != -1 && payload.subjectId !in students[index].subjects {
        var s := students[index];
        students := students[index := s.(subjects := s.subjects + [payload.subjectId],
                                          credits := s.credits + 3, updatedAt := now)];
      }
      if currentStudent.Some? && currentStudent.value.id == payload.studentId {
        var c := currentStudent.value;
        if payload.subjectId !in c.subjects {
          currentStudent := Some(c.(subjects := c.subjects + [payload.subjectId],
                                    credits := c.credits + 3, updatedAt := now));
        }
      }
      error := None;
    }

    method RemoveSubjectFulfilled(payload: SubjectPayload, now: string)
      modifies this`students, this`currentStudent, this`isLoading, this`error
      ensures students == UpdateFirst(old(students), StudentHasId(payload.studentId),
                                      WithoutSubject(payload.subjectId, now))
      ensures currentStudent == ApplyToCurrent(old(currentStudent), payload.studentId,
                                               WithoutSubject(payload.subjectId, now))
      ensures !isLoading && error == None
    {
      isLoading := false;
      var index := FirstIndex(students, StudentHasId(payload.studentId));
      if index != -1 {
        var s := students[index];
        var dropped := s.(subjects := Without(s.subjects, payload.subjectId),
                          credits := Max0(s.credits - 3), updatedAt := now);
        assert dropped == WithoutSubject(payload.subjectId, now)(s);
        students := students[index := dropped];
      }
      if currentStudent.Some? && currentStudent.value.id == payload.studentId {
        var c := currentStudent.value;
        var dropped := c.(subjects := Without(c.subjects, payload.subjectId),
                          credits := Max0(c.credits - 3), updatedAt := now);
        assert dropped == WithoutSubject(payload.subjectId, now)(c);
        currentStudent := Some(dropped);
      }
      error := None;
    }
  }

  // ---------------------------------------------------------------------------
  // selectFilteredStudents
  // ---------------------------------------------------------------------------

  /** The test of `selectFilteredStudents`; an empty filter field matches everything. */
  predicate MatchesFilters(s: Student, f: StudentFilters)
  {
    (f.searchTerm == ""
     || Includes(Lower(s.name), Lower(f.searchTerm)) || Includes(Lower(s.email), Lower(f.searchTerm)))
    && (f.selectedSubject == "" || f.selectedSubject in s.subjects)
    && (f.selectedProfessor == "" || f.selectedProfessor in s.professors)
    && (f.selectedSemester == "" || IntToString(s.semester) == f.selectedSemester)
  }

  function FilterTest(f: StudentFilters): Student -> bool
  {
    (s: Student) => MatchesFilters(s, f)
  }

  function SelectFilteredStudents(students: seq<Student>, f: StudentFilters): (r: seq<Student>)
    ensures forall s :: s in r <==> s in students && MatchesFilters(s, f)
    ensures IsSubsequence(r, students)
  {
    Filter(students, FilterTest(f))
  }

  /** With every filter cleared the selector returns the whole list, in order. */
  lemma ClearedFiltersShowAll(students: seq<Student>)
    ensures SelectFilteredStudents(students, NoStudentFilters) == students
  {
    FilterAll(students, FilterTest(NoStudentFilters));
  }

  /** Filtering on the notation of a semester keeps exactly the students of that semester. */
  lemma SemesterFilterExact(students: seq<Student>, semester: int)
    ensures forall s :: s in SelectFilteredStudents(students, NoStudentFilters.(selectedSemester := IntToString(semester)))
                        <==> s in students && s.semester == semester
  {
    forall s | s in students && IntToString(s.semester) == IntToString(semester)
      ensures s.semester == semester
    {
      IntToStringInjective(s.semester, semester);
    }
  }
}
