/**
 * The `subjects` slice of the Redux store (src/store/slices/subjectsSlice.ts): the guards of
 * its thunks, its reducers as transitions of the slice state, and its selectors.
 */
module SubjectsSlice {
  import opened Common
  import opened Types
  import opened Text
  import SubjectsService

  datatype SubjectFilters = SubjectFilters(searchTerm: string, selectedProfessor: string,
                                           selectedSemester: string)

  const NoSubjectFilters := SubjectFilters("", "", "")

  /** `Partial<SubjectsState['filters']>`. */
  datatype SubjectFiltersPatch = SubjectFiltersPatch(searchTerm: Option<string>,
                                                     selectedProfessor: Option<string>,
                                                     selectedSemester: Option<string>)

  /** `{ ...filters, ...patch }`. */
  function MergeFilters(f: SubjectFilters, p: SubjectFiltersPatch): (r: SubjectFilters)
    ensures p.searchTerm.None? ==> r.searchTerm == f.searchTerm
    ensures p.searchTerm.Some? ==> r.searchTerm == p.searchTerm.value
    ensures p.selectedProfessor.None? ==> r.selectedProfessor == f.selectedProfessor
    ensures p.selectedProfessor.Some? ==> r.selectedProfessor == p.selectedProfessor.value
    ensures p.selectedSemester.None? ==> r.selectedSemester == f.selectedSemester
    ensures p.selectedSemester.Some? ==> r.selectedSemester == p.selectedSemester.value
  {
    SubjectFilters(Pick(p.searchTerm, f.searchTerm), Pick(p.selectedProfessor, f.selectedProfessor),
                   Pick(p.selectedSemester, f.selectedSemester))
  }

  // ---------------------------------------------------------------------------
  // Thunks
  // ---------------------------------------------------------------------------

  const CreditsMessage := "Cada materia debe tener exactamente 3 créditos"
  const EnrolledStudentsMessage := "No se puede eliminar una materia con estudiantes inscritos"

  /** `updates.credits && updates.credits !== 3`: 0 is falsy and passes. */
  predicate CreditsRejected(updates: SubjectPatch)
  {
    updates.credits.Some? && updates.credits.value != 0 && updates.credits.value != CREDITS_PER_SUBJECT
  }

  /** What `updateSubject` fulfils with: the updates it was given, or the re-read document. */
  datatype SubjectUpdates = Partial(patch: SubjectPatch) | Whole(subject: Subject)

  datatype UpdatePayload = UpdatePayload(id: string, updates: SubjectUpdates)

  /**
   * `updateSubject`: the credits guard, the remote update, then the re-read, against the
   * collection `remote`; yields how the thunk settles and the collection afterwards.
   */
  function UpdateSubjectThunk(remote: map<string, Subject>, id: string, updates: SubjectPatch, now: string)
    : (r: (Settled<UpdatePayload>, map<string, Subject>))
    ensures CreditsRejected(updates) ==> r == (Rejected(CreditsMessage), remote)
    ensures !CreditsRejected(updates) && id !in remote ==>
              r == (Rejected(SubjectsService.Message(SubjectsService.UpdateFailed)), remote)
    ensures !CreditsRejected(updates) && id in remote ==>
              r.1 == remote[id := MergeSubject(remote[id], updates, now)]
              && r.0 == Fulfilled(UpdatePayload(id, Whole(r.1[id])))
  {
    if CreditsRejected(updates) then (Rejected(CreditsMessage), remote)
    else
      match SubjectsService.UpdateSubjectDoc(remote, id, updates, now)
      case None => (Rejected(SubjectsService.Message(SubjectsService.UpdateFailed)), remote)
      case Some(written) =>
        var fetched := if id in written then Some(written[id]) else None;
        if fetched.None? then (Fulfilled(UpdatePayload(id, Partial(updates))), written)
        else (Fulfilled(UpdatePayload(id, Whole(fetched.value))), written)
  }

  /** `deleteSubject`: refused while any student of the store has the subject. */
  function DeleteSubjectThunk(students: seq<Student>, subjectId: string): (r: Settled<string>)
    ensures r.Rejected? <==> exists k :: 0 <= k < |students| && subjectId in students[k].subjects
    ensures r.Rejected? ==> r.reason == EnrolledStudentsMessage
    ensures r.Fulfilled? ==> r.value == subjectId
  {
    if exists k :: 0 <= k < |students| && subjectId in students[k].subjects
    then Rejected(EnrolledStudentsMessage)
    else Fulfilled(subjectId)
  }

  datatype EnrollPayload = EnrollPayload(subjectId: string, studentId: string)

  /** `enrollStudentInSubject`: the service's checks, in its order, on the store's list. */
  function EnrollThunk(subjects: seq<Subject>, subjectId: string, studentId: string)
    : (r: Settled<EnrollPayload>)
    ensures var found := Find(subjects, SubjectHasId(subjectId));
            && (r == Rejected(SubjectsService.Message(SubjectsService.SubjectNotFound)) <==> found.None?)
            && (r == Rejected(SubjectsService.Message(SubjectsService.SubjectInactive)) <==>
                  found.Some? && !found.value.isActive)
            && (r == Rejected(SubjectsService.Message(SubjectsService.SubjectFull)) <==>
                  found.Some? && found.value.isActive && found.value.enrolled >= found.value.capacity)
            && (r == Fulfilled(EnrollPayload(subjectId, studentId)) <==>
                  found.Some? && IsAvailable(found.value))
  {
    match Find(subjects, SubjectHasId(subjectId))
    case None => Rejected(SubjectsService.Message(SubjectsService.SubjectNotFound))
    case Some(subject) =>
      if !subject.isActive then Rejected(SubjectsService.Message(SubjectsService.SubjectInactive))
      else if subject.enrolled >= subject.capacity then
        Rejected(SubjectsService.Message(SubjectsService.SubjectFull))
      else Fulfilled(EnrollPayload(subjectId, studentId))
  }

  /**
   * On a store list that is a snapshot of the collection, the thunk accepts exactly what
   * the service accepts, and refuses with the service's message.
   */
  lemma EnrollThunkAgreesWithService(subjects: seq<Subject>, docs: map<string, Subject>,
                                     subjectId: string, studentId: string)
    requires SubjectsService.Keyed(docs) && SubjectsService.IsSnapshotOf(subjects, docs)
    ensures EnrollThunk(subjects, subjectId, studentId).Fulfilled?
            <==> SubjectsService.EnrollCheck(docs, subjectId).None?
    ensures SubjectsService.EnrollCheck(docs, subjectId).Some? ==>
              EnrollThunk(subjects, subjectId, studentId)
              == Rejected(SubjectsService.Message(SubjectsService.EnrollCheck(docs, subjectId).value))
  {
    var found := Find(subjects, SubjectHasId(subjectId));
    if subjectId in docs {
      assert docs[subjectId] in subjects;
      assert found.Some?;
      assert found.value == docs[subjectId];
    } else {
      assert found.None?;
    }
  }

  // ---------------------------------------------------------------------------
  // Transitions of the subject list and of the selection
  // ---------------------------------------------------------------------------

  /** `if (!selected.includes(id)) selected.push(id)`. */
  function AddSelected(selected: seq<string>, id: string): (r: seq<string>)
    ensures forall x :: x in r <==> x in selected || x == id
    ensures id in selected ==> r == selected
    ensures id !in selected ==> r == selected + [id]
    ensures NoDuplicates(selected) ==> NoDuplicates(r)
  {
    if id in selected then selected else selected + [id]
  }

  /** Adding an id twice is adding it once. */
  lemma AddSelectedIdempotent(selected: seq<string>, id: string)
    ensures AddSelected(AddSelected(selected, id), id) == AddSelected(selected, id)
  {
  }

  /** Removing an id that was just added restores the selection. */
  lemma AddThenRemove(selected: seq<string>, id: string)
    requires id !in selected
    ensures Without(AddSelected(selected, id), id) == selected
  {
    WithoutAppend(selected, [id], id);
  }

  /** The enroll reducer's change to the found subject. */
  function Enrolled(now: string): Subject -> Subject
  {
    (s: Subject) => s.(enrolled := s.enrolled + 1, updatedAt := now)
  }

  /** The unenroll reducer's change to the found subject. */
  function Unenrolled(now: string): Subject -> Subject
  {
    (s: Subject) => s.(enrolled := Max0(s.enrolled - 1), updatedAt := now)
  }

  /** The update reducer's change: `{ ...s, ...updates, updatedAt: now }`. */
  function Updated(u: SubjectUpdates, now: string): Subject -> Subject
  {
    match u
    case Partial(p) => (s: Subject) => MergeSubject(s, p, now)
    case Whole(w) => (s: Subject) => w.(updatedAt := now)
  }

  /** A subject's counter never goes below 0 nor above its capacity. */
  predicate SeatsConsistent(subjects: seq<Subject>)
  {
    forall k :: 0 <= k < |subjects| ==> 0 <= subjects[k].enrolled <= subjects[k].capacity
  }

  /** An enrollment the thunk accepted keeps every counter within its capacity. */
  lemma EnrollKeepsSeatsConsistent(subjects: seq<Subject>, subjectId: string, studentId: string, now: string)
    requires SeatsConsistent(subjects)
    requires EnrollThunk(subjects, subjectId, studentId).Fulfilled?
    ensures SeatsConsistent(UpdateFirst(subjects, SubjectHasId(subjectId), Enrolled(now)))
  {
    var i := FirstIndex(subjects, SubjectHasId(subjectId));
    assert Find(subjects, SubjectHasId(subjectId)).value == subjects[i];
  }

  /** An unenrollment keeps every counter within its capacity. */
  lemma UnenrollKeepsSeatsConsistent(subjects: seq<Subject>, subjectId: string, now: string)
    requires SeatsConsistent(subjects)
    ensures SeatsConsistent(UpdateFirst(subjects, SubjectHasId(subjectId), Unenrolled(now)))
  {
  }

  /** Unenrolling after enrolling restores the counter of a subject whose counter was >= 0. */
  lemma EnrollUnenrollRoundTrip(subjects: seq<Subject>, subjectId: string, t1: string, t2: string)
    requires forall k :: 0 <= k < |subjects| ==> subjects[k].enrolled >= 0
    ensures UpdateFirst(UpdateFirst(subjects, SubjectHasId(subjectId), Enrolled(t1)),
                        SubjectHasId(subjectId), Unenrolled(t2))
         == UpdateFirst(subjects, SubjectHasId(subjectId), (s: Subject) => s.(updatedAt := t2))
  {
    UpdateFirstTwice(subjects, SubjectHasId(subjectId), Enrolled(t1), Unenrolled(t2));
    var i := FirstIndex(subjects, SubjectHasId(subjectId));
  }

  // ---------------------------------------------------------------------------
  // The slice state and its reducers
  // ---------------------------------------------------------------------------

  class SubjectsState {
    var subjects: seq<Subject>
    var selectedSubjects: seq<string>
    var isLoading: bool
    var error: Option<string>
    var filters: SubjectFilters

    /** `initialState`. */
    constructor()
      ensures subjects == [] && selectedSubjects == [] && !isLoading && error == None
      ensures filters == NoSubjectFilters
    {
      subjects := [];
      selectedSubjects := [];
      isLoading := false;
      error := None;
      filters := NoSubjectFilters;
    }

    method SetSelectedSubjects(ids: seq<string>)
      modifies this`selectedSubjects
      ensures selectedSubjects == ids
    {
      selectedSubjects := ids;
    }

    method AddSelectedSubject(id: string)
      modifies this`selectedSubjects
      ensures selectedSubjects == AddSelected(old(selectedSubjects), id)
    {
      if id !in selectedSubjects {
        selectedSubjects := selectedSubjects + [id];
      }
    }

    method RemoveSelectedSubject(id: string)
      modifies this`selectedSubjects
      ensures selectedSubjects == Without(old(selectedSubjects), id)
    {
      selectedSubjects := Without(selectedSubjects, id);
    }

    method ClearSelectedSubjects()
      modifies this`selectedSubjects
      ensures selectedSubjects == []
    {
      selectedSubjects := [];
    }

    method UpdateFilters(patch: SubjectFiltersPatch)
      modifies this`filters
      ensures filters == MergeFilters(old(filters), patch)
    {
      filters := MergeFilters(filters, patch);
    }

    method ClearFilters()
      modifies this`filters
      ensures filters == NoSubjectFilters
    {
      filters := NoSubjectFilters;
    }

    /** Replaces the list wholesale and settles the loading state. */
    method UpdateSubjectsFromRealtime(list: seq<Subject>)
      modifies this`subjects, this`isLoading, this`error
      ensures subjects == list && !isLoading && error == None
    {
      subjects := list;
      isLoading := false;
      error := None;
    }

    method ClearError()
      modifies this`error
      ensures error == None
    {
      error := None;
    }

    method ResetSubjects()
      modifies this
      ensures subjects == [] && selectedSubjects == [] && !isLoading && error == None
      ensures filters == NoSubjectFilters
    {
      subjects := [];
      selectedSubjects := [];
      isLoading := false;
      error := None;
      filters := NoSubjectFilters;
    }

    /** The pending case shared by every thunk of the slice. */
    method ThunkPending()
      modifies this`isLoading, this`error
      ensures isLoading && error == None
    {
      isLoading := true;
      error := None;
    }

    /** The rejected case shared by every thunk of the slice. */
    method ThunkRejected(reason: string)
      modifies this`isLoading, this`error
      ensures !isLoading && error == Some(RejectedError(reason))
    {
      isLoading := false;
      error := Some(RejectedError(reason));
    }

    method FetchSubjectsFulfilled(list: seq<Subject>)
      modifies this`subjects, this`isLoading, this`error
      ensures subjects == list && !isLoading && error == None
    {
      isLoading := false;
      subjects := list;
      error := None;
    }

    method CreateSubjectFulfilled(subject: Subject)
      modifies this`subjects, this`isLoading, this`error
      ensures subjects == old(subjects) + [subject] && !isLoading && error == None
    {
      isLoading := false;
      subjects := subjects + [subject];
      error := None;
    }

    /** Merges into the first subject with the id; an absent id leaves the list as it was. */
    method UpdateSubjectFulfilled(payload: UpdatePayload, now: string)
      modifies this`subjects, this`isLoading, this`error
      ensures subjects == UpdateFirst(old(subjects), SubjectHasId(payload.id), Updated(payload.updates, now))
      ensures !isLoading && error == None
    {
      isLoading := false;
      var index := FirstIndex(subjects, SubjectHasId(payload.id));
      if index != -1 {
        var current := subjects[index];
        var next := match payload.updates
          case Partial(p) => MergeSubject(current, p, now)
          case Whole(w) => w.(updatedAt := now);
        subjects := subjects[index := next];
      }
      error := None;
    }

    method DeleteSubjectFulfilled(subjectId: string)
      modifies this`subjects, this`isLoading, this`error
      ensures subjects == Filter(old(subjects), SubjectLacksId(subjectId))
      ensures forall s :: s in subjects <==> s in old(subjects) && s.id != subjectId
      ensures !isLoading && error == None
    {
      isLoading := false;
      subjects := Filter(subjects, SubjectLacksId(subjectId));
      error := None;
    }

    method EnrollFulfilled(payload: EnrollPayload, now: string)
      modifies this`subjects, this`isLoading, this`error
      ensures subjects == UpdateFirst(old(subjects), SubjectHasId(payload.subjectId), Enrolled(now))
      ensures !isLoading && error == None
    {
      isLoading := false;
      var index := FirstIndex(subjects, SubjectHasId(payload.subjectId));
      if index != -1 {
        subjects := subjects[index := subjects[index].(enrolled := subjects[index].enrolled + 1,
                                                        updatedAt := now)];
      }
      error := None;
    }

    method UnenrollFulfilled(payload: EnrollPayload, now: string)
      modifies this`subjects, this`isLoading, this`error
      ensures subjects == UpdateFirst(old(subjects), SubjectHasId(payload.subjectId), Unenrolled(now))
      ensures !isLoading && error == None
    {
      isLoading := false;
      var index := FirstIndex(subjects, SubjectHasId(payload.subjectId));
      if index != -1 {
        subjects := subjects[index := subjects[index].(enrolled := Max0(subjects[index].enrolled - 1),
                                                        updatedAt := now)];
      }
      error := None;
    }
  }

  // ---------------------------------------------------------------------------
  // Selectors
  // ---------------------------------------------------------------------------

  /** The test of `selectFilteredSubjects`; an empty filter field matches everything. */
  predicate MatchesFilters(s: Subject, f: SubjectFilters)
  {
    (f.searchTerm == "" || SubjectsService.MatchesSearch(s, f.searchTerm))
    && (f.selectedProfessor == "" || s.professor == f.selectedProfessor)
    && (f.selectedSemester == "" || Includes(s.schedule, f.selectedSemester))
    && s.isActive
  }

  function FilterTest(f: SubjectFilters): Subject -> bool
  {
    (s: Subject) => MatchesFilters(s, f)
  }

  function SelectFilteredSubjects(subjects: seq<Subject>, f: SubjectFilters): (r: seq<Subject>)
    ensures forall s :: s in r <==> s in subjects && MatchesFilters(s, f)
    ensures IsSubsequence(r, subjects)
  {
    Filter(subjects, FilterTest(f))
  }

  function IsActiveSubject(s: Subject): bool
  {
    s.isActive
  }

  /** With every filter cleared the selector shows exactly the active subjects, in order. */
  lemma ClearedFiltersShowActive(subjects: seq<Subject>)
    ensures SelectFilteredSubjects(subjects, NoSubjectFilters) == Filter(subjects, IsActiveSubject)
  {
    FilterAgree(subjects, FilterTest(NoSubjectFilters), IsActiveSubject);
  }

  /** `selectAvailableSubjects`: the active subjects with a free seat, in list order. */
  function SelectAvailableSubjects(subjects: seq<Subject>): (r: seq<Subject>)
    ensures forall s :: s in r <==> s in subjects && s.isActive && s.enrolled < s.capacity
    ensures IsSubsequence(r, subjects)
  {
    Filter(subjects, IsAvailable)
  }

  function ProfessorTest(professorId: string): Subject -> bool
  {
    (s: Subject) => s.professor == professorId && s.isActive
  }

  /** `selectSubjectsByProfessor`: the active subjects the professor teaches. */
  function SelectSubjectsByProfessor(subjects: seq<Subject>, professorId: string): (r: seq<Subject>)
    ensures forall s :: s in r <==> s in subjects && s.professor == professorId && s.isActive
    ensures IsSubsequence(r, subjects)
  {
    Filter(subjects, ProfessorTest(professorId))
  }

  /** `selectCanEnrollInSubject`. */
  function SelectCanEnrollInSubject(subjects: seq<Subject>, students: seq<Student>,
                                    subjectId: string, studentId: string): (r: bool)
    ensures var subject := Find(subjects, SubjectHasId(subjectId));
            var student := Find(students, StudentHasId(studentId));
            r <==> subject.Some? && student.Some?
                   && subject.value.isActive && subject.value.enrolled < subject.value.capacity
                   && subjectId !in student.value.subjects
                   && |student.value.subjects| < MAX_SUBJECTS_PER_STUDENT
                   && student.value.credits + CREDITS_PER_SUBJECT <= MAX_CREDITS_PER_SEMESTER
  {
    var subject := Find(subjects, SubjectHasId(subjectId));
    var student := Find(students, StudentHasId(studentId));
    if subject.None? || student.None? then false
    else if !subject.value.isActive || subject.value.enrolled >= subject.value.capacity then false
    else if subjectId in student.value.subjects then false
    else if |student.value.subjects| >= 3 then false
    else if student.value.credits + 3 > 9 then false
    else true
  }

  /** A subject the selector offers is one the enroll thunk accepts and one listed as available. */
  lemma CanEnrollImpliesAccepted(subjects: seq<Subject>, students: seq<Student>,
                                 subjectId: string, studentId: string)
    requires SelectCanEnrollInSubject(subjects, students, subjectId, studentId)
    ensures EnrollThunk(subjects, subjectId, studentId).Fulfilled?
    ensures Find(subjects, SubjectHasId(subjectId)).value in SelectAvailableSubjects(subjects)
  {
  }
}
