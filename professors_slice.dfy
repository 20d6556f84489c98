/**
 * The `professors` slice of the Redux store (src/store/slices/professorsSlice.ts): the
 * guards of its thunks (which check the store, not the collection, and read the cap from
 * each professor's `maxSubjects`), its reducers and its selectors.
 */
module ProfessorsSlice {
  import opened Common
  import opened Types
  import opened Text

  // ---------------------------------------------------------------------------
  // Thunks
  // ---------------------------------------------------------------------------

  const UpdateTooManyMessage := "Cada profesor solo puede dictar máximo 2 materias"
  const DeleteRefusedMessage := "No se puede eliminar un profesor con estudiantes inscritos"
  const NotFoundMessage := "Profesor no encontrado"
  const InactiveMessage := "El profesor no está activo"
  const AtMaximumMessage := "El profesor ya tiene el máximo de materias permitidas"
  const AlreadyAssignedMessage := "El profesor ya está asignado a esta materia"
  const RemoveRefusedMessage := "No se puede remover la materia porque hay estudiantes inscritos"

  function TooManyMessage(maxSubjects: int): string
  {
    "El profesor no puede dictar más de " + IntToString(maxSubjects) + " materias"
  }

  /**
   * `createProfessor`: refused when the input lists more subjects than its own cap;
   * otherwise the record gets the clock's milliseconds as its id.
   */
  function CreateProfessorThunk(input: ProfessorInput, clockMillis: nat, now: string)
    : (r: Settled<Professor>)
    ensures r.Rejected? <==> |input.subjects| > input.maxSubjects
    ensures r.Rejected? ==> r.reason == TooManyMessage(input.maxSubjects)
    ensures r.Fulfilled? ==>
              ProfessorFields(r.value) == input && r.value.id == IntToString(clockMillis)
              && r.value.createdAt == now && r.value.updatedAt == now
  {
    if |input.subjects| > input.maxSubjects then Rejected(TooManyMessage(input.maxSubjects))
    else Fulfilled(NewProfessor(IntToString(clockMillis), input, now))
  }

  /** Records created at different instants get different ids. */
  lemma CreatedIdsDistinct(input1: ProfessorInput, input2: ProfessorInput,
                           t1: nat, t2: nat, now1: string, now2: string)
    requires CreateProfessorThunk(input1, t1, now1).Fulfilled?
    requires CreateProfessorThunk(input2, t2, now2).Fulfilled?
    requires t1 != t2
    ensures CreateProfessorThunk(input1, t1, now1).value.id != CreateProfessorThunk(input2, t2, now2).value.id
  {
    if IntToString(t1) == IntToString(t2) {
      IntToStringInjective(t1, t2);
    }
  }

  datatype UpdatePayload = UpdatePayload(id: string, updates: ProfessorPatch)

  /** `updateProfessor`: refused when the updates carry more than two subjects. */
  function UpdateProfessorThunk(id: string, updates: ProfessorPatch): (r: Settled<UpdatePayload>)
    ensures r.Rejected? <==> updates.subjects.Some? && |updates.subjects.value| > 2
    ensures r.Rejected? ==> r.reason == UpdateTooManyMessage
    ensures r.Fulfilled? ==> r.value == UpdatePayload(id, updates)
  {
    if updates.subjects.Some? && |updates.subjects.value| > 2 then Rejected(UpdateTooManyMessage)
    else Fulfilled(UpdatePayload(id, updates))
  }

  /** `deleteProfessor`: refused while any student of the store lists the professor. */
  function DeleteProfessorThunk(students: seq<Student>, professorId: string): (r: Settled<string>)
    ensures r.Rejected? <==> exists k :: 0 <= k < |students| && professorId in students[k].professors
    ensures r.Rejected? ==> r.reason == DeleteRefusedMessage
    ensures r.Fulfilled? ==> r.value == professorId
  {
    if exists k :: 0 <= k < |students| && professorId in students[k].professors
    then Rejected(DeleteRefusedMessage)
    else Fulfilled(professorId)
  }

  datatype AssignPayload = AssignPayload(professorId: string, subjectId: string)

  /** `assignSubjectToProfessor`: four checks on the store's copy, in this order. */
  function AssignThunk(professors: seq<Professor>, professorId: string, subjectId: string)
    : (r: Settled<AssignPayload>)
    ensures var found := Find(professors, ProfessorHasId(professorId));
            && (r == Rejected(NotFoundMessage) <==> found.None?)
            && (r == Rejected(InactiveMessage) <==> found.Some? && !found.value.isActive)
            && (r == Rejected(AtMaximumMessage) <==>
                  found.Some? && found.value.isActive
                  && |found.value.subjects| >= found.value.maxSubjects)
            && (r == Rejected(AlreadyAssignedMessage) <==>
                  found.Some? && found.value.isActive
                  && |found.value.subjects| < found.value.maxSubjects
                  && subjectId in found.value.subjects)
            && (r.Fulfilled? <==>
                  found.Some? && found.value.isActive
                  && |found.value.subjects| < found.value.maxSubjects
                  && subjectId !in found.value.subjects)
    ensures r.Fulfilled? ==> r.value == AssignPayload(professorId, subjectId)
  {
    match Find(professors, ProfessorHasId(professorId))
    case None => Rejected(NotFoundMessage)
    case Some(professor) =>
      if !professor.isActive then Rejected(InactiveMessage)
      else if |professor.subjects| >= professor.maxSubjects then Rejected(AtMaximumMessage)
      else if subjectId in professor.subjects then Rejected(AlreadyAssignedMessage)
      else Fulfilled(AssignPayload(professorId, subjectId))
  }

  /** `removeSubjectFromProfessor`: refused while a student has both the subject and the professor. */
  function RemoveThunk(students: seq<Student>, professorId: string, subjectId: string)
    : (r: Settled<AssignPayload>)
    ensures r.Rejected? <==>
              exists k :: 0 <= k < |students|
                          && subjectId in students[k].subjects && professorId in students[k].professors
    ensures r.Rejected? ==> r.reason == RemoveRefusedMessage
    ensures r.Fulfilled? ==> r.value == AssignPayload(professorId, subjectId)
  {
    if exists k :: 0 <= k < |students|
                   && subjectId in students[k].subjects && professorId in students[k].professors
    then Rejected(RemoveRefusedMessage)
    else Fulfilled(AssignPayload(professorId, subjectId))
  }

  // ---------------------------------------------------------------------------
  // Transitions of a professor record
  // ---------------------------------------------------------------------------

  /** The assign reducer's change: the subject pushed only if absent. */
  function WithAssigned(subjectId: string, now: string): Professor -> Professor
  {
    (p: Professor) =>
      if subjectId in p.subjects then p
      else p.(subjects := p.subjects + [subjectId], updatedAt := now)
  }

  /** The remove reducer's change: every occurrence filtered out. */
  function WithoutAssigned(subjectId: string, now: string): Professor -> Professor
  {
    (p: Professor) => p.(subjects := Without(p.subjects, subjectId), updatedAt := now)
  }

  function Merged(updates: ProfessorPatch, now: string): Professor -> Professor
  {
    (p: Professor) => MergeProfessor(p, updates, now)
  }

  /** Assigning the same subject again changes nothing. */
  lemma AssignIdempotent(professors: seq<Professor>, professorId: string, subjectId: string,
                         t1: string, t2: string)
    ensures UpdateFirst(UpdateFirst(professors, ProfessorHasId(professorId), WithAssigned(subjectId, t1)),
                        ProfessorHasId(professorId), WithAssigned(subjectId, t2))
         == UpdateFirst(professors, ProfessorHasId(professorId), WithAssigned(subjectId, t1))
  {
    UpdateFirstTwice(professors, ProfessorHasId(professorId), WithAssigned(subjectId, t1),
                     WithAssigned(subjectId, t2));
  }

  /** Every professor within their own cap. */
  predicate WithinCaps(professors: seq<Professor>)
  {
    forall k :: 0 <= k < |professors| ==> |professors[k].subjects| <= professors[k].maxSubjects
  }

  /** An assignment the thunk accepted keeps every professor within their cap. */
  lemma AssignKeepsCaps(professors: seq<Professor>, professorId: string, subjectId: string, now: string)
    requires WithinCaps(professors)
    requires AssignThunk(professors, professorId, subjectId).Fulfilled?
    ensures WithinCaps(UpdateFirst(professors, ProfessorHasId(professorId), WithAssigned(subjectId, now)))
  {
    var i := FirstIndex(professors, ProfessorHasId(professorId));
    assert Find(professors, ProfessorHasId(professorId)).value == professors[i];
  }

  /** A removal keeps every professor within their cap. */
  lemma RemoveKeepsCaps(professors: seq<Professor>, professorId: string, subjectId: string, now: string)
    requires WithinCaps(professors)
    ensures WithinCaps(UpdateFirst(professors, ProfessorHasId(professorId), WithoutAssigned(subjectId, now)))
  {
  }

  // ---------------------------------------------------------------------------
  // The slice state and its reducers
  // ---------------------------------------------------------------------------

  const DistributionMessage := "Algunos profesores no tienen exactamente 2 materias asignadas"

  /** An active professor without exactly two subjects. */
  predicate OffTarget(p: Professor)
  {
    p.isActive && |p.subjects| != 2
  }

  class ProfessorsState {
    var professors: seq<Professor>
    var isLoading: bool
    var error: Option<string>

    constructor()
      ensures professors == [] && !isLoading && error == None
    {
      professors := [];
      isLoading := false;
      error := None;
    }

    method ClearError()
      modifies this`error
      ensures error == None
    {
      error := None;
    }

    method ResetProfessors()
      modifies this
      ensures professors == [] && !isLoading && error == None
    {
      professors := [];
      isLoading := false;
      error := None;
    }

    /** Sets the error when some active professor is off target; never clears it. */
    method ValidateSubjectDistribution()
      modifies this`error
      ensures |Filter(professors, OffTarget)| > 0 ==> error == Some(DistributionMessage)
      ensures |Filter(professors, OffTarget)| == 0 ==> error == old(error)
    {
      var invalidProfessors := Filter(professors, OffTarget);
      if |invalidProfessors| > 0 {
        error := Some(DistributionMessage);
      }
    }

    method UpdateProfessorsFromRealtime(list: seq<Professor>)
      modifies this
      ensures professors == list && !isLoading && error == None
    {
      professors := list;
      isLoading := false;
      error := None;
    }

    method ThunkPending()
      modifies this`isLoading, this`error
      ensures isLoading && error == None
    {
      isLoading := true;
      error := None;
    }

    method ThunkRejected(reason: string)
      modifies this`isLoading, this`error
      ensures !isLoading && error == Some(RejectedError(reason))
    {
      isLoading := false;
      error := Some(RejectedError(reason));
    }

    method FetchProfessorsFulfilled(list: seq<Professor>)
      modifies this
      ensures professors == list && !isLoading && error == None
    {
      isLoading := false;
      professors := list;
      error := None;
    }

    method CreateProfessorFulfilled(p: Professor)
      modifies this
      ensures professors == old(professors) + [p] && !isLoading && error == None
    {
      isLoading := false;
      professors := professors + [p];
      error := None;
    }

    method UpdateProfessorFulfilled(payload: UpdatePayload, now: string)
      modifies this
      ensures professors == UpdateFirst(old(professors), ProfessorHasId(payload.id), Merged(payload.updates, now))
      ensures !isLoading && error == None
    {
      isLoading := false;
      var index := FirstIndex(professors, ProfessorHasId(payload.id));
      if index != -1 {
        professors := professors[index := MergeProfessor(professors[index], payload.updates, now)];
      }
      error := None;
    }

    method DeleteProfessorFulfilled(professorId: string)
      modifies this
      ensures professors == Filter(old(professors), ProfessorLacksId(professorId))
      ensures forall p :: p in professors <==> p in old(professors) && p.id != professorId
      ensures !isLoading && error == None
    {
      isLoading := false;
      professors := Filter(professors, ProfessorLacksId(professorId));
      error := None;
    }

    method AssignFulfilled(payload: AssignPayload, now: string)
      modifies this
      ensures professors == UpdateFirst(old(professors), ProfessorHasId(payload.professorId),
                                        WithAssigned(payload.subjectId, now))
      ensures !isLoading && error == None
    {
      isLoading := false;
      var index := FirstIndex(professors, ProfessorHasId(payload.professorId));
      if index != -1 && payload.subjectId !in professors[index].subjects {
        var p := professors[index];
        professors := professors[index := p.(subjects := p.subjects + [payload.subjectId], updatedAt := now)];
      }
      error := None;
    }

    method RemoveFulfilled(payload: AssignPayload, now: string)
      modifies this
      ensures professors == UpdateFirst(old(professors), ProfessorHasId(payload.professorId),
                                        WithoutAssigned(payload.subjectId, now))
      ensures !isLoading && error == None
    {
      isLoading := false;
      var index := FirstIndex(professors, ProfessorHasId(payload.professorId));
      if index != -1 {
        var p := professors[index];
        professors := professors[index := p.(subjects := Without(p.subjects, payload.subjectId),
                                             updatedAt := now)];
      }
      error := None;
    }
  }

  // ---------------------------------------------------------------------------
  // Selectors
  // ---------------------------------------------------------------------------

  predicate IsActiveProfessor(p: Professor)
  {
    p.isActive
  }

  predicate FullLoadTest(p: Professor)
  {
    p.isActive && |p.subjects| >= p.maxSubjects
  }

  predicate AvailableTest(p: Professor)
  {
    p.isActive && |p.subjects| < p.maxSubjects
  }

  function SelectActiveProfessors(professors: seq<Professor>): (r: seq<Professor>)
    ensures forall p :: p in r <==> p in professors && p.isActive
    ensures IsSubsequence(r, professors)
  {
    Filter(professors, IsActiveProfessor)
  }

  function SelectProfessorsWithFullLoad(professors: seq<Professor>): (r: seq<Professor>)
    ensures forall p :: p in r <==> p in professors && p.isActive && |p.subjects| >= p.maxSubjects
    ensures IsSubsequence(r, professors)
  {
    Filter(professors, FullLoadTest)
  }

  function SelectAvailableProfessors(professors: seq<Professor>): (r: seq<Professor>)
    ensures forall p :: p in r <==> p in professors && p.isActive && |p.subjects| < p.maxSubjects
    ensures IsSubsequence(r, professors)
  {
    Filter(professors, AvailableTest)
  }

  /**
   * The fully loaded and the available professors split the active ones: together they
   * are the active professors, each counted once.
   */
  lemma FullLoadAndAvailablePartitionActive(professors: seq<Professor>)
    ensures multiset(SelectProfessorsWithFullLoad(professors)) + multiset(SelectAvailableProfessors(professors))
         == multiset(SelectActiveProfessors(professors))
    ensures forall p :: !(p in SelectProfessorsWithFullLoad(professors) && p in SelectAvailableProfessors(professors))
  {
    FilterPartition(professors, IsActiveProfessor, FullLoadTest, AvailableTest);
  }

  /** `selectIsSubjectDistributionValid`: every active professor has exactly two subjects. */
  function SelectIsSubjectDistributionValid(professors: seq<Professor>): (r: bool)
    ensures r <==> forall p :: p in SelectActiveProfessors(professors) ==> |p.subjects| == 2
  {
    forall k :: 0 <= k < |professors| ==> !professors[k].isActive || |professors[k].subjects| == 2
  }

  /** The reducer finds an off-target professor exactly when the selector says the distribution is invalid. */
  lemma DistributionReducerMatchesSelector(professors: seq<Professor>)
    ensures |Filter(professors, OffTarget)| > 0 <==> !SelectIsSubjectDistributionValid(professors)
  {
    var bad := Filter(professors, OffTarget);
    if |bad| > 0 {
      assert bad[0] in bad;
      var k :| 0 <= k < |professors| && professors[k] == bad[0];
    }
    if !SelectIsSubjectDistributionValid(professors) {
      var k :| 0 <= k < |professors| && professors[k].isActive && |professors[k].subjects| != 2;
      assert professors[k] in bad;
    }
  }

  /** `selectProfessorSubjects`: the subjects of the first professor with the id, or []. */
  function SelectProfessorSubjects(professors: seq<Professor>, professorId: string): (r: seq<string>)
    ensures Find(professors, ProfessorHasId(professorId)).None? ==> r == []
    ensures Find(professors, ProfessorHasId(professorId)).Some? ==>
              r == Find(professors, ProfessorHasId(professorId)).value.subjects
  {
    match Find(professors, ProfessorHasId(professorId))
    case None => []
    case Some(p) => p.subjects
  }

  /** `selectCanProfessorTakeMoreSubjects`: false for an unknown id. */
  function SelectCanProfessorTakeMoreSubjects(professors: seq<Professor>, professorId: string): (r: bool)
    ensures Find(professors, ProfessorHasId(professorId)).None? ==> !r
    ensures Find(professors, ProfessorHasId(professorId)).Some? ==>
              (r <==> AvailableTest(Find(professors, ProfessorHasId(professorId)).value))
  {
    match Find(professors, ProfessorHasId(professorId))
    case None => false
    case Some(p) => p.isActive && |p.subjects| < p.maxSubjects
  }

  /**
   * A professor can take more subjects exactly when the professor found under the id is
   * listed as available; then assigning a subject they do not hold is accepted.
   */
  lemma CanTakeMoreMeansAvailable(professors: seq<Professor>, professorId: string, subjectId: string)
    ensures SelectCanProfessorTakeMoreSubjects(professors, professorId) <==>
              Find(professors, ProfessorHasId(professorId)).Some?
              && Find(professors, ProfessorHasId(professorId)).value in SelectAvailableProfessors(professors)
    ensures SelectCanProfessorTakeMoreSubjects(professors, professorId)
            && subjectId !in SelectProfessorSubjects(professors, professorId)
            ==> AssignThunk(professors, professorId, subjectId).Fulfilled?
  {
  }
}
