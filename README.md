# Academic enrollment core, modelled in Dafny

The system is a React/Redux client for a small academic office. Its data lives in Firestore:
students, subjects and professors. Students pick up to three subjects for a semester. The
rules are:

- at most three subjects;
- no two subjects taught by the same professor;
- no more credits than the student's cap.

Every subject has a seat counter (`enrolled`) that must stay within its `capacity`. A
professor teaches a bounded number of subjects.

This project models the sequential logic between the screens and the database. There are
four groups:

- **The subject selection screen** (`subject_selection.dfy`):
  - the chain of checks behind a click on a subject;
  - the credit total;
  - the "unsaved changes" comparison;
  - the save, which computes the subjects added and removed against the stored record and
    rewrites their seat counters. The save is modelled as a class holding the screen's
    local state.
- **The four Redux slices** (`subjects_slice.dfy`, `students_slice.dfy`, `professors_slice.dfy`,
  `auth_slice.dfy`):
  - each slice state is a class;
  - each reducer is a method that states the whole new state;
  - each thunk's guard chain is a function that yields how the thunk settles;
  - the selectors are functions.
- **The three Firestore services** (`students_service.dfy`, `subjects_service.dfy`,
  `professors_service.dfy`):
  - each collection is a class over a `map` from document id to record;
  - each read-check-write operation is a method;
  - the loops that walk a query snapshot are methods with loop invariants.
- **Two small validators**:
  - the password strength check and registration guard order (`login_form.dfy`);
  - the student directory's name lookups and filters (`students_list.dfy`).

Shared definitions:

- `types.dfy` holds the three entities and their partial updates.
- `common.dfy` holds the JavaScript array and string operations the code relies on: `filter`,
  `find`/`findIndex`, `includes`, `toLowerCase`, `Math.max(0, …)`.
- `text.dfy` holds string ordering, de-duplication, `toString` and `parseInt` on integers.

The caps differ between files, and the model keeps each file's own cap:

| where | cap |
|---|---|
| the professors service | hard-codes 2 subjects per professor |
| the professors slice | reads `maxSubjects` from each professor |
| every check on students | 3 subjects and 9 credits |

The declarations in `src/types/index.ts` include `CreditLimit.MAX_SUBJECTS_PER_SEMESTER = 4`. No code enforces it, so the model follows the code and uses 3.

Timestamps are opaque strings supplied by the caller (`now`). Fresh document ids are
parameters that are not yet in the collection.

## Model

| member | source | states |
|---|---|---|
| Common.RejectedError | src/store/slices/subjectsSlice.ts:239-242 | a rejected thunk's error is its reason, or "Error desconocido" when the reason is empty; never empty |
| Common.Max0 | src/services/firebaseSubjects.ts:243 | the floored value is non-negative, at least the input, and is either 0 or the input |
| Common.Without | src/store/slices/subjectsSlice.ts:179-181 | removing an id drops every occurrence of it, keeps every other element as often as it occurred and in order, and changes nothing when the id is absent |
| Common.UpdateFirst | src/store/slices/subjectsSlice.ts:306-315 | mutating the element `find` returns changes exactly that position and leaves the list alone when nothing matches |
| Text.SortedCopyEqIffPermutation | src/components/subjects/SubjectSelection.tsx:197-200 | the sorted copies of two lists are equal exactly when the lists hold the same elements the same number of times |
| Text.SortedDistinct | src/components/students/StudentsList.tsx:57-58 | `Array.from(new Set(x)).sort()` is sorted, has no repeats and holds exactly the elements of x |
| Text.IntToStringRoundTrip | src/components/auth/LoginForm.tsx:98 | `parseInt` reads back the decimal notation of every integer |
| Text.ParseIntPrefix | src/components/subjects/SubjectSelection.tsx:402-405 | `parseInt` reads back a number written at the start of a text that continues with a non-digit |
| Text.IntToStringInjective | src/store/slices/professorsSlice.ts:49 | distinct integers have distinct decimal notations |
| Types.MergeStudent | src/services/firebaseStudents.ts:99-103 | every field the partial update carries is overwritten, every other field is kept, the id and creation time stay and the update time becomes now |
| Types.MergeSubject | src/services/firebaseSubjects.ts:93-97 | the same for a subject: carried fields overwritten, the rest kept, the timestamp renewed |
| Types.MergeProfessor | src/services/firebaseProfessors.ts:92-96 | the same for a professor: carried fields overwritten, the rest kept, the timestamp renewed |
| Types.MergeStudentIdempotent | src/services/firebaseStudents.ts:97-103 | spreading the same partial update twice gives the same record as spreading it once |
| Types.MergeStudentNothing | src/store/slices/studentsSlice.ts:225-239 | an update with no fields only refreshes the timestamp |
| Types.MergeEnrolledOnly | src/components/subjects/SubjectSelection.tsx:315-320 | a counter update changes only `enrolled` and the timestamp of a subject |
| Types.NewSubject | src/services/firebaseSubjects.ts:68-87 | a created subject carries the input fields unchanged, the given id and the creation time |
| Types.NewProfessor | src/services/firebaseProfessors.ts:67-86 | a created professor carries the input fields unchanged, the given id and the creation time |
| StudentsService.NewStudent | src/services/firebaseStudents.ts:70-80 | a new student keeps name, e-mail and semester; the phone is overridden with ''; subjects and professors are empty; gpa 0, credits 0, maxCredits 9 |
| StudentsService.SelectSubjectCheck | src/services/firebaseStudents.ts:170-183 | `selectSubject` refuses a missing student, then three or more subjects, then credits + 3 over 9, in that order, and otherwise accepts |
| StudentsService.AppendSubject | src/services/firebaseStudents.ts:186-190 | an accepted selection appends the id with no duplicate check, adds 3 credits and touches nothing else |
| StudentsService.DropSubject | src/services/firebaseStudents.ts:203-214 | a removal drops every occurrence of the id, keeps the other ids' counts, and floors credits − 3 at 0 whether or not the id was there |
| StudentsService.SelectKeepsLimits | src/services/firebaseStudents.ts:165-195 | an accepted selection keeps a record within 3 subjects and 0..9 credits |
| StudentsService.RemoveKeepsLimits | src/services/firebaseStudents.ts:198-219 | a removal keeps a record within 3 subjects and 0..9 credits |
| StudentsService.NewStudentWithinLimits | src/services/firebaseStudents.ts:67-92 | a newly created record is within the limits |
| StudentsService.StudentsCollection.GetStudentById | src/services/firebaseStudents.ts:48-64 | the stored record under the id, or None (null, not an error) when there is none |
| StudentsService.StudentsCollection.CreateStudent | src/services/firebaseStudents.ts:67-92 | the collection gains exactly the new record under the fresh id |
| StudentsService.StudentsCollection.UpdateStudent | src/services/firebaseStudents.ts:95-108 | a missing document is an error that changes nothing; otherwise only the given fields of that document change |
| StudentsService.StudentsCollection.DeleteStudent | src/services/firebaseStudents.ts:111-118 | the collection loses that id and nothing else |
| StudentsService.StudentsCollection.SelectSubject | src/services/firebaseStudents.ts:165-195 | the error is the first failed check; a refusal writes nothing; an acceptance writes the appended record |
| StudentsService.StudentsCollection.RemoveSubject | src/services/firebaseStudents.ts:198-219 | only a missing student is an error, and it writes nothing; otherwise the dropped record is written |
| SubjectsService.UpdateSubjectDoc | src/services/firebaseSubjects.ts:90-102 | an update of a missing document fails; otherwise only that document changes, by merging the given fields |
| SubjectsService.EnrollCheck | src/services/firebaseSubjects.ts:203-216 | `enrollStudent` refuses a missing subject, then an inactive one, then a full one, and accepts exactly the available ones |
| SubjectsService.EmptyTermMatchesAll | src/services/firebaseSubjects.ts:351-352 | the empty search term matches every subject |
| SubjectsService.SearchIgnoresCase | src/services/firebaseSubjects.ts:351-352 | the search gives the same answer for a term and its lower-cased form |
| SubjectsService.SubjectsCollection.GetSubjectById | src/services/firebaseSubjects.ts:49-65 | the stored record under the id, or None (null) when there is none |
| SubjectsService.SubjectsCollection.CreateSubject | src/services/firebaseSubjects.ts:68-87 | the returned subject is the input unchanged plus the fresh id, and is stored under it |
| SubjectsService.SubjectsCollection.UpdateSubject | src/services/firebaseSubjects.ts:90-102 | a missing document is an error that changes nothing; otherwise the given fields of that document are merged |
| SubjectsService.SubjectsCollection.DeleteSubject | src/services/firebaseSubjects.ts:105-112 | the collection loses that id and nothing else |
| SubjectsService.SubjectsCollection.EnrollStudent | src/services/firebaseSubjects.ts:198-227 | the error is the first failed check and nothing is written; on success `enrolled` grows by exactly 1 |
| SubjectsService.SubjectsCollection.UnenrollStudent | src/services/firebaseSubjects.ts:230-250 | only a missing subject is an error; otherwise `enrolled` becomes max(0, enrolled − 1) |
| SubjectsService.SubjectsCollection.GetAvailableSubjects | src/services/firebaseSubjects.ts:167-195 | the loop keeps, in snapshot order, exactly the stored subjects that are active and have a free seat |
| SubjectsService.SubjectsCollection.SearchSubjects | src/services/firebaseSubjects.ts:333-362 | the loop keeps, in snapshot order, exactly the active subjects whose lower-cased name or description contains the lower-cased term |
| ProfessorsService.AssignCheck | src/services/firebaseProfessors.ts:171-184 | assignment refuses a missing professor, then two or more subjects (whatever `maxSubjects` says), then a subject already held, and otherwise accepts |
| ProfessorsService.AssignStaysUnderCap | src/services/firebaseProfessors.ts:187-190 | an accepted assignment leaves at most two subjects and holds the new one exactly once |
| ProfessorsService.ReportStep | src/services/firebaseProfessors.ts:340-344 | each professor visited adds its message to the report exactly when it holds more than two subjects |
| ProfessorsService.ValidateSubjectDistribution | src/services/firebaseProfessors.ts:334-357 | one message per professor with more than two subjects, in order; valid exactly when no professor has more than two, that is, when there are no messages |
| ProfessorsService.ProfessorsCollection.GetProfessorById | src/services/firebaseProfessors.ts:48-64 | the stored record under the id, or None (null) when there is none |
| ProfessorsService.ProfessorsCollection.CreateProfessor | src/services/firebaseProfessors.ts:67-86 | the returned professor is the input unchanged plus the fresh id, and is stored under it |
| ProfessorsService.ProfessorsCollection.UpdateProfessor | src/services/firebaseProfessors.ts:89-101 | a missing document is an error; otherwise only the given fields of that document change |
| ProfessorsService.ProfessorsCollection.DeleteProfessor | src/services/firebaseProfessors.ts:104-111 | the collection loses that id and nothing else |
| ProfessorsService.ProfessorsCollection.AssignSubjectToProfessor | src/services/firebaseProfessors.ts:166-195 | the error is the first failed check and nothing is written; on success the list grows by the one subject |
| ProfessorsService.ProfessorsCollection.RemoveSubjectFromProfessor | src/services/firebaseProfessors.ts:198-218 | only a missing professor is an error; otherwise every occurrence of the subject is removed |
| SubjectsSlice.MergeFilters | src/store/slices/subjectsSlice.ts:189-191 | each filter field takes the patch's value when present and keeps its own otherwise |
| SubjectsSlice.UpdateSubjectThunk | src/store/slices/subjectsSlice.ts:57-81 | a truthy credit value other than 3 is refused before any write; a missing subject is refused with the service's message; otherwise the document is merged and the thunk settles with the re-read document |
| SubjectsSlice.DeleteSubjectThunk | src/store/slices/subjectsSlice.ts:84-111 | deletion is refused, with the enrolled-students message, exactly when some student in the store has the subject; otherwise it is fulfilled with the subject id |
| SubjectsSlice.EnrollThunk | src/store/slices/subjectsSlice.ts:114-142 | enrollment refuses, in order, a subject not in the store, an inactive one and a full one, and accepts exactly an available one |
| SubjectsSlice.EnrollThunkAgreesWithService | src/store/slices/subjectsSlice.ts:123-135 | on a store list that mirrors the collection, the thunk accepts exactly what the service accepts and refuses with the same message |
| SubjectsSlice.AddSelected | src/store/slices/subjectsSlice.ts:172-176 | adding keeps the selection free of repeats, adds exactly the id, and appends only when absent |
| SubjectsSlice.AddSelectedIdempotent | src/store/slices/subjectsSlice.ts:172-176 | adding an id twice is adding it once |
| SubjectsSlice.AddThenRemove | src/store/slices/subjectsSlice.ts:172-181 | removing an id just added restores the selection |
| SubjectsSlice.EnrollKeepsSeatsConsistent | src/store/slices/subjectsSlice.ts:306-315 | an enrollment the thunk accepted keeps every counter between 0 and its capacity |
| SubjectsSlice.UnenrollKeepsSeatsConsistent | src/store/slices/subjectsSlice.ts:327-336 | an unenrollment keeps every counter between 0 and its capacity |
| SubjectsSlice.EnrollUnenrollRoundTrip | src/store/slices/subjectsSlice.ts:306-336 | unenrolling right after enrolling restores a non-negative counter |
| SubjectsSlice.SubjectsState.constructor | src/store/slices/subjectsSlice.ts:14-24 | the initial state: empty lists, not loading, no error, cleared filters |
| SubjectsSlice.SubjectsState.SetSelectedSubjects | src/store/slices/subjectsSlice.ts:167-169 | the selection becomes the given list |
| SubjectsSlice.SubjectsState.AddSelectedSubject | src/store/slices/subjectsSlice.ts:172-176 | the selection becomes the idempotent addition of the id |
| SubjectsSlice.SubjectsState.RemoveSelectedSubject | src/store/slices/subjectsSlice.ts:179-181 | the selection loses every occurrence of the id, the rest in order |
| SubjectsSlice.SubjectsState.ClearSelectedSubjects | src/store/slices/subjectsSlice.ts:184-186 | the selection becomes empty |
| SubjectsSlice.SubjectsState.UpdateFilters | src/store/slices/subjectsSlice.ts:189-191 | the filters are merged with the patch |
| SubjectsSlice.SubjectsState.ClearFilters | src/store/slices/subjectsSlice.ts:194-200 | the filters are all cleared |
| SubjectsSlice.SubjectsState.UpdateSubjectsFromRealtime | src/store/slices/subjectsSlice.ts:203-207 | the list is replaced wholesale; not loading; no error |
| SubjectsSlice.SubjectsState.ClearError | src/store/slices/subjectsSlice.ts:210-212 | the error is cleared |
| SubjectsSlice.SubjectsState.ResetSubjects | src/store/slices/subjectsSlice.ts:215-225 | the state returns to the initial state |
| SubjectsSlice.SubjectsState.ThunkPending | src/store/slices/subjectsSlice.ts:230-233 | loading, with the error cleared |
| SubjectsSlice.SubjectsState.ThunkRejected | src/store/slices/subjectsSlice.ts:239-242 | not loading, with the reason (or the default message) as the error |
| SubjectsSlice.SubjectsState.FetchSubjectsFulfilled | src/store/slices/subjectsSlice.ts:234-238 | the list becomes the fetched one |
| SubjectsSlice.SubjectsState.CreateSubjectFulfilled | src/store/slices/subjectsSlice.ts:250-254 | the new subject is appended |
| SubjectsSlice.SubjectsState.UpdateSubjectFulfilled | src/store/slices/subjectsSlice.ts:266-278 | the first subject with the id gets the update spread over it; an absent id leaves the list unchanged |
| SubjectsSlice.SubjectsState.DeleteSubjectFulfilled | src/store/slices/subjectsSlice.ts:290-294 | the list loses exactly the subjects with that id, the rest in order |
| SubjectsSlice.SubjectsState.EnrollFulfilled | src/store/slices/subjectsSlice.ts:306-315 | the matching subject's counter grows by 1 and every other subject is unchanged |
| SubjectsSlice.SubjectsState.UnenrollFulfilled | src/store/slices/subjectsSlice.ts:327-336 | the matching subject's counter becomes max(0, enrolled − 1) and every other subject is unchanged |
| SubjectsSlice.SelectFilteredSubjects | src/store/slices/subjectsSlice.ts:369-385 | the active subjects passing the search, professor and schedule filters (an empty filter passes everything), in list order |
| SubjectsSlice.ClearedFiltersShowActive | src/store/slices/subjectsSlice.ts:369-385 | with cleared filters the selector shows exactly the active subjects, in order |
| SubjectsSlice.SelectAvailableSubjects | src/store/slices/subjectsSlice.ts:388-393 | exactly the active subjects with a free seat, in list order |
| SubjectsSlice.SelectSubjectsByProfessor | src/store/slices/subjectsSlice.ts:396-401 | exactly the active subjects the professor teaches, in list order |
| SubjectsSlice.SelectCanEnrollInSubject | src/store/slices/subjectsSlice.ts:404-426 | true exactly when the subject and the student exist, the subject is active and not full, the student lacks it, and the student has fewer than 3 subjects and credits + 3 ≤ 9 |
| SubjectsSlice.CanEnrollImpliesAccepted | src/store/slices/subjectsSlice.ts:404-426 | a subject the selector offers is accepted by the enroll thunk and listed as available |
| StudentsSlice.MergeFilters | src/store/slices/studentsSlice.ts:131-133 | each filter field takes the patch's value when present and keeps its own otherwise |
| StudentsSlice.SelectSubjectThunk | src/store/slices/studentsSlice.ts:85-96 | the thunk settles as the service's checks decide, with the service's message as the reason, and the write happens only on success |
| StudentsSlice.RemoveSubjectThunk | src/store/slices/studentsSlice.ts:99-110 | only a missing student makes the thunk reject; otherwise the dropped record is written |
| StudentsSlice.SelectSubjectIdempotent | src/store/slices/studentsSlice.ts:270-287 | applying the selectSubject reducer twice with the same subject is applying it once |
| StudentsSlice.SelectSubjectStoreMatchesService | src/store/slices/studentsSlice.ts:270-287 | for an absent id the reducer performs the service's write; for a present id it changes nothing |
| StudentsSlice.Upsert | src/store/slices/studentsSlice.ts:153-165 | afterwards `find` by the id yields the record; an existing entry is replaced in place; otherwise the record is appended |
| StudentsSlice.UpsertIdempotent | src/store/slices/studentsSlice.ts:153-165 | upserting the same record twice is upserting it once |
| StudentsSlice.Refreshed | src/store/slices/studentsSlice.ts:162-164 | the current student is replaced exactly when its id matches |
| StudentsSlice.ApplyToCurrent | src/store/slices/studentsSlice.ts:279-285 | a change reaches the current student exactly when its id matches |
| StudentsSlice.StudentsState.constructor | src/store/slices/studentsSlice.ts:13-24 | the initial state: no students, no current student, not loading, no error, cleared filters |
| StudentsSlice.StudentsState.SetCurrentStudent | src/store/slices/studentsSlice.ts:121-123 | the current student becomes the given one |
| StudentsSlice.StudentsState.ClearCurrentStudent | src/store/slices/studentsSlice.ts:126-128 | there is no current student |
| StudentsSlice.StudentsState.UpdateFilters | src/store/slices/studentsSlice.ts:131-133 | the filters are merged with the patch |
| StudentsSlice.StudentsState.ClearFilters | src/store/slices/studentsSlice.ts:136-143 | the filters are all cleared |
| StudentsSlice.StudentsState.UpdateStudentsFromRealtime | src/store/slices/studentsSlice.ts:146-150 | the list is replaced wholesale; not loading; no error |
| StudentsSlice.StudentsState.UpdateStudentFromRealtime | src/store/slices/studentsSlice.ts:153-165 | the record is upserted by id, and the current student is refreshed when the ids match |
| StudentsSlice.StudentsState.ClearError | src/store/slices/studentsSlice.ts:168-170 | the error is cleared |
| StudentsSlice.StudentsState.ResetStudents | src/store/slices/studentsSlice.ts:173-184 | the state returns to the initial state |
| StudentsSlice.StudentsState.ThunkPending | src/store/slices/studentsSlice.ts:189-192 | loading, with the error cleared |
| StudentsSlice.StudentsState.ThunkRejected | src/store/slices/studentsSlice.ts:198-201 | not loading, with the reason (or the default message) as the error |
| StudentsSlice.StudentsState.FetchStudentsFulfilled | src/store/slices/studentsSlice.ts:193-197 | the list becomes the fetched one |
| StudentsSlice.StudentsState.CreateStudentFulfilled | src/store/slices/studentsSlice.ts:209-213 | the new student is appended |
| StudentsSlice.StudentsState.UpdateStudentFulfilled | src/store/slices/studentsSlice.ts:225-239 | the first student with the id, and the current student when its id matches, get the update merged in; the other students are unchanged |
| StudentsSlice.StudentsState.DeleteStudentFulfilled | src/store/slices/studentsSlice.ts:251-258 | the list loses exactly the students with the id, and the current student is cleared exactly when it had that id |
| StudentsSlice.StudentsState.SelectSubjectFulfilled | src/store/slices/studentsSlice.ts:270-287 | the matching student, and the current student, gain the subject and 3 credits only when they lack it |
| StudentsSlice.StudentsState.RemoveSubjectFulfilled | src/store/slices/studentsSlice.ts:299-316 | the matching student, and the current student, lose every occurrence of the subject, with credits floored at 0 |
| StudentsSlice.SelectFilteredStudents | src/store/slices/studentsSlice.ts:348-367 | the students passing the search, subject, professor and semester filters (an empty filter passes everything), in list order |
| StudentsSlice.ClearedFiltersShowAll | src/store/slices/studentsSlice.ts:348-367 | with cleared filters every student is shown, in order |
| StudentsSlice.SemesterFilterExact | src/store/slices/studentsSlice.ts:362-363 | filtering on a semester's notation keeps only students of exactly that semester |
| ProfessorsSlice.CreateProfessorThunk | src/store/slices/professorsSlice.ts:36-60 | creation is refused exactly when the input lists more subjects than its own `maxSubjects`; otherwise the record is the input with the clock's milliseconds as its id |
| ProfessorsSlice.CreatedIdsDistinct | src/store/slices/professorsSlice.ts:49 | records created at different milliseconds get different ids |
| ProfessorsSlice.UpdateProfessorThunk | src/store/slices/professorsSlice.ts:63-80 | an update carrying more than two subjects is refused; otherwise the payload echoes the arguments |
| ProfessorsSlice.DeleteProfessorThunk | src/store/slices/professorsSlice.ts:83-104 | deletion is refused exactly when some student in the store lists the professor |
| ProfessorsSlice.AssignThunk | src/store/slices/professorsSlice.ts:107-139 | assignment refuses, in order, a professor not in the store, an inactive one, one at `maxSubjects`, and a subject already held; otherwise it accepts |
| ProfessorsSlice.RemoveThunk | src/store/slices/professorsSlice.ts:142-163 | removal is refused exactly when some student has both the subject and the professor |
| ProfessorsSlice.AssignIdempotent | src/store/slices/professorsSlice.ts:282-291 | applying the assign reducer twice with the same subject is applying it once |
| ProfessorsSlice.AssignKeepsCaps | src/store/slices/professorsSlice.ts:126-128 | an assignment the thunk accepted keeps every professor within `maxSubjects` |
| ProfessorsSlice.RemoveKeepsCaps | src/store/slices/professorsSlice.ts:303-312 | a removal keeps every professor within `maxSubjects` |
| ProfessorsSlice.ProfessorsState.constructor | src/store/slices/professorsSlice.ts:13-17 | the initial state: no professors, not loading, no error |
| ProfessorsSlice.ProfessorsState.ClearError | src/store/slices/professorsSlice.ts:174-176 | the error is cleared |
| ProfessorsSlice.ProfessorsState.ResetProfessors | src/store/slices/professorsSlice.ts:179-183 | the state returns to the initial state |
| ProfessorsSlice.ProfessorsState.ValidateSubjectDistribution | src/store/slices/professorsSlice.ts:186-194 | the error is set when some active professor has other than two subjects; otherwise the error is left as it was |
| ProfessorsSlice.ProfessorsState.UpdateProfessorsFromRealtime | src/store/slices/professorsSlice.ts:197-201 | the list is replaced wholesale; not loading; no error |
| ProfessorsSlice.ProfessorsState.ThunkPending | src/store/slices/professorsSlice.ts:206-209 | loading, with the error cleared |
| ProfessorsSlice.ProfessorsState.ThunkRejected | src/store/slices/professorsSlice.ts:215-218 | not loading, with the reason (or the default message) as the error |
| ProfessorsSlice.ProfessorsState.FetchProfessorsFulfilled | src/store/slices/professorsSlice.ts:210-214 | the list becomes the fetched one |
| ProfessorsSlice.ProfessorsState.CreateProfessorFulfilled | src/store/slices/professorsSlice.ts:226-230 | the new professor is appended |
| ProfessorsSlice.ProfessorsState.UpdateProfessorFulfilled | src/store/slices/professorsSlice.ts:242-254 | the first professor with the id gets the update merged in; an absent id leaves the list unchanged |
| ProfessorsSlice.ProfessorsState.DeleteProfessorFulfilled | src/store/slices/professorsSlice.ts:266-270 | the list loses exactly the professors with that id |
| ProfessorsSlice.ProfessorsState.AssignFulfilled | src/store/slices/professorsSlice.ts:282-291 | the matching professor gains the subject only when lacking it |
| ProfessorsSlice.ProfessorsState.RemoveFulfilled | src/store/slices/professorsSlice.ts:303-312 | the matching professor loses every occurrence of the subject |
| ProfessorsSlice.SelectActiveProfessors | src/store/slices/professorsSlice.ts:338-341 | exactly the active professors, in list order |
| ProfessorsSlice.SelectProfessorsWithFullLoad | src/store/slices/professorsSlice.ts:344-349 | exactly the active professors at or over `maxSubjects`, in list order |
| ProfessorsSlice.SelectAvailableProfessors | src/store/slices/professorsSlice.ts:352-357 | exactly the active professors under `maxSubjects`, in list order |
| ProfessorsSlice.FullLoadAndAvailablePartitionActive | src/store/slices/professorsSlice.ts:344-357 | the fully loaded and the available professors are disjoint and together are the active ones, each counted once |
| ProfessorsSlice.SelectIsSubjectDistributionValid | src/store/slices/professorsSlice.ts:360-365 | valid exactly when every professor that `selectActiveProfessors` lists has two subjects |
| ProfessorsSlice.DistributionReducerMatchesSelector | src/store/slices/professorsSlice.ts:186-194 | the reducer finds an off-target professor exactly when the selector says the distribution is invalid |
| ProfessorsSlice.SelectProfessorSubjects | src/store/slices/professorsSlice.ts:368-372 | the subjects of the professor found under the id, or none |
| ProfessorsSlice.SelectCanProfessorTakeMoreSubjects | src/store/slices/professorsSlice.ts:375-379 | false for an unknown id; otherwise active and under `maxSubjects` |
| ProfessorsSlice.CanTakeMoreMeansAvailable | src/store/slices/professorsSlice.ts:375-379 | true exactly when the professor found is listed as available, and then assigning a subject they do not hold is accepted |
| AuthSlice.AuthState.constructor | src/store/slices/authSlice.ts:8-13 | the initial state: signed out, not loading, no error |
| AuthSlice.AuthState.ClearError | src/store/slices/authSlice.ts:77-79 | the error is cleared |
| AuthSlice.AuthState.SetUser | src/store/slices/authSlice.ts:82-86 | the user is signed in and the error is cleared |
| AuthSlice.AuthState.ResetAuth | src/store/slices/authSlice.ts:89-94 | signed out, not loading, no error |
| AuthSlice.AuthState.UpdateUser | src/store/slices/authSlice.ts:97-101 | the user is replaced only when a user with the same id is signed in; otherwise nothing changes |
| AuthSlice.AuthState.ThunkPending | src/store/slices/authSlice.ts:106-109 | loading, with the error cleared |
| AuthSlice.AuthState.LogoutPending | src/store/slices/authSlice.ts:140-142 | loading, with the error left in place |
| AuthSlice.AuthState.SignInFulfilled | src/store/slices/authSlice.ts:110-115 | login and registration sign the user in, settle loading and clear the error |
| AuthSlice.AuthState.ThunkRejected | src/store/slices/authSlice.ts:116-119 | not loading, with the reason (or the default message) as the error; the user is untouched |
| AuthSlice.AuthState.LogoutFulfilled | src/store/slices/authSlice.ts:143-148 | signed out, not loading, no error |
| AuthSlice.AuthState.UpdateProfileFulfilled | src/store/slices/authSlice.ts:160-166 | the payload is merged into the user only when there is one; every reducer keeps "authenticated" equal to "has a user" |
| SubjectSelection.TotalAppend | src/components/subjects/SubjectSelection.tsx:123-126 | the credit total over a concatenation is the sum of the totals (unknown ids count 0) |
| SubjectSelection.TotalWithout | src/components/subjects/SubjectSelection.tsx:123-126 | deselecting a subject takes its credits off the total once per occurrence |
| SubjectSelection.EffectiveMaxCredits | src/components/subjects/SubjectSelection.tsx:172 | the cap is the student's `maxCredits`, or 9 without a student or with a falsy cap |
| SubjectSelection.Toggle | src/components/subjects/SubjectSelection.tsx:136-189 | a click is ignored while saving or on an unknown id; removes a selected id everywhere; otherwise refuses, in order, a full selection, a repeated professor and an over-cap total, each leaving the selection unchanged; otherwise appends the id once |
| SubjectSelection.ToggleKeepsRules | src/components/subjects/SubjectSelection.tsx:150-182 | every click keeps a selection within 3 subjects, within the credit cap, and free of any repeated professor |
| SubjectSelection.AddThenRemoveRestores | src/components/subjects/SubjectSelection.tsx:142-144 | clicking a subject just added removes it again and restores the selection |
| SubjectSelection.KnownSelectedOnce | src/components/subjects/SubjectSelection.tsx:162-169 | with distinct professors a known subject appears at most once in the selection |
| SubjectSelection.WithoutFreesProfessor | src/components/subjects/SubjectSelection.tsx:129-134 | once a selected subject is deselected, `hasDuplicateProfessor` no longer finds its professor in the selection |
| SubjectSelection.RemoveThenAddRestores | src/components/subjects/SubjectSelection.tsx:142-182 | clicking a selected subject twice gives back the same subjects, and the unsaved-changes flag agrees |
| SubjectSelection.HasUnsavedChanges | src/components/subjects/SubjectSelection.tsx:192-201 | false without a student; otherwise true exactly when the stored and selected lists are not permutations of each other |
| SubjectSelection.ToAdd | src/components/subjects/SubjectSelection.tsx:278 | the selected ids the stored record lacks, in selection order |
| SubjectSelection.ToRemove | src/components/subjects/SubjectSelection.tsx:279 | the stored ids no longer selected, in stored order |
| SubjectSelection.DifferenceReachesSelection | src/components/subjects/SubjectSelection.tsx:277-279 | the stored ids not removed, together with the added ids, are exactly the selection; nothing is both added and removed |
| SubjectSelection.NoChangesNoDifference | src/components/subjects/SubjectSelection.tsx:277-279 | when the selection is a permutation of the stored list, there is nothing to add or remove |
| SubjectSelection.SelectedProfessors | src/components/subjects/SubjectSelection.tsx:300-303 | the professors sent with the update are exactly the non-empty professors of known selected subjects |
| SubjectSelection.PlanSave | src/components/subjects/SubjectSelection.tsx:238-305 | a save is ignored while saving; refuses an empty selection, then an over-cap total, then a missing student or user, then a missing stored record; otherwise sends the selection's update and the difference against the stored record |
| SubjectSelection.CountersWritten | src/components/subjects/SubjectSelection.tsx:309-343 | each added known subject's counter becomes the local counter + 1; each removed one becomes max(0, local − 1); every other stored subject is untouched |
| SubjectSelection.CountersStayNonNegative | src/components/subjects/SubjectSelection.tsx:309-343 | with an up-to-date local copy, a save keeps counters non-negative and moves each by at most one |
| SubjectSelection.AddWriteStep | src/components/subjects/SubjectSelection.tsx:310-325 | one `updateSubject` call of the first loop extends the written counters by that subject; a subject missing from the database is rejected and leaves the map as it was |
| SubjectSelection.SkipStep | src/components/subjects/SubjectSelection.tsx:312-313 | an id the screen does not know is skipped without any write |
| SubjectSelection.RemoveWriteStep | src/components/subjects/SubjectSelection.tsx:328-343 | one `updateSubject` call of the second loop extends the written counters by that subject; a subject missing from the database is rejected and leaves the map as it was |
| SubjectSelection.CounterWrite | src/components/subjects/SubjectSelection.tsx:315-320 | an `updateSubject` call carrying only `enrolled` sets that counter and the update time on a stored subject and changes nothing else; for a subject missing from the database it is rejected and the store is unchanged |
| SubjectSelection.AddLoopStep | src/components/subjects/SubjectSelection.tsx:310-325 | one pass of the first loop, written or skipped, moves the store from the counters written for the ids before it to those written for one more id |
| SubjectSelection.RemoveLoopStep | src/components/subjects/SubjectSelection.tsx:328-343 | one pass of the second loop, written or skipped, moves the store likewise for one more removed id |
| SubjectSelection.WriteAddedCounters | src/components/subjects/SubjectSelection.tsx:310-325 | the first loop leaves exactly the counters written for the added ids |
| SubjectSelection.WriteRemovedCounters | src/components/subjects/SubjectSelection.tsx:328-343 | started on what the first loop left, the second loop leaves exactly the counters written for both lists |
| SubjectSelection.WriteCounters | src/components/subjects/SubjectSelection.tsx:309-343 | the two loops of `updateSubject` calls, with a failed write caught and skipped, leave exactly the written counters |
| SubjectSelection.SavedDifferenceMeansStoredDiffers | src/components/subjects/SubjectSelection.tsx:295-305 | whenever a save writes any counter, the stored subject list it leaves differs from the saved selection |
| SubjectSelection.PersistedSaveIsIdempotent | src/components/subjects/SubjectSelection.tsx:277-279 | once the selection is stored with the student, the next save finds nothing to add or remove |
| SubjectSelection.AvailabilityText | src/components/subjects/SubjectSelection.tsx:402-405 | the text starts with the free-seat count, which `parseInt` reads back, and ends with " cupos disponibles" |
| SubjectSelection.SelectionScreen.constructor | src/components/subjects/SubjectSelection.tsx:26-30 | the first render: no subjects, nothing selected, not saving, no student |
| SubjectSelection.SelectionScreen.CopyFromStore | src/components/subjects/SubjectSelection.tsx:33-36 | a non-empty store list replaces the screen's subjects; an empty one leaves them as they were |
| SubjectSelection.SelectionScreen.LoadStudentData | src/components/subjects/SubjectSelection.tsx:84-113 | nothing changes without a user or with an empty user id; otherwise the stored record if found, otherwise the store's user, becomes the student and its subjects the selection |
| SubjectSelection.SelectionScreen.ToggleSubject | src/components/subjects/SubjectSelection.tsx:136-189 | the click's outcome and new selection are those of `Toggle` |
| SubjectSelection.SelectionScreen.SaveSelection | src/components/subjects/SubjectSelection.tsx:237-393 | as written: the plan's outcome; on a save the counters are written, the refetched non-empty subject list becomes the screen's copy, and the reload puts back the stored record's unchanged subjects |
| SubjectSelection.SelectionScreen.SaveSelectionPersisted | src/components/subjects/SubjectSelection.tsx:237-393 | corrected: the student record is merged with the update before the counters are written, the refetched subjects reach the screen, and the screen keeps the saved selection |
| SubjectSelection.AsWrittenSecondSaveCountsAgain | src/components/subjects/SubjectSelection.tsx:295-356 | as written, saving a new subject, selecting it again on the reloaded screen and saving again plans it as an addition both times and raises its counter by two |
| LoginForm.HasCharIn | src/components/auth/LoginForm.tsx:38-40 | a character class regular expression matches exactly when some character lies in the range |
| LoginForm.Utf16Length | src/components/auth/LoginForm.tsx:37 | `password.length` counts UTF-16 code units: at least the number of characters, at most twice it, and equal to it when no character lies above U+FFFF |
| LoginForm.Utf16LengthAppend | src/components/auth/LoginForm.tsx:37 | the code units of a concatenation add up |
| LoginForm.ValidatePassword | src/components/auth/LoginForm.tsx:36-49 | the flags hold exactly for: at least 8 UTF-16 code units, an A–Z, an a–z, a 0–9 character; valid is their conjunction |
| LoginForm.AstralCharactersCountTwice | src/components/auth/LoginForm.tsx:37 | an upper-case letter, a lower-case letter and a digit followed by three characters above U+FFFF (three emoji) are six characters yet a valid password, since each of the three is two code units |
| LoginForm.ExtendingKeepsValid | src/components/auth/LoginForm.tsx:36-49 | typing more after a valid password keeps it valid |
| LoginForm.HandleRegister | src/components/auth/LoginForm.tsx:71-112 | an invalid password is refused before the confirmation is compared; a differing confirmation is refused next; otherwise `onRegister` gets the fields with the parsed semester |
| LoginForm.RegisteredPasswordIsValid | src/components/auth/LoginForm.tsx:83-99 | the password handed to `onRegister` is valid and equals the confirmation |
| LoginForm.RegisterReadsSemester | src/components/auth/LoginForm.tsx:98 | a semester typed as a number's notation reaches `onRegister` as that number |
| StudentsList.SubjectName | src/components/students/StudentsList.tsx:39-42 | the name of the first subject with the id, or the id itself when none has it |
| StudentsList.ProfessorName | src/components/students/StudentsList.tsx:44-47 | the name of the first professor with the id, or the id itself when none has it |
| StudentsList.SubjectNameOfUniqueId | src/components/students/StudentsList.tsx:39-42 | with unique ids, the name shown is the subject's own name |
| StudentsList.SubjectNames | src/components/students/StudentsList.tsx:52 | one name per subject id, position by position |
| StudentsList.ProfessorNames | src/components/students/StudentsList.tsx:53 | one name per professor id, position by position |
| StudentsList.MappedStudents | src/components/students/StudentsList.tsx:50-54 | every student, in order, with its subject and professor names |
| StudentsList.AllSubjects | src/components/students/StudentsList.tsx:57 | sorted, without repeats, and exactly the names of the subjects |
| StudentsList.AllProfessors | src/components/students/StudentsList.tsx:58 | sorted, without repeats, and exactly the names of the professors |
| StudentsList.FilteredStudents | src/components/students/StudentsList.tsx:61-69 | the students matching name-or-e-mail search and the two selects, in order, and exactly those |
| StudentsList.NoFiltersShowEveryone | src/components/students/StudentsList.tsx:61-69 | an empty search with both selects at "all" shows every student, in order |
| StudentsList.SubjectFilterMeansName | src/components/students/StudentsList.tsx:61-69 | a subject select keeps a student exactly when one of its subjects shows that name |

## Left out

- Firestore and Firebase plumbing is a set of foreign calls, and each collection is a map:
  - `onSnapshot` subscriptions (`subscribeTo*`);
  - `writeBatch` (`batchUpdate*`);
  - `orderBy` ordering;
  - the `getAll*` fetches;
  - `getStudentsBySubject`, `getStudentsByProfessor`, `getSubjectsByProfessor`, `getActiveSubjects`, `getSubjectsByPrerequisites`, `getProfessorsBySubject`, `getActiveProfessors`;
  - `src/services/firebase.ts`.
- A query result is a snapshot parameter. `IsSnapshotOf` relates it to the collection: each stored document appears exactly once, and nothing else. The order of the snapshot is not modelled.
- `searchProfessors` and `getProfessorsBySpecialty` read a `specialty` field that `Professor` does not have.
- Authentication is out of scope: `src/services/firebaseAuth.ts`, credential handling, the error-code messages, and the `loginUser`, `registerUser`, `logoutUser` and `updateProfile` thunks that call it. Only the reducers of the auth slice are modelled.
- `handleLogin` in `src/components/auth/LoginForm.tsx` has no guard. It only forwards the fields.
- Timing and concurrency are not part of the model:
  - the `setTimeout` delays inside thunks and the save;
  - the `Promise.all` refreshes;
  - races between realtime updates and mutations;
  - the `isLoading` flag set and reset inside `saveSelection` (only its net effect, unchanged, is modelled).
- Timestamps from `new Date().toISOString()` and ids from `Date.now()` are parameters.
- Floating-point presentation is out: `getAvailabilityColor`, the GPA badge, and the averages and progress bars of the dashboard and the student's subject page. `gpa` is a `real` that nothing computes with.
- These components are view or fixture code and are not part of this model: `Dashboard`, `StudentSubjects`, `MyProfile`, `DebugRedux`, `SeedData`, routing, layouts, the store wiring and `redux-persist`.
- Thunks that only fetch are not modelled as functions: `fetchSubjects`, `fetchStudents` and `fetchProfessors`. Their fulfilled reducers are modelled.
- The slice thunks `createStudent`, `createSubject` and the students slice's `deleteStudent` are not modelled as functions. The write each performs is `StudentsService.StudentsCollection.CreateStudent`, `SubjectsService.SubjectsCollection.CreateSubject` and `StudentsService.StudentsCollection.DeleteStudent`, and their payload (the created record, the deleted id) goes to the fulfilled reducer.
- Thunks that only echo their argument are not modelled as functions: the students slice's `updateStudent` and the subjects slice's `unenrollStudentFromSubject`. Their payload goes to the reducers unchanged.
- `toast` notifications and the error-message mapping in the `catch` of `saveSelection` are UI text.
- The screen's realtime subscriptions (the student and the subjects) are not modelled, so a subject list pushed by the subscription never replaces the screen's copy. The screen's copy of the professors for display names is not modelled either. The screen's subject list is keyed by id.
- SubjectSelection.SelectionScreen.SaveSelection: the update the save dispatches to the Redux store (`updateStudent`) is returned in the outcome but not applied to a store. Of the refresh, the refetched subjects reaching the screen and the reload of the student record are modelled; the refetched student list is not.
- SubjectSelection.WriteCounters: the store's copy of each updated subject is not modelled. Only the stored documents are.
- Types: JavaScript numbers are unbounded integers here. This covers `credits`, `capacity`, `enrolled`, `maxCredits`, `maxSubjects` and `semester`. Fractional values, `NaN` and the infinities are not represented. The one place a `NaN` can arise, the register form's unparsed semester, is an `Option` instead.
- Types.MergeStudent: `StudentPatch` has no `id`, `createdAt` or `updatedAt`. `Partial<Student>` (src/store/slices/authSlice.ts:60) allows them, and an `id` in the payload spread at src/store/slices/authSlice.ts:163 would replace the user's id. The promise that the id and creation time are kept holds only for patches without those fields.
- Types.MergeSubject: likewise, `SubjectPatch` has no `id`, `createdAt` or `updatedAt`, which `Partial<Subject>` (src/store/slices/subjectsSlice.ts:59) allows.
- Types.MergeProfessor: likewise, `ProfessorPatch` has no `id`, `createdAt` or `updatedAt`, which `Partial<Professor>` (src/store/slices/professorsSlice.ts:65) allows.
- Common.Lower: only ASCII letters are lower-cased. `toLowerCase` maps the whole Unicode range.
- Text.StrLe: compares characters as code points. The default `sort` compares UTF-16 code units. The two orders differ only outside the Basic Multilingual Plane. No property here depends on the exact order beyond its being a total order.
- Text.ParseInt: reads decimal text only. Without a radix, `parseInt` reads a "0x" prefix as hexadecimal (`parseInt("0x1A")` is 26), and it skips leading whitespace; the model gives `Some(0)` and None for those. Neither can occur, because the text comes from a `type="number"` input. Like `parseInt`, it stops at a decimal point or an exponent ("1.5" and "1e1" both read as 1).
- LoginForm.ValidatePassword: `\d` is modelled as 0–9, which is what it means without the `u` flag. The length is counted in UTF-16 code units, as `password.length` counts them.

## Findings

| source | as written | input that shows it | evidently intended | confidence | as-written member | corrected member |
|---|---|---|---|---|---|---|
| src/components/subjects/SubjectSelection.tsx:295-356 | the save sends the student's new subject list only to the Redux store: the `updateStudent` thunk at src/store/slices/studentsSlice.ts:57-68 echoes its argument and writes nothing. The counters of the added and removed subjects are written to Firestore. `refreshStudentData` then reloads the stored record, whose subject list is unchanged, into the screen. | stored student with subjects `[]`, selection `[A]` with `A` a known subject: `A`'s counter goes up by one, the screen shows `[]` again, and selecting `A` and saving again raises the counter once more | the student record is written with the selection before the counters, so the reload shows the saved selection and a second save writes nothing | not executed | SubjectSelection.SelectionScreen.SaveSelection | SubjectSelection.SelectionScreen.SaveSelectionPersisted |

`SubjectSelection.SavedDifferenceMeansStoredDiffers` exhibits the as-written behaviour: whenever a save writes a counter, the stored list it leaves behind still differs from the selection, so the next save computes the same difference again. `SubjectSelection.AsWrittenSecondSaveCountsAgain` follows the input of the table through two saves: the counter ends two above where it started. `SubjectSelection.PersistedSaveIsIdempotent` proves the corrected save: the stored subjects equal the selection and a second save has nothing to add or remove.
