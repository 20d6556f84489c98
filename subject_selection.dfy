/**
 * The student's subject selection screen (src/components/subjects/SubjectSelection.tsx):
 * the rules that decide whether a click adds or removes a subject, the comparison that
 * tells whether the selection differs from the stored one, and the save, which computes
 * the subjects added and removed and rewrites their enrollment counters.
 *
 * The screen's local `subjects` list is a map from id to subject (`subjects.find(s =>
 * s.id === id)` is a lookup; the ids of the stored subjects are unique). The stored
 * collections the save reads and writes are parameters.
 */
module SubjectSelection {
  import opened Common
  import opened Types
  import opened Text
  import StudentsService
  import SubjectsSlice

  // ---------------------------------------------------------------------------
  // Credits and the three selection rules
  // ---------------------------------------------------------------------------

  /** `subjects.find(s => s.id === id)?.credits || 0`. */
  function CreditsOf(subjects: map<string, Subject>, id: string): int
  {
    if id in subjects then subjects[id].credits else 0
  }

  /** `totalSelectedCredits`: the credits of the selected subjects the screen knows. */
  function TotalSelectedCredits(selected: seq<string>, subjects: map<string, Subject>): int
    decreases |selected|
  {
    if |selected| == 0 then 0
    else CreditsOf(subjects, selected[0]) + TotalSelectedCredits(selected[1..], subjects)
  }

  /** The total of a concatenation is the sum of the totals. */
  lemma {:induction false} TotalAppend(a: seq<string>, b: seq<string>, subjects: map<string, Subject>)
    ensures TotalSelectedCredits(a + b, subjects)
            == TotalSelectedCredits(a, subjects) + TotalSelectedCredits(b, subjects)
    decreases |a|
  {
    if |a| == 0 {
      assert a + b == b;
    } else {
      assert (a + b)[0] == a[0];
      assert (a + b)[1..] == a[1..] + b;
      TotalAppend(a[1..], b, subjects);
    }
  }

  /** The total of a list is its head's credits plus the total of the rest. */
  lemma TotalCons(h: string, t: seq<string>, subjects: map<string, Subject>)
    ensures TotalSelectedCredits([h] + t, subjects) == CreditsOf(subjects, h) + TotalSelectedCredits(t, subjects)
  {
    assert ([h] + t)[0] == h && ([h] + t)[1..] == t;
  }

  lemma MulSucc(m: int, c: int)
    ensures (m + 1) * c == m * c + c
  {
  }

  lemma MulNonNegative(m: int, c: int)
    requires m >= 0 && c >= 0
    ensures m * c >= 0
  {
  }

  /** Deselecting a subject takes its credits off the total once for each time it was selected. */
  lemma {:induction false} TotalWithout(s: seq<string>, x: string, subjects: map<string, Subject>)
    ensures TotalSelectedCredits(Without(s, x), subjects) + multiset(s)[x] * CreditsOf(subjects, x)
            == TotalSelectedCredits(s, subjects)
    decreases |s|
  {
    if |s| > 0 {
      var t := s[1..];
      TotalWithout(t, x, subjects);
      MultisetHeadTail(s);
      var m := multiset(t)[x];
      var c := CreditsOf(subjects, x);
      if s[0] == x {
        assert multiset(s)[x] == m + 1;
        MulSucc(m, c);
        assert Without(s, x) == Without(t, x);
      } else {
        assert multiset(s)[x] == m;
        assert Without(s, x) == [s[0]] + Without(t, x);
        TotalCons(s[0], Without(t, x), subjects);
      }
    }
  }

  /** `canSelectMore`: fewer than three subjects are selected. */
  predicate CanSelectMore(selected: seq<string>)
  {
    |selected| < MAX_SUBJECTS_PER_STUDENT
  }

  /** `hasDuplicateProfessor(p)`: a selected subject the screen knows is taught by p. */
  predicate HasDuplicateProfessor(selected: seq<string>, subjects: map<string, Subject>, p: string)
  {
    exists k :: 0 <= k < |selected| && selected[k] in subjects && subjects[selected[k]].professor == p
  }

  /** `student?.maxCredits || 9`: the student's cap, or 9 without a student or with a cap of 0. */
  function EffectiveMaxCredits(student: Option<Student>): (m: int)
    ensures student.None? ==> m == MAX_CREDITS_PER_SEMESTER
    ensures student.Some? && student.value.maxCredits != 0 ==> m == student.value.maxCredits
    ensures student.Some? && student.value.maxCredits == 0 ==> m == MAX_CREDITS_PER_SEMESTER
  {
    if student.None? || student.value.maxCredits == 0 then MAX_CREDITS_PER_SEMESTER
    else student.value.maxCredits
  }

  // ---------------------------------------------------------------------------
  // `toggleSubject`
  // ---------------------------------------------------------------------------

  /** Which branch of `toggleSubject` a click takes; each one shows its own toast. */
  datatype ToggleOutcome =
    | Ignored
    | Removed
    | Added
    | LimitReached
    | DuplicateProfessor
    | CreditLimitExceeded

  datatype ToggleResult = ToggleResult(outcome: ToggleOutcome, selection: seq<string>)

  /**
   * The effect of clicking subject id: ignored while saving or when the subject is unknown;
   * a selected subject is removed; otherwise it is added unless the selection is full,
   * already has its professor, or would go over the credit cap, checked in that order.
   */
  function Toggle(selected: seq<string>, subjects: map<string, Subject>, student: Option<Student>,
                  isLoading: bool, id: string): (r: ToggleResult)
    ensures r.outcome == Ignored <==> isLoading || id !in subjects
    ensures r.outcome == Removed <==> !isLoading && id in subjects && id in selected
    ensures r.outcome == LimitReached <==>
              !isLoading && id in subjects && id !in selected && !CanSelectMore(selected)
    ensures r.outcome == DuplicateProfessor <==>
              !isLoading && id in subjects && id !in selected && CanSelectMore(selected)
              && HasDuplicateProfessor(selected, subjects, subjects[id].professor)
    ensures r.outcome == CreditLimitExceeded <==>
              !isLoading && id in subjects && id !in selected && CanSelectMore(selected)
              && !HasDuplicateProfessor(selected, subjects, subjects[id].professor)
              && TotalSelectedCredits(selected, subjects) + subjects[id].credits
                 > EffectiveMaxCredits(student)
    ensures r.outcome == Added <==>
              !isLoading && id in subjects && id !in selected && CanSelectMore(selected)
              && !HasDuplicateProfessor(selected, subjects, subjects[id].professor)
              && TotalSelectedCredits(selected, subjects) + subjects[id].credits
                 <= EffectiveMaxCredits(student)
    ensures r.outcome == Removed ==> r.selection == Without(selected, id)
    ensures r.outcome == Added ==> r.selection == selected + [id]
    ensures r.outcome != Removed && r.outcome != Added ==> r.selection == selected
  {
    if isLoading || id !in subjects then ToggleResult(Ignored, selected)
    else if id in selected then ToggleResult(Removed, Without(selected, id))
    else if !CanSelectMore(selected) then ToggleResult(LimitReached, selected)
    else if HasDuplicateProfessor(selected, subjects, subjects[id].professor)
    then ToggleResult(DuplicateProfessor, selected)
    else if TotalSelectedCredits(selected, subjects) + subjects[id].credits
            > EffectiveMaxCredits(student)
    then ToggleResult(CreditLimitExceeded, selected)
    else ToggleResult(Added, selected + [id])
  }

  /** No two selected subjects the screen knows share a professor. */
  predicate DistinctProfessors(selected: seq<string>, subjects: map<string, Subject>)
  {
    forall i, j :: 0 <= i < j < |selected| && selected[i] in subjects && selected[j] in subjects
      ==> subjects[selected[i]].professor != subjects[selected[j]].professor
  }

  /** The rules the screen enforces on every addition. */
  predicate WithinSelectionRules(selected: seq<string>, subjects: map<string, Subject>, maxCredits: int)
  {
    |selected| <= MAX_SUBJECTS_PER_STUDENT
    && TotalSelectedCredits(selected, subjects) <= maxCredits
    && DistinctProfessors(selected, subjects)
  }

  predicate NonNegativeCredits(subjects: map<string, Subject>)
  {
    forall k :: k in subjects ==> subjects[k].credits >= 0
  }

  lemma DistinctAppend(s: seq<string>, subjects: map<string, Subject>, id: string)
    requires DistinctProfessors(s, subjects)
    requires id in subjects && !HasDuplicateProfessor(s, subjects, subjects[id].professor)
    ensures DistinctProfessors(s + [id], subjects)
  {
    var r := s + [id];
    forall i, j | 0 <= i < j < |r| && r[i] in subjects && r[j] in subjects
      ensures subjects[r[i]].professor != subjects[r[j]].professor
    {
      assert r[i] == s[i];
      if j < |s| {
        assert r[j] == s[j];
      } else {
        assert r[j] == id;
      }
    }
  }

  lemma {:induction false} DistinctWithout(s: seq<string>, subjects: map<string, Subject>, x: string)
    requires DistinctProfessors(s, subjects)
    ensures DistinctProfessors(Without(s, x), subjects)
    decreases |s|
  {
    if |s| > 0 {
      var t := s[1..];
      DistinctTail(s, subjects);
      DistinctWithout(t, subjects, x);
      if s[0] != x {
        var w := Without(t, x);
        assert Without(s, x) == [s[0]] + w;
        forall k | 0 <= k < |w| && w[k] in subjects && s[0] in subjects
          ensures subjects[s[0]].professor != subjects[w[k]].professor
        {
          assert w[k] in w;
          var j :| 0 <= j < |t| && t[j] == w[k];
          assert s[j + 1] == w[k];
        }
        DistinctCons(s[0], w, subjects);
      }
    }
  }

  lemma DistinctTail(s: seq<string>, subjects: map<string, Subject>)
    requires |s| > 0 && DistinctProfessors(s, subjects)
    ensures DistinctProfessors(s[1..], subjects)
  {
    var t := s[1..];
    forall i, j | 0 <= i < j < |t| && t[i] in subjects && t[j] in subjects
      ensures subjects[t[i]].professor != subjects[t[j]].professor
    {
      assert t[i] == s[i + 1] && t[j] == s[j + 1];
    }
  }

  lemma DistinctCons(h: string, w: seq<string>, subjects: map<string, Subject>)
    requires DistinctProfessors(w, subjects)
    requires forall k :: 0 <= k < |w| && w[k] in subjects && h in subjects ==>
               subjects[h].professor != subjects[w[k]].professor
    ensures DistinctProfessors([h] + w, subjects)
  {
    var r := [h] + w;
    forall i, j | 0 <= i < j < |r| && r[i] in subjects && r[j] in subjects
      ensures subjects[r[i]].professor != subjects[r[j]].professor
    {
      if i == 0 {
        assert r[j] == w[j - 1];
      } else {
        assert r[i] == w[i - 1] && r[j] == w[j - 1];
      }
    }
  }

  /**
   * Every click keeps a selection within the rules: at most three subjects, no more
   * credits than the cap, no professor twice. Removing relies on credits being non-negative.
   */
  lemma ToggleKeepsRules(selected: seq<string>, subjects: map<string, Subject>,
                         student: Option<Student>, isLoading: bool, id: string)
    requires NonNegativeCredits(subjects)
    requires WithinSelectionRules(selected, subjects, EffectiveMaxCredits(student))
    ensures WithinSelectionRules(Toggle(selected, subjects, student, isLoading, id).selection,
                                 subjects, EffectiveMaxCredits(student))
  {
    var r := Toggle(selected, subjects, student, isLoading, id);
    if r.outcome == Removed {
      TotalWithout(selected, id, subjects);
      MulNonNegative(multiset(selected)[id], CreditsOf(subjects, id));
      DistinctWithout(selected, subjects, id);
    } else if r.outcome == Added {
      TotalAppend(selected, [id], subjects);
      assert TotalSelectedCredits([id], subjects) == subjects[id].credits;
      DistinctAppend(selected, subjects, id);
    }
  }

  /** Adding a subject and clicking it again gives back the selection it was added to. */
  lemma AddThenRemoveRestores(selected: seq<string>, subjects: map<string, Subject>,
                              student: Option<Student>, id: string)
    requires Toggle(selected, subjects, student, false, id).outcome == Added
    ensures Toggle(Toggle(selected, subjects, student, false, id).selection, subjects, student, false, id)
            == ToggleResult(Removed, selected)
  {
    WithoutAppend(selected, [id], id);
    assert Without([id], id) == [];
    assert selected + [] == selected;
  }

  /** Under the rules a subject the screen knows is selected at most once. */
  lemma {:induction false} KnownSelectedOnce(s: seq<string>, subjects: map<string, Subject>, x: string)
    requires DistinctProfessors(s, subjects) && x in subjects
    ensures multiset(s)[x] <= 1
    decreases |s|
  {
    if |s| > 0 {
      var t := s[1..];
      assert s == [s[0]] + t;
      assert multiset(s) == multiset{s[0]} + multiset(t);
      forall i, j | 0 <= i < j < |t| && t[i] in subjects && t[j] in subjects
        ensures subjects[t[i]].professor != subjects[t[j]].professor
      {
        assert t[i] == s[i + 1] && t[j] == s[j + 1];
      }
      KnownSelectedOnce(t, subjects, x);
    }
  }

  /** Once a selected subject is removed, no remaining one shares its professor. */
  lemma WithoutFreesProfessor(selected: seq<string>, subjects: map<string, Subject>, id: string)
    requires DistinctProfessors(selected, subjects)
    requires id in subjects && id in selected
    ensures !HasDuplicateProfessor(Without(selected, id), subjects, subjects[id].professor)
  {
    var w := Without(selected, id);
    var i :| 0 <= i < |selected| && selected[i] == id;
    forall k | 0 <= k < |w| && w[k] in subjects
      ensures subjects[w[k]].professor != subjects[id].professor
    {
      assert w[k] in w;
      var j :| 0 <= j < |selected| && selected[j] == w[k];
      assert j != i;
      if j < i {
        assert subjects[selected[j]].professor != subjects[selected[i]].professor;
      } else {
        assert subjects[selected[i]].professor != subjects[selected[j]].professor;
      }
    }
  }

  /** A click on an unselected subject that passes the three rules adds it. */
  lemma ReAddAllowed(w: seq<string>, subjects: map<string, Subject>, student: Option<Student>,
                     id: string)
    requires id in subjects && id !in w && CanSelectMore(w)
    requires !HasDuplicateProfessor(w, subjects, subjects[id].professor)
    requires TotalSelectedCredits(w, subjects) + subjects[id].credits <= EffectiveMaxCredits(student)
    ensures Toggle(w, subjects, student, false, id) == ToggleResult(Added, w + [id])
  {
  }

  /**
   * Removing a selected subject and clicking it again re-adds it: the same subjects come
   * back (the subject moves to the end), so the screen sees no change to save.
   */
  lemma RemoveThenAddRestores(selected: seq<string>, subjects: map<string, Subject>,
                              student: Option<Student>, id: string)
    requires WithinSelectionRules(selected, subjects, EffectiveMaxCredits(student))
    requires id in subjects && id in selected
    ensures Toggle(selected, subjects, student, false, id).outcome == Removed
    ensures var again := Toggle(Toggle(selected, subjects, student, false, id).selection,
                                subjects, student, false, id);
            again.outcome == Added && multiset(again.selection) == multiset(selected)
            && HasUnsavedChanges(student, again.selection) == HasUnsavedChanges(student, selected)
  {
    var w := Without(selected, id);
    assert Toggle(selected, subjects, student, false, id) == ToggleResult(Removed, w);
    KnownSelectedOnce(selected, subjects, id);
    assert multiset(selected)[id] == 1;
    WithoutLength(selected, id);
    TotalWithout(selected, id, subjects);
    WithoutFreesProfessor(selected, subjects, id);
    ReAddAllowed(w, subjects, student, id);
    assert multiset(w + [id]) == multiset(w) + multiset{id};
  }

  // ---------------------------------------------------------------------------
  // `hasUnsavedChanges` and the difference the save writes
  // ---------------------------------------------------------------------------

  /**
   * `hasUnsavedChanges`: comparing the sorted copies of the stored and the selected lists
   * finds a change exactly when they do not hold the same subjects the same number of times.
   */
  function HasUnsavedChanges(student: Option<Student>, selected: seq<string>): (r: bool)
    ensures r <==> student.Some? && multiset(student.value.subjects) != multiset(selected)
  {
    if student.None? then false
    else
      SortedCopyEqIffPermutation(student.value.subjects, selected);
      SortedCopy(student.value.subjects) != SortedCopy(selected)
  }

  /** The test `id => !list.includes(id)`. */
  function NotIn(list: seq<string>): string -> bool
  {
    (id: string) => id !in list
  }

  /** `subjectsToAdd`: the selected subjects the stored record does not have, in selection order. */
  function ToAdd(selected: seq<string>, current: seq<string>): (r: seq<string>)
    ensures forall x :: x in r <==> x in selected && x !in current
    ensures IsSubsequence(r, selected)
  {
    Filter(selected, NotIn(current))
  }

  /** `subjectsToRemove`: the stored subjects no longer selected, in stored order. */
  function ToRemove(current: seq<string>, selected: seq<string>): (r: seq<string>)
    ensures forall x :: x in r <==> x in current && x !in selected
    ensures IsSubsequence(r, current)
  {
    Filter(current, NotIn(selected))
  }

  /**
   * Applying the difference to the stored subjects gives the selected ones: keep the
   * stored subjects not removed and add the new ones. No subject is both added and removed.
   */
  lemma DifferenceReachesSelection(selected: seq<string>, current: seq<string>)
    ensures forall x :: (x in current && x !in ToRemove(current, selected)) || x in ToAdd(selected, current)
                        <==> x in selected
    ensures forall x :: !(x in ToAdd(selected, current) && x in ToRemove(current, selected))
  {
  }

  /** With nothing to save (the same subjects), the difference is empty and no counter is written. */
  lemma NoChangesNoDifference(selected: seq<string>, current: seq<string>)
    requires multiset(selected) == multiset(current)
    ensures ToAdd(selected, current) == [] && ToRemove(current, selected) == []
  {
    forall k | 0 <= k < |selected| ensures !NotIn(current)(selected[k]) {
      assert selected[k] in multiset(current);
    }
    FilterNone(selected, NotIn(current));
    forall k | 0 <= k < |current| ensures !NotIn(selected)(current[k]) {
      assert current[k] in multiset(selected);
    }
    FilterNone(current, NotIn(selected));
  }

  /** `subject ? subject.professor : ''` for one selected id. */
  function ProfessorOf(subjects: map<string, Subject>, id: string): string
  {
    if id in subjects then subjects[id].professor else ""
  }

  function NonEmpty(p: string): bool
  {
    p != ""
  }

  /**
   * `selectedSubjects.map(id => subject ? subject.professor : '').filter(Boolean)`: the
   * professors of the known selected subjects, leaving out empty ones.
   */
  function SelectedProfessors(selected: seq<string>, subjects: map<string, Subject>): (r: seq<string>)
    ensures |r| <= |selected|
    ensures forall p :: p in r <==> p != "" && HasDuplicateProfessor(selected, subjects, p)
  {
    var mapped := seq(|selected|, k requires 0 <= k < |selected| => ProfessorOf(subjects, selected[k]));
    var r := Filter(mapped, NonEmpty);
    forall p | p != "" && HasDuplicateProfessor(selected, subjects, p) ensures p in r {
      var k :| 0 <= k < |selected| && selected[k] in subjects && subjects[selected[k]].professor == p;
      assert mapped[k] == p;
    }
    r
  }

  /** The update the save dispatches: the selection, its credits and its professors. */
  function SelectionUpdates(selected: seq<string>, subjects: map<string, Subject>): StudentPatch
  {
    NoStudentChanges.(subjects := Some(selected),
                      professors := Some(SelectedProfessors(selected, subjects)),
                      credits := Some(TotalSelectedCredits(selected, subjects)))
  }

  // ---------------------------------------------------------------------------
  // `saveSelection`
  // ---------------------------------------------------------------------------

  /** How a press of the save button ends. */
  datatype SaveOutcome =
    | SaveIgnored
    | NothingSelected
    | OverCreditLimit
    | NotSignedIn
    | RecordMissing
    | Saved(studentId: string, updates: StudentPatch, toAdd: seq<string>, toRemove: seq<string>)

  /**
   * What `saveSelection` decides, in its order: nothing while saving; refused with nothing
   * selected or over the credit cap; an error without a student on screen or a signed-in
   * user, or when the stored record is missing; otherwise the update and the difference
   * between the selection and the stored subjects.
   */
  function PlanSave(isLoading: bool, selected: seq<string>, subjects: map<string, Subject>,
                    student: Option<Student>, signedIn: bool, stored: map<string, Student>)
    : (r: SaveOutcome)
    ensures r == SaveIgnored <==> isLoading
    ensures r == NothingSelected <==> !isLoading && |selected| == 0
    ensures r == OverCreditLimit <==>
              !isLoading && |selected| > 0
              && TotalSelectedCredits(selected, subjects) > EffectiveMaxCredits(student)
    ensures r == NotSignedIn <==>
              !isLoading && |selected| > 0
              && TotalSelectedCredits(selected, subjects) <= EffectiveMaxCredits(student)
              && (student.None? || !signedIn)
    ensures r == RecordMissing <==>
              !isLoading && |selected| > 0
              && TotalSelectedCredits(selected, subjects) <= EffectiveMaxCredits(student)
              && student.Some? && signedIn && student.value.id !in stored
    ensures r.Saved? <==>
              !isLoading && |selected| > 0
              && TotalSelectedCredits(selected, subjects) <= EffectiveMaxCredits(student)
              && student.Some? && signedIn && student.value.id in stored
    ensures r.Saved? ==>
              r.studentId == student.value.id
              && r.updates == SelectionUpdates(selected, subjects)
              && r.toAdd == ToAdd(selected, stored[r.studentId].subjects)
              && r.toRemove == ToRemove(stored[r.studentId].subjects, selected)
  {
    if isLoading then SaveIgnored
    else if |selected| == 0 then NothingSelected
    else if TotalSelectedCredits(selected, subjects) > EffectiveMaxCredits(student) then OverCreditLimit
    else if student.None? || !signedIn then NotSignedIn
    else if student.value.id !in stored then RecordMissing
    else
      var current := stored[student.value.id].subjects;
      Saved(student.value.id, SelectionUpdates(selected, subjects),
            ToAdd(selected, current), ToRemove(current, selected))
  }

  /**
   * The counter a save writes for subject k: one less (never below 0) for a removed
   * subject, one more for an added one, both computed from the screen's copy; nothing when
   * the screen does not know the subject.
   */
  function WrittenCounter(local: map<string, Subject>, toAdd: seq<string>, toRemove: seq<string>,
                          k: string): Option<int>
  {
    if k !in local then None
    else if k in toRemove then Some(Max0(local[k].enrolled - 1))
    else if k in toAdd then Some(local[k].enrolled + 1)
    else None
  }

  function Rewritten(s: Subject, n: Option<int>, now: string): Subject
  {
    if n.None? then s else s.(enrolled := n.value, updatedAt := now)
  }

  /**
   * The stored subjects after the counter writes. A write to a subject missing from the
   * store fails, is caught, and the loop goes on.
   */
  function CountersWritten(stored: map<string, Subject>, local: map<string, Subject>,
                           toAdd: seq<string>, toRemove: seq<string>, now: string)
    : (r: map<string, Subject>)
    ensures r.Keys == stored.Keys
    ensures forall k :: k in stored && WrittenCounter(local, toAdd, toRemove, k).None? ==> r[k] == stored[k]
    ensures forall k :: k in stored && k in local && k in toAdd && k !in toRemove ==>
              r[k] == stored[k].(enrolled := local[k].enrolled + 1, updatedAt := now)
    ensures forall k :: k in stored && k in local && k in toRemove ==>
              r[k] == stored[k].(enrolled := Max0(local[k].enrolled - 1), updatedAt := now)
  {
    map k | k in stored :: Rewritten(stored[k], WrittenCounter(local, toAdd, toRemove, k), now)
  }

  /**
   * When the screen's copy matches the store and every counter is non-negative, the save
   * keeps every counter non-negative and moves each one by at most one seat.
   */
  lemma CountersStayNonNegative(stored: map<string, Subject>, toAdd: seq<string>,
                                toRemove: seq<string>, now: string)
    requires forall k :: k in stored ==> stored[k].enrolled >= 0
    ensures var r := CountersWritten(stored, stored, toAdd, toRemove, now);
            forall k :: k in r ==>
              (r[k].enrolled >= 0 && stored[k].enrolled - 1 <= r[k].enrolled <= stored[k].enrolled + 1)
  {
  }

  /** With nothing to add or remove, the counters are the stored ones. */
  lemma NothingWritten(stored: map<string, Subject>, local: map<string, Subject>, now: string)
    ensures CountersWritten(stored, local, [], [], now) == stored
  {
  }

  /** Appending another id to either list leaves the counter written for k as it was. */
  lemma WrittenCounterOther(local: map<string, Subject>, toAdd: seq<string>, toRemove: seq<string>,
                            id: string, k: string)
    requires k != id
    ensures WrittenCounter(local, toAdd + [id], toRemove, k) == WrittenCounter(local, toAdd, toRemove, k)
    ensures WrittenCounter(local, toAdd, toRemove + [id], k) == WrittenCounter(local, toAdd, toRemove, k)
  {
    assert (k in toAdd + [id]) == (k in toAdd);
    assert (k in toRemove + [id]) == (k in toRemove);
  }

  /** The written counters of every other stored subject ignore one more id in either list. */
  lemma CountersWrittenOther(stored: map<string, Subject>, local: map<string, Subject>,
                             toAdd: seq<string>, toRemove: seq<string>, id: string, k: string,
                             now: string)
    requires k in stored && k != id
    ensures CountersWritten(stored, local, toAdd + [id], toRemove, now)[k]
            == CountersWritten(stored, local, toAdd, toRemove, now)[k]
    ensures CountersWritten(stored, local, toAdd, toRemove + [id], now)[k]
            == CountersWritten(stored, local, toAdd, toRemove, now)[k]
  {
    WrittenCounterOther(local, toAdd, toRemove, id, k);
  }

  /**
   * The store after `updateSubject` with only a counter: a stored subject gets it, a
   * subject missing from the database is refused and nothing changes.
   */
  function CounterWrite(r: map<string, Subject>, id: string, n: int, now: string)
    : (w: map<string, Subject>)
    ensures id in r ==> w == r[id := r[id].(enrolled := n, updatedAt := now)]
    ensures id !in r ==> w == r
  {
    var settled := SubjectsSlice.UpdateSubjectThunk(r, id, EnrolledPatch(n), now);
    if id in r then MergeEnrolledOnly(r[id], n, now); settled.1 else settled.1
  }

  /** A write of counter n to id turns r into r' when r' differs from r at most there. */
  lemma OneWrite(r: map<string, Subject>, r': map<string, Subject>, stored: map<string, Subject>,
                 id: string, n: int, now: string)
    requires r.Keys == stored.Keys && r'.Keys == stored.Keys
    requires forall k :: k in stored && k != id ==> r'[k] == r[k]
    requires id in stored ==> r'[id] == r[id].(enrolled := n, updatedAt := now)
    ensures CounterWrite(r, id, n, now) == r'
  {
    var w := CounterWrite(r, id, n, now);
    assert w.Keys == r'.Keys;
  }

  /**
   * One `updateSubject` call of the first loop, seen on the whole map: a stored subject gets
   * its counter written, a subject missing from the database is rejected and changes nothing.
   */
  lemma AddWriteStep(stored: map<string, Subject>, local: map<string, Subject>, done: seq<string>,
                     id: string, now: string)
    requires id in local
    ensures var r := CountersWritten(stored, local, done, [], now);
            CounterWrite(r, id, local[id].enrolled + 1, now)
            == CountersWritten(stored, local, done + [id], [], now)
  {
    var r := CountersWritten(stored, local, done, [], now);
    var r' := CountersWritten(stored, local, done + [id], [], now);
    forall k | k in stored && k != id ensures r'[k] == r[k] {
      CountersWrittenOther(stored, local, done, [], id, k, now);
    }
    OneWrite(r, r', stored, id, local[id].enrolled + 1, now);
  }

  /** A subject outside the screen's copy is skipped: the map is the same either way. */
  lemma SkipStep(stored: map<string, Subject>, local: map<string, Subject>, toAdd: seq<string>,
                 toRemove: seq<string>, id: string, now: string)
    requires id !in local
    ensures CountersWritten(stored, local, toAdd + [id], toRemove, now)
            == CountersWritten(stored, local, toAdd, toRemove, now)
    ensures CountersWritten(stored, local, toAdd, toRemove + [id], now)
            == CountersWritten(stored, local, toAdd, toRemove, now)
  {
    var a := CountersWritten(stored, local, toAdd, toRemove, now);
    var b := CountersWritten(stored, local, toAdd + [id], toRemove, now);
    var c := CountersWritten(stored, local, toAdd, toRemove + [id], now);
    forall k | k in stored ensures a[k] == b[k] && a[k] == c[k] {
      if k != id {
        WrittenCounterOther(local, toAdd, toRemove, id, k);
      }
    }
  }

  /** One `updateSubject` call of the second loop, seen on the whole map. */
  lemma RemoveWriteStep(stored: map<string, Subject>, local: map<string, Subject>, toAdd: seq<string>,
                        done: seq<string>, id: string, now: string)
    requires id in local
    ensures var r := CountersWritten(stored, local, toAdd, done, now);
            CounterWrite(r, id, Max0(local[id].enrolled - 1), now)
            == CountersWritten(stored, local, toAdd, done + [id], now)
  {
    var r := CountersWritten(stored, local, toAdd, done, now);
    var r' := CountersWritten(stored, local, toAdd, done + [id], now);
    forall k | k in stored && k != id ensures r'[k] == r[k] {
      CountersWrittenOther(stored, local, toAdd, done, id, k, now);
    }
    OneWrite(r, r', stored, id, Max0(local[id].enrolled - 1), now);
  }

  /** One pass of the first loop: written or skipped, the map covers one more added id. */
  lemma AddLoopStep(stored: map<string, Subject>, local: map<string, Subject>, toAdd: seq<string>,
                    i: int, r: map<string, Subject>, now: string)
    requires 0 <= i < |toAdd|
    requires r == CountersWritten(stored, local, toAdd[..i], [], now)
    ensures var id := toAdd[i];
            (id in local ==>
               CounterWrite(r, id, local[id].enrolled + 1, now)
               == CountersWritten(stored, local, toAdd[..i + 1], [], now))
            && (id !in local ==> r == CountersWritten(stored, local, toAdd[..i + 1], [], now))
  {
    assert toAdd[..i + 1] == toAdd[..i] + [toAdd[i]];
    if toAdd[i] in local {
      AddWriteStep(stored, local, toAdd[..i], toAdd[i], now);
    } else {
      SkipStep(stored, local, toAdd[..i], [], toAdd[i], now);
    }
  }

  /** One pass of the second loop: written or skipped, the map covers one more removed id. */
  lemma RemoveLoopStep(stored: map<string, Subject>, local: map<string, Subject>, toAdd: seq<string>,
                       toRemove: seq<string>, j: int, r: map<string, Subject>, now: string)
    requires 0 <= j < |toRemove|
    requires r == CountersWritten(stored, local, toAdd, toRemove[..j], now)
    ensures var id := toRemove[j];
            (id in local ==>
               CounterWrite(r, id, Max0(local[id].enrolled - 1), now)
               == CountersWritten(stored, local, toAdd, toRemove[..j + 1], now))
            && (id !in local ==> r == CountersWritten(stored, local, toAdd, toRemove[..j + 1], now))
  {
    assert toRemove[..j + 1] == toRemove[..j] + [toRemove[j]];
    if toRemove[j] in local {
      RemoveWriteStep(stored, local, toAdd, toRemove[..j], toRemove[j], now);
    } else {
      SkipStep(stored, local, toAdd, toRemove[..j], toRemove[j], now);
    }
  }

  /**
   * The first loop of `saveSelection`: `updateSubject` with `enrolled: local + 1` for each
   * added subject the screen knows.
   */
  method WriteAddedCounters(stored: map<string, Subject>, local: map<string, Subject>,
                            toAdd: seq<string>, now: string)
    returns (r: map<string, Subject>)
    ensures r == CountersWritten(stored, local, toAdd, [], now)
  {
    r := stored;
    var i := 0;
    NothingWritten(stored, local, now);
    assert toAdd[..i] == [];
    while i < |toAdd|
      invariant 0 <= i <= |toAdd|
      invariant r == CountersWritten(stored, local, toAdd[..i], [], now)
    {
      var id := toAdd[i];
      AddLoopStep(stored, local, toAdd, i, r, now);
      if id in local {
        r := CounterWrite(r, id, local[id].enrolled + 1, now);
      }
      i := i + 1;
    }
    assert toAdd[..i] == toAdd;
  }

  /**
   * The second loop of `saveSelection`, started on the map the first one left:
   * `updateSubject` with `Math.max(0, local - 1)` for each removed subject the screen knows.
   */
  method WriteRemovedCounters(start: map<string, Subject>, stored: map<string, Subject>,
                              local: map<string, Subject>, toAdd: seq<string>,
                              toRemove: seq<string>, now: string)
    returns (r: map<string, Subject>)
    requires start == CountersWritten(stored, local, toAdd, [], now)
    ensures r == CountersWritten(stored, local, toAdd, toRemove, now)
  {
    r := start;
    var j := 0;
    assert toRemove[..j] == [];
    while j < |toRemove|
      invariant 0 <= j <= |toRemove|
      invariant r == CountersWritten(stored, local, toAdd, toRemove[..j], now)
    {
      var id := toRemove[j];
      RemoveLoopStep(stored, local, toAdd, toRemove, j, r, now);
      if id in local {
        r := CounterWrite(r, id, Max0(local[id].enrolled - 1), now);
      }
      j := j + 1;
    }
    assert toRemove[..j] == toRemove;
  }

  /** The two loops of `saveSelection`, one after the other. */
  method WriteCounters(stored: map<string, Subject>, local: map<string, Subject>,
                       toAdd: seq<string>, toRemove: seq<string>, now: string)
    returns (r: map<string, Subject>)
    ensures r == CountersWritten(stored, local, toAdd, toRemove, now)
  {
    r := WriteAddedCounters(stored, local, toAdd, now);
    r := WriteRemovedCounters(r, stored, local, toAdd, toRemove, now);
  }

  /**
   * Whenever a save changes any counter, the stored subject list it leaves behind differs
   * from the selection it saved.
   */
  lemma SavedDifferenceMeansStoredDiffers(isLoading: bool, selected: seq<string>,
                                          subjects: map<string, Subject>, student: Option<Student>,
                                          signedIn: bool, stored: map<string, Student>)
    requires PlanSave(isLoading, selected, subjects, student, signedIn, stored).Saved?
    requires var o := PlanSave(isLoading, selected, subjects, student, signedIn, stored);
             |o.toAdd| + |o.toRemove| > 0
    ensures stored[student.value.id].subjects != selected
  {
    var o := PlanSave(isLoading, selected, subjects, student, signedIn, stored);
    if |o.toAdd| > 0 {
      assert o.toAdd[0] in o.toAdd;
    } else {
      assert o.toRemove[0] in o.toRemove;
    }
  }

  /**
   * Once the selection is stored with the student, saving again finds nothing to add or
   * remove, so no counter is written twice.
   */
  lemma PersistedSaveIsIdempotent(selected: seq<string>, subjects: map<string, Subject>,
                                  student: Option<Student>, stored: map<string, Student>, now: string)
    requires StudentsService.Keyed(stored)
    requires PlanSave(false, selected, subjects, student, true, stored).Saved?
    ensures var o := PlanSave(false, selected, subjects, student, true, stored);
            var after := stored[o.studentId := MergeStudent(stored[o.studentId], o.updates, now)];
            var again := PlanSave(false, selected, subjects, Some(after[o.studentId]), true, after);
            after[o.studentId].subjects == selected
            && (again.Saved? ==> again.toAdd == [] && again.toRemove == [])
  {
    var o := PlanSave(false, selected, subjects, student, true, stored);
    var after := stored[o.studentId := MergeStudent(stored[o.studentId], o.updates, now)];
    NoChangesNoDifference(selected, after[o.studentId].subjects);
  }

  // ---------------------------------------------------------------------------
  // `getAvailabilityText`
  // ---------------------------------------------------------------------------

  const SeatsSuffix: string := " cupos disponibles"

  /** `${capacity - enrolled} cupos disponibles`: the free seats read back by `parseInt`. */
  function AvailabilityText(enrolled: int, capacity: int): (t: string)
    ensures ParseInt(t) == Some(capacity - enrolled)
    ensures |t| > |SeatsSuffix| && t[|t| - |SeatsSuffix|..] == SeatsSuffix
  {
    var number := IntToString(capacity - enrolled);
    ParseIntPrefix(capacity - enrolled, SeatsSuffix);
    var t := number + SeatsSuffix;
    assert t[|t| - |SeatsSuffix|..] == SeatsSuffix;
    assert |number| > 0;
    t
  }

  // ---------------------------------------------------------------------------
  // The screen
  // ---------------------------------------------------------------------------

  /**
   * As written, a student with nothing stored who selects subject a and saves, sees the
   * empty stored list again, selects a again and saves again, has a's counter raised twice:
   * the first save is planned with a to add, the screen then holds the written counters,
   * the click adds a back, and the second save plans a to add once more.
   */
  lemma AsWrittenSecondSaveCountsAgain(stored: map<string, Student>, db: map<string, Subject>,
                                       id: string, a: string, now1: string, now2: string)
    requires id in stored && stored[id].id == id && stored[id].subjects == []
    requires a in db
    requires db[a].credits <= EffectiveMaxCredits(Some(stored[id]))
    ensures var student := Some(stored[id]);
            var db1 := CountersWritten(db, db, [a], [], now1);
            PlanSave(false, [a], db, student, true, stored) == Saved(id, SelectionUpdates([a], db), [a], [])
            && Toggle(stored[id].subjects, db1, student, false, a) == ToggleResult(Added, [a])
            && PlanSave(false, [a], db1, student, true, stored) == Saved(id, SelectionUpdates([a], db1), [a], [])
            && CountersWritten(db1, db1, [a], [], now2)[a].enrolled == db[a].enrolled + 2
  {
    var student := Some(stored[id]);
    var db1 := CountersWritten(db, db, [a], [], now1);
    assert ToAdd([a], []) == [a] by {
      assert Filter([a], NotIn([])) == [a] + Filter([a][1..], NotIn([]));
    }
    assert ToRemove([], [a]) == [];
    assert TotalSelectedCredits([a], db) == db[a].credits by {
      assert [a][1..] == [];
    }
    assert db1[a].credits == db[a].credits && db1[a].enrolled == db[a].enrolled + 1;
    assert TotalSelectedCredits([a], db1) == db1[a].credits by {
      assert [a][1..] == [];
    }
    assert !HasDuplicateProfessor([], db1, db1[a].professor);
  }

  /** The screen's local state: its selection, its busy flag, its subjects and its student. */
  class SelectionScreen {
    var selectedSubjects: seq<string>
    var isLoading: bool
    var subjects: map<string, Subject>
    var student: Option<Student>

    /** The first render: no subjects, no selection, no student. */
    constructor()
      ensures subjects == map[]
      ensures selectedSubjects == [] && !isLoading && student == None
    {
      selectedSubjects := [];
      isLoading := false;
      subjects := map[];
      student := None;
    }

    /**
     * The effect on the store's subject list (keyed by id here): a non-empty list replaces
     * the screen's copy, an empty one leaves it as it was.
     */
    method CopyFromStore(fromStore: map<string, Subject>)
      modifies this`subjects
      ensures |fromStore| > 0 ==> subjects == fromStore
      ensures |fromStore| == 0 ==> subjects == old(subjects)
    {
      if |fromStore| > 0 {
        subjects := fromStore;
      }
    }

    /**
     * `loadStudentData`: with a signed-in user whose id is not empty, the stored record when
     * there is one, otherwise the user held by the store, and its subjects as the selection.
     */
    method LoadStudentData(currentUser: Option<Student>, stored: Option<Student>)
      modifies this`student, this`selectedSubjects
      ensures (currentUser.None? || currentUser.value.id == "") ==>
                student == old(student) && selectedSubjects == old(selectedSubjects)
      ensures currentUser.Some? && currentUser.value.id != "" && stored.Some? ==>
                student == stored && selectedSubjects == stored.value.subjects
      ensures currentUser.Some? && currentUser.value.id != "" && stored.None? ==>
                student == currentUser && selectedSubjects == currentUser.value.subjects
    {
      if currentUser.Some? && currentUser.value.id != "" {
        if stored.Some? {
          student := stored;
          selectedSubjects := stored.value.subjects;
        } else {
          student := currentUser;
          selectedSubjects := currentUser.value.subjects;
        }
      }
    }

    /** `toggleSubject`. */
    method ToggleSubject(subjectId: string) returns (outcome: ToggleOutcome)
      modifies this`selectedSubjects
      ensures ToggleResult(outcome, selectedSubjects)
              == Toggle(old(selectedSubjects), subjects, student, isLoading, subjectId)
    {
      if isLoading {
        return Ignored;
      }
      if subjectId !in subjects {
        return Ignored;
      }
      var subject := subjects[subjectId];
      if subjectId in selectedSubjects {
        selectedSubjects := Without(selectedSubjects, subjectId);
        return Removed;
      }
      if !CanSelectMore(selectedSubjects) {
        return LimitReached;
      }
      if HasDuplicateProfessor(selectedSubjects, subjects, subject.professor) {
        return DuplicateProfessor;
      }
      if TotalSelectedCredits(selectedSubjects, subjects) + subject.credits > EffectiveMaxCredits(student) {
        return CreditLimitExceeded;
      }
      selectedSubjects := selectedSubjects + [subjectId];
      return Added;
    }

    /**
     * `saveSelection` as written. The student update goes only to the store (the
     * `updateStudent` thunk echoes its argument) and is returned in the outcome; the
     * counters are written to the stored subjects; the refetched subject list reaches the
     * screen through the store (`CopyFromStore`); then `refreshStudentData` reloads the
     * stored record, which the save never wrote, and shows its subjects again.
     */
    method SaveSelection(signedIn: bool, stored: map<string, Student>,
                         storedSubjects: map<string, Subject>, now: string)
      returns (outcome: SaveOutcome, subjectsAfter: map<string, Subject>)
      modifies this`student, this`selectedSubjects, this`subjects
      ensures outcome == PlanSave(isLoading, old(selectedSubjects), old(subjects), old(student), signedIn, stored)
      ensures !outcome.Saved? ==>
                subjectsAfter == storedSubjects && subjects == old(subjects)
                && student == old(student) && selectedSubjects == old(selectedSubjects)
      ensures outcome.Saved? ==>
                subjectsAfter == CountersWritten(storedSubjects, old(subjects), outcome.toAdd, outcome.toRemove, now)
                && student == Some(stored[outcome.studentId])
                && selectedSubjects == stored[outcome.studentId].subjects
      ensures outcome.Saved? && |subjectsAfter| > 0 ==> subjects == subjectsAfter
      ensures outcome.Saved? && |subjectsAfter| == 0 ==> subjects == old(subjects)
    {
      subjectsAfter := storedSubjects;
      if isLoading {
        return SaveIgnored, subjectsAfter;
      }
      if |selectedSubjects| == 0 {
        return NothingSelected, subjectsAfter;
      }
      var total := TotalSelectedCredits(selectedSubjects, subjects);
      if total > EffectiveMaxCredits(student) {
        return OverCreditLimit, subjectsAfter;
      }
      if student.None? || !signedIn {
        return NotSignedIn, subjectsAfter;
      }
      var id := student.value.id;
      if id !in stored {
        return RecordMissing, subjectsAfter;
      }
      var current := stored[id].subjects;
      var toAdd := ToAdd(selectedSubjects, current);
      var toRemove := ToRemove(current, selectedSubjects);
      var updates := SelectionUpdates(selectedSubjects, subjects);
      subjectsAfter := WriteCounters(storedSubjects, subjects, toAdd, toRemove, now);
      outcome := Saved(id, updates, toAdd, toRemove);
      CopyFromStore(subjectsAfter);
      student := Some(stored[id]);
      selectedSubjects := stored[id].subjects;
    }

    /**
     * `saveSelection` with the student update written to the stored record before the
     * counters, so that the reload shows the saved selection.
     */
    method SaveSelectionPersisted(signedIn: bool, stored: map<string, Student>,
                                  storedSubjects: map<string, Subject>, now: string)
      returns (outcome: SaveOutcome, studentsAfter: map<string, Student>,
               subjectsAfter: map<string, Subject>)
      modifies this`student, this`selectedSubjects, this`subjects
      ensures outcome == PlanSave(isLoading, old(selectedSubjects), old(subjects), old(student), signedIn, stored)
      ensures !outcome.Saved? ==>
                studentsAfter == stored && subjectsAfter == storedSubjects && subjects == old(subjects)
                && student == old(student) && selectedSubjects == old(selectedSubjects)
      ensures outcome.Saved? ==>
                studentsAfter == stored[outcome.studentId :=
                                        MergeStudent(stored[outcome.studentId], outcome.updates, now)]
                && subjectsAfter == CountersWritten(storedSubjects, old(subjects), outcome.toAdd, outcome.toRemove, now)
                && student == Some(studentsAfter[outcome.studentId])
                && selectedSubjects == old(selectedSubjects)
      ensures outcome.Saved? && |subjectsAfter| > 0 ==> subjects == subjectsAfter
      ensures outcome.Saved? && |subjectsAfter| == 0 ==> subjects == old(subjects)
    {
      studentsAfter := stored;
      subjectsAfter := storedSubjects;
      if isLoading {
        return SaveIgnored, studentsAfter, subjectsAfter;
      }
      if |selectedSubjects| == 0 {
        return NothingSelected, studentsAfter, subjectsAfter;
      }
      var total := TotalSelectedCredits(selectedSubjects, subjects);
      if total > EffectiveMaxCredits(student) {
        return OverCreditLimit, studentsAfter, subjectsAfter;
      }
      if student.None? || !signedIn {
        return NotSignedIn, studentsAfter, subjectsAfter;
      }
      var id := student.value.id;
      if id !in stored {
        return RecordMissing, studentsAfter, subjectsAfter;
      }
      var current := stored[id].subjects;
      var toAdd := ToAdd(selectedSubjects, current);
      var toRemove := ToRemove(current, selectedSubjects);
      var updates := SelectionUpdates(selectedSubjects, subjects);
      studentsAfter := stored[id := MergeStudent(stored[id], updates, now)];
      subjectsAfter := WriteCounters(storedSubjects, subjects, toAdd, toRemove, now);
      outcome := Saved(id, updates, toAdd, toRemove);
      CopyFromStore(subjectsAfter);
      student := Some(studentsAfter[id]);
      selectedSubjects := studentsAfter[id].subjects;
    }
  }
}
