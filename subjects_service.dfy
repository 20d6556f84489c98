/**
 * The `subjects` collection behind `SubjectsService` (src/services/firebaseSubjects.ts):
 * read-check-write operations on the enrollment counter, and the two list queries whose
 * results the service filters while walking the query snapshot.
 */
module SubjectsService {
  import opened Common
  import opened Types

  datatype SubjectError = SubjectNotFound | SubjectInactive | SubjectFull | UpdateFailed

  function Message(e: SubjectError): string
  {
    match e
    case SubjectNotFound => "Materia no encontrada"
    case SubjectInactive => "La materia no está activa"
    case SubjectFull => "La materia está llena"
    case UpdateFailed => "Error al actualizar materia"
  }

  /** Every document is stored under its own id. */
  ghost predicate Keyed(docs: map<string, Subject>)
  {
    forall k :: k in docs ==> docs[k].id == k
  }

  /** A query snapshot: a listing of the documents, each one exactly once and nothing else. */
  ghost predicate IsSnapshotOf(snapshot: seq<Subject>, docs: map<string, Subject>)
  {
    (forall i :: 0 <= i < |snapshot| ==> snapshot[i].id in docs && docs[snapshot[i].id] == snapshot[i])
    && (forall k :: k in docs ==> docs[k] in snapshot)
    && (forall i, j :: 0 <= i < j < |snapshot| ==> snapshot[i].id != snapshot[j].id)
  }

  /**
   * Filtering a snapshot keeps exactly the stored documents that pass: each one it keeps is
   * stored under its id, and each stored one that passes is kept.
   */
  lemma SnapshotFilter(snapshot: seq<Subject>, docs: map<string, Subject>, p: Subject -> bool)
    requires IsSnapshotOf(snapshot, docs)
    ensures forall s :: s in Filter(snapshot, p) ==> s.id in docs && docs[s.id] == s && p(s)
    ensures forall k :: k in docs && p(docs[k]) ==> docs[k] in Filter(snapshot, p)
  {
    forall s | s in Filter(snapshot, p) ensures s.id in docs && docs[s.id] == s {
      var i :| 0 <= i < |snapshot| && snapshot[i] == s;
    }
  }

  /** `updateDoc(…, { ...updates, updatedAt })`, which fails on a missing document. */
  function UpdateSubjectDoc(docs: map<string, Subject>, id: string, updates: SubjectPatch, now: string)
    : (r: Option<map<string, Subject>>)
    ensures r.None? <==> id !in docs
    ensures r.Some? ==> r.value.Keys == docs.Keys
    ensures r.Some? ==> forall k :: k in docs && k != id ==> r.value[k] == docs[k]
    ensures r.Some? ==> r.value[id] == MergeSubject(docs[id], updates, now)
  {
    if id in docs then Some(docs[id := MergeSubject(docs[id], updates, now)]) else None
  }

  /** The validations of `enrollStudent`, in the order it makes them. */
  function EnrollCheck(docs: map<string, Subject>, id: string): (r: Option<SubjectError>)
    ensures r == Some(SubjectNotFound) <==> id !in docs
    ensures r == Some(SubjectInactive) <==> id in docs && !docs[id].isActive
    ensures r == Some(SubjectFull) <==>
              id in docs && docs[id].isActive && docs[id].enrolled >= docs[id].capacity
    ensures r == None <==> id in docs && IsAvailable(docs[id])
  {
    if id !in docs then Some(SubjectNotFound)
    else if !docs[id].isActive then Some(SubjectInactive)
    else if docs[id].enrolled >= docs[id].capacity then Some(SubjectFull)
    else None
  }

  /** The search test: the lower-cased term occurs in the lower-cased name or description. */
  predicate MatchesSearch(s: Subject, term: string)
  {
    Includes(Lower(s.name), Lower(term)) || Includes(Lower(s.description), Lower(term))
  }

  /** What `searchSubjects` keeps: active subjects (the query) matching the term (the loop). */
  function SearchFilter(term: string): Subject -> bool
  {
    (s: Subject) => s.isActive && MatchesSearch(s, term)
  }

  /** The empty term matches every subject. */
  lemma EmptyTermMatchesAll(s: Subject)
    ensures MatchesSearch(s, "")
  {
    IncludesEmpty(Lower(s.name));
  }

  /** The search ignores the case of ASCII letters in the term. */
  lemma {:induction false} SearchIgnoresCase(s: Subject, term: string)
    ensures MatchesSearch(s, term) == MatchesSearch(s, Lower(term))
  {
    assert Lower(Lower(term)) == Lower(term);
  }

  class SubjectsCollection {
    var docs: map<string, Subject>

    ghost predicate Valid()
      reads this
    {
      Keyed(docs)
    }

    constructor(initial: map<string, Subject>)
      requires Keyed(initial)
      ensures Valid() && docs == initial
    {
      docs := initial;
    }

    /** `getSubjectById`: the record, or None (null) when there is no such document. */
    method GetSubjectById(id: string) returns (r: Option<Subject>)
      requires Valid()
      ensures r.None? <==> id !in docs
      ensures r.Some? ==> r.value == docs[id] && r.value.id == id
    {
      if id in docs {
        r := Some(docs[id]);
      } else {
        r := None;
      }
    }

    /** `createSubject`: the input stored unchanged under the id the server assigns. */
    method CreateSubject(input: SubjectInput, newId: string, now: string) returns (s: Subject)
      requires Valid() && newId !in docs
      modifies this
      ensures Valid()
      ensures SubjectFields(s) == input && s.id == newId && s.createdAt == now && s.updatedAt == now
      ensures docs == old(docs)[newId := s]
    {
      s := NewSubject(newId, input, now);
      docs := docs[newId := s];
    }

    /** `updateSubject`: overwrites the given fields; a missing document is an error. */
    method UpdateSubject(id: string, updates: SubjectPatch, now: string) returns (e: Option<SubjectError>)
      requires Valid()
      modifies this
      ensures Valid()
      ensures e.Some? <==> id !in old(docs)
      ensures e.Some? ==> e.value == UpdateFailed && docs == old(docs)
      ensures e.None? ==> docs == old(docs)[id := MergeSubject(old(docs)[id], updates, now)]
    {
      var written := UpdateSubjectDoc(docs, id, updates, now);
      if written.None? {
        return Some(UpdateFailed);
      }
      docs := written.value;
      e := None;
    }

    /** `deleteSubject`: deleting a missing document succeeds and changes nothing. */
    method DeleteSubject(id: string)
      requires Valid()
      modifies this
      ensures Valid()
      ensures docs == old(docs) - {id}
    {
      docs := docs - {id};
    }

    /** `enrollStudent`: the checks on the stored record, then `increment(1)`. */
    method EnrollStudent(id: string, now: string) returns (e: Option<SubjectError>)
      requires Valid()
      modifies this
      ensures Valid()
      ensures e == EnrollCheck(old(docs), id)
      ensures e.Some? ==> docs == old(docs)
      ensures e.None? ==>
                docs == old(docs)[id := old(docs)[id].(enrolled := old(docs)[id].enrolled + 1,
                                                       updatedAt := now)]
    {
      if id !in docs {
        return Some(SubjectNotFound);
      }
      var subject := docs[id];
      if !subject.isActive {
        return Some(SubjectInactive);
      }
      if subject.enrolled >= subject.capacity {
        return Some(SubjectFull);
      }
      docs := docs[id := subject.(enrolled := subject.enrolled + 1, updatedAt := now)];
      e := None;
    }

    /** `unenrollStudent`: fails only for a missing record; the counter is floored at 0. */
    method UnenrollStudent(id: string, now: string) returns (e: Option<SubjectError>)
      requires Valid()
      modifies this
      ensures Valid()
      ensures e.Some? <==> id !in old(docs)
      ensures e.Some? ==> e.value == SubjectNotFound && docs == old(docs)
      ensures e.None? ==>
                docs == old(docs)[id := old(docs)[id].(enrolled := Max0(old(docs)[id].enrolled - 1),
                                                       updatedAt := now)]
    {
      if id !in docs {
        return Some(SubjectNotFound);
      }
      var subject := docs[id];
      docs := docs[id := subject.(enrolled := Max0(subject.enrolled - 1), updatedAt := now)];
      e := None;
    }

    /**
     * `getAvailableSubjects`: walks a snapshot of the collection and keeps, in snapshot
     * order, the active subjects with a free seat.
     */
    method GetAvailableSubjects(snapshot: seq<Subject>) returns (r: seq<Subject>)
      requires Valid() && IsSnapshotOf(snapshot, docs)
      ensures r == Filter(snapshot, IsAvailable)
      ensures forall s :: s in r ==> s.id in docs && docs[s.id] == s && IsAvailable(s)
      ensures forall k :: k in docs && IsAvailable(docs[k]) ==> docs[k] in r
    {
      r := [];
      var i := 0;
      while i < |snapshot|
        invariant 0 <= i <= |snapshot|
        invariant r == Filter(snapshot[..i], IsAvailable)
      {
        var subject := snapshot[i];
        FilterPrefixStep(snapshot, i, IsAvailable);
        if IsAvailable(subject) {
          r := r + [subject];
        }
        i := i + 1;
      }
      assert snapshot[..i] == snapshot;
      SnapshotFilter(snapshot, docs, IsAvailable);
    }

    /**
     * `searchSubjects`: walks a snapshot of the collection and keeps, in snapshot order,
     * the active subjects whose name or description contains the term, ignoring case.
     */
    method SearchSubjects(snapshot: seq<Subject>, term: string) returns (r: seq<Subject>)
      requires Valid() && IsSnapshotOf(snapshot, docs)
      ensures r == Filter(snapshot, SearchFilter(term))
      ensures forall s :: s in r ==> s.id in docs && docs[s.id] == s && s.isActive && MatchesSearch(s, term)
      ensures forall k :: k in docs && docs[k].isActive && MatchesSearch(docs[k], term) ==> docs[k] in r
    {
      r := [];
      var i := 0;
      while i < |snapshot|
        invariant 0 <= i <= |snapshot|
        invariant r == Filter(snapshot[..i], SearchFilter(term))
      {
        var subject := snapshot[i];
        FilterPrefixStep(snapshot, i, SearchFilter(term));
        var keep := SearchFilter(term)(subject);
        if keep {
          r := r + [subject];
        }
        i := i + 1;
      }
      assert snapshot[..i] == snapshot;
      SnapshotFilter(snapshot, docs, SearchFilter(term));
    }
  }
}
