/**
 * The `professors` collection behind `ProfessorsService` (src/services/firebaseProfessors.ts):
 * read-check-write operations on a professor's subject list, with the cap of two subjects
 * written into the service itself, and the distribution report.
 */
module ProfessorsService {
  import opened Common
  import opened Types

  /** The cap `assignSubjectToProfessor` enforces, whatever the professor's `maxSubjects`. */
  const SERVICE_MAX_SUBJECTS: int := 2

  datatype ProfessorError = ProfessorNotFound | AtMaximum | AlreadyAssigned | UpdateFailed

  function Message(e: ProfessorError): string
  {
    match e
    case ProfessorNotFound => "Profesor no encontrado"
    case AtMaximum => "El profesor ya tiene el máximo de materias permitidas"
    case AlreadyAssigned => "El profesor ya está asignado a esta materia"
    case UpdateFailed => "Error al actualizar profesor"
  }

  ghost predicate Keyed(docs: map<string, Professor>)
  {
    forall k :: k in docs ==> docs[k].id == k
  }

  /** The validations of `assignSubjectToProfessor`, in the order it makes them. */
  function AssignCheck(docs: map<string, Professor>, professorId: string, subjectId: string)
    : (r: Option<ProfessorError>)
    ensures r == Some(ProfessorNotFound) <==> professorId !in docs
    ensures r == Some(AtMaximum) <==>
              professorId in docs && |docs[professorId].subjects| >= SERVICE_MAX_SUBJECTS
    ensures r == Some(AlreadyAssigned) <==>
              professorId in docs && |docs[professorId].subjects| < SERVICE_MAX_SUBJECTS
              && subjectId in docs[professorId].subjects
    ensures r == None <==>
              professorId in docs && |docs[professorId].subjects| < SERVICE_MAX_SUBJECTS
              && subjectId !in docs[professorId].subjects
  {
    if professorId !in docs then Some(ProfessorNotFound)
    else if |docs[professorId].subjects| >= 2 then Some(AtMaximum)
    else if subjectId in docs[professorId].subjects then Some(AlreadyAssigned)
    else None
  }

  /** A professor over the cap the distribution report looks for. */
  predicate Overloaded(p: Professor)
  {
    |p.subjects| > SERVICE_MAX_SUBJECTS
  }

  function OverloadMessage(name: string): string
  {
    "El profesor " + name + " tiene más de 2 materias asignadas"
  }

  /** One report line per professor, in order. */
  function Messages(ps: seq<Professor>): (r: seq<string>)
    ensures |r| == |ps|
    ensures forall i :: 0 <= i < |ps| ==> r[i] == OverloadMessage(ps[i].name)
  {
    seq(|ps|, i requires 0 <= i < |ps| => OverloadMessage(ps[i].name))
  }

  /** Nobody is reported exactly when no professor holds more than two subjects. */
  lemma NoneOverloaded(ps: seq<Professor>)
    ensures |Filter(ps, Overloaded)| == 0 <==> forall i :: 0 <= i < |ps| ==> !Overloaded(ps[i])
  {
    if forall i :: 0 <= i < |ps| ==> !Overloaded(ps[i]) {
      FilterNone(ps, Overloaded);
    } else {
      var i :| 0 <= i < |ps| && Overloaded(ps[i]);
      assert ps[i] in Filter(ps, Overloaded);
    }
  }

  /** One more report line for an overloaded professor extends the report by its message. */
  lemma MessagesSnoc(ps: seq<Professor>, p: Professor)
    ensures Messages(ps + [p]) == Messages(ps) + [OverloadMessage(p.name)]
  {
    var a := Messages(ps + [p]);
    var b := Messages(ps) + [OverloadMessage(p.name)];
    assert |a| == |b|;
    forall i | 0 <= i < |a| ensures a[i] == b[i] {
      if i < |ps| {
        assert (ps + [p])[i] == ps[i];
      }
    }
  }

  /** The report on a list of professors: one line per overloaded professor, in order. */
  function Report(ps: seq<Professor>): seq<string>
  {
    Messages(Filter(ps, Overloaded))
  }

  /** One step of the report loop: the next professor adds its line exactly when overloaded. */
  lemma ReportStep(professors: seq<Professor>, i: int)
    requires 0 <= i < |professors|
    ensures Report(professors[..i + 1]) ==
              Report(professors[..i])
              + (if Overloaded(professors[i]) then [OverloadMessage(professors[i].name)] else [])
  {
    FilterPrefixStep(professors, i, Overloaded);
    MessagesSnoc(Filter(professors[..i], Overloaded), professors[i]);
  }

  /** When the walk is over, the lines are the report on every professor. */
  lemma ReportDone(professors: seq<Professor>, i: int)
    requires i == |professors|
    ensures Report(professors[..i]) == Messages(Filter(professors, Overloaded))
    ensures |Report(professors[..i])| == 0 <==>
              forall k :: 0 <= k < |professors| ==> !Overloaded(professors[k])
  {
    assert professors[..i] == professors;
    NoneOverloaded(professors);
  }

  /**
   * `validateSubjectDistribution`: walks the professors and reports each one holding more
   * than two subjects, in order; the distribution is valid iff the report is empty.
   */
  method ValidateSubjectDistribution(professors: seq<Professor>)
    returns (isValid: bool, errors: seq<string>)
    ensures errors == Messages(Filter(professors, Overloaded))
    ensures isValid <==> forall i :: 0 <= i < |professors| ==> !Overloaded(professors[i])
    ensures isValid <==> |errors| == 0
  {
    errors := [];
    var i := 0;
    while i < |professors|
      invariant 0 <= i <= |professors|
      invariant errors == Report(professors[..i])
    {
      var professor := professors[i];
      ReportStep(professors, i);
      if Overloaded(professor) {
        errors := errors + [OverloadMessage(professor.name)];
      }
      i := i + 1;
    }
    ReportDone(professors, i);
    isValid := |errors| == 0;
  }

  class ProfessorsCollection {
    var docs: map<string, Professor>

    ghost predicate Valid()
      reads this
    {
      Keyed(docs)
    }

    constructor(initial: map<string, Professor>)
      requires Keyed(initial)
      ensures Valid() && docs == initial
    {
      docs := initial;
    }

    /** `getProfessorById`: the record, or None (null) when there is no such document. */
    method GetProfessorById(professorId: string) returns (r: Option<Professor>)
      requires Valid()
      ensures r.None? <==> professorId !in docs
      ensures r.Some? ==> r.value == docs[professorId] && r.value.id == professorId
    {
      if professorId in docs {
        r := Some(docs[professorId]);
      } else {
        r := None;
      }
    }

    /** `createProfessor`: the input stored unchanged under the id the server assigns. */
    method CreateProfessor(input: ProfessorInput, newId: string, now: string) returns (p: Professor)
      requires Valid() && newId !in docs
      modifies this
      ensures Valid()
      ensures ProfessorFields(p) == input && p.id == newId && p.createdAt == now && p.updatedAt == now
      ensures docs == old(docs)[newId := p]
    {
      p := NewProfessor(newId, input, now);
      docs := docs[newId := p];
    }

    /** `updateProfessor`: overwrites the given fields; a missing document is an error. */
    method UpdateProfessor(professorId: string, updates: ProfessorPatch, now: string)
      returns (e: Option<ProfessorError>)
      requires Valid()
      modifies this
      ensures Valid()
      ensures e.Some? <==> professorId !in old(docs)
      ensures e.Some? ==> e.value == UpdateFailed && docs == old(docs)
      ensures e.None? ==>
                docs == old(docs)[professorId := MergeProfessor(old(docs)[professorId], updates, now)]
    {
      if professorId !in docs {
        return Some(UpdateFailed);
      }
      docs := docs[professorId := MergeProfessor(docs[professorId], updates, now)];
      e := None;
    }

    /** `deleteProfessor`: deleting a missing document succeeds and changes nothing. */
    method DeleteProfessor(professorId: string)
      requires Valid()
      modifies this
      ensures Valid()
      ensures docs == old(docs) - {professorId}
    {
      docs := docs - {professorId};
    }

    /** `assignSubjectToProfessor`: the checks on the stored record, then the append. */
    method AssignSubjectToProfessor(professorId: string, subjectId: string, now: string)
      returns (e: Option<ProfessorError>)
      requires Valid()
      modifies this
      ensures Valid()
      ensures e == AssignCheck(old(docs), professorId, subjectId)
      ensures e.Some? ==> docs == old(docs)
      ensures e.None? ==>
                docs == old(docs)[professorId := old(docs)[professorId].(
                          subjects := old(docs)[professorId].subjects + [subjectId], updatedAt := now)]
    {
      if professorId !in docs {
        return Some(ProfessorNotFound);
      }
      var professor := docs[professorId];
      if |professor.subjects| >= 2 {
        return Some(AtMaximum);
      }
      if subjectId in professor.subjects {
        return Some(AlreadyAssigned);
      }
      docs := docs[professorId := professor.(subjects := professor.subjects + [subjectId],
                                             updatedAt := now)];
      e := None;
    }

    /** `removeSubjectFromProfessor`: fails only for a missing record. */
    method RemoveSubjectFromProfessor(professorId: string, subjectId: string, now: string)
      returns (e: Option<ProfessorError>)
      requires Valid()
      modifies this
      ensures Valid()
      ensures e.Some? <==> professorId !in old(docs)
      ensures e.Some? ==> e.value == ProfessorNotFound && docs == old(docs)
      ensures e.None? ==>
                docs == old(docs)[professorId := old(docs)[professorId].(
                          subjects := Without(old(docs)[professorId].subjects, subjectId),
                          updatedAt := now)]
    {
      if professorId !in docs {
        return Some(ProfessorNotFound);
      }
      var professor := docs[professorId];
      docs := docs[professorId := professor.(subjects := Without(professor.subjects, subjectId),
                                             updatedAt := now)];
      e := None;
    }
  }

  /** An accepted assignment leaves the professor at or under the service cap, without repeats. */
  lemma AssignStaysUnderCap(docs: map<string, Professor>, professorId: string, subjectId: string)
    requires AssignCheck(docs, professorId, subjectId).None?
    ensures |docs[professorId].subjects + [subjectId]| <= SERVICE_MAX_SUBJECTS
    ensures multiset(docs[professorId].subjects + [subjectId])[subjectId] == 1
  {
  }
}
