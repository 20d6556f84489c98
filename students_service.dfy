/**
 * The `students` collection behind `StudentsService` (src/services/firebaseStudents.ts):
 * read-check-write operations on a map from document id to student record.
 */
module StudentsService {
  import opened Common
  import opened Types

  /** The errors the service throws, each with the message it carries. */
  datatype StudentError = StudentNotFound | TooManySubjects | CreditLimitExceeded | UpdateFailed

  function Message(e: StudentError): string
  {
    match e
    case StudentNotFound => "Estudiante no encontrado"
    case TooManySubjects => "Ya tienes el máximo de materias permitidas"
    case CreditLimitExceeded => "Excedes el límite de créditos permitidos"
    case UpdateFailed => "Error al actualizar estudiante"
  }

  /** Every document is stored under its own id. */
  ghost predicate Keyed(docs: map<string, Student>)
  {
    forall k :: k in docs ==> docs[k].id == k
  }

  /** The record `createStudent` stores: the input, with the enrollment fields reset. */
  function NewStudent(id: string, input: StudentInput, now: string): (s: Student)
    ensures s.id == id && s.name == input.name && s.email == input.email
    ensures s.semester == input.semester
    ensures s.phone == "" && s.subjects == [] && s.professors == []
    ensures s.gpa == 0.0 && s.credits == 0 && s.maxCredits == MAX_CREDITS_PER_SEMESTER
    ensures s.createdAt == now && s.updatedAt == now
  {
    Student(id, input.name, input.email, "", [], [], input.semester, 0.0, 0, 9, now, now)
  }

  /** The validations of `selectSubject`, in the order it makes them. */
  function SelectSubjectCheck(docs: map<string, Student>, studentId: string): (r: Option<StudentError>)
    ensures r == Some(StudentNotFound) <==> studentId !in docs
    ensures r == Some(TooManySubjects) <==>
              studentId in docs && |docs[studentId].subjects| >= MAX_SUBJECTS_PER_STUDENT
    ensures r == Some(CreditLimitExceeded) <==>
              studentId in docs && |docs[studentId].subjects| < MAX_SUBJECTS_PER_STUDENT
              && docs[studentId].credits + CREDITS_PER_SUBJECT > MAX_CREDITS_PER_SEMESTER
    ensures r == None <==>
              studentId in docs && |docs[studentId].subjects| < MAX_SUBJECTS_PER_STUDENT
              && docs[studentId].credits + CREDITS_PER_SUBJECT <= MAX_CREDITS_PER_SEMESTER
  {
    if studentId !in docs then Some(StudentNotFound)
    else if |docs[studentId].subjects| >= 3 then Some(TooManySubjects)
    else if docs[studentId].credits + 3 > 9 then Some(CreditLimitExceeded)
    else None
  }

  /** The write of `selectSubject`: the id appended, without a duplicate check. */
  function AppendSubject(s: Student, subjectId: string, now: string): (r: Student)
    ensures r.subjects == s.subjects + [subjectId] && |r.subjects| == |s.subjects| + 1
    ensures r.credits == s.credits + CREDITS_PER_SUBJECT
    ensures r == s.(subjects := r.subjects, credits := r.credits, updatedAt := now)
  {
    s.(subjects := s.subjects + [subjectId], credits := s.credits + 3, updatedAt := now)
  }

  /** The write of `removeSubject`: every occurrence dropped, credits floored at 0. */
  function DropSubject(s: Student, subjectId: string, now: string): (r: Student)
    ensures subjectId !in r.subjects
    ensures forall x :: x != subjectId ==> multiset(r.subjects)[x] == multiset(s.subjects)[x]
    ensures r.credits == Max0(s.credits - CREDITS_PER_SUBJECT)
    ensures r == s.(subjects := r.subjects, credits := r.credits, updatedAt := now)
  {
    s.(subjects := Without(s.subjects, subjectId), credits := Max0(s.credits - 3), updatedAt := now)
  }

  /** A student record within the limits the service enforces. */
  predicate WithinLimits(s: Student)
  {
    |s.subjects| <= MAX_SUBJECTS_PER_STUDENT && 0 <= s.credits <= MAX_CREDITS_PER_SEMESTER
  }

  /** A selection the checks accept keeps a record within the limits. */
  lemma SelectKeepsLimits(docs: map<string, Student>, studentId: string, subjectId: string, now: string)
    requires SelectSubjectCheck(docs, studentId).None?
    requires WithinLimits(docs[studentId])
    ensures WithinLimits(AppendSubject(docs[studentId], subjectId, now))
  {
  }

  /** A removal keeps a record within the limits. */
  lemma RemoveKeepsLimits(s: Student, subjectId: string, now: string)
    requires WithinLimits(s)
    ensures WithinLimits(DropSubject(s, subjectId, now))
  {
  }

  /** A new record is within the limits. */
  lemma NewStudentWithinLimits(id: string, input: StudentInput, now: string)
    ensures WithinLimits(NewStudent(id, input, now))
  {
  }

  class StudentsCollection {
    var docs: map<string, Student>

    ghost predicate Valid()
      reads this
    {
      Keyed(docs)
    }

    constructor(initial: map<string, Student>)
      requires Keyed(initial)
      ensures Valid() && docs == initial
    {
      docs := initial;
    }

    /** `getStudentById`: the record, or None (null) when there is no such document. */
    method GetStudentById(studentId: string) returns (r: Option<Student>)
      requires Valid()
      ensures r.None? <==> studentId !in docs
      ensures r.Some? ==> r.value == docs[studentId] && r.value.id == studentId
    {
      if studentId in docs {
        r := Some(docs[studentId]);
      } else {
        r := None;
      }
    }

    /** `createStudent`: stores the new record under the id the server assigns. */
    method CreateStudent(input: StudentInput, newId: string, now: string) returns (s: Student)
      requires Valid() && newId !in docs
      modifies this
      ensures Valid()
      ensures s == NewStudent(newId, input, now)
      ensures docs == old(docs)[newId := s]
    {
      s := NewStudent(newId, input, now);
      docs := docs[newId := s];
    }

    /**
     * `updateStudent`: overwrites the given fields of an existing document; `updateDoc` on
     * a missing document fails and the service rethrows a generic error.
     */
    method UpdateStudent(studentId: string, updates: StudentPatch, now: string)
      returns (e: Option<StudentError>)
      requires Valid()
      modifies this
      ensures Valid()
      ensures e.Some? <==> studentId !in old(docs)
      ensures e.Some? ==> e.value == UpdateFailed && docs == old(docs)
      ensures e.None? ==> docs == old(docs)[studentId := MergeStudent(old(docs)[studentId], updates, now)]
    {
      if studentId !in docs {
        return Some(UpdateFailed);
      }
      docs := docs[studentId := MergeStudent(docs[studentId], updates, now)];
      e := None;
    }

    /** `deleteStudent`: deleting a missing document succeeds and changes nothing. */
    method DeleteStudent(studentId: string)
      requires Valid()
      modifies this
      ensures Valid()
      ensures docs == old(docs) - {studentId}
    {
      docs := docs - {studentId};
    }

    /** `selectSubject`: the checks on the stored record, then the append. */
    method SelectSubject(studentId: string, subjectId: string, now: string)
      returns (e: Option<StudentError>)
      requires Valid()
      modifies this
      ensures Valid()
      ensures e == SelectSubjectCheck(old(docs), studentId)
      ensures e.Some? ==> docs == old(docs)
      ensures e.None? ==> docs == old(docs)[studentId := AppendSubject(old(docs)[studentId], subjectId, now)]
    {
      if studentId !in docs {
        return Some(StudentNotFound);
      }
      var student := docs[studentId];
      if |student.subjects| >= 3 {
        return Some(TooManySubjects);
      }
      if student.credits + 3 > 9 {
        return Some(CreditLimitExceeded);
      }
      docs := docs[studentId := student.(subjects := student.subjects + [subjectId],
                                         credits := student.credits + 3, updatedAt := now)];
      e := None;
    }

    /** `removeSubject`: fails only for a missing record; credits drop even if the id was absent. */
    method RemoveSubject(studentId: string, subjectId: string, now: string)
      returns (e: Option<StudentError>)
      requires Valid()
      modifies this
      ensures Valid()
      ensures e.Some? <==> studentId !in old(docs)
      ensures e.Some? ==> e.value == StudentNotFound && docs == old(docs)
      ensures e.None? ==> docs == old(docs)[studentId := DropSubject(old(docs)[studentId], subjectId, now)]
    {
      if studentId !in docs {
        return Some(StudentNotFound);
      }
      var student := docs[studentId];
      docs := docs[studentId := student.(subjects := Without(student.subjects, subjectId),
                                         credits := Max0(student.credits - 3), updatedAt := now)];
      e := None;
    }
  }
}
