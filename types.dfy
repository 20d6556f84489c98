/**
 * The three entities of the academic system (src/types/index.ts) and the partial updates
 * (`Partial<T>`) that the store and the services spread over them. Timestamps are opaque
 * strings supplied by the caller.
 */
module Types {
  import opened Common

  /** Credits every subject is worth; the store and the services add and subtract this. */
  const CREDITS_PER_SUBJECT: int := 3
  /** The credit cap checked by the services and selectors, and `maxCredits` of new students. */
  const MAX_CREDITS_PER_SEMESTER: int := 9
  /** The subject cap every check in the code enforces. */
  const MAX_SUBJECTS_PER_STUDENT: int := 3

  datatype Student = Student(
    id: string,
    name: string,
    email: string,
    phone: string,
    subjects: seq<string>,
    professors: seq<string>,
    semester: int,
    gpa: real,
    credits: int,
    maxCredits: int,
    createdAt: string,
    updatedAt: string)

  datatype Subject = Subject(
    id: string,
    name: string,
    credits: int,
    professor: string,
    schedule: string,
    capacity: int,
    enrolled: int,
    description: string,
    prerequisites: seq<string>,
    isActive: bool,
    createdAt: string,
    updatedAt: string)

  datatype Professor = Professor(
    id: string,
    name: string,
    email: string,
    subjects: seq<string>,
    maxSubjects: int,
    isActive: bool,
    createdAt: string,
    updatedAt: string)

  /** A subject that accepts another enrollment. */
  predicate IsAvailable(s: Subject)
  {
    s.isActive && s.enrolled < s.capacity
  }

  /** The value an optional field of a partial update gives, or the current one. */
  function Pick<T>(o: Option<T>, current: T): T
  {
    if o.Some? then o.value else current
  }

  /** `Partial<Omit<Student, 'id' | 'createdAt' | 'updatedAt'>>`. */
  datatype StudentPatch = StudentPatch(
    name: Option<string>,
    email: Option<string>,
    phone: Option<string>,
    subjects: Option<seq<string>>,
    professors: Option<seq<string>>,
    semester: Option<int>,
    gpa: Option<real>,
    credits: Option<int>,
    maxCredits: Option<int>)

  const NoStudentChanges := StudentPatch(None, None, None, None, None, None, None, None, None)

  /**
   * `{ ...s, ...p, updatedAt: now }`: each field the patch carries is overwritten, every
   * other field is kept, and the timestamp becomes now.
   */
  function MergeStudent(s: Student, p: StudentPatch, now: string): (r: Student)
    ensures r.id == s.id && r.createdAt == s.createdAt && r.updatedAt == now
    ensures (p.name.Some? ==> r.name == p.name.value) && (p.name.None? ==> r.name == s.name)
    ensures (p.email.Some? ==> r.email == p.email.value) && (p.email.None? ==> r.email == s.email)
    ensures (p.phone.Some? ==> r.phone == p.phone.value) && (p.phone.None? ==> r.phone == s.phone)
    ensures (p.subjects.Some? ==> r.subjects == p.subjects.value) && (p.subjects.None? ==> r.subjects == s.subjects)
    ensures (p.professors.Some? ==> r.professors == p.professors.value) && (p.professors.None? ==> r.professors == s.professors)
    ensures (p.semester.Some? ==> r.semester == p.semester.value) && (p.semester.None? ==> r.semester == s.semester)
    ensures (p.gpa.Some? ==> r.gpa == p.gpa.value) && (p.gpa.None? ==> r.gpa == s.gpa)
    ensures (p.credits.Some? ==> r.credits == p.credits.value) && (p.credits.None? ==> r.credits == s.credits)
    ensures (p.maxCredits.Some? ==> r.maxCredits == p.maxCredits.value) && (p.maxCredits.None? ==> r.maxCredits == s.maxCredits)
  {
    s.(name := Pick(p.name, s.name), email := Pick(p.email, s.email),
       phone := Pick(p.phone, s.phone), subjects := Pick(p.subjects, s.subjects),
       professors := Pick(p.professors, s.professors), semester := Pick(p.semester, s.semester),
       gpa := Pick(p.gpa, s.gpa), credits := Pick(p.credits, s.credits),
       maxCredits := Pick(p.maxCredits, s.maxCredits), updatedAt := now)
  }

  /** An update with no fields only refreshes the timestamp. */
  lemma MergeStudentNothing(s: Student, now: string)
    ensures MergeStudent(s, NoStudentChanges, now) == s.(updatedAt := now)
  {
  }

  /** Spreading the same update twice is spreading it once. */
  lemma MergeStudentIdempotent(s: Student, p: StudentPatch, t1: string, t2: string)
    ensures MergeStudent(MergeStudent(s, p, t1), p, t2) == MergeStudent(s, p, t2)
  {
  }

  /** `Partial<Subject>` as used for updates (the id is never part of one). */
  datatype SubjectPatch = SubjectPatch(
    name: Option<string>,
    credits: Option<int>,
    professor: Option<string>,
    schedule: Option<string>,
    capacity: Option<int>,
    enrolled: Option<int>,
    description: Option<string>,
    prerequisites: Option<seq<string>>,
    isActive: Option<bool>)

  /** `{ enrolled: n }`, the update the selection screen sends for a counter. */
  function EnrolledPatch(n: int): SubjectPatch
  {
    SubjectPatch(None, None, None, None, None, Some(n), None, None, None)
  }

  /** `{ ...s, ...p, updatedAt: now }`, field by field as for students. */
  function MergeSubject(s: Subject, p: SubjectPatch, now: string): (r: Subject)
    ensures r.id == s.id && r.createdAt == s.createdAt && r.updatedAt == now
    ensures (p.name.Some? ==> r.name == p.name.value) && (p.name.None? ==> r.name == s.name)
    ensures (p.credits.Some? ==> r.credits == p.credits.value) && (p.credits.None? ==> r.credits == s.credits)
    ensures (p.professor.Some? ==> r.professor == p.professor.value) && (p.professor.None? ==> r.professor == s.professor)
    ensures (p.schedule.Some? ==> r.schedule == p.schedule.value) && (p.schedule.None? ==> r.schedule == s.schedule)
    ensures (p.capacity.Some? ==> r.capacity == p.capacity.value) && (p.capacity.None? ==> r.capacity == s.capacity)
    ensures (p.enrolled.Some? ==> r.enrolled == p.enrolled.value) && (p.enrolled.None? ==> r.enrolled == s.enrolled)
    ensures (p.description.Some? ==> r.description == p.description.value) && (p.description.None? ==> r.description == s.description)
    ensures (p.prerequisites.Some? ==> r.prerequisites == p.prerequisites.value) && (p.prerequisites.None? ==> r.prerequisites == s.prerequisites)
    ensures (p.isActive.Some? ==> r.isActive == p.isActive.value) && (p.isActive.None? ==> r.isActive == s.isActive)
  {
    s.(name := Pick(p.name, s.name), credits := Pick(p.credits, s.credits),
       professor := Pick(p.professor, s.professor), schedule := Pick(p.schedule, s.schedule),
       capacity := Pick(p.capacity, s.capacity), enrolled := Pick(p.enrolled, s.enrolled),
       description := Pick(p.description, s.description),
       prerequisites := Pick(p.prerequisites, s.prerequisites),
       isActive := Pick(p.isActive, s.isActive), updatedAt := now)
  }

  /** A counter update changes the counter and the timestamp and nothing else. */
  lemma MergeEnrolledOnly(s: Subject, n: int, now: string)
    ensures MergeSubject(s, EnrolledPatch(n), now) == s.(enrolled := n, updatedAt := now)
  {
  }

  /** `Partial<Professor>` as used for updates. */
  datatype ProfessorPatch = ProfessorPatch(
    name: Option<string>,
    email: Option<string>,
    subjects: Option<seq<string>>,
    maxSubjects: Option<int>,
    isActive: Option<bool>)

  /** `{ ...p, ...u, updatedAt: now }`, field by field as for students. */
  function MergeProfessor(p: Professor, u: ProfessorPatch, now: string): (r: Professor)
    ensures r.id == p.id && r.createdAt == p.createdAt && r.updatedAt == now
    ensures (u.name.Some? ==> r.name == u.name.value) && (u.name.None? ==> r.name == p.name)
    ensures (u.email.Some? ==> r.email == u.email.value) && (u.email.None? ==> r.email == p.email)
    ensures (u.subjects.Some? ==> r.subjects == u.subjects.value) && (u.subjects.None? ==> r.subjects == p.subjects)
    ensures (u.maxSubjects.Some? ==> r.maxSubjects == u.maxSubjects.value) && (u.maxSubjects.None? ==> r.maxSubjects == p.maxSubjects)
    ensures (u.isActive.Some? ==> r.isActive == u.isActive.value) && (u.isActive.None? ==> r.isActive == p.isActive)
  {
    p.(name := Pick(u.name, p.name), email := Pick(u.email, p.email),
       subjects := Pick(u.subjects, p.subjects), maxSubjects := Pick(u.maxSubjects, p.maxSubjects),
       isActive := Pick(u.isActive, p.isActive), updatedAt := now)
  }

  /** `CreateStudentRequest`: what registration supplies for a new student. */
  datatype StudentInput = StudentInput(name: string, email: string, phone: string, semester: int)

  /** `Omit<Subject, 'id' | 'createdAt' | 'updatedAt'>`. */
  datatype SubjectInput = SubjectInput(
    name: string,
    credits: int,
    professor: string,
    schedule: string,
    capacity: int,
    enrolled: int,
    description: string,
    prerequisites: seq<string>,
    isActive: bool)

  /** The fields of a subject other than its identity and timestamps. */
  function SubjectFields(s: Subject): SubjectInput
  {
    SubjectInput(s.name, s.credits, s.professor, s.schedule, s.capacity, s.enrolled,
                 s.description, s.prerequisites, s.isActive)
  }

  /** `{ id, ...input, createdAt: now, updatedAt: now }`. */
  function NewSubject(id: string, input: SubjectInput, now: string): (s: Subject)
    ensures SubjectFields(s) == input && s.id == id && s.createdAt == now && s.updatedAt == now
  {
    Subject(id, input.name, input.credits, input.professor, input.schedule, input.capacity,
            input.enrolled, input.description, input.prerequisites, input.isActive, now, now)
  }

  /** `Omit<Professor, 'id' | 'createdAt' | 'updatedAt'>`. */
  datatype ProfessorInput = ProfessorInput(
    name: string,
    email: string,
    subjects: seq<string>,
    maxSubjects: int,
    isActive: bool)

  function ProfessorFields(p: Professor): ProfessorInput
  {
    ProfessorInput(p.name, p.email, p.subjects, p.maxSubjects, p.isActive)
  }

  /** `{ id, ...input, createdAt: now, updatedAt: now }`. */
  function NewProfessor(id: string, input: ProfessorInput, now: string): (p: Professor)
    ensures ProfessorFields(p) == input && p.id == id && p.createdAt == now && p.updatedAt == now
  {
    Professor(id, input.name, input.email, input.subjects, input.maxSubjects, input.isActive,
              now, now)
  }

  /** The curried id tests that `find`, `findIndex` and `filter` are called with. */
  function StudentHasId(id: string): Student -> bool
  {
    (s: Student) => s.id == id
  }

  function SubjectHasId(id: string): Subject -> bool
  {
    (s: Subject) => s.id == id
  }

  function ProfessorHasId(id: string): Professor -> bool
  {
    (p: Professor) => p.id == id
  }

  function StudentLacksId(id: string): Student -> bool
  {
    (s: Student) => s.id != id
  }

  function SubjectLacksId(id: string): Subject -> bool
  {
    (s: Subject) => s.id != id
  }

  function ProfessorLacksId(id: string): Professor -> bool
  {
    (p: Professor) => p.id != id
  }
}
