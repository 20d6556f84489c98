/**
 * The student directory (src/components/students/StudentsList.tsx): the names shown for a
 * student's subject and professor ids, the names offered by the two filter selects, and the
 * list of students the search box and the selects leave on screen. The lists are the
 * store's, in the store's order.
 */
module StudentsList {
  import opened Common
  import opened Types
  import opened Text

  /** The value of the two selects that means "no filter". */
  const ALL: string := "all"

  /** `getSubjectName`: the name of the first subject with this id, or the id itself. */
  function SubjectName(subjects: seq<Subject>, id: string): (n: string)
    ensures (forall k :: 0 <= k < |subjects| ==> subjects[k].id != id) ==> n == id
    ensures forall k :: 0 <= k < |subjects| && subjects[k].id == id ==>
              (forall j :: 0 <= j < k ==> subjects[j].id != id) ==> n == subjects[k].name
  {
    match Find(subjects, SubjectHasId(id))
    case Some(s) => s.name
    case None => id
  }

  /** `getProfessorName`: the name of the first professor with this id, or the id itself. */
  function ProfessorName(professors: seq<Professor>, id: string): (n: string)
    ensures (forall k :: 0 <= k < |professors| ==> professors[k].id != id) ==> n == id
    ensures forall k :: 0 <= k < |professors| && professors[k].id == id ==>
              (forall j :: 0 <= j < k ==> professors[j].id != id) ==> n == professors[k].name
  {
    match Find(professors, ProfessorHasId(id))
    case Some(p) => p.name
    case None => id
  }

  /** With ids unique in the store, the name shown is the name of the subject with that id. */
  lemma SubjectNameOfUniqueId(subjects: seq<Subject>, k: int)
    requires 0 <= k < |subjects|
    requires forall i, j :: 0 <= i < j < |subjects| ==> subjects[i].id != subjects[j].id
    ensures SubjectName(subjects, subjects[k].id) == subjects[k].name
  {
  }

  /** A student with the names of its subjects and professors, position by position. */
  datatype MappedStudent = MappedStudent(student: Student, subjectNames: seq<string>,
                                         professorNames: seq<string>)

  function SubjectNames(ids: seq<string>, subjects: seq<Subject>): (r: seq<string>)
    ensures |r| == |ids|
    ensures forall j :: 0 <= j < |ids| ==> r[j] == SubjectName(subjects, ids[j])
  {
    seq(|ids|, j requires 0 <= j < |ids| => SubjectName(subjects, ids[j]))
  }

  function ProfessorNames(ids: seq<string>, professors: seq<Professor>): (r: seq<string>)
    ensures |r| == |ids|
    ensures forall j :: 0 <= j < |ids| ==> r[j] == ProfessorName(professors, ids[j])
  {
    seq(|ids|, j requires 0 <= j < |ids| => ProfessorName(professors, ids[j]))
  }

  /** `mappedStudents`: every student, in order, with its subject and professor names. */
  function MappedStudents(students: seq<Student>, subjects: seq<Subject>, professors: seq<Professor>)
    : (r: seq<MappedStudent>)
    ensures |r| == |students|
    ensures forall i :: 0 <= i < |students| ==>
              r[i].student == students[i]
              && r[i].subjectNames == SubjectNames(students[i].subjects, subjects)
              && r[i].professorNames == ProfessorNames(students[i].professors, professors)
  {
    seq(|students|, i requires 0 <= i < |students| =>
      MappedStudent(students[i], SubjectNames(students[i].subjects, subjects),
                    ProfessorNames(students[i].professors, professors)))
  }

  /** `subjects.map(s => s.name)`. */
  function SubjectNameList(subjects: seq<Subject>): (r: seq<string>)
    ensures |r| == |subjects|
    ensures forall k :: 0 <= k < |subjects| ==> r[k] == subjects[k].name
  {
    seq(|subjects|, k requires 0 <= k < |subjects| => subjects[k].name)
  }

  function ProfessorNameList(professors: seq<Professor>): (r: seq<string>)
    ensures |r| == |professors|
    ensures forall k :: 0 <= k < |professors| ==> r[k] == professors[k].name
  {
    seq(|professors|, k requires 0 <= k < |professors| => professors[k].name)
  }

  /** `allSubjects`: each subject name once, sorted; exactly the names of the store's subjects. */
  function AllSubjects(subjects: seq<Subject>): (r: seq<string>)
    ensures Sorted(r)
    ensures forall i, j :: 0 <= i < j < |r| ==> r[i] != r[j]
    ensures forall n :: n in r <==> exists k :: 0 <= k < |subjects| && subjects[k].name == n
  {
    var names := SubjectNameList(subjects);
    var r := SortedDistinct(names);
    assert forall n :: n in names <==> exists k :: 0 <= k < |subjects| && subjects[k].name == n by {
      forall n | n in names ensures exists k :: 0 <= k < |subjects| && subjects[k].name == n {
        var k :| 0 <= k < |names| && names[k] == n;
      }
    }
    r
  }

  /** `allProfessors`: each professor name once, sorted; exactly the names of the store's professors. */
  function AllProfessors(professors: seq<Professor>): (r: seq<string>)
    ensures Sorted(r)
    ensures forall i, j :: 0 <= i < j < |r| ==> r[i] != r[j]
    ensures forall n :: n in r <==> exists k :: 0 <= k < |professors| && professors[k].name == n
  {
    var names := ProfessorNameList(professors);
    var r := SortedDistinct(names);
    assert forall n :: n in names <==> exists k :: 0 <= k < |professors| && professors[k].name == n by {
      forall n | n in names ensures exists k :: 0 <= k < |professors| && professors[k].name == n {
        var k :| 0 <= k < |names| && names[k] == n;
      }
    }
    r
  }

  /**
   * One student passes when its name or e-mail contains the search term (ignoring case),
   * it has the selected subject name unless the select says "all", and likewise for the
   * professor name.
   */
  predicate MatchesListFilters(m: MappedStudent, searchTerm: string, selectedSubject: string,
                               selectedProfessor: string)
  {
    (Includes(Lower(m.student.name), Lower(searchTerm))
     || Includes(Lower(m.student.email), Lower(searchTerm)))
    && (selectedSubject == ALL || selectedSubject in m.subjectNames)
    && (selectedProfessor == ALL || selectedProfessor in m.professorNames)
  }

  function ListFilter(searchTerm: string, selectedSubject: string, selectedProfessor: string)
    : MappedStudent -> bool
  {
    (m: MappedStudent) => MatchesListFilters(m, searchTerm, selectedSubject, selectedProfessor)
  }

  /**
   * `filteredStudents`: the mapped students that pass, in their order; a student is shown
   * exactly when it passes.
   */
  function FilteredStudents(mapped: seq<MappedStudent>, searchTerm: string, selectedSubject: string,
                            selectedProfessor: string): (r: seq<MappedStudent>)
    ensures IsSubsequence(r, mapped)
    ensures forall m :: m in r <==>
              m in mapped && MatchesListFilters(m, searchTerm, selectedSubject, selectedProfessor)
  {
    Filter(mapped, ListFilter(searchTerm, selectedSubject, selectedProfessor))
  }

  /** With an empty search and both selects at "all", every student is shown, in order. */
  lemma NoFiltersShowEveryone(mapped: seq<MappedStudent>)
    ensures FilteredStudents(mapped, "", ALL, ALL) == mapped
  {
    forall k | 0 <= k < |mapped| ensures ListFilter("", ALL, ALL)(mapped[k]) {
      IncludesEmpty(Lower(mapped[k].student.name));
      assert Lower("") == "";
    }
    FilterAll(mapped, ListFilter("", ALL, ALL));
  }

  /** With an empty search and only the subject select set, the test is "has that name". */
  lemma SubjectSelectOnly(m: MappedStudent, name: string)
    requires name != ALL
    ensures MatchesListFilters(m, "", name, ALL) <==> name in m.subjectNames
  {
    IncludesEmpty(Lower(m.student.name));
    assert Lower("") == "";
  }

  /** Filtering by a subject name keeps exactly the students some of whose subjects show it. */
  lemma SubjectFilterMeansName(students: seq<Student>, subjects: seq<Subject>,
                               professors: seq<Professor>, name: string, i: int)
    requires name != ALL && 0 <= i < |students|
    ensures var m := MappedStudents(students, subjects, professors);
            m[i] in FilteredStudents(m, "", name, ALL)
            <==> exists j :: 0 <= j < |students[i].subjects| && SubjectName(subjects, students[i].subjects[j]) == name
  {
    var m := MappedStudents(students, subjects, professors);
    SubjectSelectOnly(m[i], name);
    var names := m[i].subjectNames;
    assert names == SubjectNames(students[i].subjects, subjects);
    if name in names {
      var j :| 0 <= j < |names| && names[j] == name;
    }
    if exists j :: 0 <= j < |students[i].subjects| && SubjectName(subjects, students[i].subjects[j]) == name {
      var j :| 0 <= j < |students[i].subjects| && SubjectName(subjects, students[i].subjects[j]) == name;
      assert names[j] == name;
    }
  }
}
