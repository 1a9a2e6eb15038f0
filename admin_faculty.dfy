/** pages/AdminFaculty.tsx: the add-faculty form's subject toggle, the
    subject-name lookup used to label assigned codes, and the form's reset
    after a faculty is added to the mock store. */
module AdminFaculty {
  import opened Common
  import opened ServicesApi

  /** The add-faculty form. */
  datatype FacultyForm = FacultyForm(name: string, email: string, assignedSubjects: seq<string>)

  const EMPTY_FORM: FacultyForm := FacultyForm("", "", [])

  /** `toggleSubject`: name and email are kept, the code's membership flips. */
  function ToggleSubject(form: FacultyForm, code: string): (r: FacultyForm)
    ensures r.name == form.name && r.email == form.email
    ensures code in r.assignedSubjects <==> code !in form.assignedSubjects
    ensures forall c :: c != code ==> (c in r.assignedSubjects <==> c in form.assignedSubjects)
    ensures code !in form.assignedSubjects ==> r.assignedSubjects == form.assignedSubjects + [code]
  {
    ToggleMembership(form.assignedSubjects, code);
    form.(assignedSubjects := Toggle(form.assignedSubjects, code))
  }

  /** Assigning and unassigning a code restores the form; a duplicate-free
      list stays duplicate-free. */
  lemma ToggleSubjectTwice(form: FacultyForm, code: string)
    ensures code !in form.assignedSubjects ==> ToggleSubject(ToggleSubject(form, code), code) == form
    ensures Distinct(form.assignedSubjects) ==> Distinct(ToggleSubject(form, code).assignedSubjects)
  {
    ToggleTwice(form.assignedSubjects, code);
    if Distinct(form.assignedSubjects) {
      ToggleDistinct(form.assignedSubjects, code);
    }
  }

  /** `getSubjectName`: the name of the first catalogue entry with that code,
      or the code itself when there is none or its name is empty. */
  function SubjectName(code: string): (r: string)
    ensures (forall i :: 0 <= i < |SUBJECTS| ==> SUBJECTS[i].code != code) ==> r == code
    ensures r == code || exists i :: 0 <= i < |SUBJECTS| && SUBJECTS[i].code == code && SUBJECTS[i].name == r
  {
    var found := Find(SUBJECTS, (s: Subject) => s.code == code);
    if found.Some? && found.value.name != "" then found.value.name else code
  }

  /** The catalogue's codes are distinct, so every catalogue code is labelled
      with its own subject's name. */
  lemma CatalogueLabels(i: nat)
    requires i < |SUBJECTS|
    ensures SubjectName(SUBJECTS[i].code) == SUBJECTS[i].name
  {
    var p := (s: Subject) => s.code == SUBJECTS[i].code;
    var k := FirstIndex(SUBJECTS, p);
    assert p(SUBJECTS[i]);
    assert k.Some? && k.value <= i;
    assert SUBJECTS[k.value].code == SUBJECTS[i].code;
  }

  /** The faculty `addFaculty` appends to the mock list. */
  function NewFaculty(form: FacultyForm, id: string): (u: ApiUser)
    ensures u.role == FACULTY && u.id == id && u.name == form.name && u.email == form.email
    ensures u.assignedSubjects == Some(form.assignedSubjects)
  {
    ApiUser(id, form.name, form.email, FACULTY, Some(form.assignedSubjects))
  }

  /** The form and its modal after `handleAddFaculty`: a successful add
      resets the form and closes the modal; a failed one keeps both. */
  function AfterAdd(form: FacultyForm, showAddModal: bool, added: bool): (r: (FacultyForm, bool))
    ensures added ==> r == (EMPTY_FORM, false)
    ensures !added ==> r == (form, showAddModal)
  {
    if added then (EMPTY_FORM, false) else (form, showAddModal)
  }

  /** After a successful add every subject box is unticked, so the next
      toggle starts from an empty list. */
  lemma ResetThenToggle(form: FacultyForm, showAddModal: bool, code: string)
    ensures ToggleSubject(AfterAdd(form, showAddModal, true).0, code).assignedSubjects == [code]
  {
  }
}
