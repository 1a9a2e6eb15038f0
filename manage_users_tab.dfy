/** components/ManageUsersTab.tsx: the new-user form's subject toggle, the
    guard and reset of `handleAddUser`, and the user search, which treats a
    missing name, email or enrolment number as empty. */
module ManageUsersTab {
  import opened Common
  import opened AppContext

  /** The new-user form. */
  datatype NewUserForm = NewUserForm(
    name: string, email: string, enrollmentNo: string, password: string, role: Role,
    semester: int, subjectIds: seq<string>)

  /** A user as the list receives it: any of the searched fields may be
      null or missing. */
  datatype ListedUser = ListedUser(id: string, name: Option<string>, email: Option<string>,
                                   enrollmentNo: Option<string>)

  /** The form as the tab first shows it. */
  const INITIAL_FORM: NewUserForm := NewUserForm("", "", "", "", STUDENT, 0, [])

  /** The form after a user was added: as initially, but semester 1. */
  const RESET_FORM: NewUserForm := NewUserForm("", "", "", "", STUDENT, 1, [])

  const ADDED_MESSAGE: string := "User added successfully."

  /** `toggleSubject`: only the form's subject ids change. */
  function ToggleSubject(form: NewUserForm, subjectId: string): (r: NewUserForm)
    ensures r.name == form.name && r.email == form.email && r.enrollmentNo == form.enrollmentNo
    ensures r.password == form.password && r.role == form.role && r.semester == form.semester
    ensures subjectId in r.subjectIds <==> subjectId !in form.subjectIds
    ensures forall c :: c != subjectId ==> (c in r.subjectIds <==> c in form.subjectIds)
  {
    ToggleMembership(form.subjectIds, subjectId);
    form.(subjectIds := Toggle(form.subjectIds, subjectId))
  }

  /** Ticking and unticking a subject restores the form; a duplicate-free
      list stays duplicate-free. */
  lemma ToggleSubjectTwice(form: NewUserForm, subjectId: string)
    ensures subjectId !in form.subjectIds ==> ToggleSubject(ToggleSubject(form, subjectId), subjectId) == form
    ensures Distinct(form.subjectIds) ==> Distinct(ToggleSubject(form, subjectId).subjectIds)
  {
    ToggleTwice(form.subjectIds, subjectId);
    if Distinct(form.subjectIds) {
      ToggleDistinct(form.subjectIds, subjectId);
    }
  }

  /** `handleAddUser`: the form submitted to `addUser` (None when nothing is
      submitted), the form afterwards and the message shown. */
  function HandleAddUser(form: NewUserForm, message: string): (r: (Option<NewUserForm>, NewUserForm, string))
    ensures r.0.Some? <==> form.name != "" && form.email != "" && form.password != ""
    ensures r.0.Some? ==> r.0.value == form && r.1 == RESET_FORM && r.2 == ADDED_MESSAGE
    ensures r.0.None? ==> r.1 == form && r.2 == message
  {
    if form.name != "" && form.email != "" && form.password != "" then
      (Some(form), RESET_FORM, ADDED_MESSAGE)
    else (None, form, message)
  }

  /** The reset form differs from the initial one in its semester only, and
      a fresh form can never be submitted as it is. */
  lemma ResetDiffersInSemester()
    ensures RESET_FORM == INITIAL_FORM.(semester := 1) && INITIAL_FORM.semester == 0
    ensures HandleAddUser(INITIAL_FORM, "").0.None? && HandleAddUser(RESET_FORM, "").0.None?
  {
  }

  /** `x ?? ""`. */
  function OrEmpty(x: Option<string>): string
  {
    if x.Some? then x.value else ""
  }

  /** A user the search keeps. */
  predicate Matches(u: ListedUser, search: string)
  {
    Contains(Lower(OrEmpty(u.name)), Lower(search))
    || Contains(Lower(OrEmpty(u.email)), Lower(search))
    || Contains(Lower(OrEmpty(u.enrollmentNo)), Lower(search))
  }

  /** `filteredUsers`. */
  function FilteredUsers(users: seq<ListedUser>, search: string): (r: seq<ListedUser>)
    ensures |r| <= |users|
    ensures forall u :: u in r <==> u in users && Matches(u, search)
  {
    Filter(users, (u: ListedUser) => Matches(u, search))
  }

  /** An empty search keeps every user, in order, missing fields or not. */
  lemma EmptySearchKeepsAll(users: seq<ListedUser>)
    ensures FilteredUsers(users, "") == users
  {
    forall i | 0 <= i < |users|
      ensures Matches(users[i], "")
    {
      ContainsEmpty(Lower(OrEmpty(users[i].name)));
    }
    FilterAll(users, (u: ListedUser) => Matches(u, ""));
  }

  /** A missing field is searched as the empty string: it matches only the
      empty search. */
  lemma MissingFieldsMatchOnlyEmpty(u: ListedUser, search: string)
    requires u.name.None? && u.email.None? && u.enrollmentNo.None?
    ensures Matches(u, search) <==> search == ""
  {
    if search == "" {
      ContainsEmpty("");
    } else {
      assert |Lower(search)| > 0;
    }
  }
}
