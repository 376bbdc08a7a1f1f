/** The user record (model/User.java) and its field constraints. */
module Users {
  import opened Outcomes
  import opened Dates
  import opened Constraints

  /** A user. `id` and `name` may be absent (Java `null`); `friends` is the
      set of friend ids the friendship operations read and write. */
  datatype User = User(
    id: Option<int>,
    email: string,
    login: string,
    name: Option<string>,
    birthday: Date,
    friends: set<int>)

  /** The five-argument constructor; the friend set starts out empty. */
  function NewUser(id: Option<int>, email: string, login: string, name: Option<string>, birthday: Date): (u: User)
    ensures u.id == id && u.email == email && u.login == login
    ensures u.name == name && u.birthday == birthday
    ensures u.friends == {}
  {
    User(id, email, login, name, birthday, {})
  }

  /** The annotations on the fields: `@NotNull` id, `@NotBlank` e-mail that
      matches the `@Email` pattern, `@NotBlank` login without whitespace,
      `@NotNull` birthday (always present here). The name is unconstrained.
      A valid user has an id, an e-mail holding `@` of at least six
      characters, and a non-empty login with a visible character and no space. */
  predicate ValidUser(u: User)
    ensures ValidUser(u) ==> u.id.Some?
    ensures ValidUser(u) ==> '@' in u.email && |u.email| >= 6
    ensures ValidUser(u) ==> |u.login| >= 1
    ensures ValidUser(u) ==> exists i :: 0 <= i < |u.login| && u.login[i] > ' '
    ensures ValidUser(u) ==> forall i :: 0 <= i < |u.login| ==> u.login[i] != ' '
  {
    && u.id.Some?
    && !IsBlank(u.email) && MatchesEmailPattern(u.email)
    && !IsBlank(u.login) && HasNoRegexSpace(u.login)
  }

  /** The name takes no part in validity: it may be absent or empty. */
  lemma NameUnconstrained(u: User, name: Option<string>)
    ensures ValidUser(u) <==> ValidUser(u.(name := name))
  {
  }

  /** The name rule of `create`: an absent or empty name (a blank but
      non-empty one is kept) is replaced by the login. */
  function WithDefaultName(u: User): (v: User)
    ensures v.id == u.id && v.email == u.email && v.login == u.login
    ensures v.birthday == u.birthday && v.friends == u.friends
    ensures u.name.Some? && u.name.value != "" ==> v.name == u.name
    ensures u.name.None? || u.name.value == "" ==> v.name == Some(u.login)
  {
    if u.name.None? || u.name.value == "" then u.(name := Some(u.login)) else u
  }

  /** Applying the name rule twice, as the service and then the store do,
      is the same as applying it once. */
  lemma WithDefaultNameIdempotent(u: User)
    ensures WithDefaultName(WithDefaultName(u)) == WithDefaultName(u)
  {
  }

  /** A name of one space is not empty, so it is kept rather than replaced. */
  lemma BlankNameKept(u: User)
    requires u.name == Some(" ")
    ensures WithDefaultName(u).name == Some(" ")
  {
  }
}
