/**
 * Registration and login (app_modules/auth.py). Password hashing is opaque:
 * `hash` stands for generate_password_hash and `verify(stored, given)` for
 * check_password_hash.
 */
module AuthRoutes {
  import opened Wrappers
  import opened Strings
  import opened Models
  import NoteRoutes

  datatype RegisterForm = RegisterForm(username: Option<string>, password: Option<string>, confirm: Option<string>)

  datatype Registration = MissingFields | PasswordMismatch | UsernameTaken | Registered(id: int)

  /** Any of the three fields is empty after stripping. */
  predicate RegisterIncomplete(form: RegisterForm)
  {
    || IsBlank(NoteRoutes.FormText(form.username))
    || IsBlank(NoteRoutes.FormText(form.password))
    || IsBlank(NoteRoutes.FormText(form.confirm))
  }

  function Username(form: RegisterForm): string { Strip(NoteRoutes.FormText(form.username)) }
  function Password(form: RegisterForm): string { Strip(NoteRoutes.FormText(form.password)) }

  /**
   * register (POST): empty fields, then a password mismatch, then a taken
   * username are refused in that order with the users table unchanged;
   * otherwise one user is added with the stripped name and the hash of the
   * stripped password.
   */
  method Register(store: Store, form: RegisterForm, hash: string -> string) returns (r: Registration)
    requires store.Valid()
    modifies store
    ensures store.Valid()
    ensures r == MissingFields <==> RegisterIncomplete(form)
    ensures r == PasswordMismatch <==>
      !RegisterIncomplete(form) && Password(form) != Strip(NoteRoutes.FormText(form.confirm))
    ensures r == UsernameTaken <==>
      && !RegisterIncomplete(form) && Password(form) == Strip(NoteRoutes.FormText(form.confirm))
      && UserByUsername(old(store.users), Username(form)).Some?
    ensures !r.Registered? ==> store.users == old(store.users) && store.nextUserId == old(store.nextUserId)
    ensures r.Registered? ==>
      && r.id == old(store.nextUserId)
      && store.users == old(store.users) + [User(r.id, Username(form), hash(Password(form)))]
      && store.nextUserId == old(store.nextUserId) + 1
    ensures store.categories == old(store.categories) && store.notes == old(store.notes)
    ensures store.nextCategoryId == old(store.nextCategoryId) && store.nextNoteId == old(store.nextNoteId)
  {
    var username := Strip(NoteRoutes.FormText(form.username));
    var password := Strip(NoteRoutes.FormText(form.password));
    var confirm := Strip(NoteRoutes.FormText(form.confirm));
    if username == [] || password == [] || confirm == [] {
      return MissingFields;
    }
    if password != confirm {
      return PasswordMismatch;
    }
    if UserByUsername(store.users, username).Some? {
      return UsernameTaken;
    }
    var id := store.InsertUser(username, hash(password));
    r := Registered(id);
  }

  datatype LoginForm = LoginForm(username: Option<string>, password: Option<string>)

  datatype LoginResult = LoginMissingFields | InvalidCredentials | LoggedIn(user: User)

  /**
   * login (POST): empty fields are refused; an unknown username and a wrong
   * password give the same InvalidCredentials; otherwise the user logs in.
   */
  function Login(users: seq<User>, form: LoginForm, verify: (string, string) -> bool): (r: LoginResult)
    ensures r == LoginMissingFields <==>
      IsBlank(NoteRoutes.FormText(form.username)) || IsBlank(NoteRoutes.FormText(form.password))
    ensures r == InvalidCredentials <==>
      && !IsBlank(NoteRoutes.FormText(form.username)) && !IsBlank(NoteRoutes.FormText(form.password))
      && var u := UserByUsername(users, Strip(NoteRoutes.FormText(form.username)));
         u.None? || !verify(u.value.passwordHash, Strip(NoteRoutes.FormText(form.password)))
    ensures r.LoggedIn? ==>
      && r.user in users
      && r.user.username == Strip(NoteRoutes.FormText(form.username))
      && verify(r.user.passwordHash, Strip(NoteRoutes.FormText(form.password)))
  {
    var username := Strip(NoteRoutes.FormText(form.username));
    var password := Strip(NoteRoutes.FormText(form.password));
    if username == [] || password == [] then LoginMissingFields
    else match UserByUsername(users, username)
      case None => InvalidCredentials
      case Some(user) => if verify(user.passwordHash, password) then LoggedIn(user) else InvalidCredentials
  }

  /** With UNIQUE usernames, login succeeds exactly when the named user's stored hash verifies. */
  lemma LoginIffCredentials(users: seq<User>, nextId: int, form: LoginForm, verify: (string, string) -> bool)
    requires UsersValid(users, nextId)
    requires !IsBlank(NoteRoutes.FormText(form.username)) && !IsBlank(NoteRoutes.FormText(form.password))
    ensures Login(users, form, verify).LoggedIn? <==>
      exists i :: 0 <= i < |users| && users[i].username == Strip(NoteRoutes.FormText(form.username))
        && verify(users[i].passwordHash, Strip(NoteRoutes.FormText(form.password)))
  {
    var name := Strip(NoteRoutes.FormText(form.username));
    if exists i :: 0 <= i < |users| && users[i].username == name {
      var i :| 0 <= i < |users| && users[i].username == name;
      UserByUsernameUnique(users, nextId, i);
    }
  }

  /** Whoever registers can log in with the same name and password, when verify accepts what hash produced. */
  lemma RegisterThenLogin(users: seq<User>, nextId: int, form: RegisterForm, hash: string -> string,
                          verify: (string, string) -> bool)
    requires UsersValid(users, nextId)
    requires !RegisterIncomplete(form) && UserByUsername(users, Username(form)).None?
    requires verify(hash(Password(form)), Password(form))
    ensures Login(users + [User(nextId, Username(form), hash(Password(form)))],
                  LoginForm(form.username, form.password), verify)
      == LoggedIn(User(nextId, Username(form), hash(Password(form))))
  {
    var after := users + [User(nextId, Username(form), hash(Password(form)))];
    assert forall k :: 0 <= k < |users| ==> after[k].username != Username(form);
    assert after[|users|].username == Username(form);
  }
}
