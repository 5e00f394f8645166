/**
 * The `rms:login`, `rms:register` and `rms:logout` request handlers. Each
 * takes the world and the request and returns the world it leaves and the
 * status it sets, or the exception that escapes it.
 */
module UserApi {
  import opened Outcomes
  import opened Values
  import opened Digests
  import opened Syntax
  import opened Storage
  import opened Users
  import opened Events
  import Registry
  import Sessions
  import Rights

  /** The status and, after a successful login, the `user` entry: username and id. */
  datatype LoginReply = LoginReply(status: Status, user: Option<(Value, Value)>)

  /** Both credentials present and truthy. */
  predicate HasCredentials(req: Request) {
    Truthy(Param(req, "username")) && Truthy(Param(req, "password"))
  }

  /**
   * `onLogin($event)`: missing credentials are a bad request; otherwise the
   * current visitor logs in, and a refused login is unauthorized. Under
   * strict types a credential that is not a string cannot be passed to
   * `login`. The registry and the store are never touched.
   */
  function OnLogin(w: World, req: Request): (r: Step<World, LoginReply>)
    ensures r.state.env == w.env
    ensures !HasCredentials(req) <==> r == Step(w, Ok(LoginReply(BadRequest, None)))
    ensures r.result.Err? <==> HasCredentials(req) && !(Param(req, "username").Str? && Param(req, "password").Str?)
    ensures r.result.Err? ==> r == Step(w, Err(TypeMismatch))
    ensures r.result.Ok? ==> r.result.value.status in {BadRequest, Unauthorized, Success}
    ensures r.result.Ok? ==> (r.result.value.user.Some? <==> r.result.value.status == Success)
    ensures r.result == Ok(LoginReply(Unauthorized, None)) ==>
      r.state.cur.session == w.cur.session && !HasId(r.state.cur.user) && !IsModified(r.state.cur.user)
    ensures r.result.Ok? && r.result.value.status == Success ==>
      var u := r.state.cur.user;
      && u.data.id.Int? && u.data.id.i in w.env.db.users && u.data == RowAt(w.env.db, u.data.id.i)
      && r.state.cur.session == Some(u.data.id)
      && IsActive(u.data) && u.data.username == Param(req, "username")
      && ValidatePassword(u, Param(req, "password").s)
      && r.result.value.user == Some((Param(req, "username"), u.data.id))
  {
    var username := Param(req, "username");
    var password := Param(req, "password");
    if !Truthy(username) || !Truthy(password) then Step(w, Ok(LoginReply(BadRequest, None)))
    else if !username.Str? || !password.Str? then Step(w, Err(TypeMismatch))
    else
      var (cur', ok) := Sessions.Login(w.env.db, w.cur, username.s, password.s);
      var w' := w.(cur := cur');
      if !ok then Step(w', Ok(LoginReply(Unauthorized, None)))
      else Step(w', Ok(LoginReply(Success, Some((cur'.user.data.username, cur'.user.data.id)))))
  }

  /** The request `{username, password}`. */
  function Credentials(name: string, password: string): (req: Request)
    ensures Param(req, "username") == Str(name) && Param(req, "password") == Str(password)
    ensures !IsSet(req, "password2")
  {
    map["username" := Str(name), "password" := Str(password)]
  }

  /**
   * A visitor without unsaved changes logs in exactly when the first active
   * row with the username holds a hash of the password and may log in.
   */
  lemma LoginSucceedsIff(w: World, name: string, password: string)
    requires !IsModified(w.cur.user) && StrTruthy(name) && StrTruthy(password)
    ensures var r := OnLogin(w, Credentials(name, password));
      var row := Sessions.LoginRow(w.env.db, name);
      r.result.Ok? &&
      (r.result.value.status == Success <==>
        IsEmail(name) && row.Some? && ValidatePassword(User(RowAt(w.env.db, row.value), {}, None), password))
  {
    assert !IsModified(Sessions.LoginStart(w.cur.user));
  }

  /** The checks `onRegister` makes before it looks anything up. */
  predicate PassesChecks(req: Request) {
    && HasCredentials(req)
    && !(IsSet(req, "password2") && Param(req, "password2") != Param(req, "password"))
    && Param(req, "username").Str? && IsEmail(Param(req, "username").s)
  }

  /** The array `onRegister` hands to `createUser`. */
  function Registration(name: string, password: Value): map<string, Value> {
    map["username" := Str(name), "password" := password]
  }

  /** The instance a registration builds: the username, and the password's hash if it is accepted. */
  lemma RegistrationInstance(name: string, password: Value)
    requires Truthy(password)
    ensures var n := Registry.NewUser(Registration(name, password));
      && (n.Err? <==> !password.Str? || ByteLength(password.s) < PasswordMinLength)
      && (n.Ok? ==>
            && n.value.data.id == Null && n.value.data.username == Str(name)
            && n.value.data.removed == Null && n.value.data.canLogin == Null
            && n.value.data.password.Str? && PasswordVerify(password.s, n.value.data.password.s))
  {
    var data := Registration(name, password);
    assert Registry.GivesPassword(data);
    assert NameOf(Id) !in data && NameOf(Removed) !in data && NameOf(CanLogin) !in data;
    assert NameOf(Username) == "username";
  }

  /** Creating the registered user fails only on the password. */
  lemma RegistrationCreate(env: Registry.Env, name: string, password: Value)
    requires StrTruthy(name) && Truthy(password)
    ensures var c := Registry.CreateUser(env, Registration(name, password));
      c.result.Err? <==> !password.Str? || ByteLength(password.s) < PasswordMinLength
  {
    RegistrationInstance(name, password);
  }

  /**
   * The part of `onRegister` after the lookup: the user is created — a
   * failure escapes with nothing changed — and logged in, a refused login
   * being a server error.
   */
  function Enrol(env: Registry.Env, cur: Sessions.Current, name: string, password: Value): (r: Step<World, Status>)
    requires StrTruthy(name) && Truthy(password)
    ensures r.result.Err? <==> !password.Str? || ByteLength(password.s) < PasswordMinLength
    ensures r.result.Err? ==> r.state == World(env, cur)
    ensures r.result.Err? ==> r.result.error == if password.Str? then PasswordTooShort else TypeMismatch
    ensures r.result.Ok? ==> r.result.value in {Success, ServerError}
    ensures r.result == Ok(Success) ==>
      var u := r.state.cur.user;
      && password.Str?
      && u.data.id.Int? && u.data.id.i in r.state.env.db.users
      && r.state.cur.session == Some(u.data.id)
      && u.data == RowAt(r.state.env.db, u.data.id.i)
      && u.data.username == Str(name)
      && ValidatePassword(u, password.s)
  {
    RegistrationCreate(env, name, password);
    var created := Registry.CreateUser(env, Registration(name, password));
    if created.result.Err? then Step(World(created.state, cur), Err(created.result.error))
    else
      var (cur', ok) := Sessions.Login(created.state.db, cur, name, AsString(password));
      Step(World(created.state, cur'), Ok(if ok then Success else ServerError))
  }

  /**
   * `onRegister($event)`: missing credentials, a differing confirmation or a
   * username that is not an e-mail address are bad requests; an existing
   * user is a conflict; otherwise the user is enrolled.
   */
  function OnRegister(w: World, req: Request): (r: Step<World, Status>)
    ensures !PassesChecks(req) <==> r == Step(w, Ok(BadRequest))
    ensures r.result.Ok? ==> r.result.value in {BadRequest, Conflict, Success, ServerError}
    ensures r.result == Ok(Conflict) ==> r.state.cur == w.cur && r.state.env.db == w.env.db
    ensures r.result.Err? ==> r.state.cur == w.cur && r.state.env.db == w.env.db
    ensures r.result.Err? ==>
      if Param(req, "password").Str? then r.result.error == PasswordTooShort else r.result.error == TypeMismatch
    ensures r.result == Ok(Success) ==>
      var u := r.state.cur.user;
      && Param(req, "password").Str?
      && u.data.id.Int? && u.data.id.i in r.state.env.db.users
      && r.state.cur.session == Some(u.data.id)
      && u.data == RowAt(r.state.env.db, u.data.id.i)
      && u.data.username == Param(req, "username")
      && ValidatePassword(u, Param(req, "password").s)
  {
    var username := Param(req, "username");
    var password := Param(req, "password");
    if !Truthy(username) || !Truthy(password) then Step(w, Ok(BadRequest))
    else if IsSet(req, "password2") && Param(req, "password2") != password then Step(w, Ok(BadRequest))
    else if !(username.Str? && IsEmail(username.s)) then Step(w, Ok(BadRequest))
    else
      var look := Registry.FindUser(w.env, Registry.StrKey(username.s));
      if look.found.Some? then Step(w.(env := look.env), Ok(Conflict))
      else Enrol(look.env, w.cur, username.s, password)
  }

  /** The row inserted for a registration's instance: the username, active, allowed to log in, with the password's hash. */
  lemma RegisteredRow(db: Store, nu: User, name: string, password: string)
    requires StrTruthy(name) && nu.data.id == Null && nu.data.username == Str(name)
    requires nu.data.removed == Null && nu.data.canLogin == Null
    requires nu.data.password.Str? && PasswordVerify(password, nu.data.password.s)
    ensures Create(db, nu).Ok?
    ensures var u := Create(db, nu).value.user;
      && u.data.username == Str(name) && IsActive(u.data) && u.data.canLogin == Int(1)
      && u.data.password.Str? && PasswordVerify(password, u.data.password.s)
  {
    var saved := Create(db, nu).value;
    assert saved.user.data.Get(Username) == Str(name);
    assert saved.user.data.Get(Removed) == Int(0);
    assert saved.user.data.Get(CanLogin) == ColumnDefault(CanLogin);
    assert saved.user.data.Get(Password) == nu.data.password;
  }

  /** A registered user's record: a new row with the given username, and only the given password. */
  lemma RegisteredRecord(env: Registry.Env, name: string, password: string)
    requires StrTruthy(name) && ByteLength(password) >= PasswordMinLength
    ensures Registry.CreateUser(env, Registration(name, Str(password))).result.Ok?
    ensures var r := Registry.CreateUser(env, Registration(name, Str(password)));
      r.result.Ok? && r.result.value in r.state.heap &&
      var u := r.state.heap[r.result.value];
      && u.data.id.Int? && u.data.id.i !in env.db.users
      && r.state.db.users.Keys == env.db.users.Keys + {u.data.id.i}
      && u.data == RowAt(r.state.db, u.data.id.i)
      && u.data.username == Str(name) && IsActive(u.data) && u.data.canLogin == Int(1)
      && u.data.password.Str? && PasswordVerify(password, u.data.password.s)
      && (forall k :: k in env.db.users ==> r.state.db.users[k] == env.db.users[k])
  {
    RegistrationInstance(name, Str(password));
    var nu := Registry.NewUser(Registration(name, Str(password))).value;
    RegisteredRow(env.db, nu, name, password);
    var saved := Create(env.db, nu).value;
    var r := Registry.CreateUser(env, Registration(name, Str(password)));
    assert r.state.heap[r.result.value] == saved.user;
  }

  /** After a registration, the only active row carrying the username is the new one. */
  lemma OnlyNewRowNamed(db: Store, db': Store, k: int, name: string)
    requires forall id :: id in db.users && IsActive(RowAt(db, id)) ==> RowAt(db, id).username != Str(name)
    requires k !in db.users && db'.users.Keys == db.users.Keys + {k}
    requires forall id :: id in db.users ==> db'.users[id] == db.users[id]
    requires IsActive(RowAt(db', k)) && RowAt(db', k).username == Str(name)
    ensures Sessions.LoginRow(db', name) == Some(k)
  {
    assert RowAt(db', k).Get(Username) == Str(name);
    forall id | id in db'.users && id != k
      ensures !(IsActive(RowAt(db', id)) && RowAt(db', id).Get(Username) == Str(name))
    {
      assert id in db.users;
      assert RowAt(db', id).Get(Removed) == RowAt(db, id).Get(Removed);
      assert RowAt(db', id).Get(Username) == RowAt(db, id).Get(Username);
    }
  }

  /** A username the lookup does not find has no active row. */
  lemma UnknownNameHasNoRow(env: Registry.Env, name: string)
    requires IsEmail(name)
    requires Registry.FindUser(env, Registry.StrKey(name)).found.None?
    ensures forall id :: id in env.db.users && IsActive(RowAt(env.db, id)) ==> RowAt(env.db, id).username != Str(name)
    ensures Registry.FindUser(env, Registry.StrKey(name)).env.db == env.db
  {
    EmailIsNotNumeric(name);
    assert Registry.Coerce(Registry.StrKey(name)) == Registry.StrKey(name);
    forall id | id in env.db.users && IsActive(RowAt(env.db, id))
      ensures RowAt(env.db, id).username != Str(name)
    {
      assert RowAt(env.db, id).Get(Username) != Str(name);
    }
  }

  /**
   * A visitor without unsaved changes who registers a new e-mail address
   * with a long enough password ends up logged in as the new user.
   */
  lemma RegisterLogsIn(w: World, req: Request)
    requires !IsModified(w.cur.user) && PassesChecks(req)
    requires Param(req, "password").Str? && ByteLength(Param(req, "password").s) >= PasswordMinLength
    requires Registry.FindUser(w.env, Registry.StrKey(Param(req, "username").s)).found.None?
    ensures OnRegister(w, req).result == Ok(Success)
  {
    var name := Param(req, "username").s;
    var password := Param(req, "password").s;
    var look := Registry.FindUser(w.env, Registry.StrKey(name));
    UnknownNameHasNoRow(w.env, name);
    RegisteredRecord(look.env, name, password);
    var created := Registry.CreateUser(look.env, Registration(name, Str(password)));
    var u := created.state.heap[created.result.value];
    OnlyNewRowNamed(w.env.db, created.state.db, u.data.id.i, name);
    EnrolLogsIn(look.env, w.cur, name, password, created.state, u.data.id.i);
  }

  /** Enrolling succeeds once the new row is the one a login by its username selects. */
  lemma EnrolLogsIn(env: Registry.Env, cur: Sessions.Current, name: string, password: string, env': Registry.Env, k: int)
    requires !IsModified(cur.user) && IsEmail(name) && ByteLength(password) >= PasswordMinLength
    requires Registry.CreateUser(env, Registration(name, Str(password))).state == env'
    requires k in env'.db.users && Sessions.LoginRow(env'.db, name) == Some(k)
    requires RowAt(env'.db, k).canLogin == Int(1)
    requires RowAt(env'.db, k).password.Str? && PasswordVerify(password, RowAt(env'.db, k).password.s)
    ensures Enrol(env, cur, name, Str(password)).result == Ok(Success)
  {
    assert Registry.CreateUser(env, Registration(name, Str(password))).result.Ok? by {
      RegistrationCreate(env, name, Str(password));
    }
    Sessions.LoginAccepts(env'.db, cur, name, password, k);
  }

  /** A username held by an active row is a conflict. */
  lemma RegisterTakenName(w: World, req: Request, id: int)
    requires PassesChecks(req)
    requires id in w.env.db.users && IsActive(RowAt(w.env.db, id)) && RowAt(w.env.db, id).username == Param(req, "username")
    ensures OnRegister(w, req).result == Ok(Conflict)
  {
    var name := Param(req, "username").s;
    EmailIsNotNumeric(name);
    assert RowAt(w.env.db, id).Get(Username) == Str(name);
    assert Registry.Selected(w.env.db, Registry.StrKey(name)).Some?;
  }

  /** `onLogout($event)`: always succeeds and leaves a guest with no session entry. */
  function OnLogout(w: World): (r: Step<World, Status>)
    ensures r.result == Ok(Success) && r.state.env == w.env
    ensures r.state.cur.session.None? && Rights.IsGuest(w.env.db, r.state.cur.user)
    ensures !Rights.IsAdministrator(w.env.db, r.state.cur.user)
  {
    Step(w.(cur := Sessions.Logout(w.cur)), Ok(Success))
  }
}
