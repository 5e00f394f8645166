/**
 * The `rms:settings` request handler: reading the current visitor's
 * username, and changing the username and password after the current
 * password is confirmed.
 */
module SettingsApi {
  import opened Outcomes
  import opened Values
  import opened Digests
  import opened Syntax
  import opened Storage
  import opened Users
  import opened Events
  import opened Comparison
  import Registry
  import Sessions

  /** The status and, for `get`, the `data.username` entry. */
  datatype SettingsReply = SettingsReply(status: Status, username: Option<Value>)

  /**
   * `changePassword($password, $password2)` with the confirmation compared
   * strictly: both arguments must be strings (strict types), equal, and at
   * least `PasswordMinLength` bytes long.
   */
  function ChangePassword(u: User, password: Value, password2: Value): (r: Result<User>)
    ensures r.Ok? <==> password.Str? && password2 == password && ByteLength(password.s) >= PasswordMinLength
    ensures !password.Str? || !password2.Str? ==> r == Err(TypeMismatch)
    ensures password.Str? && password2.Str? && password2 != password ==> r == Err(PasswordMismatch)
    ensures r.Err? ==> r.error in {TypeMismatch, PasswordMismatch, PasswordTooShort}
    ensures r.Ok? ==> r.value.data.password.Str? && PasswordVerify(password.s, r.value.data.password.s)
    ensures r.Ok? ==> r.value == Assign(u, Password, r.value.data.password)
  {
    if !password.Str? || !password2.Str? then Err(TypeMismatch)
    else if password.s != password2.s then Err(PasswordMismatch)
    else if ByteLength(password.s) < PasswordMinLength then Err(PasswordTooShort)
    else match SetPassword(u, password.s)
      case Ok((u', _)) => Ok(u')
      case Err(e) => Err(e)
  }

  /**
   * `changePassword` as written: the confirmation is compared with the loose
   * `!=`, under which two different numeric strings can be equal.
   */
  function ChangePasswordAsWritten(u: User, password: Value, password2: Value): (r: Result<User>)
    ensures password.Str? && password2.Str? ==> (r.Ok? <==> LooseEquals(password, password2) && ByteLength(password.s) >= PasswordMinLength)
    ensures r.Ok? ==> password.Str? && r.value.data.password.Str? && PasswordVerify(password.s, r.value.data.password.s)
  {
    if !password.Str? || !password2.Str? then Err(TypeMismatch)
    else if !LooseEquals(password, password2) then Err(PasswordMismatch)
    else if ByteLength(password.s) < PasswordMinLength then Err(PasswordTooShort)
    else match SetPassword(u, password.s)
      case Ok((u', _)) => Ok(u')
      case Err(e) => Err(e)
  }

  /** Unless both are numeric, the loose and strict confirmations agree. */
  lemma ChangePasswordsAgree(u: User, p: string, q: string)
    requires !IsNumeric(p) || !IsNumeric(q)
    ensures ChangePasswordAsWritten(u, Str(p), Str(q)) == ChangePassword(u, Str(p), Str(q))
  {
    NonNumericStringsCompareExactly(p, q);
  }

  /**
   * A password confirmed by a differently written number is accepted as
   * written, and the stored hash then verifies the password but not its
   * confirmation; the strict comparison refuses it.
   */
  lemma LooseConfirmationAccepted(u: User)
    ensures var r := ChangePasswordAsWritten(u, Str("+123456"), Str("123456"));
      && r.Ok?
      && PasswordVerify("+123456", r.value.data.password.s)
      && !PasswordVerify("123456", r.value.data.password.s)
    ensures ChangePassword(u, Str("+123456"), Str("123456")) == Err(PasswordMismatch)
  {
    SignedDigitsLooselyEqual("123456");
    assert ByteLength("+123456") == 7;
    VerifyHash("+123456", "123456");
  }

  /** The current visitor with instance `u`. */
  function WithUser(w: World, u: User): (w': World)
    ensures w'.env == w.env && w'.cur.session == w.cur.session && w'.cur.user == u
  {
    w.(cur := w.cur.(user := u))
  }

  /** `$api->user->save()`, then the `Settings saved` status. */
  function Persist(w: World, u: User): (r: Step<World, Status>)
    ensures r.result.Err? <==> !HasId(u)
    ensures r.result.Err? ==> r == Step(WithUser(w, u), Err(NotLoaded))
    ensures r.result.Ok? ==>
      && r.result.value == Success
      && r.state.cur.user == u.(dirty := {}) && r.state.cur.session == w.cur.session
      && r.state.env.heap == w.env.heap && r.state.env.cache == w.env.cache
      && Save(w.env.db, u).Ok? && r.state.env.db == Save(w.env.db, u).value.db
  {
    match Save(w.env.db, u)
    case Err(e) => Step(WithUser(w, u), Err(e))
    case Ok(saved) => Step(World(w.env.(db := saved.db), w.cur.(user := saved.user)), Ok(Success))
  }

  /** `$api->user->username = $username` for a username not loosely equal to the current one. */
  function AssignUsername(u: User, username: Value): (r: Result<User>)
    requires !LooseEquals(username, u.data.username)
    ensures r.Ok? <==> IsEmail(AsString(username))
    ensures r.Ok? ==>
      && r.value.data.username == Str(AsString(username)) && r.value.dirty == u.dirty + {Username}
      && forall g :: g != Username ==> r.value.data.Get(g) == u.data.Get(g)
  {
    LooseEqualsIsSymmetric(username, username);
    assert !Unchanged(u, "username", username);
    SetField(u, "username", username)
  }

  /**
   * The username step and the save: a username loosely equal to the current
   * one is left alone; any other is looked up, refused if some user has it,
   * and otherwise assigned through the setter before saving.
   */
  function Rename(w: World, u: User, username: Value): (r: Step<World, Status>)
    ensures r.result.Err? ==> r.state.env.db == w.env.db && r.state.cur.session == w.cur.session
    ensures r.result.Ok? ==> r.result.value == Success && HasId(u) && r.state.cur.session == w.cur.session
    ensures r.result.Ok? ==> !IsModified(r.state.cur.user) && r.state.cur.user.data.id == u.data.id
    ensures r.result.Ok? ==> r.state.cur.user.data.password == u.data.password
    ensures r.result.Ok? && !LooseEquals(username, u.data.username) ==>
      IsEmail(AsString(username)) && r.state.cur.user.data.username == Str(AsString(username))
    ensures r.result.Ok? && LooseEquals(username, u.data.username) ==> r.state.cur.user.data == u.data
  {
    if LooseEquals(username, u.data.username) then Persist(w, u)
    else match LookupKey(username)
      case None => Step(WithUser(w, u), Err(TypeMismatch))
      case Some(k) =>
        var look := Registry.FindUser(w.env, k);
        var w1 := World(look.env, w.cur.(user := u));
        if look.found.Some? then Step(w1, Err(UsernameTaken))
        else match AssignUsername(u, username)
          case Err(e) => Step(w1, Err(e))
          case Ok(u') => Persist(w1, u')
  }

  /** The current password is accepted: no hash is stored, or it validates. */
  predicate Authorized(u: User, current: Value) {
    u.data.password == Null || (current.Str? && ValidatePassword(u, current.s))
  }

  /**
   * `setSettings($event)`: a falsy current password is refused; a stored
   * hash must validate it (a user signed in through Google has none); a
   * truthy new password is changed; then the username step and the save.
   * An exception leaves the store as it was.
   */
  function SetSettings(w: World, req: Request): (r: Step<World, Status>)
    ensures !Truthy(Param(req, "currentPassword")) ==> r == Step(w, Err(PasswordRequired))
    ensures Truthy(Param(req, "currentPassword")) && !Authorized(w.cur.user, Param(req, "currentPassword")) ==>
      r.state == w && r.result.Err? && r.result.error in {TypeMismatch, PasswordIncorrect}
    ensures r.result.Err? ==> r.state.env.db == w.env.db
    ensures r.state.cur.session == w.cur.session
    ensures r.result.Ok? ==>
      && r.result.value == Success
      && Truthy(Param(req, "currentPassword")) && Authorized(w.cur.user, Param(req, "currentPassword"))
      && HasId(w.cur.user) && r.state.cur.user.data.id == w.cur.user.data.id
      && !IsModified(r.state.cur.user)
    ensures r.result.Ok? && Truthy(Param(req, "password")) ==>
      && Param(req, "password").Str? && Param(req, "confirmPassword") == Param(req, "password")
      && r.state.cur.user.data.password.Str?
      && PasswordVerify(Param(req, "password").s, r.state.cur.user.data.password.s)
    ensures r.result.Ok? && !Truthy(Param(req, "password")) ==> r.state.cur.user.data.password == w.cur.user.data.password
  {
    var current := Param(req, "currentPassword");
    var user := w.cur.user;
    if !Truthy(current) then Step(w, Err(PasswordRequired))
    else if user.data.password != Null && !current.Str? then Step(w, Err(TypeMismatch))
    else if user.data.password != Null && !ValidatePassword(user, current.s) then Step(w, Err(PasswordIncorrect))
    else
      var password := Param(req, "password");
      var changed := if Truthy(password) then ChangePassword(user, password, Param(req, "confirmPassword")) else Ok(user);
      match changed
      case Err(e) => Step(w, Err(e))
      case Ok(u) => Rename(w, u, Param(req, "username"))
  }

  /**
   * `onSettings($event)`: `op` is matched loosely against `get` and `set`;
   * any other operation sets no status and changes nothing.
   */
  function OnSettings(w: World, req: Request): (r: Step<World, SettingsReply>)
    ensures LooseEquals(Param(req, "op"), Str("get")) ==>
      r == Step(w, Ok(SettingsReply(Success, Some(w.cur.user.data.username))))
    ensures !LooseEquals(Param(req, "op"), Str("get")) && !LooseEquals(Param(req, "op"), Str("set")) ==>
      r == Step(w, Ok(SettingsReply(Unset, None)))
    ensures r.result.Err? ==> LooseEquals(Param(req, "op"), Str("set")) && r.state.env.db == w.env.db
    ensures r.state.env.db != w.env.db ==> LooseEquals(Param(req, "op"), Str("set")) && r.result == Ok(SettingsReply(Success, None))
  {
    var op := Param(req, "op");
    if LooseEquals(op, Str("get")) then Step(w, Ok(SettingsReply(Success, Some(w.cur.user.data.username))))
    else if LooseEquals(op, Str("set")) then
      var s := SetSettings(w, req);
      match s.result
      case Err(e) => Step(s.state, Err(e))
      case Ok(status) => Step(s.state, Ok(SettingsReply(status, None)))
    else Step(w, Ok(SettingsReply(Unset, None)))
  }

  /** Without a stored hash any truthy current password is accepted. */
  lemma NullHashSkipsCheck(u: User, current: Value)
    requires u.data.password == Null && Truthy(current)
    ensures Authorized(u, current)
  {
  }

  /**
   * A visitor loaded from the store who saves settings finds the saved
   * instance in the user's row.
   */
  lemma SettingsPersisted(w: World, req: Request, k: int)
    requires k != 0 && k in w.env.db.users && w.cur.user.data == RowAt(w.env.db, k) && !IsModified(w.cur.user)
    requires SetSettings(w, req).result.Ok?
    ensures var r := SetSettings(w, req);
      k in r.state.env.db.users && RowAt(r.state.env.db, k) == r.state.cur.user.data
  {
    var r := SetSettings(w, req);
    var password := Param(req, "password");
    var u := if Truthy(password) then ChangePassword(w.cur.user, password, Param(req, "confirmPassword")).value else w.cur.user;
    assert forall f :: f !in u.dirty ==> u.data.Get(f) == RowAt(w.env.db, k).Get(f);
    RenamePersisted(w, u, Param(req, "username"), k);
  }

  /** The username step and save keep the instance's row in step with it. */
  lemma RenamePersisted(w: World, u: User, username: Value, k: int)
    requires k != 0 && k in w.env.db.users && u.data.id == Int(k)
    requires forall f :: f !in u.dirty ==> u.data.Get(f) == RowAt(w.env.db, k).Get(f)
    requires Rename(w, u, username).result.Ok?
    ensures var r := Rename(w, u, username);
      k in r.state.env.db.users && RowAt(r.state.env.db, k) == r.state.cur.user.data
  {
    var r := Rename(w, u, username);
    if LooseEquals(username, u.data.username) {
      SaveThenReload(w.env.db, u, k);
    } else {
      var look := Registry.FindUser(w.env, LookupKey(username).value);
      var u' := AssignUsername(u, username).value;
      assert forall f :: f !in u'.dirty ==> u'.data.Get(f) == RowAt(look.env.db, k).Get(f);
      SaveThenReload(look.env.db, u', k);
    }
  }
}
