/**
 * The `$api->user` service: the current visitor, bound to the session. Its
 * state is the `user` entry of the session's `rms` array and the User
 * instance the service itself is.
 */
module Sessions {
  import opened Outcomes
  import opened Values
  import opened Digests
  import opened Syntax
  import opened Storage
  import opened Users
  import Rights
  import Metas

  /** `$_SESSION['rms']` as found at start-up: an array, or some other value. */
  datatype Bag = NotAnArray | AnArray(user: Option<Value>)

  /** The `user` entry of the session's `rms` array, and the instance. */
  datatype Current = Current(session: Option<Value>, user: User)

  /**
   * The constructor argument a session entry stands for: nothing for a
   * missing or null entry, a load by id or by username otherwise. Any other
   * type is refused by the constructor's declared parameter type.
   */
  function SessionWho(entry: Option<Value>): (r: Result<Option<Who>>)
    ensures r.Err? <==> entry.Some? && entry.value.Bool?
    ensures r.Err? ==> r.error == TypeMismatch
    ensures r == Ok(None) <==> entry.None? || entry == Some(Null)
  {
    match entry
    case None => Ok(None)
    case Some(v) =>
      match v
      case Null => Ok(None)
      case Int(i) => Ok(Some(ById(i)))
      case Str(s) => Ok(Some(ByName(s)))
      case Bool(_) => Err(TypeMismatch)
  }

  /**
   * The service's constructor: a session bag that is not an array is
   * replaced by an empty one; then the instance loads the user the session
   * names. A load failure propagates.
   */
  function Start(db: Store, raw: Bag): (r: Result<Current>)
    ensures raw.NotAnArray? ==> r == Ok(Current(None, Blank))
    ensures raw.AnArray? && (raw.user.None? || raw.user == Some(Null)) ==> r == Ok(Current(raw.user, Blank))
    ensures raw.AnArray? && raw.user.Some? && raw.user.value.Int? ==>
      && (r.Ok? <==> raw.user.value.i in db.users)
      && (r.Ok? ==> r.value.session == raw.user && r.value.user.data == RowAt(db, raw.user.value.i) && !IsModified(r.value.user))
    ensures r.Ok? && raw.AnArray? ==> r.value.session == raw.user
  {
    var entry := if raw.AnArray? then raw.user else None;
    match SessionWho(entry)
    case Err(e) => Err(e)
    case Ok(who) =>
      match Construct(db, who)
      case Err(e) => Err(e)
      case Ok(u) => Ok(Current(entry, u))
  }

  /** A session holding the id of a stored user restores exactly that user. */
  lemma StartRestores(db: Store, id: int)
    requires id in db.users
    ensures Start(db, AnArray(Some(Int(id)))).Ok?
    ensures Start(db, AnArray(Some(Int(id)))).value.user.data.id == Int(id)
  {
  }

  /** The instance `login` loads into: an instance with an id is reset first. */
  function LoginStart(u: User): (r: User)
    ensures HasId(u) ==> r == Reset(u)
    ensures !HasId(u) ==> r == u
  {
    if Truthy(u.data.id) then Reset(u) else u
  }

  /** The active row a username login selects: the first one carrying the name. */
  function LoginRow(db: Store, name: string): Option<int> {
    SelectActive(db, Username, Str(name))
  }

  /**
   * `login($username, $password)` with a missing hash treated as a wrong
   * password: a failed load or a wrong password resets the instance and
   * answers false without touching the session; success stores the id in
   * the session.
   */
  function Login(db: Store, cur: Current, name: string, password: string): (r: (Current, bool))
    ensures !r.1 ==> r.0.session == cur.session && !HasId(r.0.user) && !IsModified(r.0.user)
    ensures r.1 ==>
      && r.0.user.data.id.Int? && r.0.session == Some(r.0.user.data.id)
      && r.0.user.data.id.i in db.users && r.0.user.data == RowAt(db, r.0.user.data.id.i)
      && IsActive(r.0.user.data) && r.0.user.data.username == Str(name)
      && ValidatePassword(r.0.user, password) && !IsModified(r.0.user)
    ensures !IsModified(LoginStart(cur.user)) && IsEmail(name) ==>
      (r.1 <==> LoginRow(db, name).Some? && ValidatePassword(User(RowAt(db, LoginRow(db, name).value), {}, None), password))
    ensures !IsEmail(name) ==> !r.1
  {
    var step := Load(db, cur.user, ByName(name));
    if step.result.Err? then (cur.(user := Reset(step.state)), false)
    else if !ValidatePassword(step.state, password) then (cur.(user := Reset(step.state)), false)
    else (Current(Some(step.state.data.id), step.state), true)
  }

  /**
   * A visitor without unsaved changes logs in when the row a username login
   * selects may log in and holds a hash of the password.
   */
  lemma LoginAccepts(db: Store, cur: Current, name: string, password: string, k: int)
    requires !IsModified(cur.user) && IsEmail(name) && ByteLength(password) >= PasswordMinLength
    requires k in db.users && LoginRow(db, name) == Some(k)
    requires Truthy(RowAt(db, k).canLogin)
    requires RowAt(db, k).password.Str? && PasswordVerify(password, RowAt(db, k).password.s)
    ensures Login(db, cur, name, password).1
  {
    assert !IsModified(LoginStart(cur.user));
    assert ValidatePassword(User(RowAt(db, k), {}, None), password);
  }

  /**
   * `login` as written: a user without a password hash makes the password
   * check throw, and the exception leaves `login` with the user loaded.
   */
  function LoginAsWritten(db: Store, cur: Current, name: string, password: string): (r: Result<(Current, bool)>)
    ensures r.Ok? ==> r.value == Login(db, cur, name, password)
    ensures r.Err? ==> r.error == TypeMismatch
  {
    var step := Load(db, cur.user, ByName(name));
    if step.result.Err? then Ok((cur.(user := Reset(step.state)), false))
    else match ValidatePasswordAsWritten(step.state, password)
      case Err(e) => Err(e)
      case Ok(false) => Ok((cur.(user := Reset(step.state)), false))
      case Ok(true) =>
        ValidatePasswordAgrees(step.state, password);
        Ok((Current(Some(step.state.data.id), step.state), true))
  }

  /** A one-user store: the user registered through Google, without a password hash. */
  function FederatedStore(): (db: Store)
    ensures 1 in db.users && db.users[1].password == Null && Truthy(db.users[1].canLogin)
  {
    Store(map[1 := NullRow.(username := Str("a@b.cz"), canLogin := Int(1), removed := Int(0))], {}, map[], map[], 2)
  }

  /** The federated user's username is an e-mail address. */
  lemma FederatedName()
    ensures IsEmail("a@b.cz")
  {
  }

  /** The federated user's row is the active row carrying its username. */
  lemma FederatedSelect()
    ensures SelectActive(FederatedStore(), Username, Str("a@b.cz")) == Some(1)
  {
    var db := FederatedStore();
    assert db.users.Keys == {1};
    assert RowAt(db, 1).Get(Username) == Str("a@b.cz") && IsActive(RowAt(db, 1));
    var sel := SelectActive(db, Username, Str("a@b.cz"));
    assert sel.Some?;
    assert sel.value in db.users.Keys;
  }

  /** A username login of the federated user loads its row. */
  lemma FederatedLoad()
    ensures Load(FederatedStore(), Blank, ByName("a@b.cz")).result.Ok?
    ensures Load(FederatedStore(), Blank, ByName("a@b.cz")).state.data == RowAt(FederatedStore(), 1)
  {
    var db := FederatedStore();
    FederatedName();
    FederatedSelect();
    var loaded := User(RowAt(db, 1), {}, Some(Metas.Empty));
    assert LoadByUsername(db, Blank, "a@b.cz") == Ok(loaded);
    LoadByName(db, Blank, "a@b.cz");
  }

  /**
   * The user registered through Google logs in with some password: the login
   * as written throws where the corrected one answers false.
   */
  lemma FederatedLoginThrows()
    ensures LoginAsWritten(FederatedStore(), Current(None, Blank), "a@b.cz", "secret") == Err(TypeMismatch)
    ensures !Login(FederatedStore(), Current(None, Blank), "a@b.cz", "secret").1
  {
    FederatedLoad();
    assert ByteLength("secret") == 6;
  }

  /** `logout()`: the session entry is removed and the instance reset. */
  function Logout(cur: Current): (r: Current)
    ensures r.session.None? && !HasId(r.user) && !IsModified(r.user)
    ensures forall f :: r.user.data.Get(f) == Null
  {
    Current(None, Reset(cur.user))
  }

  /** After logging out the visitor is a guest and holds no stored right. */
  lemma LogoutMakesGuest(db: Store, cur: Current, t: string)
    ensures Rights.IsGuest(db, Logout(cur).user)
    ensures !Rights.IsAdministrator(db, Logout(cur).user)
    ensures Rights.Holds(db, Logout(cur).user, t) <==> t == Rights.MemberOfGuests
  {
  }

  /** A login followed by a logout leaves a guest whatever the login's outcome. */
  lemma LoginThenLogout(db: Store, cur: Current, name: string, password: string)
    ensures var after := Logout(Login(db, cur, name, password).0);
      after.session.None? && Rights.IsGuest(db, after.user)
  {
  }

  /** The texts of the kept pairs are the requested rights the user holds. */
  lemma SecondsAreHeld(db: Store, u: User, requested: seq<string>, kept: seq<(int, string)>, granted: seq<string>)
    requires kept == Rights.FilterRights(db, u, requested)
    requires |granted| == |kept| && forall i :: 0 <= i < |kept| ==> granted[i] == kept[i].1
    ensures forall t :: t in granted <==> t in requested && Rights.Holds(db, u, t)
  {
    forall t | t in granted
      ensures t in requested && Rights.Holds(db, u, t)
    {
      var i :| 0 <= i < |granted| && granted[i] == t;
      assert kept[i] in kept;
    }
    forall t | t in requested && Rights.Holds(db, u, t)
      ensures t in granted
    {
      var k :| 0 <= k < |requested| && requested[k] == t;
      assert (k, t) in kept;
      var i :| 0 <= i < |kept| && kept[i] == (k, t);
      assert granted[i] == t;
    }
  }

  /**
   * `onAuthorize($event)`: nothing for an instance without an id, so the
   * implicit guest membership is never granted this way; otherwise the
   * requested rights the user holds, in request order.
   */
  function OnAuthorize(db: Store, cur: Current, requested: seq<string>): (granted: seq<string>)
    ensures !HasId(cur.user) ==> granted == []
    ensures HasId(cur.user) ==> forall t :: t in granted <==> t in requested && Rights.Holds(db, cur.user, t)
    ensures Rights.MemberOfGuests in granted ==> Rights.Stored(db, cur.user.data.id, Rights.MemberOfGuests)
    ensures |granted| <= |requested|
  {
    if !Truthy(cur.user.data.id) then []
    else
      var kept := Rights.FilterRights(db, cur.user, requested);
      var granted := seq(|kept|, i requires 0 <= i < |kept| => kept[i].1);
      SecondsAreHeld(db, cur.user, requested, kept, granted);
      granted
  }
}
