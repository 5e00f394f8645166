/**
 * A User instance: its row, the set of columns changed since it was loaded
 * or saved, and its meta data object; and the instance methods that load,
 * change, save, create and remove it.
 */
module Users {
  import opened Outcomes
  import opened Values
  import opened Digests
  import opened Syntax
  import opened Storage
  import Metas

  /** `PASSWORD_MIN_LENGTH`, in bytes. */
  const PasswordMinLength := 6

  /** A value of `time()`. */
  type Timestamp = t: int | t > 0 witness 1

  /**
   * `$data`, `$modifiedFields` and `$meta`. The meta object is `None` while
   * the typed property has never been assigned, which is the case for an
   * instance that was never loaded or reset.
   */
  datatype User = User(data: Row, dirty: set<Field>, meta: Option<Metas.Cache>)

  /** `new User()` without an argument. */
  const Blank := User(NullRow, {}, None)

  /** `$user->isModified`. */
  predicate IsModified(u: User) {
    u.dirty != {}
  }

  /** `$user->id` used as a condition: the instance denotes a stored user. */
  predicate HasId(u: User) {
    Truthy(u.data.id)
  }

  /** `reset()`: every column null, nothing dirty, a fresh meta object. */
  function Reset(u: User): (r: User)
    ensures forall f :: r.data.Get(f) == Null
    ensures !IsModified(r) && !HasId(r)
    ensures r.meta == Some(Metas.Empty)
  {
    User(NullRow, {}, Some(Metas.Empty))
  }

  /** `loadedCheck()`. */
  function LoadedCheck(u: User): (r: Result<()>)
    ensures r.Ok? <==> HasId(u)
    ensures r.Err? ==> r.error == NotLoaded
  {
    if HasId(u) then Ok(()) else Err(NotLoaded)
  }

  /** `__get($name)`. */
  function Property(u: User, name: string): (r: Result<Value>)
    ensures name == "isModified" ==> r == Ok(Bool(IsModified(u)))
    ensures name == "canLogin" ==> r == Ok(Bool(Truthy(u.data.canLogin)))
    ensures name != "isModified" && name != "canLogin" ==>
      (r.Ok? <==> FieldNamed(name).Some?) && (r.Ok? ==> r.value == u.data.Get(FieldNamed(name).value))
    ensures r.Err? ==> r.error == UnknownProperty
  {
    if name == "isModified" then Ok(Bool(u.dirty != {}))
    else if name == "canLogin" then Ok(Bool(Truthy(u.data.canLogin)))
    else match FieldNamed(name)
      case Some(f) => Ok(u.data.Get(f))
      case None => Err(UnknownProperty)
  }

  /** The setter's early return: the column is set and identical (`===`) to the new value. */
  predicate Unchanged(u: User, name: string, v: Value) {
    var f := FieldNamed(name);
    f.Some? && u.data.Get(f.value) != Null && u.data.Get(f.value) == v
  }

  /** The instance with column `f` set to `v` and marked modified. */
  function Assign(u: User, f: Field, v: Value): (r: User)
    ensures r.data.Get(f) == v && r.dirty == u.dirty + {f} && r.meta == u.meta
    ensures forall g :: g != f ==> r.data.Get(g) == u.data.Get(g)
  {
    u.(data := u.data.With(f, v), dirty := u.dirty + {f})
  }

  /**
   * `setPassword($plain)`: at least `PasswordMinLength` bytes, else an error;
   * stores the hash of the plaintext and marks the password modified. Returns
   * the instance and the new hash.
   */
  function SetPassword(u: User, plain: string): (r: Result<(User, string)>)
    ensures r.Ok? <==> ByteLength(plain) >= PasswordMinLength
    ensures r.Err? ==> r.error == PasswordTooShort
    ensures r.Ok? ==> PasswordVerify(plain, r.value.1) && r.value.0 == Assign(u, Password, Str(r.value.1))
  {
    if ByteLength(plain) < PasswordMinLength then Err(PasswordTooShort)
    else
      VerifyHash(plain, plain);
      var hash := PasswordHash(plain);
      Ok((Assign(u, Password, Str(hash)), hash))
  }

  predicate IsAsciiLetter(c: char) {
    'a' <= c <= 'z' || 'A' <= c <= 'Z'
  }

  predicate AllLetters(s: string) {
    forall i :: 0 <= i < |s| ==> IsAsciiLetter(s[i])
  }

  /**
   * The primary language and region of a locale string `ll_CC` or `ll-CC`
   * (a two- or three-letter language and a two-letter region).
   */
  function LocaleParts(s: string): (r: Option<(string, string)>)
    ensures r.Some? ==> 2 <= |r.value.0| <= 3 && |r.value.1| == 2
    ensures r.Some? ==> AllLetters(r.value.0) && AllLetters(r.value.1)
  {
    var n := |s|;
    if (n == 5 || n == 6) && (s[n - 3] == '_' || s[n - 3] == '-')
      && AllLetters(s[..n - 3]) && AllLetters(s[n - 2..])
    then Some((s[..n - 3], s[n - 2..]))
    else None
  }

  /** The `ll_CC` form the setter stores. */
  function CanonicalLocale(parts: (string, string)): string {
    parts.0 + "_" + parts.1
  }

  /** Canonicalising a canonical locale changes nothing. */
  lemma CanonicalLocaleFixpoint(s: string)
    requires LocaleParts(s).Some?
    ensures LocaleParts(CanonicalLocale(LocaleParts(s).value)) == LocaleParts(s)
  {
    var (l, c) := LocaleParts(s).value;
    var t := CanonicalLocale((l, c));
    assert t[..|t| - 3] == l;
    assert t[|t| - 2..] == c;
  }

  /** `__set($name, $value)`. */
  function SetField(u: User, name: string, v: Value): (r: Result<User>)
    ensures Unchanged(u, name, v) ==> r == Ok(u)
    ensures r.Ok? ==> r.value.meta == u.meta
    ensures r.Ok? && !Unchanged(u, name, v) ==>
      && FieldNamed(name).Some?
      && r.value.dirty == u.dirty + {FieldNamed(name).value}
      && forall g :: g != FieldNamed(name).value ==> r.value.data.Get(g) == u.data.Get(g)
    ensures !Unchanged(u, name, v) && (name == "id" || name == "removed") ==> r == Err(ReadOnlyProperty)
    ensures !Unchanged(u, name, v) && (FieldNamed(name).None? || name == "created" || name == "modified") ==>
      r == Err(UnknownProperty)
    ensures !Unchanged(u, name, v) && name == "username" ==>
      && (r.Ok? <==> IsEmail(AsString(v)))
      && (r.Ok? ==> r.value.data.username == Str(AsString(v)))
    ensures !Unchanged(u, name, v) && name == "password" ==>
      && (r.Ok? <==> v.Str? && ByteLength(v.s) >= PasswordMinLength)
      && (r.Ok? ==> r.value.data.password.Str? && PasswordVerify(v.s, r.value.data.password.s))
    ensures !Unchanged(u, name, v) && name == "canLogin" ==>
      && (r.Ok? <==> v.Bool? || v.Int?)
      && (r.Ok? ==> r.value.data.canLogin.Int? && (Truthy(r.value.data.canLogin) <==> Truthy(v)))
    ensures !Unchanged(u, name, v) && name == "lastLogin" ==>
      (r.Ok? <==> v.Int?) && (r.Ok? ==> r.value.data.lastLogin == v)
    ensures !Unchanged(u, name, v) && name == "lastLoginFrom" ==>
      (r.Ok? <==> v.Str?) && (r.Ok? ==> r.value.data.lastLoginFrom == v)
    ensures !Unchanged(u, name, v) && name == "lang" ==>
      && (r.Ok? <==> LocaleParts(AsString(v)).Some?)
      && (r.Ok? ==> r.value.data.lang == Str(CanonicalLocale(LocaleParts(AsString(v)).value)))
  {
    if Unchanged(u, name, v) then Ok(u)
    else if name == "id" || name == "removed" then Err(ReadOnlyProperty)
    else if name == "username" then
      if IsEmail(AsString(v)) then Ok(Assign(u, Username, Str(AsString(v)))) else Err(InvalidValue)
    else if name == "password" then
      if !v.Str? then Err(TypeMismatch)
      else match SetPassword(u, v.s)
        case Ok((u', _)) => Ok(u')
        case Err(e) => Err(e)
    else if name == "canLogin" then
      if v.Bool? then Ok(Assign(u, CanLogin, Int(if v.b then 1 else 0)))
      else if v.Int? then Ok(Assign(u, CanLogin, v))
      else Err(InvalidValue)
    else if name == "lastLogin" then
      if v.Int? then Ok(Assign(u, LastLogin, v)) else Err(InvalidValue)
    else if name == "lastLoginFrom" then
      if v.Str? then Ok(Assign(u, LastLoginFrom, v)) else Err(InvalidValue)
    else if name == "lang" then
      match LocaleParts(AsString(v))
      case Some(parts) => Ok(Assign(u, Lang, Str(CanonicalLocale(parts))))
      case None => Err(InvalidValue)
    else Err(UnknownProperty)
  }

  /** Setting a column to the value it already holds (non-null) changes nothing. */
  lemma SetFieldIdempotent(u: User, name: string, v: Value)
    requires SetField(u, name, v).Ok?
    requires name == "username" || name == "lastLogin" || name == "lastLoginFrom"
    ensures SetField(SetField(u, name, v).value, name, v) == SetField(u, name, v)
  {
  }

  /**
   * `validatePassword($plain)`, with a null hash treated as a mismatch. The
   * code as written passes the null hash on to `password_verify`; see
   * `ValidatePasswordAsWritten`.
   */
  function ValidatePassword(u: User, plain: string): (ok: bool)
    ensures ok ==> Truthy(u.data.canLogin) && StrTruthy(plain) && ByteLength(plain) >= PasswordMinLength
    ensures ok <==>
      && Truthy(u.data.canLogin) && ByteLength(plain) >= PasswordMinLength
      && u.data.password.Str? && PasswordVerify(plain, u.data.password.s)
  {
    if !Truthy(u.data.canLogin) then false
    else if !StrTruthy(plain) then false
    else if ByteLength(plain) < PasswordMinLength then false
    else u.data.password.Str? && PasswordVerify(plain, u.data.password.s)
  }

  /**
   * `validatePassword($plain)` as written: under strict types a null hash
   * makes `password_verify` throw a TypeError.
   */
  function ValidatePasswordAsWritten(u: User, plain: string): (r: Result<bool>)
    ensures r.Err? <==>
      Truthy(u.data.canLogin) && ByteLength(plain) >= PasswordMinLength && !u.data.password.Str?
    ensures r.Err? ==> r.error == TypeMismatch
  {
    if !Truthy(u.data.canLogin) then Ok(false)
    else if !StrTruthy(plain) then Ok(false)
    else if ByteLength(plain) < PasswordMinLength then Ok(false)
    else if !u.data.password.Str? then Err(TypeMismatch)
    else Ok(PasswordVerify(plain, u.data.password.s))
  }

  /** Both versions agree whenever a password hash is stored. */
  lemma ValidatePasswordAgrees(u: User, plain: string)
    requires u.data.password.Str?
    ensures ValidatePasswordAsWritten(u, plain) == Ok(ValidatePassword(u, plain))
  {
  }

  /**
   * A user who signed in through Google has no password hash; checking any
   * long enough password for such a user throws instead of returning false.
   */
  lemma NullHashCounterexample()
    ensures var u := Blank.(data := NullRow.(id := Int(1), canLogin := Int(1)));
      ValidatePasswordAsWritten(u, "secret") == Err(TypeMismatch) && !ValidatePassword(u, "secret")
  {
    assert ByteLength("secret") == 6;
  }

  /**
   * After setting a password on a user who may log in, that password
   * validates and every other string fails.
   */
  lemma {:induction false} SetPasswordThenValidate(u: User, p: string, q: string)
    requires SetPassword(u, p).Ok?
    requires Truthy(u.data.canLogin)
    ensures ValidatePassword(SetPassword(u, p).value.0, p)
    ensures q != p ==> !ValidatePassword(SetPassword(u, p).value.0, q)
  {
    var u' := SetPassword(u, p).value.0;
    VerifyHash(p, p);
    VerifyHash(p, q);
    assert u'.data.password == Str(PasswordHash(p));
  }

  /** `loadById($id)`: any row with that id, soft-removed or not. */
  function LoadById(db: Store, u: User, id: int): (r: Result<User>)
    ensures IsModified(u) ==> r == Err(UnsavedChanges)
    ensures !IsModified(u) ==> (r.Ok? <==> id in db.users)
    ensures !IsModified(u) && r.Err? ==> r.error == NotFound
    ensures r.Ok? ==> id in db.users && r.value.data == RowAt(db, id)
    ensures r.Ok? ==> !IsModified(r.value) && r.value.meta == Some(Metas.Empty)
  {
    if u.dirty != {} then Err(UnsavedChanges)
    else if id !in db.users then Err(NotFound)
    else Ok(User(RowAt(db, id), {}, Some(Metas.Empty)))
  }

  /** `loadByUsername($name)`: only a row that is not soft-removed. */
  function LoadByUsername(db: Store, u: User, name: string): (r: Result<User>)
    ensures IsModified(u) || HasId(u) ==> r == Err(AlreadyLoaded)
    ensures !IsModified(u) && !HasId(u) && !IsEmail(name) ==> r == Err(InvalidEmail)
    ensures !IsModified(u) && !HasId(u) && IsEmail(name) ==>
      (r.Ok? <==> exists id :: id in db.users && IsActive(RowAt(db, id)) && RowAt(db, id).username == Str(name))
    ensures !IsModified(u) && !HasId(u) && IsEmail(name) && r.Err? ==> r.error == NotFound
    ensures r.Ok? ==>
      && r.value.data.id.Int? && r.value.data.id.i in db.users
      && r.value.data == RowAt(db, r.value.data.id.i)
      && IsActive(r.value.data) && r.value.data.username == Str(name)
      && !IsModified(r.value) && r.value.meta == Some(Metas.Empty)
  {
    if u.dirty != {} || Truthy(u.data.id) then Err(AlreadyLoaded)
    else if !IsEmail(name) then Err(InvalidEmail)
    else match SelectActive(db, Username, Str(name))
      case None => Err(NotFound)
      case Some(id) => Ok(User(RowAt(db, id), {}, Some(Metas.Empty)))
  }

  /** `loadFromArray($rec)`: the keys naming a column overwrite it, others are ignored. */
  function LoadFromArray(u: User, rec: map<string, Value>): (r: User)
    ensures forall f :: r.data.Get(f) == if NameOf(f) in rec then rec[NameOf(f)] else u.data.Get(f)
    ensures !IsModified(r) && r.meta == Some(Metas.Empty)
  {
    User(MergeKnown(u.data, rec), {}, Some(Metas.Empty))
  }

  /** The argument of `load()` and of the constructor. */
  datatype Who = ByRecord(rec: map<string, Value>) | ById(id: int) | ByName(name: string)

  /**
   * `load($who)`: an instance that has an id is reset first; then it loads
   * from an array, by id or by username. A failed load leaves the instance
   * as it was after the reset.
   */
  function Load(db: Store, u: User, who: Who): (r: Step<User, ()>)
    ensures r.result.Ok? ==> !IsModified(r.state) && r.state.meta == Some(Metas.Empty)
    ensures r.result.Err? ==> r.state == (if HasId(u) then Reset(u) else u)
    ensures r.result == Err(UnsavedChanges) || r.result == Err(AlreadyLoaded) ==> !HasId(u) && IsModified(u)
    ensures who.ById? && (HasId(u) || !IsModified(u)) ==> (r.result.Ok? <==> who.id in db.users)
    ensures who.ByRecord? ==> r.result.Ok?
  {
    var start := if Truthy(u.data.id) then Reset(u) else u;
    match who
    case ByRecord(rec) => Step(LoadFromArray(start, rec), Ok(()))
    case ById(id) =>
      (match LoadById(db, start, id)
       case Ok(loaded) => Step(loaded, Ok(()))
       case Err(e) => Step(start, Err(e)))
    case ByName(name) =>
      (match LoadByUsername(db, start, name)
       case Ok(loaded) => Step(loaded, Ok(()))
       case Err(e) => Step(start, Err(e)))
  }

  /** Loading a username into an instance without an id is `loadByUsername` on that instance. */
  lemma LoadByName(db: Store, u: User, name: string)
    requires !HasId(u)
    ensures Load(db, u, ByName(name)).result.Ok? <==> LoadByUsername(db, u, name).Ok?
    ensures LoadByUsername(db, u, name).Ok? ==> Load(db, u, ByName(name)).state == LoadByUsername(db, u, name).value
  {
  }

  /** Loading into an instance with an id behaves as loading into a reset one: dirty state is discarded. */
  lemma LoadResetsFirst(db: Store, u: User, who: Who)
    requires HasId(u)
    ensures Load(db, u, who) == Load(db, Reset(u), who)
  {
  }

  /** `new User($who)`. */
  function Construct(db: Store, who: Option<Who>): (r: Result<User>)
    ensures who.None? ==> r == Ok(Blank)
    ensures who.Some? ==> r.Ok? == Load(db, Blank, who.value).result.Ok?
    ensures who.Some? && r.Ok? ==> r.value == Load(db, Blank, who.value).state
  {
    match who
    case None => Ok(Blank)
    case Some(w) =>
      var step := Load(db, Blank, w);
      if step.result.Ok? then Ok(step.state) else Err(step.result.error)
  }

  /** The store and the instance after a persisting operation. */
  datatype Saved = Saved(db: Store, user: User)

  /**
   * `save()`: fails without an id; otherwise writes exactly the modified
   * columns to the user's row and clears the modified set.
   */
  function Save(db: Store, u: User): (r: Result<Saved>)
    ensures r.Ok? <==> HasId(u)
    ensures r.Err? ==> r.error == NotLoaded
    ensures r.Ok? ==> r.value.user == u.(dirty := {})
    ensures r.Ok? ==> r.value.db.users.Keys == db.users.Keys
    ensures r.Ok? ==> r.value.db.rights == db.rights && r.value.db.commands == db.commands && r.value.db.meta == db.meta
    ensures r.Ok? ==> forall k :: k in db.users && Some(k) != IdKey(u.data.id) ==> r.value.db.users[k] == db.users[k]
    ensures r.Ok? && IdKey(u.data.id).Some? && IdKey(u.data.id).value in db.users ==>
      var k := IdKey(u.data.id).value;
      forall f :: r.value.db.users[k].Get(f) == if f in u.dirty then u.data.Get(f) else db.users[k].Get(f)
  {
    if !Truthy(u.data.id) then Err(NotLoaded)
    else if u.dirty == {} then Ok(Saved(db, u))
    else
      var db' := match IdKey(u.data.id) case Some(k) => Update(db, k, u.data, u.dirty) case None => db;
      Ok(Saved(db', u.(dirty := {})))
  }

  /**
   * Saving an instance whose unmodified columns match its stored row makes
   * the stored row equal the instance's data.
   */
  lemma {:induction false} SaveThenReload(db: Store, u: User, k: int)
    requires u.data.id == Int(k) && k != 0 && k in db.users
    requires forall f :: f !in u.dirty ==> u.data.Get(f) == RowAt(db, k).Get(f)
    ensures Save(db, u).Ok?
    ensures RowAt(Save(db, u).value.db, k) == u.data
  {
    var db' := Save(db, u).value.db;
    forall f
      ensures RowAt(db', k).Get(f) == u.data.Get(f)
    {
      if f == Id {
        assert RowAt(db', k).Get(f) == Int(k);
      } else if f !in u.dirty {
        assert RowAt(db, k).Get(f) == db.users[k].Get(f);
      }
    }
    RowExtensionality(RowAt(db', k), u.data);
  }

  /**
   * `create()`: fails without a username; otherwise inserts the non-null
   * columns and reloads the instance from the new row.
   */
  function Create(db: Store, u: User): (r: Result<Saved>)
    ensures !Truthy(u.data.username) ==> r == Err(MissingUsername)
    ensures Truthy(u.data.username) ==> (r.Err? <==> RejectedId(db, u.data.id))
    ensures r.Ok? ==>
      && r.value.user.data.id.Int?
      && var id := r.value.user.data.id.i;
      && id !in db.users && r.value.db.users.Keys == db.users.Keys + {id}
      && r.value.user.data == RowAt(r.value.db, id)
      && (forall f :: f != Id ==> r.value.user.data.Get(f) == if u.data.Get(f) != Null then u.data.Get(f) else ColumnDefault(f))
      && !IsModified(r.value.user) && r.value.user.meta == Some(Metas.Empty)
      && (forall k :: k in db.users ==> k in r.value.db.users && r.value.db.users[k] == db.users[k])
      && r.value.db.rights == db.rights && r.value.db.commands == db.commands && r.value.db.meta == db.meta
  {
    if !Truthy(u.data.username) then Err(MissingUsername)
    else match Insert(db, u.data)
      case Err(e) => Err(e)
      case Ok((db', id)) => Ok(Saved(db', User(RowAt(db', id), {}, Some(Metas.Empty))))
  }

  /**
   * `wipe()`: fails without an id; otherwise deletes the row and leaves the
   * instance reset, with only the local removal time set.
   */
  function Wipe(db: Store, u: User, now: Timestamp): (r: Result<Saved>)
    ensures r.Ok? <==> HasId(u)
    ensures r.Err? ==> r.error == NotLoaded
    ensures r.Ok? ==> forall f :: r.value.user.data.Get(f) == if f == Removed then Int(now) else Null
    ensures r.Ok? ==> !IsModified(r.value.user) && r.value.user.meta == Some(Metas.Empty)
    ensures r.Ok? && IdKey(u.data.id).Some? ==> IdKey(u.data.id).value !in r.value.db.users
    ensures r.Ok? ==> forall k :: k in db.users && Some(k) != IdKey(u.data.id) ==> k in r.value.db.users
    ensures r.Ok? ==> forall k :: k in r.value.db.users ==> k in db.users && r.value.db.users[k] == db.users[k]
    ensures r.Ok? ==> r.value.db.rights == db.rights && r.value.db.commands == db.commands && r.value.db.meta == db.meta
  {
    if !Truthy(u.data.id) then Err(NotLoaded)
    else
      var db' := match IdKey(u.data.id) case Some(k) => Delete(db, k) case None => db;
      var r := Reset(u);
      Ok(Saved(db', r.(data := r.data.With(Removed, Int(now)))))
  }

  /** `$this->canLogin = false`, which the setter always accepts. */
  function DisableLogin(u: User): (r: User)
    ensures !Truthy(r.data.canLogin) && r.meta == u.meta
    ensures SetField(u, "canLogin", Bool(false)) == Ok(r)
  {
    if u.data.canLogin == Bool(false) then u else Assign(u, CanLogin, Int(0))
  }

  /**
   * `markAsRemoved()`: fails without an id; otherwise disables login, sets
   * the removal time and saves every modified column.
   */
  function MarkAsRemoved(db: Store, u: User, now: Timestamp): (r: Result<Saved>)
    ensures r.Ok? <==> HasId(u)
    ensures r.Err? ==> r.error == NotLoaded
    ensures r.Ok? ==> !IsModified(r.value.user) && !Truthy(r.value.user.data.canLogin) && r.value.user.data.removed == Int(now)
    ensures r.Ok? ==> forall f :: f != CanLogin && f != Removed ==> r.value.user.data.Get(f) == u.data.Get(f)
    ensures r.Ok? ==> r.value.db.users.Keys == db.users.Keys
    ensures r.Ok? ==> forall k :: k in db.users && Some(k) != IdKey(u.data.id) ==> r.value.db.users[k] == db.users[k]
    ensures r.Ok? && IdKey(u.data.id).Some? && IdKey(u.data.id).value in db.users ==>
      var row := r.value.db.users[IdKey(u.data.id).value];
      && row.removed == Int(now) && !IsActive(row)
      && (u.data.canLogin != Bool(false) ==> row.canLogin == Int(0))
  {
    if !Truthy(u.data.id) then Err(NotLoaded)
    else
      var disabled := DisableLogin(u);
      Save(db, Assign(disabled, Removed, Int(now)))
  }

  /** After `markAsRemoved()` no lookup of active rows finds the user's row. */
  lemma MarkedRowIsInactive(db: Store, u: User, now: Timestamp, f: Field, v: Value)
    requires HasId(u) && u.data.id.Int? && u.data.id.i in db.users
    ensures var db' := MarkAsRemoved(db, u, now).value.db;
      SelectActive(db', f, v) != Some(u.data.id.i)
  {
  }

  /** `$user->meta`: an error while the typed property is unassigned. */
  function MetaOf(u: User): (r: Result<Metas.Cache>)
    ensures r.Ok? <==> u.meta.Some?
    ensures r.Err? ==> r.error == Uninitialized
    ensures r.Ok? ==> r.value == u.meta.value
  {
    match u.meta
    case Some(c) => Ok(c)
    case None => Err(Uninitialized)
  }

  /** Every load and reset installs a fresh meta object, so only `Blank` lacks one. */
  lemma LoadedHasMeta(db: Store, u: User, who: Who)
    requires Load(db, u, who).result.Ok?
    ensures MetaOf(Load(db, u, who).state) == Ok(Metas.Empty)
  {
  }
}
