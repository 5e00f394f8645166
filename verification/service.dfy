/**
 * The `$api->rms` service: a registry of weakly referenced User instances
 * that hands out one instance per user, and the factory operations built
 * on it.
 *
 * Instances live in a heap addressed by handles. A cache entry is a handle
 * and a liveness flag; a dead entry stands for a weak reference whose
 * object has been garbage-collected.
 */
module Registry {
  import opened Outcomes
  import opened Values
  import opened Digests
  import opened Syntax
  import opened Storage
  import opened Users
  import Metas
  import Ordering

  type Handle = int

  datatype Entry = Entry(handle: Handle, live: bool)

  /** The store, every User instance in existence, and the registry's cache. */
  datatype Env = Env(db: Store, heap: map<Handle, User>, cache: seq<Entry>)

  /** The argument of `getUser` / `findUser`: an id or a username. */
  datatype Key = IntKey(i: int) | StrKey(s: string)

  /** The instance a cache entry refers to, unless it was collected. */
  function Deref(env: Env, e: Entry): Option<User> {
    if e.live && e.handle in env.heap then Some(env.heap[e.handle]) else None
  }

  /** The cache scan drops an entry that is dead or whose user is removed. */
  predicate Prunable(env: Env, e: Entry) {
    Deref(env, e).None? || Truthy(Deref(env, e).value.data.removed)
  }

  /** The key as the PHP value it is compared with (`===`). */
  function KeyValue(k: Key): Value {
    match k
    case IntKey(i) => Int(i)
    case StrKey(s) => Str(s)
  }

  /** `$user->id === $who || $user->username === $who`. */
  predicate Matches(u: User, k: Key) {
    u.data.id == KeyValue(k) || u.data.username == KeyValue(k)
  }

  /** The entry survives the scan and its user matches the key. */
  predicate Hit(env: Env, e: Entry, k: Key) {
    !Prunable(env, e) && Matches(Deref(env, e).value, k)
  }

  /** The entries of `s` the scan keeps, in order. */
  function Prune(env: Env, s: seq<Entry>): (r: seq<Entry>)
    ensures |r| <= |s|
    decreases |s|
  {
    if s == [] then []
    else (if Prunable(env, s[0]) then [] else [s[0]]) + Prune(env, s[1..])
  }

  /** Exactly the entries that survive are kept. */
  lemma {:induction false} PruneKeeps(env: Env, s: seq<Entry>, e: Entry)
    ensures e in Prune(env, s) <==> e in s && !Prunable(env, e)
    decreases |s|
  {
    if s != [] {
      PruneKeeps(env, s[1..], e);
      assert s == [s[0]] + s[1..];
    }
  }

  /**
   * The outcome of `getUserFromCache`: the cache after the scan, the instance
   * found, and how many entries were examined before it.
   */
  datatype Scan = Scan(kept: seq<Entry>, hit: Option<Handle>, at: nat)

  /**
   * `getUserFromCache($who)`: walks the cache, deleting every prunable entry
   * it passes, and stops at the first surviving entry whose user matches.
   * Entries after that one are not examined.
   */
  function ScanCache(env: Env, cache: seq<Entry>, k: Key): (r: Scan)
    ensures r.at <= |cache|
    ensures r.hit.None? ==> r.at == |cache|
    ensures r.hit.Some? ==> r.at < |cache| && cache[r.at].handle == r.hit.value && Hit(env, cache[r.at], k)
    ensures forall i :: 0 <= i < r.at ==> !Hit(env, cache[i], k)
    decreases |cache|
  {
    if cache == [] then Scan([], None, 0)
    else if Hit(env, cache[0], k) then Scan(cache, Some(cache[0].handle), 0)
    else
      var s := ScanCache(env, cache[1..], k);
      Scan((if Prunable(env, cache[0]) then [] else [cache[0]]) + s.kept, s.hit, s.at + 1)
  }

  /** The scan drops the prunable entries before the hit and keeps the rest. */
  lemma {:induction false} ScanKeeps(env: Env, cache: seq<Entry>, k: Key)
    ensures var r := ScanCache(env, cache, k);
      r.kept == Prune(env, cache[..r.at]) + cache[r.at..]
    decreases |cache|
  {
    if cache != [] && !Hit(env, cache[0], k) {
      var s := ScanCache(env, cache[1..], k);
      ScanKeeps(env, cache[1..], k);
      assert cache[..s.at + 1][1..] == cache[1..][..s.at];
      assert cache[s.at + 1..] == cache[1..][s.at..];
    }
  }

  /** A scan passes over surviving non-matching entries and stops at the first hit. */
  lemma {:induction false} ScanFindsFirstHit(env: Env, p: seq<Entry>, e: Entry, q: seq<Entry>, k: Key)
    requires forall x :: x in p ==> !Prunable(env, x) && !Hit(env, x, k)
    requires Hit(env, e, k)
    ensures ScanCache(env, p + [e] + q, k).hit == Some(e.handle)
    decreases |p|
  {
    if p != [] {
      assert (p + [e] + q)[0] == p[0];
      assert (p + [e] + q)[1..] == p[1..] + [e] + q;
      ScanFindsFirstHit(env, p[1..], e, q, k);
    } else {
      assert (p + [e] + q)[0] == e;
    }
  }

  /** An entry's status does not change when the heap only gains other handles. */
  lemma HitStable(env: Env, env': Env, e: Entry, k: Key)
    requires e.handle in env.heap <==> e.handle in env'.heap
    requires e.handle in env.heap ==> env'.heap[e.handle] == env.heap[e.handle]
    ensures Prunable(env', e) == Prunable(env, e) && Hit(env', e, k) == Hit(env, e, k)
  {
  }

  /** A handle no instance and no cache entry uses. */
  function FreshHandle(env: Env): (h: Handle)
    ensures h !in env.heap
    ensures forall e :: e in env.cache ==> e.handle != h
  {
    Ordering.Above(env.heap.Keys + set e | e in env.cache :: e.handle)
  }

  /** `new User($who)` followed by `addUserToCache`. */
  function Track(env: Env, u: User): (r: (Env, Handle))
    ensures r.1 !in env.heap
    ensures r.0 == env.(heap := env.heap[r.1 := u], cache := env.cache + [Entry(r.1, true)])
  {
    var h := FreshHandle(env);
    (env.(heap := env.heap[h := u], cache := env.cache + [Entry(h, true)]), h)
  }

  /** The instance handles and their users are never altered by a lookup. */
  predicate HeapGrows(env: Env, env': Env) {
    forall h :: h in env.heap ==> h in env'.heap && env'.heap[h] == env.heap[h]
  }

  /** How the User constructor treats a key: an integer loads by id, a string by username. */
  function WhoOf(k: Key): Who {
    match k
    case IntKey(i) => ById(i)
    case StrKey(s) => ByName(s)
  }

  /** An instance the constructor loads by id or username carries that id or username. */
  lemma ConstructMatches(db: Store, k: Key)
    requires Construct(db, Some(WhoOf(k))).Ok?
    ensures Matches(Construct(db, Some(WhoOf(k))).value, k)
  {
    match k
    case IntKey(i) =>
      assert LoadById(db, Blank, i).Ok?;
    case StrKey(n) =>
      assert LoadByUsername(db, Blank, n).Ok?;
  }

  /**
   * `getUser($who)`: the cached instance if the scan finds one; otherwise a
   * new instance loaded by id or username, registered in the cache. Fails
   * exactly when that load fails.
   */
  function GetUser(env: Env, k: Key): (r: Step<Env, Handle>)
    ensures r.state.db == env.db && HeapGrows(env, r.state)
    ensures ScanCache(env, env.cache, k).hit.Some? ==> r.result == Ok(ScanCache(env, env.cache, k).hit.value)
    ensures ScanCache(env, env.cache, k).hit.None? ==>
      (r.result.Err? <==> Construct(env.db, Some(WhoOf(k))).Err?)
    ensures r.result.Ok? ==> r.result.value in r.state.heap && Matches(r.state.heap[r.result.value], k)
    ensures r.result.Ok? && r.result.value !in env.heap ==>
      r.state.heap[r.result.value] == Construct(env.db, Some(WhoOf(k))).value
  {
    var s := ScanCache(env, env.cache, k);
    var env1 := env.(cache := s.kept);
    match s.hit
    case Some(h) =>
      assert env.cache[s.at] in env.cache;
      Step(env1, Ok(h))
    case None =>
      match Construct(env.db, Some(WhoOf(k)))
      case Ok(u) =>
        ConstructMatches(env.db, k);
        var (env2, h) := Track(env1, u);
        Step(env2, Ok(h))
      case Err(e) => Step(env1, Err(e))
  }

  /**
   * `is_numeric($who) ? intval($who) : $who`: a numeric string becomes an
   * integer id, any other string stays a username.
   */
  function Coerce(k: Key): (r: Key)
    ensures k.IntKey? ==> r == k
    ensures k.StrKey? ==> (r.IntKey? <==> IsNumeric(k.s))
    ensures k.StrKey? && IsNumeric(k.s) ==> r == IntKey(Intval(k.s))
    ensures k.StrKey? && !IsNumeric(k.s) ==> r == k
  {
    match k
    case IntKey(_) => k
    case StrKey(s) => if IsNumeric(s) then IntKey(Intval(s)) else k
  }

  /**
   * A username of twenty or more digits, not starting with zero, is past
   * `PHP_INT_MAX` and coerces to the id `PHP_INT_MAX`.
   */
  lemma {:induction false} LongIdSaturates(s: string)
    requires |s| >= 20 && AllDigits(s) && s[0] != '0'
    ensures IsNumeric(s)
    ensures Coerce(StrKey(s)) == IntKey(PhpIntMax)
  {
    DigitsValueAtLeast(s);
    Pow10Grows(19, |s| - 1);
    Pow10Of19();
  }

  /** `!$who` after coercion: the id 0 or the empty username. */
  predicate Falsy(k: Key) {
    match k
    case IntKey(i) => i == 0
    case StrKey(s) => !StrTruthy(s)
  }

  /** The column `findUser` queries for a coerced key. */
  function KeyField(k: Key): Field {
    if k.IntKey? then Id else Username
  }

  /** Loading a full row through `loadFromArray` reproduces the row. */
  lemma FromArrayIsRow(row: Row)
    ensures LoadFromArray(Blank, AsArray(row)).data == row
  {
    RowExtensionality(LoadFromArray(Blank, AsArray(row)).data, row);
  }

  /** The first active row `findUser` selects for a coerced key. */
  function Selected(db: Store, k: Key): Option<int> {
    SelectActive(db, KeyField(k), KeyValue(k))
  }

  /** The instance built from the selected row matches the key and is not removed. */
  lemma SelectedMatches(db: Store, k: Key)
    requires Selected(db, k).Some?
    ensures var row := RowAt(db, Selected(db, k).value);
      Matches(LoadFromArray(Blank, AsArray(row)), k) && !Truthy(row.removed)
      && LoadFromArray(Blank, AsArray(row)).data == row
  {
    var row := RowAt(db, Selected(db, k).value);
    FromArrayIsRow(row);
    assert row.Get(KeyField(k)) == KeyValue(k);
    assert IsActive(row);
  }

  /** The registry after a lookup and the instance found, if any. */
  datatype Lookup = Lookup(env: Env, found: Option<Handle>)

  /**
   * The lookup `findUser` performs for a truthy coerced key: the cached
   * instance if the scan finds one; otherwise a new instance built from the
   * first active row matching the key, registered in the cache.
   */
  function FindKey(env: Env, k: Key): (r: Lookup)
    ensures r.env.db == env.db && HeapGrows(env, r.env)
    ensures r.found.Some? ==>
      && r.found.value in r.env.heap
      && Matches(r.env.heap[r.found.value], k)
      && !Truthy(r.env.heap[r.found.value].data.removed)
    ensures r.found.Some? && r.found.value !in env.heap ==>
      Selected(env.db, k).Some? && r.env.heap[r.found.value].data == RowAt(env.db, Selected(env.db, k).value)
    ensures r.found.None? ==> ScanCache(env, env.cache, k).hit.None? && Selected(env.db, k).None?
  {
    var s := ScanCache(env, env.cache, k);
    var env1 := env.(cache := s.kept);
    match s.hit
    case Some(h) =>
      assert env.heap[h] == Deref(env, env.cache[s.at]).value;
      Lookup(env1, Some(h))
    case None =>
      match Selected(env.db, k)
      case None => Lookup(env1, None)
      case Some(id) =>
        SelectedMatches(env.db, k);
        var (env2, h) := Track(env1, LoadFromArray(Blank, AsArray(RowAt(env.db, id))));
        Lookup(env2, Some(h))
  }

  /**
   * `findUser($who)`: a numeric string is taken as an id; a falsy key finds
   * nothing without any read; any other key is looked up in the cache and
   * then among the active rows.
   */
  function FindUser(env: Env, who: Key): (r: Lookup)
    ensures Falsy(Coerce(who)) ==> r == Lookup(env, None)
    ensures !Falsy(Coerce(who)) ==> r == FindKey(env, Coerce(who))
  {
    var k := Coerce(who);
    if Falsy(k) then Lookup(env, None) else FindKey(env, k)
  }

  /** A second `findUser` with the same key returns the instance the first one returned. */
  lemma {:induction false} FindUserAgain(env: Env, who: Key)
    requires FindUser(env, who).found.Some?
    ensures var first := FindUser(env, who);
      FindUser(first.env, who).found == first.found
  {
    var k := Coerce(who);
    FindKeyAgain(env, k);
  }

  /** The entries a scan keeps before its stop point survive and miss in any grown heap. */
  lemma ScannedPrefixMisses(env: Env, env': Env, k: Key)
    requires HeapGrows(env, env')
    ensures var s := ScanCache(env, env.cache, k);
      forall x :: x in Prune(env, env.cache[..s.at]) ==> !Prunable(env', x) && !Hit(env', x, k)
  {
    var s := ScanCache(env, env.cache, k);
    forall x | x in Prune(env, env.cache[..s.at])
      ensures !Prunable(env', x) && !Hit(env', x, k)
    {
      PruneKeeps(env, env.cache[..s.at], x);
      var i :| 0 <= i < s.at && env.cache[..s.at][i] == x;
      assert !Hit(env, env.cache[i], k);
      HitStable(env, env', x, k);
    }
  }

  /** A cache hit is what the lookup returns. */
  lemma FindKeyHit(env: Env, k: Key)
    requires ScanCache(env, env.cache, k).hit.Some?
    ensures FindKey(env, k).found == ScanCache(env, env.cache, k).hit
  {
  }

  /** After a cache hit, the pruned cache still yields the same instance first. */
  lemma {:induction false} RescanAfterHit(env: Env, k: Key)
    requires ScanCache(env, env.cache, k).hit.Some?
    ensures var s := ScanCache(env, env.cache, k);
      ScanCache(env.(cache := s.kept), s.kept, k).hit == s.hit
  {
    var s := ScanCache(env, env.cache, k);
    var env1 := env.(cache := s.kept);
    ScanKeeps(env, env.cache, k);
    ScannedPrefixMisses(env, env1, k);
    var e := env.cache[s.at];
    assert env.cache[s.at..] == [e] + env.cache[s.at + 1..];
    assert s.kept == Prune(env, env.cache[..s.at]) + [e] + env.cache[s.at + 1..];
    HitStable(env, env1, e, k);
    ScanFindsFirstHit(env1, Prune(env, env.cache[..s.at]), e, env.cache[s.at + 1..], k);
  }

  /** After a miss, the scan of the pruned cache stops at the newly registered instance. */
  lemma {:induction false} RescanAfterTrack(env: Env, k: Key, u: User, h: Handle, env2: Env)
    requires ScanCache(env, env.cache, k).hit.None?
    requires Matches(u, k) && !Truthy(u.data.removed)
    requires h !in env.heap
    requires env2 == env.(heap := env.heap[h := u], cache := ScanCache(env, env.cache, k).kept + [Entry(h, true)])
    ensures ScanCache(env2, env2.cache, k).hit == Some(h)
  {
    var s := ScanCache(env, env.cache, k);
    ScanKeeps(env, env.cache, k);
    ScannedPrefixMisses(env, env2, k);
    var p := Prune(env, env.cache[..s.at]);
    assert env.cache[s.at..] == [];
    assert s.kept == p;
    assert p + [Entry(h, true)] + [] == env2.cache;
    ScanFindsFirstHit(env2, p, Entry(h, true), [], k);
  }

  /** After a lookup, the scan of the new cache stops at the instance found. */
  lemma RescanHits(env: Env, k: Key)
    requires FindKey(env, k).found.Some?
    ensures var first := FindKey(env, k);
      ScanCache(first.env, first.env.cache, k).hit == first.found
  {
    var s := ScanCache(env, env.cache, k);
    if s.hit.Some? {
      RescanAfterHit(env, k);
    } else {
      var id := Selected(env.db, k).value;
      SelectedMatches(env.db, k);
      var u := LoadFromArray(Blank, AsArray(RowAt(env.db, id)));
      var t := Track(env.(cache := s.kept), u);
      RescanAfterTrack(env, k, u, t.1, t.0);
    }
  }

  /** The same for an already coerced key. */
  lemma {:induction false} FindKeyAgain(env: Env, k: Key)
    requires FindKey(env, k).found.Some?
    ensures var first := FindKey(env, k);
      FindKey(first.env, k).found == first.found
  {
    RescanHits(env, k);
    FindKeyHit(FindKey(env, k).env, k);
  }

  /** `findUserIdsByRight(...$rights)`: the distinct holders of any of the rights, ascending. */
  function FindUserIdsByRight(db: Store, rights: seq<string>): (ids: seq<int>)
    ensures forall i, j :: 0 <= i < j < |ids| ==> ids[i] < ids[j]
    ensures forall k :: k in ids <==> exists t :: t in rights && (k, Sha1(t)) in db.rights
  {
    var hashes := set t | t in rights :: Sha1(t);
    var holders := set p | p in db.rights && p.1 in hashes :: p.0;
    assert forall k :: k in holders <==> exists t :: t in rights && (k, Sha1(t)) in db.rights by {
      forall k | k in holders
        ensures exists t :: t in rights && (k, Sha1(t)) in db.rights
      {
        var p :| p in db.rights && p.1 in hashes && p.0 == k;
        var t :| t in rights && Sha1(t) == p.1;
        assert (k, Sha1(t)) == p;
      }
      forall k, t | t in rights && (k, Sha1(t)) in db.rights
        ensures k in holders
      {
        assert (k, Sha1(t)).1 in hashes;
      }
    }
    Ordering.Sorted(holders)
  }

  /** `isset($data['password'])`. */
  predicate GivesPassword(data: map<string, Value>) {
    "password" in data && data["password"] != Null
  }

  /**
   * `new User($data)` followed, when a password is given, by `setPassword`:
   * the instance `createUser` inserts. A password that is not a string is a
   * type error; a short one is refused.
   */
  function NewUser(data: map<string, Value>): (r: Result<User>)
    ensures r.Err? <==> GivesPassword(data) && (!data["password"].Str? || ByteLength(data["password"].s) < PasswordMinLength)
    ensures r.Err? ==> r.error == (if data["password"].Str? then PasswordTooShort else TypeMismatch)
    ensures r.Ok? ==> forall f :: f != Password ==> r.value.data.Get(f) == if NameOf(f) in data then data[NameOf(f)] else Null
    ensures r.Ok? && !GivesPassword(data) ==> r.value.data.password == Null
    ensures r.Ok? && GivesPassword(data) ==> r.value.data.password.Str? && PasswordVerify(data["password"].s, r.value.data.password.s)
  {
    var loaded := LoadFromArray(Blank, data);
    if GivesPassword(data) then
      if data["password"].Str? then
        match SetPassword(loaded, data["password"].s)
        case Ok((u, _)) => Ok(u)
        case Err(e) => Err(e)
      else Err(TypeMismatch)
    else
      assert loaded.data.Get(Password) == Null;
      Ok(loaded)
  }

  /**
   * `createUser($data)`: the new instance inserted and registered. A failure
   * leaves everything as it was.
   */
  function CreateUser(env: Env, data: map<string, Value>): (r: Step<Env, Handle>)
    ensures r.result.Err? ==> r.state == env
    ensures r.result.Err? <==> NewUser(data).Err? || Create(env.db, NewUser(data).value).Err?
    ensures r.result.Ok? ==>
      var saved := Create(env.db, NewUser(data).value).value;
      && r.result.value !in env.heap
      && r.state == env.(db := saved.db, heap := env.heap[r.result.value := saved.user], cache := env.cache + [Entry(r.result.value, true)])
  {
    match NewUser(data)
    case Err(e) => Step(env, Err(e))
    case Ok(u) =>
      match Create(env.db, u)
      case Err(e) => Step(env, Err(e))
      case Ok(saved) =>
        var t := Track(env.(db := saved.db), saved.user);
        Step(t.0, Ok(t.1))
  }

  /**
   * What a successful `createUser` stores: the given columns, the defaults
   * for the rest, a hash the given password verifies against, and a fresh
   * id; every existing row is kept.
   */
  lemma CreateUserStores(env: Env, data: map<string, Value>)
    requires CreateUser(env, data).result.Ok?
    ensures var r := CreateUser(env, data);
      var u := r.state.heap[r.result.value];
      && u.data.id.Int? && u.data.id.i !in env.db.users && u.data == RowAt(r.state.db, u.data.id.i)
      && r.state.db.users.Keys == env.db.users.Keys + {u.data.id.i}
      && !IsModified(u)
      && (forall f :: f != Id && f != Password ==>
            u.data.Get(f) == if NameOf(f) in data && data[NameOf(f)] != Null then data[NameOf(f)] else ColumnDefault(f))
      && (!GivesPassword(data) ==> u.data.password == Null)
      && (GivesPassword(data) ==> u.data.password.Str? && PasswordVerify(data["password"].s, u.data.password.s))
      && (forall k :: k in env.db.users ==> k in r.state.db.users && r.state.db.users[k] == env.db.users[k])
  {
    var nu := NewUser(data).value;
    var saved := Create(env.db, nu).value;
    assert ColumnDefault(Password) == Null;
    assert saved.user.data.Get(Password) == if nu.data.Get(Password) != Null then nu.data.Get(Password) else Null;
  }

  /** A password below the minimum length creates nothing. */
  lemma ShortPasswordCreatesNothing(env: Env, data: map<string, Value>)
    requires "password" in data && data["password"].Str? && ByteLength(data["password"].s) < PasswordMinLength
    ensures CreateUser(env, data) == Step(env, Err(PasswordTooShort))
  {
  }

  /** The position of the first entry that is dead or refers to `h`. */
  function FirstDeadOrSame(env: Env, cache: seq<Entry>, h: Handle): (r: Option<nat>)
    ensures r.Some? ==> r.value < |cache| && (Deref(env, cache[r.value]).None? || cache[r.value].handle == h)
    ensures r.Some? ==> forall j :: 0 <= j < r.value ==> Deref(env, cache[j]).Some? && cache[j].handle != h
    ensures r.None? ==> forall j :: 0 <= j < |cache| ==> Deref(env, cache[j]).Some? && cache[j].handle != h
    decreases |cache|
  {
    if cache == [] then None
    else if Deref(env, cache[0]).None? || cache[0].handle == h then Some(0)
    else match FirstDeadOrSame(env, cache[1..], h)
      case None => None
      case Some(i) => Some(i + 1)
  }

  /**
   * `removeUserFromCache($user)`: deletes the first entry that is dead or
   * refers to the user, and reports whether it deleted one.
   */
  function RemoveUserFromCache(env: Env, h: Handle): (r: (seq<Entry>, bool))
    ensures r.1 <==> FirstDeadOrSame(env, env.cache, h).Some?
    ensures r.1 ==> var i := FirstDeadOrSame(env, env.cache, h).value;
      r.0 == env.cache[..i] + env.cache[i + 1..]
    ensures !r.1 ==> r.0 == env.cache
  {
    match FirstDeadOrSame(env, env.cache, h)
    case None => (env.cache, false)
    case Some(i) => (env.cache[..i] + env.cache[i + 1..], true)
  }

  /** A dead entry at the front is dropped instead of the user's own entry. */
  lemma LeadingDeadEntry(env: Env, h: Handle)
    requires |env.cache| > 0 && Deref(env, env.cache[0]).None?
    ensures RemoveUserFromCache(env, h) == (env.cache[1..], true)
  {
    assert FirstDeadOrSame(env, env.cache, h) == Some(0);
    assert env.cache[..0] + env.cache[1..] == env.cache[1..];
  }

  /** The argument of `removeUser`: an instance, or an id or username to look up. */
  datatype Target = ByHandle(handle: Handle) | ByKey(key: Key)

  /**
   * `removeUser($who)`: resolves the user (a lookup may fail), untracks it
   * (an untracked user only raises a warning) and wipes it. The result tells
   * whether an entry was deleted from the cache.
   */
  function RemoveUser(env: Env, who: Target, now: Timestamp): (r: Step<Env, bool>)
    requires who.ByHandle? ==> who.handle in env.heap
    ensures r.state.heap.Keys >= env.heap.Keys
    ensures who.ByHandle? && !HasId(env.heap[who.handle]) ==> r.result == Err(NotLoaded)
    ensures who.ByHandle? && r.result.Ok? ==>
      && r.result.value == FirstDeadOrSame(env, env.cache, who.handle).Some?
      && r.state.db == Wipe(env.db, env.heap[who.handle], now).value.db
      && r.state.heap == env.heap[who.handle := Wipe(env.db, env.heap[who.handle], now).value.user]
      && r.state.cache == RemoveUserFromCache(env, who.handle).0
    ensures r.result.Ok? ==> forall k :: k in r.state.db.users ==> k in env.db.users && r.state.db.users[k] == env.db.users[k]
  {
    var resolved: Step<Env, Handle> :=
      match who
      case ByHandle(h) => Step(env, Ok(h))
      case ByKey(k) => GetUser(env, k);
    match resolved.result
    case Err(e) => Step(resolved.state, Err(e))
    case Ok(h) =>
      var env1 := resolved.state;
      var (cache, tracked) := RemoveUserFromCache(env1, h);
      var env2 := env1.(cache := cache);
      match Wipe(env2.db, env2.heap[h], now)
      case Err(e) => Step(env2, Err(e))
      case Ok(saved) => Step(env2.(db := saved.db, heap := env2.heap[h := saved.user]), Ok(tracked))
  }

  /** The hypotheses under which a removed user's name is free again. */
  predicate OnlyHolder(env: Env, h: Handle, name: string)
    requires h in env.heap
  {
    && NoOtherCached(env, h, StrKey(name))
    && (forall id :: id in env.db.users && IsActive(RowAt(env.db, id)) && RowAt(env.db, id).username == Str(name) ==>
          Some(id) == IdKey(env.heap[h].data.id))
  }

  /** After the removal no cache entry yields an instance for the name. */
  lemma RemovedNotCached(env: Env, h: Handle, now: Timestamp, name: string)
    requires h in env.heap && HasId(env.heap[h]) && OnlyHolder(env, h, name)
    ensures var env' := RemoveUser(env, ByHandle(h), now).state;
      ScanCache(env', env'.cache, StrKey(name)).hit.None?
  {
    var env' := RemoveUser(env, ByHandle(h), now).state;
    var k := StrKey(name);
    forall e | e in env'.cache
      ensures !Hit(env', e, k)
    {
      var i := FirstDeadOrSame(env, env.cache, h);
      if i.Some? {
        assert env.cache == env.cache[..i.value] + env.cache[i.value..];
        assert e in env.cache[..i.value] || e in env.cache[i.value + 1..];
      }
      assert e in env.cache;
      if e.handle != h {
        HitStable(env, env', e, k);
      }
    }
    var s := ScanCache(env', env'.cache, k);
    if s.at < |env'.cache| {
      assert env'.cache[s.at] in env'.cache;
    }
  }

  /** After the removal no active row carries the name. */
  lemma RemovedNotStored(env: Env, h: Handle, now: Timestamp, name: string)
    requires h in env.heap && HasId(env.heap[h]) && env.heap[h].data.id.Int? && OnlyHolder(env, h, name)
    ensures var env' := RemoveUser(env, ByHandle(h), now).state;
      Selected(env'.db, StrKey(name)).None?
  {
    var env' := RemoveUser(env, ByHandle(h), now).state;
    forall id | id in env'.db.users && IsActive(RowAt(env'.db, id))
      ensures RowAt(env'.db, id).Get(Username) != Str(name)
    {
      assert id in env.db.users && RowAt(env'.db, id) == RowAt(env.db, id);
      assert Some(id) != IdKey(env.heap[h].data.id);
    }
  }

  /**
   * Once an instance is removed, looking its username up finds nothing, as
   * long as no other instance and no other active row carries that username.
   */
  lemma RemovedUserNotFound(env: Env, h: Handle, now: Timestamp, name: string)
    requires h in env.heap && HasId(env.heap[h]) && env.heap[h].data.id.Int?
    requires !IsNumeric(name) && StrTruthy(name)
    requires OnlyHolder(env, h, name)
    ensures RemoveUser(env, ByHandle(h), now).result.Ok?
    ensures FindUser(RemoveUser(env, ByHandle(h), now).state, StrKey(name)).found.None?
  {
    RemovedNotCached(env, h, now, name);
    RemovedNotStored(env, h, now, name);
    assert Coerce(StrKey(name)) == StrKey(name);
  }

  /** The registry after `markAsRemoved()` on the instance `h`, if that succeeds. */
  function MarkInstance(env: Env, h: Handle, now: Timestamp): (env': Env)
    requires h in env.heap && HasId(env.heap[h])
    ensures env'.cache == env.cache && h in env'.heap && env'.heap.Keys == env.heap.Keys
    ensures Truthy(env'.heap[h].data.removed)
    ensures forall g :: g in env.heap && g != h ==> env'.heap[g] == env.heap[g]
  {
    var saved := MarkAsRemoved(env.db, env.heap[h], now).value;
    env.(db := saved.db, heap := env.heap[h := saved.user])
  }

  /** The key is matched by no cached instance other than `h`. */
  predicate NoOtherCached(env: Env, h: Handle, k: Key) {
    forall e :: e in env.cache && e.handle != h && Deref(env, e).Some? ==> !Matches(Deref(env, e).value, k)
  }

  /** A soft-removed instance is pruned, so no cache scan finds it. */
  lemma MarkedNotCached(env: Env, h: Handle, now: Timestamp, k: Key)
    requires h in env.heap && HasId(env.heap[h]) && NoOtherCached(env, h, k)
    ensures var env' := MarkInstance(env, h, now);
      ScanCache(env', env'.cache, k).hit.None?
  {
    var env' := MarkInstance(env, h, now);
    forall e | e in env'.cache
      ensures !Hit(env', e, k)
    {
      if e.handle != h {
        HitStable(env, env', e, k);
      }
    }
    var s := ScanCache(env', env'.cache, k);
    if s.at < |env'.cache| {
      assert env'.cache[s.at] in env'.cache;
    }
  }

  /** After `markAsRemoved()` no active row has the user's id. */
  lemma MarkedIdNotStored(env: Env, h: Handle, now: Timestamp)
    requires h in env.heap && HasId(env.heap[h]) && env.heap[h].data.id.Int?
    requires env.heap[h].data.id.i in env.db.users
    ensures Selected(MarkInstance(env, h, now).db, IntKey(env.heap[h].data.id.i)).None?
  {
    var u := env.heap[h];
    var db' := MarkInstance(env, h, now).db;
    forall id | id in db'.users && IsActive(RowAt(db', id))
      ensures RowAt(db', id).Get(Id) != Int(u.data.id.i)
    {
    }
  }

  /** After `markAsRemoved()` no active row has the username, when no other active row had it. */
  lemma MarkedNameNotStored(env: Env, h: Handle, now: Timestamp, name: string)
    requires h in env.heap && HasId(env.heap[h]) && env.heap[h].data.id.Int?
    requires env.heap[h].data.id.i in env.db.users
    requires forall id :: id in env.db.users && IsActive(RowAt(env.db, id)) && RowAt(env.db, id).username == Str(name) ==>
      id == env.heap[h].data.id.i
    ensures Selected(MarkInstance(env, h, now).db, StrKey(name)).None?
  {
    var u := env.heap[h];
    var db' := MarkInstance(env, h, now).db;
    forall id | id in db'.users && IsActive(RowAt(db', id))
      ensures RowAt(db', id).Get(Username) != Str(name)
    {
      if id != u.data.id.i {
        assert RowAt(db', id) == RowAt(env.db, id);
      }
    }
  }

  /**
   * A user marked as removed is found neither by id nor by username, as
   * long as no other cached instance matches and no other active row has
   * the username.
   */
  lemma {:induction false} MarkedUserNotFound(env: Env, h: Handle, now: Timestamp, name: string)
    requires h in env.heap && HasId(env.heap[h]) && env.heap[h].data.id.Int?
    requires env.heap[h].data.id.i in env.db.users
    requires NoOtherCached(env, h, IntKey(env.heap[h].data.id.i)) && NoOtherCached(env, h, StrKey(name))
    requires env.heap[h].data.username == Str(name) && !IsNumeric(name)
    requires forall id :: id in env.db.users && IsActive(RowAt(env.db, id)) && RowAt(env.db, id).username == Str(name) ==>
      id == env.heap[h].data.id.i
    ensures MarkAsRemoved(env.db, env.heap[h], now).Ok?
    ensures FindUser(MarkInstance(env, h, now), IntKey(env.heap[h].data.id.i)).found.None?
    ensures FindUser(MarkInstance(env, h, now), StrKey(name)).found.None?
  {
    var k := IntKey(env.heap[h].data.id.i);
    MarkedNotCached(env, h, now, k);
    MarkedIdNotStored(env, h, now);
    MarkedNotCached(env, h, now, StrKey(name));
    MarkedNameNotStored(env, h, now, name);
    assert Coerce(StrKey(name)) == StrKey(name);
  }

  /** `getUser` of every id, in order; the first failure stops the walk. */
  function GetUsers(env: Env, ids: seq<int>): (r: Step<Env, seq<Handle>>)
    ensures r.state.db == env.db && HeapGrows(env, r.state)
    ensures r.result.Ok? ==> |r.result.value| == |ids|
    ensures r.result.Ok? ==> forall i :: 0 <= i < |ids| ==>
      r.result.value[i] in r.state.heap && Matches(r.state.heap[r.result.value[i]], IntKey(ids[i]))
    decreases |ids|
  {
    if ids == [] then Step(env, Ok([]))
    else
      var first := GetUser(env, IntKey(ids[0]));
      match first.result
      case Err(e) => Step(first.state, Err(e))
      case Ok(h) =>
        var rest := GetUsers(first.state, ids[1..]);
        match rest.result
        case Err(e) => Step(rest.state, Err(e))
        case Ok(hs) => Step(rest.state, Ok([h] + hs))
  }

  /**
   * `searchMeta($key, $value, $returnFirst)`: the users whose meta `key` is
   * the string `value`, as registry instances; only the first when asked.
   */
  function SearchMeta(env: Env, key: string, value: string, returnFirst: bool): (r: Step<Env, seq<Handle>>)
    ensures r.state.db == env.db && HeapGrows(env, r.state)
    ensures returnFirst && r.result.Ok? ==> |r.result.value| <= 1
    ensures r.result.Ok? ==> forall i :: 0 <= i < |r.result.value| ==>
      && r.result.value[i] in r.state.heap
      && var u := r.state.heap[r.result.value[i]];
      && exists k :: Matches(u, IntKey(k)) && (k, key) in env.db.meta && env.db.meta[(k, key)] == JStr(value)
    ensures !returnFirst ==> (r.result.Ok? ==> |r.result.value| == |Metas.MatchingOwners(env.db, key, JStr(value))|)
    ensures returnFirst && r.result.Ok? && |Metas.MatchingOwners(env.db, key, JStr(value))| > 0 ==> |r.result.value| == 1
    ensures r.result.Ok? ==> var owners := Metas.MatchingOwners(env.db, key, JStr(value));
      && |r.result.value| <= |owners|
      && forall i :: 0 <= i < |r.result.value| ==> Matches(r.state.heap[r.result.value[i]], IntKey(owners[i]))
  {
    var limit := if returnFirst then Some(1) else None;
    match Metas.SearchIds(env.db, key, JStr(value), limit)
    case Err(e) => Step(env, Err(e))
    case Ok(ids) =>
      var users := GetUsers(env, ids);
      if users.result.Ok? then
        assert forall i :: 0 <= i < |ids| ==> ids[i] in ids;
        users
      else users
  }
}
