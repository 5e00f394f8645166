/**
 * The `rms:user` command-line request: find a user by id or username, then
 * in a fixed order grant a right, revoke a right, query a right, list the
 * user's permissions and set a password, each only when requested.
 */
module UserCliApi {
  import opened Outcomes
  import opened Values
  import opened Digests
  import opened Storage
  import opened Users
  import opened Events
  import Registry
  import Rights
  import Commands

  /** The response: the user's name and id, the last right checked and the listed permissions. */
  datatype CliReply = CliReply(
    userName: Value,
    userId: Value,
    hasRight: Option<bool>,
    permissions: Option<set<Commands.Command>>)

  /**
   * `checkRight($user, $right, $expects, $msg)`: whether the user holds the
   * right; an expectation that the answer contradicts throws.
   */
  function CheckRight(db: Store, u: User, right: string, expects: Option<bool>): (r: Result<bool>)
    ensures r.Ok? ==> (r.value <==> Rights.Holds(db, u, right))
    ensures r.Err? <==> expects.Some? && (expects.value <==> !Rights.Holds(db, u, right))
    ensures r.Err? ==> r.error == UnexpectedRight
  {
    var held := Rights.HasRight(db, u, [right]);
    if expects.Some? && expects.value != held then Err(UnexpectedRight) else Ok(held)
  }

  /** `--grant=<right>`: grant it, then check that it is held. */
  function GrantStage(db: Store, u: User, req: Request, reply: CliReply): (r: Step<Store, CliReply>)
    ensures !Truthy(Param(req, "grant")) ==> r == Step(db, Ok(reply))
    ensures Truthy(Param(req, "grant")) && !Param(req, "grant").Str? ==> r == Step(db, Err(TypeMismatch))
    ensures r.state.users == db.users && r.state.meta == db.meta
    ensures r.result.Ok? && Truthy(Param(req, "grant")) ==>
      && Param(req, "grant").Str? && Rights.Holds(r.state, u, Param(req, "grant").s)
      && r.result.value == reply.(hasRight := Some(true))
    ensures r.result.Ok? ==> r.result.value.permissions == reply.permissions
  {
    var g := Param(req, "grant");
    if !Truthy(g) then Step(db, Ok(reply))
    else if !g.Str? then Step(db, Err(TypeMismatch))
    else match Rights.Grant(db, u, [g.s])
      case Err(e) => Step(db, Err(e))
      case Ok(db') =>
        match CheckRight(db', u, g.s, Some(true))
        case Err(e) => Step(db', Err(e))
        case Ok(held) => Step(db', Ok(reply.(hasRight := Some(held))))
  }

  /** `--revoke=<right>`: revoke it, then check that it is no longer held. */
  function RevokeStage(db: Store, u: User, req: Request, reply: CliReply): (r: Step<Store, CliReply>)
    ensures !Truthy(Param(req, "revoke")) ==> r == Step(db, Ok(reply))
    ensures Truthy(Param(req, "revoke")) && !Param(req, "revoke").Str? ==> r == Step(db, Err(TypeMismatch))
    ensures r.state.users == db.users && r.state.meta == db.meta && r.state.commands == db.commands
    ensures r.result.Ok? && Truthy(Param(req, "revoke")) ==>
      && Param(req, "revoke").Str? && !Rights.Holds(r.state, u, Param(req, "revoke").s)
      && r.result.value == reply.(hasRight := Some(false))
    ensures r.result.Ok? ==> r.result.value.permissions == reply.permissions
  {
    var t := Param(req, "revoke");
    if !Truthy(t) then Step(db, Ok(reply))
    else if !t.Str? then Step(db, Err(TypeMismatch))
    else match Rights.Revoke(db, u, [t.s])
      case Err(e) => Step(db, Err(e))
      case Ok(db') =>
        match CheckRight(db', u, t.s, Some(false))
        case Err(e) => Step(db', Err(e))
        case Ok(held) => Step(db', Ok(reply.(hasRight := Some(held))))
  }

  /** `--hasRight=<right>`: report whether it is held; never throws for a string. */
  function QueryStage(db: Store, u: User, req: Request, reply: CliReply): (r: Result<CliReply>)
    ensures !Truthy(Param(req, "hasRight")) ==> r == Ok(reply)
    ensures Truthy(Param(req, "hasRight")) ==> (r.Ok? <==> Param(req, "hasRight").Str?)
    ensures r.Ok? && Truthy(Param(req, "hasRight")) ==>
      r.value == reply.(hasRight := Some(Rights.Holds(db, u, Param(req, "hasRight").s)))
    ensures r.Err? ==> r.error == TypeMismatch
  {
    var t := Param(req, "hasRight");
    if !Truthy(t) then Ok(reply)
    else if !t.Str? then Err(TypeMismatch)
    else match CheckRight(db, u, t.s, None)
      case Err(e) => Err(e)
      case Ok(held) => Ok(reply.(hasRight := Some(held)))
  }

  /** `--list`: the user's permissions. */
  function ListStage(db: Store, u: User, req: Request, reply: CliReply): (r: Result<CliReply>)
    ensures !Truthy(Param(req, "list")) ==> r == Ok(reply)
    ensures Truthy(Param(req, "list")) && HasId(u) && RightsReferenceCommands(db) ==> r.Ok?
    ensures r.Ok? && Truthy(Param(req, "list")) ==>
      && r.value.hasRight == reply.hasRight && r.value.permissions.Some?
      && (forall c :: c in r.value.permissions.value ==> Commands.Valid(c))
      && IdKey(u.data.id).Some? ==>
        forall h :: (IdKey(u.data.id).value, h) in db.rights ==> h in db.commands && Commands.New(db.commands[h]) in r.value.permissions.value
  {
    if !Truthy(Param(req, "list")) then Ok(reply)
    else match Rights.ListPermissions(db, u)
      case Err(e) => Err(e)
      case Ok(cs) => Ok(reply.(permissions := Some(cs)))
  }

  /** `--setPassword=<password>`: set it on the instance and save it. */
  function PasswordStage(env: Registry.Env, h: Registry.Handle, req: Request): (r: Step<Registry.Env, ()>)
    requires h in env.heap
    ensures !Truthy(Param(req, "setPassword")) ==> r == Step(env, Ok(()))
    ensures r.state.cache == env.cache && r.state.heap.Keys == env.heap.Keys
    ensures r.result.Err? ==> r.state.db == env.db
    ensures r.result.Ok? && Truthy(Param(req, "setPassword")) ==>
      && Param(req, "setPassword").Str? && HasId(env.heap[h])
      && var u := r.state.heap[h];
      && u.data.password.Str? && PasswordVerify(Param(req, "setPassword").s, u.data.password.s)
      && !IsModified(u) && u.data.id == env.heap[h].data.id
  {
    var p := Param(req, "setPassword");
    var u := env.heap[h];
    if !Truthy(p) then Step(env, Ok(()))
    else if !p.Str? then Step(env, Err(TypeMismatch))
    else match SetPassword(u, p.s)
      case Err(e) => Step(env, Err(e))
      case Ok((u', _)) =>
        match Save(env.db, u')
        case Err(e) => Step(env.(heap := env.heap[h := u']), Err(e))
        case Ok(saved) => Step(env.(db := saved.db, heap := env.heap[h := saved.user]), Ok(()))
  }

  /** `$event->request['user'] ?? 0`. */
  function Who(req: Request): (v: Value)
    ensures v != Null
    ensures IsSet(req, "user") ==> v == Param(req, "user")
  {
    if IsSet(req, "user") then Param(req, "user") else Int(0)
  }

  /**
   * The stages after the user is found, on the registry: the rights stages
   * change only the rights and the command dictionary, the password stage
   * only the user's row and instance.
   */
  function Stages(env: Registry.Env, h: Registry.Handle, req: Request): (r: Step<Registry.Env, CliReply>)
    requires h in env.heap
    ensures r.state.cache == env.cache && r.state.heap.Keys == env.heap.Keys
    ensures r.result.Ok? ==> r.result.value.userId == env.heap[h].data.id && r.result.value.userName == env.heap[h].data.username
  {
    var u := env.heap[h];
    var reply := CliReply(u.data.username, u.data.id, None, None);
    var granted := GrantStage(env.db, u, req, reply);
    if granted.result.Err? then Step(env.(db := granted.state), Err(granted.result.error))
    else
      var revoked := RevokeStage(granted.state, u, req, granted.result.value);
      if revoked.result.Err? then Step(env.(db := revoked.state), Err(revoked.result.error))
      else
        var env1 := env.(db := revoked.state);
        match QueryStage(env1.db, u, req, revoked.result.value)
        case Err(e) => Step(env1, Err(e))
        case Ok(queried) =>
          match ListStage(env1.db, u, req, queried)
          case Err(e) => Step(env1, Err(e))
          case Ok(listed) =>
            var saved := PasswordStage(env1, h, req);
            match saved.result
            case Err(e) => Step(saved.state, Err(e))
            case Ok(_) => Step(saved.state, Ok(listed))
  }

  /**
   * `onRequest($event)`: a user that cannot be found (including the default
   * id 0) throws before anything changes; otherwise the stages run in order.
   */
  function OnRequest(env: Registry.Env, req: Request): (r: Step<Registry.Env, CliReply>)
    ensures LookupKey(Who(req)).None? ==> r == Step(env, Err(TypeMismatch))
    ensures !IsSet(req, "user") ==> r == Step(env, Err(UserNotFound))
    ensures LookupKey(Who(req)).Some? && Registry.FindUser(env, LookupKey(Who(req)).value).found.None? ==>
      r.result == Err(UserNotFound) && r.state.db == env.db
    ensures r.result.Ok? ==>
      && LookupKey(Who(req)).Some?
      && var found := Registry.FindUser(env, LookupKey(Who(req)).value);
      && found.found.Some?
      && r.result.value.userId == found.env.heap[found.found.value].data.id
  {
    match LookupKey(Who(req))
    case None => Step(env, Err(TypeMismatch))
    case Some(k) =>
      var found := Registry.FindUser(env, k);
      match found.found
      case None => Step(found.env, Err(UserNotFound))
      case Some(h) => Stages(found.env, h, req)
  }

  /** For a user with an integer id, the check after granting always passes. */
  lemma GrantCheckPasses(db: Store, u: User, req: Request, reply: CliReply)
    requires HasId(u) && u.data.id.Int?
    requires Param(req, "grant").Str? && Truthy(Param(req, "grant"))
    ensures GrantStage(db, u, req, reply).result == Ok(reply.(hasRight := Some(true)))
  {
    Rights.GrantThenHolds(db, u, [Param(req, "grant").s], Param(req, "grant").s);
  }

  /**
   * For a loaded user, the check after revoking passes exactly when the
   * right is not "member of users", which every loaded user holds.
   */
  lemma RevokeCheckPasses(db: Store, u: User, req: Request, reply: CliReply)
    requires HasId(u)
    requires Param(req, "revoke").Str? && Truthy(Param(req, "revoke"))
    ensures RevokeStage(db, u, req, reply).result.Ok? <==> Param(req, "revoke").s != Rights.MemberOfUsers
    ensures Param(req, "revoke").s == Rights.MemberOfUsers ==>
      RevokeStage(db, u, req, reply).result == Err(UnexpectedRight)
  {
    var t := Param(req, "revoke").s;
    var db' := Rights.Revoke(db, u, [t]).value;
    if IdKey(u.data.id).Some? {
      assert Rights.RightsOf(u.data.id, [t]) == {(IdKey(u.data.id).value, Sha1(t))};
    }
    assert !Rights.Stored(db', u.data.id, t);
  }

  /** A request that only grants a right to a user with an integer id succeeds, and the right is then held. */
  lemma GrantRequestHolds(env: Registry.Env, h: Registry.Handle, t: string)
    requires h in env.heap && HasId(env.heap[h]) && env.heap[h].data.id.Int? && StrTruthy(t)
    ensures var r := Stages(env, h, map["grant" := Str(t)]);
      && r.result.Ok? && r.result.value.hasRight == Some(true)
      && Rights.Holds(r.state.db, env.heap[h], t)
  {
    var req := map["grant" := Str(t)];
    var u := env.heap[h];
    GrantCheckPasses(env.db, u, req, CliReply(u.data.username, u.data.id, None, None));
  }

  /** Revoking "member of users" from a loaded user throws, after the revocation is stored. */
  lemma RevokeMemberOfUsersThrows(env: Registry.Env, h: Registry.Handle, req: Request)
    requires h in env.heap && HasId(env.heap[h])
    requires !Truthy(Param(req, "grant")) && Param(req, "revoke") == Str(Rights.MemberOfUsers)
    ensures Stages(env, h, req).result == Err(UnexpectedRight)
  {
    var u := env.heap[h];
    RevokeCheckPasses(env.db, u, req, CliReply(u.data.username, u.data.id, None, None));
  }
}
