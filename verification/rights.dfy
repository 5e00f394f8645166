/**
 * A user's rights: granting and revoking commands, and filtering a list of
 * commands down to those the user holds, including the two implicit
 * memberships every instance has.
 */
module Rights {
  import opened Outcomes
  import opened Values
  import opened Digests
  import opened Storage
  import opened Users
  import Commands

  const MemberOfUsers := "member of users"
  const MemberOfGuests := "member of guests"
  const MemberOfAdministrators := "member of administrators"

  /** The `rmsRights` rows of the user with id value `owner` hold the digest of `text`. */
  predicate Stored(db: Store, owner: Value, text: string) {
    IdKey(owner).Some? && (IdKey(owner).value, Sha1(text)) in db.rights
  }

  /**
   * The user holds `text`: through a stored right when it has an id, or
   * implicitly — every instance with an id is a member of users, every
   * instance without one a member of guests.
   */
  predicate Holds(db: Store, u: User, text: string) {
    || (HasId(u) && Stored(db, u.data.id, text))
    || (text == MemberOfUsers && HasId(u))
    || (text == MemberOfGuests && !HasId(u))
  }

  /** The digests of `hashes` the `rmsRights` query returns for the user. */
  function FoundHashes(db: Store, u: User, hashes: set<Hash>): (found: set<Hash>)
    ensures forall h :: h in found <==> HasId(u) && h in hashes && IdKey(u.data.id).Some? && (IdKey(u.data.id).value, h) in db.rights
  {
    if !Truthy(u.data.id) then {}
    else match IdKey(u.data.id)
      case Some(k) => set h | h in hashes && (k, h) in db.rights
      case None => {}
  }

  /** The filter's test for one command. */
  predicate Keeps(text: string, found: set<Hash>, hasId: bool) {
    || Sha1(text) in found
    || (text == MemberOfUsers && hasId)
    || (text == MemberOfGuests && !hasId)
  }

  /** The key-preserving sub-array of `cs[i..]`: pairs (key, command) in key order. */
  function KeptFrom(cs: seq<string>, found: set<Hash>, hasId: bool, i: nat): (r: seq<(int, string)>)
    requires i <= |cs|
    ensures forall p :: p in r <==> i <= p.0 < |cs| && p.1 == cs[p.0] && Keeps(cs[p.0], found, hasId)
    ensures forall a :: 0 <= a < |r| ==> i <= r[a].0
    ensures forall a, b :: 0 <= a < b < |r| ==> r[a].0 < r[b].0
    ensures |r| <= |cs| - i
    ensures |r| == |cs| - i <==> forall k :: i <= k < |cs| ==> Keeps(cs[k], found, hasId)
    ensures |r| > 0 <==> exists k :: i <= k < |cs| && Keeps(cs[k], found, hasId)
    decreases |cs| - i
  {
    if i == |cs| then []
    else
      var rest := KeptFrom(cs, found, hasId, i + 1);
      if Keeps(cs[i], found, hasId) then [(i, cs[i])] + rest else rest
  }

  /** For the digests of the input, the filter's test is exactly holding the command. */
  lemma KeepsIsHolds(db: Store, u: User, cs: seq<string>, found: set<Hash>)
    requires found == FoundHashes(db, u, set t | t in cs :: Sha1(t))
    ensures forall k :: 0 <= k < |cs| ==> (Keeps(cs[k], found, HasId(u)) <==> Holds(db, u, cs[k]))
  {
    forall k | 0 <= k < |cs|
      ensures Keeps(cs[k], found, HasId(u)) <==> Holds(db, u, cs[k])
    {
      assert cs[k] in cs;
    }
  }

  /**
   * `filterRights($commands)`: the entries of the input (with their keys)
   * that the user holds. Storage is consulted only when the user has an id,
   * and no loaded check is made.
   */
  function FilterRights(db: Store, u: User, cs: seq<string>): (r: seq<(int, string)>)
    ensures forall p :: p in r <==> 0 <= p.0 < |cs| && p.1 == cs[p.0] && Holds(db, u, cs[p.0])
    ensures forall a, b :: 0 <= a < b < |r| ==> r[a].0 < r[b].0
    ensures |r| == |cs| <==> forall k :: 0 <= k < |cs| ==> Holds(db, u, cs[k])
    ensures |r| > 0 <==> exists k :: 0 <= k < |cs| && Holds(db, u, cs[k])
    ensures |r| <= |cs|
  {
    var found := FoundHashes(db, u, set t | t in cs :: Sha1(t));
    KeepsIsHolds(db, u, cs, found);
    KeptFrom(cs, found, HasId(u), 0)
  }

  /** `hasRight(...$commands)`: at least one is held. */
  function HasRight(db: Store, u: User, cs: seq<string>): (b: bool)
    ensures b <==> exists k :: 0 <= k < |cs| && Holds(db, u, cs[k])
  {
    |FilterRights(db, u, cs)| > 0
  }

  /** `hasRightsAll(...$commands)`: every one is held. */
  function HasRightsAll(db: Store, u: User, cs: seq<string>): (b: bool)
    ensures b <==> forall k :: 0 <= k < |cs| ==> Holds(db, u, cs[k])
  {
    |FilterRights(db, u, cs)| == |cs|
  }

  /** `isAdministrator()`. */
  function IsAdministrator(db: Store, u: User): (b: bool)
    ensures b <==> HasId(u) && Stored(db, u.data.id, MemberOfAdministrators)
  {
    HasRight(db, u, [MemberOfAdministrators])
  }

  /**
   * `isGuest()`: every instance without an id, and a loaded user only if
   * "member of guests" was stored for it explicitly.
   */
  function IsGuest(db: Store, u: User): (b: bool)
    ensures b <==> !HasId(u) || Stored(db, u.data.id, MemberOfGuests)
  {
    HasRight(db, u, [MemberOfGuests])
  }

  /** The `rmsRights` rows granting `texts` to the user with id value `owner`. */
  function RightsOf(owner: Value, texts: seq<string>): set<(int, Hash)> {
    match IdKey(owner)
    case Some(k) => set t | t in texts :: (k, Sha1(t))
    case None => {}
  }

  /** The grant loop: for each command, create it, then add the (user, digest) row. */
  function GrantEach(db: Store, owner: Value, texts: seq<string>): (db': Store)
    ensures db' == db.(rights := db'.rights, commands := db'.commands)
    ensures db'.rights == db.rights + RightsOf(owner, texts)
    ensures db'.commands.Keys == db.commands.Keys + set t | t in texts :: Sha1(t)
    ensures forall h :: h in db.commands ==> db'.commands[h] == db.commands[h]
    ensures forall t :: t in texts && Sha1(t) !in db.commands ==> db'.commands[Sha1(t)] == t
    decreases |texts|
  {
    if texts == [] then db
    else
      var c := Commands.New(texts[0]);
      var created := Commands.Create(db, c);
      var added := match IdKey(owner)
        case Some(k) => created.(rights := created.rights + {(k, c.hash)})
        case None => created;
      var rest := GrantEach(added, owner, texts[1..]);
      assert forall t :: t in texts <==> t == texts[0] || t in texts[1..];
      rest
  }

  /**
   * `grant(...$commands)`: fails without an id; otherwise every command is in
   * the dictionary and held by the user, and nothing else changes.
   */
  function Grant(db: Store, u: User, texts: seq<string>): (r: Result<Store>)
    ensures r.Ok? <==> HasId(u)
    ensures r.Err? ==> r.error == NotLoaded
    ensures r.Ok? ==> r.value == db.(rights := r.value.rights, commands := r.value.commands)
    ensures r.Ok? ==> r.value.rights == db.rights + RightsOf(u.data.id, texts)
    ensures r.Ok? ==> r.value.commands.Keys == db.commands.Keys + set t | t in texts :: Sha1(t)
    ensures r.Ok? ==> forall h :: h in db.commands ==> r.value.commands[h] == db.commands[h]
    ensures r.Ok? ==> forall t :: t in texts && Sha1(t) !in db.commands ==> r.value.commands[Sha1(t)] == t
  {
    if !Truthy(u.data.id) then Err(NotLoaded) else Ok(GrantEach(db, u.data.id, texts))
  }

  /** Granting the same commands again changes nothing. */
  lemma GrantIdempotent(db: Store, u: User, texts: seq<string>)
    requires HasId(u)
    ensures Grant(Grant(db, u, texts).value, u, texts) == Grant(db, u, texts)
  {
    var once := Grant(db, u, texts).value;
    var twice := Grant(once, u, texts).value;
    assert twice.commands.Keys == once.commands.Keys;
    assert forall h :: h in once.commands ==> twice.commands[h] == once.commands[h];
    assert twice.commands == once.commands;
    assert twice.rights == once.rights;
  }

  /** After granting, every granted command is held and listed with its own text. */
  lemma GrantThenHolds(db: Store, u: User, texts: seq<string>, t: string)
    requires HasId(u) && u.data.id.Int? && t in texts
    ensures Holds(Grant(db, u, texts).value, u, t)
  {
  }

  /** Granting keeps every right pointing at an existing command (the foreign key). */
  lemma GrantKeepsReferences(db: Store, u: User, texts: seq<string>)
    requires RightsReferenceCommands(db) && HasId(u)
    ensures RightsReferenceCommands(Grant(db, u, texts).value)
  {
  }

  /** The revoke loop: delete the (user, digest) row of each command, if present. */
  function RevokeEach(db: Store, owner: Value, texts: seq<string>): (db': Store)
    ensures db' == db.(rights := db.rights - RightsOf(owner, texts))
    decreases |texts|
  {
    if texts == [] then db
    else
      var c := Commands.New(texts[0]);
      var removed := match IdKey(owner)
        case Some(k) => db.(rights := db.rights - {(k, c.hash)})
        case None => db;
      var rest := RevokeEach(removed, owner, texts[1..]);
      assert forall t :: t in texts <==> t == texts[0] || t in texts[1..];
      rest
  }

  /**
   * `revoke(...$commands)`: fails without an id; otherwise deletes exactly the
   * user's rows for those commands, and nothing else.
   */
  function Revoke(db: Store, u: User, texts: seq<string>): (r: Result<Store>)
    ensures r.Ok? <==> HasId(u)
    ensures r.Err? ==> r.error == NotLoaded
    ensures r.Ok? ==> r.value == db.(rights := db.rights - RightsOf(u.data.id, texts))
  {
    if !Truthy(u.data.id) then Err(NotLoaded) else Ok(RevokeEach(db, u.data.id, texts))
  }

  /** Revoking a command that is not held changes nothing. */
  lemma RevokeAbsentIsNoop(db: Store, u: User, t: string)
    requires HasId(u) && !Stored(db, u.data.id, t)
    ensures Revoke(db, u, [t]) == Ok(db)
  {
    if u.data.id.Int? {
      assert RightsOf(u.data.id, [t]) == {(u.data.id.i, Sha1(t))};
    }
    assert db.rights - RightsOf(u.data.id, [t]) == db.rights;
  }

  /** Revoking a command removes exactly the row granting it added. */
  lemma RevokeUndoesGrant(db: Store, u: User, t: string)
    requires HasId(u) && u.data.id.Int? && !Stored(db, u.data.id, t)
    ensures Revoke(Grant(db, u, [t]).value, u, [t]).value.rights == db.rights
  {
    assert RightsOf(u.data.id, [t]) == {(u.data.id.i, Sha1(t))};
  }

  /** A loaded user always holds "member of users", so revoking it has no visible effect. */
  lemma MemberOfUsersSurvivesRevoke(db: Store, u: User)
    requires HasId(u)
    ensures HasRight(Revoke(db, u, [MemberOfUsers]).value, u, [MemberOfUsers])
  {
  }

  /** `grantAdministrator()`. */
  function GrantAdministrator(db: Store, u: User): (r: Result<Store>)
    ensures r.Ok? <==> HasId(u)
    ensures r.Ok? && u.data.id.Int? ==> IsAdministrator(r.value, u)
  {
    Grant(db, u, [MemberOfAdministrators])
  }

  /** `revokeAdministrator()`. */
  function RevokeAdministrator(db: Store, u: User): (r: Result<Store>)
    ensures r.Ok? <==> HasId(u)
    ensures r.Ok? ==> !IsAdministrator(r.value, u)
  {
    Revoke(db, u, [MemberOfAdministrators])
  }

  /**
   * `listPermissions()`: fails without an id; otherwise one command per
   * `rmsRights` row of the user, built from the joined command text. A row
   * whose command is missing joins to null, which the command constructor
   * rejects.
   */
  function ListPermissions(db: Store, u: User): (r: Result<set<Commands.Command>>)
    ensures !HasId(u) ==> r == Err(NotLoaded)
    ensures HasId(u) && RightsReferenceCommands(db) ==> r.Ok?
    ensures r.Ok? ==> forall c :: c in r.value ==> Commands.Valid(c)
    ensures r.Ok? && IdKey(u.data.id).Some? ==>
      forall h :: (IdKey(u.data.id).value, h) in db.rights ==> h in db.commands && Commands.New(db.commands[h]) in r.value
    ensures r.Ok? ==> forall c :: c in r.value ==>
      exists h :: IdKey(u.data.id).Some? && (IdKey(u.data.id).value, h) in db.rights && h in db.commands && c == Commands.New(db.commands[h])
  {
    if !Truthy(u.data.id) then Err(NotLoaded)
    else match IdKey(u.data.id)
      case None => Ok({})
      case Some(k) =>
        var held := set p | p in db.rights && p.0 == k :: p.1;
        if exists h :: h in held && h !in db.commands then Err(TypeMismatch)
        else Ok(set h | h in held :: Commands.New(db.commands[h]))
  }

  /** A granted command shows up in the user's permission list. */
  lemma GrantThenListed(db: Store, u: User, t: string)
    requires HasId(u) && u.data.id.Int? && RightsReferenceCommands(db)
    requires Commands.CommandsConsistent(db)
    ensures var db' := Grant(db, u, [t]).value;
      ListPermissions(db', u).Ok? && Commands.New(t) in ListPermissions(db', u).value
  {
    var db' := Grant(db, u, [t]).value;
    GrantKeepsReferences(db, u, [t]);
    assert (u.data.id.i, Sha1(t)) in db'.rights;
    assert db'.commands[Sha1(t)] == t;
  }
}
