/**
 * The persistent store behind the module: the four tables `rmsUsers`,
 * `rmsRights`, `rmsCommands` and `rmsMeta`, and the handful of queries the
 * PHP code runs against them.
 */
module Storage {
  import opened Outcomes
  import opened Values
  import opened Digests
  import Ordering

  datatype Store = Store(
    users: map<int, Row>,                 // rmsUsers, keyed by id
    rights: set<(int, Hash)>,             // rmsRights (userId, commandHash)
    commands: map<Hash, string>,          // rmsCommands hash => command
    meta: map<(int, string), Json>,       // rmsMeta (userId, prop) => data
    autoIncrement: int)                   // the AUTO_INCREMENT counter of rmsUsers

  /** `SELECT * FROM rmsUsers WHERE id = ?` on an existing id: the key is the id column. */
  function RowAt(db: Store, id: int): (row: Row)
    requires id in db.users
    ensures row.id == Int(id)
    ensures forall f :: f != Id ==> row.Get(f) == db.users[id].Get(f)
  {
    db.users[id].With(Id, Int(id))
  }

  /** `removed = 0`: the row is not soft-removed. */
  predicate IsActive(row: Row) {
    row.removed == Int(0)
  }

  /** Ids of the rows matching `removed = 0 AND <f> = v`. */
  function ActiveIdsWhere(db: Store, f: Field, v: Value): set<int> {
    set id | id in db.users && IsActive(RowAt(db, id)) && RowAt(db, id).Get(f) == v
  }

  /**
   * `SELECT * ... WHERE removed = 0 AND <f> = ? LIMIT 1`. The query names no
   * order; the model returns the matching row with the least id.
   */
  function SelectActive(db: Store, f: Field, v: Value): (r: Option<int>)
    ensures r.Some? ==> r.value in db.users && IsActive(RowAt(db, r.value)) && RowAt(db, r.value).Get(f) == v
    ensures r.Some? ==> forall id :: id in ActiveIdsWhere(db, f, v) ==> r.value <= id
    ensures r.None? ==> forall id :: id in db.users && IsActive(RowAt(db, id)) ==> RowAt(db, id).Get(f) != v
  {
    var ids := ActiveIdsWhere(db, f, v);
    if ids == {} then
      assert forall id :: id in db.users && IsActive(RowAt(db, id)) && RowAt(db, id).Get(f) == v ==> id in ids;
      None
    else Some(Ordering.Min(ids))
  }

  /** `UPDATE rmsUsers SET <the columns fs, taken from data> WHERE id = ? LIMIT 1`. */
  function Update(db: Store, id: int, data: Row, fs: set<Field>): (db': Store)
    ensures db'.users.Keys == db.users.Keys
    ensures id in db.users ==> forall f :: db'.users[id].Get(f) == if f in fs then data.Get(f) else db.users[id].Get(f)
    ensures forall k :: k in db.users && k != id ==> db'.users[k] == db.users[k]
    ensures db'.rights == db.rights && db'.commands == db.commands && db'.meta == db.meta
  {
    if id in db.users then db.(users := db.users[id := Overlay(db.users[id], data, fs)]) else db
  }

  /** The value the table gives a column an INSERT leaves out. */
  function ColumnDefault(f: Field): (v: Value)
    ensures v == Null || f == Removed || f == CanLogin
  {
    if f == Removed then Int(0) else if f == CanLogin then Int(1) else Null
  }

  /** The row an INSERT of the non-null columns of `data` stores. */
  function WithDefaults(data: Row): (row: Row)
    ensures forall f :: row.Get(f) == if data.Get(f) != Null then data.Get(f) else ColumnDefault(f)
  {
    var pick := (f: Field) => if data.Get(f) != Null then data.Get(f) else ColumnDefault(f);
    Row(pick(Id), pick(Username), pick(Password), pick(Lang), pick(Removed),
        pick(CanLogin), pick(Created), pick(Modified), pick(LastLogin), pick(LastLoginFrom))
  }

  /** The id AUTO_INCREMENT hands out next: unused, positive, not below the counter. */
  function NextAutoId(db: Store): (id: int)
    ensures id >= 1 && id >= db.autoIncrement && id !in db.users
  {
    var above := Ordering.Above(db.users.Keys);
    if above < db.autoIncrement then db.autoIncrement else above
  }

  /** An explicit id column value the INSERT cannot store. */
  predicate RejectedId(db: Store, v: Value) {
    v != Null && v != Int(0) && (!v.Int? || v.i in db.users)
  }

  /**
   * `INSERT INTO rmsUsers (<non-null columns>) VALUES (...)`, returning the
   * insert id. A null or zero id asks AUTO_INCREMENT for one; any other id is
   * stored as given, and a duplicate or non-integer id is rejected.
   */
  function Insert(db: Store, data: Row): (r: Result<(Store, int)>)
    ensures r.Err? <==> RejectedId(db, data.id)
    ensures r.Ok? ==> var (db', id) := r.value;
      && id != 0 && id !in db.users
      && (data.id.Int? && data.id.i != 0 ==> id == data.id.i)
      && db'.users == db.users[id := WithDefaults(data)]
      && db'.rights == db.rights && db'.commands == db.commands && db'.meta == db.meta
  {
    if RejectedId(db, data.id) then Err(StorageFailure)
    else
      var id := if data.id.Int? && data.id.i != 0 then data.id.i else NextAutoId(db);
      var counter := if id + 1 > db.autoIncrement then id + 1 else db.autoIncrement;
      Ok((db.(users := db.users[id := WithDefaults(data)], autoIncrement := counter), id))
  }

  /** `DELETE FROM rmsUsers WHERE id = ? LIMIT 1`. */
  function Delete(db: Store, id: int): (db': Store)
    ensures db'.users.Keys == db.users.Keys - {id}
    ensures forall k :: k in db'.users ==> db'.users[k] == db.users[k]
    ensures db'.rights == db.rights && db'.commands == db.commands && db'.meta == db.meta
  {
    db.(users := db.users - {id})
  }

  /** Every rights row names a command present in `rmsCommands` (the foreign key). */
  predicate RightsReferenceCommands(db: Store) {
    forall p :: p in db.rights ==> p.1 in db.commands
  }
}
