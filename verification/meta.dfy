/**
 * A user's meta data: a read-through cache of `rmsMeta` rows for one user,
 * addressed like array elements (`$user->meta['name']`).
 *
 * The owner is passed as the id value of the user the cache belongs to. A
 * truthy id that is not an integer (only `loadFromArray` can produce one)
 * addresses no row: reads find nothing and writes leave the table alone.
 */
module Metas {
  import opened Outcomes
  import opened Values
  import opened Storage
  import Ordering

  /** The `$meta` array of one Meta instance: every property read or written so far. */
  datatype Cache = Cache(values: map<string, Json>)

  /** The cache of a freshly created Meta instance. */
  const Empty := Cache(map[])

  /** The value of `(owner, prop)` in `rmsMeta`, or null when there is no such row. */
  function Stored(db: Store, owner: Value, prop: string): Json {
    match IdKey(owner)
    case Some(k) => if (k, prop) in db.meta then db.meta[(k, prop)] else JNull
    case None => JNull
  }

  /** A read's result together with the cache after it. */
  datatype Read = Read(cache: Cache, value: Json)

  /** A write's effect on the table and on the cache. */
  datatype Write = Write(db: Store, cache: Cache)

  /**
   * `getMeta($prop)`. Without a user id: null, and nothing is read or cached.
   * Otherwise a cached entry wins; on the first read of a property the stored
   * value (null on a miss) is cached and returned.
   */
  function GetMeta(db: Store, owner: Value, c: Cache, prop: string): (r: Read)
    ensures !Truthy(owner) ==> r == Read(c, JNull)
    ensures Truthy(owner) ==> prop in r.cache.values && r.value == r.cache.values[prop]
    ensures Truthy(owner) && prop in c.values ==> r == Read(c, c.values[prop])
    ensures Truthy(owner) && prop !in c.values ==> r.value == Stored(db, owner, prop)
    ensures forall p :: p in c.values ==> p in r.cache.values && r.cache.values[p] == c.values[p]
    ensures r.cache.values.Keys <= c.values.Keys + {prop}
  {
    if !Truthy(owner) then Read(c, JNull)
    else if prop in c.values then Read(c, c.values[prop])
    else
      var v := Stored(db, owner, prop);
      Read(Cache(c.values[prop := v]), v)
  }

  /** Without an id, or once cached, a read does not depend on the table. */
  lemma GetMetaIgnoresStore(db1: Store, db2: Store, owner: Value, c: Cache, prop: string)
    requires !Truthy(owner) || prop in c.values
    ensures GetMeta(db1, owner, c, prop) == GetMeta(db2, owner, c, prop)
  {
  }

  /**
   * A second read returns what the first returned and leaves the cache as it
   * is, whatever the table holds by then.
   */
  lemma GetMetaTwice(db1: Store, db2: Store, owner: Value, c: Cache, prop: string)
    ensures var first := GetMeta(db1, owner, c, prop);
      GetMeta(db2, owner, first.cache, prop) == first
  {
  }

  /**
   * `deleteMeta($prop)`: fails without a user id; otherwise deletes the row
   * and caches null for the property.
   */
  function DeleteMeta(db: Store, owner: Value, c: Cache, prop: string): (r: Result<Write>)
    ensures r.Ok? <==> Truthy(owner)
    ensures r.Err? ==> r.error == NotLoaded
    ensures r.Ok? ==> r.value.cache == Cache(c.values[prop := JNull])
    ensures r.Ok? ==> Stored(r.value.db, owner, prop) == JNull
    ensures r.Ok? ==> forall k, p :: (k, p) in r.value.db.meta <==> (k, p) in db.meta && (Some(k) != IdKey(owner) || p != prop)
    ensures r.Ok? ==> forall key :: key in r.value.db.meta ==> key in db.meta && r.value.db.meta[key] == db.meta[key]
    ensures r.Ok? ==> r.value.db == db.(meta := r.value.db.meta)
  {
    if !Truthy(owner) then Err(NotLoaded)
    else
      var meta := match IdKey(owner) case Some(k) => db.meta - {(k, prop)} case None => db.meta;
      Ok(Write(db.(meta := meta), Cache(c.values[prop := JNull])))
  }

  /**
   * `setMeta($prop, $data)`: fails without a user id; a null value deletes;
   * any other value is upserted and cached.
   */
  function SetMeta(db: Store, owner: Value, c: Cache, prop: string, v: Json): (r: Result<Write>)
    ensures r.Ok? <==> Truthy(owner)
    ensures r.Err? ==> r.error == NotLoaded
    ensures v == JNull ==> r == DeleteMeta(db, owner, c, prop)
    ensures r.Ok? && v != JNull ==> r.value.cache == Cache(c.values[prop := v])
    ensures r.Ok? && v != JNull && IdKey(owner).Some? ==> r.value.db.meta == db.meta[(IdKey(owner).value, prop) := v]
    ensures r.Ok? ==> r.value.db == db.(meta := r.value.db.meta)
  {
    if !Truthy(owner) then Err(NotLoaded)
    else if v == JNull then DeleteMeta(db, owner, c, prop)
    else
      var meta := match IdKey(owner) case Some(k) => db.meta[(k, prop) := v] case None => db.meta;
      Ok(Write(db.(meta := meta), Cache(c.values[prop := v])))
  }

  /** After a successful set, a get of the same property returns the value set. */
  lemma SetThenGet(db: Store, owner: Value, c: Cache, prop: string, v: Json, db2: Store)
    requires SetMeta(db, owner, c, prop, v).Ok?
    ensures var w := SetMeta(db, owner, c, prop, v).value;
      GetMeta(db2, owner, w.cache, prop).value == v
  {
  }

  /** After a set, a fresh cache reading the table sees the value too. */
  lemma SetThenReload(db: Store, owner: Value, c: Cache, prop: string, v: Json)
    requires SetMeta(db, owner, c, prop, v).Ok? && IdKey(owner).Some?
    ensures GetMeta(SetMeta(db, owner, c, prop, v).value.db, owner, Empty, prop).value == v
  {
  }

  /** `offsetExists($prop)`: the property reads as non-null. */
  function OffsetExists(db: Store, owner: Value, c: Cache, prop: string): (r: (Cache, bool))
    ensures r.0 == GetMeta(db, owner, c, prop).cache
    ensures r.1 <==> GetMeta(db, owner, c, prop).value != JNull
  {
    var read := GetMeta(db, owner, c, prop);
    (read.cache, read.value != JNull)
  }

  /** `offsetGet($prop)`. */
  function OffsetGet(db: Store, owner: Value, c: Cache, prop: string): (r: Read)
    ensures r == GetMeta(db, owner, c, prop)
  {
    GetMeta(db, owner, c, prop)
  }

  /** `offsetSet($prop, $value)`. */
  function OffsetSet(db: Store, owner: Value, c: Cache, prop: string, v: Json): (r: Result<Write>)
    ensures r == SetMeta(db, owner, c, prop, v)
  {
    SetMeta(db, owner, c, prop, v)
  }

  /** `offsetUnset($prop)`. */
  function OffsetUnset(db: Store, owner: Value, c: Cache, prop: string): (r: Result<Write>)
    ensures r == DeleteMeta(db, owner, c, prop)
  {
    DeleteMeta(db, owner, c, prop)
  }

  /** After `unset($meta[$prop])` the property no longer exists, in this cache or a fresh one. */
  lemma UnsetThenNotExists(db: Store, owner: Value, c: Cache, prop: string, db2: Store)
    requires OffsetUnset(db, owner, c, prop).Ok?
    ensures var w := OffsetUnset(db, owner, c, prop).value;
      !OffsetExists(db2, owner, w.cache, prop).1 && !OffsetExists(w.db, owner, Empty, prop).1
  {
  }

  /** Owners whose `prop` row holds exactly `v`, in ascending id order. */
  function MatchingOwners(db: Store, prop: string, v: Json): (ids: seq<int>)
    ensures forall i, j :: 0 <= i < j < |ids| ==> ids[i] < ids[j]
    ensures forall k :: k in ids <==> (k, prop) in db.meta && db.meta[(k, prop)] == v
  {
    Ordering.Sorted(set key | key in db.meta && key.1 == prop && db.meta[key] == v :: key.0)
  }

  /**
   * The ids `search($key, $value, $limit)` hands to `getUser`: the owners of
   * rows whose property is `key` and whose data is `value`, at most `limit`
   * of them when a limit is given. A negative limit is an SQL error.
   */
  function SearchIds(db: Store, key: string, v: Json, limit: Option<int>): (r: Result<seq<int>>)
    ensures r.Err? <==> limit.Some? && limit.value < 0
    ensures r.Ok? ==> forall k :: k in r.value ==> (k, key) in db.meta && db.meta[(k, key)] == v
    ensures r.Ok? ==> forall i, j :: 0 <= i < j < |r.value| ==> r.value[i] < r.value[j]
    ensures r.Ok? && limit.None? ==> forall k :: (k, key) in db.meta && db.meta[(k, key)] == v ==> k in r.value
    ensures r.Ok? && limit.Some? ==> |r.value| <= limit.value
    ensures r.Ok? ==> r.value <= MatchingOwners(db, key, v)
    ensures r.Ok? ==> |r.value| == |MatchingOwners(db, key, v)| || (limit.Some? && |r.value| == limit.value)
  {
    var ids := MatchingOwners(db, key, v);
    match limit
    case None => Ok(ids)
    case Some(n) =>
      if n < 0 then Err(StorageFailure)
      else if n < |ids| then Ok(ids[..n]) else Ok(ids)
  }
}
