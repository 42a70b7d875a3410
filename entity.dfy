/** The entity table of the investigation platform: typed entities bound to a
    collection, whose ids are signed into the collection's namespace, whose
    checksum properties users can never set, and which are soft-deleted by
    stamping `deletedAt` rather than removed. */
module Entities {
  import opened Wrappers
  import opened Ftm

  /** One row of the entity table. `deletedAt` is set on a soft-deleted row. */
  datatype Entity = Entity(
    id: string,
    schema: string,
    data: Properties,
    roleId: Option<int>,
    collectionId: int,
    updatedAt: int,
    deletedAt: Option<int>)

  /** The owning collection: its id and its namespace. */
  datatype Collection = Collection(id: int, ns: Namespace)

  /** The raw data a caller supplies: an optional id, a schema name and the
      properties. */
  datatype RawEntity = RawEntity(id: Option<string>, schema: string, properties: Properties)

  /** Why `create` or `update` fails: the candidate id is malformed, the schema
      name is unknown, the data does not validate against the schema, or the
      new primary key is already taken in the table. */
  datatype Error = InvalidEntityId | UnknownSchema | SchemaInvalid | DuplicateKey

  /** The entity table, keyed by primary key. */
  type Table = map<string, Entity>

  /** Every row is stored under its own id. */
  ghost predicate Keyed(rows: Table)
  {
    forall k | k in rows :: rows[k].id == k
  }

  /** The soft-delete query filter: deleted rows only when asked for. */
  predicate Shown(e: Entity, deleted: bool)
  {
    deleted || e.deletedAt.None?
  }

  /** The id `create` starts from: the caller's id unless it is missing or
      empty, otherwise a freshly generated one. */
  function CandidateId(raw: RawEntity, generated: string): (id: string)
    ensures raw.id.Some? && raw.id.value != "" ==> id == raw.id.value
    ensures raw.id.None? || raw.id.value == "" ==> id == generated
  {
    if raw.id.Some? && raw.id.value != "" then raw.id.value else generated
  }

  /** The entity `create` builds before handing it to `update`: signed id,
      owner fields, and as yet no schema and no data. */
  function Blank(id: string, collectionId: int, roleId: Option<int>): (e: Entity)
    ensures e.id == id && e.collectionId == collectionId && e.roleId == roleId
    ensures forall p :: Get(e.data, p) == []
  {
    Entity(id, "", map[], roleId, collectionId, 0, None)
  }

  /** Why `update` refuses raw data, if it does: the schema name is unknown, or
      validation was requested and the data does not conform. */
  function Rejection(reg: Registry, raw: RawEntity, validate: bool): (r: Option<Error>)
    ensures r == Some(UnknownSchema) <==> raw.schema !in reg.schemata
    ensures r == Some(SchemaInvalid) <==>
              raw.schema in reg.schemata && validate && !reg.schemata[raw.schema].conforms(raw.properties)
    ensures r == None <==>
              raw.schema in reg.schemata && (!validate || reg.schemata[raw.schema].conforms(raw.properties))
  {
    if raw.schema !in reg.schemata then Some(UnknownSchema)
    else if validate && !reg.schemata[raw.schema].conforms(raw.properties) then Some(SchemaInvalid)
    else None
  }

  /** `after` is what a successful `update` makes of `before`: the id signed
      again, the schema taken from the proxy, every checksum property of that
      schema as `before` had it, every other property from the namespaced
      proxy, the owner fields kept, `updatedAt` stamped and the row undeleted. */
  ghost predicate Updated(before: Entity, after: Entity, raw: RawEntity, coll: Collection, reg: Registry, now: int)
  {
    raw.schema in reg.schemata &&
    var s := reg.schemata[raw.schema];
    var supplied := coll.ns.apply(ProxyProperties(reg, s, raw.properties));
    after.id == coll.ns.sign(before.id) &&
    after.schema == s.name &&
    (forall p :: Get(after.data, p) == if IsChecksum(s, p) then Get(before.data, p) else Get(supplied, p)) &&
    after.roleId == before.roleId &&
    after.collectionId == before.collectionId &&
    after.updatedAt == now &&
    after.deletedAt == None
  }

  /** The checksum protection of `update`: walks the schema's properties and
      overwrites each checksum property of the new proxy with the previous
      values, so only the previous values survive. */
  method RestoreChecksums(s: Schema, proxy: Properties, previous: Properties) returns (props: Properties)
    ensures forall p :: Get(props, p) == if IsChecksum(s, p) then Get(previous, p) else Get(proxy, p)
  {
    props := proxy;
    var todo := s.properties.Keys;
    while todo != {}
      invariant todo <= s.properties.Keys
      invariant forall p :: Get(props, p) ==
                  if IsChecksum(s, p) && p !in todo then Get(previous, p) else Get(proxy, p)
      decreases todo
    {
      var p :| p in todo;
      if s.properties[p] == Checksum {
        props := Set(props, p, Get(previous, p));
      }
      todo := todo - {p};
    }
  }

  /** `Entity.update` applied to entity `e`: fails before changing anything
      when the schema is unknown or validation fails, otherwise returns the
      entity with its fields assigned in the source's order. */
  method ApplyUpdate(e: Entity, raw: RawEntity, coll: Collection, reg: Registry, validate: bool, now: int)
    returns (r: Result<Entity, Error>)
    ensures Rejection(reg, raw, validate).Some? ==> r == Err(Rejection(reg, raw, validate).value)
    ensures Rejection(reg, raw, validate).None? ==> r.Ok? && Updated(e, r.value, raw, coll, reg, now)
  {
    if raw.schema !in reg.schemata {
      return Err(UnknownSchema);
    }
    var s := reg.schemata[raw.schema];
    var proxy := ProxyProperties(reg, s, raw.properties);
    if validate && !s.conforms(raw.properties) {
      return Err(SchemaInvalid);
    }
    proxy := coll.ns.apply(proxy);
    var entity := e;
    entity := entity.(id := coll.ns.sign(entity.id));
    entity := entity.(schema := s.name);
    // to_proxy runs after the schema is replaced, so the previous values are
    // read under the new schema; checksum properties belong to it.
    var previous := StoredProxyProperties(s, entity.data);
    var data := RestoreChecksums(s, proxy, previous);
    entity := entity.(data := data);
    entity := entity.(updatedAt := now);
    entity := entity.(deletedAt := None);
    return Ok(entity);
  }

  /** `Entity.by_id`: the row with that id, if it belongs to the given
      collection (when one is given) and is not soft-deleted unless deleted
      rows are asked for. */
  function ById(rows: Table, id: string, collection: Option<int>, deleted: bool): (r: Option<Entity>)
    ensures r.Some? <==>
              id in rows && Shown(rows[id], deleted) &&
              (collection.Some? ==> rows[id].collectionId == collection.value)
    ensures r.Some? ==> r.value == rows[id]
    ensures Keyed(rows) && r.Some? ==> r.value.id == id
  {
    if id in rows && Shown(rows[id], deleted) &&
       (collection.None? || rows[id].collectionId == collection.value)
    then Some(rows[id])
    else None
  }

  /** `Entity.by_collection`: exactly the live rows of one collection. */
  function ByCollection(rows: Table, collectionId: int): (r: Table)
    ensures forall k :: k in r <==> k in rows && rows[k].collectionId == collectionId && rows[k].deletedAt.None?
    ensures forall k :: k in r ==> r[k] == rows[k]
  {
    map k | k in rows && rows[k].collectionId == collectionId && rows[k].deletedAt.None? :: rows[k]
  }

  /** The table after `Entity.delete_by_collection(c, t)`: only `deletedAt`
      changes, and only on the live rows of collection `c`, where it becomes
      `t`; rows already deleted keep their timestamp. */
  function SoftDeleted(rows: Table, c: int, t: int): (r: Table)
    ensures r.Keys == rows.Keys
    ensures forall k :: k in rows ==> r[k] == rows[k].(deletedAt := r[k].deletedAt)
    ensures forall k :: k in rows ==>
              r[k].deletedAt == if rows[k].collectionId == c && rows[k].deletedAt.None? then Some(t) else rows[k].deletedAt
  {
    map k | k in rows ::
      if rows[k].collectionId == c && rows[k].deletedAt.None? then rows[k].(deletedAt := Some(t)) else rows[k]
  }

  /** Both queries agree: an id is listed for a collection exactly when
      `by_id` finds it live in that collection. */
  lemma ByCollectionMatchesById(rows: Table, c: int, id: string)
    ensures id in ByCollection(rows, c) <==> ById(rows, id, Some(c), false).Some?
  {
  }

  /** After the bulk soft-delete, every row of the collection is hidden from
      default lookups and listings but still found when deleted rows are asked
      for, carrying `t` if it was live and its old timestamp otherwise. */
  lemma SoftDeleteHidesCollection(rows: Table, c: int, t: int, id: string)
    requires id in rows && rows[id].collectionId == c
    ensures ById(SoftDeleted(rows, c, t), id, None, false).None?
    ensures ById(SoftDeleted(rows, c, t), id, None, true).Some?
    ensures ById(SoftDeleted(rows, c, t), id, None, true).value.deletedAt ==
              if rows[id].deletedAt.None? then Some(t) else rows[id].deletedAt
  {
  }

  /** After the bulk soft-delete the collection lists no entity at all. */
  lemma SoftDeleteEmptiesCollection(rows: Table, c: int, t: int)
    ensures ByCollection(SoftDeleted(rows, c, t), c) == map[]
  {
  }

  /** The bulk soft-delete leaves the listing of every other collection as it
      was. */
  lemma SoftDeleteSparesOtherCollections(rows: Table, c: int, t: int, other: int)
    requires other != c
    ensures ByCollection(SoftDeleted(rows, c, t), other) == ByCollection(rows, other)
  {
  }

  /** Repeating the bulk soft-delete, at any later time, changes nothing. */
  lemma SoftDeleteIdempotent(rows: Table, c: int, t: int, t2: int)
    ensures SoftDeleted(SoftDeleted(rows, c, t), c, t2) == SoftDeleted(rows, c, t)
  {
  }

  /** Through any chain of successful updates whose schemas all declare `p` a
      checksum property, the values of `p` stay those of the first version. */
  lemma {:induction false} ChecksumsSurviveUpdates(
    history: seq<Entity>, raws: seq<RawEntity>, coll: Collection, reg: Registry, nows: seq<int>, p: string)
    requires |history| == |raws| + 1 && |nows| == |raws|
    requires forall i :: 0 <= i < |raws| ==> Updated(history[i], history[i + 1], raws[i], coll, reg, nows[i])
    requires forall i :: 0 <= i < |raws| ==>
               raws[i].schema in reg.schemata && IsChecksum(reg.schemata[raws[i].schema], p)
    ensures Get(history[|raws|].data, p) == Get(history[0].data, p)
  {
    if |raws| > 0 {
      var n := |raws| - 1;
      ChecksumsSurviveUpdates(history[..n + 1], raws[..n], coll, reg, nows[..n], p);
      assert Updated(history[n], history[n + 1], raws[n], coll, reg, nows[n]);
    }
  }

  /** A checksum property is never user-settable: starting from the blank
      entity of `create`, no chain of updates that keeps it a checksum
      property ever gives it a value. */
  lemma ChecksumsNeverSet(
    history: seq<Entity>, raws: seq<RawEntity>, coll: Collection, reg: Registry, nows: seq<int>, p: string)
    requires |history| == |raws| + 1 && |nows| == |raws|
    requires history[0] == Blank(history[0].id, history[0].collectionId, history[0].roleId)
    requires forall i :: 0 <= i < |raws| ==> Updated(history[i], history[i + 1], raws[i], coll, reg, nows[i])
    requires forall i :: 0 <= i < |raws| ==>
               raws[i].schema in reg.schemata && IsChecksum(reg.schemata[raws[i].schema], p)
    ensures Get(history[|raws|].data, p) == []
  {
    ChecksumsSurviveUpdates(history, raws, coll, reg, nows, p);
  }

  /** The entity table, with the operations of the `Entity` model class. */
  class EntityStore {
    var rows: Table

    ghost predicate Valid()
      reads this
    {
      Keyed(rows)
    }

    constructor ()
      ensures Valid() && rows == map[]
    {
      rows := map[];
    }

    /** `Entity.create`: checks the candidate id, signs it into the
        collection's namespace, sets the owner fields and runs `update`; the
        new row joins the table only if all of that succeeds and its key is
        free. */
    method Create(raw: RawEntity, coll: Collection, roleId: Option<int>, validate: bool,
                  reg: Registry, generatedId: string, now: int)
      returns (res: Result<string, Error>)
      requires Valid()
      modifies this
      ensures Valid()
      ensures res.Err? ==> rows == old(rows)
      ensures !reg.validEntityId(CandidateId(raw, generatedId)) ==> res == Err(InvalidEntityId)
      ensures reg.validEntityId(CandidateId(raw, generatedId)) && Rejection(reg, raw, validate).Some? ==>
                res == Err(Rejection(reg, raw, validate).value)
      ensures reg.validEntityId(CandidateId(raw, generatedId)) && Rejection(reg, raw, validate).None? ==>
                var key := coll.ns.sign(coll.ns.sign(CandidateId(raw, generatedId)));
                res == if key in old(rows) then Err(DuplicateKey) else Ok(key)
      ensures res.Ok? ==>
                res.value !in old(rows) && res.value in rows && rows == old(rows)[res.value := rows[res.value]] &&
                Updated(Blank(coll.ns.sign(CandidateId(raw, generatedId)), coll.id, roleId),
                        rows[res.value], raw, coll, reg, now)
      ensures res.Ok? ==>
                rows[res.value].collectionId == coll.id && rows[res.value].roleId == roleId &&
                forall p :: IsChecksum(reg.schemata[raw.schema], p) ==> Get(rows[res.value].data, p) == []
      ensures res.Ok? && Idempotent(coll.ns.sign) ==> res.value == coll.ns.sign(CandidateId(raw, generatedId))
    {
      var entityId := CandidateId(raw, generatedId);
      if !reg.validEntityId(entityId) {
        return Err(InvalidEntityId);
      }
      var entity := Blank(coll.ns.sign(entityId), coll.id, roleId);
      var updated := ApplyUpdate(entity, raw, coll, reg, validate, now);
      if updated.Err? {
        return Err(updated.error);
      }
      entity := updated.value;
      if entity.id in rows {
        return Err(DuplicateKey);
      }
      rows := rows[entity.id := entity];
      return Ok(entity.id);
    }

    /** `Entity.update` on the row stored under `key`: on success the row is
        replaced by its updated version under the re-signed id, and is live
        again; on failure nothing changes. */
    method Update(key: string, raw: RawEntity, coll: Collection, reg: Registry, validate: bool, now: int)
      returns (res: Result<string, Error>)
      requires Valid() && key in rows
      modifies this
      ensures Valid()
      ensures res.Err? ==> rows == old(rows)
      ensures Rejection(reg, raw, validate).Some? ==> res == Err(Rejection(reg, raw, validate).value)
      ensures Rejection(reg, raw, validate).None? ==>
                var newKey := coll.ns.sign(key);
                res == if newKey != key && newKey in old(rows) then Err(DuplicateKey) else Ok(newKey)
      ensures res.Ok? ==>
                rows.Keys == old(rows).Keys - {key} + {res.value} &&
                (forall k :: k in old(rows) && k != key ==> rows[k] == old(rows)[k]) &&
                Updated(old(rows)[key], rows[res.value], raw, coll, reg, now)
      ensures res.Ok? ==> ById(rows, res.value, None, false) == Some(rows[res.value])
    {
      var updated := ApplyUpdate(rows[key], raw, coll, reg, validate, now);
      if updated.Err? {
        return Err(updated.error);
      }
      var entity := updated.value;
      if entity.id != key && entity.id in rows {
        return Err(DuplicateKey);
      }
      rows := (rows - {key})[entity.id := entity];
      return Ok(entity.id);
    }

    /** `Entity.undelete`: clears `deletedAt` and nothing else, so the row is
        visible again with its old `updatedAt`, data and schema. */
    method Undelete(key: string)
      requires Valid() && key in rows
      modifies this
      ensures Valid()
      ensures rows == old(rows)[key := old(rows)[key].(deletedAt := None)]
      ensures ById(rows, key, None, false) == Some(rows[key])
    {
      rows := rows[key := rows[key].(deletedAt := None)];
    }

    /** `Entity.delete_by_collection`: one set-based update that stamps `t`
        on the live rows of collection `c`. */
    method DeleteByCollection(c: int, t: int)
      requires Valid()
      modifies this
      ensures Valid()
      ensures rows == SoftDeleted(old(rows), c, t)
      ensures ByCollection(rows, c) == map[]
    {
      rows := SoftDeleted(rows, c, t);
      SoftDeleteEmptiesCollection(old(rows), c, t);
    }
  }
}
