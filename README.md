# Aleph entity persistence and document references, in Dafny

This project models the data-access core of Aleph, a platform for investigating documents and entities. Two tables make up that core.

- **The entity table** (`aleph/model/entity.py`). Typed entities belong to a collection. Their ids are signed into the collection's namespace. Their checksum-typed properties can never be set by a user. They are soft-deleted by stamping `deleted_at` rather than removed. The table is the class `Entities.EntityStore`, holding a map from primary key to an `Entity` record. `create`, `update`, `undelete` and `delete_by_collection` are its methods. `by_id` and `by_collection` are functions over the map.
- **The reference table** (`aleph/model/reference.py`). Each row is an `(id, document_id, entity_id, weight)` link. Rows are deleted in bulk by document, and by the delete-orphan cascades from entities and documents. The table is the class `References.ReferenceTable`, holding a sequence of rows.

The followthemoney library is kept abstract in module `Ftm`:

- a schema is a map from property name to type, where only the checksum type matters, plus a conformance predicate;
- the registry resolves schema names, checks entity-id format and cleans raw values;
- a collection's namespace provides `sign` and `apply`, both as uninterpreted function values.

Clocks and id generation are parameters: `now` is the value of `datetime.utcnow()` and `generatedId` the value of `make_textid()`.

Files: `wrappers.dfy` (Option, Result), `ftm.dfy` (the library abstraction), `entity.dfy` (module `Entities`), `reference.dfy` (module `References`).

How `update` is modelled: `Entities.ApplyUpdate` takes an entity record and returns the new record, assigning fields in the source's order. `Entities.RestoreChecksums` is the checksum-protection loop over the schema's properties. `Entities.EntityStore.Update` writes the result back under the re-signed key. The ghost predicate `Entities.Updated` states what a successful update makes of an entity:

- the id is signed again;
- the schema is the proxy's;
- every checksum property of that schema keeps its previous values;
- every other property comes from the namespaced proxy;
- the owner fields are kept;
- `updatedAt` is set to now and `deletedAt` is cleared.

Modelling choices that follow the code:

- `data.get('id') or make_textid()` also falls back to the generated id when the caller's id is the empty string (Python falsiness). The format check applies to the generated id too, not only to caller-supplied ids.
- `create` signs the id and `update` signs it again, so a created entity's id is `sign(sign(candidate))`. It equals `sign(candidate)` only when `sign` is idempotent. The namespace service is described as idempotent, but that is not something the model can prove about an abstract function, so `Create` states the equality under that hypothesis (`Ftm.Idempotent`).
- `self.schema` is assigned (entity.py:48) before `to_proxy()` is taken (entity.py:49). So the previous values are read under the new schema. Checksum properties are properties of that schema, so they get their stored values.
- `proxy.set(prop, [])` leaves the property unset. Throughout, an absent property and one with no values are the same (`Ftm.Get`).
- When the new or re-signed primary key already belongs to another row, the store's primary-key constraint fails at flush. This is modelled as `Err(DuplicateKey)` with the table unchanged. On every error path the table is unchanged: validation fails before any field is assigned, and a failed `create` never adds its row.
- `Reference.entity_id` is declared as an integer column although `Entity.id` is a string. The model types `entityId` as the entity's string id.

## Model

| member | source | states |
|---|---|---|
| `Entities.CandidateId` | aleph/model/entity.py:75 | the candidate id is the caller's id when present and non-empty, otherwise the generated one |
| `Entities.Blank` | aleph/model/entity.py:74-80 | the entity `create` hands to `update` carries the signed id, the collection and the role, and has no property values |
| `Entities.Rejection` | aleph/model/entity.py:39-45 | `update` fails with UnknownSchema exactly when the schema name is not in the registry; it fails with SchemaInvalid exactly when validation is requested and the data does not conform; otherwise it proceeds (with `validate = false` the check is skipped) |
| `Ftm.ProxyProperties` | aleph/model/entity.py:39 | the proxy built from raw data holds, for each schema property, the cleaned raw values, and nothing for names outside the schema |
| `Ftm.StoredProxyProperties` | aleph/model/entity.py:61-70 | the proxy rebuilt from stored data (`to_proxy`) gives every schema property exactly its stored values |
| `Ftm.Set` | aleph/model/entity.py:55 | after `proxy.set(p, vs)`, property `p` has exactly `vs` and every other property is unchanged |
| `Entities.RestoreChecksums` | aleph/model/entity.py:50-55 | after the loop, every checksum property of the schema holds exactly the previous values, whatever the proxy held; every other property holds the proxy's values |
| `Entities.ApplyUpdate` | aleph/model/entity.py:38-59 | fails with the rejection and no result when the schema is unknown or validation fails. Otherwise returns the entity with: id re-signed; schema set to the proxy's schema name; checksum properties as before the update; other properties from the namespaced proxy; role and collection kept; `updatedAt = now`; `deletedAt` cleared |
| `Entities.ById` | aleph/model/entity.py:84-90 | returns a row exactly when one has that id, belongs to the given collection (if one is given), and is not soft-deleted unless `deleted` is true; the row returned is that row and carries that id |
| `Entities.ByCollection` | aleph/model/entity.py:92-97 | lists exactly the rows of that collection whose `deletedAt` is unset, each as stored |
| `Entities.SoftDeleted` | aleph/model/entity.py:99-105 | the bulk delete keeps every key and changes only `deletedAt`. It sets it to `t` on exactly the live rows of the collection. Already-deleted rows keep their old timestamp, and rows of other collections are unchanged |
| `Entities.ByCollectionMatchesById` | aleph/model/entity.py:84-97 | an id is listed by `by_collection(c)` exactly when `by_id` finds it live in collection `c` |
| `Entities.SoftDeleteHidesCollection` | aleph/model/entity.py:99-105 | after the bulk delete, a row of the collection is not found by a default `by_id`; with `deleted = true` it is found, with `deletedAt = t` if it was live and its old timestamp otherwise |
| `Entities.SoftDeleteEmptiesCollection` | aleph/model/entity.py:92-105 | after the bulk delete, `by_collection` lists nothing for that collection |
| `Entities.SoftDeleteSparesOtherCollections` | aleph/model/entity.py:99-105 | the bulk delete leaves the listing of every other collection unchanged |
| `Entities.SoftDeleteIdempotent` | aleph/model/entity.py:99-105 | repeating the bulk delete at any later time changes nothing; rows already deleted keep their first timestamp |
| `Entities.ChecksumsSurviveUpdates` | aleph/model/entity.py:49-55 | through any chain of successful updates whose schemas declare `p` a checksum property, `p` keeps the values of the first version |
| `Entities.ChecksumsNeverSet` | aleph/model/entity.py:72-82 | starting from the entity `create` builds, no such chain of updates ever gives a checksum property a value |
| `Entities.EntityStore.Create` | aleph/model/entity.py:72-82 | with an invalid candidate id, fails with InvalidEntityId and adds nothing. Otherwise it fails as `update` would, or with DuplicateKey when the key is taken. On success it adds exactly one row, under `sign(sign(candidate))`: `collectionId` is the collection's, `roleId` is the given role, checksum properties are unset, and the row is the updated blank entity. The id equals `sign(candidate)` when signing is idempotent |
| `Entities.EntityStore.Update` | aleph/model/entity.py:38-59 | on success the row moves to its re-signed key as the updated entity, is visible to a default `by_id` (an update undeletes), and every other row is unchanged; on any failure the table is unchanged |
| `Entities.EntityStore.Undelete` | aleph/model/entity.py:34-36 | clears `deletedAt` of that row only, leaving its `updatedAt`, data, schema and every other row unchanged; the row is visible again |
| `Entities.EntityStore.DeleteByCollection` | aleph/model/entity.py:99-105 | the new table is the bulk soft-delete of the old one, and the collection lists nothing afterwards |
| `References.Drop` | aleph/model/reference.py:23-26 | the surviving rows are rows of the old table, none of them a removed one, and the table does not grow |
| `References.DropKeepsOthers` | aleph/model/reference.py:23-26 | every row that is not removed survives unchanged, as many times as it occurred |
| `References.DropCount` | aleph/model/reference.py:23-26 | the table shrinks by exactly the number of removed rows |
| `References.DropNothingDoomed` | aleph/model/reference.py:23-26 | removing from a table with no matching rows changes nothing |
| `References.DeleteDocumentExact` | aleph/model/reference.py:23-26 | after deleting document `d`'s references, none with `documentId = d` remains. Every other row is kept unchanged (entity and weight included) with its multiplicity. The count drops by the number of `d`'s rows, and a second deletion removes nothing |
| `References.RemoveEntityExact` | aleph/model/reference.py:18-19 | removing an entity's references leaves none with that `entityId` and keeps every other row unchanged, with its multiplicity |
| `References.ReferenceTable.DeleteDocument` | aleph/model/reference.py:23-26 | the table afterwards holds no reference of document `d` and every other reference as often as before; its size drops by the number of `d`'s references |
| `References.ReferenceTable.RemoveEntity` | aleph/model/reference.py:18-19 | the delete-orphan cascade from an entity removes exactly that entity's references |
| `References.ReferenceTable.RemoveDocument` | aleph/model/reference.py:20-21 | the delete-orphan cascade from a document removes exactly that document's references, the same rows as `delete_document` |

## Left out

- The SQLAlchemy session: `db.session.add`, commit and flush timing, JSONB storage. Each method applies its change to the table at once, and failures leave the table as it was (a rolled-back transaction).
- `yield_per(5000)` batching in `by_collection`: it only bounds memory. `ByCollection` returns the whole result.
- `synchronize_session=False` in `delete_by_collection` and `'fetch'` in `delete_document`: these only concern staleness of objects cached in a session, which is not modelled.
- followthemoney internals: how proxies are built and cleaned, how `ns.sign` and `ns.apply` work, and how `registry.entity.validate` and `schema.validate` decide. They are abstract function values. `ns.apply` is seen only through what it does to the properties; the proxy's own id and schema are not rewritten by it.
- Idempotence of `ns.sign`: it cannot be proved of an abstract function. It is a hypothesis where used.
- `make_textid()` and `datetime.utcnow()`: they become the parameters `generatedId` and `now`.
- `created_at` and the `DatedModel` defaults: not modelled. `to_proxy` is modelled only through the properties it carries, which is all `update` reads from it.
- The `model` property (entity.py:30-32): a plain schema lookup, covered by the registry's `schemata` map.
- Column lengths (`ENTITY_ID_LEN`, `String(255)`) and foreign-key checks on `collection_id` and `role_id`: not modelled.
- `__repr__`, logging and `gettext` messages: not modelled.
- Concurrency between transactions: not modelled.
- Entities.ApplyUpdate: states the new `data` property by property, with an absent property the same as one with no values, rather than as an exact dictionary.
