# lego-collector collection handlers, modelled in Dafny

This project models the Convex backend of a LEGO collection tracker: the
query and mutation handlers of `convex/collection.js` and the record shapes
of `convex/schema.ts`. Each handler is a pure transition. It takes the
caller's context (an optional identity and the clock reading), its
arguments and the document store. It returns an outcome (a returned value or
a thrown error) and the next store.

- `Schema` (schema.dfy): one datatype per table the schema declares
  (`User`, `Collection`, `LegoSet`, `CollectionSetQuantity`, the `Condition`
  enum). It also has `SetRow`, the different shape that `addSetToDB` writes
  into `legoCollection`.
- `Database` (database.dfy): the `Store`, with one finite map per table
  (`users`, `collections`, `legoSets`, `collectionSetQuantity`,
  `legoCollection`, `sets`) and an id allocator. `Valid` says ids are unique
  (no id is a key of two tables) and never reused (every id and every
  reference was issued before the allocator). `DeleteEach` is the cascade's
  delete loop.
- `CollectionHandlers` (collection.dfy): `Get`, `AddSetToDB`,
  `AddCollection`, `DeleteCollection`, `GetUserCollections`,
  `GetCollectionById` and `GetLegoSetsForCollection`. It also has
  `DeleteCollectionCorrected` (see Findings).
- `Api` (api.dfy): a `Request` per handler and `Step`, which runs one.
  `StepCorrected` is the same machine with the corrected cascade.
- `CollectionProperties` (properties.dfy) and `CascadeFinding`
  (finding.dfy): the properties, as lemmas.

A handler that throws always does so before it writes. The modelled store is
therefore unchanged on every error path. Convex would roll the writes back in
any case.

The handlers do not all report a foreign collection the same way.
`getCollectionById` and `getLegoSetsForCollection` report a missing and a
foreign collection alike, as "Collection not found". `deleteCollection`
reports a missing collection as "Collection not found" and a foreign one as
"You are not authorized to delete this collection". `DeleteCollectionErrors`
and `ForeignCallerIsTurnedAway` state both behaviours.

## Model

| member | source | states |
|---|---|---|
| Schema.ParseCondition | convex/schema.ts:39 | a condition validates exactly when it is the literal "new" or "used", and the result names that literal |
| Schema.ConditionRoundTrip | convex/schema.ts:39 | validating the literal of either condition gives that condition back |
| Schema.AsLegoSet | convex/schema.ts:20-30 | an item row fits the `legoSets` shape exactly when its collection reference is present (mandatory there, nullable in the written row); all other fields carry over and the image URL becomes a present optional |
| Schema.AsSetRow | convex/schema.ts:25 | a `legoSets` row fits the written item shape exactly when its optional image URL is present |
| Schema.ShapesRoundTrip | convex/schema.ts:20-30 | on rows that fit both shapes, converting one way and back is the identity, in both directions |
| Database.FreshId | convex/collection.js:41-51 | on a valid store, the id an insert receives is a key of no table and is referred to by no row |
| Database.DeleteEach | convex/collection.js:108-110 | deleting the collected ids, each a key of the table, one at a time leaves the table minus exactly those ids with every other row untouched |
| Database.CascadeOver | convex/collection.js:103-110 | querying rows whose `collectionId` equals the id and then deleting each keeps exactly the rows that refer elsewhere or to nothing |
| CollectionProperties.NoIdentityIsRejected | convex/collection.js:7-162 | with no identity, every handler but `get` throws "Unauthorized", `get` returns that error as a value, and the store is unchanged |
| CollectionProperties.AuthorizationPrecedesStoreAccess | convex/collection.js:7-162 | with no identity the outcome is the same for any two stores, so the identity is checked before the store is read |
| CollectionProperties.ForeignCallerIsTurnedAway | convex/collection.js:33-167 | a caller who does not own an existing collection gets "Collection not found" from both reads, "You are not authorized…" from delete and "Invalid collection" from addSetToDB, with the store unchanged |
| CollectionProperties.GetReturnsEveryRow | convex/collection.js:7-9 | with an identity, `get` returns every `legoCollection` row, whatever its owner, with no store change |
| CollectionProperties.GetIsNotOwnerScoped | convex/collection.js:9 | there is a valid, owner-consistent store on which `get` hands a caller a row owned by someone else |
| CollectionProperties.AddSetToDBSucceedsIff | convex/collection.js:27-53 | addSetToDB succeeds if and only if there is an identity and the named collection, if any, exists and is owned by the caller |
| CollectionProperties.AddSetToDBRejectsInvalidCollection | convex/collection.js:33-38 | a missing or foreign named collection throws "Invalid collection" and inserts nothing |
| CollectionProperties.AddSetToDBInsertsOneRow | convex/collection.js:41-53 | on success exactly one row is added to `legoCollection` under a fresh id, which is returned; the row is owned by the caller, has the given or a null collection reference and copies the other fields; old rows and all other tables are unchanged |
| CollectionProperties.AddSetToDBIgnoresOwnerArgument | convex/collection.js:15-25 | the `ownerId` argument has no effect on the outcome or the store |
| CollectionProperties.AddCollectionInsertsOne | convex/collection.js:67-75 | with an identity exactly one `collections` row is added under a fresh, returned id, with owner = subject, the given name and the call's timestamp; nothing else changes |
| CollectionProperties.DeleteCollectionErrors | convex/collection.js:86-100 | a missing collection throws "Collection not found" and a foreign one "You are not authorized…", neither changes the store, and delete succeeds exactly when the caller owns the collection |
| CollectionProperties.DeleteCollectionCascade | convex/collection.js:103-115 | on success the acknowledgement is returned; the collection and exactly the `sets` rows referring to it are removed; every other row of every table, including `legoCollection`, is unchanged |
| CollectionProperties.GetUserCollectionsExact | convex/collection.js:122-130 | the result holds exactly the collections whose owner is the caller, with their records unchanged, and the store is unchanged |
| CollectionProperties.GetCollectionByIdExact | convex/collection.js:140-150 | the record is returned exactly when the caller owns it; otherwise "Collection not found" |
| CollectionProperties.GetLegoSetsForCollectionExact | convex/collection.js:159-176 | for a collection the caller owns, the result holds exactly the `legoCollection` rows referring to it; otherwise "Collection not found" |
| CollectionProperties.QueriesLeaveStoreUnchanged | convex/collection.js:4-176 | no query changes the store |
| CollectionProperties.ReadsAreOwnerScoped | convex/collection.js:127-176 | when every item row shares its collection's owner, the three scoped queries return only records owned by the caller |
| CollectionProperties.AddCollectionThenRead | convex/collection.js:67-150 | a collection just added is returned by getCollectionById under the returned id, with the caller as owner, the given name and the call's time, and is listed by getUserCollections |
| CollectionProperties.AddSetThenRead | convex/collection.js:41-176 | after a set is added to a collection, getLegoSetsForCollection lists the collection's earlier rows plus the new row under the returned id, and nothing else |
| CollectionProperties.DeleteThenRead | convex/collection.js:92-176 | after a successful delete, getCollectionById and getLegoSetsForCollection throw "Collection not found", getUserCollections no longer lists it, and `get` returns the same rows as before |
| CollectionProperties.EmptyStoreInvariants | convex/schema.ts:4-45 | the store with no documents has unique ids and `legoCollection` rows owned by their collection's owner |
| CollectionProperties.RunPreservesInvariants | convex/collection.js:4-178 | any sequence of calls keeps ids unique and `legoCollection` rows owned by their collection's owner |
| CollectionProperties.ReachableReadsAreOwnerScoped | convex/collection.js:127-176 | on every store reachable from the empty store, the three scoped queries return only records owned by the caller |
| Database.InsertItemKeepsValid | convex/collection.js:41-51 | inserting an item row under the fresh id keeps ids unique, provided the row refers to nothing or to an issued id |
| Database.InsertCollectionKeepsValid | convex/collection.js:67-71 | inserting a collection under the fresh id keeps ids unique |
| Database.DeletingRowsKeepsValid | convex/collection.js:103-113 | deleting documents from any of the six tables, without touching the allocator, keeps ids unique and every reference issued |
| CollectionHandlers.MessagesIdentifyErrors | convex/collection.js:29-167 | the four thrown messages are the literals the handlers throw, and distinct errors carry distinct messages |
| CollectionProperties.StepPreservesValid | convex/collection.js:41-113 | every step keeps ids unique across tables and every id and every reference below the allocator, so ids are never reused |
| CollectionProperties.StepCorrectedPreservesValid | convex/collection.js:41-113 | the same holds for the machine with the corrected cascade |
| CollectionProperties.StepPreservesOwnership | convex/collection.js:33-51 | on a valid store, every step keeps `legoCollection` rows owned by the owner of the collection they refer to |
| CollectionProperties.StepCorrectedPreservesOwnership | convex/collection.js:33-51 | the same holds for the machine with the corrected cascade |
| CascadeFinding.DeleteCollectionLeavesItemRows | convex/collection.js:103-113 | as written, after a successful delete the collection is gone but all of its `legoCollection` rows remain, so any such row now refers to nothing |
| CascadeFinding.StepBreaksIntegrity | convex/collection.js:41-113 | as written, one step takes a valid store in which every item row refers to an existing collection to a store where one does not |
| CascadeFinding.CorrectedDeleteRemovesItemRows | convex/collection.js:103-113 | the corrected delete removes the collection and exactly its `legoCollection` rows, and changes no other table |
| CascadeFinding.StepCorrectedPreservesIntegrity | convex/collection.js:33-113 | with the corrected cascade every step keeps every item row's collection reference pointing at an existing collection |

## Findings

| source | as written | input that shows it | evidently intended | confidence | as-written member | corrected member |
|---|---|---|---|---|---|---|
| convex/collection.js:103-106 | the delete cascade queries the table `"sets"`, which no handler in collection.js as shown writes and the schema does not declare; item rows live in `"legoCollection"` (line 41) | addCollection("Star Wars"), then addSetToDB with that collection, then deleteCollection of it: the item row survives and refers to a deleted collection | the cascade deletes the collection's `legoCollection` rows | high (not executed) | CascadeFinding.StepBreaksIntegrity | CascadeFinding.StepCorrectedPreservesIntegrity |

`Api.Step` keeps the cascade as written. `Api.StepCorrected` runs
`CollectionHandlers.DeleteCollectionCorrected` instead and is otherwise the
same machine.

## Left out

- The quantity handlers (`getCollectionSetQuantities`, `removeSetFromCollection`, `getCollectionSetQuantity` and `updateCollectionQuantity`, which the user interface calls): they are not part of the modelled source. Their table and record shape are modelled.
- Id generation: ids are natural numbers drawn from a counter in the store. Convex's real id strings, and the table each id encodes, are not modelled.
- `Date.now()`: the timestamp comes from the caller's context as a natural number.
- Query order: `.collect()` returns an array ordered by creation time. The model returns the documents as a map from id to record, so order is not modelled.
- Documents' system fields (`_id`, `_creationTime`): ids are the map keys and creation times are not kept.
- Numbers: schema numbers are JavaScript floats. `num_parts`, `theme_id`, `year` and `quantity` are integers here, and `createdAt` is a natural number.
- `v.id("collections")` (collection.js:23, 83, 137, 156): ids are plain naturals, so nothing stops an id of another table from reaching a handler. The model treats such an id as a missing collection: "Invalid collection" from addSetToDB, "Collection not found" from the other three. Convex's validator would reject the call before the handler runs. The other validators (`v.string()`, `v.number()`) are enforced by the argument datatypes.
- The `sets` table is declared nowhere. Its rows are given the item shape that addSetToDB writes, since the cascade reads only their `collectionId`.
- `console.log` and the identity's fields other than `subject`.
- `get` without an identity returns a `ConvexError` instance rather than throwing it (collection.js:8). The model returns it as an error value; what the caller then observes (Convex may refuse to serialize it, failing the query) is not modelled.
- The React components and network fetchers: these are presentation and I/O.
- Atomicity and concurrency: each handler is one sequential transition. A partial failure midway through the cascade is not modelled.
