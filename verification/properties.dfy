/** What the handlers of convex/collection.js promise, stated over the store
    machine: the authorization gate, the effect of each mutation and the
    rows it leaves alone, the answer of each query, and the invariants every
    step keeps. */
module CollectionProperties {
  import opened Schema
  import opened Database
  import opened CollectionHandlers
  import Api

  /** Every `legoCollection` row that refers to an existing collection
      belongs to that collection's owner. */
  predicate OwnershipConsistent(s: Store)
  {
    forall k ::
      (k in s.legoCollection && s.legoCollection[k].collectionId.Some? &&
       s.legoCollection[k].collectionId.value in s.collections) ==>
        s.legoCollection[k].ownerId == s.collections[s.legoCollection[k].collectionId.value].ownerId
  }

  /** Every record a returned value carries is owned by `subject`. */
  predicate OwnedValue(v: Value, subject: string)
  {
    match v
    case Rows(rows) => forall k :: k in rows ==> rows[k].ownerId == subject
    case Collections(cs) => forall k :: k in cs ==> cs[k].ownerId == subject
    case CollectionDoc(_, c) => c.ownerId == subject
    case _ => true
  }

  // ---------------------------------------------------------------------
  // The authorization gate

  /** With no identity every handler but `get` throws "Unauthorized", `get`
      returns that error as a value, and nothing in the store changes. */
  lemma NoIdentityIsRejected(ctx: Ctx, req: Api.Request, s: Store)
    requires ctx.auth.None?
    ensures Api.Step(ctx, req, s).store == s
    ensures req.Get? ==> Api.Step(ctx, req, s).outcome == Returned(ErrorValue(Unauthorized))
    ensures !req.Get? ==> Api.Step(ctx, req, s).outcome == Threw(Unauthorized)
  {
  }

  /** The identity is checked before the store is read: without one, the
      outcome is the same whatever the store holds. */
  lemma AuthorizationPrecedesStoreAccess(ctx: Ctx, req: Api.Request, s1: Store, s2: Store)
    requires ctx.auth.None?
    ensures Api.Step(ctx, req, s1).outcome == Api.Step(ctx, req, s2).outcome
  {
  }

  /** A caller who does not own an existing collection is turned away by
      every handler that names it, and the store is left unchanged. */
  lemma ForeignCallerIsTurnedAway(ctx: Ctx, cid: Id, args: AddSetArgs, s: Store)
    requires ctx.auth.Some? && cid in s.collections
    requires s.collections[cid].ownerId != ctx.auth.value.subject
    requires args.collectionId == Some(cid)
    ensures Api.Step(ctx, Api.GetCollectionById(cid), s) == Throw(CollectionNotFound, s)
    ensures Api.Step(ctx, Api.GetLegoSetsForCollection(cid), s) == Throw(CollectionNotFound, s)
    ensures Api.Step(ctx, Api.DeleteCollection(cid), s) == Throw(NotAuthorizedToDelete, s)
    ensures Api.Step(ctx, Api.AddSetToDB(args), s) == Throw(InvalidCollection, s)
  {
  }

  // ---------------------------------------------------------------------
  // get

  /** With an identity, `get` returns every `legoCollection` row, whoever
      owns it, and changes nothing. */
  lemma GetReturnsEveryRow(ctx: Ctx, s: Store)
    requires ctx.auth.Some?
    ensures Api.Step(ctx, Api.Get, s).store == s
    ensures Api.Step(ctx, Api.Get, s).outcome.Returned? && Api.Step(ctx, Api.Get, s).outcome.value.Rows?
    ensures forall k :: k in s.legoCollection <==> k in Api.Step(ctx, Api.Get, s).outcome.value.rows
    ensures forall k :: k in s.legoCollection ==> Api.Step(ctx, Api.Get, s).outcome.value.rows[k] == s.legoCollection[k]
  {
  }

  /** Unlike the other queries, `get` is not scoped to its caller: on a
      well-formed store it can hand one user another user's rows. */
  lemma GetIsNotOwnerScoped()
    ensures exists ctx: Ctx, s: Store ::
      && Valid(s) && OwnershipConsistent(s) && ctx.auth.Some?
      && Api.Step(ctx, Api.Get, s).outcome.Returned?
      && !OwnedValue(Api.Step(ctx, Api.Get, s).outcome.value, ctx.auth.value.subject)
  {
    var row := SetRow("bob", None, "BD-1", 1062, "img", "75335-1", "url", 158, 2022);
    var s := EmptyStore().(legoCollection := map[0 := row], nextId := 1);
    var ctx := Ctx(Some(Identity("alice")), 0);
    assert 0 in Api.Step(ctx, Api.Get, s).outcome.value.rows;
    assert !OwnedValue(Api.Step(ctx, Api.Get, s).outcome.value, ctx.auth.value.subject);
  }

  // ---------------------------------------------------------------------
  // addSetToDB

  /** addSetToDB succeeds exactly when there is an identity and the named
      collection, if any, exists and belongs to the caller. */
  lemma AddSetToDBSucceedsIff(ctx: Ctx, args: AddSetArgs, s: Store)
    ensures Api.Step(ctx, Api.AddSetToDB(args), s).outcome.Returned? <==>
      ctx.auth.Some? && (args.collectionId.None? || OwnedBy(s, args.collectionId.value, ctx.auth.value.subject))
  {
  }

  /** A named collection that is missing or foreign fails with "Invalid
      collection" and nothing is inserted. */
  lemma AddSetToDBRejectsInvalidCollection(ctx: Ctx, args: AddSetArgs, s: Store)
    requires ctx.auth.Some? && args.collectionId.Some?
    requires !OwnedBy(s, args.collectionId.value, ctx.auth.value.subject)
    ensures Api.Step(ctx, Api.AddSetToDB(args), s) == Throw(InvalidCollection, s)
  {
  }

  /** On success addSetToDB inserts exactly one new `legoCollection` row under
      a fresh id and returns that id. The row is owned by the caller, refers
      to the given collection or to none, and copies the other fields. No
      other row and no other table changes. */
  lemma AddSetToDBInsertsOneRow(ctx: Ctx, args: AddSetArgs, s: Store)
    requires Valid(s) && ctx.auth.Some?
    requires args.collectionId.None? || OwnedBy(s, args.collectionId.value, ctx.auth.value.subject)
    ensures var t := Api.Step(ctx, Api.AddSetToDB(args), s);
      && t.outcome.Returned? && t.outcome.value.NewId?
      && var id := t.outcome.value.id;
      && Unused(s, id)
      && t.store.legoCollection.Keys == s.legoCollection.Keys + {id}
      && (forall k :: k in s.legoCollection ==> t.store.legoCollection[k] == s.legoCollection[k])
      && t.store.legoCollection[id] ==
           SetRow(ctx.auth.value.subject, args.collectionId, args.name, args.num_parts,
                  args.set_img_url, args.set_num, args.set_url, args.theme_id, args.year)
      && SameExcept(s, t.store, {legoCollection}, true)
  {
  }

  /** The `ownerId` argument has no effect: the row's owner is the caller. */
  lemma AddSetToDBIgnoresOwnerArgument(ctx: Ctx, args: AddSetArgs, owner: string, s: Store)
    ensures Api.Step(ctx, Api.AddSetToDB(args), s) == Api.Step(ctx, Api.AddSetToDB(args.(ownerId := owner)), s)
  {
  }

  // ---------------------------------------------------------------------
  // addCollection

  /** With an identity, addCollection inserts exactly one `collections` row
      under a fresh id, owned by the caller, with the given name and the call's
      timestamp, and returns that id. No other table changes. */
  lemma AddCollectionInsertsOne(ctx: Ctx, name: string, s: Store)
    requires Valid(s) && ctx.auth.Some?
    ensures var t := Api.Step(ctx, Api.AddCollection(name), s);
      && t.outcome.Returned? && t.outcome.value.NewId?
      && var id := t.outcome.value.id;
      && Unused(s, id)
      && t.store.collections.Keys == s.collections.Keys + {id}
      && (forall k :: k in s.collections ==> t.store.collections[k] == s.collections[k])
      && t.store.collections[id] == Collection(ctx.auth.value.subject, name, ctx.now)
      && SameExcept(s, t.store, {collections}, true)
  {
  }

  // ---------------------------------------------------------------------
  // deleteCollection

  /** deleteCollection reports a missing collection and a foreign one with
      two different errors, and neither changes the store. It succeeds
      exactly when the caller owns the collection. */
  lemma DeleteCollectionErrors(ctx: Ctx, cid: Id, s: Store)
    requires ctx.auth.Some?
    ensures cid !in s.collections ==> Api.Step(ctx, Api.DeleteCollection(cid), s) == Throw(CollectionNotFound, s)
    ensures cid in s.collections && s.collections[cid].ownerId != ctx.auth.value.subject ==>
      Api.Step(ctx, Api.DeleteCollection(cid), s) == Throw(NotAuthorizedToDelete, s)
    ensures Api.Step(ctx, Api.DeleteCollection(cid), s).outcome.Returned? <==> OwnedBy(s, cid, ctx.auth.value.subject)
  {
  }

  /** A successful deleteCollection removes the collection and exactly the
      `sets` rows that refer to it; every other row of every table, including
      the collection's `legoCollection` rows, is unchanged. */
  lemma DeleteCollectionCascade(ctx: Ctx, cid: Id, s: Store)
    requires ctx.auth.Some? && OwnedBy(s, cid, ctx.auth.value.subject)
    ensures var t := Api.Step(ctx, Api.DeleteCollection(cid), s);
      && t.outcome == Returned(DeleteAck(true, "Collection deleted successfully"))
      && t.store.collections.Keys == s.collections.Keys - {cid}
      && (forall k :: k in t.store.collections ==> t.store.collections[k] == s.collections[k])
      && (forall k :: k in t.store.sets <==> k in s.sets && s.sets[k].collectionId != Some(cid))
      && (forall k :: k in t.store.sets ==> t.store.sets[k] == s.sets[k])
      && SameExcept(s, t.store, {collections, sets}, false)
  {
  }

  // ---------------------------------------------------------------------
  // The scoped queries

  /** getUserCollections returns exactly the caller's collections. */
  lemma GetUserCollectionsExact(ctx: Ctx, s: Store)
    requires ctx.auth.Some?
    ensures var t := Api.Step(ctx, Api.GetUserCollections, s);
      && t.store == s
      && t.outcome.Returned? && t.outcome.value.Collections?
      && (forall k :: k in t.outcome.value.collections <==>
            k in s.collections && s.collections[k].ownerId == ctx.auth.value.subject)
      && (forall k :: k in t.outcome.value.collections ==> t.outcome.value.collections[k] == s.collections[k])
  {
  }

  /** getCollectionById returns the record exactly when the caller owns it,
      and otherwise fails with "Collection not found". */
  lemma GetCollectionByIdExact(ctx: Ctx, cid: Id, s: Store)
    requires ctx.auth.Some?
    ensures var t := Api.Step(ctx, Api.GetCollectionById(cid), s);
      && t.store == s
      && (t.outcome.Returned? <==> OwnedBy(s, cid, ctx.auth.value.subject))
      && (t.outcome.Returned? ==> t.outcome.value == CollectionDoc(cid, s.collections[cid]))
      && (!t.outcome.Returned? ==> t.outcome == Threw(CollectionNotFound))
  {
  }

  /** getLegoSetsForCollection returns exactly the `legoCollection` rows of a
      collection the caller owns, and otherwise fails with "Collection not
      found". */
  lemma GetLegoSetsForCollectionExact(ctx: Ctx, cid: Id, s: Store)
    requires ctx.auth.Some?
    ensures var t := Api.Step(ctx, Api.GetLegoSetsForCollection(cid), s);
      && t.store == s
      && (t.outcome.Returned? <==> OwnedBy(s, cid, ctx.auth.value.subject))
      && (!t.outcome.Returned? ==> t.outcome == Threw(CollectionNotFound))
      && (t.outcome.Returned? ==>
            && t.outcome.value.Rows?
            && (forall k :: k in t.outcome.value.rows <==>
                  k in s.legoCollection && s.legoCollection[k].collectionId == Some(cid))
            && (forall k :: k in t.outcome.value.rows ==> t.outcome.value.rows[k] == s.legoCollection[k]))
  {
  }

  /** Queries never change the store. */
  lemma QueriesLeaveStoreUnchanged(ctx: Ctx, req: Api.Request, s: Store)
    requires Api.IsQuery(req)
    ensures Api.Step(ctx, req, s).store == s
  {
  }

  /** On a store whose `legoCollection` rows share their collection's owner,
      the three scoped queries only ever return records the caller owns. */
  lemma ReadsAreOwnerScoped(ctx: Ctx, req: Api.Request, s: Store)
    requires OwnershipConsistent(s) && ctx.auth.Some?
    requires req.GetUserCollections? || req.GetCollectionById? || req.GetLegoSetsForCollection?
    ensures Api.Step(ctx, req, s).outcome.Returned? ==>
      OwnedValue(Api.Step(ctx, req, s).outcome.value, ctx.auth.value.subject)
  {
  }

  // ---------------------------------------------------------------------
  // Writes read back

  /** A collection added by a caller is then returned by getCollectionById
      under the new id, and is among that caller's getUserCollections. */
  lemma AddCollectionThenRead(ctx: Ctx, name: string, s: Store)
    requires Valid(s) && ctx.auth.Some?
    ensures var t := Api.Step(ctx, Api.AddCollection(name), s);
      && t.outcome.Returned? && t.outcome.value.NewId?
      && var id := t.outcome.value.id;
      && Api.Step(ctx, Api.GetCollectionById(id), t.store).outcome ==
           Returned(CollectionDoc(id, Collection(ctx.auth.value.subject, name, ctx.now)))
      && Api.Step(ctx, Api.GetUserCollections, t.store).outcome.value.Collections?
      && id in Api.Step(ctx, Api.GetUserCollections, t.store).outcome.value.collections
  {
    AddCollectionInsertsOne(ctx, name, s);
  }

  /** A set added to a collection shows up, under the returned id, among the
      collection's sets; the collection's other sets are the ones it had. */
  lemma AddSetThenRead(ctx: Ctx, args: AddSetArgs, s: Store)
    requires Valid(s) && ctx.auth.Some? && args.collectionId.Some?
    requires OwnedBy(s, args.collectionId.value, ctx.auth.value.subject)
    ensures var t := Api.Step(ctx, Api.AddSetToDB(args), s);
      && t.outcome.Returned? && t.outcome.value.NewId?
      && var id := t.outcome.value.id;
      && var before := Api.Step(ctx, Api.GetLegoSetsForCollection(args.collectionId.value), s).outcome;
      && var after := Api.Step(ctx, Api.GetLegoSetsForCollection(args.collectionId.value), t.store).outcome;
      && before.Returned? && before.value.Rows? && after.Returned? && after.value.Rows?
      && after.value.rows == before.value.rows[id := t.store.legoCollection[id]]
  {
    var cid := args.collectionId.value;
    var t := Api.Step(ctx, Api.AddSetToDB(args), s);
    AddSetToDBInsertsOneRow(ctx, args, s);
    var id := t.outcome.value.id;
    assert RowsOf(t.store.legoCollection, cid) == RowsOf(s.legoCollection, cid)[id := t.store.legoCollection[id]];
  }

  /** After a successful delete, the collection can no longer be fetched, its
      sets can no longer be listed, and it is not among the caller's
      collections. `get` still returns its `legoCollection` rows. */
  lemma DeleteThenRead(ctx: Ctx, cid: Id, s: Store)
    requires ctx.auth.Some? && OwnedBy(s, cid, ctx.auth.value.subject)
    ensures var t := Api.Step(ctx, Api.DeleteCollection(cid), s);
      && Api.Step(ctx, Api.GetCollectionById(cid), t.store).outcome == Threw(CollectionNotFound)
      && Api.Step(ctx, Api.GetLegoSetsForCollection(cid), t.store).outcome == Threw(CollectionNotFound)
      && Api.Step(ctx, Api.GetUserCollections, t.store).outcome.value.Collections?
      && cid !in Api.Step(ctx, Api.GetUserCollections, t.store).outcome.value.collections
      && Api.Step(ctx, Api.Get, t.store).outcome == Api.Step(ctx, Api.Get, s).outcome
  {
  }

  // ---------------------------------------------------------------------
  // Invariants of the machine

  /** Every step keeps ids unique: the allocator stays above every id and
      every reference in the store. */
  lemma StepPreservesValid(ctx: Ctx, req: Api.Request, s: Store)
    requires Valid(s)
    ensures Valid(Api.Step(ctx, req, s).store)
  {
    match req
    case AddSetToDB(args) => AddSetToDBPreservesValid(ctx, args, s);
    case AddCollection(name) => AddCollectionPreservesValid(ctx, name, s);
    case DeleteCollection(cid) => DeletePreservesValid(ctx, cid, s, sets);
    case _ => assert Api.Step(ctx, req, s).store == s;
  }

  /** The same holds with the corrected cascade. */
  lemma StepCorrectedPreservesValid(ctx: Ctx, req: Api.Request, s: Store)
    requires Valid(s)
    ensures Valid(Api.StepCorrected(ctx, req, s).store)
  {
    if req.DeleteCollection? {
      DeletePreservesValid(ctx, req.collectionId, s, legoCollection);
    } else {
      StepPreservesValid(ctx, req, s);
    }
  }

  lemma AddSetToDBPreservesValid(ctx: Ctx, args: AddSetArgs, s: Store)
    requires Valid(s)
    ensures Valid(AddSetToDB(ctx, args, s).store)
  {
    var t := AddSetToDB(ctx, args, s);
    if ctx.auth.Some? && (args.collectionId.None? || OwnedBy(s, args.collectionId.value, ctx.auth.value.subject)) {
      var row := SetRow(ctx.auth.value.subject, args.collectionId, args.name, args.num_parts,
                        args.set_img_url, args.set_num, args.set_url, args.theme_id, args.year);
      assert t.store == s.(legoCollection := s.legoCollection[FreshId(s) := row], nextId := FreshId(s) + 1);
      InsertItemKeepsValid(s, row);
    } else {
      assert t.store == s;
    }
  }

  lemma AddCollectionPreservesValid(ctx: Ctx, name: string, s: Store)
    requires Valid(s)
    ensures Valid(AddCollection(ctx, name, s).store)
  {
    if ctx.auth.Some? {
      InsertCollectionKeepsValid(s, Collection(ctx.auth.value.subject, name, ctx.now));
    }
  }

  lemma DeletePreservesValid(ctx: Ctx, cid: Id, s: Store, over: ItemTable)
    requires Valid(s)
    ensures Valid(DeleteCollectionOver(ctx, cid, s, over).store)
  {
    var t := DeleteCollectionOver(ctx, cid, s, over).store;
    if t != s {
      assert RowsKeptFrom(t, s);
      DeletingRowsKeepsValid(s, t);
    }
  }

  /** Every step keeps `legoCollection` rows owned by their collection's
      owner. This needs Valid: a fresh collection id is referred to by no
      existing row. */
  lemma StepPreservesOwnership(ctx: Ctx, req: Api.Request, s: Store)
    requires Valid(s) && OwnershipConsistent(s)
    ensures OwnershipConsistent(Api.Step(ctx, req, s).store)
  {
    match req
    case AddSetToDB(args) => AddSetToDBPreservesOwnership(ctx, args, s);
    case AddCollection(name) => AddCollectionPreservesOwnership(ctx, name, s);
    case DeleteCollection(cid) => DeletePreservesOwnership(ctx, cid, s, sets);
    case _ => assert Api.Step(ctx, req, s).store == s;
  }

  /** The same holds with the corrected cascade. */
  lemma StepCorrectedPreservesOwnership(ctx: Ctx, req: Api.Request, s: Store)
    requires Valid(s) && OwnershipConsistent(s)
    ensures OwnershipConsistent(Api.StepCorrected(ctx, req, s).store)
  {
    if req.DeleteCollection? {
      DeletePreservesOwnership(ctx, req.collectionId, s, legoCollection);
    } else {
      StepPreservesOwnership(ctx, req, s);
    }
  }

  lemma AddSetToDBPreservesOwnership(ctx: Ctx, args: AddSetArgs, s: Store)
    requires OwnershipConsistent(s)
    ensures OwnershipConsistent(AddSetToDB(ctx, args, s).store)
  {
  }

  lemma AddCollectionPreservesOwnership(ctx: Ctx, name: string, s: Store)
    requires Valid(s) && OwnershipConsistent(s)
    ensures OwnershipConsistent(AddCollection(ctx, name, s).store)
  {
  }

  lemma DeletePreservesOwnership(ctx: Ctx, cid: Id, s: Store, over: ItemTable)
    requires OwnershipConsistent(s)
    ensures OwnershipConsistent(DeleteCollectionOver(ctx, cid, s, over).store)
  {
  }

  /** The store with no documents satisfies both invariants. */
  lemma EmptyStoreInvariants()
    ensures Valid(EmptyStore()) && OwnershipConsistent(EmptyStore())
  {
    EmptyStoreValid();
  }

  /** Both invariants hold after any sequence of calls from a store that has
      them. */
  lemma {:induction false} RunPreservesInvariants(calls: seq<(Ctx, Api.Request)>, s: Store)
    requires Valid(s) && OwnershipConsistent(s)
    ensures Valid(Api.Run(calls, s)) && OwnershipConsistent(Api.Run(calls, s))
    decreases |calls|
  {
    if |calls| > 0 {
      var next := Api.Step(calls[0].0, calls[0].1, s).store;
      StepPreservesValid(calls[0].0, calls[0].1, s);
      StepPreservesOwnership(calls[0].0, calls[0].1, s);
      RunPreservesInvariants(calls[1..], next);
    }
  }

  /** On every store reachable from the empty store, the three scoped
      queries return only records owned by the caller. */
  lemma ReachableReadsAreOwnerScoped(calls: seq<(Ctx, Api.Request)>, ctx: Ctx, req: Api.Request)
    requires ctx.auth.Some?
    requires req.GetUserCollections? || req.GetCollectionById? || req.GetLegoSetsForCollection?
    ensures Api.Step(ctx, req, Api.Run(calls, EmptyStore())).outcome.Returned? ==>
      OwnedValue(Api.Step(ctx, req, Api.Run(calls, EmptyStore())).outcome.value, ctx.auth.value.subject)
  {
    EmptyStoreInvariants();
    RunPreservesInvariants(calls, EmptyStore());
    ReadsAreOwnerScoped(ctx, req, Api.Run(calls, EmptyStore()));
  }
}
