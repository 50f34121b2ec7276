/** deleteCollection cascades over the table `sets`, but addSetToDB writes
    item rows into `legoCollection`. Deleting a collection therefore leaves
    its item rows behind, pointing at a collection that no longer exists.
    This module shows the as-written machine breaking referential integrity
    and proves that the corrected cascade keeps it. */
module CascadeFinding {
  import opened Schema
  import opened Database
  import opened CollectionHandlers
  import Api
  import opened CollectionProperties

  /** Every `legoCollection` row that names a collection names an existing one. */
  predicate Integrity(s: Store)
  {
    forall k :: k in s.legoCollection && s.legoCollection[k].collectionId.Some? ==>
      s.legoCollection[k].collectionId.value in s.collections
  }

  /** As written: after a successful delete, every `legoCollection` row of the
      deleted collection is still there, and now refers to nothing. */
  lemma DeleteCollectionLeavesItemRows(ctx: Ctx, cid: Id, s: Store)
    requires ctx.auth.Some? && OwnedBy(s, cid, ctx.auth.value.subject)
    ensures var t := Api.Step(ctx, Api.DeleteCollection(cid), s);
      && t.outcome.Returned?
      && cid !in t.store.collections
      && RowsOf(t.store.legoCollection, cid) == RowsOf(s.legoCollection, cid)
      && (RowsOf(s.legoCollection, cid) != map[] ==> !Integrity(t.store))
  {
  }

  /** As written, one step of the machine turns a well-formed store with
      integrity into one without: create a collection, add a set to it,
      delete the collection. */
  lemma StepBreaksIntegrity()
    ensures exists ctx: Ctx, req: Api.Request, s: Store ::
      && Valid(s) && OwnershipConsistent(s) && Integrity(s)
      && Api.Step(ctx, req, s).outcome.Returned?
      && !Integrity(Api.Step(ctx, req, s).store)
  {
    var ctx := Ctx(Some(Identity("alice")), 1700000000000);
    var s1 := Api.Step(ctx, Api.AddCollection("Star Wars"), EmptyStore()).store;
    var cid := 0;
    assert s1.collections == map[cid := Collection("alice", "Star Wars", 1700000000000)];
    var args := AddSetArgs("alice", "BD-1", 1062, "img", "75335-1", "url", 158, 2022, Some(cid));
    var s2 := Api.Step(ctx, Api.AddSetToDB(args), s1).store;
    assert s2.legoCollection[1].collectionId == Some(cid);
    assert Valid(s2) && OwnershipConsistent(s2) && Integrity(s2);
    DeleteCollectionLeavesItemRows(ctx, cid, s2);
    assert 1 in RowsOf(s2.legoCollection, cid);
    assert !Integrity(Api.Step(ctx, Api.DeleteCollection(cid), s2).store);
  }

  /** Corrected: a successful delete removes the collection and exactly its
      `legoCollection` rows; no row of it remains, and every other table is
      unchanged. */
  lemma CorrectedDeleteRemovesItemRows(ctx: Ctx, cid: Id, s: Store)
    requires ctx.auth.Some? && OwnedBy(s, cid, ctx.auth.value.subject)
    ensures var t := Api.StepCorrected(ctx, Api.DeleteCollection(cid), s);
      && t.outcome == Returned(DeleteAck(true, "Collection deleted successfully"))
      && t.store.collections.Keys == s.collections.Keys - {cid}
      && (forall k :: k in t.store.legoCollection <==>
            k in s.legoCollection && s.legoCollection[k].collectionId != Some(cid))
      && (forall k :: k in t.store.legoCollection ==> t.store.legoCollection[k] == s.legoCollection[k])
      && RowsOf(t.store.legoCollection, cid) == map[]
      && SameExcept(s, t.store, {collections, legoCollection}, false)
  {
  }

  /** Corrected: every step of the machine keeps referential integrity. */
  lemma StepCorrectedPreservesIntegrity(ctx: Ctx, req: Api.Request, s: Store)
    requires Integrity(s)
    ensures Integrity(Api.StepCorrected(ctx, req, s).store)
  {
  }
}
