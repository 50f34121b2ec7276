/** The query and mutation handlers of convex/collection.js as transitions of
    the store. Each handler maps the caller's context, its arguments and the
    current store to an outcome (a returned value or a thrown error) and the
    next store. A handler that throws leaves the store as it found it. */
module CollectionHandlers {
  import opened Schema
  import opened Database

  /** The part of an authenticated identity the handlers read. */
  datatype Identity = Identity(subject: string)

  /** The handler context: what `ctx.auth.getUserIdentity()` yields, and the
      clock reading `Date.now()` returns during the call. */
  datatype Ctx = Ctx(auth: Option<Identity>, now: nat)

  datatype Error = Unauthorized | InvalidCollection | CollectionNotFound | NotAuthorizedToDelete

  /** The message each error carries. */
  function Message(e: Error): string
  {
    match e
    case Unauthorized => "Unauthorized"
    case InvalidCollection => "Invalid collection"
    case CollectionNotFound => "Collection not found"
    case NotAuthorizedToDelete => "You are not authorized to delete this collection"
  }

  /** The handlers throw exactly these four messages, and they are pairwise
      distinct. */
  lemma MessagesIdentifyErrors()
    ensures Message(Unauthorized) == "Unauthorized"
    ensures Message(InvalidCollection) == "Invalid collection"
    ensures Message(CollectionNotFound) == "Collection not found"
    ensures Message(NotAuthorizedToDelete) == "You are not authorized to delete this collection"
    ensures forall e1: Error, e2: Error :: Message(e1) == Message(e2) ==> e1 == e2
  {
  }

  /** What a handler returns. Query results are sets of documents, keyed by
      their ids. */
  datatype Value =
    | ErrorValue(error: Error)
    | Rows(rows: map<Id, SetRow>)
    | Collections(collections: map<Id, Collection>)
    | CollectionDoc(id: Id, collection: Collection)
    | NewId(id: Id)
    | DeleteAck(success: bool, message: string)

  datatype Outcome = Returned(value: Value) | Threw(error: Error)

  datatype Transition = Transition(outcome: Outcome, store: Store)

  /** The arguments addSetToDB accepts. `ownerId` is validated but never read. */
  datatype AddSetArgs = AddSetArgs(
    ownerId: string,
    name: string,
    num_parts: int,
    set_img_url: string,
    set_num: string,
    set_url: string,
    theme_id: int,
    year: int,
    collectionId: Option<Id>)

  function Throw(e: Error, s: Store): Transition
  {
    Transition(Threw(e), s)
  }

  /** The ownership check: the collection exists and its owner is `subject`. */
  predicate OwnedBy(s: Store, cid: Id, subject: string)
  {
    cid in s.collections && s.collections[cid].ownerId == subject
  }

  /** `get`: every `legoCollection` row, unfiltered; with no identity the
      error is returned as a value rather than thrown. */
  function Get(ctx: Ctx, s: Store): Transition
  {
    if ctx.auth.None? then Transition(Returned(ErrorValue(Unauthorized)), s)
    else Transition(Returned(Rows(s.legoCollection)), s)
  }

  /** `addSetToDB`: inserts one `legoCollection` row owned by the caller. */
  function AddSetToDB(ctx: Ctx, args: AddSetArgs, s: Store): Transition
  {
    if ctx.auth.None? then Throw(Unauthorized, s)
    else
      var subject := ctx.auth.value.subject;
      if args.collectionId.Some? && !OwnedBy(s, args.collectionId.value, subject) then
        Throw(InvalidCollection, s)
      else
        var id := FreshId(s);
        var row := SetRow(subject, args.collectionId, args.name, args.num_parts, args.set_img_url,
                          args.set_num, args.set_url, args.theme_id, args.year);
        Transition(Returned(NewId(id)),
                   s.(legoCollection := s.legoCollection[id := row], nextId := id + 1))
  }

  /** `addCollection`: inserts one `collections` row owned by the caller. */
  function AddCollection(ctx: Ctx, name: string, s: Store): Transition
  {
    if ctx.auth.None? then Throw(Unauthorized, s)
    else
      var id := FreshId(s);
      var c := Collection(ctx.auth.value.subject, name, ctx.now);
      Transition(Returned(NewId(id)),
                 s.(collections := s.collections[id := c], nextId := id + 1))
  }

  /** The body of `deleteCollection`, with the item table its cascade
      queries as a parameter. */
  function DeleteCollectionOver(ctx: Ctx, cid: Id, s: Store, over: ItemTable): Transition
  {
    if ctx.auth.None? then Throw(Unauthorized, s)
    else if cid !in s.collections then Throw(CollectionNotFound, s)
    else if s.collections[cid].ownerId != ctx.auth.value.subject then Throw(NotAuthorizedToDelete, s)
    else
      var s1 := if over == sets then s.(sets := WithoutRowsOf(s.sets, cid))
                else s.(legoCollection := WithoutRowsOf(s.legoCollection, cid));
      Transition(Returned(DeleteAck(true, "Collection deleted successfully")),
                 s1.(collections := s1.collections - {cid}))
  }

  /** `deleteCollection` as written: the cascade queries the table `sets`. */
  function DeleteCollection(ctx: Ctx, cid: Id, s: Store): Transition
  {
    DeleteCollectionOver(ctx, cid, s, sets)
  }

  /** `deleteCollection` with its cascade querying `legoCollection`, the table
      addSetToDB writes to. */
  function DeleteCollectionCorrected(ctx: Ctx, cid: Id, s: Store): Transition
  {
    DeleteCollectionOver(ctx, cid, s, legoCollection)
  }

  /** `getUserCollections`: the caller's collections. */
  function GetUserCollections(ctx: Ctx, s: Store): Transition
  {
    if ctx.auth.None? then Throw(Unauthorized, s)
    else
      var subject := ctx.auth.value.subject;
      Transition(Returned(Collections(map k | k in s.collections && s.collections[k].ownerId == subject
                                           :: s.collections[k])), s)
  }

  /** `getCollectionById`: one collection of the caller's. */
  function GetCollectionById(ctx: Ctx, cid: Id, s: Store): Transition
  {
    if ctx.auth.None? then Throw(Unauthorized, s)
    else if !OwnedBy(s, cid, ctx.auth.value.subject) then Throw(CollectionNotFound, s)
    else Transition(Returned(CollectionDoc(cid, s.collections[cid])), s)
  }

  /** `getLegoSetsForCollection`: the `legoCollection` rows of one collection
      of the caller's. */
  function GetLegoSetsForCollection(ctx: Ctx, cid: Id, s: Store): Transition
  {
    if ctx.auth.None? then Throw(Unauthorized, s)
    else if !OwnedBy(s, cid, ctx.auth.value.subject) then Throw(CollectionNotFound, s)
    else Transition(Returned(Rows(RowsOf(s.legoCollection, cid))), s)
  }
}
