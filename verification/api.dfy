/** A request names one handler of convex/collection.js with its arguments;
    Step runs it. StepCorrected is the same machine with the delete cascade
    aimed at `legoCollection`. */
module Api {
  import opened Schema
  import opened Database
  import H = CollectionHandlers

  datatype Request =
    | Get
    | AddSetToDB(args: H.AddSetArgs)
    | AddCollection(name: string)
    | DeleteCollection(collectionId: Id)
    | GetUserCollections
    | GetCollectionById(collectionId: Id)
    | GetLegoSetsForCollection(collectionId: Id)

  predicate IsQuery(req: Request)
  {
    req.Get? || req.GetUserCollections? || req.GetCollectionById? || req.GetLegoSetsForCollection?
  }

  function Step(ctx: H.Ctx, req: Request, s: Store): H.Transition
  {
    match req
    case Get => H.Get(ctx, s)
    case AddSetToDB(args) => H.AddSetToDB(ctx, args, s)
    case AddCollection(name) => H.AddCollection(ctx, name, s)
    case DeleteCollection(cid) => H.DeleteCollection(ctx, cid, s)
    case GetUserCollections => H.GetUserCollections(ctx, s)
    case GetCollectionById(cid) => H.GetCollectionById(ctx, cid, s)
    case GetLegoSetsForCollection(cid) => H.GetLegoSetsForCollection(ctx, cid, s)
  }

  function StepCorrected(ctx: H.Ctx, req: Request, s: Store): H.Transition
  {
    if req.DeleteCollection? then H.DeleteCollectionCorrected(ctx, req.collectionId, s)
    else Step(ctx, req, s)
  }

  /** The store after running a sequence of calls, each a caller context and
      a request, one after the other from `s`. */
  function Run(calls: seq<(H.Ctx, Request)>, s: Store): Store
    decreases |calls|
  {
    if |calls| == 0 then s
    else Run(calls[1..], Step(calls[0].0, calls[0].1, s).store)
  }
}
