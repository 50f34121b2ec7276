/** Record shapes of the document store: one datatype per table the schema
    declares (users, collections, legoSets, collectionSetQuantity), plus the
    row shape that addSetToDB writes into the `legoCollection` table, which the
    schema does not declare. Numeric fields are JavaScript numbers in the
    source; they are modelled as integers. */
module Schema {

  datatype Option<+T> = None | Some(value: T)

  /** Document ids issued by the store. Every table draws from one id space. */
  type Id = nat

  /** A row of `users`: the mirror of an identity-provider account. */
  datatype User = User(userId: string, username: string, email: string)

  /** A row of `collections`: exactly an owner, a name and a creation time. */
  datatype Collection = Collection(ownerId: string, name: string, createdAt: nat)

  /** The `condition` of a quantity entry: the literal "new" or "used". */
  datatype Condition = New | Used

  /** A row of `legoSets` as the schema declares it: the collection reference
      is mandatory and the image URL optional. */
  datatype LegoSet = LegoSet(
    collectionId: Id,
    ownerId: string,
    name: string,
    num_parts: int,
    set_img_url: Option<string>,
    set_num: string,
    set_url: string,
    theme_id: int,
    year: int)

  /** A row of `collectionSetQuantity`. */
  datatype CollectionSetQuantity = CollectionSetQuantity(
    collectionId: Id,
    setNum: string,
    quantity: int,
    condition: Condition,
    ownerId: string)

  /** The row addSetToDB inserts into `legoCollection`: unlike LegoSet, the
      collection reference may be null (None) and the image URL is always
      present, because the handler's argument validator requires it. */
  datatype SetRow = SetRow(
    ownerId: string,
    collectionId: Option<Id>,
    name: string,
    num_parts: int,
    set_img_url: string,
    set_num: string,
    set_url: string,
    theme_id: int,
    year: int)

  /** The string literal the schema uses for each condition. */
  function ConditionLiteral(c: Condition): string
  {
    match c
    case New => "new"
    case Used => "used"
  }

  /** The `condition` validator: a union of the two literals. */
  function ParseCondition(s: string): (r: Option<Condition>)
    ensures r.Some? <==> s == "new" || s == "used"
    ensures r.Some? ==> ConditionLiteral(r.value) == s
  {
    if s == "new" then Some(New)
    else if s == "used" then Some(Used)
    else None
  }

  /** Validating the literal of a condition gives that condition back. */
  lemma ConditionRoundTrip(c: Condition)
    ensures ParseCondition(ConditionLiteral(c)) == Some(c)
  {
  }

  /** Reads a `legoCollection` row as a `legoSets` row. It fits exactly when
      the row names a collection; every field is carried over and the image
      URL becomes a present optional. */
  function AsLegoSet(row: SetRow): (r: Option<LegoSet>)
    ensures r.Some? <==> row.collectionId.Some?
    ensures r.Some? ==>
      && Some(r.value.collectionId) == row.collectionId
      && r.value.ownerId == row.ownerId
      && r.value.name == row.name
      && r.value.num_parts == row.num_parts
      && r.value.set_img_url == Some(row.set_img_url)
      && r.value.set_num == row.set_num
      && r.value.set_url == row.set_url
      && r.value.theme_id == row.theme_id
      && r.value.year == row.year
  {
    match row.collectionId
    case None => None
    case Some(cid) =>
      Some(LegoSet(cid, row.ownerId, row.name, row.num_parts, Some(row.set_img_url),
                   row.set_num, row.set_url, row.theme_id, row.year))
  }

  /** Reads a `legoSets` row as a `legoCollection` row. It fits exactly when
      the image URL is present. */
  function AsSetRow(ls: LegoSet): (r: Option<SetRow>)
    ensures r.Some? <==> ls.set_img_url.Some?
    ensures r.Some? ==> r.value.collectionId == Some(ls.collectionId)
  {
    match ls.set_img_url
    case None => None
    case Some(url) =>
      Some(SetRow(ls.ownerId, Some(ls.collectionId), ls.name, ls.num_parts, url,
                  ls.set_num, ls.set_url, ls.theme_id, ls.year))
  }

  /** The two shapes agree on every row that fits both: converting there and
      back is the identity, in both directions. */
  lemma ShapesRoundTrip(row: SetRow, ls: LegoSet)
    ensures AsLegoSet(row) == Some(ls) ==> AsSetRow(ls) == Some(row)
    ensures AsSetRow(ls) == Some(row) ==> AsLegoSet(row) == Some(ls)
  {
  }
}
