/** The document store the handlers run against: one finite map per table,
    keyed by document id, and the allocator the store draws fresh ids from.
    The tables are those the schema declares plus the two the handlers name
    without declaring: `legoCollection` and `sets`. */
module Database {
  import opened Schema

  datatype Store = Store(
    users: map<Id, User>,
    collections: map<Id, Collection>,
    legoSets: map<Id, LegoSet>,
    collectionSetQuantity: map<Id, CollectionSetQuantity>,
    legoCollection: map<Id, SetRow>,
    sets: map<Id, SetRow>,
    nextId: Id)

  /** The tables, named as the handlers and the schema name them. */
  datatype TableName = users | collections | legoSets | collectionSetQuantity | legoCollection | sets

  /** The tables that hold item rows of the shape addSetToDB writes. */
  type ItemTable = t: TableName | t == legoCollection || t == sets witness sets

  /** Every table outside `changed` is the same in `t` as in `s`, and so is
      the id allocator when `allocates` is false. */
  predicate SameExcept(s: Store, t: Store, changed: set<TableName>, allocates: bool)
  {
    && (users !in changed ==> t.users == s.users)
    && (collections !in changed ==> t.collections == s.collections)
    && (legoSets !in changed ==> t.legoSets == s.legoSets)
    && (collectionSetQuantity !in changed ==> t.collectionSetQuantity == s.collectionSetQuantity)
    && (legoCollection !in changed ==> t.legoCollection == s.legoCollection)
    && (sets !in changed ==> t.sets == s.sets)
    && (!allocates ==> t.nextId == s.nextId)
  }

  /** The store before any document is inserted. */
  function EmptyStore(): Store
  {
    Store(map[], map[], map[], map[], map[], map[], 0)
  }

  predicate KeysBelow<T>(m: map<Id, T>, bound: Id)
  {
    forall k :: k in m ==> k < bound
  }

  predicate RowRefsBelow(m: map<Id, SetRow>, bound: Id)
  {
    forall k :: k in m && m[k].collectionId.Some? ==> m[k].collectionId.value < bound
  }

  /** Ids are unique and never reused: no id is a key of two tables, and
      every document id and every collection reference held in a row was
      issued before `nextId`. */
  predicate Valid(s: Store)
  {
    && KeysBelow(s.users, s.nextId)
    && KeysBelow(s.collections, s.nextId)
    && KeysBelow(s.legoSets, s.nextId)
    && KeysBelow(s.collectionSetQuantity, s.nextId)
    && KeysBelow(s.legoCollection, s.nextId)
    && KeysBelow(s.sets, s.nextId)
    && (forall k :: k in s.legoSets ==> s.legoSets[k].collectionId < s.nextId)
    && (forall k :: k in s.collectionSetQuantity ==> s.collectionSetQuantity[k].collectionId < s.nextId)
    && RowRefsBelow(s.legoCollection, s.nextId)
    && RowRefsBelow(s.sets, s.nextId)
    && KeysDisjoint(s)
  }

  /** No id is a key of two tables: every table draws from one id space. */
  predicate KeysDisjoint(s: Store)
  {
    && s.users.Keys !! s.collections.Keys
    && s.users.Keys !! s.legoSets.Keys
    && s.users.Keys !! s.collectionSetQuantity.Keys
    && s.users.Keys !! s.legoCollection.Keys
    && s.users.Keys !! s.sets.Keys
    && s.collections.Keys !! s.legoSets.Keys
    && s.collections.Keys !! s.collectionSetQuantity.Keys
    && s.collections.Keys !! s.legoCollection.Keys
    && s.collections.Keys !! s.sets.Keys
    && s.legoSets.Keys !! s.collectionSetQuantity.Keys
    && s.legoSets.Keys !! s.legoCollection.Keys
    && s.legoSets.Keys !! s.sets.Keys
    && s.collectionSetQuantity.Keys !! s.legoCollection.Keys
    && s.collectionSetQuantity.Keys !! s.sets.Keys
    && s.legoCollection.Keys !! s.sets.Keys
  }

  /** True when `id` is a key of no table and no row refers to it. */
  predicate Unused(s: Store, id: Id)
  {
    && id !in s.users && id !in s.collections && id !in s.legoSets
    && id !in s.collectionSetQuantity && id !in s.legoCollection && id !in s.sets
    && (forall k :: k in s.legoCollection ==> s.legoCollection[k].collectionId != Some(id))
    && (forall k :: k in s.sets ==> s.sets[k].collectionId != Some(id))
    && (forall k :: k in s.legoSets ==> s.legoSets[k].collectionId != id)
    && (forall k :: k in s.collectionSetQuantity ==> s.collectionSetQuantity[k].collectionId != id)
  }

  /** The id the next insert receives. */
  function FreshId(s: Store): (id: Id)
    ensures Valid(s) ==> Unused(s, id)
  {
    s.nextId
  }

  /** Inserting an item row under the fresh id keeps the store valid when the
      row refers to nothing or to an id already issued. */
  lemma InsertItemKeepsValid(s: Store, row: SetRow)
    requires Valid(s)
    requires row.collectionId.Some? ==> row.collectionId.value < s.nextId
    ensures Valid(s.(legoCollection := s.legoCollection[FreshId(s) := row], nextId := FreshId(s) + 1))
  {
    var t := s.(legoCollection := s.legoCollection[FreshId(s) := row], nextId := FreshId(s) + 1);
    assert KeysBelow(t.legoCollection, t.nextId);
    assert RowRefsBelow(t.legoCollection, t.nextId);
    assert KeysDisjoint(t);
  }

  /** Inserting a collection under the fresh id keeps the store valid. */
  lemma InsertCollectionKeepsValid(s: Store, c: Collection)
    requires Valid(s)
    ensures Valid(s.(collections := s.collections[FreshId(s) := c], nextId := FreshId(s) + 1))
  {
    var t := s.(collections := s.collections[FreshId(s) := c], nextId := FreshId(s) + 1);
    assert KeysBelow(t.collections, t.nextId);
    assert KeysDisjoint(t);
  }

  /** `a` holds some of the rows of `b`, each unchanged. */
  predicate Submap<T(==)>(a: map<Id, T>, b: map<Id, T>)
  {
    a.Keys <= b.Keys && forall k :: k in a ==> a[k] == b[k]
  }

  /** Each table of `t` holds some of the rows of the same table of `s`,
      each unchanged: `t` is `s` with documents deleted. */
  predicate RowsKeptFrom(t: Store, s: Store)
  {
    && Submap(t.users, s.users)
    && Submap(t.collections, s.collections)
    && Submap(t.legoSets, s.legoSets)
    && Submap(t.collectionSetQuantity, s.collectionSetQuantity)
    && Submap(t.legoCollection, s.legoCollection)
    && Submap(t.sets, s.sets)
  }

  /** Deleting documents from any tables, with the allocator left alone,
      keeps the store valid. */
  lemma DeletingRowsKeepsValid(s: Store, t: Store)
    requires Valid(s) && RowsKeptFrom(t, s) && t.nextId == s.nextId
    ensures Valid(t)
  {
    assert KeysDisjoint(t);
    assert RowRefsBelow(t.legoCollection, t.nextId);
    assert RowRefsBelow(t.sets, t.nextId);
  }

  lemma EmptyStoreValid()
    ensures Valid(EmptyStore())
  {
  }

  /** The rows of an item table whose `collectionId` field equals `cid`: what
      a query with `q.eq(q.field("collectionId"), cid)` collects. A row with
      a null reference never matches. */
  function RowsOf(table: map<Id, SetRow>, cid: Id): map<Id, SetRow>
  {
    map k | k in table && table[k].collectionId == Some(cid) :: table[k]
  }

  /** The table that remains once the rows referring to `cid` are deleted. */
  function WithoutRowsOf(table: map<Id, SetRow>, cid: Id): map<Id, SetRow>
  {
    table - RowsOf(table, cid).Keys
  }

  /** The cascade's loop: deletes the collected ids, each a key of the table,
      one by one. The result is the table with exactly those ids removed and
      every other row untouched. */
  method DeleteEach(table: map<Id, SetRow>, ids: set<Id>) returns (t: map<Id, SetRow>)
    requires ids <= table.Keys
    ensures t.Keys == table.Keys - ids
    ensures forall k :: k in t ==> t[k] == table[k]
  {
    t := table;
    var pending := ids;
    while pending != {}
      invariant pending <= ids
      invariant t.Keys == table.Keys - (ids - pending)
      invariant forall k :: k in t ==> t[k] == table[k]
      decreases pending
    {
      var id :| id in pending;
      t := t - {id};
      pending := pending - {id};
    }
  }

  /** Running the cascade's loop over the ids its query collects gives the
      table WithoutRowsOf describes. */
  method CascadeOver(table: map<Id, SetRow>, cid: Id) returns (t: map<Id, SetRow>)
    ensures t == WithoutRowsOf(table, cid)
    ensures forall k :: k in t <==> k in table && table[k].collectionId != Some(cid)
  {
    t := DeleteEach(table, RowsOf(table, cid).Keys);
  }
}
