/**
 * `CollectionService`: collections belong to a user and are created only for
 * a stored user. Queries are functions of the tables; `CreateCollection`
 * and `DeleteCollection` change the database.
 */
module CollectionService {
  import opened Python
  import opened Tables
  import opened Models
  import opened Database
  import UserService

  /** A listed collection is the stored row under its own id. */
  lemma ListedCollection(t: Table<Collection>, x: Collection)
    requires CollectionsOk(t) && x in Rows(t)
    ensures x.id in t.rows && t.rows[x.id] == x
  {
    RowsStored(t, x);
  }

  /** `collection_exists(collection_id)`: a collection with this primary key is stored. */
  predicate CollectionExists(t: Table<Collection>, id: int) {
    id in t.rows
  }

  /** The query `collection_exists` runs, `filter_by(id=...).first() is not None`, is that key test. */
  lemma CollectionExistsQuery(t: Table<Collection>, id: int)
    requires CollectionsOk(t)
    ensures CollectionExists(t, id) <==> Where(Rows(t), (c: Collection) => c.id == id) != []
  {
    RowsWhere(t, (c: Collection) => c.id == id);
  }

  /** `get_collection_by_id(collection_id)`. */
  function GetCollectionById(t: Table<Collection>, id: int): (r: Option<Collection>)
    requires CollectionsOk(t)
    ensures r.Some? <==> id in t.rows
    ensures r.Some? ==> r.value == t.rows[id] && r.value.id == id
  {
    Get(t, id)
  }

  /** `get_collections_by_user(user_id)`: exactly the stored collections that user owns. */
  function GetCollectionsByUser(t: Table<Collection>, userId: int): (r: seq<Collection>)
    requires CollectionsOk(t)
    ensures forall i :: 0 <= i < |r| ==> r[i].userId == userId && r[i].id in t.rows && t.rows[r[i].id] == r[i]
    ensures forall k :: k in t.rows && t.rows[k].userId == userId ==> t.rows[k] in r
  {
    var r := Where(Rows(t), (c: Collection) => c.userId == userId);
    forall i | 0 <= i < |r| ensures r[i].id in t.rows && t.rows[r[i].id] == r[i] {
      ListedCollection(t, r[i]);
    }
    r
  }

  /**
   * `get_all_collections(limit, offset, user_id)`: filter by owner when one is
   * given, then skip `offset`, then keep at most `limit`.
   */
  function GetAllCollections(t: Table<Collection>, limit: Option<int>, offset: Option<int>, userId: Option<int>): (r: seq<Collection>)
    requires CollectionsOk(t)
    ensures forall i :: 0 <= i < |r| ==> r[i].id in t.rows && t.rows[r[i].id] == r[i]
    ensures userId.Some? ==> forall i :: 0 <= i < |r| ==> r[i].userId == userId.value
    ensures limit.Some? && 0 <= limit.value ==> |r| <= limit.value
    ensures IsPage(r, if userId.Some? then GetCollectionsByUser(t, userId.value) else Rows(t), offset, limit)
  {
    var s := if userId.Some? then GetCollectionsByUser(t, userId.value) else Rows(t);
    var r := Page(s, offset, limit);
    forall i | 0 <= i < |r| ensures r[i] in s {
      PageFrom(s, offset, limit, r[i]);
    }
    forall i | 0 <= i < |r| ensures r[i].id in t.rows && t.rows[r[i].id] == r[i] {
      if userId.None? { ListedCollection(t, r[i]); }
    }
    r
  }

  /** With an owner and no paging, listing all collections is listing that user's collections. */
  lemma AllCollectionsOfUser(t: Table<Collection>, userId: int)
    requires CollectionsOk(t)
    ensures GetAllCollections(t, None, None, Some(userId)) == GetCollectionsByUser(t, userId)
  {
    PageAll(GetCollectionsByUser(t, userId));
  }

  /**
   * `create_collection(name, user_id, description)`: the name is checked
   * before the owner; the stored name is stripped, and a falsy description is
   * stored as `None`, any other one stripped.
   */
  function CreateCollectionResult(users: Table<User>, t: Table<Collection>, name: Option<string>, userId: int,
                                  description: Option<string>): Outcome<Collection>
    requires UsersOk(users) && CollectionsOk(t)
  {
    if FalsyStr(name) || Strip(name.value) == "" then ValueError("Collection name cannot be empty")
    else if !UserService.UserExists(users, userId) then
      ValueError("User with ID " + IntToString(userId) + " does not exist")
    else
      Ok(Collection(NextId(t), Strip(name.value), if FalsyStr(description) then None else Some(Strip(description.value)), userId))
  }

  /** How `create_collection` ends, case by case. */
  lemma CreateCollectionOutcomes(users: Table<User>, t: Table<Collection>, name: Option<string>, userId: int,
                                 description: Option<string>)
    requires UsersOk(users) && CollectionsOk(t)
    ensures var r := CreateCollectionResult(users, t, name, userId, description);
            && !r.IntegrityError?
            && (Blank(name) ==> r == ValueError("Collection name cannot be empty"))
            && (!Blank(name) && userId !in users.rows ==>
                  r == ValueError("User with ID " + IntToString(userId) + " does not exist"))
            && (r.Ok? <==> !Blank(name) && userId in users.rows)
            && (r.Ok? ==> && r.value.id !in t.rows && r.value.userId == userId
                          && r.value.name == Strip(name.value)
                          && (r.value.description.None? <==> FalsyStr(description))
                          && (r.value.description.Some? ==> r.value.description.value == Strip(description.value)))
  {
    if name.Some? { StripEmptyIff(name.value); }
  }

  lemma InsertCollectionOk(t: Table<Collection>, c: Collection)
    requires CollectionsOk(t) && c.id == NextId(t) && Filled(c.name) && StrippedOrNull(c.description)
    ensures CollectionsOk(Insert(t, c))
  {
    var rows := Insert(t, c).rows;
    forall k | k in rows ensures rows[k].id == k && Filled(rows[k].name) && StrippedOrNull(rows[k].description) {
      if k != c.id { assert rows[k] == t.rows[k]; }
    }
  }

  method CreateCollection(db: Db, name: Option<string>, userId: int, description: Option<string>) returns (r: Outcome<Collection>)
    requires db.Valid()
    modifies db
    ensures db.Valid()
    ensures r == CreateCollectionResult(old(db.users), old(db.collections), name, userId, description)
    ensures db.collections == (if r.Ok? then Insert(old(db.collections), r.value) else old(db.collections))
    ensures db.users == old(db.users) && db.videos == old(db.videos) && db.transcripts == old(db.transcripts)
    ensures old(db.Linked()) ==> db.Linked()
  {
    if FalsyStr(name) || Strip(name.value) == "" {
      return ValueError("Collection name cannot be empty");
    }
    if !UserService.UserExists(db.users, userId) {
      return ValueError("User with ID " + IntToString(userId) + " does not exist");
    }
    var text := if FalsyStr(description) then None else Some(Strip(description.value));
    var collection := Collection(NextId(db.collections), Strip(name.value), text, userId);
    StripEmptyIff(name.value);
    InsertCollectionOk(db.collections, collection);
    var collections := Insert(db.collections, collection);
    if db.Linked() {
      LinkedStoreCollection(db.users, db.collections, collections, db.videos, db.transcripts, collection.id, collection);
    }
    db.CommitCollections(collections);
    r := Ok(collection);
  }

  /** A new collection comes last among its owner's collections and appears in no other user's. */
  lemma CreatedCollectionListed(t: Table<Collection>, c: Collection, userId: int)
    requires CollectionsOk(t) && c.id == NextId(t) && Filled(c.name) && StrippedOrNull(c.description)
    ensures CollectionsOk(Insert(t, c))
    ensures GetCollectionsByUser(Insert(t, c), userId) ==
              GetCollectionsByUser(t, userId) + (if c.userId == userId then [c] else [])
  {
    InsertCollectionOk(t, c);
    WhereAfterInsert(t, c, (x: Collection) => x.userId == userId);
  }

  /**
   * `delete_collection(collection_id)`: `False` for an unknown id. A
   * collection that still holds videos cannot be deleted: the flush sets
   * each video's NOT NULL `collection_id` to NULL and the commit fails.
   * Otherwise `True`.
   */
  function DeleteCollectionResult(t: Table<Collection>, videos: Table<Video>, id: int): Outcome<bool>
    requires CollectionsOk(t)
  {
    if GetCollectionById(t, id).None? then Ok(false)
    else if HoldsVideos(videos, id) then IntegrityError("NOT NULL constraint failed: videos.collection_id")
    else Ok(true)
  }

  /** The three ways `delete_collection` can end. */
  lemma DeleteCollectionOutcomes(t: Table<Collection>, videos: Table<Video>, id: int)
    requires CollectionsOk(t)
    ensures var r := DeleteCollectionResult(t, videos, id);
            && !r.ValueError?
            && (r == Ok(false) <==> id !in t.rows)
            && (r == Ok(true) <==> id in t.rows && forall k :: k in videos.rows ==> videos.rows[k].collectionId != id)
            && (r.IntegrityError? <==>
                  id in t.rows && exists k :: k in videos.rows && videos.rows[k].collectionId == id)
  {
  }

  method DeleteCollection(db: Db, id: int) returns (r: Outcome<bool>)
    requires db.Valid()
    modifies db
    ensures db.Valid()
    ensures r == DeleteCollectionResult(old(db.collections), old(db.videos), id)
    ensures db.collections == (if r == Ok(true) then Delete(old(db.collections), id) else old(db.collections))
    ensures db.users == old(db.users) && db.videos == old(db.videos) && db.transcripts == old(db.transcripts)
    ensures old(db.Linked()) ==> db.Linked()
  {
    var collection := GetCollectionById(db.collections, id);
    if collection.None? {
      return Ok(false);
    }
    if HoldsVideos(db.videos, id) {
      // the flush nulls each video's `collection_id`, and the NOT NULL column rejects it
      return IntegrityError("NOT NULL constraint failed: videos.collection_id");
    }
    if db.Linked() { LinkedDeleteCollection(db.users, db.collections, db.videos, db.transcripts, id); }
    db.CommitCollections(Delete(db.collections, id));
    r := Ok(true);
  }
}
