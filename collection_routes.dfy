/**
 * The `/collections` handlers as decisions over the request body, the
 * queries they run and the outcome of the service call they make.
 */
module CollectionRoutes {
  import opened Python
  import opened Tables
  import opened Models
  import opened Database
  import opened Http
  import CollectionService

  datatype NewCollection = NewCollection(name: Option<string>, userId: Option<int>, description: Option<string>)

  /**
   * `POST /collections`: the body, then the name, then the owner id must be
   * truthy; then `create_collection` is called, whose outcome is `created`.
   * An integrity failure is reported as a 500 with the driver's text.
   */
  function CreateCollection(body: Option<NewCollection>, created: Outcome<Collection>): (r: Reply<Collection>)
    ensures r.status in {201, 400, 500}
    ensures body.None? ==> r == InvalidBody()
    ensures body.Some? && FalsyStr(body.value.name) ==> r == Required("Collection name is required")
    ensures body.Some? && !FalsyStr(body.value.name) && FalsyInt(body.value.userId) ==> r == Required("User ID is required")
    ensures r.status == 201 <==> body.Some? && !FalsyStr(body.value.name) && !FalsyInt(body.value.userId) && created.Ok?
    ensures r.status == 201 ==> r == Record(201, created.value, Some("Collection created successfully"))
    ensures r.status == 500 <==> body.Some? && !FalsyStr(body.value.name) && !FalsyInt(body.value.userId) && created.IntegrityError?
  {
    if body.None? then InvalidBody()
    else if FalsyStr(body.value.name) then Required("Collection name is required")
    else if FalsyInt(body.value.userId) then Required("User ID is required")
    else match created
      case Ok(collection) => Record(201, collection, Some("Collection created successfully"))
      case ValueError(message) => Error(400, "Validation error", message)
      case IntegrityError(detail) => Error(500, "Database error", detail)
  }

  /**
   * `POST /collections` with the service's actual outcome: never a 500; a
   * blank name or an unknown owner is 400 with the service's message, and
   * otherwise the collection is created for that owner.
   */
  lemma CreateCollectionEndToEnd(users: Table<User>, t: Table<Collection>, name: string, userId: int,
                                 description: Option<string>)
    requires UsersOk(users) && CollectionsOk(t) && name != "" && userId != 0
    ensures var c := CollectionService.CreateCollectionResult(users, t, Some(name), userId, description);
            var r := CreateCollection(Some(NewCollection(Some(name), Some(userId), description)), c);
            && r.status != 500
            && (r.status == 201 <==> !AllSpace(name) && userId in users.rows)
            && (AllSpace(name) ==> r == Error(400, "Validation error", "Collection name cannot be empty"))
            && (r.status == 201 ==> r.item.id !in t.rows && r.item.userId == userId && r.item.name == Strip(name))
  {
    CollectionService.CreateCollectionOutcomes(users, t, Some(name), userId, description);
  }

  /** `GET /collections/<id>`: the stored collection, or 404. */
  function GetCollection(t: Table<Collection>, id: int): (r: Reply<Collection>)
    requires CollectionsOk(t)
    ensures r.status == 200 <==> id in t.rows
    ensures r.status == 200 ==> r == Record(200, t.rows[id], None) && r.item.id == id
    ensures r.status != 200 ==> r == NotFound("Collection", id)
  {
    var found := CollectionService.GetCollectionById(t, id);
    if found.None? then NotFound("Collection", id) else Record(200, found.value, None)
  }

  /**
   * `DELETE /collections/<id>`: 404 when the service found no such
   * collection, 200 when it deleted it, and 500 `Failed to delete collection`
   * when it raised.
   */
  function DeleteCollection(id: int, deleted: Outcome<bool>): (r: Reply<Collection>)
    ensures r.status in {200, 404, 500}
    ensures r.status == 200 <==> deleted == Ok(true)
    ensures r.status == 404 <==> deleted == Ok(false)
    ensures deleted == Ok(false) ==> r == NotFound("Collection", id)
    ensures !deleted.Ok? ==> r.Error? && r.error == "Failed to delete collection"
  {
    Deleted("Collection", id, deleted, "Failed to delete collection")
  }

  /**
   * `DELETE /collections/<id>` with the service's actual outcome: 404 exactly
   * for an unknown id, 500 exactly for a collection that still holds a
   * video, and 200 otherwise.
   */
  lemma DeleteCollectionEndToEnd(t: Table<Collection>, videos: Table<Video>, id: int)
    requires CollectionsOk(t)
    ensures var r := DeleteCollection(id, CollectionService.DeleteCollectionResult(t, videos, id));
            && (r.status == 404 <==> id !in t.rows)
            && (r.status == 500 <==> id in t.rows && exists k :: k in videos.rows && videos.rows[k].collectionId == id)
            && (r.status == 500 ==>
                  r == Error(500, "Failed to delete collection", "NOT NULL constraint failed: videos.collection_id"))
            && (r.status == 200 <==> id in t.rows && forall k :: k in videos.rows ==> videos.rows[k].collectionId != id)
  {
    CollectionService.DeleteCollectionOutcomes(t, videos, id);
  }

  /** Get and delete agree: both answer the same 404 for an id that is not stored. */
  lemma UnknownCollectionNotFound(t: Table<Collection>, videos: Table<Video>, id: int)
    requires CollectionsOk(t) && id !in t.rows
    ensures GetCollection(t, id) == DeleteCollection(id, CollectionService.DeleteCollectionResult(t, videos, id))
  {
  }

  /** `GET /collections`: the requested page, optionally of one owner's collections, with its count. */
  function GetAllCollections(t: Table<Collection>, limit: Option<int>, offset: Option<int>, userId: Option<int>): (r: Reply<Collection>)
    requires CollectionsOk(t)
    ensures r.Listing? && r.status == 200 && r.count == |r.items|
    ensures forall i :: 0 <= i < |r.items| ==> r.items[i].id in t.rows && t.rows[r.items[i].id] == r.items[i]
    ensures userId.Some? ==> forall i :: 0 <= i < |r.items| ==> r.items[i].userId == userId.value
    ensures limit.Some? && 0 <= limit.value ==> r.count <= limit.value
    ensures r.items == CollectionService.GetAllCollections(t, limit, offset, userId)
  {
    ListOf(CollectionService.GetAllCollections(t, limit, offset, userId))
  }
}
