/**
 * `VideoService`: videos belong to a collection and carry a YouTube id that
 * the schema keeps unique. Queries are functions of the tables; creating,
 * updating and deleting a video are methods on the database.
 */
module VideoService {
  import opened Python
  import opened Tables
  import opened Models
  import opened Database
  import CollectionService

  /** A listed video is the stored row under its own id. */
  lemma ListedVideo(t: Table<Video>, x: Video)
    requires VideosOk(t) && x in Rows(t)
    ensures x.id in t.rows && t.rows[x.id] == x
  {
    RowsStored(t, x);
  }

  /** `video_exists(video_id)`: a video with this primary key is stored. */
  predicate VideoExists(t: Table<Video>, id: int) {
    id in t.rows
  }

  /** The query `video_exists` runs, `filter_by(id=...).first() is not None`, is that key test. */
  lemma VideoExistsQuery(t: Table<Video>, id: int)
    requires VideosOk(t)
    ensures VideoExists(t, id) <==> Where(Rows(t), (v: Video) => v.id == id) != []
  {
    RowsWhere(t, (v: Video) => v.id == id);
  }

  /** `get_video_by_id(video_id)`. */
  function GetVideoById(t: Table<Video>, id: int): (r: Option<Video>)
    requires VideosOk(t)
    ensures r.Some? <==> id in t.rows
    ensures r.Some? ==> r.value == t.rows[id] && r.value.id == id
  {
    Get(t, id)
  }

  /** `get_videos_by_collection(collection_id)`: exactly the stored videos of that collection. */
  function GetVideosByCollection(t: Table<Video>, collectionId: int): (r: seq<Video>)
    requires VideosOk(t)
    ensures forall i :: 0 <= i < |r| ==> r[i].collectionId == collectionId && r[i].id in t.rows && t.rows[r[i].id] == r[i]
    ensures forall k :: k in t.rows && t.rows[k].collectionId == collectionId ==> t.rows[k] in r
  {
    var r := Where(Rows(t), (v: Video) => v.collectionId == collectionId);
    forall i | 0 <= i < |r| ensures r[i].id in t.rows && t.rows[r[i].id] == r[i] {
      ListedVideo(t, r[i]);
    }
    r
  }

  /**
   * `get_video_by_youtube_id(youtube_id)`: the first stored video with exactly
   * this YouTube id; since the column is unique, it is the only one.
   */
  function GetVideoByYoutubeId(t: Table<Video>, youtubeId: string): (r: Option<Video>)
    requires VideosOk(t)
    ensures r.Some? <==> exists k :: k in t.rows && t.rows[k].youtubeId == youtubeId
    ensures forall k :: k in t.rows && t.rows[k].youtubeId == youtubeId ==> r == Some(t.rows[k])
  {
    var found := Where(Rows(t), (v: Video) => v.youtubeId == youtubeId);
    RowsWhere(t, (v: Video) => v.youtubeId == youtubeId);
    if found == [] then None
    else
      assert found[0] in found;
      ListedVideo(t, found[0]);
      Some(found[0])
  }

  /** What the unique index on `youtube_id` tests at commit: the value is already stored. */
  predicate YoutubeIdTaken(t: Table<Video>, youtubeId: string) {
    exists k | k in t.rows :: t.rows[k].youtubeId == youtubeId
  }

  /**
   * `get_all_videos(limit, offset, collection_id)`: filter by collection when
   * one is given, then skip `offset`, then keep at most `limit`.
   */
  function GetAllVideos(t: Table<Video>, limit: Option<int>, offset: Option<int>, collectionId: Option<int>): (r: seq<Video>)
    requires VideosOk(t)
    ensures forall i :: 0 <= i < |r| ==> r[i].id in t.rows && t.rows[r[i].id] == r[i]
    ensures collectionId.Some? ==> forall i :: 0 <= i < |r| ==> r[i].collectionId == collectionId.value
    ensures limit.Some? && 0 <= limit.value ==> |r| <= limit.value
    ensures IsPage(r, if collectionId.Some? then GetVideosByCollection(t, collectionId.value) else Rows(t), offset, limit)
  {
    var s := if collectionId.Some? then GetVideosByCollection(t, collectionId.value) else Rows(t);
    var r := Page(s, offset, limit);
    forall i | 0 <= i < |r| ensures r[i] in s {
      PageFrom(s, offset, limit, r[i]);
    }
    forall i | 0 <= i < |r| ensures r[i].id in t.rows && t.rows[r[i].id] == r[i] {
      if collectionId.None? { ListedVideo(t, r[i]); }
    }
    r
  }

  /** With a collection and no paging, listing all videos is listing that collection's videos. */
  lemma AllVideosOfCollection(t: Table<Video>, collectionId: int)
    requires VideosOk(t)
    ensures GetAllVideos(t, None, None, Some(collectionId)) == GetVideosByCollection(t, collectionId)
  {
    PageAll(GetVideosByCollection(t, collectionId));
  }

  /** The description `create_video` stores: `None` when falsy, otherwise stripped (possibly to ""). */
  function CreatedDescription(description: Option<string>): (r: Option<string>)
    ensures StrippedOrNull(r)
    ensures r.None? <==> FalsyStr(description)
    ensures r.Some? ==> r.value == Strip(description.value)
  {
    if FalsyStr(description) then None else Some(Strip(description.value))
  }

  /**
   * `create_video(youtube_id, title, collection_id, description)`: YouTube id,
   * then title, then collection are checked; the unique index on `youtube_id`
   * rejects the commit when the stripped id is taken.
   */
  function CreateVideoResult(collections: Table<Collection>, t: Table<Video>, youtubeId: Option<string>,
                             title: Option<string>, collectionId: int, description: Option<string>): Outcome<Video>
    requires CollectionsOk(collections) && VideosOk(t)
  {
    if FalsyStr(youtubeId) || Strip(youtubeId.value) == "" then ValueError("YouTube ID cannot be empty")
    else if FalsyStr(title) || Strip(title.value) == "" then ValueError("Video title cannot be empty")
    else if !CollectionService.CollectionExists(collections, collectionId) then
      ValueError("Collection with ID " + IntToString(collectionId) + " does not exist")
    else if YoutubeIdTaken(t, Strip(youtubeId.value)) then
      IntegrityError("UNIQUE constraint failed: videos.youtube_id")
    else
      Ok(Video(NextId(t), Strip(youtubeId.value), Strip(title.value), CreatedDescription(description), collectionId))
  }

  /** How `create_video` ends, case by case, in the order the checks run. */
  lemma CreateVideoOutcomes(collections: Table<Collection>, t: Table<Video>, youtubeId: Option<string>,
                            title: Option<string>, collectionId: int, description: Option<string>)
    requires CollectionsOk(collections) && VideosOk(t)
    ensures var r := CreateVideoResult(collections, t, youtubeId, title, collectionId, description);
            && (Blank(youtubeId) ==> r == ValueError("YouTube ID cannot be empty"))
            && (!Blank(youtubeId) && Blank(title) ==> r == ValueError("Video title cannot be empty"))
            && (!Blank(youtubeId) && !Blank(title) && collectionId !in collections.rows ==>
                  r == ValueError("Collection with ID " + IntToString(collectionId) + " does not exist"))
            && (r.IntegrityError? <==>
                  && !Blank(youtubeId) && !Blank(title) && collectionId in collections.rows
                  && exists k :: k in t.rows && t.rows[k].youtubeId == Strip(youtubeId.value))
            && (r.Ok? <==>
                  && !Blank(youtubeId) && !Blank(title) && collectionId in collections.rows
                  && forall k :: k in t.rows ==> t.rows[k].youtubeId != Strip(youtubeId.value))
            && (r.Ok? ==> && r.value.id !in t.rows && r.value.collectionId == collectionId
                          && r.value.youtubeId == Strip(youtubeId.value) && r.value.title == Strip(title.value)
                          && (r.value.description.None? <==> FalsyStr(description))
                          && (r.value.description.Some? ==> r.value.description.value == Strip(description.value)))
  {
    if youtubeId.Some? { StripEmptyIff(youtubeId.value); }
    if title.Some? { StripEmptyIff(title.value); }
    if Blank(youtubeId) || Blank(title) || collectionId !in collections.rows {
    } else if YoutubeIdTaken(t, Strip(youtubeId.value)) {
      assert Strip(youtubeId.value) != "" && Strip(title.value) != "";
    } else {
      assert Strip(youtubeId.value) != "" && Strip(title.value) != "";
    }
  }

  lemma InsertVideoOk(t: Table<Video>, v: Video)
    requires VideosOk(t) && v.id == NextId(t)
    requires Filled(v.youtubeId) && Filled(v.title) && StrippedOrNull(v.description)
    requires forall k :: k in t.rows ==> t.rows[k].youtubeId != v.youtubeId
    ensures VideosOk(Insert(t, v))
  {
    var rows := Insert(t, v).rows;
    forall k | k in rows
      ensures rows[k].id == k && Filled(rows[k].youtubeId) && Filled(rows[k].title) && StrippedOrNull(rows[k].description)
    {
      if k != v.id { assert rows[k] == t.rows[k]; }
    }
    forall j, k | j in rows && k in rows && rows[j].youtubeId == rows[k].youtubeId ensures j == k {
      if j != v.id && k != v.id {
        assert rows[j] == t.rows[j] && rows[k] == t.rows[k];
      }
    }
  }

  method CreateVideo(db: Db, youtubeId: Option<string>, title: Option<string>, collectionId: int, description: Option<string>)
    returns (r: Outcome<Video>)
    requires db.Valid()
    modifies db
    ensures db.Valid()
    ensures r == CreateVideoResult(old(db.collections), old(db.videos), youtubeId, title, collectionId, description)
    ensures db.videos == (if r.Ok? then Insert(old(db.videos), r.value) else old(db.videos))
    ensures db.users == old(db.users) && db.collections == old(db.collections) && db.transcripts == old(db.transcripts)
    ensures old(db.Linked()) ==> db.Linked()
  {
    if FalsyStr(youtubeId) || Strip(youtubeId.value) == "" {
      return ValueError("YouTube ID cannot be empty");
    }
    if FalsyStr(title) || Strip(title.value) == "" {
      return ValueError("Video title cannot be empty");
    }
    if !CollectionService.CollectionExists(db.collections, collectionId) {
      return ValueError("Collection with ID " + IntToString(collectionId) + " does not exist");
    }
    var video := Video(NextId(db.videos), Strip(youtubeId.value), Strip(title.value), CreatedDescription(description), collectionId);
    if YoutubeIdTaken(db.videos, video.youtubeId) {
      // the unique index on `youtube_id` rejects the commit
      return IntegrityError("UNIQUE constraint failed: videos.youtube_id");
    }
    InsertVideoOk(db.videos, video);
    var videos := Insert(db.videos, video);
    if db.Linked() { LinkedStoreVideo(db.users, db.collections, db.videos, videos, db.transcripts, video.id, video); }
    db.CommitVideos(videos);
    r := Ok(video);
  }

  /**
   * `update_video(video_id, title, description, collection_id)`: `None` for an
   * unknown video; otherwise the new collection is checked, then the new title,
   * and only the fields given change. A blank new description clears it.
   * A raised `ValueError` leaves the stored row as it was.
   */
  function UpdateVideoResult(collections: Table<Collection>, t: Table<Video>, id: int, title: Option<string>,
                             description: Option<string>, collectionId: Option<int>): Outcome<Option<Video>>
    requires CollectionsOk(collections) && VideosOk(t)
  {
    if id !in t.rows then Ok(None)
    else if collectionId.Some? && !CollectionService.CollectionExists(collections, collectionId.value) then
      ValueError("Collection with ID " + IntToString(collectionId.value) + " does not exist")
    else if title.Some? && Strip(title.value) == "" then ValueError("Video title cannot be empty")
    else
      var v := t.rows[id];
      Ok(Some(v.(collectionId := if collectionId.Some? then collectionId.value else v.collectionId,
                 title := if title.Some? then Strip(title.value) else v.title,
                 description := if description.None? then v.description
                                else if Strip(description.value) == "" then None
                                else Some(Strip(description.value)))))
  }

  /** What `update_video` changes and what it leaves alone. */
  lemma UpdateVideoOutcomes(collections: Table<Collection>, t: Table<Video>, id: int, title: Option<string>,
                            description: Option<string>, collectionId: Option<int>)
    requires CollectionsOk(collections) && VideosOk(t)
    ensures var r := UpdateVideoResult(collections, t, id, title, description, collectionId);
            && !r.IntegrityError?
            && (r == Ok(None) <==> id !in t.rows)
            && (collectionId.Some? ==>
                  (r == ValueError("Collection with ID " + IntToString(collectionId.value) + " does not exist") <==>
                     id in t.rows && collectionId.value !in collections.rows))
            && (r == ValueError("Video title cannot be empty") <==>
                  && id in t.rows && (collectionId.None? || collectionId.value in collections.rows)
                  && title.Some? && AllSpace(title.value))
            && (r.Ok? && r.value.Some? <==>
                  && id in t.rows && (collectionId.None? || collectionId.value in collections.rows)
                  && (title.None? || !AllSpace(title.value)))
            && (r.Ok? && r.value.Some? ==>
                  var old_ := t.rows[id];
                  var new_ := r.value.value;
                  && new_.id == id && new_.youtubeId == old_.youtubeId
                  && new_.collectionId == (if collectionId.None? then old_.collectionId else collectionId.value)
                  && (new_.collectionId in collections.rows || new_.collectionId == old_.collectionId)
                  && new_.title == (if title.None? then old_.title else Strip(title.value))
                  && (description.None? ==> new_.description == old_.description)
                  && (description.Some? ==> (new_.description.None? <==> AllSpace(description.value)))
                  && (description.Some? && !AllSpace(description.value) ==>
                        new_.description == Some(Strip(description.value))))
  {
    if title.Some? { StripEmptyIff(title.value); }
    if description.Some? { StripEmptyIff(description.value); }
    if collectionId.Some? {
      var m := "Collection with ID " + IntToString(collectionId.value) + " does not exist";
      assert m[0] == 'C' && "Video title cannot be empty"[0] == 'V';
    }
  }

  lemma PutVideoOk(t: Table<Video>, v: Video)
    requires VideosOk(t) && v.id in t.rows && t.rows[v.id].youtubeId == v.youtubeId
    requires Filled(v.title) && StrippedOrNull(v.description)
    ensures VideosOk(Put(t, v.id, v))
  {
    var rows := Put(t, v.id, v).rows;
    forall k | k in rows
      ensures rows[k].id == k && Filled(rows[k].youtubeId) && Filled(rows[k].title) && StrippedOrNull(rows[k].description)
    {
      if k != v.id { assert rows[k] == t.rows[k]; }
    }
    forall j, k | j in rows && k in rows && rows[j].youtubeId == rows[k].youtubeId ensures j == k {
      assert rows[j].youtubeId == t.rows[j].youtubeId && rows[k].youtubeId == t.rows[k].youtubeId;
    }
  }

  /** A successful update keeps every table invariant. */
  lemma UpdatedVideoOk(collections: Table<Collection>, t: Table<Video>, id: int, title: Option<string>,
                       description: Option<string>, collectionId: Option<int>)
    requires CollectionsOk(collections) && VideosOk(t)
    requires UpdateVideoResult(collections, t, id, title, description, collectionId).Ok?
    requires UpdateVideoResult(collections, t, id, title, description, collectionId).value.Some?
    ensures var v := UpdateVideoResult(collections, t, id, title, description, collectionId).value.value;
            VideosOk(Put(t, id, v))
  {
    var v := UpdateVideoResult(collections, t, id, title, description, collectionId).value.value;
    if title.Some? { StripEmptyIff(title.value); }
    PutVideoOk(t, v);
  }

  /** Applying the same update again changes nothing further. */
  lemma UpdateVideoIdempotent(collections: Table<Collection>, t: Table<Video>, id: int, title: Option<string>,
                              description: Option<string>, collectionId: Option<int>)
    requires CollectionsOk(collections) && VideosOk(t)
    requires UpdateVideoResult(collections, t, id, title, description, collectionId).Ok?
    requires UpdateVideoResult(collections, t, id, title, description, collectionId).value.Some?
    ensures var v := UpdateVideoResult(collections, t, id, title, description, collectionId).value.value;
            && VideosOk(Put(t, id, v))
            && UpdateVideoResult(collections, Put(t, id, v), id, title, description, collectionId) == Ok(Some(v))
  {
    UpdatedVideoOk(collections, t, id, title, description, collectionId);
  }

  method UpdateVideo(db: Db, id: int, title: Option<string>, description: Option<string>, collectionId: Option<int>)
    returns (r: Outcome<Option<Video>>)
    requires db.Valid()
    modifies db
    ensures db.Valid()
    ensures r == UpdateVideoResult(old(db.collections), old(db.videos), id, title, description, collectionId)
    ensures db.videos == (if r.Ok? && r.value.Some? then Put(old(db.videos), id, r.value.value) else old(db.videos))
    ensures db.users == old(db.users) && db.collections == old(db.collections) && db.transcripts == old(db.transcripts)
    ensures old(db.Linked()) ==> db.Linked()
  {
    var found := GetVideoById(db.videos, id);
    if found.None? {
      return Ok(None);
    }
    var video := found.value;
    if collectionId.Some? {
      if !CollectionService.CollectionExists(db.collections, collectionId.value) {
        return ValueError("Collection with ID " + IntToString(collectionId.value) + " does not exist");
      }
      video := video.(collectionId := collectionId.value);
    }
    if title.Some? {
      if Strip(title.value) == "" {
        return ValueError("Video title cannot be empty");
      }
      video := video.(title := Strip(title.value));
    }
    if description.Some? {
      video := video.(description := if Strip(description.value) != "" then Some(Strip(description.value)) else None);
    }
    UpdatedVideoOk(db.collections, db.videos, id, title, description, collectionId);
    var videos := Put(db.videos, id, video);
    if db.Linked() { LinkedStoreVideo(db.users, db.collections, db.videos, videos, db.transcripts, id, video); }
    db.CommitVideos(videos);
    r := Ok(Some(video));
  }

  /**
   * `delete_video(video_id)`: `False` for an unknown id. A video that still
   * has transcripts cannot be deleted: the flush sets each transcript's
   * NOT NULL `video_id` to NULL and the commit fails. Otherwise `True`.
   */
  function DeleteVideoResult(t: Table<Video>, transcripts: Table<Transcript>, id: int): Outcome<bool>
    requires VideosOk(t)
  {
    if GetVideoById(t, id).None? then Ok(false)
    else if HasTranscripts(transcripts, id) then IntegrityError("NOT NULL constraint failed: transcripts.video_id")
    else Ok(true)
  }

  /** The three ways `delete_video` can end. */
  lemma DeleteVideoOutcomes(t: Table<Video>, transcripts: Table<Transcript>, id: int)
    requires VideosOk(t)
    ensures var r := DeleteVideoResult(t, transcripts, id);
            && !r.ValueError?
            && (r == Ok(false) <==> id !in t.rows)
            && (r == Ok(true) <==> id in t.rows && forall k :: k in transcripts.rows ==> transcripts.rows[k].videoId != id)
            && (r.IntegrityError? <==>
                  id in t.rows && exists k :: k in transcripts.rows && transcripts.rows[k].videoId == id)
  {
  }

  method DeleteVideo(db: Db, id: int) returns (r: Outcome<bool>)
    requires db.Valid()
    modifies db
    ensures db.Valid()
    ensures r == DeleteVideoResult(old(db.videos), old(db.transcripts), id)
    ensures db.videos == (if r == Ok(true) then Delete(old(db.videos), id) else old(db.videos))
    ensures db.users == old(db.users) && db.collections == old(db.collections) && db.transcripts == old(db.transcripts)
    ensures old(db.Linked()) ==> db.Linked()
  {
    var video := GetVideoById(db.videos, id);
    if video.None? {
      return Ok(false);
    }
    if HasTranscripts(db.transcripts, id) {
      // the flush nulls each transcript's `video_id`, and the NOT NULL column rejects it
      return IntegrityError("NOT NULL constraint failed: transcripts.video_id");
    }
    if db.Linked() { LinkedDeleteVideo(db.users, db.collections, db.videos, db.transcripts, id); }
    db.CommitVideos(Delete(db.videos, id));
    r := Ok(true);
  }
}
