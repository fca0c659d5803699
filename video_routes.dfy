/**
 * The `/videos` handlers as decisions over the request body, the queries
 * they run and the outcome of the service call they make.
 */
module VideoRoutes {
  import opened Python
  import opened Tables
  import opened Models
  import opened Database
  import opened Http
  import VideoService

  datatype NewVideo = NewVideo(youtubeId: Option<string>, title: Option<string>, collectionId: Option<int>,
                               description: Option<string>)

  /** The fields a `PUT` body may carry; an absent one is forwarded as `None`, meaning unchanged. */
  datatype VideoChanges = VideoChanges(title: Option<string>, description: Option<string>, collectionId: Option<int>)

  const DuplicateVideo := "A video with this YouTube ID already exists"

  /**
   * `POST /videos`: the body, YouTube id, title and collection id are checked
   * in that order; then `create_video` is called, whose outcome is `created`.
   */
  function CreateVideo(body: Option<NewVideo>, created: Outcome<Video>): (r: Reply<Video>)
    ensures r.status in {201, 400, 409}
    ensures body.None? ==> r == InvalidBody()
    ensures body.Some? && FalsyStr(body.value.youtubeId) ==> r == Required("YouTube ID is required")
    ensures body.Some? && !FalsyStr(body.value.youtubeId) && FalsyStr(body.value.title) ==>
              r == Required("Video title is required")
    ensures body.Some? && !FalsyStr(body.value.youtubeId) && !FalsyStr(body.value.title) && FalsyInt(body.value.collectionId) ==>
              r == Required("Collection ID is required")
    ensures r.status == 409 <==> r == Error(409, "Database error", DuplicateVideo)
    ensures r.status == 409 || r.status == 201 <==>
              && body.Some? && !FalsyStr(body.value.youtubeId) && !FalsyStr(body.value.title)
              && !FalsyInt(body.value.collectionId) && (created.IntegrityError? || created.Ok?)
    ensures r.status == 201 ==> created.Ok? && r == Record(201, created.value, Some("Video created successfully"))
  {
    if body.None? then InvalidBody()
    else if FalsyStr(body.value.youtubeId) then Required("YouTube ID is required")
    else if FalsyStr(body.value.title) then Required("Video title is required")
    else if FalsyInt(body.value.collectionId) then Required("Collection ID is required")
    else match created
      case Ok(video) => Record(201, video, Some("Video created successfully"))
      case ValueError(message) => Error(400, "Validation error", message)
      case IntegrityError(_) => Error(409, "Database error", DuplicateVideo)
  }

  /**
   * `POST /videos` with the service's actual outcome: a YouTube id that,
   * once stripped, is already stored is 409 when the rest of the body is
   * valid.
   */
  lemma DuplicateYoutubeIdConflicts(collections: Table<Collection>, t: Table<Video>, youtubeId: string, title: string,
                                    collectionId: int, description: Option<string>)
    requires CollectionsOk(collections) && VideosOk(t)
    requires youtubeId != "" && title != "" && collectionId != 0
    requires !AllSpace(title) && collectionId in collections.rows
    requires exists k :: k in t.rows && t.rows[k].youtubeId == Strip(youtubeId)
    ensures var c := VideoService.CreateVideoResult(collections, t, Some(youtubeId), Some(title), collectionId, description);
            CreateVideo(Some(NewVideo(Some(youtubeId), Some(title), Some(collectionId), description)), c)
              == Error(409, "Database error", DuplicateVideo)
  {
    var k :| k in t.rows && t.rows[k].youtubeId == Strip(youtubeId);
    FilledNotBlank(t.rows[k].youtubeId);
    StripEmptyIff(youtubeId);
    VideoService.CreateVideoOutcomes(collections, t, Some(youtubeId), Some(title), collectionId, description);
  }

  /**
   * `POST /videos` with the service's actual outcome: 201 exactly when the
   * stripped fields are non-blank, the collection is stored and the
   * stripped YouTube id is new; the reply carries the stored video.
   */
  lemma CreateVideoEndToEnd(collections: Table<Collection>, t: Table<Video>, youtubeId: string, title: string,
                            collectionId: int, description: Option<string>)
    requires CollectionsOk(collections) && VideosOk(t)
    requires youtubeId != "" && title != "" && collectionId != 0
    ensures var c := VideoService.CreateVideoResult(collections, t, Some(youtubeId), Some(title), collectionId, description);
            var r := CreateVideo(Some(NewVideo(Some(youtubeId), Some(title), Some(collectionId), description)), c);
            && (r.status == 201 <==>
                  && !AllSpace(youtubeId) && !AllSpace(title) && collectionId in collections.rows
                  && forall k :: k in t.rows ==> t.rows[k].youtubeId != Strip(youtubeId))
            && (r.status == 201 ==>
                  && r.item.youtubeId == Strip(youtubeId) && r.item.title == Strip(title)
                  && r.item.collectionId == collectionId && r.item.id !in t.rows)
  {
    var c := VideoService.CreateVideoResult(collections, t, Some(youtubeId), Some(title), collectionId, description);
    VideoService.CreateVideoOutcomes(collections, t, Some(youtubeId), Some(title), collectionId, description);
    assert CreateVideo(Some(NewVideo(Some(youtubeId), Some(title), Some(collectionId), description)), c).status == 201
           <==> c.Ok?;
  }

  /** `GET /videos/<id>`: the stored video, or 404. */
  function GetVideo(t: Table<Video>, id: int): (r: Reply<Video>)
    requires VideosOk(t)
    ensures r.status == 200 <==> id in t.rows
    ensures r.status == 200 ==> r == Record(200, t.rows[id], None) && r.item.id == id
    ensures r.status != 200 ==> r == NotFound("Video", id)
  {
    var found := VideoService.GetVideoById(t, id);
    if found.None? then NotFound("Video", id) else Record(200, found.value, None)
  }

  /**
   * `PUT /videos/<id>`: a falsy body is 400; otherwise the given fields are
   * forwarded to `update_video`, whose outcome is `updated`. Any exception
   * other than `ValueError` is a 500.
   */
  function UpdateVideo(id: int, body: Option<VideoChanges>, updated: Outcome<Option<Video>>): (r: Reply<Video>)
    ensures r.status in {200, 400, 404, 500}
    ensures body.None? ==> r == InvalidBody()
    ensures r.status == 404 <==> body.Some? && updated == Ok(None)
    ensures r.status == 404 ==> r == NotFound("Video", id)
    ensures r.status == 200 <==> body.Some? && updated.Ok? && updated.value.Some?
    ensures r.status == 200 ==> r == Record(200, updated.value.value, Some("Video updated successfully"))
    ensures body.Some? && updated.ValueError? ==> r == Error(400, "Validation error", updated.message)
  {
    if body.None? then InvalidBody()
    else match updated
      case Ok(video) =>
        if video.None? then NotFound("Video", id)
        else Record(200, video.value, Some("Video updated successfully"))
      case ValueError(message) => Error(400, "Validation error", message)
      case IntegrityError(detail) => Error(500, "Failed to update video", detail)
  }

  /**
   * `PUT /videos/<id>` with the service's actual outcome: 404 exactly for an
   * unknown video; on 200 the reply is the stored row with only the fields
   * the body carried changed, and the YouTube id as before.
   */
  lemma UpdateVideoEndToEnd(collections: Table<Collection>, t: Table<Video>, id: int, changes: VideoChanges)
    requires CollectionsOk(collections) && VideosOk(t)
    ensures var u := VideoService.UpdateVideoResult(collections, t, id, changes.title, changes.description, changes.collectionId);
            var r := UpdateVideo(id, Some(changes), u);
            && r.status != 500
            && (r.status == 404 <==> id !in t.rows)
            && (r.status == 200 ==>
                  && r.item.id == id && r.item.youtubeId == t.rows[id].youtubeId
                  && (changes.title.None? ==> r.item.title == t.rows[id].title)
                  && (changes.description.None? ==> r.item.description == t.rows[id].description)
                  && (changes.collectionId.None? ==> r.item.collectionId == t.rows[id].collectionId))
  {
    VideoService.UpdateVideoOutcomes(collections, t, id, changes.title, changes.description, changes.collectionId);
  }

  /**
   * `DELETE /videos/<id>`: 404 when the service found no such video, 200 when
   * it deleted it, and 500 `Failed to delete video` when it raised.
   */
  function DeleteVideo(id: int, deleted: Outcome<bool>): (r: Reply<Video>)
    ensures r.status in {200, 404, 500}
    ensures r.status == 200 <==> deleted == Ok(true)
    ensures r.status == 404 <==> deleted == Ok(false)
    ensures deleted == Ok(false) ==> r == NotFound("Video", id)
    ensures !deleted.Ok? ==> r.Error? && r.error == "Failed to delete video"
  {
    Deleted("Video", id, deleted, "Failed to delete video")
  }

  /**
   * `DELETE /videos/<id>` with the service's actual outcome: 404 exactly for
   * an unknown id, 500 exactly for a video that still has a transcript, and
   * 200 otherwise.
   */
  lemma DeleteVideoEndToEnd(t: Table<Video>, transcripts: Table<Transcript>, id: int)
    requires VideosOk(t)
    ensures var r := DeleteVideo(id, VideoService.DeleteVideoResult(t, transcripts, id));
            && (r.status == 404 <==> id !in t.rows)
            && (r.status == 500 <==> id in t.rows && exists k :: k in transcripts.rows && transcripts.rows[k].videoId == id)
            && (r.status == 500 ==>
                  r == Error(500, "Failed to delete video", "NOT NULL constraint failed: transcripts.video_id"))
            && (r.status == 200 <==> id in t.rows && forall k :: k in transcripts.rows ==> transcripts.rows[k].videoId != id)
  {
    VideoService.DeleteVideoOutcomes(t, transcripts, id);
  }

  /** `GET /videos`: the requested page, optionally of one collection's videos, with its count. */
  function GetAllVideos(t: Table<Video>, limit: Option<int>, offset: Option<int>, collectionId: Option<int>): (r: Reply<Video>)
    requires VideosOk(t)
    ensures r.Listing? && r.status == 200 && r.count == |r.items|
    ensures forall i :: 0 <= i < |r.items| ==> r.items[i].id in t.rows && t.rows[r.items[i].id] == r.items[i]
    ensures collectionId.Some? ==> forall i :: 0 <= i < |r.items| ==> r.items[i].collectionId == collectionId.value
    ensures limit.Some? && 0 <= limit.value ==> r.count <= limit.value
    ensures r.items == VideoService.GetAllVideos(t, limit, offset, collectionId)
  {
    ListOf(VideoService.GetAllVideos(t, limit, offset, collectionId))
  }
}
