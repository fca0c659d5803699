/**
 * The `/transcripts` handlers as decisions over the request body, the
 * queries they run and the outcome of the service call they make.
 */
module TranscriptRoutes {
  import opened Python
  import opened Tables
  import opened Models
  import opened Database
  import opened Http
  import TranscriptService

  datatype NewTranscript = NewTranscript(videoId: Option<int>, content: Option<string>)

  /**
   * `POST /transcripts`: the body, then the video id, then the content must
   * be truthy; then `create_transcript` is called, whose outcome is
   * `created`. An integrity failure is a 500 with the driver's text.
   */
  function CreateTranscript(body: Option<NewTranscript>, created: Outcome<Transcript>): (r: Reply<Transcript>)
    ensures r.status in {201, 400, 500}
    ensures body.None? ==> r == InvalidBody()
    ensures body.Some? && FalsyInt(body.value.videoId) ==> r == Required("Video ID is required")
    ensures body.Some? && !FalsyInt(body.value.videoId) && FalsyStr(body.value.content) ==>
              r == Required("Transcript content is required")
    ensures r.status == 201 <==> body.Some? && !FalsyInt(body.value.videoId) && !FalsyStr(body.value.content) && created.Ok?
    ensures r.status == 201 ==> r == Record(201, created.value, Some("Transcript created successfully"))
    ensures r.status == 500 <==>
              body.Some? && !FalsyInt(body.value.videoId) && !FalsyStr(body.value.content) && created.IntegrityError?
  {
    if body.None? then InvalidBody()
    else if FalsyInt(body.value.videoId) then Required("Video ID is required")
    else if FalsyStr(body.value.content) then Required("Transcript content is required")
    else match created
      case Ok(transcript) => Record(201, transcript, Some("Transcript created successfully"))
      case ValueError(message) => Error(400, "Validation error", message)
      case IntegrityError(detail) => Error(500, "Database error", detail)
  }

  /**
   * `POST /transcripts` with the service's actual outcome: never a 500; 201
   * exactly when the content is not blank and the video is stored, and the
   * reply carries the stripped content.
   */
  lemma CreateTranscriptEndToEnd(videos: Table<Video>, t: Table<Transcript>, videoId: int, content: string)
    requires VideosOk(videos) && TranscriptsOk(t) && videoId != 0 && content != ""
    ensures var c := TranscriptService.CreateTranscriptResult(videos, t, videoId, Some(content));
            var r := CreateTranscript(Some(NewTranscript(Some(videoId), Some(content))), c);
            && r.status != 500
            && (r.status == 201 <==> !AllSpace(content) && videoId in videos.rows)
            && (AllSpace(content) ==> r == Error(400, "Validation error", "Transcript content cannot be empty"))
            && (r.status == 201 ==> r.item.content == Strip(content) && r.item.videoId == videoId && r.item.id !in t.rows)
  {
    TranscriptService.CreateTranscriptOutcomes(videos, t, videoId, Some(content));
  }

  /** `GET /transcripts/<id>`: the stored transcript, or 404. */
  function GetTranscript(t: Table<Transcript>, id: int): (r: Reply<Transcript>)
    requires TranscriptsOk(t)
    ensures r.status == 200 <==> id in t.rows
    ensures r.status == 200 ==> r == Record(200, t.rows[id], None) && r.item.id == id
    ensures r.status != 200 ==> r == NotFound("Transcript", id)
  {
    var found := TranscriptService.GetTranscriptById(t, id);
    if found.None? then NotFound("Transcript", id) else Record(200, found.value, None)
  }

  /** `GET /transcripts/<video_id>` (the by-video handler): that video's transcripts, with their count. */
  function GetTranscriptsByVideo(t: Table<Transcript>, videoId: int): (r: Reply<Transcript>)
    requires TranscriptsOk(t)
    ensures r.Listing? && r.status == 200 && r.count == |r.items|
    ensures forall i :: 0 <= i < |r.items| ==>
              r.items[i].videoId == videoId && r.items[i].id in t.rows && t.rows[r.items[i].id] == r.items[i]
    ensures forall k :: k in t.rows && t.rows[k].videoId == videoId ==> t.rows[k] in r.items
    ensures r.items == TranscriptService.GetTranscriptsByVideo(t, videoId)
  {
    ListOf(TranscriptService.GetTranscriptsByVideo(t, videoId))
  }

  /**
   * `DELETE /transcripts/<id>`: 404 when the service found no such
   * transcript, 200 when it deleted it. Nothing refers to a transcript, so
   * `delete_transcript` has no failing case and the handler's 500 is not
   * reached from a modelled outcome.
   */
  function DeleteTranscript(id: int, deleted: bool): (r: Reply<Transcript>)
    ensures r.status == 200 <==> deleted
    ensures r.status == 404 <==> !deleted
    ensures !deleted ==> r == NotFound("Transcript", id)
    ensures deleted ==> r == Message(200, "Transcript with ID " + IntToString(id) + " deleted successfully")
  {
    Deleted("Transcript", id, Ok(deleted), "Failed to delete transcript")
  }

  /** `GET /transcripts`: the requested page, optionally of one video's transcripts, with its count. */
  function GetAllTranscripts(t: Table<Transcript>, limit: Option<int>, offset: Option<int>, videoId: Option<int>): (r: Reply<Transcript>)
    requires TranscriptsOk(t)
    ensures r.Listing? && r.status == 200 && r.count == |r.items|
    ensures forall i :: 0 <= i < |r.items| ==> r.items[i].id in t.rows && t.rows[r.items[i].id] == r.items[i]
    ensures videoId.Some? ==> forall i :: 0 <= i < |r.items| ==> r.items[i].videoId == videoId.value
    ensures limit.Some? && 0 <= limit.value ==> r.count <= limit.value
    ensures r.items == TranscriptService.GetAllTranscripts(t, limit, offset, videoId)
  {
    ListOf(TranscriptService.GetAllTranscripts(t, limit, offset, videoId))
  }
}
