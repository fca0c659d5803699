/**
 * `TranscriptService`: transcripts hold the text of a stored video. Queries
 * are functions of the tables; `CreateTranscript` and `DeleteTranscript`
 * change the database.
 */
module TranscriptService {
  import opened Python
  import opened Tables
  import opened Models
  import opened Database
  import VideoService

  /** A listed transcript is the stored row under its own id. */
  lemma ListedTranscript(t: Table<Transcript>, x: Transcript)
    requires TranscriptsOk(t) && x in Rows(t)
    ensures x.id in t.rows && t.rows[x.id] == x
  {
    RowsStored(t, x);
  }

  /** `transcript_exists(transcript_id)`: a transcript with this primary key is stored. */
  predicate TranscriptExists(t: Table<Transcript>, id: int) {
    id in t.rows
  }

  /** The query `transcript_exists` runs, `filter_by(id=...).first() is not None`, is that key test. */
  lemma TranscriptExistsQuery(t: Table<Transcript>, id: int)
    requires TranscriptsOk(t)
    ensures TranscriptExists(t, id) <==> Where(Rows(t), (x: Transcript) => x.id == id) != []
  {
    RowsWhere(t, (x: Transcript) => x.id == id);
  }

  /** `get_transcript_by_id(transcript_id)`. */
  function GetTranscriptById(t: Table<Transcript>, id: int): (r: Option<Transcript>)
    requires TranscriptsOk(t)
    ensures r.Some? <==> id in t.rows
    ensures r.Some? ==> r.value == t.rows[id] && r.value.id == id
  {
    Get(t, id)
  }

  /** `get_transcripts_by_video(video_id)`: exactly the stored transcripts of that video. */
  function GetTranscriptsByVideo(t: Table<Transcript>, videoId: int): (r: seq<Transcript>)
    requires TranscriptsOk(t)
    ensures forall i :: 0 <= i < |r| ==> r[i].videoId == videoId && r[i].id in t.rows && t.rows[r[i].id] == r[i]
    ensures forall k :: k in t.rows && t.rows[k].videoId == videoId ==> t.rows[k] in r
  {
    var r := Where(Rows(t), (x: Transcript) => x.videoId == videoId);
    forall i | 0 <= i < |r| ensures r[i].id in t.rows && t.rows[r[i].id] == r[i] {
      ListedTranscript(t, r[i]);
    }
    r
  }

  /**
   * `get_all_transcripts(limit, offset, video_id)`: filter by video when one
   * is given, then skip `offset`, then keep at most `limit`.
   */
  function GetAllTranscripts(t: Table<Transcript>, limit: Option<int>, offset: Option<int>, videoId: Option<int>): (r: seq<Transcript>)
    requires TranscriptsOk(t)
    ensures forall i :: 0 <= i < |r| ==> r[i].id in t.rows && t.rows[r[i].id] == r[i]
    ensures videoId.Some? ==> forall i :: 0 <= i < |r| ==> r[i].videoId == videoId.value
    ensures limit.Some? && 0 <= limit.value ==> |r| <= limit.value
    ensures IsPage(r, if videoId.Some? then GetTranscriptsByVideo(t, videoId.value) else Rows(t), offset, limit)
  {
    var s := if videoId.Some? then GetTranscriptsByVideo(t, videoId.value) else Rows(t);
    var r := Page(s, offset, limit);
    forall i | 0 <= i < |r| ensures r[i] in s {
      PageFrom(s, offset, limit, r[i]);
    }
    forall i | 0 <= i < |r| ensures r[i].id in t.rows && t.rows[r[i].id] == r[i] {
      if videoId.None? { ListedTranscript(t, r[i]); }
    }
    r
  }

  /** With a video and no paging, listing all transcripts is listing that video's transcripts. */
  lemma AllTranscriptsOfVideo(t: Table<Transcript>, videoId: int)
    requires TranscriptsOk(t)
    ensures GetAllTranscripts(t, None, None, Some(videoId)) == GetTranscriptsByVideo(t, videoId)
  {
    PageAll(GetTranscriptsByVideo(t, videoId));
  }

  /**
   * `create_transcript(video_id, content)`: the content is checked before the
   * video; the stripped content is stored. A video may have any number of
   * transcripts.
   */
  function CreateTranscriptResult(videos: Table<Video>, t: Table<Transcript>, videoId: int, content: Option<string>)
    : Outcome<Transcript>
    requires VideosOk(videos) && TranscriptsOk(t)
  {
    if FalsyStr(content) || Strip(content.value) == "" then ValueError("Transcript content cannot be empty")
    else if !VideoService.VideoExists(videos, videoId) then
      ValueError("Video with ID " + IntToString(videoId) + " does not exist")
    else Ok(Transcript(NextId(t), videoId, Strip(content.value)))
  }

  /** How `create_transcript` ends, case by case. */
  lemma CreateTranscriptOutcomes(videos: Table<Video>, t: Table<Transcript>, videoId: int, content: Option<string>)
    requires VideosOk(videos) && TranscriptsOk(t)
    ensures var r := CreateTranscriptResult(videos, t, videoId, content);
            && !r.IntegrityError?
            && (Blank(content) ==> r == ValueError("Transcript content cannot be empty"))
            && (!Blank(content) && videoId !in videos.rows ==>
                  r == ValueError("Video with ID " + IntToString(videoId) + " does not exist"))
            && (r.Ok? <==> !Blank(content) && videoId in videos.rows)
            && (r.Ok? ==> r.value.id !in t.rows && r.value.videoId == videoId && r.value.content == Strip(content.value))
  {
    if content.Some? { StripEmptyIff(content.value); }
  }

  lemma InsertTranscriptOk(t: Table<Transcript>, x: Transcript)
    requires TranscriptsOk(t) && x.id == NextId(t) && Filled(x.content)
    ensures TranscriptsOk(Insert(t, x))
  {
    var rows := Insert(t, x).rows;
    forall k | k in rows ensures rows[k].id == k && Filled(rows[k].content) {
      if k != x.id { assert rows[k] == t.rows[k]; }
    }
  }

  /** A new transcript comes last among its video's transcripts and appears under no other video. */
  lemma CreatedTranscriptListed(t: Table<Transcript>, x: Transcript, videoId: int)
    requires TranscriptsOk(t) && x.id == NextId(t) && Filled(x.content)
    ensures TranscriptsOk(Insert(t, x))
    ensures GetTranscriptsByVideo(Insert(t, x), videoId) ==
              GetTranscriptsByVideo(t, videoId) + (if x.videoId == videoId then [x] else [])
  {
    InsertTranscriptOk(t, x);
    WhereAfterInsert(t, x, (y: Transcript) => y.videoId == videoId);
  }

  method CreateTranscript(db: Db, videoId: int, content: Option<string>) returns (r: Outcome<Transcript>)
    requires db.Valid()
    modifies db
    ensures db.Valid()
    ensures r == CreateTranscriptResult(old(db.videos), old(db.transcripts), videoId, content)
    ensures db.transcripts == (if r.Ok? then Insert(old(db.transcripts), r.value) else old(db.transcripts))
    ensures db.users == old(db.users) && db.collections == old(db.collections) && db.videos == old(db.videos)
    ensures old(db.Linked()) ==> db.Linked()
  {
    if FalsyStr(content) || Strip(content.value) == "" {
      return ValueError("Transcript content cannot be empty");
    }
    if !VideoService.VideoExists(db.videos, videoId) {
      return ValueError("Video with ID " + IntToString(videoId) + " does not exist");
    }
    var transcript := Transcript(NextId(db.transcripts), videoId, Strip(content.value));
    InsertTranscriptOk(db.transcripts, transcript);
    var transcripts := Insert(db.transcripts, transcript);
    if db.Linked() {
      LinkedStoreTranscript(db.users, db.collections, db.videos, db.transcripts, transcripts, transcript.id, transcript);
    }
    db.CommitTranscripts(transcripts);
    r := Ok(transcript);
  }

  /** `delete_transcript(transcript_id)`: `True` and the row removed exactly when it was stored. */
  method DeleteTranscript(db: Db, id: int) returns (deleted: bool)
    requires db.Valid()
    modifies db
    ensures db.Valid()
    ensures deleted <==> id in old(db.transcripts.rows)
    ensures db.transcripts == Delete(old(db.transcripts), id)
    ensures db.users == old(db.users) && db.collections == old(db.collections) && db.videos == old(db.videos)
    ensures old(db.Linked()) ==> db.Linked()
  {
    var transcript := GetTranscriptById(db.transcripts, id);
    if transcript.None? {
      return false;
    }
    db.CommitTranscripts(Delete(db.transcripts, id));
    deleted := true;
  }
}
