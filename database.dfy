/**
 * The SQLAlchemy session the services share, as one object holding the four
 * tables, and the outcome of a service call.
 */
module Database {
  import opened Tables
  import opened Models

  /**
   * What a service call ends in: a returned value, a raised `ValueError` with
   * its message, or an `IntegrityError` raised at commit. `detail` names the
   * constraint in SQLite's words; the rest of SQLAlchemy's rendering of the
   * error is not modelled.
   */
  datatype Outcome<T> = Ok(value: T) | ValueError(message: string) | IntegrityError(detail: string)

  class Db {
    var users: Table<User>
    var collections: Table<Collection>
    var videos: Table<Video>
    var transcripts: Table<Transcript>

    /** The declared constraints and the services' normalisation hold in every table. */
    ghost predicate Valid()
      reads this
    {
      UsersOk(users) && CollectionsOk(collections) && VideosOk(videos) && TranscriptsOk(transcripts)
    }

    /** Every foreign key names a stored row. */
    ghost predicate Linked()
      reads this
    {
      Models.Linked(users, collections, videos, transcripts)
    }

    /** A fresh, empty database. */
    constructor ()
      ensures Valid() && Linked()
      ensures users == Empty() && collections == Empty() && videos == Empty() && transcripts == Empty()
    {
      users, collections, videos, transcripts := Empty(), Empty(), Empty(), Empty();
    }

    /** `db.session.commit()` after adding, changing or deleting users: the table becomes `t`. */
    method CommitUsers(t: Table<User>)
      requires Valid() && UsersOk(t)
      modifies this
      ensures Valid() && users == t
      ensures collections == old(collections) && videos == old(videos) && transcripts == old(transcripts)
    {
      users := t;
    }

    /** `db.session.commit()` after adding, changing or deleting collections: the table becomes `t`. */
    method CommitCollections(t: Table<Collection>)
      requires Valid() && CollectionsOk(t)
      modifies this
      ensures Valid() && collections == t
      ensures users == old(users) && videos == old(videos) && transcripts == old(transcripts)
    {
      collections := t;
    }

    /** `db.session.commit()` after adding, changing or deleting videos: the table becomes `t`. */
    method CommitVideos(t: Table<Video>)
      requires Valid() && VideosOk(t)
      modifies this
      ensures Valid() && videos == t
      ensures users == old(users) && collections == old(collections) && transcripts == old(transcripts)
    {
      videos := t;
    }

    /** `db.session.commit()` after adding, changing or deleting transcripts: the table becomes `t`. */
    method CommitTranscripts(t: Table<Transcript>)
      requires Valid() && TranscriptsOk(t)
      modifies this
      ensures Valid() && transcripts == t
      ensures users == old(users) && collections == old(collections) && videos == old(videos)
    {
      transcripts := t;
    }
  }
}
