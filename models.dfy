/**
 * The four records of the schema and what the schema, together with the
 * services' validation, keeps true of each table. A column declared
 * `nullable=False` has a plain type here; a nullable one is an `Option`.
 * The `created_at` server default is not part of the model.
 */
module Models {
  import opened Python
  import opened Tables

  datatype User = User(id: int, username: string)

  datatype Collection = Collection(id: int, name: string, description: Option<string>, userId: int)

  datatype Video = Video(id: int, youtubeId: string, title: string, description: Option<string>, collectionId: int)

  datatype Transcript = Transcript(id: int, videoId: int, content: string)

  /** Text a service stores after rejecting blank input: stripped and not empty. */
  predicate Filled(s: string) {
    s != [] && IsStripped(s)
  }

  /** A nullable text column the services fill with `None` or a stripped string. */
  predicate StrippedOrNull(s: Option<string>) {
    s.None? || IsStripped(s.value)
  }

  /** Keys are the primary key `id`; `username` is unique; every stored username is filled. */
  ghost predicate UsersOk(t: Table<User>) {
    && Valid(t)
    && (forall k :: k in t.rows ==> t.rows[k].id == k)
    && (forall j, k :: j in t.rows && k in t.rows && t.rows[j].username == t.rows[k].username ==> j == k)
    && (forall k :: k in t.rows ==> Filled(t.rows[k].username))
  }

  ghost predicate CollectionsOk(t: Table<Collection>) {
    && Valid(t)
    && (forall k :: k in t.rows ==> t.rows[k].id == k)
    && (forall k :: k in t.rows ==> Filled(t.rows[k].name) && StrippedOrNull(t.rows[k].description))
  }

  /** Keys are the primary key `id`; `youtube_id` is unique; title and YouTube id are filled. */
  ghost predicate VideosOk(t: Table<Video>) {
    && Valid(t)
    && (forall k :: k in t.rows ==> t.rows[k].id == k)
    && (forall j, k :: j in t.rows && k in t.rows && t.rows[j].youtubeId == t.rows[k].youtubeId ==> j == k)
    && (forall k :: k in t.rows ==> Filled(t.rows[k].youtubeId) && Filled(t.rows[k].title))
    && (forall k :: k in t.rows ==> StrippedOrNull(t.rows[k].description))
  }

  ghost predicate TranscriptsOk(t: Table<Transcript>) {
    && Valid(t)
    && (forall k :: k in t.rows ==> t.rows[k].id == k)
    && (forall k :: k in t.rows ==> Filled(t.rows[k].content))
  }

  /**
   * The foreign keys hold: every collection's `user_id`, every video's
   * `collection_id` and every transcript's `video_id` names a stored row.
   */
  ghost predicate Linked(users: Table<User>, collections: Table<Collection>,
                         videos: Table<Video>, transcripts: Table<Transcript>) {
    && (forall k :: k in collections.rows ==> collections.rows[k].userId in users.rows)
    && (forall k :: k in videos.rows ==> videos.rows[k].collectionId in collections.rows)
    && (forall k :: k in transcripts.rows ==> transcripts.rows[k].videoId in videos.rows)
  }

  /** `user.collections` is not empty: some stored collection has this `user_id`. */
  predicate OwnsCollections(collections: Table<Collection>, userId: int) {
    exists k | k in collections.rows :: collections.rows[k].userId == userId
  }

  /** `collection.videos` is not empty: some stored video has this `collection_id`. */
  predicate HoldsVideos(videos: Table<Video>, collectionId: int) {
    exists k | k in videos.rows :: videos.rows[k].collectionId == collectionId
  }

  /** `video.transcripts` is not empty: some stored transcript has this `video_id`. */
  predicate HasTranscripts(transcripts: Table<Transcript>, videoId: int) {
    exists k | k in transcripts.rows :: transcripts.rows[k].videoId == videoId
  }

  /** Removing a user who owns no collection keeps the foreign keys. */
  lemma LinkedDeleteUser(users: Table<User>, collections: Table<Collection>, videos: Table<Video>,
                         transcripts: Table<Transcript>, id: int)
    requires Valid(users) && Linked(users, collections, videos, transcripts) && !OwnsCollections(collections, id)
    ensures Linked(Delete(users, id), collections, videos, transcripts)
  {
    forall k | k in collections.rows ensures collections.rows[k].userId in Delete(users, id).rows {
      assert collections.rows[k].userId != id;
    }
  }

  /** Removing a collection that holds no video keeps the foreign keys. */
  lemma LinkedDeleteCollection(users: Table<User>, collections: Table<Collection>, videos: Table<Video>,
                               transcripts: Table<Transcript>, id: int)
    requires Valid(collections) && Linked(users, collections, videos, transcripts) && !HoldsVideos(videos, id)
    ensures Linked(users, Delete(collections, id), videos, transcripts)
  {
    forall k | k in Delete(collections, id).rows ensures Delete(collections, id).rows[k].userId in users.rows {
      assert Delete(collections, id).rows[k] == collections.rows[k];
    }
    forall k | k in videos.rows ensures videos.rows[k].collectionId in Delete(collections, id).rows {
      assert videos.rows[k].collectionId != id;
    }
  }

  /** Removing a video that has no transcript keeps the foreign keys. */
  lemma LinkedDeleteVideo(users: Table<User>, collections: Table<Collection>, videos: Table<Video>,
                          transcripts: Table<Transcript>, id: int)
    requires Valid(videos) && Linked(users, collections, videos, transcripts) && !HasTranscripts(transcripts, id)
    ensures Linked(users, collections, Delete(videos, id), transcripts)
  {
    forall k | k in Delete(videos, id).rows ensures Delete(videos, id).rows[k].collectionId in collections.rows {
      assert Delete(videos, id).rows[k] == videos.rows[k];
    }
    forall k | k in transcripts.rows ensures transcripts.rows[k].videoId in Delete(videos, id).rows {
      assert transcripts.rows[k].videoId != id;
    }
  }

  /** Storing a user under any key keeps the foreign keys. */
  lemma LinkedStoreUser(users: Table<User>, users': Table<User>, collections: Table<Collection>,
                        videos: Table<Video>, transcripts: Table<Transcript>, id: int, u: User)
    requires Linked(users, collections, videos, transcripts) && users'.rows == users.rows[id := u]
    ensures Linked(users', collections, videos, transcripts)
  {
    assert forall k :: k in users.rows ==> k in users'.rows;
  }

  /** Storing a collection under any key keeps the foreign keys when its owner is stored. */
  lemma LinkedStoreCollection(users: Table<User>, collections: Table<Collection>, collections': Table<Collection>,
                              videos: Table<Video>, transcripts: Table<Transcript>, id: int, c: Collection)
    requires Linked(users, collections, videos, transcripts)
    requires collections'.rows == collections.rows[id := c] && c.userId in users.rows
    ensures Linked(users, collections', videos, transcripts)
  {
    forall k | k in collections'.rows ensures collections'.rows[k].userId in users.rows {
      if k != id { assert collections'.rows[k] == collections.rows[k]; }
    }
    assert forall k :: k in collections.rows ==> k in collections'.rows;
  }

  /** Storing a video under any key keeps the foreign keys when its collection is stored. */
  lemma LinkedStoreVideo(users: Table<User>, collections: Table<Collection>, videos: Table<Video>,
                         videos': Table<Video>, transcripts: Table<Transcript>, id: int, v: Video)
    requires Linked(users, collections, videos, transcripts)
    requires videos'.rows == videos.rows[id := v] && v.collectionId in collections.rows
    ensures Linked(users, collections, videos', transcripts)
  {
    forall k | k in videos'.rows ensures videos'.rows[k].collectionId in collections.rows {
      if k != id { assert videos'.rows[k] == videos.rows[k]; }
    }
  }

  /** Storing a transcript under any key keeps the foreign keys when its video is stored. */
  lemma LinkedStoreTranscript(users: Table<User>, collections: Table<Collection>, videos: Table<Video>,
                              transcripts: Table<Transcript>, transcripts': Table<Transcript>, id: int, x: Transcript)
    requires Linked(users, collections, videos, transcripts)
    requires transcripts'.rows == transcripts.rows[id := x] && x.videoId in videos.rows
    ensures Linked(users, collections, videos, transcripts')
  {
    forall k | k in transcripts'.rows ensures transcripts'.rows[k].videoId in videos.rows {
      if k != id { assert transcripts'.rows[k] == transcripts.rows[k]; }
    }
  }

  /** A filled string cannot be mistaken for a blank one. */
  lemma FilledNotBlank(s: string)
    requires Filled(s)
    ensures !AllSpace(s)
  {
    assert !IsSpace(s[0]);
  }
}
