# ask-vid-gpt backend: the request gate, the store and the route decisions

This project models the Flask backend of ask-vid-gpt, which keeps users,
their video collections, the videos in a collection and the transcripts of a
video in four SQL tables, behind a REST API. Three parts are modelled.

- **The request gate.** The blueprint's before-request hook (`require_auth`)
  and the `auth_required` decorator are modelled as the `Auth.AuthGate` and
  `Auth.Request` classes and the `Auth.AuthRequired` method. The hook
  normalises the path, runs the exemption loop, and then resolves the token's
  identity to a stored user or answers 401.
- **The store and its services.** The database is the `Database.Db` class,
  with one `Tables.Table` per table. A table holds the rows keyed by primary
  key, plus the order in which an unordered query returns them (insertion
  order). Each service's queries are functions of the tables. Its creates,
  deletes and the video update are methods on `Db`, and each method is tied
  to a function that computes its outcome (`CreateUserResult`,
  `UpdateVideoResult`, and so on).
- **The route decisions.** Each handler is a function from the JSON body
  (`None` when the parsed body is falsy: JSON `null` or an empty object)
  and the outcome of the service call it makes to the reply and its status
  code. Handlers
  that only query take the table itself. The `...EndToEnd` lemmas plug the
  services' actual outcomes into the handlers.

Modelling choices:

- The database is SQLite: the configuration falls back to it whenever
  `DATABASE_URL` is not an SQLite URL. So a new row's id is one above the
  largest stored id (`Tables.NextId`).
- As SQLite runs them, a negative `LIMIT` means no bound and a negative
  `OFFSET` skips nothing (`Tables.Page`).
- A unique index violation is an `IntegrityError` carrying SQLite's
  constraint text, such as `UNIQUE constraint failed: users.username`. The
  index compares stored values exactly, which is what `UsernameExists` and
  `VideoService.YoutubeIdTaken` test on the stripped value about to be
  stored.
- Python's `str.strip()` removes the characters for which `isspace()` holds
  (`Python.IsSpace`).
- Falsiness is `None` or `""` for strings and `None` or `0` for integers.
  The services take their text arguments as optional strings, so a `None`
  argument takes the same `not s or not s.strip()` path as the code
  (`Python.Blank`).
- Ids in messages are rendered in decimal (`Python.IntToString`).
- The gate's token is an input: `None` for a missing or invalid token,
  otherwise the identity the token names.

The model follows the code where it differs from what the project's own
documentation describes:

- A transcript is one row holding the stripped content. There are no
  chunks, no chunk index, and creating a transcript never replaces earlier
  ones.
- Users have no password.
- Foreign keys are checked by the services before a child row is created,
  not by the database, since SQLite does not enforce them.
- Deleting a parent that still has children fails. The `collections`,
  `videos` and `transcripts` relationships have no delete cascade, so on
  flush SQLAlchemy sets each child's foreign key to NULL. The NOT NULL column
  rejects that, the commit raises `IntegrityError`, nothing is removed, and
  the route answers 500 `Failed to delete ...`. So a delete never leaves a
  child pointing at no parent (`UserService.DeleteUserResult` and its
  siblings).
- A duplicate YouTube id is a 409, but an integrity failure while creating
  a collection or a transcript is a 500.

## Model

| member | source | states |
|---|---|---|
| `Python.Strip` | backend/app/services/user_service.py:22-25 | `strip()` returns text with no whitespace at either end, never longer than its input |
| `Python.StripEmptyIff` | backend/app/services/user_service.py:22 | `s.strip()` is empty exactly when `s` is whitespace only |
| `Python.Blank` | backend/app/services/user_service.py:22 | `not s or not s.strip()`: the value is `None`, or empty, or whitespace only |
| `Python.StripPadded` | backend/app/services/user_service.py:25 | stripping whitespace-padded stripped text gives back exactly that text |
| `Python.StripIdempotent` | backend/app/services/video_service.py:120-122 | stripping twice is stripping once |
| `Python.StripIsInfix` | backend/app/services/video_service.py:40-41 | the stripped value is a contiguous slice of the input, with only whitespace cut on each side |
| `Python.NatToString` | backend/app/services/collection_service.py:28 | the decimal rendering is non-empty, all digits, with no leading zero |
| `Python.DecimalRoundTrip` | backend/app/services/collection_service.py:28 | reading the rendered digits back gives the number |
| `Python.NatToStringInjective` | backend/app/services/collection_service.py:28 | distinct non-negative numbers have distinct decimal renderings |
| `Python.IntToStringInjective` | backend/app/routes/users.py:117 | distinct ids render differently, so a message names the one id it was built from |
| `Tables.Empty` | backend/app/models/models.py:3-6 | a new table is valid, has no rows and lists nothing |
| `Tables.MaxKey` | backend/app/models/models.py:5 | the largest key bounds every stored key, and is 0 for an empty table |
| `Tables.NextId` | backend/app/models/models.py:5 | the key a new row gets is positive, unused, and above every stored key |
| `Tables.Get` | backend/app/services/user_service.py:41 | `query.get(id)` finds a row exactly when the key is stored, and returns that row |
| `Tables.Rows` | backend/app/services/user_service.py:55-60 | the unfiltered listing has one entry per stored key, in stored order, and includes every stored row |
| `Tables.RowsStored` | backend/app/services/user_service.py:60 | every listed row is a stored row |
| `Tables.Insert` | backend/app/services/user_service.py:26-27 | add-and-commit stores the row under the next key and lists it last, keeping the table valid |
| `Tables.Without` | backend/app/services/user_service.py:77-78 | the stored order loses exactly the deleted key, stays duplicate-free, and is unchanged when the key is absent |
| `Tables.WithoutAt` | backend/app/services/user_service.py:77-78 | in a duplicate-free order, leaving out the key at position `i` gives the keys before `i` followed by the keys after it, in their order |
| `Tables.Delete` | backend/app/services/user_service.py:77-78 | delete-and-commit removes exactly that key; the remaining keys keep their order with only the deleted one taken out; a key not stored changes nothing |
| `Tables.DeleteRows` | backend/app/services/user_service.py:77-78 | the listing after a delete is the listing before it with that one row taken out |
| `Tables.Put` | backend/app/services/video_service.py:117-127 | committing attribute changes replaces one row in place: same key, same position |
| `Tables.Where` | backend/app/services/collection_service.py:70-71 | `filter_by` keeps exactly the rows satisfying the filter, and never adds rows |
| `Tables.WhereConcat` | backend/app/services/collection_service.py:70-71 | filtering distributes over concatenation, so it keeps stored order |
| `Tables.RowsWhere` | backend/app/services/user_service.py:92 | `filter_by(...).first() is not None` holds exactly when some stored row satisfies the filter |
| `Tables.WhereAfterInsert` | backend/app/services/collection_service.py:35-36 | a newly inserted row comes last in any filtered listing it belongs to |
| `Tables.Skipped` | backend/app/services/user_service.py:56-57 | OFFSET skips `min(offset, n)` rows for a non-negative offset, and none for an absent or non-positive one |
| `Tables.Page` | backend/app/services/user_service.py:55-60 | offset first, then limit (`IsPage`): after `k = Skipped(n, offset)` rows, the result is the next `n - k` rows, or only the next `limit` when a non-negative limit is smaller, element `i` being row `k + i` |
| `Tables.PageAll` | backend/app/services/user_service.py:55-60 | with neither parameter the whole listing is returned |
| `Tables.PageFrom` | backend/app/services/user_service.py:55-60 | every paged row comes from the listing paged |
| `Models.UsersOk` | backend/app/models/models.py:3-7 | the users table constraints: keys are the primary key, `username` is unique, and every stored username is stripped and non-empty |
| `Models.CollectionsOk` | backend/app/models/models.py:13-20 | the collections table constraints: keys are the primary key, the name is stripped and non-empty, the description `None` or stripped |
| `Models.VideosOk` | backend/app/models/models.py:26-34 | the videos table constraints: keys are the primary key, `youtube_id` is unique, YouTube id and title stripped and non-empty, the description `None` or stripped |
| `Models.TranscriptsOk` | backend/app/models/models.py:40-45 | the transcripts table constraints: keys are the primary key and the content is stripped and non-empty |
| `Models.Linked` | backend/app/models/models.py:18 | the foreign keys: every `user_id`, `collection_id` and `video_id` names a stored row (also models.py:32 and models.py:43) |
| `Models.OwnsCollections` | backend/app/models/models.py:7 | `user.collections` is non-empty: some stored collection has that `user_id` |
| `Models.HoldsVideos` | backend/app/models/models.py:20 | `collection.videos` is non-empty: some stored video has that `collection_id` |
| `Models.HasTranscripts` | backend/app/models/models.py:34 | `video.transcripts` is non-empty: some stored transcript has that `video_id` |
| `Models.FilledNotBlank` | backend/app/models/models.py:6 | a validated stored string is never whitespace only |
| `Models.LinkedStoreUser` | backend/app/models/models.py:18 | replacing or adding a user under an id keeps every foreign key valid, since no key is lost |
| `Models.LinkedStoreCollection` | backend/app/models/models.py:18 | storing a collection whose owner exists keeps every foreign key valid |
| `Models.LinkedStoreVideo` | backend/app/models/models.py:32 | storing a video whose collection exists keeps every foreign key valid |
| `Models.LinkedStoreTranscript` | backend/app/models/models.py:43 | storing a transcript whose video exists keeps every foreign key valid |
| `Models.LinkedDeleteUser` | backend/app/models/models.py:7 | removing a user who owns no collection keeps every foreign key valid |
| `Models.LinkedDeleteCollection` | backend/app/models/models.py:20 | removing a collection that holds no video keeps every foreign key valid |
| `Models.LinkedDeleteVideo` | backend/app/models/models.py:34 | removing a video that has no transcript keeps every foreign key valid |
| `Database.Db.constructor` | backend/app/models/models.py:3-44 | a fresh database has four empty tables, satisfying every constraint and foreign key |
| `Database.Db.CommitUsers` | backend/app/services/user_service.py:27 | committing a users table that meets its constraints makes it the stored one and touches no other table |
| `Database.Db.CommitCollections` | backend/app/services/collection_service.py:36 | committing a collections table that meets its constraints makes it the stored one and touches no other table |
| `Database.Db.CommitVideos` | backend/app/services/video_service.py:46 | committing a videos table that meets its constraints makes it the stored one and touches no other table |
| `Database.Db.CommitTranscripts` | backend/app/services/transcript_service.py:37 | committing a transcripts table that meets its constraints makes it the stored one and touches no other table |
| `UserService.UsernameExists` | backend/app/services/user_service.py:94-105 | `username_exists`: some stored user has exactly that username |
| `UserService.UsernameExistsQuery` | backend/app/services/user_service.py:105 | the `filter_by(username=...)` query finds a row exactly when some stored username equals the argument, compared without stripping, which is the test the unique index makes |
| `UserService.UserExists` | backend/app/services/user_service.py:81-92 | `user_exists`: a user with that primary key is stored |
| `UserService.UserExistsQuery` | backend/app/services/user_service.py:92 | the `filter_by(id=...)` query finds a row exactly when a user with that id is stored |
| `UserService.GetUserById` | backend/app/services/user_service.py:41 | the stored user with that id, or `None` exactly when there is none |
| `UserService.GetAllUsers` | backend/app/services/user_service.py:55-60 | the users listing with the offset applied, then the limit (`IsPage` over all users in stored order); each returned user is stored under its id |
| `UserService.CreateUserResult` | backend/app/services/user_service.py:22-28 | `create_user`: a missing or blank name is `ValueError("Username cannot be empty")`; a taken stripped name the unique index's `IntegrityError`; otherwise the stripped name under the next id |
| `UserService.CreateUserOutcomes` | backend/app/services/user_service.py:22-28 | `ValueError("Username cannot be empty")` exactly for a missing, empty or whitespace-only name; `IntegrityError` exactly when the stripped name is taken; otherwise a fresh id and the stripped name |
| `UserService.CreatedUserOk` | backend/app/services/user_service.py:25-27 | a successful create adds exactly one user and keeps usernames unique |
| `UserService.InsertUserOk` | backend/app/models/models.py:5-6 | inserting a filled, unused username under the next id keeps users keyed by id with unique usernames |
| `UserService.CreateUser` | backend/app/services/user_service.py:8-28 | the outcome is `CreateUserResult`; the users table gains that user on success and is unchanged otherwise; the other tables, the constraints and the foreign keys are kept |
| `UserService.DeleteUserResult` | backend/app/services/user_service.py:73-79 | `delete_user`: `False` for an unknown id; an `IntegrityError` on the NOT NULL `collections.user_id` when the user owns collections (models.py:7, 18); otherwise `True` |
| `UserService.DeleteUserOutcomes` | backend/app/services/user_service.py:73-79 | never a `ValueError`; `Ok(false)` exactly for an unknown id; `IntegrityError` exactly for a stored user who owns a collection; `Ok(true)` exactly for a stored user who owns none |
| `UserService.DeleteUser` | backend/app/services/user_service.py:63-79 | the outcome is `DeleteUserResult`; the users table loses only that row on `Ok(true)` and is unchanged otherwise; the other tables are unchanged and the foreign keys are kept |
| `UserService.DeleteOwnerOrphans` | backend/app/models/models.py:7-18 | removing a user who still owns a collection would break that collection's foreign key, and that is why `delete_user` does not end with `True` for such a user |
| `CollectionService.ListedCollection` | backend/app/services/collection_service.py:76 | a listed collection is the stored row under its own id |
| `CollectionService.CollectionExists` | backend/app/services/collection_service.py:97-108 | `collection_exists`: a collection with that primary key is stored |
| `CollectionService.CollectionExistsQuery` | backend/app/services/collection_service.py:108 | the `filter_by(id=...)` query finds a row exactly when a collection with that id is stored |
| `CollectionService.GetCollectionById` | backend/app/services/collection_service.py:50 | the stored collection with that id, or `None` exactly when there is none |
| `CollectionService.GetCollectionsByUser` | backend/app/services/collection_service.py:121 | exactly the stored collections with that `user_id`: each returned one matches, and every matching one is returned |
| `CollectionService.GetAllCollections` | backend/app/services/collection_service.py:69-76 | the listing, filtered by owner when one is given, with the offset applied, then the limit (`IsPage`); each returned collection is stored and of that owner |
| `CollectionService.AllCollectionsOfUser` | backend/app/services/collection_service.py:69-76 | with an owner and no paging, the listing equals `get_collections_by_user` |
| `CollectionService.CreateCollectionResult` | backend/app/services/collection_service.py:24-37 | `create_collection`: a missing or blank name, then an unknown owner, are `ValueError`s with their messages; otherwise the stripped name and description under the next id |
| `CollectionService.CreateCollectionOutcomes` | backend/app/services/collection_service.py:24-37 | a missing or blank name fails first, then an unknown owner with `User with ID <id> does not exist`; never an `IntegrityError`; on success a fresh id, that owner, the stripped name, and a description that is `None` exactly when the input is falsy and otherwise stripped |
| `CollectionService.InsertCollectionOk` | backend/app/models/models.py:15-17 | inserting a filled name with a stripped-or-null description under the next id keeps the table's constraints |
| `CollectionService.CreateCollection` | backend/app/services/collection_service.py:9-37 | the outcome is `CreateCollectionResult`; the collections table gains that row on success and is unchanged otherwise; foreign keys are kept |
| `CollectionService.CreatedCollectionListed` | backend/app/services/collection_service.py:35-36 | a new collection comes last among its owner's collections and appears under no other owner |
| `CollectionService.DeleteCollectionResult` | backend/app/services/collection_service.py:89-95 | `delete_collection`: `False` for an unknown id; an `IntegrityError` on the NOT NULL `videos.collection_id` when the collection holds videos (models.py:20, 32); otherwise `True` |
| `CollectionService.DeleteCollectionOutcomes` | backend/app/services/collection_service.py:89-95 | never a `ValueError`; `Ok(false)` exactly for an unknown id; `IntegrityError` exactly for a stored collection that holds a video; `Ok(true)` exactly for one that holds none |
| `CollectionService.DeleteCollection` | backend/app/services/collection_service.py:79-95 | the outcome is `DeleteCollectionResult`; the collections table loses only that row on `Ok(true)` and is unchanged otherwise; the other tables are unchanged and the foreign keys are kept |
| `VideoService.ListedVideo` | backend/app/services/video_service.py:86 | a listed video is the stored row under its own id |
| `VideoService.VideoExists` | backend/app/services/video_service.py:149-160 | `video_exists`: a video with that primary key is stored |
| `VideoService.VideoExistsQuery` | backend/app/services/video_service.py:160 | the `filter_by(id=...)` query finds a row exactly when a video with that id is stored |
| `VideoService.GetVideoById` | backend/app/services/video_service.py:60 | the stored video with that id, or `None` exactly when there is none |
| `VideoService.GetVideosByCollection` | backend/app/services/video_service.py:173 | exactly the stored videos with that `collection_id` |
| `VideoService.GetVideoByYoutubeId` | backend/app/services/video_service.py:186 | a video is found exactly when one has that YouTube id, compared exactly; by uniqueness it is the one with that id |
| `VideoService.YoutubeIdTaken` | backend/app/models/models.py:29 | the unique index on `youtube_id`: some stored video has exactly that YouTube id |
| `VideoService.GetAllVideos` | backend/app/services/video_service.py:79-86 | the listing, filtered by collection when one is given, with the offset applied, then the limit (`IsPage`); each returned video is stored and in that collection |
| `VideoService.AllVideosOfCollection` | backend/app/services/video_service.py:79-86 | with a collection and no paging, the listing equals `get_videos_by_collection` |
| `VideoService.CreatedDescription` | backend/app/services/video_service.py:43 | the created description is `None` exactly when the input is falsy; otherwise it is the stripped input, possibly `""` |
| `VideoService.CreateVideoResult` | backend/app/services/video_service.py:30-47 | `create_video`: blank YouTube id, blank title, unknown collection are `ValueError`s in that order; a taken stripped YouTube id is the unique index's `IntegrityError`; otherwise the stripped fields under the next id |
| `VideoService.CreateVideoOutcomes` | backend/app/services/video_service.py:30-47 | checks run in the order missing-or-blank YouTube id, missing-or-blank title, unknown collection, each with its message; `IntegrityError` exactly when the stripped YouTube id is taken; success exactly when none applies, with a fresh id, the stripped YouTube id and title, and a description that is `None` exactly when the input is falsy and otherwise the stripped input |
| `VideoService.InsertVideoOk` | backend/app/models/models.py:28-32 | inserting filled fields and an unused YouTube id under the next id keeps YouTube ids unique |
| `VideoService.CreateVideo` | backend/app/services/video_service.py:9-47 | the outcome is `CreateVideoResult`; the videos table gains that row on success and is unchanged otherwise; foreign keys are kept |
| `VideoService.UpdateVideoResult` | backend/app/services/video_service.py:110-128 | `update_video`: `None` for an unknown id; an unknown new collection, then a blank new title, are `ValueError`s; otherwise the row with only the given fields replaced |
| `VideoService.UpdateVideoOutcomes` | backend/app/services/video_service.py:110-128 | `None` exactly for an unknown id; the unknown-collection error exactly for a stored id and an unknown new collection; the blank-title error exactly when the collection passes and the new title is blank; success exactly when neither applies; on success the id and YouTube id are kept, every field passed as `None` is unchanged, a given title is stripped, and a given description becomes `None` when blank and its stripped form otherwise |
| `VideoService.PutVideoOk` | backend/app/models/models.py:28-32 | replacing a video in place with the same YouTube id keeps the table's constraints |
| `VideoService.UpdatedVideoOk` | backend/app/services/video_service.py:114-127 | a successful update keeps every video constraint |
| `VideoService.UpdateVideoIdempotent` | backend/app/services/video_service.py:110-128 | applying the same update to the updated table returns the same video |
| `VideoService.UpdateVideo` | backend/app/services/video_service.py:89-128 | the outcome is `UpdateVideoResult`; on a found video only that row is replaced, in place; a `None` or `ValueError` outcome changes nothing; foreign keys are kept |
| `VideoService.DeleteVideoResult` | backend/app/services/video_service.py:141-147 | `delete_video`: `False` for an unknown id; an `IntegrityError` on the NOT NULL `transcripts.video_id` when the video has transcripts (models.py:34, 43); otherwise `True` |
| `VideoService.DeleteVideoOutcomes` | backend/app/services/video_service.py:141-147 | never a `ValueError`; `Ok(false)` exactly for an unknown id; `IntegrityError` exactly for a stored video with a transcript; `Ok(true)` exactly for one with none |
| `VideoService.DeleteVideo` | backend/app/services/video_service.py:131-147 | the outcome is `DeleteVideoResult`; the videos table loses only that row on `Ok(true)` and is unchanged otherwise; the other tables are unchanged and the foreign keys are kept |
| `TranscriptService.ListedTranscript` | backend/app/services/transcript_service.py:77 | a listed transcript is the stored row under its own id |
| `TranscriptService.TranscriptExists` | backend/app/services/transcript_service.py:98-109 | `transcript_exists`: a transcript with that primary key is stored |
| `TranscriptService.TranscriptExistsQuery` | backend/app/services/transcript_service.py:109 | the `filter_by(id=...)` query finds a row exactly when a transcript with that id is stored |
| `TranscriptService.GetTranscriptById` | backend/app/services/transcript_service.py:51 | the stored transcript with that id, or `None` exactly when there is none |
| `TranscriptService.GetTranscriptsByVideo` | backend/app/services/transcript_service.py:122 | exactly the stored transcripts with that `video_id` |
| `TranscriptService.GetAllTranscripts` | backend/app/services/transcript_service.py:70-77 | the listing, filtered by video when one is given, with the offset applied, then the limit (`IsPage`); each returned transcript is stored and of that video |
| `TranscriptService.AllTranscriptsOfVideo` | backend/app/services/transcript_service.py:70-77 | with a video and no paging, the listing equals `get_transcripts_by_video` |
| `TranscriptService.CreateTranscriptResult` | backend/app/services/transcript_service.py:26-38 | `create_transcript`: missing or blank content, then an unknown video, are `ValueError`s; otherwise the stripped content under the next id |
| `TranscriptService.CreateTranscriptOutcomes` | backend/app/services/transcript_service.py:26-38 | missing or blank content fails before an unknown video; never an `IntegrityError`; success exactly when neither applies, with a fresh id and the stripped content |
| `TranscriptService.InsertTranscriptOk` | backend/app/models/models.py:42-44 | inserting filled content under the next id keeps the table's constraints |
| `TranscriptService.CreatedTranscriptListed` | backend/app/services/transcript_service.py:32-38 | a new transcript comes after the video's earlier transcripts, which are untouched, and appears under no other video |
| `TranscriptService.CreateTranscript` | backend/app/services/transcript_service.py:9-38 | the outcome is `CreateTranscriptResult`; the transcripts table gains that row on success and is unchanged otherwise; foreign keys are kept |
| `TranscriptService.DeleteTranscript` | backend/app/services/transcript_service.py:80-96 | returns whether the id was stored; the transcripts table loses only that row; foreign keys are kept |
| `Auth.Normalize` | backend/app/middleware/auth.py:55-63 | the normalised path starts with `/`; a path starting with `/` but not `/api` is unchanged; `/api/...` loses the `/api`; `/apiX...` becomes `/X...`; a path without a leading `/` gets one |
| `Auth.Exempt` | backend/app/middleware/auth.py:66-78 | the exemption loop: the path is listed, or the list is non-empty and the request is `POST /users` |
| `Auth.Request.constructor` | backend/app/middleware/auth.py:55 | a request starts with no user attached |
| `Auth.AuthGate.constructor` | backend/app/middleware/auth.py:49-50 | no exempt list means exactly `['/login', '/logout']`; a given list, even an empty one, is kept |
| `Auth.AuthGate.RequireAuth` | backend/app/middleware/auth.py:53-103 | an exempt request proceeds untouched; otherwise no token gives 401 with the please-login message, a token naming no stored user gives 401 `User not found`, and a stored user proceeds with that user and id attached |
| `Auth.AuthRequired` | backend/app/middleware/auth.py:7-37 | the same three outcomes without exemptions, with the decorator's shorter 401 message; the view runs only on `Proceed` |
| `Auth.NormalizeExamples` | backend/app/middleware/auth.py:58-63 | `/api` becomes `/`, `/apix` becomes `/x`, `/api/users` becomes `/users`, and `users` becomes `/users` |
| `Auth.NormalizeApi` | backend/app/middleware/auth.py:58-59 | under the `/api` prefix the gate sees exactly the route path |
| `Auth.ListedOpenForAnyMethod` | backend/app/middleware/auth.py:67-71 | a listed route is exempt for every HTTP method |
| `Auth.SubRoutesExemptOnlyIfListed` | backend/app/middleware/auth.py:66-71 | matching is exact: a path below a listed route is exempt only if that path itself is listed |
| `Auth.UserByIdNotExempt` | backend/app/middleware/auth.py:69-75 | `/users/5` is not exempt under the installed list, whatever the method |
| `Auth.PostUsersNeedsNonEmptyList` | backend/app/middleware/auth.py:67-75 | a POST to `/api/users` is exempt exactly when the exempt list is non-empty, because the check sits inside the loop |
| `Auth.UsersExemption` | backend/app/__init__.py:29 | under the default list only POST reaches `/users` without a token; under the installed list every method does |
| `Auth.InstalledOpenPaths` | backend/app/__init__.py:29 | under the installed list, `/api/login`, `/api/logout` and `/api/users` pass the gate without a token |
| `Http.InvalidBody` | backend/app/routes/users.py:55-59 | a falsy body is answered 400 with an error reply |
| `Http.Required` | backend/app/routes/users.py:62-66 | a missing field is answered 400 `Validation error` with the given message |
| `Http.ListOf` | backend/app/routes/users.py:30-33 | a listing is status 200, and its `count` equals the number of items |
| `Http.NotFound` | backend/app/routes/collections.py:134-138 | the not-found reply is a 404 `Not found` error |
| `Http.Deleted` | backend/app/routes/collections.py:166-184 | a delete handler answers 200 with the success message exactly when the service deleted the row, 404 exactly when the id was unknown, and 500 with the handler's failure text and the exception's message exactly when the service raised |
| `Http.NotFoundNamesId` | backend/app/routes/videos.py:149-153 | not-found replies for different ids carry different messages |
| `UserRoutes.CreateUser` | backend/app/routes/users.py:52-92 | statuses are 201, 400 or 409; a falsy body or username is 400 before any query; 201 only for a created user, whose record is returned; every 409 names the username |
| `UserRoutes.ExactDuplicateSkipsService` | backend/app/routes/users.py:69-73 | a username stored exactly is 409 whatever the service would do |
| `UserRoutes.StoredNameStripped` | backend/app/routes/users.py:69 | a username that passes the exact pre-check as taken is already stripped and not blank |
| `UserRoutes.CreateUserEndToEnd` | backend/app/routes/users.py:61-92 | given the service's outcome: 400 `Username cannot be empty` exactly for a whitespace-only name; 409 exactly when the stripped name is taken; 201 with the stripped name and a fresh id |
| `UserRoutes.PaddedNameNotStored` | backend/app/routes/users.py:69 | a whitespace-padded stored name strips to that name, and the exact pre-check does not see it as taken |
| `UserRoutes.PaddedDuplicateConflicts` | backend/app/routes/users.py:88-92 | a padded duplicate such as `" bob"` passes the pre-check, fails at the unique index, and is still answered 409 |
| `UserRoutes.DeleteUser` | backend/app/routes/users.py:111-128 | 200 exactly when the service deleted the user; 404 `User with ID <id> not found` exactly when it was unknown; otherwise 500 `Failed to delete user` |
| `UserRoutes.DeleteUserEndToEnd` | backend/app/routes/users.py:111-128 | given the service's outcome: 404 exactly for an unknown id, 500 with the NOT NULL failure exactly for a user who owns collections, 200 exactly for one who owns none |
| `UserRoutes.GetAllUsers` | backend/app/routes/users.py:19-33 | status 200; the items are exactly `get_all_users(limit, offset)` and `count` is their number |
| `CollectionRoutes.CreateCollection` | backend/app/routes/collections.py:63-112 | checks run in the order body, name, then a truthy `user_id` (so 0 is rejected); statuses are 201, 400 or 500, and an integrity failure is 500 |
| `CollectionRoutes.CreateCollectionEndToEnd` | backend/app/routes/collections.py:88-107 | given the service's outcome, never 500; 201 exactly for a non-blank name and a stored owner; a blank name carries the service's message |
| `CollectionRoutes.GetCollection` | backend/app/routes/collections.py:131-146 | 200 with the stored collection exactly when the id is stored; otherwise 404 |
| `CollectionRoutes.DeleteCollection` | backend/app/routes/collections.py:166-184 | 200 exactly when the service deleted the collection; 404 exactly when it was unknown; otherwise 500 `Failed to delete collection` |
| `CollectionRoutes.DeleteCollectionEndToEnd` | backend/app/routes/collections.py:166-184 | given the service's outcome: 404 exactly for an unknown id, 500 with the NOT NULL failure exactly for a collection holding videos, 200 exactly for one holding none |
| `CollectionRoutes.UnknownCollectionNotFound` | backend/app/routes/collections.py:132-138 | get and delete give the same 404 reply for an id that is not stored, whatever videos are stored |
| `CollectionRoutes.GetAllCollections` | backend/app/routes/collections.py:20-42 | status 200; the items are exactly `get_all_collections(limit, offset, user_id)` and `count` is their number |
| `VideoRoutes.CreateVideo` | backend/app/routes/videos.py:68-126 | checks run in the order body, YouTube id, title, then a truthy collection id (0 is falsy); an integrity failure is 409 `A video with this YouTube ID already exists`; 201 returns the created video |
| `VideoRoutes.DuplicateYoutubeIdConflicts` | backend/app/routes/videos.py:122-126 | a YouTube id whose stripped form is stored gives 409 when the rest of the body is valid |
| `VideoRoutes.CreateVideoEndToEnd` | backend/app/routes/videos.py:77-115 | given the service's outcome, 201 exactly when the fields are non-blank, the collection is stored and the stripped YouTube id is new; the reply carries the stripped fields |
| `VideoRoutes.GetVideo` | backend/app/routes/videos.py:146-162 | 200 with the stored video exactly when the id is stored; otherwise 404 |
| `VideoRoutes.UpdateVideo` | backend/app/routes/videos.py:188-233 | a falsy body is 400; 404 exactly when the service returns `None`; 200 with the updated video; `ValueError` is 400 with its message |
| `VideoRoutes.UpdateVideoEndToEnd` | backend/app/routes/videos.py:197-222 | given the service's outcome: never 500; 404 exactly for an unknown id; a 200 reply keeps the id, the YouTube id and every field absent from the body |
| `VideoRoutes.DeleteVideo` | backend/app/routes/videos.py:248-266 | 200 exactly when the service deleted the video; 404 exactly when it was unknown; otherwise 500 `Failed to delete video` |
| `VideoRoutes.DeleteVideoEndToEnd` | backend/app/routes/videos.py:248-266 | given the service's outcome: 404 exactly for an unknown id, 500 with the NOT NULL failure exactly for a video with transcripts, 200 exactly for one with none |
| `VideoRoutes.GetAllVideos` | backend/app/routes/videos.py:22-45 | status 200; the items are exactly `get_all_videos(limit, offset, collection_id)` and `count` is their number |
| `TranscriptRoutes.CreateTranscript` | backend/app/routes/transcripts.py:64-110 | checks run in the order body, truthy video id, then content; an integrity failure is 500; 201 returns the created transcript |
| `TranscriptRoutes.CreateTranscriptEndToEnd` | backend/app/routes/transcripts.py:88-105 | given the service's outcome: never 500; 201 exactly for non-blank content and a stored video, carrying the stripped content |
| `TranscriptRoutes.GetTranscript` | backend/app/routes/transcripts.py:130-144 | 200 with the stored transcript exactly when the id is stored; otherwise 404 |
| `TranscriptRoutes.GetTranscriptsByVideo` | backend/app/routes/transcripts.py:165-176 | status 200; the items are exactly `get_transcripts_by_video(video_id)`, each the stored row under its id, and `count` their number |
| `TranscriptRoutes.DeleteTranscript` | backend/app/routes/transcripts.py:196-207 | 200 with the success message exactly when the service deleted the transcript; otherwise 404 |
| `TranscriptRoutes.GetAllTranscripts` | backend/app/routes/transcripts.py:22-43 | status 200; the items are exactly `get_all_transcripts(limit, offset, video_id)` and `count` is their number |

## Left out

- Token signing and verification (`verify_jwt_in_request`, `get_jwt_identity`, `@jwt_required()`): library calls, modelled only as the optional identity they yield. A request with no valid token never reaches the video or transcript handlers.
- Login and logout handlers, password hashing and transcript chunking: not part of this code.
- JSON parsing and rendering: bodies arrive as records of optional fields. A field of the wrong JSON type, such as a `user_id` sent as a string, is not modelled.
- A body that is not JSON, or sent without a JSON content type: `request.get_json()` raises, and the broad `except` answers 500. The model starts from the parsed body, so only a falsy parsed body (the 400) is modelled.
- Query-string parsing: a `limit`, `offset` or filter that is not an integer counts as absent, as `type=int` makes it.
- `created_at` server defaults and their ISO rendering: no logic depends on them.
- `String(n)` length limits: SQLite does not enforce them, and the code never checks them.
- Every `except Exception` branch answering 500, such as a failed database connection: these come from the database or the framework, not from the handlers' logic. The 500s these handlers reach from a modelled outcome, an integrity failure on create or delete, are modelled.
- The full text SQLAlchemy renders for a failed delete's `IntegrityError` (the `UPDATE` it tried and its parameters): only SQLite's constraint text is kept, and the session's rollback is modelled as no change.
- An uncommitted change after a `ValueError` in `update_video`: it is discarded when the request's session ends. The model rolls back at once.
- The full text SQLAlchemy renders for an `IntegrityError`: only SQLite's constraint text is kept.
- The import of `TranscriptService` that `app.services` does not re-export, and the two handlers registered for `GET /transcripts/<int>`: both handler bodies are modelled, not which one Flask dispatches to.
- `Transcript.__repr__`, which refers to an attribute that does not exist: it is never used by the logic.
- The race between the `/users` pre-check and the insert: concurrency is not modelled, and the unique index still yields 409.
- Records returned by services are values: a later change to a returned object does not reach the table. The handlers never change an object they get back.
