# Echo blogging store — table-level data layer

This project models the data layer of the Echo blogging backend: the functions
that write and read the relational tables behind users, posts, comments,
post likes, follows, collections and bookmarks. The database is an in-memory
store, class `Crud.Store`, with one field per table:
- `users`, `posts`, `comments` and `collections` are maps from their
  auto-increment id to the row.
- `likes`, `follows` and `bookmarks` are sets of whole-row keys.
- `views` is a multiset holding one post id per `post_views` row.
- Each table with a serial key has its own counter, which stands in for
  `cursor.lastrowid`.

The key constraints of the schema are the class invariant `Valid()`:
- Every row sits under its own id, and every id is below its table's counter.
- Usernames and emails are unique.
- The `post_likes` and `follows` primary keys hold by construction, because
  those tables are sets of whole-row keys.

Each write of the store is a method:
- An insert into a serial table takes the next id and returns the row read
  back under that id.
- `INSERT IGNORE` into a composite-key table is `EdgeSets.InsertIgnore`.
- `DELETE … WHERE` on the full key is `EdgeSets.DeleteKey`.
- `create_bookmark` checks the collection's owner before it inserts anything.

The reads are functions over the tables:
- The two user lookups.
- `get_posts`: join posts with their owners, count likes and views from the
  base rows, order newest first, then apply `LIMIT`/`OFFSET`.

Password handling covers only the step the store performs itself: it cuts the
password's bytes to the 72 that bcrypt reads. The bcrypt function is a
parameter.

Two HTTP-layer guards are folded in (module `Api`):
- A duplicate email is refused with 400 before the user is created.
- A refused bookmark becomes a 403.

Modules: `Schema` (rows and key constraints), `Password`, `EdgeSets`,
`Queries` (read side), `Crud` (the store and its writes), `Api`.

## Model

| member | source | states |
|---|---|---|
| Password.BcryptInput | backend/app/crud.py:10-15 | the bytes handed to bcrypt are a prefix of the password, exactly min(length, 72) long, and equal the whole password exactly when it is at most 72 bytes |
| Password.GetPasswordHash | backend/app/crud.py:7-18 | a password of at most 72 bytes is hashed whole; a longer one is hashed as its first 72 bytes |
| Password.SameBcryptInput | backend/app/crud.py:13-15 | two passwords reach bcrypt as the same bytes if and only if they are equal or both are at least 72 bytes long and share their first 72 bytes |
| Password.HashIgnoresTail | backend/app/crud.py:13-18 | two long passwords that agree on their first 72 bytes reach bcrypt as identical bytes, so under the same salt they get the same hash |
| EdgeSets.InsertIgnore | backend/app/crud.py:102-105 | after `INSERT IGNORE` the key is present and every other key is present exactly when it was before |
| EdgeSets.DeleteKey | backend/app/crud.py:112-115 | after `DELETE` on the full key that key is absent and every other key is present exactly when it was before |
| EdgeSets.InsertIgnoreIdempotent | backend/app/crud.py:102-105 | inserting the same key twice gives the same table as inserting it once |
| EdgeSets.InsertIgnorePresent | backend/app/crud.py:123-126 | inserting a key that is already present leaves the table unchanged |
| EdgeSets.DeleteAbsent | backend/app/crud.py:112-115 | deleting a key that is absent leaves the table unchanged |
| EdgeSets.DeleteUndoesInsert | backend/app/crud.py:100-117 | insert then delete of a key that was absent restores the table |
| EdgeSets.InsertUndoesDelete | backend/app/crud.py:121-138 | delete then insert of a key that was present restores the table |
| Queries.UserById | backend/app/crud.py:43-47 | returns a user row exactly when some row has that `user_id`, and then it is the one row with that id |
| Queries.UserByEmail | backend/app/crud.py:36-40 | returns a user row exactly when some row has that email, and the row returned is one of the table's rows with that email |
| Queries.EmailIdentifiesUser | backend/app/models.py:35 | because emails are unique, looking up a user's email returns that very user |
| Queries.LikesCountAfterInsert | backend/app/crud.py:74 | after a like is inserted, its post's like count rises by one if the like was new and is unchanged otherwise; other posts' counts do not move |
| Queries.LikesCountAfterDelete | backend/app/crud.py:74 | after a like is deleted, its post's like count drops by one if the like existed and is unchanged otherwise; other posts' counts do not move |
| Queries.Summarize | backend/app/crud.py:71-75 | the row built for a post describes it: the post's columns, its owner's username, email and creation time, and its like and view counts |
| Queries.Summaries | backend/app/crud.py:71-77 | builds one describing row per given post id, in the same order |
| Queries.NewestExists | backend/app/crud.py:78 | every nonempty set of posts has a first post in the listing order |
| Queries.Newest | backend/app/crud.py:78 | picks a post of the set whose `created_at` is at least that of every other post in the set |
| Queries.OrderedIds | backend/app/crud.py:78 | orders a set of post ids: each id exactly once, none added, `created_at` non-increasing |
| Queries.Listing | backend/app/crud.py:70-80 | the unpaginated query result: one row per post whose owner exists (inner join), every row describing its post, no post twice, rows newest first |
| Queries.Page | backend/app/crud.py:79 | `LIMIT limit OFFSET skip`: the rows from position `skip` on, at most `limit` of them, in order; empty when `skip` is past the end |
| Queries.GetPosts | backend/app/crud.py:64-83 | exactly min(`limit`, rows left after `skip`) rows (none when `skip` is past the end), which are the listing's rows from position `skip` on, in order |
| Queries.GetPostsRows | backend/app/crud.py:64-83 | every row returned describes a distinct post whose owner exists, with its live like and view counts, newest first |
| Crud.Store.constructor | backend/app/models.py:30-94 | an empty database that satisfies the key constraints, with every serial counter at 1 |
| Crud.Store.CreateUser | backend/app/crud.py:21-33 | if the username or email is taken: `DuplicateEntry` and no change. Otherwise: exactly one new row under a fresh id, holding the hashed password; both lookups then find it; the invariant is kept |
| Crud.Store.CreatePost | backend/app/crud.py:51-61 | adds exactly one row under a fresh id, holding the title, content, creation time and given `user_id`, and returns that row |
| Crud.Store.CreateComment | backend/app/crud.py:87-96 | adds exactly one top-level comment under a fresh id, holding the given post and user, and returns that row |
| Crud.Store.CreatePostLike | backend/app/crud.py:100-107 | `likes` becomes `INSERT IGNORE` of `(user_id, post_id)`; no other table changes; the result is "ok" whether or not the like existed |
| Crud.Store.DeletePostLike | backend/app/crud.py:110-117 | `likes` loses exactly `(user_id, post_id)`; no other table changes; the result is "ok" even when the like was absent |
| Crud.Store.CreateFollow | backend/app/crud.py:121-128 | `follows` becomes `INSERT IGNORE` of `(follower_id, followed_id)`, self-follow included; no other table changes; the result is "ok" |
| Crud.Store.DeleteFollow | backend/app/crud.py:131-138 | `follows` loses exactly that edge; no other table changes; the result is "ok" |
| Crud.Store.CreateCollection | backend/app/crud.py:141-150 | adds exactly one collection under a fresh id, holding the given name and owner, and returns it |
| Crud.Store.CreateBookmark | backend/app/crud.py:153-168 | returns a receipt if and only if the collection exists and belongs to `user_id`. Refused: `bookmarks` unchanged. Accepted: the bookmark is inserted and the receipt echoes the three ids |
| Api.CreateNewUser | backend/app/main.py:87-92 | a registered email gives 400 and no change. A taken username gives 500 and no change. It succeeds if and only if both are free, and then returns the row `create_user` stores: the next id, the username, the email, the hash of the password and the creation time; the counter advances by one |
| Api.CreateNewBookmark | backend/app/main.py:104-113 | succeeds if and only if the collection belongs to user 1; otherwise a 403 with no bookmark written |

## Design versus code

The system's design calls for several rules that the data layer does not have:
- rejecting a self-follow;
- writing a notification when a like or follow is new;
- toggling a like.

The code has none of these in the data layer. `create_follow` inserts any pair, and no write touches a notification. The model follows the code.

## Left out

- Stored-procedure endpoints (post creation, post listing, post details, comments, the like toggle; backend/app/main.py:119-202): their logic lives in database procedures that are not part of this model.
- Notifications, feed and search: no function of the data layer reads or writes them.
- Connection, commit and rollback handling, and the database driver: transaction I/O. A write that fails is modelled as leaving the tables unchanged.
- bcrypt and UTF-8 encoding are foreign library calls. The password enters as its UTF-8 bytes, and the hasher is a function parameter. bcrypt's random salt is therefore not modelled.
- `NOW()` is a `now` parameter of each insert whose table has a creation timestamp.
- Referential integrity (`REFERENCES … ON DELETE CASCADE`): posts, comments, likes, follows and bookmarks may name ids that do not exist. In the program, a plain `INSERT` naming a missing `user_id` or `post_id` raises (backend/app/crud.py:53-56, 89-92), so the transaction rolls back and the caller sees a 500. An `INSERT IGNORE` whose row fails a foreign key is skipped and the function still returns "ok" (backend/app/crud.py:103, 124). The model writes such rows instead. `get_posts`'s inner join still drops posts whose owner is missing.
- Cascading deletes are not modelled, because no operation here deletes a user, post or collection.
- Column length limits (`VARCHAR(50)`, `VARCHAR(255)`) and `NOT NULL` checks are not modelled.
- `follows.created_at` is not stored: an edge is its key pair only.
- Crud.Store.CreateCollection: models only the success path. No `collections` table or unique key appears in the schema, so what `INSERT IGNORE` plus `lastrowid` return on a duplicate is not pinned down. The 400 branch at backend/app/main.py:100-101 is therefore not modelled either.
- Crud.Store.CreateBookmark: `bookmarks` as a set assumes the whole row is its key, which is inferred from `INSERT IGNORE` (no `bookmarks` table is in the schema).
- Crud.Store.CreateUser: the auto-increment counter is not advanced by a failed insert, although MySQL may consume an id then.
- Queries.GetPosts: `ORDER BY created_at DESC` leaves the order of posts with equal `created_at` open. The model puts them in descending id order, and its contracts promise only the `created_at` order. `skip` and `limit` are naturals, since a negative `LIMIT`/`OFFSET` is an SQL error.
- Queries.UserByEmail, Crud.Store.CreateUser, Api.CreateNewUser: usernames and emails are compared by exact string equality. The collation MySQL applies to `WHERE email = %s` and to the UNIQUE keys (by default case- and accent-insensitive, so `A@x.com` matches `a@x.com`) is not modelled, because the table definitions with their collation are not in the source.
- Queries.GetPosts: the Python defaults `skip=0, limit=10` (backend/app/crud.py:64) are not modelled. Both are explicit parameters.
- Api.CreateNewBookmark: takes `collectionId` as a plain parameter. The request type `BookmarkCreate` declares `collection: id` (backend/app/schemas.py:98-100), which has no `collection_id` field for backend/app/crud.py:157 to read. The model assumes the intended integer `collection_id`.
- Writes to `post_views`: no operation here makes them. The viewer column is never read, so `views` holds only post ids.
