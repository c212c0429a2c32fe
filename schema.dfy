/**
  Record shapes of the blogging store's tables and the key constraints the
  schema declares on them (backend/app/models.py).  Every table whose primary
  key is an auto-increment id is a map from that id to its row; every table
  whose primary key is the whole row is a set of rows.
 */
module Schema {

  datatype Option<+T> = None | Some(value: T)

  datatype Result<+T, +E> = Success(value: T) | Failure(error: E)

  /** A storage-layer failure that makes the driver raise. */
  datatype DbError =
    | DuplicateEntry   // a row would break a UNIQUE key

  /** A row of `users`. */
  datatype UserRow = UserRow(
    userId: int,
    username: string,
    email: string,
    hashedPassword: string,
    createdAt: int)

  /** A row of `posts`. */
  datatype PostRow = PostRow(
    postId: int,
    title: string,
    content: string,
    createdAt: int,
    userId: int)

  /** A row of `comments`; `parentId` is NULL for a top-level comment. */
  datatype CommentRow = CommentRow(
    commentId: int,
    content: string,
    createdAt: int,
    userId: int,
    postId: int,
    parentId: Option<int>)

  /** A row of `collections`: a named grouping owned by `userId`. */
  datatype CollectionRow = CollectionRow(collectionId: int, name: string, userId: int)

  /** A row of `post_likes`; the whole row is the primary key. */
  datatype Like = Like(userId: int, postId: int)

  /** A row of `follows`; the pair is the primary key. */
  datatype Follow = Follow(followerId: int, followedId: int)

  /** A row of `bookmarks`, linking a user, a post and a collection. */
  datatype Bookmark = Bookmark(userId: int, postId: int, collectionId: int)

  /** Each user row sits under its own `user_id`. */
  ghost predicate UserKeysMatch(users: map<int, UserRow>) {
    forall id :: id in users ==> users[id].userId == id
  }

  /** `email VARCHAR(255) UNIQUE`: no two user rows share an email. */
  ghost predicate UniqueEmails(users: map<int, UserRow>) {
    forall a, b :: a in users && b in users && users[a].email == users[b].email ==> a == b
  }

  /** `username VARCHAR(50) UNIQUE`: no two user rows share a username. */
  ghost predicate UniqueUsernames(users: map<int, UserRow>) {
    forall a, b :: a in users && b in users && users[a].username == users[b].username ==> a == b
  }

  function Min(a: int, b: int): int {
    if a <= b then a else b
  }
}
