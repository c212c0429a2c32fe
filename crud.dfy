/**
  The store's write operations, each one short sequential transition over the
  tables: insert a row under the next auto-increment id and read it back,
  `INSERT IGNORE` or `DELETE` one composite key, or check a collection's
  owner and only then insert a bookmark.  The clock (`NOW()`) and the
  password hasher are parameters.
 */
module Crud {

  import opened Schema
  import opened Password
  import opened EdgeSets
  import Queries

  /** The reply `{"status": "ok", ...}` of a bookmark that was accepted. */
  datatype BookmarkReceipt = BookmarkReceipt(status: string, userId: int, postId: int, collectionId: int)

  class Store {
    var users: map<int, UserRow>
    var posts: map<int, PostRow>
    var comments: map<int, CommentRow>
    var likes: set<Like>
    var follows: set<Follow>
    var collections: map<int, CollectionRow>
    var bookmarks: set<Bookmark>
    /** One element per `post_views` row: the id of the post viewed. */
    var views: multiset<int>
    /** The next AUTO_INCREMENT value of each table with a serial key. */
    var nextUserId: int
    var nextPostId: int
    var nextCommentId: int
    var nextCollectionId: int

    /**
      The schema's keys: every row sits under its own id, every id is below
      its table's counter, and usernames and emails are unique.
     */
    ghost predicate Valid()
      reads this
    {
      && 1 <= nextUserId && 1 <= nextPostId && 1 <= nextCommentId && 1 <= nextCollectionId
      && UserKeysMatch(users) && UniqueUsernames(users) && UniqueEmails(users)
      && (forall id :: id in users ==> 1 <= id < nextUserId)
      && (forall id :: id in posts ==> posts[id].postId == id && 1 <= id < nextPostId)
      && (forall id :: id in comments ==> comments[id].commentId == id && 1 <= id < nextCommentId)
      && (forall id :: id in collections ==> collections[id].collectionId == id && 1 <= id < nextCollectionId)
    }

    /** An empty database; every serial key starts at 1. */
    constructor ()
      ensures Valid()
      ensures users == map[] && posts == map[] && comments == map[] && collections == map[]
      ensures likes == {} && follows == {} && bookmarks == {} && views == multiset{}
      ensures nextUserId == 1 && nextPostId == 1 && nextCommentId == 1 && nextCollectionId == 1
    {
      users, posts, comments, collections := map[], map[], map[], map[];
      likes, follows, bookmarks, views := {}, {}, {}, multiset{};
      nextUserId, nextPostId, nextCommentId, nextCollectionId := 1, 1, 1, 1;
    }

    /**
      `create_user`: insert a user with the hashed password and return the row
      read back by its new id.  A username or email already taken makes the
      INSERT raise; the failed statement leaves the tables as they were.
     */
    method CreateUser(username: string, email: string, password: seq<byte>,
                      bcrypt: seq<byte> -> string, now: int) returns (r: Result<UserRow, DbError>)
      requires Valid()
      modifies this`users, this`nextUserId
      ensures Valid()
      ensures r.Failure? <==>
                exists u :: u in old(users).Values && (u.username == username || u.email == email)
      ensures r.Failure? ==> r.error == DuplicateEntry && users == old(users) && nextUserId == old(nextUserId)
      ensures r.Success? ==>
                && r.value == UserRow(old(nextUserId), username, email, GetPasswordHash(password, bcrypt), now)
                && r.value.userId !in old(users)
                && users == old(users)[r.value.userId := r.value]
                && nextUserId == old(nextUserId) + 1
                && Queries.UserById(users, r.value.userId) == Some(r.value)
                && Queries.UserByEmail(users, email) == Some(r.value)
    {
      if exists id :: id in users && (users[id].username == username || users[id].email == email) {
        r := Failure(DuplicateEntry);
        return;
      }
      assert forall u :: u in users.Values ==> u.username != username && u.email != email by {
        forall u | u in users.Values ensures u.username != username && u.email != email {
          if forall k :: k in users ==> users[k] != u {
            assert false;
          }
        }
      }
      var hashed := GetPasswordHash(password, bcrypt);
      var newUserId := nextUserId;
      users := users[newUserId := UserRow(newUserId, username, email, hashed, now)];
      nextUserId := nextUserId + 1;
      r := Success(users[newUserId]);
      Queries.EmailIdentifiesUser(users, r.value);
    }

    /** `create_post`: insert a post owned by `userId` and return the row read back. */
    method CreatePost(title: string, content: string, userId: int, now: int) returns (r: PostRow)
      requires Valid()
      modifies this`posts, this`nextPostId
      ensures Valid()
      ensures r == PostRow(old(nextPostId), title, content, now, userId)
      ensures r.postId !in old(posts)
      ensures posts == old(posts)[r.postId := r]
      ensures nextPostId == old(nextPostId) + 1
    {
      var newPostId := nextPostId;
      posts := posts[newPostId := PostRow(newPostId, title, content, now, userId)];
      nextPostId := nextPostId + 1;
      r := posts[newPostId];
    }

    /** `create_comment`: insert a top-level comment on `postId` by `userId`, return it. */
    method CreateComment(content: string, postId: int, userId: int, now: int) returns (r: CommentRow)
      requires Valid()
      modifies this`comments, this`nextCommentId
      ensures Valid()
      ensures r == CommentRow(old(nextCommentId), content, now, userId, postId, None)
      ensures r.commentId !in old(comments)
      ensures comments == old(comments)[r.commentId := r]
      ensures nextCommentId == old(nextCommentId) + 1
    {
      var newCommentId := nextCommentId;
      comments := comments[newCommentId := CommentRow(newCommentId, content, now, userId, postId, None)];
      nextCommentId := nextCommentId + 1;
      r := comments[newCommentId];
    }

    /** `create_post_like`: `INSERT IGNORE` the like; "ok" whether or not it was new. */
    method CreatePostLike(postId: int, userId: int) returns (status: string)
      requires Valid()
      modifies this`likes
      ensures Valid()
      ensures likes == InsertIgnore(old(likes), Like(userId, postId))
      ensures status == "ok"
    {
      likes := InsertIgnore(likes, Like(userId, postId));
      status := "ok";
    }

    /** `delete_post_like`: delete exactly that like; "ok" even if there was none. */
    method DeletePostLike(postId: int, userId: int) returns (status: string)
      requires Valid()
      modifies this`likes
      ensures Valid()
      ensures likes == DeleteKey(old(likes), Like(userId, postId))
      ensures status == "ok"
    {
      likes := DeleteKey(likes, Like(userId, postId));
      status := "ok";
    }

    /** `create_follow`: `INSERT IGNORE` the edge; a user may follow themself. */
    method CreateFollow(followerId: int, followedId: int) returns (status: string)
      requires Valid()
      modifies this`follows
      ensures Valid()
      ensures follows == InsertIgnore(old(follows), Follow(followerId, followedId))
      ensures status == "ok"
    {
      follows := InsertIgnore(follows, Follow(followerId, followedId));
      status := "ok";
    }

    /** `delete_follow`: delete exactly that edge; "ok" even if there was none. */
    method DeleteFollow(followerId: int, followedId: int) returns (status: string)
      requires Valid()
      modifies this`follows
      ensures Valid()
      ensures follows == DeleteKey(old(follows), Follow(followerId, followedId))
      ensures status == "ok"
    {
      follows := DeleteKey(follows, Follow(followerId, followedId));
      status := "ok";
    }

    /** `create_collection`: insert a collection owned by `userId` and return it. */
    method CreateCollection(name: string, userId: int) returns (r: CollectionRow)
      requires Valid()
      modifies this`collections, this`nextCollectionId
      ensures Valid()
      ensures r == CollectionRow(old(nextCollectionId), name, userId)
      ensures r.collectionId !in old(collections)
      ensures collections == old(collections)[r.collectionId := r]
      ensures nextCollectionId == old(nextCollectionId) + 1
    {
      var newCollectionId := nextCollectionId;
      collections := collections[newCollectionId := CollectionRow(newCollectionId, name, userId)];
      nextCollectionId := nextCollectionId + 1;
      r := collections[newCollectionId];
    }

    /**
      `create_bookmark`: look up the collection's owner; unless the collection
      exists and belongs to `userId`, return nothing and write nothing.
      Otherwise `INSERT IGNORE` the bookmark and echo its three ids.
     */
    method CreateBookmark(postId: int, collectionId: int, userId: int) returns (r: Option<BookmarkReceipt>)
      requires Valid()
      modifies this`bookmarks
      ensures Valid()
      ensures r.Some? <==> collectionId in collections && collections[collectionId].userId == userId
      ensures r.None? ==> bookmarks == old(bookmarks)
      ensures r.Some? ==>
                && r.value == BookmarkReceipt("ok", userId, postId, collectionId)
                && bookmarks == InsertIgnore(old(bookmarks), Bookmark(userId, postId, collectionId))
    {
      if collectionId !in collections || collections[collectionId].userId != userId {
        return None;
      }
      bookmarks := InsertIgnore(bookmarks, Bookmark(userId, postId, collectionId));
      r := Some(BookmarkReceipt("ok", userId, postId, collectionId));
    }
  }
}
