/**
  The two guards the HTTP layer puts around the store's writes: a new user
  is refused when the email is already registered, and a bookmark the store
  refuses becomes a 403.  The acting user of a bookmark is the placeholder
  user 1, as the HTTP layer has no authentication.
 */
module Api {

  import opened Schema
  import opened Password
  import opened EdgeSets
  import Queries
  import Crud

  /** An HTTP error reply. */
  datatype HttpError = HttpError(statusCode: int, detail: string)

  /** The placeholder caller identity used for collections and bookmarks. */
  const CurrentUserId: int := 1

  /**
    `POST /users/`: 400 when the email is taken; otherwise the store's
    `create_user`, whose failure on a taken username escapes as a 500.
   */
  method CreateNewUser(store: Crud.Store, username: string, email: string, password: seq<byte>,
                       bcrypt: seq<byte> -> string, now: int) returns (r: Result<UserRow, HttpError>)
    requires store.Valid()
    modifies store`users, store`nextUserId
    ensures store.Valid()
    ensures (exists u :: u in old(store.users).Values && u.email == email) ==>
              r == Failure(HttpError(400, "Email already registered"))
    ensures (exists u :: u in old(store.users).Values && u.email != email && u.username == username) &&
            (forall u :: u in old(store.users).Values ==> u.email != email) ==>
              r == Failure(HttpError(500, "Internal Server Error"))
    ensures r.Success? <==>
              forall u :: u in old(store.users).Values ==> u.email != email && u.username != username
    ensures r.Failure? ==> store.users == old(store.users) && store.nextUserId == old(store.nextUserId)
    ensures r.Success? ==>
              && r.value == UserRow(old(store.nextUserId), username, email, GetPasswordHash(password, bcrypt), now)
              && r.value.userId !in old(store.users)
              && store.users == old(store.users)[r.value.userId := r.value]
              && store.nextUserId == old(store.nextUserId) + 1
  {
    if Queries.UserByEmail(store.users, email).Some? {
      return Failure(HttpError(400, "Email already registered"));
    }
    var created := store.CreateUser(username, email, password, bcrypt, now);
    if created.Failure? {
      return Failure(HttpError(500, "Internal Server Error"));
    }
    r := Success(created.value);
  }

  /**
    `POST /bookmarks/`: the store's `create_bookmark` for user 1, with its
    refusal turned into a 403.
   */
  method CreateNewBookmark(store: Crud.Store, postId: int, collectionId: int)
    returns (r: Result<Crud.BookmarkReceipt, HttpError>)
    requires store.Valid()
    modifies store`bookmarks
    ensures store.Valid()
    ensures r.Success? <==>
              collectionId in store.collections && store.collections[collectionId].userId == CurrentUserId
    ensures r.Failure? ==>
              && r.error == HttpError(403, "Collection does not exist or does not belong to this user.")
              && store.bookmarks == old(store.bookmarks)
    ensures r.Success? ==>
              && r.value == Crud.BookmarkReceipt("ok", CurrentUserId, postId, collectionId)
              && store.bookmarks == InsertIgnore(old(store.bookmarks), Bookmark(CurrentUserId, postId, collectionId))
  {
    var receipt := store.CreateBookmark(postId, collectionId, CurrentUserId);
    if receipt.None? {
      return Failure(HttpError(403, "Collection does not exist or does not belong to this user."));
    }
    r := Success(receipt.value);
  }
}
