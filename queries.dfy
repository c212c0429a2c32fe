/**
  The read-only queries of the store: look a user up by id or by email, and
  list posts with their owner and their like and view counts, newest first,
  one page at a time.  Every count is recomputed from the base rows.
 */
module Queries {

  import opened Schema
  import opened EdgeSets

  /** `SELECT * FROM users WHERE user_id = ?`, first row or none. */
  function UserById(users: map<int, UserRow>, userId: int): (r: Option<UserRow>)
    requires UserKeysMatch(users)
    ensures r.Some? <==> exists u :: u in users.Values && u.userId == userId
    ensures r.Some? ==> r.value in users.Values && r.value.userId == userId
    ensures forall u :: u in users.Values && u.userId == userId ==> r == Some(u)
  {
    if userId in users then
      assert forall u :: u in users.Values && u.userId == userId ==> u == users[userId] by {
        forall u | u in users.Values && u.userId == userId ensures u == users[userId] {
          if forall k :: k in users ==> users[k] != u {
            assert false;
          }
        }
      }
      Some(users[userId])
    else
      assert forall u :: u in users.Values ==> u.userId != userId by {
        forall u | u in users.Values ensures u.userId != userId {
          if forall k :: k in users ==> users[k] != u {
            assert false;
          }
          var k :| k in users && users[k] == u;
        }
      }
      None
  }

  /** `SELECT * FROM users WHERE email = ?`, first row or none. */
  function UserByEmail(users: map<int, UserRow>, email: string): (r: Option<UserRow>)
    requires UniqueEmails(users)
    ensures r.Some? <==> exists u :: u in users.Values && u.email == email
    ensures r.Some? ==> r.value in users.Values && r.value.email == email
  {
    if exists id :: id in users && users[id].email == email then
      var id :| id in users && users[id].email == email;
      Some(users[id])
    else
      None
  }

  /** Because emails are unique, the user found by email is the only one holding it. */
  lemma EmailIdentifiesUser(users: map<int, UserRow>, u: UserRow)
    requires UniqueEmails(users)
    requires u in users.Values
    ensures UserByEmail(users, u.email) == Some(u)
  {
    if forall k :: k in users ==> users[k] != u {
      assert false;
    }
    var k :| k in users && users[k] == u;
    var found := UserByEmail(users, u.email).value;
    var j :| j in users && users[j] == found;
  }

  /** `(SELECT COUNT(*) FROM post_likes pl WHERE pl.post_id = p.post_id)` */
  function LikesCount(likes: set<Like>, postId: int): nat {
    |set l | l in likes && l.postId == postId|
  }

  /** Adding a like raises the count of its post by one, unless it was there already. */
  lemma LikesCountAfterInsert(likes: set<Like>, like: Like, postId: int)
    ensures LikesCount(InsertIgnore(likes, like), postId) ==
              LikesCount(likes, postId) + (if like.postId == postId && like !in likes then 1 else 0)
  {
    var before := set l | l in likes && l.postId == postId;
    var after := set l | l in InsertIgnore(likes, like) && l.postId == postId;
    if like.postId == postId && like !in likes {
      assert after == before + {like};
    } else {
      assert after == before;
    }
  }

  /** Removing a like lowers the count of its post by one, if it was there. */
  lemma LikesCountAfterDelete(likes: set<Like>, like: Like, postId: int)
    ensures LikesCount(DeleteKey(likes, like), postId) ==
              LikesCount(likes, postId) - (if like.postId == postId && like in likes then 1 else 0)
  {
    var before := set l | l in likes && l.postId == postId;
    var after := set l | l in DeleteKey(likes, like) && l.postId == postId;
    if like.postId == postId && like in likes {
      assert before == after + {like};
    } else {
      assert after == before;
    }
  }

  /** One row of the post listing: the post, its owner's public fields and its live counts. */
  datatype PostSummary = PostSummary(
    postId: int,
    title: string,
    content: string,
    createdAt: int,
    userId: int,
    username: string,
    userEmail: string,
    userCreatedAt: int,
    likesCount: nat,
    viewsCount: nat)

  /** `FROM posts p JOIN users u ON p.user_id = u.user_id`: posts whose owner exists. */
  function JoinedIds(users: map<int, UserRow>, posts: map<int, PostRow>): (ids: set<int>)
    ensures forall pid :: pid in ids <==> pid in posts && posts[pid].userId in users
  {
    set pid | pid in posts && posts[pid].userId in users
  }

  /**
    `s` is the listing row of post `s.postId`: its columns come from that post,
    from its owner, from the likes on it and from the views of it.
   */
  ghost predicate Describes(users: map<int, UserRow>, posts: map<int, PostRow>,
                            likes: set<Like>, views: multiset<int>, s: PostSummary)
  {
    && s.postId in posts
    && posts[s.postId].userId in users
    && var p := posts[s.postId];
       var u := users[p.userId];
       && s.title == p.title && s.content == p.content && s.createdAt == p.createdAt
       && s.userId == p.userId
       && s.username == u.username && s.userEmail == u.email && s.userCreatedAt == u.createdAt
       && s.likesCount == LikesCount(likes, s.postId)
       && s.viewsCount == views[s.postId]
  }

  function Summarize(users: map<int, UserRow>, posts: map<int, PostRow>,
                     likes: set<Like>, views: multiset<int>, postId: int): (s: PostSummary)
    requires postId in posts && posts[postId].userId in users
    ensures s.postId == postId && Describes(users, posts, likes, views, s)
  {
    var p := posts[postId];
    var u := users[p.userId];
    PostSummary(postId, p.title, p.content, p.createdAt, p.userId,
                u.username, u.email, u.createdAt, LikesCount(likes, postId), views[postId])
  }

  /** The listing rows of the posts `ids`, in that order. */
  function Summaries(users: map<int, UserRow>, posts: map<int, PostRow>,
                     likes: set<Like>, views: multiset<int>, ids: seq<int>): (r: seq<PostSummary>)
    requires forall i :: 0 <= i < |ids| ==> ids[i] in posts && posts[ids[i]].userId in users
    ensures |r| == |ids|
    ensures forall i :: 0 <= i < |r| ==> r[i].postId == ids[i] && Describes(users, posts, likes, views, r[i])
  {
    if ids == [] then []
    else [Summarize(users, posts, likes, views, ids[0])] + Summaries(users, posts, likes, views, ids[1..])
  }

  /**
    The order the listing uses: newer `created_at` first.  Posts created at the
    same instant are put in descending id order, a choice of this model.
   */
  predicate NewerOrSame(posts: map<int, PostRow>, a: int, b: int)
    requires a in posts && b in posts
  {
    posts[a].createdAt > posts[b].createdAt || (posts[a].createdAt == posts[b].createdAt && a >= b)
  }

  /** `top` is one of `ids` and comes first among them. */
  predicate IsNewest(posts: map<int, PostRow>, ids: set<int>, top: int)
    requires ids <= posts.Keys
  {
    top in ids && forall j :: j in ids ==> NewerOrSame(posts, top, j)
  }

  /** Every finite nonempty set of posts has a first one in that order. */
  lemma {:induction false} NewestExists(posts: map<int, PostRow>, ids: set<int>)
    requires ids != {} && ids <= posts.Keys
    ensures exists top :: IsNewest(posts, ids, top)
    decreases ids
  {
    if forall x :: x !in ids {
      assert false;
    }
    var x :| x in ids;
    if ids == {x} {
      assert IsNewest(posts, ids, x);
    } else {
      var rest := ids - {x};
      NewestExists(posts, rest);
      var t :| IsNewest(posts, rest, t);
      if NewerOrSame(posts, x, t) {
        forall j | j in ids ensures NewerOrSame(posts, x, j) {
          if j != x {
            assert NewerOrSame(posts, t, j);
          }
        }
        assert IsNewest(posts, ids, x);
      } else {
        assert IsNewest(posts, ids, t);
      }
    }
  }

  /** The newest post among `ids`. */
  function Newest(posts: map<int, PostRow>, ids: set<int>): (top: int)
    requires ids != {} && ids <= posts.Keys
    ensures top in ids
    ensures forall j :: j in ids ==> posts[top].createdAt >= posts[j].createdAt
  {
    NewestExists(posts, ids);
    var top :| IsNewest(posts, ids, top);
    top
  }

  /** `ORDER BY p.created_at DESC` over the post ids `ids`: each once, newest first. */
  function OrderedIds(posts: map<int, PostRow>, ids: set<int>): (r: seq<int>)
    requires ids <= posts.Keys
    ensures |r| == |ids|
    ensures forall i :: 0 <= i < |r| ==> r[i] in ids
    ensures forall pid :: pid in ids ==> pid in r
    ensures forall i, j :: 0 <= i < j < |r| ==> r[i] != r[j]
    ensures forall i, j :: 0 <= i < j < |r| ==> posts[r[i]].createdAt >= posts[r[j]].createdAt
    decreases ids
  {
    if ids == {} then
      []
    else
      var top := Newest(posts, ids);
      [top] + OrderedIds(posts, ids - {top})
  }

  /**
    The full result of the listing query before `LIMIT`/`OFFSET`: one row per
    post whose owner exists, each row describing its post, newest first.
   */
  function Listing(users: map<int, UserRow>, posts: map<int, PostRow>,
                   likes: set<Like>, views: multiset<int>): (r: seq<PostSummary>)
    ensures forall i :: 0 <= i < |r| ==> Describes(users, posts, likes, views, r[i])
    ensures forall pid :: pid in posts && posts[pid].userId in users ==>
              exists i :: 0 <= i < |r| && r[i].postId == pid
    ensures forall i, j :: 0 <= i < j < |r| ==> r[i].postId != r[j].postId
    ensures forall i, j :: 0 <= i < j < |r| ==> r[i].createdAt >= r[j].createdAt
  {
    var joined := JoinedIds(users, posts);
    var ids := OrderedIds(posts, joined);
    var r := Summaries(users, posts, likes, views, ids);
    assert forall pid :: pid in joined ==> exists i :: 0 <= i < |ids| && ids[i] == pid;
    r
  }

  /**
    `LIMIT limit OFFSET skip`: the rows of `all` from position `skip` on, at
    most `limit` of them, in their order.
   */
  function Page<T>(all: seq<T>, skip: nat, limit: nat): (r: seq<T>)
    ensures |r| == (if skip < |all| then Min(limit, |all| - skip) else 0)
    ensures forall i :: 0 <= i < |r| ==> r[i] == all[skip + i]
  {
    if skip < |all| then all[skip .. skip + Min(limit, |all| - skip)] else []
  }

  /** `get_posts(skip, limit)`: one page of the listing. */
  function GetPosts(users: map<int, UserRow>, posts: map<int, PostRow>,
                    likes: set<Like>, views: multiset<int>, skip: nat, limit: nat): (r: seq<PostSummary>)
    ensures |r| <= limit
    ensures var all := Listing(users, posts, likes, views);
              && |r| == (if skip < |all| then Min(limit, |all| - skip) else 0)
              && forall i :: 0 <= i < |r| ==> skip + i < |all| && r[i] == all[skip + i]
  {
    Page(Listing(users, posts, likes, views), skip, limit)
  }

  /**
    Every row `get_posts` returns describes a distinct post whose owner
    exists, with its live like and view counts, and the rows come newest first.
   */
  lemma GetPostsRows(users: map<int, UserRow>, posts: map<int, PostRow>,
                     likes: set<Like>, views: multiset<int>, skip: nat, limit: nat)
    ensures var r := GetPosts(users, posts, likes, views, skip, limit);
              && (forall i :: 0 <= i < |r| ==> Describes(users, posts, likes, views, r[i]))
              && (forall i, j :: 0 <= i < j < |r| ==> r[i].postId != r[j].postId)
              && (forall i, j :: 0 <= i < j < |r| ==> r[i].createdAt >= r[j].createdAt)
  {
    var r := GetPosts(users, posts, likes, views, skip, limit);
    var all := Listing(users, posts, likes, views);
    forall i, j | 0 <= i < j < |r|
      ensures r[i].postId != r[j].postId && r[i].createdAt >= r[j].createdAt
    {
      assert r[i] == all[skip + i] && r[j] == all[skip + j];
    }
  }
}
