/** The three collections of the `social-connection` database, held in memory in natural
    order, the documents stored in them, the queries the handlers run against them, and
    the two invariants the handlers keep: users are numbered by their position, and every
    post's `total_comment` counts the comments on it. */
module Collections {
  import opened Common
  import opened Text
  import opened Seqs
  import opened Foreign

  datatype Avatar = Avatar(id: Option<string>, url: Option<string>)

  datatype User = User(
    user_id: string,
    googleId: Option<string>,
    name: Option<string>,
    email: Option<string>,
    password: Option<Digest>,
    avatar: Avatar,
    role: string,
    banned_user: bool,
    deleted_user: bool,
    email_verified: bool,
    createdAt: int)

  datatype PostImage = PostImage(id: string, url: string)

  /** `views` and `total_comment` are absent until the first `$inc` creates them. */
  datatype Post = Post(
    post_id: string,
    post_image: PostImage,
    post_description: string,
    createdBy: Option<string>,
    createdAt: int,
    views: Option<int>,
    total_comment: Option<int>)

  /** `name` and `avatar` are a snapshot of the author taken when the comment is written. */
  datatype Comment = Comment(
    post_id: string,
    id: string,
    comment: string,
    user_id: Option<string>,
    name: Option<string>,
    avatar: Option<Avatar>,
    createdAt: int)

  /** The database: `usersCollection`, `postsCollection`, `commentsCollection`. */
  class Db {
    var users: seq<User>
    var posts: seq<Post>
    var comments: seq<Comment>

    constructor ()
      ensures users == [] && posts == [] && comments == []
    {
      users, posts, comments := [], [], [];
    }
  }

  // Queries. A missing claim (`undefined`) is a `None`, which matches only documents whose
  // field is null or absent, as the driver sends `undefined` as `null`.

  function UserWithId(id: Option<string>): User -> bool {
    (u: User) => Some(u.user_id) == id
  }

  function UserWithEmail(email: string): User -> bool {
    (u: User) => u.email == Some(email)
  }

  function UserWithGoogleId(googleId: Option<string>): User -> bool {
    (u: User) => u.googleId == googleId
  }

  function PostWithId(post_id: string): Post -> bool {
    (p: Post) => p.post_id == post_id
  }

  function PostOwnedBy(post_id: string, user_id: Option<string>): Post -> bool {
    (p: Post) => p.post_id == post_id && p.createdBy == user_id
  }

  function CommentWithId(id: string): Comment -> bool {
    (c: Comment) => c.id == id
  }

  function CommentWithIdBy(id: string, user_id: Option<string>): Comment -> bool {
    (c: Comment) => c.id == id && c.user_id == user_id
  }

  function CommentOnPost(post_id: string): Comment -> bool {
    (c: Comment) => c.post_id == post_id
  }

  // Counters.

  /** The value `$inc` starts from: an absent counter reads as 0. */
  function CounterValue(c: Option<int>): int {
    if c.Some? then c.value else 0
  }

  datatype Counter = Views | TotalComment

  function Bump(p: Post, counter: Counter, delta: int): (q: Post)
    ensures counter == Views ==> CounterValue(q.views) == CounterValue(p.views) + delta
    ensures counter == Views ==> q == p.(views := q.views)
    ensures counter == TotalComment ==>
      CounterValue(q.total_comment) == CounterValue(p.total_comment) + delta
    ensures counter == TotalComment ==> q == p.(total_comment := q.total_comment)
  {
    match counter
    case Views => p.(views := Some(CounterValue(p.views) + delta))
    case TotalComment => p.(total_comment := Some(CounterValue(p.total_comment) + delta))
  }

  /** `updateOne({ post_id }, { $inc: { counter: delta } })`: the first post with that id
      changes, and nothing changes when there is none. */
  function BumpFirst(posts: seq<Post>, post_id: string, counter: Counter, delta: int): (r: seq<Post>)
    ensures |r| == |posts|
    ensures forall i :: 0 <= i < |posts| ==> r[i].post_id == posts[i].post_id
    ensures FindFirst(posts, PostWithId(post_id)).None? ==> r == posts
    ensures FindFirst(posts, PostWithId(post_id)).Some? ==>
      var k := FindFirst(posts, PostWithId(post_id)).value;
      && r[k] == Bump(posts[k], counter, delta)
      && forall i :: 0 <= i < |posts| && i != k ==> r[i] == posts[i]
  {
    match FindFirst(posts, PostWithId(post_id))
    case None => posts
    case Some(k) => posts[k := Bump(posts[k], counter, delta)]
  }

  // Invariant 1: comment counters.

  predicate DistinctPostIds(posts: seq<Post>) {
    forall i, j :: 0 <= i < j < |posts| ==> posts[i].post_id != posts[j].post_id
  }

  /** Every post's `total_comment` equals the number of stored comments on it. */
  predicate CommentCountsAgree(posts: seq<Post>, comments: seq<Comment>) {
    forall i :: 0 <= i < |posts| ==>
      CounterValue(posts[i].total_comment) == Count(comments, CommentOnPost(posts[i].post_id))
  }

  lemma BumpFirstKeepsDistinct(posts: seq<Post>, post_id: string, counter: Counter, delta: int)
    requires DistinctPostIds(posts)
    ensures DistinctPostIds(BumpFirst(posts, post_id, counter, delta))
  {
  }

  /** Bumping `views` does not disturb the comment counters. */
  lemma {:induction false} AgreeAfterViewBump(posts: seq<Post>, comments: seq<Comment>, post_id: string)
    requires CommentCountsAgree(posts, comments)
    ensures CommentCountsAgree(BumpFirst(posts, post_id, Views, 1), comments)
  {
    var r := BumpFirst(posts, post_id, Views, 1);
    forall i | 0 <= i < |r|
      ensures CounterValue(r[i].total_comment) == Count(comments, CommentOnPost(r[i].post_id))
    {
      assert r[i].total_comment == posts[i].total_comment;
    }
  }

  /** Storing a comment on an existing post and raising that post's `total_comment` by one
      keeps every counter exact. */
  lemma {:induction false} AgreeAfterAdd(posts: seq<Post>, comments: seq<Comment>, c: Comment)
    requires DistinctPostIds(posts) && CommentCountsAgree(posts, comments)
    requires FindFirst(posts, PostWithId(c.post_id)).Some?
    ensures CommentCountsAgree(BumpFirst(posts, c.post_id, TotalComment, 1), comments + [c])
  {
    var r := BumpFirst(posts, c.post_id, TotalComment, 1);
    var k := FindFirst(posts, PostWithId(c.post_id)).value;
    forall i | 0 <= i < |r|
      ensures CounterValue(r[i].total_comment) == Count(comments + [c], CommentOnPost(r[i].post_id))
    {
      CountAppend(comments, c, CommentOnPost(r[i].post_id));
      if i != k {
        assert posts[i].post_id != posts[k].post_id;
        assert r[i] == posts[i];
      }
    }
  }

  /** Deleting the comment at `j` and lowering its post's `total_comment` by one keeps
      every counter exact. */
  lemma {:induction false} AgreeAfterRemove(posts: seq<Post>, comments: seq<Comment>, j: nat)
    requires j < |comments|
    requires DistinctPostIds(posts) && CommentCountsAgree(posts, comments)
    ensures CommentCountsAgree(BumpFirst(posts, comments[j].post_id, TotalComment, -1), RemoveAt(comments, j))
  {
    var pid := comments[j].post_id;
    var r := BumpFirst(posts, pid, TotalComment, -1);
    var f := FindFirst(posts, PostWithId(pid));
    forall i | 0 <= i < |r|
      ensures CounterValue(r[i].total_comment) == Count(RemoveAt(comments, j), CommentOnPost(r[i].post_id))
    {
      CountRemoveAt(comments, j, CommentOnPost(r[i].post_id));
      if f.Some? && i != f.value {
        assert posts[i].post_id != posts[f.value].post_id;
        assert r[i] == posts[i];
      }
    }
  }

  // Invariant 2: users are numbered by position.

  /** `count + 1 + "-" + code`: the identifier given to the user inserted when the
      collection holds `count` documents. */
  function NewUserId(count: nat, code: string): string {
    NatToString(count + 1) + "-" + code
  }

  /** The user at position `i` carries the number `i + 1` before the dash of its id. */
  predicate NumberedUsers(users: seq<User>) {
    forall i :: 0 <= i < |users| ==> IdPrefix(users[i].user_id) == NatToString(i + 1)
  }

  predicate DistinctUserIds(users: seq<User>) {
    forall i, j :: 0 <= i < j < |users| ==> users[i].user_id != users[j].user_id
  }

  /** Appending a user whose id was made from the current count keeps the numbering. */
  lemma AppendKeepsNumbering(users: seq<User>, u: User, code: string)
    requires NumberedUsers(users)
    requires u.user_id == NewUserId(|users|, code)
    ensures NumberedUsers(users + [u])
  {
    var digits := NatToString(|users| + 1);
    assert forall i :: 0 <= i < |digits| ==> digits[i] != '-';
    IdPrefixOfJoined(digits, code);
  }

  /** Numbered users never share an id. */
  lemma NumberedUsersAreDistinct(users: seq<User>)
    requires NumberedUsers(users)
    ensures DistinctUserIds(users)
  {
    forall i, j | 0 <= i < j < |users|
      ensures users[i].user_id != users[j].user_id
    {
      NatToStringInjective(i + 1, j + 1);
    }
  }
}
