/** Comments on posts (`src/app/controllers/commentController.js`): adding one, listing a
    post's comments newest first, deleting one's own, and hiding one as the post's owner.
    Every handler acts for `Requester(claims)`, the identity `isLoggedIn` passed on. */
module CommentController {
  import opened Common
  import opened Text
  import opened Seqs
  import opened Foreign
  import opened Collections

  /** A `postId` route parameter shorter than this (in UTF-16 code units) is refused before
      any lookup. */
  const MinPostIdLength: nat := 32
  /** A `commentId` route parameter shorter than this (in UTF-16 code units) is refused
      before any lookup. */
  const MinCommentIdLength: nat := 12
  const MinCommentLength: nat := 2
  const MaxCommentLength: nat := 2000

  /** No two stored comments share an `id`. */
  predicate DistinctCommentIds(comments: seq<Comment>) {
    forall i, j :: 0 <= i < j < |comments| ==> comments[i].id != comments[j].id
  }

  /** `requiredField(comment)` followed by the length rule, measured in UTF-16 code units. */
  function CheckComment(comment: Option<string>): (r: Option<Reason>)
    ensures r.None? <==> Present(comment) && MinCommentLength <= Utf16Length(comment.value) <= MaxCommentLength
    ensures r == Some(MissingField) <==> !Present(comment)
    ensures r.Some? ==> r == Some(MissingField) || r == Some(InvalidComment)
  {
    if !Present(comment) then Some(MissingField)
    else if Utf16Length(comment.value) < MinCommentLength || Utf16Length(comment.value) > MaxCommentLength then Some(InvalidComment)
    else None
  }

  /** The document `handleAddComment` stores: the author's `name` and `avatar` are copied
      from the first user with the requester's `user_id`, and are absent when there is none. */
  function CommentEntry(
    users: seq<User>, requester: Claims, post_id: string, comment: string, code: string, now: int)
    : (c: Comment)
    ensures c.post_id == post_id && c.id == code && c.comment == comment && c.createdAt == now
    ensures c.user_id == requester.user_id
    ensures var f := FindFirst(users, UserWithId(requester.user_id));
      && (f.None? ==> c.name.None? && c.avatar.None?)
      && (f.Some? ==> c.name == users[f.value].name && c.avatar == Some(users[f.value].avatar)
                      && users[f.value].user_id == requester.user_id.value)
  {
    match FindFirst(users, UserWithId(requester.user_id))
    case None => Comment(post_id, code, comment, requester.user_id, None, None, now)
    case Some(k) => Comment(post_id, code, comment, requester.user_id, users[k].name, Some(users[k].avatar), now)
  }

  /** Raising a post's `views` keeps both post invariants. */
  lemma ViewBumpKeepsInvariants(posts: seq<Post>, comments: seq<Comment>, post_id: string)
    ensures DistinctPostIds(posts) ==> DistinctPostIds(BumpFirst(posts, post_id, Views, 1))
    ensures CommentCountsAgree(posts, comments) ==>
      CommentCountsAgree(BumpFirst(posts, post_id, Views, 1), comments)
  {
    if DistinctPostIds(posts) {
      BumpFirstKeepsDistinct(posts, post_id, Views, 1);
    }
    if CommentCountsAgree(posts, comments) {
      AgreeAfterViewBump(posts, comments, post_id);
    }
  }

  /** Storing a comment with a fresh id on an existing post, and counting it, keeps every
      invariant. */
  lemma AddKeepsInvariants(posts: seq<Post>, comments: seq<Comment>, c: Comment)
    requires FindFirst(posts, PostWithId(c.post_id)).Some?
    ensures DistinctPostIds(posts) ==> DistinctPostIds(BumpFirst(posts, c.post_id, TotalComment, 1))
    ensures DistinctPostIds(posts) && CommentCountsAgree(posts, comments) ==>
      CommentCountsAgree(BumpFirst(posts, c.post_id, TotalComment, 1), comments + [c])
    ensures DistinctCommentIds(comments) && FindFirst(comments, CommentWithId(c.id)).None? ==>
      DistinctCommentIds(comments + [c])
  {
    if DistinctPostIds(posts) {
      BumpFirstKeepsDistinct(posts, c.post_id, TotalComment, 1);
      if CommentCountsAgree(posts, comments) {
        AgreeAfterAdd(posts, comments, c);
      }
    }
    if DistinctCommentIds(comments) && FindFirst(comments, CommentWithId(c.id)).None? {
      forall i | 0 <= i < |comments| ensures comments[i].id != c.id {
        assert !CommentWithId(c.id)(comments[i]);
      }
    }
  }

  /** `handleAddComment`. The post's `views` is raised as soon as the post is found, before
      the comment is checked, so a refused comment still counts as a view. The comment id
      is `code`, twelve hexadecimal characters from six random bytes. */
  method HandleAddComment(
    db: Db, claims: Claims, postId: string, comment: Option<string>,
    code: string, now: int, acknowledged: bool)
    returns (r: Response<()>)
    requires IsHexCode(code, 6)
    modifies db
    ensures db.users == old(db.users)
    ensures Utf16Length(postId) < MinPostIdLength ==>
      r == Fail(400, InvalidPostId) && db.posts == old(db.posts) && db.comments == old(db.comments)
    ensures Utf16Length(postId) >= MinPostIdLength && FindFirst(old(db.posts), PostWithId(postId)).None? ==>
      r == Fail(404, PostNotFound) && db.posts == old(db.posts) && db.comments == old(db.comments)
    ensures Utf16Length(postId) >= MinPostIdLength && FindFirst(old(db.posts), PostWithId(postId)).Some? ==>
      var viewed := BumpFirst(old(db.posts), postId, Views, 1);
      && (CheckComment(comment).Some? ==>
            r == Fail(400, CheckComment(comment).value)
            && db.posts == viewed && db.comments == old(db.comments))
      && (CheckComment(comment).None? && !acknowledged ==>
            r == Fail(500, WriteNotAcknowledged)
            && db.posts == viewed && db.comments == old(db.comments))
      && (CheckComment(comment).None? && acknowledged ==>
            r == Ok(())
            && db.comments == old(db.comments)
                 + [CommentEntry(old(db.users), Requester(claims), postId, comment.value, code, now)]
            && db.posts == BumpFirst(viewed, postId, TotalComment, 1))
    ensures r.Ok? ==> |db.comments| == |old(db.comments)| + 1 && db.comments[|old(db.comments)|].id == code
    ensures DistinctPostIds(old(db.posts)) ==> DistinctPostIds(db.posts)
    ensures DistinctPostIds(old(db.posts)) && CommentCountsAgree(old(db.posts), old(db.comments)) ==>
      CommentCountsAgree(db.posts, db.comments)
    ensures DistinctCommentIds(old(db.comments)) && FindFirst(old(db.comments), CommentWithId(code)).None? ==>
      DistinctCommentIds(db.comments)
  {
    var user := Requester(claims);
    if Utf16Length(postId) < MinPostIdLength {
      return Fail(400, InvalidPostId);
    }
    var found := FindFirst(db.posts, PostWithId(postId));
    if found.None? {
      return Fail(404, PostNotFound);
    }
    var post := db.posts[found.value];
    ViewBumpKeepsInvariants(db.posts, db.comments, postId);
    db.posts := BumpFirst(db.posts, postId, Views, 1);
    var problem := CheckComment(comment);
    if problem.Some? {
      return Fail(400, problem.value);
    }
    var entry := CommentEntry(db.users, user, post.post_id, comment.value, code, now);
    if !acknowledged {
      return Fail(500, WriteNotAcknowledged);
    }
    assert FindFirst(db.posts, PostWithId(entry.post_id)).Some? by {
      assert PostWithId(postId)(db.posts[found.value]);
    }
    AddKeepsInvariants(db.posts, db.comments, entry);
    db.comments := db.comments + [entry];
    db.posts := BumpFirst(db.posts, postId, TotalComment, 1);
    r := Ok(());
  }

  /** The order `.sort({ createdAt: -1 })` asks for: the rank grows as the date falls. */
  function NewestFirst(): Comment -> int {
    (c: Comment) => -c.createdAt
  }

  /** `find({ post_id }).sort({ createdAt: -1 })`: exactly the comments on the post, each
      as often as it is stored, newest first. */
  function CommentsOfPost(comments: seq<Comment>, post_id: string): (r: seq<Comment>)
    ensures SortedBy(r, NewestFirst())
    ensures multiset(r) == multiset(Filter(comments, CommentOnPost(post_id)))
    ensures |r| == Count(comments, CommentOnPost(post_id))
    ensures forall k :: 0 <= k < |r| ==> r[k].post_id == post_id && r[k] in comments
    ensures forall j :: 0 <= j < |comments| && comments[j].post_id == post_id ==> comments[j] in r
  {
    var matching := Filter(comments, CommentOnPost(post_id));
    var r := SortBy(matching, NewestFirst());
    assert |r| == |multiset(r)| == |multiset(matching)| == |matching|;
    forall k | 0 <= k < |r| ensures r[k].post_id == post_id && r[k] in comments {
      assert r[k] in multiset(matching);
    }
    forall j | 0 <= j < |comments| && comments[j].post_id == post_id ensures comments[j] in r {
      assert CommentOnPost(post_id)(comments[j]);
      assert comments[j] in multiset(r);
    }
    r
  }

  /** A comment just stored is listed with the others of its post. */
  lemma AddedCommentIsListed(comments: seq<Comment>, c: Comment)
    ensures c in CommentsOfPost(comments + [c], c.post_id)
    ensures |CommentsOfPost(comments + [c], c.post_id)| == |CommentsOfPost(comments, c.post_id)| + 1
  {
    var s := comments + [c];
    assert s[|comments|] == c;
    CountAppend(comments, c, CommentOnPost(c.post_id));
  }

  /** `handleGetCommentByPost`. Reading a post's comments also raises its `views`. */
  method HandleGetCommentByPost(db: Db, claims: Claims, postId: string)
    returns (r: Response<seq<Comment>>)
    modifies db
    ensures db.users == old(db.users) && db.comments == old(db.comments)
    ensures Utf16Length(postId) < MinPostIdLength ==> r == Fail(400, InvalidPostId) && db.posts == old(db.posts)
    ensures Utf16Length(postId) >= MinPostIdLength && FindFirst(old(db.posts), PostWithId(postId)).None? ==>
      r == Fail(404, PostNotFound) && db.posts == old(db.posts)
    ensures Utf16Length(postId) >= MinPostIdLength && FindFirst(old(db.posts), PostWithId(postId)).Some? ==>
      r == Ok(CommentsOfPost(db.comments, postId)) && db.posts == BumpFirst(old(db.posts), postId, Views, 1)
    ensures DistinctPostIds(old(db.posts)) ==> DistinctPostIds(db.posts)
    ensures CommentCountsAgree(old(db.posts), old(db.comments)) ==> CommentCountsAgree(db.posts, db.comments)
  {
    if Utf16Length(postId) < MinPostIdLength {
      return Fail(400, InvalidPostId);
    }
    if FindFirst(db.posts, PostWithId(postId)).None? {
      return Fail(404, PostNotFound);
    }
    if CommentCountsAgree(db.posts, db.comments) {
      AgreeAfterViewBump(db.posts, db.comments, postId);
    }
    if DistinctPostIds(db.posts) {
      BumpFirstKeepsDistinct(db.posts, postId, Views, 1);
    }
    db.posts := BumpFirst(db.posts, postId, Views, 1);
    r := Ok(CommentsOfPost(db.comments, postId));
  }

  /** With distinct comment ids, the first comment with an id is the one the author's
      lookup found. */
  lemma FirstWithIdIsAuthors(comments: seq<Comment>, id: string, user_id: Option<string>)
    requires DistinctCommentIds(comments)
    requires FindFirst(comments, CommentWithIdBy(id, user_id)).Some?
    ensures FindFirst(comments, CommentWithId(id)) == FindFirst(comments, CommentWithIdBy(id, user_id))
  {
    var k := FindFirst(comments, CommentWithIdBy(id, user_id)).value;
    assert CommentWithId(id)(comments[k]);
    var j := FindFirst(comments, CommentWithId(id)).value;
    assert comments[j].id == id == comments[k].id;
  }

  /** Deleting a comment keeps the others' ids distinct. */
  lemma RemoveKeepsDistinctIds(comments: seq<Comment>, j: nat)
    requires j < |comments| && DistinctCommentIds(comments)
    ensures DistinctCommentIds(RemoveAt(comments, j))
  {
    var r := RemoveAt(comments, j);
    forall a, b | 0 <= a < b < |r| ensures r[a].id != r[b].id {
      var a' := if a < j then a else a + 1;
      var b' := if b < j then b else b + 1;
      assert r[a] == comments[a'] && r[b] == comments[b'];
    }
  }

  /** `handleDeleteCommentFromPost`. The lookup asks for the requester's own comment, but
      the deletion that follows matches on `id` alone and removes the first comment with
      that id; the counter lowered is that of the post of the comment the lookup found. */
  method HandleDeleteCommentFromPost(db: Db, claims: Claims, commentId: string)
    returns (r: Response<()>)
    modifies db
    ensures db.users == old(db.users)
    ensures Utf16Length(commentId) < MinCommentIdLength ==>
      r == Fail(400, InvalidCommentId) && db.posts == old(db.posts) && db.comments == old(db.comments)
    ensures var own := FindFirst(old(db.comments), CommentWithIdBy(commentId, Requester(claims).user_id));
      Utf16Length(commentId) >= MinCommentIdLength && own.None? ==>
        r == Fail(404, CommentNotFound) && db.posts == old(db.posts) && db.comments == old(db.comments)
    ensures var own := FindFirst(old(db.comments), CommentWithIdBy(commentId, Requester(claims).user_id));
      Utf16Length(commentId) >= MinCommentIdLength && own.Some? ==>
        var first := FindFirst(old(db.comments), CommentWithId(commentId));
        && first.Some?
        && r == Ok(())
        && db.comments == RemoveAt(old(db.comments), first.value)
        && db.posts == BumpFirst(old(db.posts), old(db.comments)[own.value].post_id, TotalComment, -1)
    ensures r.Ok? && DistinctCommentIds(old(db.comments)) ==>
      exists j :: 0 <= j < |old(db.comments)| && db.comments == RemoveAt(old(db.comments), j)
        && old(db.comments)[j].id == commentId && old(db.comments)[j].user_id == Requester(claims).user_id
    ensures DistinctCommentIds(old(db.comments)) ==> DistinctCommentIds(db.comments)
    ensures DistinctPostIds(old(db.posts)) ==> DistinctPostIds(db.posts)
    ensures (DistinctPostIds(old(db.posts)) && DistinctCommentIds(old(db.comments))
             && CommentCountsAgree(old(db.posts), old(db.comments))) ==>
      CommentCountsAgree(db.posts, db.comments)
  {
    var user := Requester(claims);
    if Utf16Length(commentId) < MinCommentIdLength {
      return Fail(400, InvalidCommentId);
    }
    var own := FindFirst(db.comments, CommentWithIdBy(commentId, user.user_id));
    if own.None? {
      return Fail(404, CommentNotFound);
    }
    var existing := db.comments[own.value];
    assert CommentWithId(commentId)(existing);
    var j := FindFirst(db.comments, CommentWithId(commentId)).value;
    if DistinctCommentIds(db.comments) {
      FirstWithIdIsAuthors(db.comments, commentId, user.user_id);
      RemoveKeepsDistinctIds(db.comments, j);
      if DistinctPostIds(db.posts) && CommentCountsAgree(db.posts, db.comments) {
        AgreeAfterRemove(db.posts, db.comments, j);
      }
    }
    if DistinctPostIds(db.posts) {
      BumpFirstKeepsDistinct(db.posts, existing.post_id, TotalComment, -1);
    }
    db.comments := RemoveAt(db.comments, j);
    db.posts := BumpFirst(db.posts, existing.post_id, TotalComment, -1);
    r := Ok(());
  }

  /** `handleHideCommentByPostOwner`: the owner of the post a comment is on may remove it,
      whoever wrote it. */
  method HandleHideCommentByPostOwner(db: Db, claims: Claims, commentId: string)
    returns (r: Response<()>)
    modifies db
    ensures db.users == old(db.users)
    ensures Utf16Length(commentId) < MinCommentIdLength ==>
      r == Fail(400, InvalidCommentId) && db.posts == old(db.posts) && db.comments == old(db.comments)
    ensures var found := FindFirst(old(db.comments), CommentWithId(commentId));
      Utf16Length(commentId) >= MinCommentIdLength && found.None? ==>
        r == Fail(404, CommentNotFound) && db.posts == old(db.posts) && db.comments == old(db.comments)
    ensures var found := FindFirst(old(db.comments), CommentWithId(commentId));
      Utf16Length(commentId) >= MinCommentIdLength && found.Some? ==>
        var post_id := old(db.comments)[found.value].post_id;
        var owned := FindFirst(old(db.posts), PostOwnedBy(post_id, Requester(claims).user_id));
        && (owned.None? ==>
              r == Fail(403, NotPostOwner) && db.posts == old(db.posts) && db.comments == old(db.comments))
        && (owned.Some? ==>
              r == Ok(())
              && db.comments == RemoveAt(old(db.comments), found.value)
              && db.posts == BumpFirst(old(db.posts), post_id, TotalComment, -1))
    ensures r.Ok? ==>
      exists i, j :: 0 <= i < |old(db.posts)| && 0 <= j < |old(db.comments)|
        && old(db.comments)[j].id == commentId
        && old(db.posts)[i].post_id == old(db.comments)[j].post_id
        && old(db.posts)[i].createdBy == Requester(claims).user_id
        && db.comments == RemoveAt(old(db.comments), j)
    ensures DistinctCommentIds(old(db.comments)) ==> DistinctCommentIds(db.comments)
    ensures DistinctPostIds(old(db.posts)) ==> DistinctPostIds(db.posts)
    ensures DistinctPostIds(old(db.posts)) && CommentCountsAgree(old(db.posts), old(db.comments)) ==>
      CommentCountsAgree(db.posts, db.comments)
  {
    var user := Requester(claims);
    if Utf16Length(commentId) < MinCommentIdLength {
      return Fail(400, InvalidCommentId);
    }
    var found := FindFirst(db.comments, CommentWithId(commentId));
    if found.None? {
      return Fail(404, CommentNotFound);
    }
    var j := found.value;
    var existing := db.comments[j];
    var owned := FindFirst(db.posts, PostOwnedBy(existing.post_id, user.user_id));
    if owned.None? {
      return Fail(403, NotPostOwner);
    }
    assert PostOwnedBy(existing.post_id, user.user_id)(db.posts[owned.value]);
    if DistinctCommentIds(db.comments) {
      RemoveKeepsDistinctIds(db.comments, j);
    }
    if DistinctPostIds(db.posts) {
      BumpFirstKeepsDistinct(db.posts, existing.post_id, TotalComment, -1);
      if CommentCountsAgree(db.posts, db.comments) {
        AgreeAfterRemove(db.posts, db.comments, j);
      }
    }
    db.comments := RemoveAt(db.comments, j);
    db.posts := BumpFirst(db.posts, existing.post_id, TotalComment, -1);
    r := Ok(());
  }
}
