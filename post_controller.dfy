/** Posts (`src/app/controllers/postController.js`): creating one with an optional image,
    the searchable, paginated listing, and reading one post, which counts a view. */
module PostController {
  import opened Common
  import opened Text
  import opened Seqs
  import opened Foreign
  import opened Collections

  const MinDescriptionLength: nat := 2
  const MaxDescriptionLength: nat := 3000
  /** A `postId` route parameter shorter than this (in UTF-16 code units) is refused before
      any lookup. */
  const MinPostIdLength: nat := 32

  // ---------------------------------------------------------------- creating a post

  /** What the image host answers for an upload: its `public_id` and `url`, either of
      which may be missing. */
  datatype Upload = Upload(public_id: Option<string>, url: Option<string>)

  /** The stored `post_image`: the host's id and url, each falling back to `""`; a post
      without an image gets two empty strings. */
  function ImageOf(upload: Option<Upload>): (img: PostImage)
    ensures upload.None? ==> img == PostImage("", "")
    ensures upload.Some? && Present(upload.value.public_id) ==> img.id == upload.value.public_id.value
    ensures upload.Some? && !Present(upload.value.public_id) ==> img.id == ""
    ensures upload.Some? && Present(upload.value.url) ==> img.url == upload.value.url.value
    ensures upload.Some? && !Present(upload.value.url) ==> img.url == ""
  {
    match upload
    case None => PostImage("", "")
    case Some(u) =>
      PostImage(if Present(u.public_id) then u.public_id.value else "",
                if Present(u.url) then u.url.value else "")
  }

  /** `handleAddPost`. `hasFile` is whether the request carried an image buffer and
      `upload` what the host answered (`None` when the upload threw). The post id is
      `code`, 32 hexadecimal characters from sixteen random bytes. The insert's answer is
      not inspected, so once the checks pass the post is stored. */
  method HandleAddPost(
    db: Db, claims: Claims, post_description: Option<string>,
    hasFile: bool, upload: Option<Upload>, code: string, now: int)
    returns (r: Response<()>)
    requires IsHexCode(code, 16)
    modifies db
    ensures db.users == old(db.users) && db.comments == old(db.comments)
    ensures r == Fail(400, MissingField) <==> !Present(post_description)
    ensures r == Fail(400, InvalidDescription) <==>
      Present(post_description)
      && ValidateString(post_description.value, MinDescriptionLength, MaxDescriptionLength).None?
    ensures r == Fail(500, UploadFailed) <==>
      Present(post_description)
      && ValidateString(post_description.value, MinDescriptionLength, MaxDescriptionLength).Some?
      && hasFile && (upload.None? || !Present(upload.value.public_id))
    ensures r.Ok? <==>
      Present(post_description)
      && ValidateString(post_description.value, MinDescriptionLength, MaxDescriptionLength).Some?
      && !(hasFile && (upload.None? || !Present(upload.value.public_id)))
    ensures r.Fail? ==> db.posts == old(db.posts)
    ensures r.Ok? ==>
      db.posts == old(db.posts) + [Post(code, ImageOf(if hasFile then upload else None),
                                        post_description.value, Requester(claims).user_id, now, None, None)]
    ensures !r.Redirect?
    ensures FindFirst(old(db.posts), PostWithId(code)).None? && DistinctPostIds(old(db.posts)) ==>
      DistinctPostIds(db.posts)
    ensures (Count(old(db.comments), CommentOnPost(code)) == 0
             && CommentCountsAgree(old(db.posts), old(db.comments))) ==>
      CommentCountsAgree(db.posts, db.comments)
  {
    var user := Requester(claims);
    if !Present(post_description) {
      return Fail(400, MissingField);
    }
    var processed := ValidateString(post_description.value, MinDescriptionLength, MaxDescriptionLength);
    if processed.None? {
      return Fail(400, InvalidDescription);
    }
    var uploaded: Option<Upload> := None;
    if hasFile {
      if upload.None? || !Present(upload.value.public_id) {
        return Fail(500, UploadFailed);
      }
      uploaded := upload;
    }
    var newPost := Post(code, ImageOf(uploaded), processed.value, user.user_id, now, None, None);
    NewPostKeepsInvariants(db.posts, db.comments, newPost);
    db.posts := db.posts + [newPost];
    r := Ok(());
  }

  /** A post whose id is fresh and has no comments keeps both post invariants. */
  lemma NewPostKeepsInvariants(posts: seq<Post>, comments: seq<Comment>, p: Post)
    requires p.total_comment.None?
    ensures FindFirst(posts, PostWithId(p.post_id)).None? && DistinctPostIds(posts) ==>
      DistinctPostIds(posts + [p])
    ensures Count(comments, CommentOnPost(p.post_id)) == 0 && CommentCountsAgree(posts, comments) ==>
      CommentCountsAgree(posts + [p], comments)
  {
    if FindFirst(posts, PostWithId(p.post_id)).None? {
      forall i | 0 <= i < |posts| ensures posts[i].post_id != p.post_id {
        assert !PostWithId(p.post_id)(posts[i]);
      }
    }
    if Count(comments, CommentOnPost(p.post_id)) == 0 && CommentCountsAgree(posts, comments) {
      var s := posts + [p];
      forall i | 0 <= i < |s|
        ensures CounterValue(s[i].total_comment) == Count(comments, CommentOnPost(s[i].post_id))
      {
        if i < |posts| { assert s[i] == posts[i]; }
      }
    }
  }

  /** A post stored under a fresh id is the one a later lookup of that id finds. */
  lemma AddedPostIsFound(posts: seq<Post>, p: Post)
    requires FindFirst(posts, PostWithId(p.post_id)).None?
    ensures FindFirst(posts + [p], PostWithId(p.post_id)) == Some(|posts|)
  {
    var s := posts + [p];
    assert PostWithId(p.post_id)(s[|posts|]);
    forall j | 0 <= j < |posts| ensures !PostWithId(p.post_id)(s[j]) {
      assert s[j] == posts[j];
    }
  }

  // ---------------------------------------------------------------- listing

  /** `req.query.search || ""`. */
  function SearchText(search: Option<string>): string {
    if Present(search) then search.value else ""
  }

  /** The listing query: everything for an empty search, otherwise the posts whose
      description or id contains the search text, ignoring case (`new RegExp(".*" + search +
      ".*", "i")`, with the search text read literally). */
  function SearchMatches(search: Option<string>): (r: Post -> bool)
    ensures forall p: Post :: SearchText(search) == "" ==> r(p)
    ensures forall p: Post ::
      (|| Contains(Lower(p.post_description), Lower(SearchText(search)))
       || Contains(Lower(p.post_id), Lower(SearchText(search)))) ==> r(p)
    ensures forall p: Post :: r(p) ==>
      || SearchText(search) == ""
      || Contains(Lower(p.post_description), Lower(SearchText(search)))
      || Contains(Lower(p.post_id), Lower(SearchText(search)))
  {
    var text := SearchText(search);
    (p: Post) => text == "" || Contains(Lower(p.post_description), Lower(text)) || Contains(Lower(p.post_id), Lower(text))
  }

  /** `.sort({ createdAt: 1 })`. */
  function OldestFirst(): Post -> int {
    (p: Post) => p.createdAt
  }

  /** `Number(req.query.page) || 1`: a missing, non-numeric or zero page reads as page 1. */
  function EffectivePage(page: Option<int>): (pg: int)
    ensures pg != 0
    ensures page.None? ==> pg == 1
    ensures page.Some? && page.value != 0 ==> pg == page.value
  {
    if page.None? || page.value == 0 then 1 else page.value
  }

  /** `Math.ceil(count / limit)`. */
  function TotalPages(count: nat, limit: nat): (n: nat)
    requires limit > 0
    ensures n * limit >= count
    ensures n > 0 ==> (n - 1) * limit < count
    ensures n == 0 <==> count == 0
  {
    var n := (count + limit - 1) / limit;
    assert n * limit <= count + limit - 1 < (n + 1) * limit;
    n
  }

  /** The number of pages is the only one with the two bounds `TotalPages` promises. */
  lemma TotalPagesUnique(count: nat, limit: nat, m: nat)
    requires limit > 0
    requires m * limit >= count && (m > 0 ==> (m - 1) * limit < count)
    ensures m == TotalPages(count, limit)
  {
    var n := TotalPages(count, limit);
    if m < n {
      MulMonotone(m, n - 1, limit);
    } else if m > n {
      MulMonotone(n, m - 1, limit);
    }
  }

  lemma MulMonotone(a: nat, b: nat, c: nat)
    requires a <= b
    ensures a * c <= b * c
  {
    assert b * c == a * c + (b - a) * c;
  }

  datatype Pagination = Pagination(totalPages: nat, currentPage: int, previousPage: Option<int>, nextPage: Option<int>)

  /** The `pagination` block of the listing. */
  function Paginate(count: nat, page: int, limit: nat): (p: Pagination)
    requires limit > 0
    ensures p.totalPages == TotalPages(count, limit) && p.currentPage == page
    ensures p.previousPage.Some? <==> page > 1
    ensures p.previousPage.Some? ==> p.previousPage.value == page - 1
    ensures p.nextPage.Some? <==> page + 1 <= TotalPages(count, limit)
    ensures p.nextPage.Some? ==> p.nextPage.value == page + 1
  {
    var total := TotalPages(count, limit);
    Pagination(total, page, if page - 1 > 0 then Some(page - 1) else None,
               if page + 1 <= total then Some(page + 1) else None)
  }

  /** A page holds posts exactly when its number is at most the page count. */
  lemma PageNonEmptyIffWithinTotal(count: nat, page: int, limit: nat)
    requires limit > 0 && page >= 1
    ensures (page - 1) * limit < count <==> page <= TotalPages(count, limit)
  {
    var n := TotalPages(count, limit);
    if page <= n {
      MulMonotone(page - 1, n - 1, limit);
    } else {
      MulMonotone(n, page - 1, limit);
    }
  }

  /** `nextPage` is offered exactly when the next page holds posts. */
  lemma NextPageHoldsPosts(count: nat, page: int, limit: nat)
    requires limit > 0 && page >= 1
    ensures Paginate(count, page, limit).nextPage.Some? <==> page * limit < count
  {
    PageNonEmptyIffWithinTotal(count, page + 1, limit);
  }

  /** What `handleGetAllPosts` sends: `data_found`, `pagination` and `data`. */
  datatype Listing = Listing(data_found: nat, pagination: Pagination, data: seq<Post>)

  /** Every post the query matches, oldest first. */
  function Results(posts: seq<Post>, search: Option<string>): (r: seq<Post>)
    ensures |r| == Count(posts, SearchMatches(search))
    ensures SortedBy(r, OldestFirst())
    ensures forall k :: 0 <= k < |r| ==> r[k] in posts && SearchMatches(search)(r[k])
    ensures multiset(r) == multiset(Filter(posts, SearchMatches(search)))
  {
    SortFilterMembers(posts, SearchMatches(search), OldestFirst());
    SortBy(Filter(posts, SearchMatches(search)), OldestFirst())
  }

  /** Page `page` (from 1) of `limit` results: `.skip((page - 1) * limit).limit(limit)`. */
  function PageOf(s: seq<Post>, page: int, limit: nat): (r: seq<Post>)
    requires limit > 0 && page >= 1
    ensures |r| <= limit
    ensures |r| == if (page - 1) * limit >= |s| then 0
      else if (page - 1) * limit + limit <= |s| then limit else |s| - (page - 1) * limit
    ensures forall k :: 0 <= k < |r| ==> (page - 1) * limit + k < |s| && r[k] == s[(page - 1) * limit + k]
    ensures SortedBy(s, OldestFirst()) ==> SortedBy(r, OldestFirst())
    ensures forall k :: 0 <= k < |r| ==> r[k] in s
    ensures |r| > 0 <==> page <= TotalPages(|s|, limit)
  {
    var skip: nat := (page - 1) * limit;
    WindowKeepsSorted(s, skip, limit, OldestFirst());
    PageNonEmptyIffWithinTotal(|s|, page, limit);
    Window(s, skip, limit)
  }

  /** `handleGetAllPosts` for a positive `limit`. Pages count from 1; a negative page makes
      the skip negative, which the driver refuses, and the request fails. */
  function HandleGetAllPosts(posts: seq<Post>, search: Option<string>, page: Option<int>, limit: nat)
    : (r: Response<Listing>)
    requires limit > 0
    ensures !r.Redirect?
    ensures r.Fail? <==> EffectivePage(page) < 1
    ensures r.Fail? ==> r == Fail(500, NegativeSkip)
    ensures r.Ok? ==>
      && r.value.data_found == Count(posts, SearchMatches(search))
      && r.value.pagination == Paginate(r.value.data_found, EffectivePage(page), limit)
      && r.value.data == PageOf(Results(posts, search), EffectivePage(page), limit)
    ensures r.Ok? ==> |r.value.data| <= limit && SortedBy(r.value.data, OldestFirst())
    ensures r.Ok? ==> forall k :: 0 <= k < |r.value.data| ==>
      r.value.data[k] in posts && SearchMatches(search)(r.value.data[k])
    ensures r.Ok? ==>
      (|r.value.data| > 0 <==> EffectivePage(page) <= r.value.pagination.totalPages)
  {
    var pg := EffectivePage(page);
    if pg < 1 then Fail(500, NegativeSkip)
    else
      var results := Results(posts, search);
      var count := Count(posts, SearchMatches(search));
      Ok(Listing(count, Paginate(count, pg, limit), PageOf(results, pg, limit)))
  }

  /** Without a search every post is counted and listed. */
  lemma EmptySearchListsAll(posts: seq<Post>)
    ensures Count(posts, SearchMatches(None)) == |posts|
    ensures Filter(posts, SearchMatches(None)) == posts
  {
    var all := SearchMatches(None);
    assert forall p: Post :: all(p);
    FilterAll(posts, all);
  }

  lemma {:induction false} FilterAll<T>(s: seq<T>, p: T -> bool)
    requires forall x :: p(x)
    ensures Filter(s, p) == s && Count(s, p) == |s|
  {
    if |s| > 0 {
      FilterAll(s[1..], p);
      assert s == [s[0]] + s[1..];
    }
  }

  /** The search ignores the case of the search text. */
  lemma SearchIgnoresCase(search: string, p: Post)
    ensures SearchMatches(Some(search))(p) == SearchMatches(Some(Lower(search)))(p)
  {
    LowerIsLower(search);
  }

  /** The pages cover the sorted results: the result at position `k` is on page
      `k / limit + 1`, which is within the page count. */
  lemma EveryResultIsOnAPage(s: seq<Post>, k: nat, limit: nat)
    requires limit > 0 && k < |s|
    ensures var page := k / limit + 1;
      && s[k] in Window(s, (page - 1) * limit, limit)
      && page <= TotalPages(|s|, limit)
  {
    var q := k / limit;
    var page := q + 1;
    var skip := (page - 1) * limit;
    assert skip == q * limit;
    assert q * limit <= k < q * limit + limit by {
      assert k == q * limit + k % limit;
    }
    var w := Window(s, skip, limit);
    assert w[k - skip] == s[k];
    PageNonEmptyIffWithinTotal(|s|, page, limit);
  }

  // ---------------------------------------------------------------- one post

  /** `handleGetSinglePost`: the post as it was found, before its `views` is raised. */
  method HandleGetSinglePost(db: Db, postId: string) returns (r: Response<Post>)
    modifies db
    ensures db.users == old(db.users) && db.comments == old(db.comments)
    ensures Utf16Length(postId) < MinPostIdLength ==> r == Fail(400, InvalidPostId) && db.posts == old(db.posts)
    ensures Utf16Length(postId) >= MinPostIdLength && FindFirst(old(db.posts), PostWithId(postId)).None? ==>
      r == Fail(404, PostNotFound) && db.posts == old(db.posts)
    ensures var f := FindFirst(old(db.posts), PostWithId(postId));
      Utf16Length(postId) >= MinPostIdLength && f.Some? ==>
        && r == Ok(old(db.posts)[f.value])
        && db.posts == BumpFirst(old(db.posts), postId, Views, 1)
        && CounterValue(db.posts[f.value].views) == CounterValue(r.value.views) + 1
    ensures r.Ok? ==> r.value.post_id == postId
    ensures DistinctPostIds(old(db.posts)) ==> DistinctPostIds(db.posts)
    ensures CommentCountsAgree(old(db.posts), old(db.comments)) ==> CommentCountsAgree(db.posts, db.comments)
  {
    if Utf16Length(postId) < MinPostIdLength {
      return Fail(400, InvalidPostId);
    }
    var f := FindFirst(db.posts, PostWithId(postId));
    if f.None? {
      return Fail(404, PostNotFound);
    }
    var result := db.posts[f.value];
    if DistinctPostIds(db.posts) {
      BumpFirstKeepsDistinct(db.posts, result.post_id, Views, 1);
    }
    if CommentCountsAgree(db.posts, db.comments) {
      AgreeAfterViewBump(db.posts, db.comments, result.post_id);
    }
    db.posts := BumpFirst(db.posts, result.post_id, Views, 1);
    r := Ok(result);
  }
}
