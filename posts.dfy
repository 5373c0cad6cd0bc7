/** The post handlers: the paginated, newest-first listing, fetching one post,
    creating a post and editing one. Each handler runs as one atomic step over
    the database. */
module Posts {
  import opened Wrappers
  import opened Json
  import opened Seqs
  import opened Models
  import opened Store
  import opened Pagination
  import opened Validations

  /** The body `get_posts` answers with; the links carry the page they name. */
  datatype PostList = PostList(posts: seq<PostView>, prev: Option<int>, next: Option<int>, count: nat)

  /** Ascending order on the negated creation time is `created_time DESC`. */
  function NewestFirst(p: Post): int { -p.createdTime }

  /** `Post.query.order_by(Post.created_time.desc())`. */
  function OrderedPosts(posts: seq<Post>): (r: seq<Post>)
    ensures SortedBy(r, NewestFirst)
    ensures multiset(r) == multiset(posts)
  {
    SortBy(posts, NewestFirst)
  }

  /** Can every one of these posts be rendered, that is, does its category row exist? */
  predicate AllCategorised(ps: seq<Post>, cats: seq<Category>)
  {
    forall i :: 0 <= i < |ps| ==> HasCategoryId(cats, ps[i].categoryId)
  }

  function PostViews(ps: seq<Post>, cats: seq<Category>, comments: seq<Comment>): (r: seq<PostView>)
    requires AllCategorised(ps, cats)
    ensures |r| == |ps| && forall i :: 0 <= i < |ps| ==> r[i] == PostToJson(ps[i], cats, comments)
  {
    seq(|ps|, i requires 0 <= i < |ps| => PostToJson(ps[i], cats, comments))
  }

  /** The body for one page of the ordered posts; rendering a post whose
      category row is missing raises, which answers InternalError. */
  function PostPage(t: Tables, s: seq<Post>, page: int, perPage: nat): (r: Response<PostList>)
    requires perPage > 0
    ensures r.Ok? || r.InternalError?
    ensures r.Ok? ==> r.value.count == |s| && (r.value.prev.Some? <==> page > 1)
  {
    var pg := Paginate(s, page, perPage);
    if !AllCategorised(pg.items, t.categories) then InternalError
    else Ok(PostList(PostViews(pg.items, t.categories, t.comments), PrevLink(page, pg), NextLink(page, pg), pg.total))
  }

  /** GET /posts?page=...&category=...; the per-page size is the configured
      POSTS_PER_PAGE. A non-empty `category` argument takes the filtering
      branch, whose query names the attribute `Post.create_time`, which does
      not exist, so it answers InternalError. */
  function ListPosts(t: Tables, page: int, category: Option<string>, perPage: nat): (r: Response<PostList>)
    requires perPage > 0
    ensures Truthy(category) ==> r == InternalError
    ensures r.Ok? || r.InternalError?
  {
    if Truthy(category) then InternalError
    else PostPage(t, OrderedPosts(t.posts), page, perPage)
  }

  /** GET /posts/{id}. */
  function GetPost(t: Tables, id: nat): (r: Response<PostView>)
    ensures r.NotFound? <==> !HasPost(t.posts, id)
    ensures r.Ok? || r.NotFound? || r.InternalError?
  {
    match PostIndex(t.posts, id)
    case None => NotFound
    case Some(k) =>
      if HasCategoryId(t.categories, t.posts[k].categoryId)
      then Ok(PostToJson(t.posts[k], t.categories, t.comments))
      else InternalError
  }

  /** The row `from_json` builds, once the handler has set its author; the
      creation time is `now` and the vote counter starts at 0. */
  function PostOf(d: PostDraft, id: nat, author: string, now: int): Post
  {
    Post(id, author, d.title, d.url, d.couponCode, d.startDate, d.endDate, d.description, now, d.categoryId, 0)
  }

  /** POST /posts: validation, then `Post.from_json` (whose `category.id` raises
      when no row has the named category), then the `username` header. */
  function NewPost(t: Tables, body: Json, author: Header, now: int): (r: (Response<PostView>, Tables))
    ensures r.0.Ok? || r.0.BadRequest? || r.0.InternalError?
    ensures !r.0.Ok? ==> r.1 == t
    ensures r.0.Ok? ==> ValidCreatePost(body) && |r.1.posts| == |t.posts| + 1
    ensures r.1.comments == t.comments && r.1.votes == t.votes && r.1.categories == t.categories
  {
    if !ValidCreatePost(body) then (BadRequest, t)
    else
      match PostFromJson(body.members, t.categories)
      case None => (InternalError, t)
      case Some(d) =>
        if !Truthy(author) then (BadRequest, t)
        else
          var p := PostOf(d, t.nextPostId, author.value, now);
          (Ok(PostToJson(p, t.categories, t.comments)), t.(posts := t.posts + [p], nextPostId := t.nextPostId + 1))
  }

  /** PUT /posts/{id}: after the lookup and the owner check, the handler
      evaluates `post.text` as the default of `request.json.get`, and a post has
      no `text` attribute, so every edit by the owner raises and answers
      InternalError. No edit reaches the database. */
  function EditOutcome(t: Tables, id: nat, editor: Header): (r: Response<PostView>)
    ensures r.NotFound? || r.Forbidden? || r.InternalError?
    ensures r.NotFound? <==> !HasPost(t.posts, id)
  {
    match PostIndex(t.posts, id)
    case None => NotFound
    case Some(k) =>
      if editor != Some(t.posts[k].author) then Forbidden else InternalError
  }

  // --- the listing ------------------------------------------------------------

  /** The listed page is newest first: creation times never increase along it. */
  lemma ListNewestFirst(t: Tables, page: int, perPage: nat)
    requires perPage > 0
    ensures var r := ListPosts(t, page, None, perPage);
      r.Ok? ==> forall i, j :: 0 <= i < j < |r.value.posts| ==>
        r.value.posts[i].createdTime >= r.value.posts[j].createdTime
  {
    var s := OrderedPosts(t.posts);
    PageSorted(s, NewestFirst, page, perPage);
    var items := Paginate(s, page, perPage).items;
    assert forall i, j :: 0 <= i < j < |items| ==> NewestFirst(items[i]) <= NewestFirst(items[j]);
  }

  /** With every post categorised, the listing succeeds, counts all posts and
      holds at most `perPage` of them. */
  lemma ListCount(t: Tables, page: int, perPage: nat)
    requires perPage > 0 && PostsCategorised(t.posts, t.categories)
    ensures var r := ListPosts(t, page, None, perPage);
      r.Ok? && r.value.count == |t.posts| && |r.value.posts| <= perPage
  {
    var s := OrderedPosts(t.posts);
    assert |s| == |multiset(s)| == |multiset(t.posts)|;
    PaginateSlice(s, page, perPage);
    var items := Paginate(s, page, perPage).items;
    forall i | 0 <= i < |items| ensures HasCategoryId(t.categories, items[i].categoryId) {
      assert items[i] in multiset(t.posts);
      var j :| 0 <= j < |t.posts| && t.posts[j] == items[i];
    }
  }

  /** `prev` is offered exactly for a requested page above 1 and names the page
      before; `next` is offered exactly when posts remain after the page
      `paginate` reads (page 1 for a request below 1) and names the requested
      page plus one. */
  lemma {:induction false} ListLinks(t: Tables, page: int, perPage: nat)
    requires perPage > 0
    ensures var r := ListPosts(t, page, None, perPage);
      r.Ok? ==>
        && (r.value.prev.Some? <==> page > 1)
        && (r.value.prev.Some? ==> r.value.prev.value == page - 1)
        && (r.value.next.Some? ==> r.value.next.value == page + 1)
        && (r.value.next.Some? <==> (if page < 1 then 1 else page) * perPage < r.value.count)
  {
    HasNextIff(OrderedPosts(t.posts), page, perPage);
  }

  /** With 25 posts and 10 per page, page 2 renders the posts ranked 11 to 20
      newest first, counts 25 and links to pages 1 and 3. */
  lemma SecondPageScenario(t: Tables)
    requires |t.posts| == 25 && PostsCategorised(t.posts, t.categories)
    ensures var r := ListPosts(t, 2, None, 10);
      var ranked := OrderedPosts(t.posts);
      && r.Ok? && r.value.count == 25 && r.value.prev == Some(1) && r.value.next == Some(3)
      && |ranked| == 25 && AllCategorised(ranked[10..20], t.categories)
      && r.value.posts == PostViews(ranked[10..20], t.categories, t.comments)
  {
    ListCount(t, 2, 10);
    ListLinks(t, 2, 10);
  }

  // --- fetching one post ----------------------------------------------------------

  /** An existing, categorised post is answered with its `to_json`. */
  lemma GetPostFound(t: Tables, k: nat)
    requires IdsFresh(t.posts, PostId, t.nextPostId) && k < |t.posts|
    requires HasCategoryId(t.categories, t.posts[k].categoryId)
    ensures GetPost(t, t.posts[k].id) == Ok(PostToJson(t.posts[k], t.categories, t.comments))
  {
    var j := PostIndex(t.posts, t.posts[k].id).value;
    assert PostId(t.posts[j]) == PostId(t.posts[k]);
  }

  // --- creating a post --------------------------------------------------------------

  /** A failed creation changes nothing: a body the schema rejects answers
      BadRequest before anything else is looked at, an unknown category
      InternalError, and then a missing or empty `username` header BadRequest. */
  lemma NewPostRefused(t: Tables, body: Json, author: Header, now: int)
    ensures var (r, t') := NewPost(t, body, author, now);
      && (!ValidCreatePost(body) ==> r == BadRequest)
      && (ValidCreatePost(body) && PostFromJson(body.members, t.categories).None? ==> r == InternalError)
      && (ValidCreatePost(body) && PostFromJson(body.members, t.categories).Some? && !Truthy(author)
          ==> r == BadRequest)
      && (r.Ok? <==> ValidCreatePost(body) && PostFromJson(body.members, t.categories).Some? && Truthy(author))
      && (!r.Ok? ==> t' == t)
  {
  }

  /** After the categories are seeded, an accepted body never meets the
      InternalError of an unknown category. */
  lemma NewPostSeeded(t: Tables, body: Json, author: Header, now: int)
    requires ValidCreatePost(body) && Truthy(author)
    requires forall n :: n in SeedNames ==> HasCategoryNamed(t.categories, n)
    ensures NewPost(t, body, author, now).0.Ok?
  {
    ValidPostResolves(body, t.categories);
  }

  /** A successful creation appends exactly one row: the next id, the header's
      author, the payload's fields and category, the time `now` and a zero
      counter; no other table changes, and (in a valid database) the answer
      reports no comments. */
  lemma NewPostApplies(t: Tables, body: Json, author: Header, now: int)
    requires IdsFresh(t.posts, PostId, t.nextPostId) && CommentsReferencePosts(t.comments, t.posts)
    requires ValidCreatePost(body) && PostFromJson(body.members, t.categories).Some? && Truthy(author)
    ensures var (r, t') := NewPost(t, body, author, now);
      var d := PostFromJson(body.members, t.categories).value;
      && t'.posts == t.posts + [PostOf(d, t.nextPostId, author.value, now)]
      && t'.posts[|t.posts|].author == author.value
      && t'.nextPostId == t.nextPostId + 1
      && t'.categories == t.categories && t'.comments == t.comments && t'.votes == t.votes
      && r.Ok? && r.value.author == author.value && r.value.url == t.nextPostId && r.value.commentCount == 0
  {
    NoCommentsYet(t);
  }

  /** No comment refers to the id the next post will get. */
  lemma NoCommentsYet(t: Tables)
    requires IdsFresh(t.posts, PostId, t.nextPostId) && CommentsReferencePosts(t.comments, t.posts)
    ensures CommentsOf(t.comments, t.nextPostId) == []
  {
    forall i | 0 <= i < |t.comments| ensures t.comments[i].postId != t.nextPostId {
      assert HasPost(t.posts, t.comments[i].postId);
    }
    CommentsOfNone(t.comments, t.nextPostId);
  }

  /** The writes of a successful creation. */
  function AddPost(t: Tables, p: Post): Tables
  {
    t.(posts := t.posts + [p], nextPostId := t.nextPostId + 1)
  }

  lemma AddPostKeys(t: Tables, p: Post)
    requires KeysValid(t) && p.id == t.nextPostId
    ensures KeysValid(AddPost(t, p))
  {
    IdsFreshAppend(t.posts, PostId, t.nextPostId, p);
  }

  lemma AddPostRefs(t: Tables, p: Post)
    requires RefsValid(t) && HasCategoryId(t.categories, p.categoryId)
    ensures RefsValid(AddPost(t, p))
  {
    var t' := AddPost(t, p);
    forall n | HasPost(t.posts, n) ensures HasPost(t'.posts, n) {
      var i :| 0 <= i < |t.posts| && t.posts[i].id == n;
      assert t'.posts[i].id == n;
    }
  }

  lemma AddPostLedger(t: Tables, p: Post)
    requires LedgerValid(t) && p.votes == 0
    requires forall i :: 0 <= i < |t.votes| ==> t.votes[i].postId != p.id
    ensures LedgerValid(AddPost(t, p))
  {
    TallyUnreferenced(t.votes, p.id);
  }

  /** Creating a post keeps every invariant of the database; in particular the
      new post's zero counter matches its empty tally. */
  lemma NewPostValid(t: Tables, body: Json, author: Header, now: int)
    requires TablesValid(t)
    ensures TablesValid(NewPost(t, body, author, now).1)
  {
    if NewPost(t, body, author, now).0.Ok? {
      var d := PostFromJson(body.members, t.categories).value;
      var p := PostOf(d, t.nextPostId, author.value, now);
      assert NewPost(t, body, author, now).1 == AddPost(t, p);
      AddPostKeys(t, p);
      AddPostRefs(t, p);
      forall i | 0 <= i < |t.votes| ensures t.votes[i].postId != p.id {
        assert HasPost(t.posts, t.votes[i].postId);
      }
      AddPostLedger(t, p);
    }
  }

  // --- editing a post -------------------------------------------------------------

  /** An edit answers NotFound for a missing post, Forbidden for anyone but the
      owner (an absent header included), and InternalError for the owner. */
  lemma EditOutcomes(t: Tables, k: nat, editor: Header)
    requires IdsFresh(t.posts, PostId, t.nextPostId) && k < |t.posts|
    ensures EditOutcome(t, t.posts[k].id, editor) ==
      if editor == Some(t.posts[k].author) then InternalError else Forbidden
  {
    var j := PostIndex(t.posts, t.posts[k].id).value;
    assert PostId(t.posts[j]) == PostId(t.posts[k]);
  }

  lemma EditMissing(t: Tables, id: nat, editor: Header)
    requires !HasPost(t.posts, id)
    ensures EditOutcome(t, id, editor) == NotFound && GetPost(t, id) == NotFound
  {
  }

  // --- the handlers --------------------------------------------------------------

  /** POST /posts. */
  method CreatePost(db: Db, body: Json, author: Header, now: int) returns (r: Response<PostView>)
    requires db.Valid()
    modifies db
    ensures db.Valid()
    ensures (r, db.Snapshot()) == NewPost(old(db.Snapshot()), body, author, now)
  {
    ghost var before := db.Snapshot();
    if !ValidCreatePost(body) {
      return BadRequest;
    }
    var draft := PostFromJson(body.members, db.categories);
    if draft.None? {
      return InternalError;
    }
    if author.None? || author.value == "" {
      return BadRequest;
    }
    var post := PostOf(draft.value, db.nextPostId, author.value, now);
    db.posts := db.posts + [post];
    db.nextPostId := db.nextPostId + 1;
    r := Ok(PostToJson(post, db.categories, db.comments));
    assert db.Snapshot() == AddPost(before, post);
    NewPostValid(before, body, author, now);
  }

  /** PUT /posts/{id}: it reads the database and writes nothing. */
  method EditPost(db: Db, id: nat, editor: Header) returns (r: Response<PostView>)
    ensures r == EditOutcome(db.Snapshot(), id, editor)
  {
    var found := PostIndex(db.posts, id);
    if found.None? {
      return NotFound;
    }
    var post := db.posts[found.value];
    if editor != Some(post.author) {
      return Forbidden;
    }
    r := InternalError;
  }
}
