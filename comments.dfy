/** The comment handlers: the paginated, oldest-first listing of a post's
    comments, adding a comment and editing one. Each handler runs as one
    atomic step over the database. */
module Comments {
  import opened Wrappers
  import opened Json
  import opened Seqs
  import opened Models
  import opened Store
  import opened Pagination
  import opened Validations

  /** The body `get_post_comments` answers with; the links carry the page they name. */
  datatype CommentList = CommentList(comments: seq<CommentView>, prev: Option<int>, next: Option<int>, count: nat)

  function CreatedTime(c: Comment): int { c.createdTime }

  /** `post.comments.order_by(Comment.created_time.asc())`. */
  function OrderedComments(comments: seq<Comment>, postId: nat): (r: seq<Comment>)
    ensures SortedBy(r, CreatedTime)
    ensures multiset(r) == multiset(CommentsOf(comments, postId))
  {
    SortBy(CommentsOf(comments, postId), CreatedTime)
  }

  function Views(cs: seq<Comment>): (r: seq<CommentView>)
    ensures |r| == |cs| && forall i :: 0 <= i < |cs| ==> r[i] == CommentToJson(cs[i])
  {
    seq(|cs|, i requires 0 <= i < |cs| => CommentToJson(cs[i]))
  }

  /** The body for one page of the ordered comments. */
  function CommentPage(s: seq<Comment>, page: int, perPage: nat): (r: CommentList)
    requires perPage > 0
    ensures r.count == |s|
    ensures r.prev.Some? <==> page > 1
  {
    var pg := Paginate(s, page, perPage);
    CommentList(Views(pg.items), PrevLink(page, pg), NextLink(page, pg), pg.total)
  }

  /** GET /posts/{id}/comments?page=...: the per-page size is the configured
      COMMENTS_PER_PAGE. */
  function ListComments(t: Tables, id: nat, page: int, perPage: nat): (r: Response<CommentList>)
    requires perPage > 0
    ensures r.Ok? || r.NotFound?
    ensures r.NotFound? <==> !HasPost(t.posts, id)
  {
    if PostIndex(t.posts, id).None? then NotFound
    else Ok(CommentPage(OrderedComments(t.comments, id), page, perPage))
  }

  /** POST /posts/{id}/comments: validation, then the post lookup, then the
      `username` header; the new row is stamped with `now`. */
  function NewComment(t: Tables, id: nat, body: Json, author: Header, now: int): (r: (Response<CommentView>, Tables))
    ensures r.0.Ok? || r.0.BadRequest? || r.0.NotFound?
    ensures !r.0.Ok? ==> r.1 == t
    ensures r.0.Ok? ==> HasPost(t.posts, id) && |r.1.comments| == |t.comments| + 1
    ensures r.1.posts == t.posts && r.1.votes == t.votes && r.1.categories == t.categories
  {
    if !ValidCreateComment(body) then (BadRequest, t)
    else if PostIndex(t.posts, id).None? then (NotFound, t)
    else
      var d := CommentFromJson(body.members);
      if !Truthy(author) then (BadRequest, t)
      else
        var c := Comment(t.nextCommentId, author.value, now, id, d.text.value.s);
        (Ok(CommentToJson(c)), t.(comments := t.comments + [c], nextCommentId := t.nextCommentId + 1))
  }

  /** PUT /posts/{postId}/comments/{commentId}: `text` is the payload's `text`
      member (None when it is absent, which keeps the old text). */
  function EditText(t: Tables, postId: nat, commentId: nat, editor: Header, text: Option<string>)
    : (r: (Response<CommentView>, Tables))
    ensures r.0.Ok? || r.0.NotFound? || r.0.Forbidden?
    ensures !r.0.Ok? ==> r.1 == t
    ensures r.0.Ok? ==> editor.Some? && r.0.value.author == editor.value
    ensures |r.1.comments| == |t.comments| && r.1.posts == t.posts && r.1.votes == t.votes
  {
    match CommentIndex(t.comments, commentId)
    case None => (NotFound, t)
    case Some(k) =>
      var c := t.comments[k];
      if editor != Some(c.author) then (Forbidden, t)
      else if c.postId != postId then (Forbidden, t)
      else
        var c' := c.(text := if text.Some? then text.value else c.text);
        (Ok(CommentToJson(c')), t.(comments := t.comments[k := c']))
  }

  // --- the listing ------------------------------------------------------------

  /** The listed page is oldest first: creation times never decrease along it. */
  lemma ListOldestFirst(t: Tables, id: nat, page: int, perPage: nat)
    requires perPage > 0
    ensures var r := ListComments(t, id, page, perPage);
      r.Ok? ==> forall i, j :: 0 <= i < j < |r.value.comments| ==>
        r.value.comments[i].createdTime <= r.value.comments[j].createdTime
  {
    var s := OrderedComments(t.comments, id);
    PageSorted(s, CreatedTime, page, perPage);
  }

  /** The count is the number of the post's comments, and a page holds at most
      `perPage` of them. */
  lemma ListCount(t: Tables, id: nat, page: int, perPage: nat)
    requires perPage > 0
    ensures var r := ListComments(t, id, page, perPage);
      r.Ok? ==> r.value.count == |CommentsOf(t.comments, id)| && |r.value.comments| <= perPage
  {
    var s := OrderedComments(t.comments, id);
    assert |s| == |multiset(s)| == |multiset(CommentsOf(t.comments, id))|;
    PaginateSlice(s, page, perPage);
  }

  /** `prev` is offered exactly for a requested page above 1 and names the page
      before; `next` is offered exactly when comments remain after the page
      `paginate` reads (page 1 for a request below 1) and names the requested
      page plus one. */
  lemma {:induction false} ListLinks(t: Tables, id: nat, page: int, perPage: nat)
    requires perPage > 0 && HasPost(t.posts, id)
    ensures var r := ListComments(t, id, page, perPage);
      && r.Ok?
      && (r.value.prev.Some? <==> page > 1)
      && (r.value.prev.Some? ==> r.value.prev.value == page - 1)
      && (r.value.next.Some? ==> r.value.next.value == page + 1)
      && (r.value.next.Some? <==> (if page < 1 then 1 else page) * perPage < r.value.count)
  {
    HasNextIff(OrderedComments(t.comments, id), page, perPage);
  }

  /** Is comment `c` rendered on page `page` of the post's listing? */
  predicate ListedOn(t: Tables, id: nat, page: int, perPage: nat, c: Comment)
    requires perPage > 0
  {
    var r := ListComments(t, id, page, perPage);
    r.Ok? && CommentToJson(c) in r.value.comments
  }

  /** Every comment of the post is listed on some page: the one of its position
      in the ordering. */
  lemma {:induction false} ListCoversAll(t: Tables, id: nat, c: Comment, perPage: nat)
    requires perPage > 0 && HasPost(t.posts, id)
    requires c in t.comments && c.postId == id
    ensures exists page :: page >= 1 && ListedOn(t, id, page, perPage, c)
  {
    var s := OrderedComments(t.comments, id);
    assert c in multiset(CommentsOf(t.comments, id));
    assert c in multiset(s);
    EveryRowListed(s, c, perPage);
    var page :| page >= 1 && c in Paginate(s, page, perPage).items;
    var items := Paginate(s, page, perPage).items;
    var j :| 0 <= j < |items| && items[j] == c;
    assert Views(items)[j] == CommentToJson(c);
    assert ListComments(t, id, page, perPage).value.comments == Views(items);
    assert ListedOn(t, id, page, perPage, c);
  }

  /** Every rendered entry is the `to_json` of one of the post's own comments. */
  lemma {:induction false} ListedAreOwn(t: Tables, id: nat, page: int, perPage: nat)
    requires perPage > 0
    ensures var r := ListComments(t, id, page, perPage);
      r.Ok? ==> forall i :: 0 <= i < |r.value.comments| ==>
        exists c :: c in t.comments && c.postId == id && r.value.comments[i] == CommentToJson(c)
  {
    var r := ListComments(t, id, page, perPage);
    if r.Ok? {
      var s := OrderedComments(t.comments, id);
      var items := Paginate(s, page, perPage).items;
      assert r.value.comments == Views(items);
      PageFromRows(s, page, perPage);
      forall i | 0 <= i < |items|
        ensures exists c :: c in t.comments && c.postId == id && r.value.comments[i] == CommentToJson(c)
      {
        var c := items[i];
        assert c in s;
        assert c in CommentsOf(t.comments, id) by {
          assert c in multiset(s);
        }
        assert r.value.comments[i] == CommentToJson(c);
      }
    }
  }

  /** The listing's count equals the `comment_count` of the post's `to_json`. */
  lemma ListCountIsCommentCount(t: Tables, k: nat, page: int, perPage: nat)
    requires perPage > 0 && k < |t.posts| && CategoryName(t.categories, t.posts[k].categoryId).Some?
    ensures var r := ListComments(t, t.posts[k].id, page, perPage);
      r.Ok? && r.value.count == PostToJson(t.posts[k], t.categories, t.comments).commentCount
  {
    assert HasPost(t.posts, t.posts[k].id);
    ListCount(t, t.posts[k].id, page, perPage);
  }

  // --- adding a comment --------------------------------------------------------

  /** Appending a row extends the post's comments by it when it belongs to the post. */
  lemma {:induction false} CommentsOfAppend(comments: seq<Comment>, c: Comment, postId: nat)
    ensures CommentsOf(comments + [c], postId) == CommentsOf(comments, postId) + (if c.postId == postId then [c] else [])
    decreases |comments|
  {
    if |comments| == 0 {
      assert [c][1..] == [];
    } else {
      assert (comments + [c])[1..] == comments[1..] + [c];
      CommentsOfAppend(comments[1..], c, postId);
    }
  }

  /** A failed creation changes nothing: a body the schema rejects answers
      BadRequest first, then a missing post NotFound, then a missing or empty
      `username` header BadRequest. */
  lemma NewCommentRefused(t: Tables, id: nat, body: Json, author: Header, now: int)
    ensures var (r, t') := NewComment(t, id, body, author, now);
      && (!ValidCreateComment(body) ==> r == BadRequest)
      && (ValidCreateComment(body) && !HasPost(t.posts, id) ==> r == NotFound)
      && (ValidCreateComment(body) && HasPost(t.posts, id) && !Truthy(author) ==> r == BadRequest)
      && (r.Ok? <==> ValidCreateComment(body) && HasPost(t.posts, id) && Truthy(author))
      && (!r.Ok? ==> t' == t)
  {
  }

  /** A successful creation appends exactly one row, carrying the next id,
      the header's author, the time `now`, the post and the payload's text,
      grows the post's comment count by one and changes no other table. */
  lemma NewCommentApplies(t: Tables, id: nat, body: Json, author: Header, now: int)
    requires ValidCreateComment(body) && HasPost(t.posts, id) && Truthy(author)
    ensures var (r, t') := NewComment(t, id, body, author, now);
      var c := Comment(t.nextCommentId, author.value, now, id, body.members["text"].s);
      && r == Ok(CommentView(author.value, now, body.members["text"].s))
      && t'.comments == t.comments + [c]
      && |CommentsOf(t'.comments, id)| == |CommentsOf(t.comments, id)| + 1
      && t' == t.(comments := t.comments + [c], nextCommentId := t.nextCommentId + 1)
  {
    var c := Comment(t.nextCommentId, author.value, now, id, body.members["text"].s);
    CommentsOfAppend(t.comments, c, id);
  }

  /** The writes of a successful creation. */
  function AddComment(t: Tables, c: Comment): Tables
  {
    t.(comments := t.comments + [c], nextCommentId := t.nextCommentId + 1)
  }

  lemma AddCommentValid(t: Tables, c: Comment)
    requires TablesValid(t) && c.id == t.nextCommentId && HasPost(t.posts, c.postId)
    ensures TablesValid(AddComment(t, c))
  {
    IdsFreshAppend(t.comments, CommentId, t.nextCommentId, c);
    var t' := AddComment(t, c);
    assert RefsValid(t') by {
      assert forall i :: 0 <= i < |t.comments| ==> t'.comments[i] == t.comments[i];
    }
  }

  /** Adding a comment keeps every invariant of the database. */
  lemma NewCommentValid(t: Tables, id: nat, body: Json, author: Header, now: int)
    requires TablesValid(t)
    ensures TablesValid(NewComment(t, id, body, author, now).1)
  {
    if NewComment(t, id, body, author, now).0.Ok? {
      var c := Comment(t.nextCommentId, author.value, now, id, body.members["text"].s);
      assert NewComment(t, id, body, author, now).1 == AddComment(t, c);
      AddCommentValid(t, c);
    }
  }

  // --- editing a comment -------------------------------------------------------

  /** An edit answers NotFound for a missing comment and Forbidden when the
      editor is not the stored author (an absent header included) or the comment
      belongs to another post; a refused edit changes nothing. */
  lemma EditRefused(t: Tables, postId: nat, k: nat, editor: Header, text: Option<string>)
    requires IdsFresh(t.comments, CommentId, t.nextCommentId) && k < |t.comments|
    ensures var (r, t') := EditText(t, postId, t.comments[k].id, editor, text);
      && (editor != Some(t.comments[k].author) ==> r == Forbidden)
      && (t.comments[k].postId != postId ==> r == Forbidden)
      && (r.Ok? <==> editor == Some(t.comments[k].author) && t.comments[k].postId == postId)
      && (!r.Ok? ==> t' == t)
  {
    var j := CommentIndex(t.comments, t.comments[k].id).value;
    assert CommentId(t.comments[j]) == CommentId(t.comments[k]);
  }

  lemma EditMissing(t: Tables, postId: nat, commentId: nat, editor: Header, text: Option<string>)
    requires forall i :: 0 <= i < |t.comments| ==> t.comments[i].id != commentId
    ensures EditText(t, postId, commentId, editor, text) == (NotFound, t)
  {
  }

  /** A successful edit replaces only the text of that one comment (keeping it
      when the payload has none) and answers the edited comment. */
  lemma EditApplies(t: Tables, k: nat, editor: Header, text: Option<string>)
    requires IdsFresh(t.comments, CommentId, t.nextCommentId) && k < |t.comments|
    requires editor == Some(t.comments[k].author)
    ensures var (r, t') := EditText(t, t.comments[k].postId, t.comments[k].id, editor, text);
      var newText := if text.Some? then text.value else t.comments[k].text;
      && r == Ok(CommentView(t.comments[k].author, t.comments[k].createdTime, newText))
      && t' == t.(comments := t.comments[k := t.comments[k].(text := newText)])
      && (text.None? ==> t' == t)
  {
    EditRefused(t, t.comments[k].postId, k, editor, text);
  }

  /** Repeating an edit with the same text changes nothing more. */
  lemma EditIdempotent(t: Tables, postId: nat, commentId: nat, editor: Header, text: Option<string>)
    ensures var t1 := EditText(t, postId, commentId, editor, text).1;
      EditText(t1, postId, commentId, editor, text).1 == t1
  {
    var t1 := EditText(t, postId, commentId, editor, text).1;
    if EditText(t, postId, commentId, editor, text).0.Ok? {
      var k := CommentIndex(t.comments, commentId).value;
      assert CommentIndex(t1.comments, commentId) == Some(k) by {
        assert forall i :: 0 <= i < |t.comments| ==> t1.comments[i].id == t.comments[i].id;
        assert Find(t1.comments, (c: Comment) => c.id == commentId) == Some(k) by {
          FindSameIndex(t.comments, t1.comments, k, commentId);
        }
      }
      var c1 := t1.comments[k];
      assert t1.comments[k := c1.(text := if text.Some? then text.value else c1.text)] == t1.comments;
    }
  }

  lemma {:induction false} FindSameIndex(a: seq<Comment>, b: seq<Comment>, k: nat, id: nat)
    requires |a| == |b| && forall i :: 0 <= i < |a| ==> a[i].id == b[i].id
    requires Find(a, (c: Comment) => c.id == id) == Some(k)
    ensures Find(b, (c: Comment) => c.id == id) == Some(k)
  {
    assert b[k].id == id;
    assert forall i :: 0 <= i < k ==> b[i].id != id by {
      assert forall i :: 0 <= i < k ==> a[i].id != id;
    }
  }

  /** Editing keeps every invariant of the database. */
  lemma EditValid(t: Tables, postId: nat, commentId: nat, editor: Header, text: Option<string>)
    requires TablesValid(t)
    ensures TablesValid(EditText(t, postId, commentId, editor, text).1)
  {
    var t' := EditText(t, postId, commentId, editor, text).1;
    if EditText(t, postId, commentId, editor, text).0.Ok? {
      var k := CommentIndex(t.comments, commentId).value;
      IdsFreshUpdate(t.comments, CommentId, t.nextCommentId, k, t'.comments[k]);
      assert RefsValid(t') by {
        assert forall i :: 0 <= i < |t.comments| ==> t'.comments[i].postId == t.comments[i].postId;
      }
    }
  }

  // --- the handlers --------------------------------------------------------------

  /** POST /posts/{id}/comments. */
  method NewPostComments(db: Db, id: nat, body: Json, author: Header, now: int) returns (r: Response<CommentView>)
    requires db.Valid()
    modifies db
    ensures db.Valid()
    ensures (r, db.Snapshot()) == NewComment(old(db.Snapshot()), id, body, author, now)
  {
    ghost var before := db.Snapshot();
    if !ValidCreateComment(body) {
      return BadRequest;
    }
    var found := PostIndex(db.posts, id);
    if found.None? {
      return NotFound;
    }
    var draft := CommentFromJson(body.members);
    if author.None? || author.value == "" {
      return BadRequest;
    }
    var comment := Comment(db.nextCommentId, author.value, now, id, draft.text.value.s);
    db.comments := db.comments + [comment];
    db.nextCommentId := db.nextCommentId + 1;
    r := Ok(CommentToJson(comment));
    assert db.Snapshot() == AddComment(before, comment);
    NewCommentValid(before, id, body, author, now);
  }

  /** PUT /posts/{postId}/comments/{commentId}. */
  method EditComment(db: Db, postId: nat, commentId: nat, editor: Header, text: Option<string>)
    returns (r: Response<CommentView>)
    requires db.Valid()
    modifies db
    ensures db.Valid()
    ensures (r, db.Snapshot()) == EditText(old(db.Snapshot()), postId, commentId, editor, text)
  {
    ghost var before := db.Snapshot();
    var found := CommentIndex(db.comments, commentId);
    if found.None? {
      return NotFound;
    }
    var k := found.value;
    var comment := db.comments[k];
    if editor != Some(comment.author) {
      return Forbidden;
    }
    if comment.postId != postId {
      return Forbidden;
    }
    if text.Some? {
      comment := comment.(text := text.value);
    }
    db.comments := db.comments[k := comment];
    r := Ok(CommentToJson(comment));
    EditValid(before, postId, commentId, editor, text);
  }
}
