/** The rows of the four tables (categories, posts, comments, votes), the unsaved
    records `from_json` builds, the JSON projections `to_json` returns, and the
    category seed list. */
module Models {
  import opened Wrappers
  import opened Json
  import opened Seqs

  datatype Category = Category(id: nat, name: string)

  datatype Comment = Comment(id: nat, author: string, createdTime: int, postId: nat, text: string)

  datatype VoteType = Increment | Decrement

  /** A vote ledger row. The voter is the raw `username` header, which may be absent. */
  datatype Vote = Vote(id: nat, postId: nat, voter: Header, voteType: VoteType)

  /** A post row. Payload-copied columns keep the JSON value the payload carried
      (None when the key was absent). `start_date` and `end_date` are DateTime
      columns the database parses; the model keeps the payload value for them too.
      `votes` is the denormalised counter. */
  datatype Post = Post(
    id: nat,
    author: string,
    title: Option<Json>,
    url: Option<Json>,
    couponCode: Option<Json>,
    startDate: Option<Json>,
    endDate: Option<Json>,
    description: Option<Json>,
    createdTime: int,
    categoryId: nat,
    votes: int)

  /** The not yet persisted post that `Post.from_json` constructs. */
  datatype PostDraft = PostDraft(
    startDate: Option<Json>,
    endDate: Option<Json>,
    title: Option<Json>,
    categoryId: nat,
    description: Option<Json>,
    url: Option<Json>,
    couponCode: Option<Json>)

  /** The not yet persisted comment that `Comment.from_json` constructs. */
  datatype CommentDraft = CommentDraft(text: Option<Json>)

  /** `Comment.to_json`. */
  datatype CommentView = CommentView(author: string, createdTime: int, text: string)

  /** `Post.to_json`; `url` stands for the post's own link, which names its id. */
  datatype PostView = PostView(
    url: nat,
    couponCode: Option<Json>,
    productUrl: Option<Json>,
    startDate: Option<Json>,
    endDate: Option<Json>,
    createdTime: int,
    title: Option<Json>,
    category: string,
    description: Option<Json>,
    commentCount: nat,
    author: string)

  /** The names `Category.insert_categories` seeds, in its order. */
  const SeedNames: seq<string> := [
    "Books and Magazines",
    "Entertainment",
    "Electronics",
    "Food and Beverage",
    "Clothing",
    "Health and Beauty"
  ]

  predicate HasCategoryNamed(cats: seq<Category>, name: string)
  {
    exists i :: 0 <= i < |cats| && cats[i].name == name
  }

  /** `Category.query.filter_by(name=name).first()`. */
  function CategoryByName(cats: seq<Category>, name: string): (r: Option<nat>)
    ensures r.Some? ==> r.value < |cats| && cats[r.value].name == name
    ensures r.None? <==> !HasCategoryNamed(cats, name)
  {
    Find(cats, (c: Category) => c.name == name)
  }

  predicate HasCategoryId(cats: seq<Category>, id: nat)
  {
    exists i :: 0 <= i < |cats| && cats[i].id == id
  }

  /** The name of the category row with id `id`, when there is one. */
  function CategoryName(cats: seq<Category>, id: nat): (r: Option<string>)
    ensures r.Some? <==> HasCategoryId(cats, id)
    ensures r.Some? ==> exists i :: 0 <= i < |cats| && cats[i].id == id && cats[i].name == r.value
  {
    match Find(cats, (c: Category) => c.id == id)
    case None => None
    case Some(k) => Some(cats[k].name)
  }

  /** The comments attached to post `postId`, in table order (`post.comments`). */
  function CommentsOf(comments: seq<Comment>, postId: nat): (r: seq<Comment>)
    ensures |r| <= |comments|
    ensures forall c :: c in r <==> c in comments && c.postId == postId
  {
    if |comments| == 0 then []
    else
      var rest := CommentsOf(comments[1..], postId);
      assert forall c :: c in comments <==> c == comments[0] || c in comments[1..];
      if comments[0].postId == postId then [comments[0]] + rest else rest
  }

  /** A post no comment refers to has no comments. */
  lemma {:induction false} CommentsOfNone(comments: seq<Comment>, postId: nat)
    requires forall i :: 0 <= i < |comments| ==> comments[i].postId != postId
    ensures CommentsOf(comments, postId) == []
    decreases |comments|
  {
    if |comments| > 0 {
      CommentsOfNone(comments[1..], postId);
    }
  }

  /** `Comment.from_json`: only `text` is taken from the payload. */
  function CommentFromJson(body: map<string, Json>): (d: CommentDraft)
    ensures d.text.Some? <==> "text" in body
    ensures d.text.Some? ==> d.text.value == body["text"]
  {
    CommentDraft(Get(body, "text"))
  }

  /** `Comment.to_json`: the author, creation time and text of the row, nothing else. */
  function CommentToJson(c: Comment): (v: CommentView)
    ensures v.author == c.author && v.createdTime == c.createdTime && v.text == c.text
  {
    CommentView(c.author, c.createdTime, c.text)
  }

  /** Does this category row name the payload's `category` member? */
  predicate NamesCategory(body: map<string, Json>, c: Category)
  {
    Get(body, "category") == Some(JStr(c.name))
  }

  /** `Post.from_json`: copies the payload members and resolves the category by
      name. `category.id` on a missing row raises, modelled as None. */
  function PostFromJson(body: map<string, Json>, cats: seq<Category>): (r: Option<PostDraft>)
    ensures r.Some? <==> exists i :: 0 <= i < |cats| && NamesCategory(body, cats[i])
    ensures r.Some? ==> exists i :: 0 <= i < |cats| && NamesCategory(body, cats[i]) && r.value.categoryId == cats[i].id
    ensures r.Some? ==> HasCategoryId(cats, r.value.categoryId)
    ensures r.Some? ==>
      && r.value.startDate == Get(body, "start_date")
      && r.value.endDate == Get(body, "end_date")
      && r.value.title == Get(body, "title")
      && r.value.description == Get(body, "description")
      && r.value.url == Get(body, "url")
      && r.value.couponCode == Get(body, "coupon_code")
  {
    match Find(cats, (c: Category) => NamesCategory(body, c))
    case None => None
    case Some(k) =>
      Some(PostDraft(
        Get(body, "start_date"),
        Get(body, "end_date"),
        Get(body, "title"),
        cats[k].id,
        Get(body, "description"),
        Get(body, "url"),
        Get(body, "coupon_code")))
  }

  /** `Post.to_json`. `self.category.name` raises when the row is missing, so the
      post's category must exist. */
  function PostToJson(p: Post, cats: seq<Category>, comments: seq<Comment>): (v: PostView)
    requires CategoryName(cats, p.categoryId).Some?
    ensures v.commentCount == |CommentsOf(comments, p.id)|
    ensures v.url == p.id && v.author == p.author && v.title == p.title
    ensures v.productUrl == p.url && v.couponCode == p.couponCode
    ensures v.startDate == p.startDate && v.endDate == p.endDate
    ensures v.description == p.description && v.createdTime == p.createdTime
    ensures exists i :: 0 <= i < |cats| && cats[i].id == p.categoryId && cats[i].name == v.category
  {
    PostView(
      p.id,
      p.couponCode,
      p.url,
      p.startDate,
      p.endDate,
      p.createdTime,
      p.title,
      CategoryName(cats, p.categoryId).value,
      p.description,
      |CommentsOf(comments, p.id)|,
      p.author)
  }

  // ---------------------------------------------------------------------------
  // Category seeding

  /** What `insert_categories` leaves behind, with the next free category id:
      each name not yet in the table is appended, in order, with a fresh id. */
  function SeedFrom(cats: seq<Category>, names: seq<string>, next: nat): (r: (seq<Category>, nat))
    ensures |cats| <= |r.0| <= |cats| + |names|
    ensures r.1 == next + (|r.0| - |cats|)
    decreases |names|
  {
    if |names| == 0 then (cats, next)
    else if CategoryByName(cats, names[0]).Some? then SeedFrom(cats, names[1..], next)
    else SeedFrom(cats + [Category(next, names[0])], names[1..], next + 1)
  }

  /** Seeding keeps the existing rows as they were and in place, and appends,
      with consecutive ids from `next`, only listed names that had no row. */
  lemma {:induction false} SeedFromAppends(cats: seq<Category>, names: seq<string>, next: nat)
    ensures var r := SeedFrom(cats, names, next);
      && |cats| <= |r.0| && r.0[..|cats|] == cats
      && r.1 == next + (|r.0| - |cats|)
      && (forall i :: |cats| <= i < |r.0| ==> r.0[i].id == next + (i - |cats|))
      && (forall i :: |cats| <= i < |r.0| ==> r.0[i].name in names && !HasCategoryNamed(cats, r.0[i].name))
    decreases |names|
  {
    if |names| > 0 {
      if CategoryByName(cats, names[0]).Some? {
        SeedFromAppends(cats, names[1..], next);
        var r := SeedFrom(cats, names[1..], next);
        forall i | |cats| <= i < |r.0| ensures r.0[i].name in names {
          assert r.0[i].name in names[1..];
        }
      } else {
        var grown := cats + [Category(next, names[0])];
        SeedFromAppends(grown, names[1..], next + 1);
        var r := SeedFrom(grown, names[1..], next + 1);
        assert r.0[..|cats|] == r.0[..|grown|][..|cats|];
        forall i | |cats| <= i < |r.0|
          ensures r.0[i].id == next + (i - |cats|)
          ensures r.0[i].name in names && !HasCategoryNamed(cats, r.0[i].name)
        {
          if i == |cats| {
            assert r.0[i] == r.0[..|grown|][i] == grown[i];
          } else {
            assert r.0[i].name in names[1..];
            assert !HasCategoryNamed(grown, r.0[i].name);
            assert forall j :: 0 <= j < |cats| ==> grown[j] == cats[j];
          }
        }
      }
    }
  }

  predicate UniqueNames(cats: seq<Category>)
  {
    forall i, j :: 0 <= i < j < |cats| ==> cats[i].name != cats[j].name
  }

  predicate DistinctNames(names: seq<string>)
  {
    forall i, j :: 0 <= i < j < |names| ==> names[i] != names[j]
  }

  lemma SeedNamesDistinct()
    ensures DistinctNames(SeedNames)
  {
  }

  /** After seeding, every seed name has a row. */
  lemma {:induction false} SeedHasAll(cats: seq<Category>, names: seq<string>, next: nat)
    ensures forall n :: n in names ==> HasCategoryNamed(SeedFrom(cats, names, next).0, n)
    decreases |names|
  {
    if |names| > 0 {
      var r := SeedFrom(cats, names, next);
      if CategoryByName(cats, names[0]).Some? {
        SeedHasAll(cats, names[1..], next);
        SeedFromAppends(cats, names[1..], next);
        var k := CategoryByName(cats, names[0]).value;
        assert r.0[k] == cats[k];
      } else {
        var grown := cats + [Category(next, names[0])];
        SeedHasAll(grown, names[1..], next + 1);
        SeedFromAppends(grown, names[1..], next + 1);
        assert r.0[|cats|] == grown[|cats|];
      }
      forall n | n in names ensures HasCategoryNamed(r.0, n) {
        if n != names[0] {
          assert n in names[1..];
        }
      }
    }
  }

  /** When every name already has a row, seeding changes nothing. */
  lemma {:induction false} SeedNoop(cats: seq<Category>, names: seq<string>, next: nat)
    requires forall n :: n in names ==> HasCategoryNamed(cats, n)
    ensures SeedFrom(cats, names, next) == (cats, next)
    decreases |names|
  {
    if |names| > 0 {
      assert names[0] in names;
      SeedNoop(cats, names[1..], next);
    }
  }

  /** Running the seeding twice equals running it once. */
  lemma SeedIdempotent(cats: seq<Category>, names: seq<string>, next: nat, next': nat)
    ensures var once := SeedFrom(cats, names, next).0;
            SeedFrom(once, names, next') == (once, next')
  {
    SeedHasAll(cats, names, next);
    SeedNoop(SeedFrom(cats, names, next).0, names, next');
  }

  /** Seeding never adds a second row for a name: unique names stay unique. */
  lemma {:induction false} SeedKeepsNamesUnique(cats: seq<Category>, names: seq<string>, next: nat)
    requires UniqueNames(cats) && DistinctNames(names)
    ensures UniqueNames(SeedFrom(cats, names, next).0)
    decreases |names|
  {
    if |names| > 0 {
      if CategoryByName(cats, names[0]).Some? {
        SeedKeepsNamesUnique(cats, names[1..], next);
      } else {
        var grown := cats + [Category(next, names[0])];
        assert UniqueNames(grown);
        SeedKeepsNamesUnique(grown, names[1..], next + 1);
      }
    }
  }
}
