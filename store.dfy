/** The database: four tables and their id sequences, the invariants every
    handler keeps, the lookups the handlers' queries perform, and the
    category seeding (`Category.insert_categories`). */
module Store {
  import opened Wrappers
  import opened Seqs
  import opened Models

  /** A snapshot of the database. Each `next...Id` is the value the table's
      autoincrement key hands out next. */
  datatype Tables = Tables(
    categories: seq<Category>,
    posts: seq<Post>,
    comments: seq<Comment>,
    votes: seq<Vote>,
    nextCategoryId: nat,
    nextPostId: nat,
    nextCommentId: nat,
    nextVoteId: nat)

  // --- primary keys ------------------------------------------------------------

  function CategoryId(c: Category): nat { c.id }
  function PostId(p: Post): nat { p.id }
  function CommentId(c: Comment): nat { c.id }
  function VoteId(v: Vote): nat { v.id }

  /** Keys are distinct and below the next key to be handed out. */
  ghost predicate IdsFresh<T>(s: seq<T>, id: T -> nat, next: nat)
  {
    && (forall i, j :: 0 <= i < j < |s| ==> id(s[i]) != id(s[j]))
    && (forall i :: 0 <= i < |s| ==> id(s[i]) < next)
  }

  lemma IdsFreshAppend<T>(s: seq<T>, id: T -> nat, next: nat, x: T)
    requires IdsFresh(s, id, next) && id(x) == next
    ensures IdsFresh(s + [x], id, next + 1)
  {
  }

  lemma IdsFreshUpdate<T>(s: seq<T>, id: T -> nat, next: nat, k: nat, x: T)
    requires IdsFresh(s, id, next) && k < |s| && id(x) == id(s[k])
    ensures IdsFresh(s[k := x], id, next)
  {
    var s' := s[k := x];
    assert forall i :: 0 <= i < |s| ==> id(s'[i]) == id(s[i]);
  }

  lemma IdsFreshRemove<T>(s: seq<T>, id: T -> nat, next: nat, k: nat)
    requires IdsFresh(s, id, next) && k < |s|
    ensures IdsFresh(RemoveAt(s, k), id, next)
  {
    var r := RemoveAt(s, k);
    forall i, j | 0 <= i < j < |r| ensures id(r[i]) != id(r[j]) {
      var i' := if i < k then i else i + 1;
      var j' := if j < k then j else j + 1;
      assert r[i] == s[i'] && r[j] == s[j'] && i' < j';
    }
  }

  // --- the queries the handlers run ---------------------------------------------

  predicate HasPost(posts: seq<Post>, id: nat)
  {
    exists i :: 0 <= i < |posts| && posts[i].id == id
  }

  /** `Post.query.filter(Post.id == id).first()` and `get_or_404(id)`. */
  function PostIndex(posts: seq<Post>, id: nat): (r: Option<nat>)
    ensures r.Some? ==> r.value < |posts| && posts[r.value].id == id
    ensures r.None? <==> !HasPost(posts, id)
  {
    Find(posts, (p: Post) => p.id == id)
  }

  /** `Comment.query.get_or_404(id)`. */
  function CommentIndex(comments: seq<Comment>, id: nat): (r: Option<nat>)
    ensures r.Some? ==> r.value < |comments| && comments[r.value].id == id
    ensures r.None? <==> forall i :: 0 <= i < |comments| ==> comments[i].id != id
  {
    Find(comments, (c: Comment) => c.id == id)
  }

  /** `Vote.query.filter_by(post_id=postId, voter=voter).first()`. */
  function VoteBy(votes: seq<Vote>, postId: nat, voter: Header): (r: Option<nat>)
    ensures r.Some? ==> r.value < |votes| && votes[r.value].postId == postId && votes[r.value].voter == voter
    ensures r.None? <==> forall i :: 0 <= i < |votes| ==> !(votes[i].postId == postId && votes[i].voter == voter)
  {
    Find(votes, (v: Vote) => v.postId == postId && v.voter == voter)
  }

  /** `Vote.query.filter_by(post_id=postId, id=voteId).first()`. */
  function VoteIndex(votes: seq<Vote>, postId: nat, voteId: nat): (r: Option<nat>)
    ensures r.Some? ==> r.value < |votes| && votes[r.value].postId == postId && votes[r.value].id == voteId
    ensures r.None? <==> forall i :: 0 <= i < |votes| ==> !(votes[i].postId == postId && votes[i].id == voteId)
  {
    Find(votes, (v: Vote) => v.postId == postId && v.id == voteId)
  }

  /** `Vote.query.filter_by(post_id=postId)`: the ledger rows of one post, in table order. */
  function VotesOf(votes: seq<Vote>, postId: nat): (r: seq<Vote>)
    ensures |r| <= |votes|
    ensures forall v :: v in r <==> v in votes && v.postId == postId
  {
    if |votes| == 0 then []
    else
      var rest := VotesOf(votes[1..], postId);
      assert forall v :: v in votes <==> v == votes[0] || v in votes[1..];
      if votes[0].postId == postId then [votes[0]] + rest else rest
  }

  // --- the vote tally -------------------------------------------------------------

  /** How much a vote of this type moves a post's counter. */
  function Delta(t: VoteType): int
  {
    match t
    case Increment => 1
    case Decrement => -1
  }

  /** The number of ledger rows of type `t` for post `postId`. */
  function CountVotes(votes: seq<Vote>, postId: nat, t: VoteType): nat
  {
    if |votes| == 0 then 0
    else
      CountVotes(votes[..|votes| - 1], postId, t)
      + (if votes[|votes| - 1].postId == postId && votes[|votes| - 1].voteType == t then 1 else 0)
  }

  /** #INCREMENT rows minus #DECREMENT rows for the post. */
  function Tally(votes: seq<Vote>, postId: nat): int
  {
    CountVotes(votes, postId, Increment) - CountVotes(votes, postId, Decrement)
  }

  lemma {:induction false} CountVotesConcat(a: seq<Vote>, b: seq<Vote>, postId: nat, t: VoteType)
    ensures CountVotes(a + b, postId, t) == CountVotes(a, postId, t) + CountVotes(b, postId, t)
    decreases |b|
  {
    if |b| == 0 {
      assert a + b == a;
    } else {
      var b' := b[..|b| - 1];
      assert (a + b)[..|a + b| - 1] == a + b';
      CountVotesConcat(a, b', postId, t);
    }
  }

  /** Appending a row moves the post's tally by that row's delta. */
  lemma TallyAppend(votes: seq<Vote>, v: Vote, postId: nat)
    ensures Tally(votes + [v], postId) == Tally(votes, postId) + (if v.postId == postId then Delta(v.voteType) else 0)
  {
    assert (votes + [v])[..|votes|] == votes;
  }

  /** Deleting a row moves the post's tally back by that row's delta. */
  lemma TallyRemove(votes: seq<Vote>, k: nat, postId: nat)
    requires k < |votes|
    ensures Tally(RemoveAt(votes, k), postId)
         == Tally(votes, postId) - (if votes[k].postId == postId then Delta(votes[k].voteType) else 0)
  {
    assert votes == votes[..k] + ([votes[k]] + votes[k + 1..]);
    forall t: VoteType ensures CountVotes(votes, postId, t)
      == CountVotes(RemoveAt(votes, k), postId, t) + CountVotes([votes[k]], postId, t)
    {
      CountVotesConcat(votes[..k], [votes[k]] + votes[k + 1..], postId, t);
      CountVotesConcat([votes[k]], votes[k + 1..], postId, t);
      CountVotesConcat(votes[..k], votes[k + 1..], postId, t);
    }
    forall t: VoteType ensures CountVotes([votes[k]], postId, t)
      == (if votes[k].postId == postId && votes[k].voteType == t then 1 else 0)
    {
      assert [votes[k]][..0] == [];
    }
  }

  /** A post no ledger row refers to has tally zero. */
  lemma {:induction false} TallyUnreferenced(votes: seq<Vote>, postId: nat)
    requires forall i :: 0 <= i < |votes| ==> votes[i].postId != postId
    ensures Tally(votes, postId) == 0
    decreases |votes|
  {
    if |votes| > 0 {
      TallyUnreferenced(votes[..|votes| - 1], postId);
    }
  }

  // --- the database invariant ---------------------------------------------------------

  /** Every post's counter equals its tally in the ledger. */
  ghost predicate CountersMatch(posts: seq<Post>, votes: seq<Vote>)
  {
    forall i :: 0 <= i < |posts| ==> posts[i].votes == Tally(votes, posts[i].id)
  }

  /** At most one ledger row per (post, voter). */
  ghost predicate OneVotePerVoter(votes: seq<Vote>)
  {
    forall i, j :: 0 <= i < j < |votes| ==> !(votes[i].postId == votes[j].postId && votes[i].voter == votes[j].voter)
  }

  ghost predicate PostsCategorised(posts: seq<Post>, cats: seq<Category>)
  {
    forall i :: 0 <= i < |posts| ==> HasCategoryId(cats, posts[i].categoryId)
  }

  ghost predicate CommentsReferencePosts(comments: seq<Comment>, posts: seq<Post>)
  {
    forall i :: 0 <= i < |comments| ==> HasPost(posts, comments[i].postId)
  }

  ghost predicate VotesReferencePosts(votes: seq<Vote>, posts: seq<Post>)
  {
    forall i :: 0 <= i < |votes| ==> HasPost(posts, votes[i].postId)
  }

  /** Primary keys are unique and below their sequence; category names are unique. */
  ghost predicate KeysValid(t: Tables)
  {
    && IdsFresh(t.categories, CategoryId, t.nextCategoryId)
    && IdsFresh(t.posts, PostId, t.nextPostId)
    && IdsFresh(t.comments, CommentId, t.nextCommentId)
    && IdsFresh(t.votes, VoteId, t.nextVoteId)
    && UniqueNames(t.categories)
  }

  /** Every foreign key names an existing row. */
  ghost predicate RefsValid(t: Tables)
  {
    && PostsCategorised(t.posts, t.categories)
    && CommentsReferencePosts(t.comments, t.posts)
    && VotesReferencePosts(t.votes, t.posts)
  }

  /** The vote ledger agrees with the counters and holds one row per (post, voter). */
  ghost predicate LedgerValid(t: Tables)
  {
    OneVotePerVoter(t.votes) && CountersMatch(t.posts, t.votes)
  }

  ghost predicate TablesValid(t: Tables)
  {
    KeysValid(t) && RefsValid(t) && LedgerValid(t)
  }

  /** Rewriting posts in place (keeping their ids and categories) and changing
      the ledger to rows that name existing posts keeps every foreign key valid. */
  lemma RefsKept(t: Tables, t': Tables)
    requires RefsValid(t)
    requires t'.categories == t.categories && t'.comments == t.comments
    requires |t'.posts| == |t.posts|
    requires forall i :: 0 <= i < |t.posts| ==>
      t'.posts[i].id == t.posts[i].id && t'.posts[i].categoryId == t.posts[i].categoryId
    requires VotesReferencePosts(t'.votes, t.posts)
    ensures RefsValid(t')
  {
    forall n | HasPost(t.posts, n) ensures HasPost(t'.posts, n) {
      var i :| 0 <= i < |t.posts| && t.posts[i].id == n;
      assert t'.posts[i].id == n;
    }
  }

  /** The empty database the migrations create. */
  const Empty := Tables([], [], [], [], 1, 1, 1, 1)

  lemma EmptyValid()
    ensures TablesValid(Empty)
  {
  }

  /** Rewriting a post's non-key fields other than its category keeps which posts exist. */
  lemma HasPostUpdate(posts: seq<Post>, k: nat, p: Post, id: nat)
    requires k < |posts| && p.id == posts[k].id
    ensures HasPost(posts[k := p], id) <==> HasPost(posts, id)
  {
    if HasPost(posts, id) {
      var i :| 0 <= i < |posts| && posts[i].id == id;
      assert posts[k := p][i].id == id;
    }
    if HasPost(posts[k := p], id) {
      var i :| 0 <= i < |posts| && posts[k := p][i].id == id;
      assert posts[i].id == id;
    }
  }

  // --- category seeding ---------------------------------------------------------------

  /** The database after `insert_categories`. */
  function Seed(t: Tables): (r: Tables)
    ensures r == t.(categories := r.categories, nextCategoryId := r.nextCategoryId)
    ensures |t.categories| <= |r.categories| <= |t.categories| + |SeedNames|
    ensures r.nextCategoryId == t.nextCategoryId + (|r.categories| - |t.categories|)
  {
    var s := SeedFrom(t.categories, SeedNames, t.nextCategoryId);
    t.(categories := s.0, nextCategoryId := s.1)
  }

  /** Seeding one more name, `n`, after the names `ns` applies the loop's step
      to the table `ns` left. */
  lemma {:induction false} SeedFromSnoc(cats: seq<Category>, ns: seq<string>, n: string, next: nat)
    ensures var (c, x) := SeedFrom(cats, ns, next);
      SeedFrom(cats, ns + [n], next) ==
        if CategoryByName(c, n).Some? then (c, x) else (c + [Category(x, n)], x + 1)
    decreases |ns|
  {
    if |ns| == 0 {
      assert ns + [n] == [n] && [n][1..] == [];
    } else {
      assert (ns + [n])[0] == ns[0] && (ns + [n])[1..] == ns[1..] + [n];
      if CategoryByName(cats, ns[0]).Some? {
        SeedFromSnoc(cats, ns[1..], n, next);
      } else {
        SeedFromSnoc(cats + [Category(next, ns[0])], ns[1..], n, next + 1);
      }
    }
  }

  /** After seeding every one of the six names has a row; rows that were there,
      of any name, are kept as they were and in place; no other table changes. */
  lemma SeedEffect(t: Tables)
    ensures forall n :: n in SeedNames ==> HasCategoryNamed(Seed(t).categories, n)
    ensures |t.categories| <= |Seed(t).categories| && Seed(t).categories[..|t.categories|] == t.categories
    ensures Seed(t).posts == t.posts && Seed(t).comments == t.comments && Seed(t).votes == t.votes
  {
    SeedHasAll(t.categories, SeedNames, t.nextCategoryId);
    SeedFromAppends(t.categories, SeedNames, t.nextCategoryId);
  }

  /** Seeding a seeded database changes nothing. */
  lemma SeedTwice(t: Tables)
    ensures Seed(Seed(t)) == Seed(t)
  {
    SeedIdempotent(t.categories, SeedNames, t.nextCategoryId, Seed(t).nextCategoryId);
  }

  lemma {:induction false} SeedValid(t: Tables)
    requires TablesValid(t)
    ensures TablesValid(Seed(t))
  {
    var r := Seed(t);
    var cats, cats' := t.categories, r.categories;
    SeedFromAppends(cats, SeedNames, t.nextCategoryId);
    assert forall i :: 0 <= i < |cats| ==> cats'[i] == cats[i];
    SeedNamesDistinct();
    SeedKeepsNamesUnique(cats, SeedNames, t.nextCategoryId);
    forall i, j | 0 <= i < j < |cats'| ensures cats'[i].id != cats'[j].id {
      if j < |cats| {
        assert IdsFresh(cats, CategoryId, t.nextCategoryId);
        assert CategoryId(cats[i]) != CategoryId(cats[j]);
      } else if i < |cats| {
        assert CategoryId(cats[i]) < t.nextCategoryId;
      }
    }
    forall i | 0 <= i < |r.posts| ensures HasCategoryId(cats', r.posts[i].categoryId) {
      var j :| 0 <= j < |cats| && cats[j].id == t.posts[i].categoryId;
      assert cats'[j].id == t.posts[i].categoryId;
    }
  }

  // --- the database object ------------------------------------------------------------

  class Db {
    var categories: seq<Category>
    var posts: seq<Post>
    var comments: seq<Comment>
    var votes: seq<Vote>
    var nextCategoryId: nat
    var nextPostId: nat
    var nextCommentId: nat
    var nextVoteId: nat

    ghost function Snapshot(): Tables
      reads this
    {
      Tables(categories, posts, comments, votes, nextCategoryId, nextPostId, nextCommentId, nextVoteId)
    }

    ghost predicate Valid()
      reads this
    {
      TablesValid(Snapshot())
    }

    /** A freshly migrated, empty database. */
    constructor ()
      ensures Valid() && Snapshot() == Empty
    {
      categories, posts, comments, votes := [], [], [], [];
      nextCategoryId, nextPostId, nextCommentId, nextVoteId := 1, 1, 1, 1;
    }

    /** `Category.insert_categories`: append each missing seed name, in order. */
    method InsertCategories()
      requires Valid()
      modifies this
      ensures Valid()
      ensures Snapshot() == Seed(old(Snapshot()))
    {
      ghost var before := Snapshot();
      InsertNames(SeedNames);
      SeedValid(before);
    }

    /** The loop of `insert_categories` over a list of names; only the
        category table and its key counter change. */
    method InsertNames(names: seq<string>)
      modifies this`categories, this`nextCategoryId
      ensures (categories, nextCategoryId) == SeedFrom(old(categories), names, old(nextCategoryId))
    {
      ghost var cats0, next0 := categories, nextCategoryId;
      for i := 0 to |names|
        invariant (categories, nextCategoryId) == SeedFrom(cats0, names[..i], next0)
      {
        var name := names[i];
        assert names[..i + 1] == names[..i] + [name];
        SeedFromSnoc(cats0, names[..i], name, next0);
        var existing := CategoryByName(categories, name);
        if existing.None? {
          categories := categories + [Category(nextCategoryId, name)];
          nextCategoryId := nextCategoryId + 1;
        }
      }
      assert names[..|names|] == names;
    }
  }
}
