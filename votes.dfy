/** The voting engine: casting a vote, revoking it, listing a post's votes.
    Each handler runs as one atomic step over the database. */
module Votes {
  import opened Wrappers
  import opened Seqs
  import opened Models
  import opened Store

  /** `vote_action == "increment"` casts an INCREMENT; any other action a DECREMENT. */
  function ActionType(action: string): VoteType
  {
    if action == "increment" then Increment else Decrement
  }

  /** `update_post_votes`: the answer (the updated post row, which the handler
      renders with `to_json`) and the database afterwards. */
  function Cast(t: Tables, id: nat, voter: Header, action: string): (r: (Response<Post>, Tables))
    ensures r.0.Ok? || r.0.NotFound? || r.0.BadRequest?
    ensures r.0.NotFound? <==> !HasPost(t.posts, id)
    ensures !r.0.Ok? ==> r.1 == t
    ensures r.0.Ok? ==> |r.1.posts| == |t.posts| && |r.1.votes| == |t.votes| + 1
  {
    match PostIndex(t.posts, id)
    case None => (NotFound, t)
    case Some(k) =>
      if VoteBy(t.votes, id, voter).Some? then (BadRequest, t)
      else
        var vt := ActionType(action);
        var p := t.posts[k].(votes := t.posts[k].votes + Delta(vt));
        (Ok(p), t.(posts := t.posts[k := p],
                   votes := t.votes + [Vote(t.nextVoteId, id, voter, vt)],
                   nextVoteId := t.nextVoteId + 1))
  }

  /** `revoke_vote`: the answer and the database afterwards. */
  function Revoke(t: Tables, postId: nat, voteId: nat, user: Header): (r: (Response<string>, Tables))
    ensures r.0.Ok? || r.0.NotFound? || r.0.Forbidden?
    ensures !HasPost(t.posts, postId) ==> r.0.NotFound?
    ensures !r.0.Ok? ==> r.1 == t
    ensures r.0.Ok? ==> |r.1.posts| == |t.posts| && |r.1.votes| + 1 == |t.votes|
  {
    match PostIndex(t.posts, postId)
    case None => (NotFound, t)
    case Some(k) =>
      match VoteIndex(t.votes, postId, voteId)
      case None => (NotFound, t)
      case Some(j) =>
        if t.votes[j].voter != user then (Forbidden, t)
        else
          var p := t.posts[k].(votes := t.posts[k].votes - Delta(t.votes[j].voteType));
          (Ok("Deleted"), t.(posts := t.posts[k := p], votes := RemoveAt(t.votes, j)))
  }

  /** `get_post_votes`: a read-only query. */
  function GetPostVotes(t: Tables, id: nat): (r: Response<seq<Vote>>)
    ensures r.Ok? || r.NotFound?
    ensures r.NotFound? <==> !HasPost(t.posts, id)
    ensures r.Ok? ==> forall v :: v in r.value <==> v in t.votes && v.postId == id
  {
    if PostIndex(t.posts, id).None? then NotFound else Ok(VotesOf(t.votes, id))
  }

  // --- casting ----------------------------------------------------------------------

  /** With unique keys, the lookup by id finds the one row with that id. */
  lemma PostIndexOf(posts: seq<Post>, next: nat, k: nat)
    requires IdsFresh(posts, PostId, next) && k < |posts|
    ensures PostIndex(posts, posts[k].id) == Some(k)
  {
    var r := PostIndex(posts, posts[k].id);
  }

  /** Casting on a missing post answers NotFound and changes nothing. */
  lemma CastMissingPost(t: Tables, id: nat, voter: Header, action: string)
    requires !HasPost(t.posts, id)
    ensures Cast(t, id, voter, action) == (NotFound, t)
  {
  }

  /** A voter who already has a row for the post gets BadRequest and nothing changes. */
  lemma CastAlreadyVoted(t: Tables, id: nat, voter: Header, action: string, j: nat)
    requires HasPost(t.posts, id)
    requires j < |t.votes| && t.votes[j].postId == id && t.votes[j].voter == voter
    ensures Cast(t, id, voter, action) == (BadRequest, t)
  {
  }

  /** A successful cast moves the post's counter by exactly +1 for "increment"
      and -1 for anything else (with no floor at zero), appends exactly one
      ledger row for (post, voter), and leaves every other post as it was. */
  lemma CastApplies(t: Tables, k: nat, voter: Header, action: string)
    requires IdsFresh(t.posts, PostId, t.nextPostId) && k < |t.posts|
    requires forall i :: 0 <= i < |t.votes| ==> !(t.votes[i].postId == t.posts[k].id && t.votes[i].voter == voter)
    ensures var (r, t') := Cast(t, t.posts[k].id, voter, action);
      && r.Ok? && r.value == t'.posts[k]
      && |t'.posts| == |t.posts|
      && t'.posts[k] == t.posts[k].(votes := t.posts[k].votes + (if action == "increment" then 1 else -1))
      && (forall i :: 0 <= i < |t.posts| && i != k ==> t'.posts[i] == t.posts[i])
      && t'.votes == t.votes + [Vote(t.nextVoteId, t.posts[k].id, voter,
                                     if action == "increment" then Increment else Decrement)]
      && t'.categories == t.categories && t'.comments == t.comments
      && t'.nextVoteId == t.nextVoteId + 1 && t'.nextPostId == t.nextPostId
  {
    PostIndexOf(t.posts, t.nextPostId, k);
  }

  /** The writes of a successful cast: post `k` becomes `p`, row `v` is appended. */
  function CastWrite(t: Tables, k: nat, p: Post, v: Vote): Tables
    requires k < |t.posts|
  {
    t.(posts := t.posts[k := p], votes := t.votes + [v], nextVoteId := t.nextVoteId + 1)
  }

  /** A cast on an existing post by a voter without a row there performs the
      writes `CastWrite` names. */
  lemma CastWrites(t: Tables, k: nat, voter: Header, action: string)
    requires IdsFresh(t.posts, PostId, t.nextPostId) && k < |t.posts|
    requires VoteBy(t.votes, t.posts[k].id, voter).None?
    ensures var vt := ActionType(action);
      var p := t.posts[k].(votes := t.posts[k].votes + Delta(vt));
      Cast(t, t.posts[k].id, voter, action)
        == (Ok(p), CastWrite(t, k, p, Vote(t.nextVoteId, t.posts[k].id, voter, vt)))
  {
    PostIndexOf(t.posts, t.nextPostId, k);
  }

  lemma CastKeepsKeys(t: Tables, k: nat, p: Post, v: Vote)
    requires KeysValid(t) && k < |t.posts| && p.id == t.posts[k].id && v.id == t.nextVoteId
    ensures KeysValid(CastWrite(t, k, p, v))
  {
    IdsFreshUpdate(t.posts, PostId, t.nextPostId, k, p);
    IdsFreshAppend(t.votes, VoteId, t.nextVoteId, v);
  }

  lemma CastKeepsRefs(t: Tables, k: nat, p: Post, v: Vote)
    requires RefsValid(t) && k < |t.posts|
    requires p.id == t.posts[k].id && p.categoryId == t.posts[k].categoryId
    requires HasPost(t.posts, v.postId)
    ensures RefsValid(CastWrite(t, k, p, v))
  {
    var t' := CastWrite(t, k, p, v);
    assert forall i :: 0 <= i < |t.votes| ==> t'.votes[i] == t.votes[i];
    RefsKept(t, t');
  }

  lemma CastKeepsLedger(t: Tables, k: nat, p: Post, v: Vote)
    requires LedgerValid(t) && IdsFresh(t.posts, PostId, t.nextPostId) && k < |t.posts|
    requires v.postId == t.posts[k].id && p == t.posts[k].(votes := t.posts[k].votes + Delta(v.voteType))
    requires forall i :: 0 <= i < |t.votes| ==> !(t.votes[i].postId == v.postId && t.votes[i].voter == v.voter)
    ensures LedgerValid(CastWrite(t, k, p, v))
  {
    var posts, votes := t.posts, t.votes;
    var posts' := posts[k := p];
    forall i | 0 <= i < |posts'| ensures posts'[i].votes == Tally(votes + [v], posts'[i].id) {
      TallyAppend(votes, v, posts[i].id);
      if i != k {
        assert PostId(posts[i]) != PostId(posts[k]);
      }
    }
  }

  /** Casting keeps every invariant of the database, in particular that each
      post's counter equals #INCREMENT rows - #DECREMENT rows for it. */
  lemma {:induction false} CastValid(t: Tables, id: nat, voter: Header, action: string)
    requires TablesValid(t)
    ensures TablesValid(Cast(t, id, voter, action).1)
  {
    if PostIndex(t.posts, id).Some? && VoteBy(t.votes, id, voter).None? {
      var k := PostIndex(t.posts, id).value;
      var vt := ActionType(action);
      var p := t.posts[k].(votes := t.posts[k].votes + Delta(vt));
      var v := Vote(t.nextVoteId, id, voter, vt);
      assert Cast(t, id, voter, action).1 == CastWrite(t, k, p, v);
      CastKeepsKeys(t, k, p, v);
      CastKeepsRefs(t, k, p, v);
      CastKeepsLedger(t, k, p, v);
    }
  }

  /** A second cast by the same voter on the same post is always refused. */
  lemma CastTwiceRefused(t: Tables, id: nat, voter: Header, action: string, action2: string)
    requires Cast(t, id, voter, action).0.Ok?
    ensures var t' := Cast(t, id, voter, action).1;
      Cast(t', id, voter, action2) == (BadRequest, t')
  {
    var k := PostIndex(t.posts, id).value;
    var t' := Cast(t, id, voter, action).1;
    HasPostUpdate(t.posts, k, t'.posts[k], id);
    assert t'.votes[|t.votes|].postId == id && t'.votes[|t.votes|].voter == voter;
  }

  // --- revoking ---------------------------------------------------------------------

  /** The checks come in this order: the post must exist (NotFound), a vote with
      that id must exist for that post (NotFound), and it must be the requester's
      (Forbidden). Each failure leaves the database as it was. */
  lemma RevokeChecks(t: Tables, postId: nat, voteId: nat, user: Header)
    ensures var (r, t') := Revoke(t, postId, voteId, user);
      && (!HasPost(t.posts, postId) ==> r == NotFound)
      && (HasPost(t.posts, postId)
          && (forall i :: 0 <= i < |t.votes| ==> !(t.votes[i].postId == postId && t.votes[i].id == voteId))
          ==> r == NotFound)
      && (HasPost(t.posts, postId) && IdsFresh(t.votes, VoteId, t.nextVoteId)
          ==> forall i :: (0 <= i < |t.votes| && t.votes[i].postId == postId && t.votes[i].id == voteId
                           && t.votes[i].voter != user) ==> r == Forbidden)
      && (!r.Ok? ==> t' == t)
  {
    if HasPost(t.posts, postId) && IdsFresh(t.votes, VoteId, t.nextVoteId) {
      forall i | 0 <= i < |t.votes| && t.votes[i].postId == postId && t.votes[i].id == voteId
        && t.votes[i].voter != user
        ensures Revoke(t, postId, voteId, user).0 == Forbidden
      {
        var j := VoteIndex(t.votes, postId, voteId).value;
      }
    }
  }

  /** A successful revoke applies the opposite delta of the stored vote's type to
      its post and removes exactly that ledger row; nothing else changes. */
  lemma RevokeApplies(t: Tables, k: nat, j: nat, user: Header)
    requires IdsFresh(t.posts, PostId, t.nextPostId) && IdsFresh(t.votes, VoteId, t.nextVoteId)
    requires k < |t.posts| && j < |t.votes|
    requires t.votes[j].postId == t.posts[k].id && t.votes[j].voter == user
    ensures var (r, t') := Revoke(t, t.posts[k].id, t.votes[j].id, user);
      && r == Ok("Deleted")
      && t'.posts == t.posts[k := t.posts[k].(votes := t.posts[k].votes
                                                       - (if t.votes[j].voteType == Increment then 1 else -1))]
      && t'.votes == RemoveAt(t.votes, j)
      && t'.categories == t.categories && t'.comments == t.comments
      && t'.nextVoteId == t.nextVoteId
  {
    PostIndexOf(t.posts, t.nextPostId, k);
    var i := VoteIndex(t.votes, t.votes[j].postId, t.votes[j].id).value;
  }

  /** A revoke by the owner of an existing row performs the writes
      `RevokeWrite` names. */
  lemma RevokeWrites(t: Tables, k: nat, j: nat, user: Header)
    requires IdsFresh(t.posts, PostId, t.nextPostId) && IdsFresh(t.votes, VoteId, t.nextVoteId)
    requires k < |t.posts| && j < |t.votes|
    requires t.votes[j].postId == t.posts[k].id && t.votes[j].voter == user
    ensures var p := t.posts[k].(votes := t.posts[k].votes - Delta(t.votes[j].voteType));
      Revoke(t, t.posts[k].id, t.votes[j].id, user) == (Ok("Deleted"), RevokeWrite(t, k, p, j))
  {
    PostIndexOf(t.posts, t.nextPostId, k);
    var i := VoteIndex(t.votes, t.votes[j].postId, t.votes[j].id).value;
    assert VoteId(t.votes[i]) == VoteId(t.votes[j]);
    assert i == j;
  }

  /** Deleting a ledger row keeps one row per (post, voter). */
  lemma OneVotePerVoterRemove(votes: seq<Vote>, j: nat)
    requires OneVotePerVoter(votes) && j < |votes|
    ensures OneVotePerVoter(RemoveAt(votes, j))
  {
    var votes' := RemoveAt(votes, j);
    forall a, b | 0 <= a < b < |votes'|
      ensures !(votes'[a].postId == votes'[b].postId && votes'[a].voter == votes'[b].voter)
    {
      var a', b' := if a < j then a else a + 1, if b < j then b else b + 1;
      assert votes'[a] == votes[a'] && votes'[b] == votes[b'] && a' < b';
    }
  }

  /** The writes of a successful revoke: post `k` becomes `p`, row `j` is deleted. */
  function RevokeWrite(t: Tables, k: nat, p: Post, j: nat): Tables
    requires k < |t.posts| && j < |t.votes|
  {
    t.(posts := t.posts[k := p], votes := RemoveAt(t.votes, j))
  }

  lemma RevokeKeepsKeys(t: Tables, k: nat, p: Post, j: nat)
    requires KeysValid(t) && k < |t.posts| && j < |t.votes| && p.id == t.posts[k].id
    ensures KeysValid(RevokeWrite(t, k, p, j))
  {
    IdsFreshUpdate(t.posts, PostId, t.nextPostId, k, p);
    IdsFreshRemove(t.votes, VoteId, t.nextVoteId, j);
  }

  lemma RevokeKeepsRefs(t: Tables, k: nat, p: Post, j: nat)
    requires RefsValid(t) && k < |t.posts| && j < |t.votes|
    requires p.id == t.posts[k].id && p.categoryId == t.posts[k].categoryId
    ensures RefsValid(RevokeWrite(t, k, p, j))
  {
    var t' := RevokeWrite(t, k, p, j);
    assert forall i :: 0 <= i < |t'.votes| ==> t'.votes[i] == t.votes[if i < j then i else i + 1];
    RefsKept(t, t');
  }

  /** Undoing row `j`'s delta on its post `k` and deleting the row keeps the counters. */
  lemma RevokeKeepsLedger(t: Tables, k: nat, p: Post, j: nat)
    requires LedgerValid(t) && IdsFresh(t.posts, PostId, t.nextPostId)
    requires k < |t.posts| && j < |t.votes| && t.votes[j].postId == t.posts[k].id
    requires p == t.posts[k].(votes := t.posts[k].votes - Delta(t.votes[j].voteType))
    ensures LedgerValid(RevokeWrite(t, k, p, j))
  {
    var posts, votes := t.posts, t.votes;
    OneVotePerVoterRemove(votes, j);
    var posts' := posts[k := p];
    forall i | 0 <= i < |posts'| ensures posts'[i].votes == Tally(RemoveAt(votes, j), posts'[i].id) {
      TallyRemove(votes, j, posts[i].id);
      if i != k {
        assert PostId(posts[i]) != PostId(posts[k]);
      }
    }
  }

  /** Revoking keeps every invariant of the database. */
  lemma {:induction false} RevokeValid(t: Tables, postId: nat, voteId: nat, user: Header)
    requires TablesValid(t)
    ensures TablesValid(Revoke(t, postId, voteId, user).1)
  {
    if Revoke(t, postId, voteId, user).0.Ok? {
      var k := PostIndex(t.posts, postId).value;
      var j := VoteIndex(t.votes, postId, voteId).value;
      var p := t.posts[k].(votes := t.posts[k].votes - Delta(t.votes[j].voteType));
      assert Revoke(t, postId, voteId, user).1 == RevokeWrite(t, k, p, j);
      RevokeKeepsKeys(t, k, p, j);
      RevokeKeepsRefs(t, k, p, j);
      RevokeKeepsLedger(t, k, p, j);
    }
  }

  /** A cast followed by the same voter's revoke of the row it created restores
      the posts and the ledger; only the consumed vote id stays used. */
  lemma {:induction false} CastThenRevoke(t: Tables, id: nat, voter: Header, action: string)
    requires IdsFresh(t.posts, PostId, t.nextPostId) && IdsFresh(t.votes, VoteId, t.nextVoteId)
    requires Cast(t, id, voter, action).0.Ok?
    ensures Revoke(Cast(t, id, voter, action).1, id, t.nextVoteId, voter)
         == (Ok("Deleted"), t.(nextVoteId := t.nextVoteId + 1))
  {
    var k := PostIndex(t.posts, id).value;
    var vt := ActionType(action);
    var p := t.posts[k].(votes := t.posts[k].votes + Delta(vt));
    var v := Vote(t.nextVoteId, id, voter, vt);
    var t1 := CastWrite(t, k, p, v);
    assert Cast(t, id, voter, action).1 == t1 by {
      CastWrites(t, k, voter, action);
    }
    var n := |t.votes|;
    assert Revoke(t1, id, t.nextVoteId, voter)
        == (Ok("Deleted"), RevokeWrite(t1, k, p.(votes := t.posts[k].votes), n)) by {
      IdsFreshUpdate(t.posts, PostId, t.nextPostId, k, p);
      IdsFreshAppend(t.votes, VoteId, t.nextVoteId, v);
      assert t1.votes[n] == v && t1.posts[k] == p;
      RevokeWrites(t1, k, n, voter);
    }
    WritesCancel(t, k, p, v);
  }

  /** Deleting the row a cast appended and restoring the post's counter gives
      back the database before the cast, with the vote id consumed. */
  lemma WritesCancel(t: Tables, k: nat, p: Post, v: Vote)
    requires k < |t.posts| && p == t.posts[k].(votes := p.votes)
    ensures var t1 := CastWrite(t, k, p, v);
      RevokeWrite(t1, k, p.(votes := t.posts[k].votes), |t.votes|) == t.(nextVoteId := t.nextVoteId + 1)
  {
    var t1 := CastWrite(t, k, p, v);
    assert RemoveAt(t1.votes, |t.votes|) == t.votes;
    assert t1.posts[k := p.(votes := t.posts[k].votes)] == t.posts;
  }

  /** One request of the voting engine. */
  datatype VoteRequest =
    | CastRequest(id: nat, voter: Header, action: string)
    | RevokeRequest(postId: nat, voteId: nat, user: Header)

  function Apply(t: Tables, q: VoteRequest): Tables
  {
    match q
    case CastRequest(id, voter, action) => Cast(t, id, voter, action).1
    case RevokeRequest(postId, voteId, user) => Revoke(t, postId, voteId, user).1
  }

  /** The database after serving the requests in order. */
  function Run(t: Tables, qs: seq<VoteRequest>): Tables
    decreases |qs|
  {
    if |qs| == 0 then t else Run(Apply(t, qs[0]), qs[1..])
  }

  /** After any sequence of casts and revokes, every post's counter is still
      #INCREMENT rows - #DECREMENT rows for it, and every other invariant holds. */
  lemma {:induction false} RunValid(t: Tables, qs: seq<VoteRequest>)
    requires TablesValid(t)
    ensures TablesValid(Run(t, qs))
    ensures forall i :: 0 <= i < |Run(t, qs).posts| ==>
      Run(t, qs).posts[i].votes == Tally(Run(t, qs).votes, Run(t, qs).posts[i].id)
    decreases |qs|
  {
    if |qs| > 0 {
      match qs[0] {
        case CastRequest(id, voter, action) => CastValid(t, id, voter, action);
        case RevokeRequest(postId, voteId, user) => RevokeValid(t, postId, voteId, user);
      }
      RunValid(Apply(t, qs[0]), qs[1..]);
    }
  }

  /** "alice" casts an increment on a post with no votes: the counter is 1
      and there is one row for her; her second cast is refused and changes nothing. */
  lemma ScenarioFirstCast(t: Tables, k: nat)
    requires IdsFresh(t.posts, PostId, t.nextPostId) && IdsFresh(t.votes, VoteId, t.nextVoteId)
    requires k < |t.posts| && t.posts[k].votes == 0
    requires forall i :: 0 <= i < |t.votes| ==> t.votes[i].postId != t.posts[k].id
    ensures var t1 := Cast(t, t.posts[k].id, Some("alice"), "increment").1;
      && t1.posts[k].votes == 1 && t1.votes == t.votes + [Vote(t.nextVoteId, t.posts[k].id, Some("alice"), Increment)]
      && Cast(t1, t.posts[k].id, Some("alice"), "increment") == (BadRequest, t1)
  {
    var id, alice := t.posts[k].id, Some("alice");
    CastApplies(t, k, alice, "increment");
    var t1 := Cast(t, id, alice, "increment").1;
    assert t1.posts[k].id == id;
    CastAlreadyVoted(t1, id, alice, "increment", |t.votes|);
  }

  /** Then "alice" revokes her row: the posts and the ledger are as they were
      before her cast, and only her row's vote id stays used. */
  lemma ScenarioRevoke(t: Tables, k: nat)
    requires IdsFresh(t.posts, PostId, t.nextPostId) && IdsFresh(t.votes, VoteId, t.nextVoteId)
    requires k < |t.posts| && t.posts[k].votes == 0
    requires forall i :: 0 <= i < |t.votes| ==> t.votes[i].postId != t.posts[k].id
    ensures var id := t.posts[k].id;
      Revoke(Cast(t, id, Some("alice"), "increment").1, id, t.nextVoteId, Some("alice"))
        == (Ok("Deleted"), t.(nextVoteId := t.nextVoteId + 1))
  {
    var id, alice := t.posts[k].id, Some("alice");
    PostIndexOf(t.posts, t.nextPostId, k);
    assert VoteBy(t.votes, id, alice).None?;
    CastThenRevoke(t, id, alice, "increment");
  }

  /** After that, "bob" casts a decrement: the counter goes to -1, with no
      clamp at zero, and his row takes the next vote id. */
  lemma ScenarioDecrementAfterRevoke(t: Tables, k: nat)
    requires IdsFresh(t.posts, PostId, t.nextPostId)
    requires k < |t.posts| && t.posts[k].votes == 0
    requires forall i :: 0 <= i < |t.votes| ==> t.votes[i].postId != t.posts[k].id
    ensures var id := t.posts[k].id;
      var p := t.posts[k].(votes := -1);
      Cast(t.(nextVoteId := t.nextVoteId + 1), id, Some("bob"), "decrement")
        == (Ok(p), t.(posts := t.posts[k := p],
                      votes := t.votes + [Vote(t.nextVoteId + 1, id, Some("bob"), Decrement)],
                      nextVoteId := t.nextVoteId + 2))
  {
    var id, bob := t.posts[k].id, Some("bob");
    var t2 := t.(nextVoteId := t.nextVoteId + 1);
    assert VoteBy(t2.votes, id, bob).None?;
    CastWrites(t2, k, bob, "decrement");
    assert "decrement"[0] != "increment"[0];
  }

  // --- the handlers ------------------------------------------------------------------

  /** PUT /posts/{id}/votes. */
  method UpdatePostVotes(db: Db, id: nat, voter: Header, action: string) returns (r: Response<Post>)
    requires db.Valid()
    modifies db
    ensures db.Valid()
    ensures (r, db.Snapshot()) == Cast(old(db.Snapshot()), id, voter, action)
  {
    ghost var before := db.Snapshot();
    r := CastVote(db, id, voter, action);
    CastValid(before, id, voter, action);
  }

  /** The body of `update_post_votes`: its lookups and its writes. */
  method CastVote(db: Db, id: nat, voter: Header, action: string) returns (r: Response<Post>)
    modifies db
    ensures (r, db.Snapshot()) == Cast(old(db.Snapshot()), id, voter, action)
  {
    var found := PostIndex(db.posts, id);
    if found.None? {
      return NotFound;
    }
    var k := found.value;
    var existing := VoteBy(db.votes, id, voter);
    if existing.Some? {
      return BadRequest;
    }
    var post := db.posts[k];
    var voteType: VoteType;
    if action == "increment" {
      post := post.(votes := post.votes + 1);
      voteType := Increment;
    } else {
      post := post.(votes := post.votes - 1);
      voteType := Decrement;
    }
    db.posts := db.posts[k := post];
    db.votes := db.votes + [Vote(db.nextVoteId, id, voter, voteType)];
    db.nextVoteId := db.nextVoteId + 1;
    r := Ok(post);
  }

  /** DELETE /posts/{postId}/votes/{voteId}. */
  method RevokeVote(db: Db, postId: nat, voteId: nat, user: Header) returns (r: Response<string>)
    requires db.Valid()
    modifies db
    ensures db.Valid()
    ensures (r, db.Snapshot()) == Revoke(old(db.Snapshot()), postId, voteId, user)
  {
    ghost var before := db.Snapshot();
    r := DeleteVote(db, postId, voteId, user);
    RevokeValid(before, postId, voteId, user);
  }

  /** The body of `revoke_vote`: its lookups, its ownership check and its writes. */
  method DeleteVote(db: Db, postId: nat, voteId: nat, user: Header) returns (r: Response<string>)
    modifies db
    ensures (r, db.Snapshot()) == Revoke(old(db.Snapshot()), postId, voteId, user)
  {
    var found := PostIndex(db.posts, postId);
    if found.None? {
      return NotFound;
    }
    var k := found.value;
    var vote := VoteIndex(db.votes, postId, voteId);
    if vote.None? {
      return NotFound;
    }
    var j := vote.value;
    if db.votes[j].voter != user {
      return Forbidden;
    }
    var post := db.posts[k];
    if db.votes[j].voteType == Increment {
      post := post.(votes := post.votes - 1);
    } else {
      post := post.(votes := post.votes + 1);
    }
    db.posts := db.posts[k := post];
    db.votes := RemoveAt(db.votes, j);
    r := Ok("Deleted");
  }
}
