# hanggiamgia deals backend, modelled in Dafny

This project models the request-level core of the hanggiamgia deals backend,
a Flask application where users post deals and coupons, comment on them and
vote them up or down. What is modelled:

- **The database.** It is a value `Store.Tables` holding four tables: categories, posts, comments and the vote ledger. Each table is a sequence of rows with unique ids, and each id is below the next id that table's autoincrement key hands out. `Store.Db` is the mutable object the handlers change. Its `Valid()` predicate is the database invariant (`Store.TablesValid`):
  - keys are unique, and category names are unique;
  - every post names an existing category;
  - every comment and every vote names an existing post;
  - at most one ledger row exists per (post, voter);
  - every post's `votes` counter equals the number of its INCREMENT rows minus the number of its DECREMENT rows.
- **The voting engine.** `update_post_votes`, `revoke_vote` and `get_post_votes` are modelled (module `Votes`). Each state-changing handler is a method on `Db`. The method is proved equal to a pure function on `Tables`: `Votes.Cast` or `Votes.Revoke`. The lemmas are proved about those functions. `Votes.RunValid` proves that the counter invariant survives any sequence of casts and revokes.
- **The comment handlers.** The oldest-first paginated listing, adding a comment and editing a comment are modelled (module `Comments`).
- **The post handlers.**
  - The newest-first paginated listing, fetching one post, creating a post and editing a post are modelled (module `Posts`).
  - Editing a post, as written, can never succeed. `request.json.get("text", post.text)` evaluates `post.text` first, and a post has no `text` attribute. So the owner's edit raises and answers with a server error (`Posts.EditOutcome`), and nothing is written.
- **The models.** `Category.insert_categories` is a loop on `Db` (module `Store`); its specification is the function `Models.SeedFrom`, whose properties are lemmas. `Post.from_json`, `Comment.from_json` and both `to_json` projections are functions (module `Models`).
- **The JSON Schema documents.** The post and comment schemas are modelled as predicates over a JSON value (module `Validations`). They follow the draft-07 Validation vocabulary: `type` in section 6.1.1, `enum` in 6.1.2, `pattern` in 6.3.3, `required` in 6.5.3 and `properties` in 6.5.4. `format` is an annotation and is not asserted.
- **Pagination.**
  - The models rely on Flask-SQLAlchemy 2.x `paginate(page, per_page, error_out=False)`. That code is not part of this model, so its behaviour is assumed (module `Pagination`):
    - a page below 1 reads as 1;
    - the items are the page's slice of the ordered rows;
    - `total` counts all rows;
    - `has_prev` is `page > 1`;
    - `has_next` is `page < ceil(total / per_page)`.
  - `ORDER BY` is a stable sort on an integer key.
  - Links are modelled as the page number they name: the requested page minus or plus one.
- **`mask_email`.** It is modelled with Python's `split` and slice semantics written out (module `Utils`). This includes the negative start `len(address) - m` of an empty local part.
- **The access-token cache.** `get_access_token` is the class `Auth.TokenCache`, which has a one-token slot. The token request, the `exp` claim and the clock are parameters.

Modelling conventions:
- Request headers and query arguments are `Option<string>`. Python's truth test (`if not author`, `if category`, `if access_token`) rejects both an absent and an empty string (`Wrappers.Truthy`).
- Responses are `Ok`, `BadRequest`, `Forbidden`, `NotFound` or `InternalError`. `InternalError` stands for an exception the handler does not catch (HTTP 500).
- Times are integers. In the handlers `now` is the creation time that `datetime.utcnow` would give; in the token cache it is `time.time()` rounded up to whole seconds.
- The per-page sizes (`POSTS_PER_PAGE`, `COMMENTS_PER_PAGE`) and the page argument are parameters.

Where the model follows a choice of the code that a reader might not expect:
- Comments are listed oldest first (app/api/comments.py:17), posts newest first (app/api/posts.py:16).
- Editing a post by its owner fails, as explained above.
- A duplicate vote answers BadRequest (app/api/votes.py:26).

## Model

| member | source | states |
|---|---|---|
| `Models.PostFromJson` | app/models.py:86-98 | succeeds exactly when some category row carries the payload's `category` name; copies start_date, end_date, title, description, url and coupon_code from the payload and takes that row's id as the category id |
| `Models.PostToJson` | app/models.py:71-84 | the projection exposes the post's link id, coupon code, url as product_url, dates, creation time, title, description and author, the name of the post's category row, and as comment_count the number of comments attached to the post |
| `Models.CommentFromJson` | app/models.py:49-52 | the unsaved comment carries only the payload's `text` member, absent when the payload has none |
| `Models.CommentToJson` | app/models.py:42-47 | the rendering carries exactly the row's author, creation time and text |
| `Models.CommentsOf` | app/models.py:69 | a comment is attached to a post exactly when it is in the table and names that post |
| `Models.SeedFrom` | app/models.py:25-29 | the loop never removes a row and adds at most one row per listed name, and the next id advances by exactly the number of rows it adds |
| `Models.SeedFromAppends` | app/models.py:25-29 | the loop keeps the existing rows as they were and in place, and appends with consecutive fresh ids only listed names that had no row |
| `Models.SeedNamesDistinct` | app/models.py:17-24 | the six seed names are pairwise distinct |
| `Models.SeedHasAll` | app/models.py:17-30 | after the loop every listed name has a row |
| `Models.SeedNoop` | app/models.py:26-27 | when every listed name already has a row the loop changes nothing |
| `Models.SeedIdempotent` | app/models.py:26-29 | looping a second time over the table the first loop left adds nothing |
| `Models.SeedKeepsNamesUnique` | app/models.py:26-29 | the loop never adds a second row for a name |
| `Store.Db.InsertCategories` | app/models.py:16-30 | the database afterwards is the seeded one, with the database invariant kept |
| `Store.Db.InsertNames` | app/models.py:25-29 | the loop over the names leaves exactly the categories and next id that `SeedFrom` describes and changes no other table |
| `Store.SeedFromSnoc` | app/models.py:25-29 | one more iteration of the loop appends the name with the next id exactly when the table so far has no row of that name |
| `Store.Seed` | app/models.py:16-30 | seeding changes only the categories and their next id, adds at most six rows and advances the next id by the number added |
| `Store.Db.constructor` | migrations/versions/f3005bd87c37_initial_migration.py:21-50 | the freshly migrated database is empty and valid |
| `Store.EmptyValid` | migrations/versions/f3005bd87c37_initial_migration.py:21-50 | the empty database satisfies every invariant |
| `Store.SeedEffect` | app/models.py:17-30 | after seeding the six names have rows, earlier rows of any name are kept in place, and posts, comments and votes are unchanged |
| `Store.SeedTwice` | app/models.py:26-29 | seeding twice equals seeding once |
| `Store.SeedValid` | app/models.py:25-30 | seeding keeps the database invariant, in particular unique category names and ids |
| `Store.PostIndex` | app/api/votes.py:21 | the post lookup by id finds a row with that id, and finds none exactly when no post has it |
| `Store.VoteBy` | app/api/votes.py:24 | the lookup of (post, voter) finds a matching ledger row, and finds none exactly when there is none |
| `Store.VoteIndex` | app/api/votes.py:71 | the lookup of (post, vote id) finds a matching ledger row, and finds none exactly when there is none |
| `Store.CommentIndex` | app/api/comments.py:64 | the comment lookup by id finds a row with that id, and finds none exactly when there is none |
| `Store.VotesOf` | app/api/votes.py:57 | the filter keeps exactly the ledger rows of the post |
| `Store.TallyAppend` | app/api/votes.py:36-43 | appending a ledger row moves its post's INCREMENT-minus-DECREMENT tally by +1 or -1 and no other post's |
| `Store.TallyRemove` | app/api/votes.py:76-81 | deleting a ledger row moves its post's tally back by that row's delta and no other post's |
| `Store.TallyUnreferenced` | app/api/votes.py:57 | a post without ledger rows has tally zero |
| `Votes.Cast` | app/api/votes.py:21-43 | a cast answers the post, NotFound (exactly when the post is missing) or BadRequest; a refused cast writes nothing, and a successful one keeps the number of posts and adds one ledger row |
| `Votes.Revoke` | app/api/votes.py:68-83 | a revoke answers Ok, NotFound (always for a missing post) or Forbidden; a refused revoke writes nothing, and a successful one keeps the number of posts and removes one ledger row |
| `Votes.CastMissingPost` | app/api/votes.py:21-23 | casting on a missing post answers NotFound and changes nothing |
| `Votes.CastAlreadyVoted` | app/api/votes.py:24-26 | a voter who has a row for the post is answered BadRequest and nothing changes |
| `Votes.CastApplies` | app/api/votes.py:28-43 | a successful cast raises the counter by 1 for "increment" and lowers it by 1 for any other action, without a floor, appends exactly one row of that type for (post, voter), and leaves every other post and table unchanged |
| `Votes.CastWrites` | app/api/votes.py:28-43 | a cast on an existing post by a voter without a row there answers the updated post and performs exactly the counter update and the row append |
| `Votes.CastValid` | app/api/votes.py:28-43 | a cast keeps every invariant, in particular counter = #INCREMENT rows - #DECREMENT rows for every post |
| `Votes.CastTwiceRefused` | app/api/votes.py:24-43 | after a successful cast the same voter's next cast on that post is refused with nothing changed |
| `Votes.GetPostVotes` | app/api/votes.py:52-60 | the listing answers NotFound exactly for a missing post and otherwise exactly the ledger rows of that post, without changing anything |
| `Votes.RevokeChecks` | app/api/votes.py:68-75 | the checks come in order (missing post NotFound, no vote with that id for that post NotFound, another voter's row Forbidden), and each failure changes nothing |
| `Votes.RevokeApplies` | app/api/votes.py:76-83 | a successful revoke applies the opposite of the stored row's delta to its post and deletes exactly that row |
| `Votes.RevokeWrites` | app/api/votes.py:76-83 | the owner's revoke of an existing row of an existing post answers "Deleted" and performs exactly the counter update and the row deletion |
| `Votes.RevokeValid` | app/api/votes.py:76-83 | a revoke keeps every invariant |
| `Votes.CastThenRevoke` | app/api/votes.py:28-83 | a cast followed by the same voter's revoke of the new row restores posts and ledger; only the consumed vote id stays used |
| `Votes.WritesCancel` | app/api/votes.py:36-43 | deleting the row a cast appended and restoring the post's counter gives back the database before the cast, with the vote id consumed |
| `Votes.RunValid` | app/api/votes.py:12-87 | after any sequence of casts and revokes every post's counter equals its tally and every invariant holds |
| `Votes.ScenarioFirstCast` | app/api/votes.py:21-43 | on a post without votes, "alice"'s increment gives counter 1 and one row, and her second cast is refused |
| `Votes.ScenarioRevoke` | app/api/votes.py:64-83 | "alice"'s revoke of her row gives back the posts and the ledger as they were before her cast |
| `Votes.ScenarioDecrementAfterRevoke` | app/api/votes.py:28-43 | "bob"'s decrement then takes the counter to -1 and appends his row with the next vote id |
| `Votes.UpdatePostVotes` | app/api/votes.py:12-48 | the handler's answer and database afterwards are those of `Cast`, and the invariant is kept |
| `Votes.CastVote` | app/api/votes.py:21-43 | the lookups and the writes produce exactly the answer and database of `Cast` |
| `Votes.RevokeVote` | app/api/votes.py:64-87 | the handler's answer and database afterwards are those of `Revoke`, and the invariant is kept |
| `Votes.DeleteVote` | app/api/votes.py:68-83 | the lookups, the ownership check and the writes produce exactly the answer and database of `Revoke` |
| `Comments.OrderedComments` | app/api/comments.py:16-17 | the post's comments, rearranged into ascending creation time |
| `Comments.CommentPage` | app/api/comments.py:22-33 | the body counts all the rows it pages over and carries `prev` exactly for a requested page above 1 |
| `Comments.ListComments` | app/api/comments.py:12-33 | the listing answers NotFound exactly when the post is missing |
| `Comments.ListOldestFirst` | app/api/comments.py:16-22 | a listed page is in ascending creation-time order |
| `Comments.ListCount` | app/api/comments.py:32 | `count` is the number of the post's comments, not the page size, and a page holds at most per_page comments |
| `Comments.ListLinks` | app/api/comments.py:23-27 | `prev` exists exactly for a requested page above 1 and names page-1; `next` exists exactly when comments remain after the page that is read (page 1 for a request below 1) and names the requested page plus one |
| `Comments.ListCoversAll` | app/api/comments.py:16-22 | every comment of the post is rendered on some page |
| `Comments.ListedAreOwn` | app/api/comments.py:16-29 | every rendered entry is the `to_json` of a comment of that post |
| `Comments.ListCountIsCommentCount` | app/models.py:82 | the listing's count equals the post's `comment_count` |
| `Comments.CommentsOfAppend` | app/api/comments.py:50-52 | attaching a new comment to a post adds exactly it to that post's comments |
| `Comments.NewComment` | app/api/comments.py:37-57 | a creation answers Ok, BadRequest or NotFound; a refusal writes nothing, a success is for an existing post and adds exactly one comment row, and posts, votes and categories never change |
| `Comments.NewCommentRefused` | app/api/comments.py:39-48 | an invalid body answers BadRequest, then a missing post NotFound, then a missing or empty username header BadRequest; the comment is added exactly when all three pass, and a refusal adds nothing |
| `Comments.NewCommentApplies` | app/api/comments.py:44-52 | a created comment has the next id, the header's author, the path's post, the payload's text and time `now`; the post's comment count grows by one and nothing else changes |
| `Comments.NewCommentValid` | app/api/comments.py:49-52 | adding a comment keeps every invariant |
| `Comments.EditRefused` | app/api/comments.py:64-69 | an editor other than the author (an absent header included) is refused, and so is a path post id other than the comment's; a refusal changes nothing |
| `Comments.EditMissing` | app/api/comments.py:64 | editing a missing comment answers NotFound and changes nothing |
| `Comments.EditText` | app/api/comments.py:61-77 | an edit answers Ok, NotFound or Forbidden; a refusal writes nothing, a success renders a comment whose author is the editor, and the number of comments, the posts and the votes never change |
| `Comments.EditApplies` | app/api/comments.py:70-72 | a successful edit sets the text to the payload's text if present and keeps it otherwise; author, time and post are unchanged and no other row changes |
| `Comments.EditIdempotent` | app/api/comments.py:70 | repeating an edit with the same text changes nothing more |
| `Comments.EditValid` | app/api/comments.py:70-72 | editing keeps every invariant |
| `Comments.NewPostComments` | app/api/comments.py:37-57 | the handler's answer and database afterwards are those of `NewComment`, and the invariant is kept |
| `Comments.EditComment` | app/api/comments.py:61-77 | the handler's answer and database afterwards are those of `EditText`, and the invariant is kept |
| `Posts.OrderedPosts` | app/api/posts.py:16 | all posts, rearranged into descending creation time |
| `Posts.PostPage` | app/api/posts.py:30-41 | the page answers the body or a server error; the body counts all the rows it pages over and carries `prev` exactly for a requested page above 1 |
| `Posts.ListPosts` | app/api/posts.py:11-41 | a non-empty category argument answers a server error (the filtering branch names `Post.create_time`, which does not exist); otherwise the answer is the page or a server error |
| `Posts.ListNewestFirst` | app/api/posts.py:16-21 | a listed page is in descending creation-time order |
| `Posts.ListCount` | app/api/posts.py:30-40 | with every post categorised the listing succeeds, `count` is the number of all posts and a page holds at most per_page posts |
| `Posts.ListLinks` | app/api/posts.py:31-35 | when the listing succeeds, `prev` exists exactly for a requested page above 1 and names page-1; `next` exists exactly when posts remain after the page that is read (page 1 for a request below 1) and names the requested page plus one |
| `Posts.SecondPageScenario` | app/api/posts.py:15-40 | with 25 posts and 10 per page, page 2 renders the posts ranked 11 to 20, counts 25 and links to pages 1 and 3 |
| `Posts.GetPost` | app/api/posts.py:45-48 | fetching answers NotFound exactly for a missing id |
| `Posts.GetPostFound` | app/api/posts.py:47-48 | an existing post with its category row is answered with its `to_json` |
| `Posts.NewPost` | app/api/posts.py:52-66 | a creation answers Ok, BadRequest or a server error; a refusal writes nothing, a success has a schema-valid body and adds exactly one post row, and comments, votes and categories never change |
| `Posts.NewPostRefused` | app/api/posts.py:54-61 | an invalid body answers BadRequest before anything else, an unknown category a server error, then a missing or empty username header BadRequest; a post is created exactly when all pass, and a refusal persists nothing |
| `Posts.NewPostSeeded` | app/api/posts.py:58 | once the categories are seeded, a valid body with a username header always creates the post |
| `Posts.NewPostApplies` | app/api/posts.py:58-65 | exactly one row is appended, with the next id, the header's author, the payload's fields and category, time `now` and counter 0; no other table changes and the answer reports no comments |
| `Posts.NewPostValid` | app/api/posts.py:62-64 | creating a post keeps every invariant, the new zero counter matching its empty tally |
| `Posts.EditOutcomes` | app/api/posts.py:72-77 | an existing post's edit is Forbidden for anyone but its author and a server error for the author |
| `Posts.EditMissing` | app/api/posts.py:72 | fetching or editing a missing id answers NotFound |
| `Posts.EditOutcome` | app/api/posts.py:70-80 | an edit never succeeds: it answers NotFound exactly for a missing post, else Forbidden or a server error |
| `Posts.CreatePost` | app/api/posts.py:52-66 | the handler's answer and database afterwards are those of `NewPost`, and the invariant is kept |
| `Posts.EditPost` | app/api/posts.py:70-80 | the handler's answer is that of `EditOutcome`, and it writes nothing |
| `Validations.PostRejectsNonObject` | app/api/validations.py:7 | a body that is not an object is rejected by both documents |
| `Validations.ValidCreatePost` | app/api/validations.py:6-24 | an accepted post body is an object with a string `title` |
| `Validations.ValidCreateComment` | app/api/validations.py:31-37 | an accepted comment body is an object with a string `text` |
| `Validations.PostRejectsMissingRequired` | app/api/validations.py:23 | a post body missing start_date, end_date, title or category is rejected |
| `Validations.PostRejectsUnknownCategory` | app/api/validations.py:12-15 | a post body whose category is not one of the six names is rejected |
| `Validations.PostRejectsBadUrl` | app/api/validations.py:17-21 | a post body whose string url starts neither with http:// nor with https:// is rejected |
| `Validations.PostAcceptsNumericUrl` | app/api/validations.py:17-21 | the url definition has no `type`, so a non-string url passes |
| `Validations.PostRejectsNonStringField` | app/api/validations.py:9-18 | present start_date, end_date, title, description and coupon_code must be strings |
| `Validations.CommentValidIff` | app/api/validations.py:31-37 | a comment body is accepted exactly when it is an object with a string `text` |
| `Validations.EnumIsSeedList` | app/api/validations.py:14 | the category enum is the seeded name list |
| `Validations.ValidPostShape` | app/api/validations.py:6-24 | an accepted post body has string start_date, end_date, title and a seeded category name |
| `Validations.ValidPostResolves` | app/api/validations.py:14 | after seeding, `Post.from_json` resolves the category of every accepted body |
| `Pagination.SortBy` | app/api/comments.py:16-17 | the rows come out in ascending key order and are a permutation of the input |
| `Pagination.Paginate` | app/api/comments.py:16-21 | a page reads a page number of at least 1, keeps the page size, counts all rows as its total, holds at most per_page rows, and has a previous page exactly for a requested page above 1 |
| `Pagination.PaginateSlice` | app/api/comments.py:16-22 | a page holds at most per_page rows, namely the rows at its offset in order, and the total counts all rows |
| `Pagination.PageFromRows` | app/api/comments.py:16-22 | a page holds only rows of the query |
| `Pagination.PageSorted` | app/api/posts.py:16-21 | a page of ordered rows is ordered |
| `Pagination.HasNextIff` | app/api/comments.py:26-27 | `has_next` holds exactly when rows remain after the page that is read, page 1 for a requested page below 1 |
| `Pagination.PastTheEnd` | app/api/posts.py:17-21 | a page past the last has no rows and no next page, and has a previous page when there are rows |
| `Pagination.EveryRowOnItsPage` | app/api/posts.py:16-21 | row i is on page i / per_page + 1 at position i mod per_page |
| `Pagination.EveryRowListed` | app/api/comments.py:16-22 | every row is on some page |
| `Pagination.NextPageNotEmpty` | app/api/posts.py:34-35 | when `has_next` holds, the next page is not empty |
| `Utils.Split` | app/api/utils.py:2 | `split` yields at least one piece, and exactly the input when the separator does not occur |
| `Utils.SplitCount` | app/api/utils.py:2 | `split` yields one more piece than there are separators |
| `Utils.SplitPiecesClean` | app/api/utils.py:2 | no piece holds the separator |
| `Utils.SplitJoin` | app/api/utils.py:2 | joining the pieces with the separator restores the input |
| `Utils.SplitTwo` | app/api/utils.py:2 | splitting local part, "@" and domain yields exactly those two parts |
| `Utils.MaskDefinedIff` | app/api/utils.py:2 | `mask_email` succeeds exactly for inputs with exactly one "@" |
| `Utils.MaskEmail` | app/api/utils.py:1-5 | a result exists only when the split yields two pieces, and it ends with "@" and the domain piece after at least four further characters |
| `Utils.OneAtSplits` | app/api/utils.py:2 | such an input is its local part, "@" and its domain, neither holding "@" |
| `Utils.MaskOf` | app/api/utils.py:3-4 | for a non-empty local part the result keeps its first and last m characters (m = 1 up to six characters, else 3) around "****", then "@" and the domain; its length is 2m + 5 + the domain's length |
| `Utils.MaskEmptyLocal` | app/api/utils.py:4 | an empty local part gives "****@" and the domain |
| `Utils.MaskShape` | app/api/utils.py:2-4 | for a local part and a domain without "@", the result is the first m characters, "****", the last m characters, "@" and the domain |
| `Utils.MaskKeepsEnds` | app/api/utils.py:4 | the result for a local part and a domain ends with "@" and the domain and starts with the first m characters of the local part |
| `Auth.TokenCache.constructor` | app/api/auth.py:9 | the cache starts empty |
| `Auth.TokenCache.GetAccessToken` | app/api/auth.py:27-40 | a token is requested exactly when the slot holds none or the held token's expiry is before now; the answer is the requested token then and the held one otherwise, and the slot holds exactly the answer afterwards |
| `Auth.NeedsRefresh` | app/api/auth.py:28-38 | an empty slot needs a request, and a held token whose expiry is not before now does not |
| `Auth.TokenAfter` | app/api/auth.py:27-40 | the answer is the held token or the requested one, and always the requested one when the slot holds none |
| `Auth.EmptyFetches` | app/api/auth.py:28-38 | an empty slot always requests and stores a token |
| `Auth.ExpiryBoundary` | app/api/auth.py:29-35 | a held token is reused up to and including the second of its expiry and replaced after it |
| `Auth.FreshTokenReused` | app/api/auth.py:27-40 | once a call leaves an unexpired token, a later call before its expiry answers it without a request |

## Left out

- `app/api/users.py`, `app/api/report.py`, `app/api/categories.py`, `app/api/errors.py`, `app/__init__.py`, `app/api/__init__.py`, `app/main/__init__.py` and `config.py` are not part of this model. They hold storage, identity-provider and HTTP plumbing, and wiring.
- The schema migrations are not part of this model beyond the empty database they create.
- `UpdatePostVoteInput` is imported by `app/api/votes.py` but not defined in `app/api/validations.py`. The vote action is therefore an arbitrary string; anything other than "increment" is a DECREMENT.
- Row locks (`with_for_update`), sessions, commit and rollback are not modelled. Each handler is one atomic step.
- Storage-layer failures (`SQLAlchemyError`) and the rollback after them are not modelled, because they depend on the database driver. This includes a comment edit whose `text` is not a string. The edit payload is modelled as an optional string.
- Comments.EditComment: an edit request without a JSON body is not modelled. There `request.json` is `None`, so `.get` at app/api/comments.py:70 raises `AttributeError`, which `except SQLAlchemyError` does not catch; the answer is a server error (or 415 from newer Flask versions).
- app/models.py declares no `votes` column on `Post`; the migration adds a nullable integer. A new post's counter is assumed to be 0.
- Ties in `ORDER BY created_time` keep table order. SQL leaves their order unspecified.
- `url_for` strings are not modelled. Links are modelled as the page number they name, and a post's link as its id. `jsonify` and HTTP status codes are reduced to the `Response` constructors.
- Timestamps are integers. JSON numbers are integers. `format` keywords are not asserted.
- JWT decoding, the HTTP token request and the float clock `time.time()` are parameters of `GetAccessToken`. The clock is passed rounded up to whole seconds; against the integer `exp` claim this gives the same answer as the float comparison at app/api/auth.py:32. A failed decode or a failed request is not modelled.
- Models.PostToJson: `start_date` and `end_date` are DateTime columns (app/models.py:63-64). The database parses the payload strings, and `jsonify` renders the stored datetimes. The model renders the payload value as stored, so it does not capture date parsing or the rendered date format.
- Comments.EditRefused: the two refusals carry different messages at app/api/comments.py:67 and :69. The model answers the same `Forbidden` for both, so it does not state which check runs first.
- Votes.UpdatePostVotes: it answers the updated post row rather than its `to_json` rendering. The rendering is `Models.PostToJson`, which the invariant guarantees can be computed.
- Votes.GetPostVotes: it answers the ledger rows rather than their `to_json` rendering, because app/models.py declares no `Vote` class.
