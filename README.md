# Blog post and comment stores, modelled in Dafny

This project models the in-memory data-access layer of a small blogging backend.
There are two stores:

- **PostDao** keeps posts in a map keyed by id, plus a counter holding the next id.
  `getOne` looks up a post by id. `getAll` lists every post. `addOne` rejects a post
  whose title, content or author name is empty. Otherwise it gives the post the
  counter as its id, increments the counter and files the post.
- **CommentDao** keeps comments grouped by the id of the post they belong to, plus
  one comment-id counter shared by all posts. `addOne` rejects a comment whose
  content or author name is empty, and a comment whose post the post store does
  not know. Otherwise it gives the comment the next id and appends it to its post's
  list, creating the list if needed. `getAllForPost` returns a post's list, or the
  empty list when the post has none.

Layout:

- `entities.dfy` (module `Entities`): the `Post` and `Comment` records and `Option`.
  `None` stands for the source's `undefined`.
- `post_dao.dfy` (module `Posts`): class `PostDao` with `postMap: map<int, Post>` and
  `count: nat`. It also holds the pure step function `Insert` that specifies `AddOne`,
  the store invariant `PostInvariant`, and lemmas about single inserts and runs of
  inserts.
- `comment_dao.dfy` (module `Comments`): class `CommentDao` with
  `commentMap: map<int, seq<Comment>>`, `count: nat` and a read-only reference `posts`
  to a `PostDao`. `AddOne` calls `posts.GetOne` for the existence check. It has the
  same kinds of companions: `Insert`, `CommentInvariant`, and lemmas about runs.
- `scenarios.dfy` (module `Scenarios`): client methods that each build fresh stores and
  run a short sequence of calls. They follow the situations of the test suites, plus a few
  short runs of their own. Because each starts from a fresh store, they also pin down the
  exact ids (0, then 1), which the test suites leave open. `CommentAfterNewPost` has no
  matching test: it shows that a post added after comments exist can receive comments.
  Each postcondition is proved from the store contracts alone.

Each class keeps an object invariant, `Valid()`. For posts, the keys are exactly
0 .. count-1 and each post is filed under its own id. For comments, every list
belongs to an existing post, is non-empty, and holds valid comments that name that
post. Comment ids are below the counter, increase along each list and are unique
store-wide. Every `AddOne` is specified by its step function:
`Outcome(state after, result) == Insert(state before, argument)`. The properties
are stated on that function and its lemmas.

## Model

| member | source | states |
|---|---|---|
| `Posts.PostDao.constructor` | src/daos/PostDao.ts:7-8 | a new store is empty, its counter is 0 and it satisfies the invariant |
| `Posts.PostDao.GetOne` | src/daos/PostDao.ts:10-12 | returns the post filed under `id`, and `None` exactly when `id` is not a key; under the invariant, that means exactly when `id` is outside 0 .. count-1 (negative ids included), and a found post carries `id` as its id |
| `Posts.PostDao.GetAll` | src/daos/PostDao.ts:14-20 | returns as many posts as the map holds, each one a stored post, with every stored post present, in insertion order (the post with id i at position i); an empty store gives `[]` |
| `Posts.PostDao.AddOne` | src/daos/PostDao.ts:22-33 | keeps the invariant and moves the store exactly as `Insert` says |
| `Posts.Insert` | src/daos/PostDao.ts:22-33 | rejects exactly the posts with an empty author, title or content, and then changes neither the map nor the counter; on success returns the caller's post with id replaced by the old counter, increments the counter by one, adds exactly that key, files the returned post under it and leaves every other entry alone |
| `Posts.InsertPreservesInvariant` | src/daos/PostDao.ts:28-31 | under the invariant a successful insert never overwrites: the new key was absent, the map grows by exactly one, every earlier key stays, and the invariant holds afterwards |
| `Posts.SizeIsCount` | src/daos/PostDao.ts:8 | under the invariant the store holds exactly `count` posts |
| `Posts.InsertAllAssignsConsecutiveIds` | src/daos/PostDao.ts:24-29 | in any run of inserts, a call is rejected exactly when its post is invalid; the k-th successful insert gets id count+k whatever rejections come between, and the counter ends at count plus the number of successes |
| `Posts.InsertAllStoresCallersPosts` | src/daos/PostDao.ts:28-32 | in any run of inserts, each accepted result is the caller's post with only its id replaced: same title, content and author |
| `Posts.InsertAllKeepsEarlierEntries` | src/daos/PostDao.ts:28-31 | a run of inserts keeps every entry whose key is below the starting counter, unchanged |
| `Posts.InsertAllFilesAcceptedPosts` | src/daos/PostDao.ts:28-31 | every post accepted during a run is in the final map, filed under its own id; with the consecutive ids, each accepted post is stored exactly once |
| `Posts.InsertAllPreservesInvariant` | src/daos/PostDao.ts:28-31 | any run of inserts keeps the post store invariant |
| `Comments.CommentDao.constructor` | src/daos/CommentDao.ts:7-8 | a new store beside a given post store holds no comments, its counter is 0, and it satisfies the invariant |
| `Comments.CommentDao.GetAllForPost` | src/daos/CommentDao.ts:34-40 | returns the post's list when there is one and `[]` otherwise (never absent); it reads only the comment store |
| `Comments.CommentDao.AddOne` | src/daos/CommentDao.ts:10-32 | keeps the invariant and moves the store exactly as `Insert` says, with the existence check done through `PostDao.GetOne` |
| `Comments.Insert` | src/daos/CommentDao.ts:10-32 | rejects exactly the comments with an empty author or content, or whose post is missing, and then changes neither the map nor the counter; on success returns the caller's comment with id replaced by the old counter, increments the counter by one, and makes the returned comment the last element of its post's list, which keeps its old prefix; the map gains a key only for a post with no list yet; every other post's list is unchanged |
| `Comments.InsertPreservesInvariant` | src/daos/CommentDao.ts:17-30 | every insert, accepted or rejected, keeps the comment store invariant: lists only for existing posts, non-empty, comments filed under the post they name, ids below the counter, increasing along each list and disjoint between lists |
| `Comments.InvariantSurvivesNewPosts` | src/daos/CommentDao.ts:17-19 | since posts are never removed, adding posts keeps the comment store invariant |
| `Comments.ListedCommentsBelongToPost` | src/daos/CommentDao.ts:34-40 | under the invariant, the list for a post holds only valid comments on that post, in increasing id order; it is non-empty only for a post that has comments, and only for a post that exists |
| `Comments.CommentIdsUnique` | src/daos/CommentDao.ts:21-22 | under the invariant no two stored comments share an id, within a list or across lists |
| `Comments.InsertAllAssignsConsecutiveIds` | src/daos/CommentDao.ts:12-22 | in any run of inserts, with posts possibly created between calls, a call is rejected exactly when its comment is invalid or its post is missing at that moment; the k-th successful insert gets id count+k whichever post it targets, and the counter ends at count plus the number of successes |
| `Comments.InsertAllStoresCallersComments` | src/daos/CommentDao.ts:21-31 | in any run of inserts, with posts possibly created between calls, each accepted result is the caller's comment with only its id replaced: same post, content and author |
| `Comments.StoredForUntargeted` | src/daos/CommentDao.ts:24-30 | when no accepted result names a post, no comment of the run is stored for it |
| `Comments.InsertAllGroupsByPost` | src/daos/CommentDao.ts:24-30 | after any run of inserts, with posts possibly created between calls, each post's list is its old list followed by the results accepted for that post, in call order |
| `Comments.InsertAllLeavesOtherPosts` | src/daos/CommentDao.ts:24-30 | a run of inserts, with posts possibly created between calls, none of whose comments names a post, leaves that post's list unchanged |
| `Comments.InsertAllPreservesInvariant` | src/daos/CommentDao.ts:10-31 | any run of inserts keeps the comment store invariant when posts are only ever added between calls; the invariant holds against the post map of the last call |
| `Scenarios.EmptyStoreFindsNothing` | spec/daos/PostDao.spec.ts:40-46 | an empty post store finds nothing under any id and lists no posts |
| `Scenarios.FirstPostGetsIdZero` | spec/daos/PostDao.spec.ts:154-166 | the first valid post added to a fresh store comes back with id 0, is stored under 0 and is the only post listed |
| `Scenarios.RejectedPostConsumesNoId` | spec/daos/PostDao.spec.ts:133-145 | an invalid post is rejected, and the next valid post still gets id 0; the store then holds exactly one post |
| `Scenarios.SecondPostKeepsFirst` | spec/daos/PostDao.spec.ts:168-184 | a second valid post gets id 1 and the first post is still stored unchanged under 0 |
| `Scenarios.CommentOnMissingPostRejected` | spec/daos/CommentDao.spec.ts:60-70 | a comment on a post that does not exist is rejected, and the comment map stays empty |
| `Scenarios.CommentsOnTwoPosts` | spec/daos/CommentDao.spec.ts:161-174 | comments on two posts get the shared ids 0 and 1; each post's list holds just its own comment, and the map has two keys |
| `Scenarios.CommentsPileUpOnOnePost` | spec/daos/CommentDao.spec.ts:111-159 | two valid comments on one post, with an invalid one between them, get ids 0 and 1; the invalid one is rejected; the post's list is the two accepted comments in order, under a single key |
| `Scenarios.CommentAfterNewPost` | src/daos/CommentDao.ts:17-22 | a post added after comments exist can receive a comment, which gets the next shared id |

## Left out

- The HTTP routes (`src/routes/PostRouter.ts`, `src/routes/index.ts`) are request handlers and status-code mapping, so they are I/O adapters. They are not part of this model.
- The logger import in `src/daos/PostDao.ts` is never used.
- The stores are static classes holding module-wide state. Here each is an object created by a constructor, and the comment store receives the post store it consults.
- Ids are modelled as unbounded integers. JavaScript numbers lose precision above 2^53, which no realistic run reaches.
- Aliasing is not modelled. The source writes the id into the caller's own object and returns that object; the model returns a copy with the id replaced. Two invariants depend on that copy: "each post is filed under its own id" and "comment ids are unique store-wide". In the source, submitting an object that is already stored would re-stamp the stored entry's id (src/daos/PostDao.ts:28, src/daos/CommentDao.ts:21). The routes never do this, because they build a fresh object per request (src/routes/PostRouter.ts:33-38, 106-111). Also, `getAllForPost` returns the stored array itself, so a later `push` shows up in an earlier result; the model returns a value.
- The test suites assign the maps directly without resetting the counters. That is test scaffolding and not part of the store contract, and the invariant excludes it.
- Posts.PostDao.GetAll: it requires the store invariant, and lists posts by id from 0 to count-1. Under the invariant, that is exactly the JavaScript `Map` insertion order the source's `forEach` follows. For a map filled some other way, the source would still list every entry in its own insertion order; the model says nothing about that case.
- The stores run single-threaded, so concurrent access is not modelled.
