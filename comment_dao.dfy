/**
 * The in-memory comment store (`CommentDao`): comments grouped by the id of the post
 * they belong to, one global counter for comment ids, and a read-only link to the post
 * store for the existence check.
 */
module Comments {
  import opened Entities
  import Posts

  /** A comment is accepted only when neither its author nor its content is empty. */
  predicate IsValidComment(c: Comment) {
    c.authorName != "" && c.content != ""
  }

  /** The comments filed under `postId`; a post with none yields the empty list, never "absent". */
  function CommentsFor(commentMap: map<int, seq<Comment>>, postId: int): (r: seq<Comment>)
    ensures postId !in commentMap ==> r == []
    ensures postId in commentMap ==> r == commentMap[postId]
  {
    if postId in commentMap then commentMap[postId] else []
  }

  /** Every list belongs to an existing post and is non-empty (it is created holding one comment). */
  ghost predicate ListsBelongToPosts(commentMap: map<int, seq<Comment>>, postMap: map<int, Post>) {
    forall postId :: postId in commentMap ==> postId in postMap && commentMap[postId] != []
  }

  /** Every stored comment is valid, is filed under the post it names, and has an id below the counter. */
  ghost predicate CommentsWellFiled(commentMap: map<int, seq<Comment>>, count: nat) {
    forall postId, i :: postId in commentMap && 0 <= i < |commentMap[postId]| ==>
      && commentMap[postId][i].postId == postId
      && 0 <= commentMap[postId][i].id < count
      && IsValidComment(commentMap[postId][i])
  }

  /** Ids increase along each list: a list is in insertion order. */
  ghost predicate IdsIncreasing(commentMap: map<int, seq<Comment>>) {
    forall postId, i, j :: postId in commentMap && 0 <= i < j < |commentMap[postId]| ==>
      commentMap[postId][i].id < commentMap[postId][j].id
  }

  /** No id is shared by comments on two different posts. */
  ghost predicate IdsDisjoint(commentMap: map<int, seq<Comment>>) {
    forall p1, p2, i, j ::
      p1 in commentMap && p2 in commentMap && p1 != p2 && 0 <= i < |commentMap[p1]| && 0 <= j < |commentMap[p2]| ==>
      commentMap[p1][i].id != commentMap[p2][j].id
  }

  /**
   * What the store looks like when `addOne` is its only writer and posts are never
   * removed. Together the last three parts make comment ids unique store-wide.
   */
  ghost predicate CommentInvariant(commentMap: map<int, seq<Comment>>, count: nat, postMap: map<int, Post>) {
    && ListsBelongToPosts(commentMap, postMap)
    && CommentsWellFiled(commentMap, count)
    && IdsIncreasing(commentMap)
    && IdsDisjoint(commentMap)
  }

  /** The state after one `addOne` call, and the comment it handed back (`None` when rejected). */
  datatype Outcome = Outcome(commentMap: map<int, seq<Comment>>, count: nat, result: Option<Comment>)

  /**
   * `addOne` on a comment store holding `commentMap` with next id `count`, beside a post
   * store holding `postMap`: an invalid comment, or one naming a post that does not
   * exist, is rejected and nothing changes; otherwise the comment gets the old counter
   * as its id and goes to the end of its post's list, which is created if needed.
   */
  function Insert(commentMap: map<int, seq<Comment>>, count: nat, postMap: map<int, Post>, c: Comment): (r: Outcome)
    ensures r.result.None? <==> !IsValidComment(c) || c.postId !in postMap
    ensures r.result.None? ==> r.commentMap == commentMap && r.count == count
    ensures r.result.Some? ==> r.result.value == c.(id := count) && r.count == count + 1
    ensures r.result.Some? ==> CommentsFor(r.commentMap, c.postId) == CommentsFor(commentMap, c.postId) + [r.result.value]
    ensures r.result.Some? ==> r.commentMap.Keys == commentMap.Keys + {c.postId}
    ensures r.result.Some? ==> |r.commentMap| == |commentMap| + (if c.postId in commentMap then 0 else 1)
    ensures forall postId :: postId != c.postId ==> CommentsFor(r.commentMap, postId) == CommentsFor(commentMap, postId)
  {
    if c.authorName == "" || c.content == "" then Outcome(commentMap, count, None)
    else if c.postId !in postMap then Outcome(commentMap, count, None)
    else
      var stored := c.(id := count);
      if stored.postId !in commentMap then
        Outcome(commentMap[stored.postId := [stored]], count + 1, Some(stored))
      else
        Outcome(commentMap[stored.postId := commentMap[stored.postId] + [stored]], count + 1, Some(stored))
  }

  /**
   * Appending a comment with id `count` and post `k` to `k`'s list: the lists are as
   * before except that `k`'s has the new comment at its end.
   */
  ghost predicate Appended(before: map<int, seq<Comment>>, after: map<int, seq<Comment>>, k: int, stored: Comment) {
    && after.Keys == before.Keys + {k}
    && after[k] == CommentsFor(before, k) + [stored]
    && forall postId :: postId in before && postId != k ==> after[postId] == before[postId]
  }

  /** The appended comment is valid, names its list's post and has the old counter as its id. */
  lemma AppendKeepsWellFiled(before: map<int, seq<Comment>>, after: map<int, seq<Comment>>, count: nat, stored: Comment)
    requires CommentsWellFiled(before, count) && IsValidComment(stored) && stored.id == count
    requires Appended(before, after, stored.postId, stored)
    ensures CommentsWellFiled(after, count + 1)
  {
  }

  /** The appended id exceeds every stored id, so the list it joins stays increasing. */
  lemma AppendKeepsIdsIncreasing(before: map<int, seq<Comment>>, after: map<int, seq<Comment>>, count: nat, stored: Comment)
    requires CommentsWellFiled(before, count) && IdsIncreasing(before) && stored.id == count
    requires Appended(before, after, stored.postId, stored)
    ensures IdsIncreasing(after)
  {
  }

  /** The appended id is new to the whole store, so no two lists come to share an id. */
  lemma AppendKeepsIdsDisjoint(before: map<int, seq<Comment>>, after: map<int, seq<Comment>>, count: nat, stored: Comment)
    requires CommentsWellFiled(before, count) && IdsDisjoint(before) && stored.id == count
    requires Appended(before, after, stored.postId, stored)
    ensures IdsDisjoint(after)
  {
  }

  /** Every insert, accepted or rejected, keeps the store invariant. */
  lemma InsertPreservesInvariant(commentMap: map<int, seq<Comment>>, count: nat, postMap: map<int, Post>, c: Comment)
    requires CommentInvariant(commentMap, count, postMap)
    ensures CommentInvariant(Insert(commentMap, count, postMap, c).commentMap, Insert(commentMap, count, postMap, c).count, postMap)
  {
    var r := Insert(commentMap, count, postMap, c);
    if r.result.Some? {
      var stored := r.result.value;
      forall postId | postId in commentMap && postId != c.postId
        ensures r.commentMap[postId] == commentMap[postId]
      {
        assert CommentsFor(r.commentMap, postId) == CommentsFor(commentMap, postId);
      }
      assert Appended(commentMap, r.commentMap, c.postId, stored);
      AppendKeepsWellFiled(commentMap, r.commentMap, count, stored);
      AppendKeepsIdsIncreasing(commentMap, r.commentMap, count, stored);
      AppendKeepsIdsDisjoint(commentMap, r.commentMap, count, stored);
    }
  }

  /** Posts are never removed, so a store valid beside some posts stays valid once more are added. */
  lemma InvariantSurvivesNewPosts(commentMap: map<int, seq<Comment>>, count: nat, before: map<int, Post>, after: map<int, Post>)
    requires CommentInvariant(commentMap, count, before)
    requires before.Keys <= after.Keys
    ensures CommentInvariant(commentMap, count, after)
  {
  }

  /**
   * What `getAllForPost` hands back, under the invariant: only valid comments on that
   * post, in increasing id order, and a non-empty list only for a post that exists.
   */
  lemma ListedCommentsBelongToPost(commentMap: map<int, seq<Comment>>, count: nat, postMap: map<int, Post>, postId: int)
    requires CommentInvariant(commentMap, count, postMap)
    ensures forall c :: c in CommentsFor(commentMap, postId) ==> c.postId == postId && IsValidComment(c) && c.id < count
    ensures forall i, j :: 0 <= i < j < |CommentsFor(commentMap, postId)| ==>
      CommentsFor(commentMap, postId)[i].id < CommentsFor(commentMap, postId)[j].id
    ensures CommentsFor(commentMap, postId) != [] <==> postId in commentMap
    ensures CommentsFor(commentMap, postId) != [] ==> postId in postMap
  {
  }

  /** Comment ids are unique across the whole store, not just within one post's list. */
  lemma CommentIdsUnique(commentMap: map<int, seq<Comment>>, count: nat, postMap: map<int, Post>)
    requires CommentInvariant(commentMap, count, postMap)
    ensures forall p1, p2, i, j ::
      p1 in commentMap && p2 in commentMap && 0 <= i < |commentMap[p1]| && 0 <= j < |commentMap[p2]| && (p1 != p2 || i != j) ==>
      commentMap[p1][i].id != commentMap[p2][j].id
  {
  }

  /** The state after a run of `addOne` calls, and what each call handed back. */
  datatype Run = Run(commentMap: map<int, seq<Comment>>, count: nat, results: seq<Option<Comment>>)

  /**
   * A run of `addOne` calls, one per element of `cs`, in order; `postMaps[i]` is what the
   * post store holds when the i-th call is made, so posts may be created during the run.
   */
  function InsertAll(commentMap: map<int, seq<Comment>>, count: nat, postMaps: seq<map<int, Post>>, cs: seq<Comment>): (r: Run)
    requires |postMaps| == |cs|
    ensures |r.results| == |cs|
    ensures r.count >= count
    decreases |cs|
  {
    if cs == [] then Run(commentMap, count, [])
    else
      var first := Insert(commentMap, count, postMaps[0], cs[0]);
      var rest := InsertAll(first.commentMap, first.count, postMaps[1..], cs[1..]);
      Run(rest.commentMap, rest.count, [first.result] + rest.results)
  }

  /** The successful results that went to post `postId`, in call order. */
  function StoredFor(results: seq<Option<Comment>>, postId: int): (stored: seq<Comment>)
    ensures |stored| <= |results|
    ensures forall c :: c in stored ==> c.postId == postId
  {
    if results == [] then []
    else
      (if results[0].Some? && results[0].value.postId == postId then [results[0].value] else [])
      + StoredFor(results[1..], postId)
  }

  /**
   * Comment ids come from one counter shared by all posts: the k-th successful insert of
   * a run gets id count + k, whichever post it targets and whatever rejections came
   * between. A call is rejected exactly when the comment is invalid or its post is missing.
   */
  lemma {:induction false} InsertAllAssignsConsecutiveIds(commentMap: map<int, seq<Comment>>, count: nat, postMaps: seq<map<int, Post>>, cs: seq<Comment>)
    requires |postMaps| == |cs|
    ensures forall i :: 0 <= i < |cs| ==>
      (InsertAll(commentMap, count, postMaps, cs).results[i].None? <==> !IsValidComment(cs[i]) || cs[i].postId !in postMaps[i])
    ensures InsertAll(commentMap, count, postMaps, cs).count == count + |Successes(InsertAll(commentMap, count, postMaps, cs).results)|
    ensures forall k :: 0 <= k < |Successes(InsertAll(commentMap, count, postMaps, cs).results)| ==>
      Successes(InsertAll(commentMap, count, postMaps, cs).results)[k].id == count + k
    decreases |cs|
  {
    if cs != [] {
      var first := Insert(commentMap, count, postMaps[0], cs[0]);
      InsertAllAssignsConsecutiveIds(first.commentMap, first.count, postMaps[1..], cs[1..]);
      var r := InsertAll(commentMap, count, postMaps, cs);
      var rest := InsertAll(first.commentMap, first.count, postMaps[1..], cs[1..]);
      assert r.results == [first.result] + rest.results;
      assert r.results[1..] == rest.results;
      var ids, restIds := Successes(r.results), Successes(rest.results);
      assert ids == (if first.result.Some? then [first.result.value] else []) + restIds;
      forall k | 0 <= k < |ids|
        ensures ids[k].id == count + k
      {
        if first.result.Some? && k > 0 {
          assert ids[k] == restIds[k - 1];
        } else if first.result.None? {
          assert ids[k] == restIds[k];
        }
      }
      forall i | 0 <= i < |cs|
        ensures r.results[i].None? <==> !IsValidComment(cs[i]) || cs[i].postId !in postMaps[i]
      {
        if i > 0 {
          assert r.results[i] == rest.results[i - 1];
          assert cs[i] == cs[1..][i - 1];
          assert postMaps[i] == postMaps[1..][i - 1];
        }
      }
    }
  }

  /** No successful result names `postId`, so none of them is stored for it. */
  lemma {:induction false} StoredForUntargeted(results: seq<Option<Comment>>, postId: int)
    requires forall i :: 0 <= i < |results| && results[i].Some? ==> results[i].value.postId != postId
    ensures StoredFor(results, postId) == []
    decreases |results|
  {
    if results != [] {
      forall i | 0 <= i < |results[1..]| && results[1..][i].Some?
        ensures results[1..][i].value.postId != postId
      {
        assert results[1..][i] == results[i + 1];
      }
      StoredForUntargeted(results[1..], postId);
    }
  }

  /**
   * Each accepted result of a run is the caller's comment, with only its id replaced:
   * same post, content and author.
   */
  lemma {:induction false} InsertAllStoresCallersComments(commentMap: map<int, seq<Comment>>, count: nat, postMaps: seq<map<int, Post>>, cs: seq<Comment>)
    requires |postMaps| == |cs|
    ensures forall i :: 0 <= i < |cs| && InsertAll(commentMap, count, postMaps, cs).results[i].Some? ==>
      InsertAll(commentMap, count, postMaps, cs).results[i].value
        == cs[i].(id := InsertAll(commentMap, count, postMaps, cs).results[i].value.id)
    decreases |cs|
  {
    if cs != [] {
      var first := Insert(commentMap, count, postMaps[0], cs[0]);
      InsertAllStoresCallersComments(first.commentMap, first.count, postMaps[1..], cs[1..]);
      var r := InsertAll(commentMap, count, postMaps, cs);
      var rest := InsertAll(first.commentMap, first.count, postMaps[1..], cs[1..]);
      assert r.results == [first.result] + rest.results;
      forall i | 0 <= i < |cs| && r.results[i].Some?
        ensures r.results[i].value == cs[i].(id := r.results[i].value.id)
      {
        if i > 0 {
          assert r.results[i] == rest.results[i - 1];
          assert cs[i] == cs[1..][i - 1];
          assert postMaps[i] == postMaps[1..][i - 1];
        }
      }
    }
  }

  /**
   * Grouping: after a run, each post's list is its old list followed by exactly the
   * comments accepted for that post during the run, in insertion order.
   */
  lemma {:induction false} InsertAllGroupsByPost(commentMap: map<int, seq<Comment>>, count: nat, postMaps: seq<map<int, Post>>, cs: seq<Comment>, postId: int)
    requires |postMaps| == |cs|
    ensures CommentsFor(InsertAll(commentMap, count, postMaps, cs).commentMap, postId)
      == CommentsFor(commentMap, postId) + StoredFor(InsertAll(commentMap, count, postMaps, cs).results, postId)
    decreases |cs|
  {
    if cs != [] {
      var first := Insert(commentMap, count, postMaps[0], cs[0]);
      InsertAllGroupsByPost(first.commentMap, first.count, postMaps[1..], cs[1..], postId);
      var r := InsertAll(commentMap, count, postMaps, cs);
      var rest := InsertAll(first.commentMap, first.count, postMaps[1..], cs[1..]);
      assert r.results == [first.result] + rest.results;
      assert r.results[1..] == rest.results;
    }
  }

  /** A run leaves the list of every post that none of its comments names unchanged. */
  lemma InsertAllLeavesOtherPosts(commentMap: map<int, seq<Comment>>, count: nat, postMaps: seq<map<int, Post>>, cs: seq<Comment>, postId: int)
    requires |postMaps| == |cs|
    requires forall i :: 0 <= i < |cs| ==> cs[i].postId != postId
    ensures CommentsFor(InsertAll(commentMap, count, postMaps, cs).commentMap, postId) == CommentsFor(commentMap, postId)
  {
    InsertAllGroupsByPost(commentMap, count, postMaps, cs, postId);
    InsertAllStoresCallersComments(commentMap, count, postMaps, cs);
    StoredForUntargeted(InsertAll(commentMap, count, postMaps, cs).results, postId);
  }

  /**
   * A run of inserts keeps the store invariant, with posts created between the calls:
   * each post map holds at least the keys of the one before it, the first of them those
   * of `before`, which the run starts beside.
   */
  lemma {:induction false} InsertAllPreservesInvariant(commentMap: map<int, seq<Comment>>, count: nat, before: map<int, Post>,
                                                       postMaps: seq<map<int, Post>>, cs: seq<Comment>)
    requires |postMaps| == |cs|
    requires CommentInvariant(commentMap, count, before)
    requires postMaps != [] ==> before.Keys <= postMaps[0].Keys
    requires forall i :: 0 < i < |postMaps| ==> postMaps[i - 1].Keys <= postMaps[i].Keys
    ensures CommentInvariant(InsertAll(commentMap, count, postMaps, cs).commentMap, InsertAll(commentMap, count, postMaps, cs).count,
                             if postMaps == [] then before else postMaps[|postMaps| - 1])
    decreases |cs|
  {
    if cs != [] {
      InvariantSurvivesNewPosts(commentMap, count, before, postMaps[0]);
      InsertPreservesInvariant(commentMap, count, postMaps[0], cs[0]);
      var first := Insert(commentMap, count, postMaps[0], cs[0]);
      forall i | 0 < i < |postMaps[1..]|
        ensures postMaps[1..][i - 1].Keys <= postMaps[1..][i].Keys
      {
        assert postMaps[1..][i] == postMaps[i + 1];
      }
      InsertAllPreservesInvariant(first.commentMap, first.count, postMaps[0], postMaps[1..], cs[1..]);
    }
  }

  /** The in-memory comment store. */
  class CommentDao {
    /** The post store consulted, never changed, by the existence check. */
    const posts: Posts.PostDao
    var commentMap: map<int, seq<Comment>>
    var count: nat

    ghost predicate Valid()
      reads this, posts
    {
      CommentInvariant(commentMap, count, posts.postMap)
    }

    /** A new store beside `posts` holds no comments and hands out id 0 first. */
    constructor (posts: Posts.PostDao)
      ensures this.posts == posts && commentMap == map[] && count == 0
      ensures Valid()
    {
      this.posts := posts;
      commentMap := map[];
      count := 0;
    }

    /**
     * The comments on `postId`, or the empty list when there are none. Only this
     * store's own map is consulted, never the post store.
     */
    function GetAllForPost(postId: int): (r: seq<Comment>)
      reads this
      ensures postId in commentMap ==> r == commentMap[postId]
      ensures postId !in commentMap ==> r == []
    {
      CommentsFor(commentMap, postId)
    }

    /**
     * Validates and stores `c`: rejected (nothing changes) when a required field is
     * empty or the post store has no post `c.postId`; otherwise `c` gets the old counter
     * as its id and is appended to its post's list.
     */
    method AddOne(c: Comment) returns (r: Option<Comment>)
      requires Valid()
      modifies this
      ensures Valid()
      ensures Outcome(commentMap, count, r) == Insert(old(commentMap), old(count), posts.postMap, c)
    {
      if c.authorName == "" || c.content == "" {
        return None;
      }
      if posts.GetOne(c.postId).None? {
        return None;
      }
      var stored := c.(id := count);
      count := count + 1;
      if stored.postId !in commentMap {
        commentMap := commentMap[stored.postId := [stored]];
      } else {
        var comments := commentMap[stored.postId];
        comments := comments + [stored];
        commentMap := commentMap[stored.postId := comments];
      }
      r := Some(stored);
      InsertPreservesInvariant(old(commentMap), old(count), posts.postMap, c);
    }
  }
}
