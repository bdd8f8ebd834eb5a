/**
 * Client code driving freshly built stores through the situations the stores are
 * meant to handle; each method's postcondition follows from the store contracts alone.
 */
module Scenarios {
  import opened Entities
  import Posts
  import Comments

  /** An empty post store finds nothing under any id and lists no posts. */
  method EmptyStoreFindsNothing(id: int) returns (found: Option<Post>, all: seq<Post>)
    ensures found == None && all == []
  {
    var posts := new Posts.PostDao();
    found := posts.GetOne(id);
    all := posts.GetAll();
  }

  /** The first post accepted by a fresh store gets id 0 and is the only one filed. */
  method FirstPostGetsIdZero(p: Post) returns (r: Option<Post>, stored: Option<Post>, all: seq<Post>)
    requires Posts.IsValidPost(p)
    ensures r == Some(p.(id := 0)) && stored == r && all == [r.value]
  {
    var posts := new Posts.PostDao();
    r := posts.AddOne(p);
    stored := posts.GetOne(0);
    all := posts.GetAll();
  }

  /** A rejected post leaves no gap: the next accepted post still gets the next id. */
  method RejectedPostConsumesNoId(bad: Post, good: Post) returns (r1: Option<Post>, r2: Option<Post>, size: nat)
    requires !Posts.IsValidPost(bad) && Posts.IsValidPost(good)
    ensures r1 == None && r2 == Some(good.(id := 0)) && size == 1
  {
    var posts := new Posts.PostDao();
    r1 := posts.AddOne(bad);
    r2 := posts.AddOne(good);
    Posts.SizeIsCount(posts.postMap, posts.count);
    size := |posts.postMap|;
  }

  /** A second accepted post gets id 1 and leaves the first one as it was. */
  method SecondPostKeepsFirst(p1: Post, p2: Post) returns (r1: Option<Post>, r2: Option<Post>, first: Option<Post>)
    requires Posts.IsValidPost(p1) && Posts.IsValidPost(p2)
    ensures r1 == Some(p1.(id := 0)) && r2 == Some(p2.(id := 1)) && first == r1
  {
    var posts := new Posts.PostDao();
    r1 := posts.AddOne(p1);
    r2 := posts.AddOne(p2);
    first := posts.GetOne(0);
  }

  /** A comment naming a post that does not exist is rejected and the comment store stays empty. */
  method CommentOnMissingPostRejected(p: Post, c: Comment) returns (r: Option<Comment>, size: nat)
    requires Posts.IsValidPost(p) && c.postId != 0
    ensures r == None && size == 0
  {
    var posts := new Posts.PostDao();
    var _ := posts.AddOne(p);
    var comments := new Comments.CommentDao(posts);
    r := comments.AddOne(c);
    size := |comments.commentMap|;
  }

  /**
   * Comments on two posts are grouped separately, and their ids come from one shared
   * counter: 0 for the first accepted comment, 1 for the second, whatever their posts.
   */
  method CommentsOnTwoPosts(p0: Post, p1: Post, c0: Comment, c1: Comment)
    returns (r0: Option<Comment>, r1: Option<Comment>, list0: seq<Comment>, list1: seq<Comment>, size: nat)
    requires Posts.IsValidPost(p0) && Posts.IsValidPost(p1)
    requires Comments.IsValidComment(c0) && Comments.IsValidComment(c1)
    requires c0.postId == 0 && c1.postId == 1
    ensures r0 == Some(c0.(id := 0)) && r1 == Some(c1.(id := 1))
    ensures list0 == [r0.value] && list1 == [r1.value] && size == 2
  {
    var posts := new Posts.PostDao();
    var _ := posts.AddOne(p0);
    var _ := posts.AddOne(p1);
    var comments := new Comments.CommentDao(posts);
    r0 := comments.AddOne(c0);
    r1 := comments.AddOne(c1);
    list0 := comments.GetAllForPost(0);
    list1 := comments.GetAllForPost(1);
    size := |comments.commentMap|;
  }

  /**
   * Comments on one post pile up in insertion order under a single key; an invalid
   * comment in between changes nothing and consumes no id.
   */
  method CommentsPileUpOnOnePost(p: Post, c1: Comment, bad: Comment, c2: Comment)
    returns (r1: Option<Comment>, rBad: Option<Comment>, r2: Option<Comment>, list: seq<Comment>, size: nat)
    requires Posts.IsValidPost(p)
    requires Comments.IsValidComment(c1) && Comments.IsValidComment(c2) && !Comments.IsValidComment(bad)
    requires c1.postId == 0 && c2.postId == 0
    ensures r1 == Some(c1.(id := 0)) && rBad == None && r2 == Some(c2.(id := 1))
    ensures list == [r1.value, r2.value] && size == 1
  {
    var posts := new Posts.PostDao();
    var _ := posts.AddOne(p);
    var comments := new Comments.CommentDao(posts);
    r1 := comments.AddOne(c1);
    rBad := comments.AddOne(bad);
    r2 := comments.AddOne(c2);
    list := comments.GetAllForPost(0);
    size := |comments.commentMap|;
  }

  /**
   * Posts added after comments exist keep the comment store valid, and a comment on
   * the new post is then accepted under the next shared id.
   */
  method CommentAfterNewPost(p0: Post, p1: Post, c0: Comment, c1: Comment)
    returns (r0: Option<Comment>, r1: Option<Comment>, list1: seq<Comment>)
    requires Posts.IsValidPost(p0) && Posts.IsValidPost(p1)
    requires Comments.IsValidComment(c0) && Comments.IsValidComment(c1)
    requires c0.postId == 0 && c1.postId == 1
    ensures r0 == Some(c0.(id := 0)) && r1 == Some(c1.(id := 1)) && list1 == [r1.value]
  {
    var posts := new Posts.PostDao();
    var _ := posts.AddOne(p0);
    var comments := new Comments.CommentDao(posts);
    r0 := comments.AddOne(c0);
    ghost var before := posts.postMap;
    var _ := posts.AddOne(p1);
    Comments.InvariantSurvivesNewPosts(comments.commentMap, comments.count, before, posts.postMap);
    r1 := comments.AddOne(c1);
    list1 := comments.GetAllForPost(1);
  }
}
