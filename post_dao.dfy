/**
 * The in-memory post store (`PostDao`): posts filed by id in a map, and a counter
 * holding the next id to hand out.
 */
module Posts {
  import opened Entities

  /** A post is accepted only when none of its required text fields is empty. */
  predicate IsValidPost(p: Post) {
    p.authorName != "" && p.title != "" && p.content != ""
  }

  /**
   * What the store looks like when `addOne` is its only writer: the keys are exactly
   * the ids handed out so far, 0 .. count-1, and each entry is a valid post filed
   * under its own id.
   */
  ghost predicate PostInvariant(postMap: map<int, Post>, count: nat) {
    && (forall id :: id in postMap <==> 0 <= id < count)
    && (forall id :: id in postMap ==> postMap[id].id == id && IsValidPost(postMap[id]))
  }

  /** The state after one `addOne` call, and the post it handed back (`None` when rejected). */
  datatype Outcome = Outcome(postMap: map<int, Post>, count: nat, result: Option<Post>)

  /**
   * `addOne` on a store holding `postMap` whose next id is `count`: an invalid post is
   * rejected and nothing changes; a valid one is filed under the old counter, with
   * that counter as its id, and the counter moves on by one.
   */
  function Insert(postMap: map<int, Post>, count: nat, p: Post): (r: Outcome)
    ensures r.result.None? <==> !IsValidPost(p)
    ensures r.result.None? ==> r.postMap == postMap && r.count == count
    ensures r.result.Some? ==> r.result.value == p.(id := count) && r.count == count + 1
    ensures r.result.Some? ==> r.postMap.Keys == postMap.Keys + {count} && r.postMap[count] == r.result.value
    ensures forall id :: id in postMap && id != count ==> r.postMap[id] == postMap[id]
  {
    if !IsValidPost(p) then Outcome(postMap, count, None)
    else
      var stored := p.(id := count);
      Outcome(postMap[stored.id := stored], count + 1, Some(stored))
  }

  /**
   * Under the invariant no insert overwrites anything: a successful one adds exactly
   * one entry, keeps every earlier entry, and the invariant holds afterwards.
   */
  lemma InsertPreservesInvariant(postMap: map<int, Post>, count: nat, p: Post)
    requires PostInvariant(postMap, count)
    ensures PostInvariant(Insert(postMap, count, p).postMap, Insert(postMap, count, p).count)
    ensures Insert(postMap, count, p).result.Some? ==>
      && count !in postMap
      && |Insert(postMap, count, p).postMap| == |postMap| + 1
      && forall id :: id in postMap ==> id in Insert(postMap, count, p).postMap
  {
  }

  /** A set holding exactly the integers 0 .. n-1 has n elements. */
  lemma {:induction false} RangeSize(ids: set<int>, n: nat)
    requires forall id :: id in ids <==> 0 <= id < n
    ensures |ids| == n
  {
    if n == 0 {
      assert forall id :: id in ids <==> id in {};
    } else {
      assert n - 1 in ids;
      RangeSize(ids - {n - 1}, n - 1);
    }
  }

  /** Under the invariant the store holds exactly `count` posts. */
  lemma SizeIsCount(postMap: map<int, Post>, count: nat)
    requires PostInvariant(postMap, count)
    ensures |postMap| == count
  {
    RangeSize(postMap.Keys, count);
  }

  /** The state after a run of `addOne` calls, and what each call handed back. */
  datatype Run = Run(postMap: map<int, Post>, count: nat, results: seq<Option<Post>>)

  /** A run of `addOne` calls, one per element of `ps`, in order. */
  function InsertAll(postMap: map<int, Post>, count: nat, ps: seq<Post>): (r: Run)
    ensures |r.results| == |ps|
    ensures r.count >= count
    decreases |ps|
  {
    if ps == [] then Run(postMap, count, [])
    else
      var first := Insert(postMap, count, ps[0]);
      var rest := InsertAll(first.postMap, first.count, ps[1..]);
      Run(rest.postMap, rest.count, [first.result] + rest.results)
  }

  /**
   * Ids are handed out consecutively from the starting counter, in call order, and a
   * rejected call consumes none: the k-th successful insert of a run gets id count + k,
   * whatever rejections came between.
   */
  lemma {:induction false} InsertAllAssignsConsecutiveIds(postMap: map<int, Post>, count: nat, ps: seq<Post>)
    ensures forall i :: 0 <= i < |ps| ==> (InsertAll(postMap, count, ps).results[i].None? <==> !IsValidPost(ps[i]))
    ensures InsertAll(postMap, count, ps).count == count + |Successes(InsertAll(postMap, count, ps).results)|
    ensures forall k :: 0 <= k < |Successes(InsertAll(postMap, count, ps).results)| ==>
      Successes(InsertAll(postMap, count, ps).results)[k].id == count + k
    decreases |ps|
  {
    if ps != [] {
      var first := Insert(postMap, count, ps[0]);
      InsertAllAssignsConsecutiveIds(first.postMap, first.count, ps[1..]);
      var r := InsertAll(postMap, count, ps);
      var rest := InsertAll(first.postMap, first.count, ps[1..]);
      assert r.results == [first.result] + rest.results;
      assert r.results[1..] == rest.results;
      var ids, restIds := Successes(r.results), Successes(rest.results);
      assert ids == (if first.result.Some? then [first.result.value] else []) + restIds;
      forall k | 0 <= k < |ids|
        ensures ids[k].id == count + k
      {
        if first.result.Some? && k > 0 {
          assert ids[k] == restIds[k - 1];
        } else if first.result.None? {
          assert ids[k] == restIds[k];
        }
      }
      forall i | 0 <= i < |ps|
        ensures r.results[i].None? <==> !IsValidPost(ps[i])
      {
        if i > 0 {
          assert r.results[i] == rest.results[i - 1];
          assert ps[i] == ps[1..][i - 1];
        }
      }
    }
  }

  /** Each accepted result of a run is the caller's post, with only its id replaced. */
  lemma {:induction false} InsertAllStoresCallersPosts(postMap: map<int, Post>, count: nat, ps: seq<Post>)
    ensures forall i :: 0 <= i < |ps| && InsertAll(postMap, count, ps).results[i].Some? ==>
      InsertAll(postMap, count, ps).results[i].value == ps[i].(id := InsertAll(postMap, count, ps).results[i].value.id)
    decreases |ps|
  {
    if ps != [] {
      var first := Insert(postMap, count, ps[0]);
      InsertAllStoresCallersPosts(first.postMap, first.count, ps[1..]);
      var r := InsertAll(postMap, count, ps);
      var rest := InsertAll(first.postMap, first.count, ps[1..]);
      assert r.results == [first.result] + rest.results;
      forall i | 0 <= i < |ps| && r.results[i].Some?
        ensures r.results[i].value == ps[i].(id := r.results[i].value.id)
      {
        if i > 0 {
          assert r.results[i] == rest.results[i - 1];
          assert ps[i] == ps[1..][i - 1];
        }
      }
    }
  }

  /** A run never touches an entry whose key is below the counter it starts from. */
  lemma {:induction false} InsertAllKeepsEarlierEntries(postMap: map<int, Post>, count: nat, ps: seq<Post>)
    ensures forall id :: id in postMap && id < count ==>
      id in InsertAll(postMap, count, ps).postMap && InsertAll(postMap, count, ps).postMap[id] == postMap[id]
    decreases |ps|
  {
    if ps != [] {
      var first := Insert(postMap, count, ps[0]);
      InsertAllKeepsEarlierEntries(first.postMap, first.count, ps[1..]);
    }
  }

  /**
   * Each post accepted during a run is in the final map, filed under its own id. With
   * the consecutive ids, the k-th accepted post sits under key count + k, and every
   * accepted post is stored exactly once.
   */
  lemma {:induction false} InsertAllFilesAcceptedPosts(postMap: map<int, Post>, count: nat, ps: seq<Post>)
    ensures forall p :: p in Successes(InsertAll(postMap, count, ps).results) ==>
      p.id in InsertAll(postMap, count, ps).postMap && InsertAll(postMap, count, ps).postMap[p.id] == p
    decreases |ps|
  {
    if ps != [] {
      var first := Insert(postMap, count, ps[0]);
      InsertAllFilesAcceptedPosts(first.postMap, first.count, ps[1..]);
      InsertAllKeepsEarlierEntries(first.postMap, first.count, ps[1..]);
      var r := InsertAll(postMap, count, ps);
      var rest := InsertAll(first.postMap, first.count, ps[1..]);
      assert r.results == [first.result] + rest.results;
      assert r.results[1..] == rest.results;
      assert Successes(r.results) == (if first.result.Some? then [first.result.value] else []) + Successes(rest.results);
      if first.result.Some? {
        assert count in first.postMap && count < first.count;
      }
    } else {
      assert Successes(InsertAll(postMap, count, ps).results) == [];
    }
  }

  /** A run of inserts keeps the store invariant. */
  lemma {:induction false} InsertAllPreservesInvariant(postMap: map<int, Post>, count: nat, ps: seq<Post>)
    requires PostInvariant(postMap, count)
    ensures PostInvariant(InsertAll(postMap, count, ps).postMap, InsertAll(postMap, count, ps).count)
    decreases |ps|
  {
    if ps != [] {
      InsertPreservesInvariant(postMap, count, ps[0]);
      var first := Insert(postMap, count, ps[0]);
      InsertAllPreservesInvariant(first.postMap, first.count, ps[1..]);
    }
  }

  /** The in-memory post store: posts filed by id, and the next id to hand out. */
  class PostDao {
    var postMap: map<int, Post>
    var count: nat

    ghost predicate Valid()
      reads this
    {
      PostInvariant(postMap, count)
    }

    /** A new store is empty and hands out id 0 first. */
    constructor ()
      ensures Valid() && postMap == map[] && count == 0
    {
      postMap := map[];
      count := 0;
    }

    /**
     * Keyed lookup: the post filed under `id`, or `None` for any other id, negative
     * and not-yet-assigned ones included.
     */
    function GetOne(id: int): (r: Option<Post>)
      reads this
      ensures r.None? <==> id !in postMap
      ensures r.Some? ==> r.value == postMap[id]
      ensures Valid() ==> (r.Some? <==> 0 <= id < count) && (r.Some? ==> r.value.id == id)
    {
      if id in postMap then Some(postMap[id]) else None
    }

    /** Every stored post, in insertion order, which is id order. */
    method GetAll() returns (posts: seq<Post>)
      requires Valid()
      ensures |posts| == |postMap|
      ensures forall i :: 0 <= i < |posts| ==> i in postMap && posts[i] == postMap[i]
      ensures forall p :: p in posts ==> p in postMap.Values
      ensures forall id :: id in postMap ==> postMap[id] in posts
    {
      posts := [];
      var id := 0;
      while id < count
        invariant 0 <= id <= count
        invariant |posts| == id
        invariant forall i :: 0 <= i < id ==> i in postMap && posts[i] == postMap[i]
      {
        posts := posts + [postMap[id]];
        id := id + 1;
      }
      SizeIsCount(postMap, count);
    }

    /**
     * Validates and stores `p`: rejected (nothing changes) when a required field is
     * empty; otherwise stored under the old counter, which becomes its id.
     */
    method AddOne(p: Post) returns (r: Option<Post>)
      requires Valid()
      modifies this
      ensures Valid()
      ensures Outcome(postMap, count, r) == Insert(old(postMap), old(count), p)
    {
      if p.authorName == "" || p.title == "" || p.content == "" {
        return None;
      }
      var stored := p.(id := count);
      count := count + 1;
      postMap := postMap[stored.id := stored];
      r := Some(stored);
      InsertPreservesInvariant(old(postMap), old(count), p);
    }
  }
}
