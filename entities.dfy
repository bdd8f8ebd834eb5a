/** The two record types the stores hold, and the "may be undefined" result they return. */
module Entities {

  /** A value that may be missing; `None` stands for TypeScript's `undefined`. */
  datatype Option<T> = None | Some(value: T)

  /** The values carried by the `Some` entries of `results`, in order. */
  function Successes<T>(results: seq<Option<T>>): (values: seq<T>)
    ensures |values| <= |results|
    ensures forall v :: v in values ==> Some(v) in results
  {
    if results == [] then []
    else (if results[0].Some? then [results[0].value] else []) + Successes(results[1..])
  }

  /** A blog post. The `id` a caller supplies is ignored: the post store assigns it. */
  datatype Post = Post(id: int, title: string, content: string, authorName: string)

  /** A comment on the post whose id is `postId`. The comment store assigns `id`. */
  datatype Comment = Comment(id: int, postId: int, content: string, authorName: string)
}
