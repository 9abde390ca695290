/** What several modules share. */
module Basics {
  datatype Option<+T> = None | Some(value: T)

  // The pieces of a stream, put together.
  function Flatten<T>(chunks: seq<seq<T>>): seq<T> {
    if chunks == [] then [] else Flatten(chunks[..|chunks| - 1]) + chunks[|chunks| - 1]
  }
}
