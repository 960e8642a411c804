/** A chunk: a run of elements and the index at which it starts in the
    sequence it was taken from (the original or the revised text). */
module Chunks {

  datatype Chunk<T> = Chunk(position: nat, lines: seq<T>) {

    /** The number of elements in the chunk. */
    function Size(): (n: nat)
      ensures n == |lines|
    {
      |lines|
    }
  }
}
