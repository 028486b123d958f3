// ByteBuffer: a window on memory. The bytes live in one array shared by all
// buffers; a buffer holds where its store begins and its own cursors, and slices
// and duplicates share the bytes but not the cursors.

module Buffers {
  class ByteBuffer {
    const base: nat
    const capacity: nat
    var position: nat
    var limit: nat

    constructor (base: nat, capacity: nat)
      ensures this.base == base && this.capacity == capacity
      ensures position == 0 && limit == capacity
    {
      this.base := base;
      this.capacity := capacity;
      position := 0;
      limit := capacity;
    }

    function Remaining(): (r: nat)
      reads this
    {
      if position < limit then limit - position else 0
    }

    // The address of the byte at the position.
    function Start(): nat
      reads this
    {
      base + position
    }
  }

  function Starts(bs: seq<ByteBuffer>): (s: seq<nat>)
    reads bs
    ensures |s| == |bs|
  {
    seq(|bs|, i requires 0 <= i < |bs| reads bs => bs[i].Start())
  }
}
