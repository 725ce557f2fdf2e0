/** Bytes in a page or a block. */
module Bytes {

  /** Some bytes replaced, from off on. */
  function Patch(page: seq<bv8>, off: nat, bytes: seq<bv8>): (r: seq<bv8>)
    requires off + |bytes| <= |page|
    ensures |r| == |page|
    ensures forall k {:trigger r[k]} :: 0 <= k < |r| ==>
              r[k] == if off <= k < off + |bytes| then bytes[k - off] else page[k]
  {
    page[..off] + bytes + page[off + |bytes|..]
  }
}
