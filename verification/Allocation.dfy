/** What all allocators have in common. */
module Allocation {

  datatype Error = InvalidInput | OutOfMemory

  /** A layout without an alignment is aligned to one byte. */
  function Align(alignment: nat): (a: nat)
    ensures a > 0
  {
    if alignment == 0 then 1 else alignment
  }
}

/** Slices of a single memory, and results of allocators that manage one. Where places
    are addresses, zero is the null pointer. */
module Slices {
  import opened Allocation

  datatype Slice = Slice(ptr: nat, len: nat)

  datatype Result = Ok(slice: Slice) | Err(error: Error)
}
