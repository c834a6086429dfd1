/**
  `PointerLength`: the element count of an array or slice target, obtained from
  the pointer alone. The function takes no memory, so it cannot read the pointee.
  For `[T; N]` the count is the type's constant N. For `[T]` it is the fat
  pointer's metadata when the crate is built with the `slice_ptr_len` feature;
  without it, the query panics.
*/
module PointerLength {
  import opened Machine

  /** The length query returns, rather than panics, for this target and build. */
  predicate Available(p: Ptr, slicePtrLen: bool)
    requires SliceLike(p)
  {
    p.pointee.ArrayOf? || slicePtrLen
  }

  /** `PointerLength::len` for `[T; N]` and for `[T]`, in a build with
      (`slicePtrLen`) or without the `slice_ptr_len` feature. */
  function Len(p: Ptr, slicePtrLen: bool): (r: Outcome<Usize>)
    requires SliceLike(p)
    ensures r.Ok? <==> Available(p, slicePtrLen)
    ensures r.Ok? ==> r.value == Extent(p)
    ensures r.Panicked? ==> r.panic == SlicePtrLenUnavailable
  {
    if p.pointee.ArrayOf? then Ok(p.pointee.n)
    else if slicePtrLen then Ok(p.pointee.len)
    else Panicked(SlicePtrLenUnavailable)
  }

  /** The address plays no part in the answer: only the target type and its
      metadata do. */
  lemma LenIgnoresAddress(p: Ptr, q: Ptr, slicePtrLen: bool)
    requires SliceLike(p) && q.pointee == p.pointee
    ensures Len(p, slicePtrLen) == Len(q, slicePtrLen)
  {
  }

  /** An array of 1024 elements reports 1024 in every build; a slice without the
      feature never returns a length. */
  lemma LenExamples(addr: nat, slicePtrLen: bool)
    ensures Len(Ptr(addr, ArrayOf(1024)), slicePtrLen) == Ok(1024)
    ensures Len(Ptr(addr, SliceOf(1024)), true) == Ok(1024)
    ensures Len(Ptr(addr, SliceOf(1024)), false) == Panicked(SlicePtrLenUnavailable)
  {
  }
}
