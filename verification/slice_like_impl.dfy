/**
  Methods of handles to arrays and slices: the length, element and sub-slice
  access, and splitting, each computed from the handle's pointer without a
  reference to the whole target. The shared variants yield shared references or
  handles; the `_mut` variants exist on exclusive handles only and yield
  exclusive ones, through which the caller then writes.
*/
module SliceLikeImpl {
  import opened Machine
  import opened DeferredHandle
  import SPI = SlicePointerIndex
  import PointerLength
  import CoreTraits

  /** `len`: the length of the target, asked of the pointer alone. */
  function Len(h: Deferred, slicePtrLen: bool): (r: Outcome<Usize>)
    requires SliceLike(h.ptr)
    ensures r == PointerLength.Len(AsPtr(h), slicePtrLen)
    ensures r.Ok? ==> r.value == Extent(h.ptr)
  {
    PointerLength.Len(AsPtr(h), slicePtrLen)
  }

  /** `get`: a shared reference to the element or sub-slice, None when out of
      bounds. */
  function Get(h: Deferred, idx: SPI.SliceIndex, slicePtrLen: bool): (r: Outcome<Option<Ptr>>)
    requires SliceLike(h.ptr)
    ensures r == SPI.Get(idx, AsPtr(h), slicePtrLen)
    ensures r.Ok? && r.value.Some? ==> Within(r.value.value, h.ptr)
  {
    SPI.Get(idx, AsPtr(h), slicePtrLen)
  }

  /** `get_unchecked`: the element or sub-slice, the caller vouching that the
      index is in bounds. */
  function GetUnchecked(h: Deferred, idx: SPI.SliceIndex, slicePtrLen: bool): (r: Outcome<Ptr>)
    requires SliceLike(h.ptr) && SPI.InBounds(idx, RegionLen(h.ptr))
    ensures r.Ok? ==> r.value == SPI.Sub(idx, h.ptr) && Within(r.value, h.ptr)
    ensures r.Panicked? <==> idx.RangeFrom? && !PointerLength.Available(h.ptr, slicePtrLen)
    ensures r.Panicked? ==> r.panic == SlicePtrLenUnavailable
  {
    SPI.GetUnchecked(idx, AsPtr(h), slicePtrLen)
  }

  /** `halves` are two handles of flavour `f` covering `[0, mid)` and
      `[mid, len)` of `h`'s target. */
  predicate SplitsAt(h: Deferred, mid: Usize, halves: (Deferred, Deferred), f: Flavour)
    requires SliceLike(h.ptr) && mid <= RegionLen(h.ptr)
  {
    && halves.0 == Deferred(f, Ptr(h.ptr.addr, SliceOf(mid)))
    && halves.1 == Deferred(f, Ptr(h.ptr.addr + mid, SliceOf(RegionLen(h.ptr) - mid)))
  }

  /** `split_at_unchecked`: shared slice handles for `..mid` and `mid..`, the
      caller vouching for `mid <= len`. The `mid..` half asks for the length,
      so a slice in a build without `slice_ptr_len` panics. */
  function SplitAtUnchecked(h: Deferred, mid: Usize, slicePtrLen: bool): (r: Outcome<(Deferred, Deferred)>)
    requires SliceLike(h.ptr) && mid <= RegionLen(h.ptr)
    ensures r.Ok? <==> PointerLength.Available(h.ptr, slicePtrLen)
    ensures r.Ok? ==> SplitsAt(h, mid, r.value, Shared)
  {
    var left := SPI.GetUnchecked(SPI.RangeTo(mid), AsPtr(h), slicePtrLen).value;
    var right :- SPI.GetUnchecked(SPI.RangeFrom(mid), AsPtr(h), slicePtrLen);
    Ok((FromRaw(left), FromRaw(right)))
  }

  /** `split_at`: panics exactly when `mid > len` (or when the length cannot be
      obtained), and otherwise is `split_at_unchecked`. */
  function SplitAt(h: Deferred, mid: Usize, slicePtrLen: bool): (r: Outcome<(Deferred, Deferred)>)
    requires SliceLike(h.ptr)
    ensures r.Ok? <==> PointerLength.Available(h.ptr, slicePtrLen) && mid <= RegionLen(h.ptr)
    ensures r.Ok? ==> mid <= RegionLen(h.ptr) && r == SplitAtUnchecked(h, mid, slicePtrLen)
    ensures r.Panicked? ==>
      r.panic == if PointerLength.Available(h.ptr, slicePtrLen) then SplitMidAssertFail else SlicePtrLenUnavailable
  {
    var n :- Len(h, slicePtrLen);
    if mid > n then Panicked(SplitMidAssertFail) else SplitAtUnchecked(h, mid, slicePtrLen)
  }

  /** `get_mut`: an exclusive reference to the element or sub-slice, None when
      out of bounds. */
  function GetMut(h: Deferred, idx: SPI.SliceIndex, slicePtrLen: bool): (r: Outcome<Option<Ptr>>)
    requires h.flavour == Exclusive && SliceLike(h.ptr)
    ensures r == Get(h, idx, slicePtrLen)
  {
    SPI.Get(idx, AsMutPtr(h), slicePtrLen)
  }

  /** `get_unchecked_mut`: as `get_unchecked`, on an exclusive handle. */
  function GetUncheckedMut(h: Deferred, idx: SPI.SliceIndex, slicePtrLen: bool): (r: Outcome<Ptr>)
    requires h.flavour == Exclusive && SliceLike(h.ptr) && SPI.InBounds(idx, RegionLen(h.ptr))
    ensures r == GetUnchecked(h, idx, slicePtrLen)
  {
    SPI.GetUnchecked(idx, AsMutPtr(h), slicePtrLen)
  }

  /** `split_at_mut_unchecked`: as `split_at_unchecked`, yielding exclusive halves. */
  function SplitAtMutUnchecked(h: Deferred, mid: Usize, slicePtrLen: bool): (r: Outcome<(Deferred, Deferred)>)
    requires h.flavour == Exclusive && SliceLike(h.ptr) && mid <= RegionLen(h.ptr)
    ensures r.Ok? <==> PointerLength.Available(h.ptr, slicePtrLen)
    ensures r.Ok? ==> SplitsAt(h, mid, r.value, Exclusive)
  {
    var left := SPI.GetUnchecked(SPI.RangeTo(mid), AsMutPtr(h), slicePtrLen).value;
    var right :- SPI.GetUnchecked(SPI.RangeFrom(mid), AsMutPtr(h), slicePtrLen);
    Ok((FromRawMut(left), FromRawMut(right)))
  }

  /** `split_at_mut`: as `split_at`, yielding exclusive halves. */
  function SplitAtMut(h: Deferred, mid: Usize, slicePtrLen: bool): (r: Outcome<(Deferred, Deferred)>)
    requires h.flavour == Exclusive && SliceLike(h.ptr)
    ensures r.Ok? <==> PointerLength.Available(h.ptr, slicePtrLen) && mid <= RegionLen(h.ptr)
    ensures r.Ok? ==> mid <= RegionLen(h.ptr) && r == SplitAtMutUnchecked(h, mid, slicePtrLen)
    ensures r.Panicked? ==>
      r.panic == if PointerLength.Available(h.ptr, slicePtrLen) then SplitMidAssertFail else SlicePtrLenUnavailable
  {
    var n :- Len(h, slicePtrLen);
    if mid > n then Panicked(SplitMidAssertFail) else SplitAtMutUnchecked(h, mid, slicePtrLen)
  }

  /** The two halves of a split are valid, disjoint, lie inside the original
      target, have lengths `mid` and `len - mid`, and their contents concatenate
      to the original contents. */
  lemma {:induction false} SplitHalvesConcatenate<T>(mem: array<T>, h: Deferred, mid: Usize, halves: (Deferred, Deferred), f: Flavour)
    requires SliceLike(h.ptr) && Valid(h, mem.Length) && mid <= RegionLen(h.ptr)
    requires SplitsAt(h, mid, halves, f)
    ensures Valid(halves.0, mem.Length) && Valid(halves.1, mem.Length)
    ensures Within(halves.0.ptr, h.ptr) && Within(halves.1.ptr, h.ptr) && Disjoint(halves.0.ptr, halves.1.ptr)
    ensures Extent(halves.0.ptr) == mid && Extent(halves.1.ptr) == RegionLen(h.ptr) - mid
    ensures CoreTraits.Deref(mem, halves.0) + CoreTraits.Deref(mem, halves.1) == CoreTraits.Deref(mem, h)
  {
    ViewSplits(mem[..], h.ptr, mid);
  }

  /** Writing anywhere inside one half of a split leaves the other half as it was. */
  lemma {:induction false} SplitHalvesIndependent<T>(s: seq<T>, h: Deferred, mid: Usize, halves: (Deferred, Deferred), f: Flavour, q: Ptr, vals: seq<T>)
    requires SliceLike(h.ptr) && Valid(h, |s|) && mid <= RegionLen(h.ptr)
    requires SplitsAt(h, mid, halves, f)
    requires |vals| == Extent(q)
    ensures Within(q, halves.0.ptr) ==>
      View(Overwrite(s, q, vals), halves.1.ptr) == View(s, halves.1.ptr)
    ensures Within(q, halves.1.ptr) ==>
      View(Overwrite(s, q, vals), halves.0.ptr) == View(s, halves.0.ptr)
  {
    if Within(q, halves.0.ptr) {
      ViewAfterOverwrite(s, q, vals, halves.1.ptr);
    }
    if Within(q, halves.1.ptr) {
      ViewAfterOverwrite(s, q, vals, halves.0.ptr);
    }
  }

  /** `get_mut` followed by an assignment through the reference: only the
      chosen element or sub-slice changes; out of bounds nothing is written. */
  method GetMutAssign<T>(mem: array<T>, h: Deferred, idx: SPI.SliceIndex, vals: seq<T>, slicePtrLen: bool)
    returns (r: Outcome<Option<Ptr>>)
    requires h.flavour == Exclusive && SliceLike(h.ptr) && Valid(h, mem.Length)
    modifies mem
    ensures r == GetMut(h, idx, slicePtrLen)
    ensures r.Ok? && r.value.Some? ==> Within(r.value.value, h.ptr) && ValidIn(r.value.value, mem.Length)
    ensures if r.Ok? && r.value.Some? && |vals| == Extent(r.value.value)
            then mem[..] == Overwrite(old(mem[..]), r.value.value, vals)
            else mem[..] == old(mem[..])
  {
    r := GetMut(h, idx, slicePtrLen);
    if r.Ok? && r.value.Some? && |vals| == Extent(r.value.value) {
      Write(mem, r.value.value, vals);
    }
  }

  /** `get_unchecked_mut` followed by an assignment through the reference. */
  method GetUncheckedMutAssign<T>(mem: array<T>, h: Deferred, idx: SPI.SliceIndex, vals: seq<T>, slicePtrLen: bool)
    returns (r: Outcome<Ptr>)
    requires h.flavour == Exclusive && SliceLike(h.ptr) && Valid(h, mem.Length)
    requires SPI.InBounds(idx, RegionLen(h.ptr))
    modifies mem
    ensures r == GetUncheckedMut(h, idx, slicePtrLen)
    ensures r.Ok? ==> Within(r.value, h.ptr) && ValidIn(r.value, mem.Length)
    ensures if r.Ok? && |vals| == Extent(r.value)
            then mem[..] == Overwrite(old(mem[..]), r.value, vals)
            else mem[..] == old(mem[..])
  {
    r := GetUncheckedMut(h, idx, slicePtrLen);
    if r.Ok? && |vals| == Extent(r.value) {
      Write(mem, r.value, vals);
    }
  }
}
