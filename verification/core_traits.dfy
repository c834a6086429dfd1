/**
  The standard-library traits implemented for the deferred handle: `Clone` (and
  `Copy`) for shared handles, `Deref` and `DerefMut`, `Index` and `IndexMut` on
  array and slice targets, and the `From` conversions (downgrade, from a
  reference, array-to-slice widening).
*/
module CoreTraits {
  import opened Machine
  import opened DeferredHandle
  import SPI = SlicePointerIndex
  import PointerLength

  /** `Clone` (and `Copy`) exist for shared handles only, and copy the handle as is. */
  function Clone(h: Deferred): (c: Deferred)
    requires h.flavour == Shared
    ensures c == h
  {
    h
  }

  /** `Deref`: the whole target at the stored address. */
  function Deref<T>(mem: array<T>, h: Deferred): (r: seq<T>)
    reads mem
    requires Valid(h, mem.Length)
    ensures |r| == Extent(h.ptr)
    ensures forall k :: 0 <= k < |r| ==> r[k] == mem[AsPtr(h).addr + k]
  {
    Load(mem, AsPtr(h))
  }

  /** `DerefMut` (exclusive handles only), followed by an assignment to the whole
      target: the target's cells become `vals` and no other cell changes. */
  method DerefMutAssign<T>(mem: array<T>, h: Deferred, vals: seq<T>)
    requires h.flavour == Exclusive && Valid(h, mem.Length) && |vals| == Extent(h.ptr)
    modifies mem
    ensures mem[..] == Overwrite(old(mem[..]), AsMutPtr(h), vals)
    ensures Deref(mem, h) == vals
  {
    Write(mem, AsMutPtr(h), vals);
    ViewAfterOverwrite(old(mem[..]), h.ptr, vals, h.ptr);
  }

  /** `h[idx]` (`Index`): the panicking `index` of the shape applied to the
      handle's pointer. Its result lies inside the handle's target, except for
      the one-past-the-end position the as-written `index` lets through. */
  function Index(h: Deferred, idx: SPI.SliceIndex, slicePtrLen: bool): (r: Outcome<Ptr>)
    requires SliceLike(h.ptr)
    ensures r == SPI.Index(idx, AsPtr(h), slicePtrLen)
    ensures r.Ok? ==> Within(r.value, h.ptr) || idx == SPI.Position(RegionLen(h.ptr))
  {
    SPI.Index(idx, AsPtr(h), slicePtrLen)
  }

  /** `h[idx]` in a mutable place (`IndexMut`, exclusive handles only): the
      panicking `index_mut`, which computes what `index` computes. */
  function IndexMut(h: Deferred, idx: SPI.SliceIndex, slicePtrLen: bool): (r: Outcome<Ptr>)
    requires h.flavour == Exclusive && SliceLike(h.ptr)
    ensures r == Index(h, idx, slicePtrLen)
  {
    SPI.Index(idx, AsMutPtr(h), slicePtrLen)
  }

  /** `h[idx] = vals` through `IndexMut`, with the corrected position check: on
      success only the indexed sub-region, which lies inside the handle's target,
      is assigned; on a panic nothing is written. */
  method IndexMutAssign<T>(mem: array<T>, h: Deferred, idx: SPI.SliceIndex, vals: seq<T>, slicePtrLen: bool)
    returns (r: Outcome<Ptr>)
    requires h.flavour == Exclusive && SliceLike(h.ptr) && Valid(h, mem.Length)
    modifies mem
    ensures r == SPI.IndexCorrected(idx, AsMutPtr(h), slicePtrLen)
    ensures r.Ok? ==> Within(r.value, h.ptr) && ValidIn(r.value, mem.Length)
    ensures if r.Ok? && |vals| == Extent(r.value)
            then mem[..] == Overwrite(old(mem[..]), r.value, vals)
            else mem[..] == old(mem[..])
  {
    r := SPI.IndexCorrected(idx, AsMutPtr(h), slicePtrLen);
    if r.Ok? && |vals| == Extent(r.value) {
      Write(mem, r.value, vals);
    }
  }

  /** `From<Deferred<&mut T>> for Deferred<&T>`: the downgrade keeps the address. */
  function Downgrade(h: Deferred): (s: Deferred)
    requires h.flavour == Exclusive
    ensures s.flavour == Shared && AsPtr(s) == AsPtr(h)
  {
    FromRaw(AsPtr(h))
  }

  /** `From<&T>`: a shared handle at the referenced address. */
  function FromRef(reference: Ptr): (h: Deferred)
    ensures h.flavour == Shared && AsPtr(h) == reference
  {
    FromRaw(reference)
  }

  /** `From<&mut T>`: an exclusive handle at the referenced address. */
  function FromMut(reference: Ptr): (h: Deferred)
    ensures h.flavour == Exclusive && AsMutPtr(h) == reference
  {
    FromRawMut(reference)
  }

  /** The three array-to-slice `From` conversions (shared to shared, exclusive
      to exclusive, exclusive to shared): a slice of N elements at the same
      address; a shared handle cannot become exclusive. */
  function ArrayToSlice(h: Deferred, to: Flavour): (s: Deferred)
    requires h.ptr.pointee.ArrayOf?
    requires h.flavour == Exclusive || to == Shared
    ensures s.flavour == to && s.ptr.pointee.SliceOf?
    ensures AsPtr(s).addr == AsPtr(h).addr && Extent(s.ptr) == Extent(h.ptr)
  {
    var p := AsPtr(h);
    var widened := Ptr(p.addr, SliceOf(p.pointee.n));
    if to == Shared then FromRaw(widened) else FromRawMut(widened)
  }

  /** A downgraded, widened or re-borrowed handle dereferences to the same
      contents as the handle it came from, and `into_ref` is the downgrade. */
  lemma ConversionsKeepContents<T>(mem: array<T>, h: Deferred, to: Flavour)
    requires Valid(h, mem.Length)
    ensures h.flavour == Exclusive ==> IntoRef(h) == Downgrade(h)
    ensures h.flavour == Exclusive ==> Deref(mem, Downgrade(h)) == Deref(mem, h)
    ensures h.flavour == Exclusive ==> Deref(mem, CloneUnchecked(h)) == Deref(mem, h)
    ensures h.ptr.pointee.ArrayOf? && (h.flavour == Exclusive || to == Shared) ==>
      Valid(ArrayToSlice(h, to), mem.Length) && Deref(mem, ArrayToSlice(h, to)) == Deref(mem, h)
  {
  }

  /** The lengths `h[idx]` yields on a 1024-element handle. */
  lemma IndexLengthsOn1024(h: Deferred, slicePtrLen: bool)
    requires h.ptr.pointee == ArrayOf(1024) || (h.ptr.pointee == SliceOf(1024) && slicePtrLen)
    ensures Index(h, SPI.RangeFull, slicePtrLen) == Ok(Ptr(h.ptr.addr, SliceOf(1024)))
    ensures Index(h, SPI.RangeFrom(1001), slicePtrLen) == Ok(Ptr(h.ptr.addr + 1001, SliceOf(23)))
    ensures Index(h, SPI.Position(0), slicePtrLen) == Ok(Ptr(h.ptr.addr, Value))
    ensures Index(h, SPI.Range(5, 10), slicePtrLen) == Ok(Ptr(h.ptr.addr + 5, SliceOf(5)))
    ensures Index(h, SPI.RangeTo(10), slicePtrLen) == Ok(Ptr(h.ptr.addr, SliceOf(10)))
    ensures Index(h, SPI.RangeToInclusive(10), slicePtrLen) == Ok(Ptr(h.ptr.addr, SliceOf(11)))
    ensures Index(h, SPI.RangeInclusive(5, 10, false), slicePtrLen) == Ok(Ptr(h.ptr.addr + 5, SliceOf(6)))
    ensures Index(h, SPI.Range(0, 0), slicePtrLen) == Ok(Ptr(h.ptr.addr, SliceOf(0)))
    ensures Index(h, SPI.Range(0, 1), slicePtrLen) == Ok(Ptr(h.ptr.addr, SliceOf(1)))
  {
  }
}
