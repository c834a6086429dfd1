/**
  The deferred handle: one raw pointer, tagged with the flavour of reference it
  stands for (shared `&T` or exclusive `&mut T`). It is a value: nothing ever
  reassigns its pointer, and it becomes a real reference only when dereferenced.
*/
module DeferredHandle {
  import opened Machine

  /** The two reference flavours; no third one exists. */
  datatype Flavour = Shared | Exclusive

  /** `Deferred<&T>` or `Deferred<&mut T>`: the flavour is a type-level tag, the
      pointer is the one field. */
  datatype Deferred = Deferred(flavour: Flavour, ptr: Ptr)

  /** The handle's invariant: its pointer is dereferenceable in a buffer of
      `memLength` cells. Safe constructors get it from a reference; `FromRaw` and
      `FromRawMut` leave it to their caller and check nothing. */
  predicate Valid(h: Deferred, memLength: nat)
  {
    ValidIn(h.ptr, memLength)
  }

  /** `Deferred::new`: a shared handle at the address of a reference. */
  function New(reference: Ptr): (h: Deferred)
    ensures h.flavour == Shared && AsPtr(h) == reference
  {
    FromRaw(reference)
  }

  /** `Deferred::from_raw`: a shared handle storing the pointer unchecked. */
  function FromRaw(ptr: Ptr): (h: Deferred)
    ensures h.flavour == Shared && AsPtr(h) == ptr
  {
    Deferred(Shared, ptr)
  }

  /** `Deferred::new_mut`: an exclusive handle at the address of a reference. */
  function NewMut(reference: Ptr): (h: Deferred)
    ensures h.flavour == Exclusive && AsMutPtr(h) == reference
  {
    FromRawMut(reference)
  }

  /** `Deferred::from_raw_mut`: an exclusive handle storing the pointer unchecked. */
  function FromRawMut(ptr: Ptr): (h: Deferred)
    ensures h.flavour == Exclusive && AsMutPtr(h) == ptr
  {
    Deferred(Exclusive, ptr)
  }

  /** `as_ptr`: the stored pointer, for either flavour. */
  function AsPtr(h: Deferred): Ptr
  {
    h.ptr
  }

  /** `as_mut_ptr`: the stored pointer, for exclusive handles only. */
  function AsMutPtr(h: Deferred): Ptr
    requires h.flavour == Exclusive
  {
    h.ptr
  }

  /** `clone_unchecked`: a second exclusive handle to the same place. */
  function CloneUnchecked(h: Deferred): (c: Deferred)
    requires h.flavour == Exclusive
    ensures c.flavour == Exclusive && AsMutPtr(c) == AsMutPtr(h)
  {
    FromRawMut(AsMutPtr(h))
  }

  /** `into_ref`: the exclusive handle given up for a shared one at the same
      address (the exclusive-to-shared `From` conversion). */
  function IntoRef(h: Deferred): (s: Deferred)
    requires h.flavour == Exclusive
    ensures s.flavour == Shared && AsPtr(s) == AsPtr(h)
  {
    FromRaw(AsPtr(h))
  }

  /** Storing a pointer and reading it back are inverse: every constructor keeps
      the address it was given, and a handle is rebuilt from its own pointer. */
  lemma {:induction false} ConstructorsRoundTrip(ptr: Ptr, h: Deferred)
    ensures AsPtr(New(ptr)) == AsPtr(FromRaw(ptr)) == ptr
    ensures AsMutPtr(NewMut(ptr)) == AsMutPtr(FromRawMut(ptr)) == ptr
    ensures h.flavour == Shared ==> FromRaw(AsPtr(h)) == h
    ensures h.flavour == Exclusive ==> FromRawMut(AsMutPtr(h)) == h && CloneUnchecked(h) == h
    ensures h.flavour == Exclusive ==> AsPtr(IntoRef(h)) == AsPtr(h)
  {
  }

  /** Every derived handle is as valid as its source. */
  lemma DerivedHandlesValid(h: Deferred, memLength: nat)
    requires Valid(h, memLength)
    ensures h.flavour == Exclusive ==> Valid(CloneUnchecked(h), memLength) && Valid(IntoRef(h), memLength)
  {
  }
}
