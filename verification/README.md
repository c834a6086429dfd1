# deferred-reference in Dafny

The `deferred-reference` crate provides `Deferred<&T>` and `Deferred<&mut T>`.
Each is a smart pointer that stands in for a shared or an exclusive reference but
holds only a raw pointer. It becomes a real reference only at the moment it is
dereferenced. On arrays and slices, its indexing, `get`, `split_at` and their
`_mut` variants compute the element or sub-slice pointer from the pointer
itself. Bounds are checked against a length that is also read from the pointer:
the constant `N` of `[T; N]`, or the fat-pointer metadata of `[T]`. That metadata
is available only in a build with the `slice_ptr_len` feature; otherwise the
length query panics. So two disjoint parts of one buffer can be reached without
ever forming a reference to the whole buffer.

This model covers that bounds and region arithmetic and the handle built on it.

- **Memory** is one Dafny `array<T>`. A raw pointer is `Ptr(addr, pointee)`, where
  the pointee is a single `Value`, an `ArrayOf(N)` or a `SliceOf(len)`.
  `Extent`, `Within`, `Disjoint` and `ValidIn` say which cells a pointer covers
  (module `Machine`).
- **Panics** are values. An operation returns `Outcome<R>`, which is `Ok(value)` or
  `Panicked(kind)`. There is one kind per panic helper of the crate, plus the
  missing-`slice_ptr_len` panic and the `split_at` assertion.
- **The build feature** `slice_ptr_len` is a boolean parameter of every
  operation that may ask for a slice's length.
- **The handle** is the value `Deferred(flavour, ptr)`, with flavour `Shared` or
  `Exclusive`. The crate never writes memory itself; its callers write through
  the references it hands out. Those writes are the methods named `...Assign`.
  They change exactly the cells of the sub-region they address (`Machine.Write`).

The modules follow the crate's files:

- `PointerLength` follows `pointer_length.rs`;
- `SlicePointerIndex` follows `slice_pointer_index.rs`, for all seven index
  shapes;
- `DeferredHandle` follows `deferred.rs`;
- `CoreTraits` follows `core_traits_impl.rs`;
- `SliceLikeImpl` follows `slice_like_impl.rs`;
- `Scenarios` replays the crate's documented examples and unit tests on concrete
  buffers.

## Model

| member | source | states |
|---|---|---|
| PointerLength.Len | src/pointer_length.rs:15-48 | An array reports its `N` in every build. A slice reports its metadata length with `slice_ptr_len`, and panics without it. The result is Ok exactly when the length is available, and then equals the pointer's extent. |
| PointerLength.LenIgnoresAddress | src/pointer_length.rs:1-17 | The length depends on the target type and its metadata only, never on the address: the pointee is not consulted. |
| PointerLength.LenExamples | src/pointer_length.rs:5-10 | A 1024-element array reports 1024 in both builds. A 1024-element slice reports 1024 with the feature, and panics without it. |
| SlicePointerIndex.Sub | src/slice_pointer_index.rs:8-11 | The pointer an in-bounds index selects lies inside the original target. It starts at the span's first position, covers exactly the span's length, and is an element pointer for a position and a slice pointer for every range. |
| SlicePointerIndex.IntoSliceRange | src/slice_pointer_index.rs:368-378 | `a..=b` becomes an exclusive range ending at `b+1` that covers exactly the positions of `a..=b`. An exhausted or inverted range becomes the empty `b+1..b+1`. |
| SlicePointerIndex.Get | src/slice_pointer_index.rs:19-23 | `get` returns Some exactly when the index is in bounds, and then the selected sub-region. When the length is available it never panics; any panic it raises is the missing-length panic. |
| SlicePointerIndex.GetUnchecked | src/slice_pointer_index.rs:25-39 | For an in-bounds index the result is the selected sub-region. It panics only for `a..` on a slice without `slice_ptr_len`, because only `a..` asks for the length. |
| SlicePointerIndex.Index | src/slice_pointer_index.rs:128-147 | As written: when the length is available, `index` succeeds exactly for in-bounds indices and for the position equal to the length. It then returns the sub-region, or the one-past-the-end element pointer. |
| SlicePointerIndex.IndexCorrected | src/slice_pointer_index.rs:41-49 | The panicking `index` with the position check as intended. It succeeds exactly when `get` returns Some, returns the same pointer, and that pointer lies inside the target. |
| SlicePointerIndex.IndexAgreesWithGet | src/slice_pointer_index.rs:192-212 | For every shape other than a single position, `index` succeeds exactly when `get` returns Some, and both yield the same pointer. This covers the shapes that delegate to ranges, by induction on the delegation. |
| SlicePointerIndex.DerivedPointersStayInside | src/slice_pointer_index.rs:8-11 | The trait's safety promise: if the input pointer is dereferenceable, then every pointer that `get`, `get_unchecked` (in bounds) and the corrected `index` return is dereferenceable and lies inside it. |
| SlicePointerIndex.PositionRules | src/slice_pointer_index.rs:94-147 | `get(i)` is the element at offset `i` iff `i < len`, and otherwise None. `index(i)` panics with the overflow failure iff `i > len`. |
| SlicePointerIndex.IndexAcceptsOnePastEnd | src/slice_pointer_index.rs:128-147 | `get(len)` is None. The as-written `index(len)` returns the element pointer at `len`, which lies outside the target. The corrected check panics. |
| SlicePointerIndex.RangeRules | src/slice_pointer_index.rs:150-212 | `get(a..b)` is None iff `a > b` or `b > len`. The order failure is checked before the length is asked for, and the end failure after it. In bounds, `index` returns what `get` returns. |
| SlicePointerIndex.RangeToIsRangeFromZero | src/slice_pointer_index.rs:214-251 | `..b` behaves as `0..b` in `get`, `get_unchecked` and `index`. |
| SlicePointerIndex.RangeFromIsRangeToLen | src/slice_pointer_index.rs:253-298 | `a..` behaves as `a..len`. Its `index` fails with the start failure exactly when `a > len`. |
| SlicePointerIndex.RangeFullRules | src/slice_pointer_index.rs:300-366 | `..` never panics and needs no length. A slice comes back unchanged; an array of N comes back as a slice of N at the same address. |
| SlicePointerIndex.RangeInclusiveRules | src/slice_pointer_index.rs:380-423 | `a..=usize::MAX` gives None from `get` and the end-overflow panic from `index`. Otherwise `a..=b` behaves as `a..b+1`, or, when empty, as `b+1..b+1`. |
| SlicePointerIndex.RangeToInclusiveIsFromZero | src/slice_pointer_index.rs:425-463 | `..=b` behaves as `0..=b`. |
| SlicePointerIndex.SliceWithoutLengthFeature | src/pointer_length.rs:31-40 | On a slice without `slice_ptr_len`, `get` answers only for `..`, an inverted `a..b` and an inclusive range ending at `usize::MAX`. `index` succeeds only for `..`. |
| DeferredHandle.New | src/deferred.rs:69-74 | `Deferred::new` makes a shared handle that stores the reference's address. |
| DeferredHandle.FromRaw | src/deferred.rs:120-130 | `from_raw` makes a shared handle that stores the given pointer unchanged. |
| DeferredHandle.NewMut | src/deferred.rs:149-154 | `Deferred::new_mut` makes an exclusive handle that stores the reference's address. |
| DeferredHandle.FromRawMut | src/deferred.rs:198-202 | `from_raw_mut` makes an exclusive handle that stores the given pointer unchanged. |
| DeferredHandle.CloneUnchecked | src/deferred.rs:267-271 | `clone_unchecked` gives a second exclusive handle to the same place. |
| DeferredHandle.IntoRef | src/deferred.rs:284-286 | `into_ref` gives a shared handle with the same pointer. |
| DeferredHandle.ConstructorsRoundTrip | src/deferred.rs:206-215 | Every constructor's pointer is what `as_ptr`/`as_mut_ptr` returns, and rebuilding a handle from its own pointer gives the same handle. |
| DeferredHandle.DerivedHandlesValid | src/deferred.rs:12-21 | A cloned or downgraded handle is dereferenceable whenever its source is. |
| CoreTraits.Clone | src/core_traits_impl.rs:7-15 | Only shared handles are `Clone`/`Copy`, and the copy equals the original. |
| CoreTraits.Deref | src/core_traits_impl.rs:23-38 | `deref` reads exactly the cells of the target, at the stored address. |
| CoreTraits.DerefMutAssign | src/core_traits_impl.rs:40-53 | An assignment through `deref_mut` overwrites exactly the target's cells. Afterwards `deref` reads the assigned values. |
| CoreTraits.Index | src/core_traits_impl.rs:79-93 | `h[idx]` is the as-written `index` on the handle's pointer. Its result lies inside the target, except for the one-past-the-end position. |
| CoreTraits.IndexMut | src/core_traits_impl.rs:95-106 | `index_mut` computes what `index` computes, on exclusive handles only. |
| CoreTraits.IndexMutAssign | src/core_traits_impl.rs:95-106 | An assignment `h[idx] = vals` succeeds exactly when the corrected `index` does. It then writes only the indexed sub-region, which lies inside the target. After a panic, nothing is written. |
| CoreTraits.Downgrade | src/core_traits_impl.rs:108-116 | The exclusive-to-shared `From` conversion keeps the address. |
| CoreTraits.FromRef | src/core_traits_impl.rs:118-126 | `From<&T>` makes a shared handle at the reference's address. |
| CoreTraits.FromMut | src/core_traits_impl.rs:128-136 | `From<&mut T>` makes an exclusive handle at the reference's address. |
| CoreTraits.ArrayToSlice | src/core_traits_impl.rs:138-163 | Each of the three array-to-slice conversions gives a slice of N at the same address. A shared handle cannot become exclusive. |
| CoreTraits.ConversionsKeepContents | src/core_traits_impl.rs:108-163 | A downgraded, widened or cloned handle dereferences to the same contents as its source. `into_ref` is the downgrade. |
| CoreTraits.IndexLengthsOn1024 | src/core_traits_impl.rs:174-253 | On a 1024-element array, or on a slice with the feature, the test's indices give these lengths: `..` 1024, `1001..` 23, `5..10` 5, `..10` 10, `..=10` 11, `5..=10` 6, `0..0` 0, `0..1` 1. Position 0 gives the first element. |
| SliceLikeImpl.Len | src/slice_like_impl.rs:76-78 | `len` is the pointer's length query, and equals the target's extent when it succeeds. |
| SliceLikeImpl.Get | src/slice_like_impl.rs:99-107 | `get` on the handle is the index's `get`, and its Some result lies inside the target. |
| SliceLikeImpl.GetUnchecked | src/slice_like_impl.rs:133-143 | For an in-bounds index, the result is the selected sub-region inside the target. It panics exactly for `a..` on a slice without `slice_ptr_len`, with the missing-length panic, and returns otherwise. |
| SliceLikeImpl.SplitAtUnchecked | src/slice_like_impl.rs:189-196 | For `mid <= len`, the halves are shared slices of `mid` elements at the start and `len - mid` elements at `addr + mid`. It panics exactly when the length is unavailable. |
| SliceLikeImpl.SplitAt | src/slice_like_impl.rs:243-248 | `split_at` succeeds iff the length is available and `mid <= len`, and then equals `split_at_unchecked`. Otherwise it panics: the assertion failure, or the missing-length panic first. |
| SliceLikeImpl.GetMut | src/slice_like_impl.rs:276-284 | `get_mut` computes what `get` computes, on exclusive handles only. |
| SliceLikeImpl.GetUncheckedMut | src/slice_like_impl.rs:314-322 | `get_unchecked_mut` computes what `get_unchecked` computes, on exclusive handles only. |
| SliceLikeImpl.SplitAtMutUnchecked | src/slice_like_impl.rs:359-366 | As `split_at_unchecked`, with exclusive halves. |
| SliceLikeImpl.SplitAtMut | src/slice_like_impl.rs:398-403 | As `split_at`, with exclusive halves. |
| SliceLikeImpl.SplitHalvesConcatenate | src/slice_like_impl.rs:145-150 | The halves cover `[0, mid)` and `[mid, len)`. They are disjoint, lie inside the target and are dereferenceable. Their contents concatenate to the target's contents. |
| SliceLikeImpl.SplitHalvesIndependent | src/slice_like_impl.rs:334-357 | A write anywhere inside one half of a split leaves the other half's contents unchanged. |
| SliceLikeImpl.GetMutAssign | src/slice_like_impl.rs:256-284 | `*x.get_mut(idx)? = vals` writes only the selected sub-region, which lies inside the target. Out of bounds, nothing is written. |
| SliceLikeImpl.GetUncheckedMutAssign | src/slice_like_impl.rs:286-322 | `*x.get_unchecked_mut(idx) = vals` writes only the selected sub-region, which lies inside the target. |
| Scenarios.GetOnThreeElements | src/slice_like_impl.rs:90-97 | On `[10, 40, 30]`, `get(1)` is 40 and `get(0..2)` is `[10, 40]`. `get(3)` and `get(0..4)` are None. |
| Scenarios.GetUncheckedOnThreeElements | src/slice_like_impl.rs:124-131 | On `[1, 2, 4]`, `get_unchecked(1)` is 2. |
| Scenarios.SplitAtSix | src/slice_like_impl.rs:211-241 | On `[1, 2, 3, 4, 5, 6]`, splits at 0, 2 and 6 give the documented halves, and a split at 7 panics. |
| Scenarios.SplitAtMutHalves | src/slice_like_impl.rs:380-396 | `split_at_mut(2)` of `[1, 0, 3, 0, 5, 6]` reads `[1, 0]` and `[3, 0, 5, 6]`. |
| Scenarios.SplitAtMutThenWrite | src/slice_like_impl.rs:380-389 | Then `left[1] = 2` and `right[1] = 4` give `[1, 2, 3, 4, 5, 6]` in the `slice_ptr_len` build. |
| Scenarios.SplitAtMutWriteWithoutLengthFeature | src/slice_like_impl.rs:26-33 | Without the feature, indexing the slice half panics and the buffer is unchanged. |
| Scenarios.GetMutThenWrite | src/slice_like_impl.rs:264-274 | `get_mut(1) = 42` on `[0, 1, 2]` gives `[0, 42, 2]`. `get_unchecked_mut(1) = 13` on `[1, 2, 4]` gives `[1, 13, 4]`. |
| Scenarios.ThreeHandlesOn300 | src/slice_like_impl.rs:414-425 | Filling `c[200..]` with ones leaves `b[100..200]` and `a[0..100]` zero. |
| Scenarios.CloneUncheckedSharesTarget | src/deferred.rs:294-310 | A write through a `clone_unchecked` copy is seen through the original and in the buffer. |
| Scenarios.OnePastEndOnThreeElements | src/slice_pointer_index.rs:128-137 | On `[10, 40, 30]`, `get(3)` is None, the as-written `h[3]` returns the pointer just past the array, and the corrected check panics. |

## Left out

- Stacked Borrows, lifetimes and the aliasing discipline the crate documents are left out. Dafny has no notion of a live reference. The model records which cells each reference covers (`Within`, `Disjoint`) but not when references are live.
- The `Send` and `Sync` implementations (src/core_traits_impl.rs:17-21) are left out: the model has no threads.
- The `fmt::Pointer` implementations are left out, as formatting output.
- The `Defer`/`DeferMut` traits and the `defer!`/`defer_mut!` macros (src/defer.rs, src/defer_mut.rs) are not part of this model. They only build handles at a place's address, which the constructors here do.
- `unsize` (the `coerce_unsized` feature) is left out: it is a type-level coercion that keeps the pointer. The stable array-to-slice `From` conversions are modelled instead.
- The size and layout tests (`size_of`, `cast_to_ptr`) are left out: the model has no byte layout.
- The `Reference` and `SliceLike` helper traits (src/reference.rs, src/slice_like.rs) appear only as the `Flavour` tag and the `Pointee` kinds.
- Panic messages are not modelled; the panic kind and its arguments are.
- CoreTraits.IndexMutAssign: `copy_from_slice` with a wrong-length source panics in Rust. Here a length mismatch writes nothing and is not reported as a panic. The same holds for SliceLikeImpl.GetMutAssign, SliceLikeImpl.GetUncheckedMutAssign and CoreTraits.DerefMutAssign, which requires the right length.
- CoreTraits.IndexMutAssign uses the corrected position check, so the model never writes one past the end. The as-written check is modelled by SlicePointerIndex.Index and CoreTraits.Index.
- DeferredHandle.FromRaw and DeferredHandle.FromRawMut check nothing, as in the crate. Dereferenceability is a precondition of `Deref` and of every write instead.
- Pointer provenance, alignment and `isize::MAX` object size limits are not modelled. Addresses are unbounded naturals, and lengths are bounded by `usize::MAX`.

## Findings

| source | as written | input that shows it | evidently intended | confidence | as-written member | corrected member |
|---|---|---|---|---|---|---|
| src/slice_pointer_index.rs:128-147 | `index`/`index_mut` for a `usize` position panic only when `i > len` | `Deferred::from(&[10, 40, 30])[3]`: `get(3)` is None, but `index(3)` returns the element pointer at offset 3, one past the array, and `&*` of it reads out of bounds | panic when `i >= len`, as `get` rejects it and as the panic's own wording (index out of range for a slice of that length) describes | not executed | SlicePointerIndex.IndexAcceptsOnePastEnd | SlicePointerIndex.IndexCorrected |
