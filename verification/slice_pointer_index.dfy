/**
  The index-without-dereference protocol: each index shape turns a pointer to a
  whole array or slice into a pointer to one element or one sub-slice, by
  comparing `start`, `end` and the length and then doing offset arithmetic. No
  function here takes memory, so none of them reads through either pointer.

  Three variants per shape: `Get` answers None when out of bounds, `GetUnchecked`
  trusts its caller to be in bounds, and `Index` panics. The pointer-level
  `get_mut`, `get_unchecked_mut` and `index_mut` run the same code on a `*mut`
  pointer and are the same functions here.
*/
module SlicePointerIndex {
  import opened Machine
  import PointerLength

  /** The index shapes: `i`, `a..b`, `..b`, `a..`, `..`, `a..=b`, `..=b`.
      An inclusive range may have been exhausted by iteration. */
  datatype SliceIndex =
    | Position(i: Usize)
    | Range(start: Usize, end: Usize)
    | RangeTo(end: Usize)
    | RangeFrom(start: Usize)
    | RangeFull
    | RangeInclusive(start: Usize, end: Usize, exhausted: bool)
    | RangeToInclusive(end: Usize)

  /** The half-open run of positions `[a, b)` a shape denotes on a target of `n`
      elements. An empty inclusive range denotes `[end + 1, end + 1)`, so that its
      end is still bounds-checked. */
  function Span(idx: SliceIndex, n: Usize): (int, int)
  {
    match idx
    case Position(i) => (i, i + 1)
    case Range(a, b) => (a, b)
    case RangeTo(b) => (0, b)
    case RangeFrom(a) => (a, n)
    case RangeFull => (0, n)
    case RangeInclusive(a, b, exhausted) =>
      if exhausted || a > b then (b + 1, b + 1) else (a, b + 1)
    case RangeToInclusive(b) => (0, b + 1)
  }

  /** The documented caller guarantee `0 <= start <= end <= length`. */
  predicate InBounds(idx: SliceIndex, n: Usize)
  {
    Span(idx, n).0 <= Span(idx, n).1 <= n
  }

  /** The element pointer at offset `i` (`(slice as *const T).add(i)`). */
  function ElementAt(p: Ptr, i: Usize): Ptr
  {
    Ptr(p.addr + i, Value)
  }

  /** The sub-slice pointer for positions `[a, b)` (`slice_from_raw_parts`). */
  function SubSlice(p: Ptr, a: nat, b: nat): Ptr
    requires a <= b && b - a <= USIZE_MAX
  {
    Ptr(p.addr + a, SliceOf(b - a))
  }

  /** The whole target as a slice: a slice pointer unchanged, an array pointer
      unsized to a slice of its N elements. */
  function Full(p: Ptr): Ptr
    requires SliceLike(p)
  {
    Ptr(p.addr, SliceOf(RegionLen(p)))
  }

  /** The pointer an in-bounds index denotes. */
  function Sub(idx: SliceIndex, p: Ptr): (q: Ptr)
    requires SliceLike(p) && InBounds(idx, RegionLen(p))
    ensures Within(q, p)
    ensures q.addr == p.addr + Span(idx, RegionLen(p)).0
    ensures q.pointee == if idx.Position? then Value else SliceOf(Extent(q))
    ensures Extent(q) == Span(idx, RegionLen(p)).1 - Span(idx, RegionLen(p)).0
  {
    if idx.Position? then ElementAt(p, idx.i)
    else SubSlice(p, Span(idx, RegionLen(p)).0, Span(idx, RegionLen(p)).1)
  }

  /** Two range shapes with the same span are in bounds together and then
      select the same pointer. */
  lemma SameSpan(idx: SliceIndex, jdx: SliceIndex, p: Ptr)
    requires SliceLike(p) && !idx.Position? && !jdx.Position?
    requires Span(idx, RegionLen(p)) == Span(jdx, RegionLen(p))
    ensures InBounds(idx, RegionLen(p)) == InBounds(jdx, RegionLen(p))
    ensures InBounds(idx, RegionLen(p)) ==> Sub(idx, p) == Sub(jdx, p)
  {
  }

  /** Shapes that delegate to another shape are ranked above it. */
  function Rank(idx: SliceIndex): nat
  {
    match idx
    case RangeTo(_) => 1
    case RangeFrom(_) => 1
    case RangeInclusive(_, _, _) => 1
    case RangeToInclusive(_) => 2
    case _ => 0
  }

  /** `into_slice_range`: the half-open range with the same positions as an
      inclusive range whose end is below `usize::MAX`. */
  function IntoSliceRange(start: Usize, end: Usize, exhausted: bool): (r: SliceIndex)
    requires end < USIZE_MAX
    ensures r.Range? && r.start <= r.end == end + 1
    ensures forall k :: Covers(r.start, r.end, k) <==> !exhausted && Covers(start, end + 1, k)
  {
    var exclusiveEnd := end + 1;
    Range(if exhausted || start > end then exclusiveEnd else start, exclusiveEnd)
  }

  /** Position `k` lies in `[a, b)`. */
  predicate Covers(a: int, b: int, k: int)
  {
    a <= k < b
  }

  /** `get`/`get_mut`: the pointer the index denotes when in bounds, None when
      not, and a panic only when the length is needed and cannot be obtained. */
  function Get(idx: SliceIndex, p: Ptr, slicePtrLen: bool): (r: Outcome<Option<Ptr>>)
    requires SliceLike(p)
    ensures r.Ok? ==> r.value == if InBounds(idx, RegionLen(p)) then Some(Sub(idx, p)) else None
    ensures PointerLength.Available(p, slicePtrLen) ==> r.Ok?
    ensures r.Panicked? ==> r.panic == SlicePtrLenUnavailable
    decreases Rank(idx)
  {
    match idx
    case Position(i) =>
      var n :- PointerLength.Len(p, slicePtrLen);
      if i < n then Ok(Some(GetUnchecked(idx, p, slicePtrLen).value)) else Ok(None)
    case Range(a, b) =>
      if a > b then Ok(None)
      else
        var n :- PointerLength.Len(p, slicePtrLen);
        if b > n then Ok(None) else Ok(Some(GetUnchecked(idx, p, slicePtrLen).value))
    case RangeTo(b) => SameSpan(idx, Range(0, b), p); Get(Range(0, b), p, slicePtrLen)
    case RangeFrom(a) =>
      var n :- PointerLength.Len(p, slicePtrLen);
      SameSpan(idx, Range(a, n), p);
      Get(Range(a, n), p, slicePtrLen)
    case RangeFull => Ok(Some(Full(p)))
    case RangeInclusive(a, b, exhausted) =>
      if b == USIZE_MAX then Ok(None)
      else
        SameSpan(idx, IntoSliceRange(a, b, exhausted), p);
        Get(IntoSliceRange(a, b, exhausted), p, slicePtrLen)
    case RangeToInclusive(b) => SameSpan(idx, RangeInclusive(0, b, false), p); Get(RangeInclusive(0, b, false), p, slicePtrLen)
  }

  /** `get_unchecked`/`get_unchecked_mut`: under the caller's guarantee that the
      index is in bounds, the pointer it denotes. Only `a..` asks for the length,
      so only `a..` on a slice in a build without the feature panics. */
  function GetUnchecked(idx: SliceIndex, p: Ptr, slicePtrLen: bool): (r: Outcome<Ptr>)
    requires SliceLike(p) && InBounds(idx, RegionLen(p))
    ensures r.Ok? ==> r.value == Sub(idx, p)
    ensures r.Panicked? <==> idx.RangeFrom? && !PointerLength.Available(p, slicePtrLen)
    ensures r.Panicked? ==> r.panic == SlicePtrLenUnavailable
    decreases Rank(idx)
  {
    match idx
    case Position(i) => Ok(ElementAt(p, i))
    case Range(a, b) => Ok(SubSlice(p, a, b))
    case RangeTo(b) => GetUnchecked(Range(0, b), p, slicePtrLen)
    case RangeFrom(a) =>
      var n :- PointerLength.Len(p, slicePtrLen);
      GetUnchecked(Range(a, n), p, slicePtrLen)
    case RangeFull => Ok(Full(p))
    case RangeInclusive(a, b, exhausted) => GetUnchecked(IntoSliceRange(a, b, exhausted), p, slicePtrLen)
    case RangeToInclusive(b) => GetUnchecked(RangeInclusive(0, b, false), p, slicePtrLen)
  }

  /** `index`/`index_mut` as written: panics on an out-of-bounds index, except
      that a position equal to the length is let through and yields the
      one-past-the-end element pointer. */
  function Index(idx: SliceIndex, p: Ptr, slicePtrLen: bool): (r: Outcome<Ptr>)
    requires SliceLike(p)
    ensures r.Ok? ==>
      if InBounds(idx, RegionLen(p)) then r.value == Sub(idx, p)
      else idx == Position(RegionLen(p)) && r.value == ElementAt(p, RegionLen(p))
    ensures PointerLength.Available(p, slicePtrLen) ==>
      (r.Ok? <==> InBounds(idx, RegionLen(p)) || idx == Position(RegionLen(p)))
    decreases Rank(idx)
  {
    match idx
    case Position(i) =>
      var n :- PointerLength.Len(p, slicePtrLen);
      if i > n then Panicked(IndexOverflowFail(i, n))
      // the body of `get_unchecked`, reached here also for i == n
      else Ok(ElementAt(p, i))
    case Range(a, b) =>
      if a > b then Panicked(IndexOrderFail(a, b))
      else
        var n :- PointerLength.Len(p, slicePtrLen);
        if b > n then Panicked(EndIndexLenFail(b, n))
        else GetUnchecked(idx, p, slicePtrLen)
    case RangeTo(b) => SameSpan(idx, Range(0, b), p); Index(Range(0, b), p, slicePtrLen)
    case RangeFrom(a) =>
      var n :- PointerLength.Len(p, slicePtrLen);
      if a > n then Panicked(StartIndexLenFail(a, n))
      else GetUnchecked(idx, p, slicePtrLen)
    case RangeFull => Ok(Full(p))
    case RangeInclusive(a, b, exhausted) =>
      if b == USIZE_MAX then Panicked(EndIndexOverflowFail)
      else
        SameSpan(idx, IntoSliceRange(a, b, exhausted), p);
        Index(IntoSliceRange(a, b, exhausted), p, slicePtrLen)
    case RangeToInclusive(b) => SameSpan(idx, RangeInclusive(0, b, false), p); Index(RangeInclusive(0, b, false), p, slicePtrLen)
  }

  /** `index` with the position check the panic message describes (`i >= len`
      is out of range). It succeeds exactly when `Get` finds the index in
      bounds, and then returns the same pointer. */
  function IndexCorrected(idx: SliceIndex, p: Ptr, slicePtrLen: bool): (r: Outcome<Ptr>)
    requires SliceLike(p)
    ensures r.Ok? <==> Get(idx, p, slicePtrLen).Ok? && Get(idx, p, slicePtrLen).value.Some?
    ensures r.Ok? ==> Get(idx, p, slicePtrLen) == Ok(Some(r.value)) && Within(r.value, p)
  {
    if idx.Position? then
      var n :- PointerLength.Len(p, slicePtrLen);
      if idx.i >= n then Panicked(IndexOverflowFail(idx.i, n))
      else Ok(ElementAt(p, idx.i))
    else
      IndexAgreesWithGet(idx, p, slicePtrLen);
      Index(idx, p, slicePtrLen)
  }

  /** Away from single positions, the panicking `index` succeeds exactly when
      `get` returns Some, and with the same pointer. */
  lemma {:induction false} IndexAgreesWithGet(idx: SliceIndex, p: Ptr, slicePtrLen: bool)
    requires SliceLike(p) && !idx.Position?
    ensures Index(idx, p, slicePtrLen).Ok? <==>
      Get(idx, p, slicePtrLen).Ok? && Get(idx, p, slicePtrLen).value.Some?
    ensures Index(idx, p, slicePtrLen).Ok? ==>
      Get(idx, p, slicePtrLen).value == Some(Index(idx, p, slicePtrLen).value)
    decreases Rank(idx)
  {
    match idx
    case Range(a, b) =>
    case RangeTo(b) => IndexAgreesWithGet(Range(0, b), p, slicePtrLen);
    case RangeFrom(a) =>
      if PointerLength.Available(p, slicePtrLen) {
        IndexAgreesWithGet(Range(a, RegionLen(p)), p, slicePtrLen);
      }
    case RangeFull =>
    case RangeInclusive(a, b, exhausted) =>
      if b < USIZE_MAX {
        IndexAgreesWithGet(IntoSliceRange(a, b, exhausted), p, slicePtrLen);
      }
    case RangeToInclusive(b) => IndexAgreesWithGet(RangeInclusive(0, b, false), p, slicePtrLen);
  }

  /** The trait's safety promise: from a pointer that is safe to dereference,
      every variant yields a pointer that is safe too, inside the original target. */
  lemma DerivedPointersStayInside(idx: SliceIndex, p: Ptr, slicePtrLen: bool, memLength: nat)
    requires SliceLike(p) && ValidIn(p, memLength)
    ensures Get(idx, p, slicePtrLen).Ok? && Get(idx, p, slicePtrLen).value.Some? ==>
      var q := Get(idx, p, slicePtrLen).value.value; Within(q, p) && ValidIn(q, memLength)
    ensures InBounds(idx, RegionLen(p)) && GetUnchecked(idx, p, slicePtrLen).Ok? ==>
      var q := GetUnchecked(idx, p, slicePtrLen).value; Within(q, p) && ValidIn(q, memLength)
    ensures IndexCorrected(idx, p, slicePtrLen).Ok? ==>
      var q := IndexCorrected(idx, p, slicePtrLen).value; Within(q, p) && ValidIn(q, memLength)
  {
  }

  /** A position `i`: `get` returns the element at offset `i` exactly when
      `i < len`; `index` panics with the out-of-range failure only when `i > len`. */
  lemma PositionRules(i: Usize, p: Ptr, slicePtrLen: bool)
    requires SliceLike(p) && PointerLength.Available(p, slicePtrLen)
    ensures Get(Position(i), p, slicePtrLen) ==
      if i < RegionLen(p) then Ok(Some(Ptr(p.addr + i, Value))) else Ok(None)
    ensures Index(Position(i), p, slicePtrLen) ==
      if i > RegionLen(p) then Panicked(IndexOverflowFail(i, RegionLen(p))) else Ok(Ptr(p.addr + i, Value))
  {
  }

  /** The as-written `index` accepts the position equal to the length, which
      `get` rejects, and the pointer it returns lies outside the target. */
  lemma {:induction false} IndexAcceptsOnePastEnd(p: Ptr, slicePtrLen: bool)
    requires SliceLike(p) && PointerLength.Available(p, slicePtrLen)
    ensures Get(Position(RegionLen(p)), p, slicePtrLen) == Ok(None)
    ensures Index(Position(RegionLen(p)), p, slicePtrLen) == Ok(ElementAt(p, RegionLen(p)))
    ensures !Within(ElementAt(p, RegionLen(p)), p)
    ensures IndexCorrected(Position(RegionLen(p)), p, slicePtrLen)
            == Panicked(IndexOverflowFail(RegionLen(p), RegionLen(p)))
  {
    PositionRules(RegionLen(p), p, slicePtrLen);
  }

  /** `a..b`: `get` is None exactly when `a > b` or `b > len`, and otherwise the
      slice of `b - a` elements at offset `a`. `index` reports the order failure
      before it asks for the length, then the end failure, and otherwise returns
      what `get` returns. */
  lemma RangeRules(a: Usize, b: Usize, p: Ptr, slicePtrLen: bool)
    requires SliceLike(p)
    ensures a > b ==> Get(Range(a, b), p, slicePtrLen) == Ok(None)
    ensures a > b ==> Index(Range(a, b), p, slicePtrLen) == Panicked(IndexOrderFail(a, b))
    ensures PointerLength.Available(p, slicePtrLen) ==>
      Get(Range(a, b), p, slicePtrLen) ==
        if a > b || b > RegionLen(p) then Ok(None) else Ok(Some(Ptr(p.addr + a, SliceOf(b - a))))
    ensures PointerLength.Available(p, slicePtrLen) && a <= b && b > RegionLen(p) ==>
      Index(Range(a, b), p, slicePtrLen) == Panicked(EndIndexLenFail(b, RegionLen(p)))
    ensures PointerLength.Available(p, slicePtrLen) && a <= b <= RegionLen(p) ==>
      Get(Range(a, b), p, slicePtrLen) == Ok(Some(Index(Range(a, b), p, slicePtrLen).value))
  {
  }

  /** `..b` is `0..b` in every variant. */
  lemma RangeToIsRangeFromZero(b: Usize, p: Ptr, slicePtrLen: bool)
    requires SliceLike(p)
    ensures Get(RangeTo(b), p, slicePtrLen) == Get(Range(0, b), p, slicePtrLen)
    ensures Index(RangeTo(b), p, slicePtrLen) == Index(Range(0, b), p, slicePtrLen)
    ensures InBounds(RangeTo(b), RegionLen(p)) ==>
      GetUnchecked(RangeTo(b), p, slicePtrLen) == GetUnchecked(Range(0, b), p, slicePtrLen)
  {
  }

  /** `a..` is `a..len` in every variant; its `index` fails, with the
      start-out-of-range failure, exactly when `a > len`. */
  lemma RangeFromIsRangeToLen(a: Usize, p: Ptr, slicePtrLen: bool)
    requires SliceLike(p) && PointerLength.Available(p, slicePtrLen)
    ensures Get(RangeFrom(a), p, slicePtrLen) == Get(Range(a, RegionLen(p)), p, slicePtrLen)
    ensures Index(RangeFrom(a), p, slicePtrLen) ==
      if a > RegionLen(p) then Panicked(StartIndexLenFail(a, RegionLen(p)))
      else Index(Range(a, RegionLen(p)), p, slicePtrLen)
    ensures a <= RegionLen(p) ==>
      GetUnchecked(RangeFrom(a), p, slicePtrLen) == GetUnchecked(Range(a, RegionLen(p)), p, slicePtrLen)
  {
  }

  /** `..` never fails, needs no length, and returns the target unchanged as a
      slice: a slice pointer as it is, an array of N as a slice of N at the same
      address. */
  lemma RangeFullRules(p: Ptr, slicePtrLen: bool)
    requires SliceLike(p)
    ensures Get(RangeFull, p, slicePtrLen) == Ok(Some(Full(p)))
    ensures GetUnchecked(RangeFull, p, slicePtrLen) == Ok(Full(p))
    ensures Index(RangeFull, p, slicePtrLen) == Ok(Full(p))
    ensures p.pointee.SliceOf? ==> Full(p) == p
    ensures p.pointee.ArrayOf? ==> Full(p) == Ptr(p.addr, SliceOf(p.pointee.n))
  {
  }

  /** `a..=b`: when `b` is `usize::MAX`, `get` is None and `index` panics with
      the overflow failure; otherwise it behaves as `a..b+1`, or, when empty, as
      the empty range `b+1..b+1`, which is still bounds-checked on `b+1`. */
  lemma RangeInclusiveRules(a: Usize, b: Usize, exhausted: bool, p: Ptr, slicePtrLen: bool)
    requires SliceLike(p)
    ensures b == USIZE_MAX ==> Get(RangeInclusive(a, b, exhausted), p, slicePtrLen) == Ok(None)
    ensures b == USIZE_MAX ==> Index(RangeInclusive(a, b, exhausted), p, slicePtrLen) == Panicked(EndIndexOverflowFail)
    ensures b < USIZE_MAX && !exhausted && a <= b ==>
      && Get(RangeInclusive(a, b, exhausted), p, slicePtrLen) == Get(Range(a, b + 1), p, slicePtrLen)
      && Index(RangeInclusive(a, b, exhausted), p, slicePtrLen) == Index(Range(a, b + 1), p, slicePtrLen)
    ensures b < USIZE_MAX && (exhausted || a > b) ==>
      && Get(RangeInclusive(a, b, exhausted), p, slicePtrLen) == Get(Range(b + 1, b + 1), p, slicePtrLen)
      && Index(RangeInclusive(a, b, exhausted), p, slicePtrLen) == Index(Range(b + 1, b + 1), p, slicePtrLen)
    ensures b < USIZE_MAX && InBounds(RangeInclusive(a, b, exhausted), RegionLen(p)) ==>
      GetUnchecked(RangeInclusive(a, b, exhausted), p, slicePtrLen)
      == GetUnchecked(IntoSliceRange(a, b, exhausted), p, slicePtrLen)
  {
  }

  /** `..=b` is `0..=b` in every variant. */
  lemma RangeToInclusiveIsFromZero(b: Usize, p: Ptr, slicePtrLen: bool)
    requires SliceLike(p)
    ensures Get(RangeToInclusive(b), p, slicePtrLen) == Get(RangeInclusive(0, b, false), p, slicePtrLen)
    ensures Index(RangeToInclusive(b), p, slicePtrLen) == Index(RangeInclusive(0, b, false), p, slicePtrLen)
    ensures InBounds(RangeToInclusive(b), RegionLen(p)) ==>
      GetUnchecked(RangeToInclusive(b), p, slicePtrLen)
      == GetUnchecked(RangeInclusive(0, b, false), p, slicePtrLen)
  {
  }

  /** On a slice in a build without `slice_ptr_len`, `get` answers only when it
      can decide without the length (`..`, an inverted `a..b`, an inclusive
      range ending at `usize::MAX`), and `index` succeeds only for `..`. */
  lemma {:induction false} SliceWithoutLengthFeature(idx: SliceIndex, p: Ptr)
    requires p.pointee.SliceOf?
    ensures Get(idx, p, false).Ok? <==>
      || idx.RangeFull?
      || (idx.Range? && idx.start > idx.end)
      || ((idx.RangeInclusive? || idx.RangeToInclusive?) && idx.end == USIZE_MAX)
    ensures Index(idx, p, false).Ok? <==> idx.RangeFull?
    decreases Rank(idx)
  {
    match idx
    case Position(_) =>
    case Range(_, _) =>
    case RangeTo(b) => SliceWithoutLengthFeature(Range(0, b), p);
    case RangeFrom(_) =>
    case RangeFull =>
    case RangeInclusive(a, b, exhausted) =>
      if b < USIZE_MAX {
        SliceWithoutLengthFeature(IntoSliceRange(a, b, exhausted), p);
      }
    case RangeToInclusive(b) => SliceWithoutLengthFeature(RangeInclusive(0, b, false), p);
  }
}
