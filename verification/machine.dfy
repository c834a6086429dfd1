/**
  The machine vocabulary every other module speaks: Rust's `usize`, raw pointers
  into one backing buffer, the ways a call can panic, and the loads and stores a
  live reference performs once a deferred handle has been dereferenced.

  The backing buffer is the only memory there is: an address is an index into it,
  so a pointer is non-null and aligned by construction, and "dangling" means
  "reaches past the end of the buffer".
*/
module Machine {

  /** `usize::MAX` on a 64-bit target. */
  const USIZE_MAX: int := 0xFFFF_FFFF_FFFF_FFFF

  /** Rust's `usize`. */
  type Usize = x: int | 0 <= x <= USIZE_MAX

  datatype Option<+V> = None | Some(value: V)

  /** Every panic the modelled code can raise. The first five are the cold helpers
      of the slice-pointer indexing protocol; the last two come from the length
      query on slices and from `split_at`'s assertion. */
  datatype Panic =
    | StartIndexLenFail(index: Usize, len: Usize)  // range start index .. out of range
    | EndIndexLenFail(index: Usize, len: Usize)    // range end index .. out of range
    | IndexOrderFail(index: Usize, end: Usize)     // slice pointer index starts at .. but ends at ..
    | EndIndexOverflowFail                         // attempted to index .. up to maximum usize
    | IndexOverflowFail(index: Usize, len: Usize)  // index .. out of range
    | SlicePtrLenUnavailable                       // slice length needs the `slice_ptr_len` feature
    | SplitMidAssertFail                           // assert!(mid <= self.len())

  /** The result of a call that either returns a value or panics. */
  datatype Outcome<+R> = Ok(value: R) | Panicked(panic: Panic) {
    predicate IsFailure() { Panicked? }
    function PropagateFailure<U>(): Outcome<U>
      requires Panicked?
    {
      Panicked(panic)
    }
    function Extract(): R
      requires Ok?
    {
      value
    }
  }

  /** What a raw pointer points to: one sized value (a single buffer cell), an
      array `[T; N]` whose `N` is part of the type, or a slice `[T]` whose length
      travels in the (fat) pointer's metadata. */
  datatype Pointee =
    | Value
    | ArrayOf(n: Usize)
    | SliceOf(len: Usize)

  /** A raw pointer: an address in the backing buffer and the type of its target. */
  datatype Ptr = Ptr(addr: nat, pointee: Pointee)

  /** Number of buffer cells the pointee occupies. */
  function Extent(p: Ptr): nat
  {
    match p.pointee
    case Value => 1
    case ArrayOf(n) => n
    case SliceOf(len) => len
  }

  /** Arrays and slices, the targets the indexing protocol works on. */
  predicate SliceLike(p: Ptr)
  {
    !p.pointee.Value?
  }

  /** The element count of an array or slice target, whatever the build. */
  function RegionLen(p: Ptr): (n: Usize)
    requires SliceLike(p)
    ensures n == Extent(p)
  {
    if p.pointee.ArrayOf? then p.pointee.n else p.pointee.len
  }

  /** The pointer addresses initialised cells of a buffer of `memLength` cells. */
  predicate ValidIn(p: Ptr, memLength: nat)
  {
    p.addr + Extent(p) <= memLength
  }

  /** `q` addresses only cells that `p` addresses. */
  predicate Within(q: Ptr, p: Ptr)
  {
    p.addr <= q.addr && q.addr + Extent(q) <= p.addr + Extent(p)
  }

  /** `p` and `q` share no cell. */
  predicate Disjoint(p: Ptr, q: Ptr)
  {
    p.addr + Extent(p) <= q.addr || q.addr + Extent(q) <= p.addr
  }

  /** The cells `p` addresses in the buffer contents `s`. */
  function View<T>(s: seq<T>, p: Ptr): (r: seq<T>)
    requires ValidIn(p, |s|)
    ensures |r| == Extent(p)
    ensures forall k :: 0 <= k < |r| ==> r[k] == s[p.addr + k]
  {
    s[p.addr .. p.addr + Extent(p)]
  }

  /** Reading through a live reference to `p`. */
  function Load<T>(mem: array<T>, p: Ptr): (r: seq<T>)
    reads mem
    requires ValidIn(p, mem.Length)
    ensures |r| == Extent(p)
    ensures forall k :: 0 <= k < |r| ==> r[k] == mem[p.addr + k]
  {
    View(mem[..], p)
  }

  /** The buffer contents `s` after the cells of `p` are assigned `vals`. */
  function Overwrite<T>(s: seq<T>, p: Ptr, vals: seq<T>): (r: seq<T>)
    requires ValidIn(p, |s|) && |vals| == Extent(p)
    ensures |r| == |s|
    ensures forall k :: 0 <= k < |s| ==>
      r[k] == if p.addr <= k < p.addr + |vals| then vals[k - p.addr] else s[k]
  {
    s[..p.addr] + vals + s[p.addr + |vals|..]
  }

  /** Assigning through a live exclusive reference to `p` (`*r = v`, or
      `copy_from_slice` on a sub-slice). The crate never writes memory itself;
      this is the write its callers perform once a handle is dereferenced. */
  method Write<T>(mem: array<T>, p: Ptr, vals: seq<T>)
    requires ValidIn(p, mem.Length) && |vals| == Extent(p)
    modifies mem
    ensures mem[..] == Overwrite(old(mem[..]), p, vals)
  {
    forall k | p.addr <= k < p.addr + |vals| {
      mem[k] := vals[k - p.addr];
    }
  }

  /** After a write to `p`, a pointer inside `p` sees its share of the written
      values and a pointer disjoint from `p` sees what it saw before. */
  lemma {:induction false} ViewAfterOverwrite<T>(s: seq<T>, p: Ptr, vals: seq<T>, q: Ptr)
    requires ValidIn(p, |s|) && |vals| == Extent(p) && ValidIn(q, |s|)
    ensures Within(q, p) ==>
      View(Overwrite(s, p, vals), q) == vals[q.addr - p.addr .. q.addr - p.addr + Extent(q)]
    ensures Disjoint(p, q) ==> View(Overwrite(s, p, vals), q) == View(s, q)
  {
    var r := Overwrite(s, p, vals);
    if Within(q, p) {
      var w := vals[q.addr - p.addr .. q.addr - p.addr + Extent(q)];
      assert |View(r, q)| == |w|;
      forall k | 0 <= k < |w| ensures View(r, q)[k] == w[k] {
        assert View(r, q)[k] == r[q.addr + k];
      }
    }
    if Disjoint(p, q) {
      forall k | 0 <= k < Extent(q) ensures View(r, q)[k] == View(s, q)[k] {
        assert View(r, q)[k] == r[q.addr + k];
      }
    }
  }

  /** Splitting a region at `mid` and reading both parts gives back the region. */
  lemma {:induction false} ViewSplits<T>(s: seq<T>, p: Ptr, mid: nat)
    requires ValidIn(p, |s|) && mid <= Extent(p) && Extent(p) <= USIZE_MAX
    ensures View(s, Ptr(p.addr, SliceOf(mid))) + View(s, Ptr(p.addr + mid, SliceOf(Extent(p) - mid)))
            == View(s, p)
  {
    var left := View(s, Ptr(p.addr, SliceOf(mid)));
    var right := View(s, Ptr(p.addr + mid, SliceOf(Extent(p) - mid)));
    forall k | 0 <= k < Extent(p) ensures (left + right)[k] == View(s, p)[k] {
      if k < mid {
        assert (left + right)[k] == left[k];
      } else {
        assert (left + right)[k] == right[k - mid];
      }
    }
  }
}
