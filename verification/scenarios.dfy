/**
  The crate's documented examples and unit tests, replayed on the model: each
  method builds a fresh buffer, goes through the handle operations the example
  uses, and states the values the example asserts. Examples on arrays are
  replayed in the stable build (no `slice_ptr_len`), which arrays do not need;
  examples that index slice handles are replayed in the `slice_ptr_len` build.
*/
module Scenarios {
  import opened Machine
  import opened DeferredHandle
  import SPI = SlicePointerIndex
  import CoreTraits
  import SliceLikeImpl

  /** The halves of a split of a handle to a whole buffer read as the buffer's
      prefix and suffix. */
  lemma SplitReads<T>(mem: array<T>, d: Deferred, mid: Usize, halves: (Deferred, Deferred), f: Flavour)
    requires mem.Length <= USIZE_MAX && d.ptr == Ptr(0, ArrayOf(mem.Length)) && mid <= mem.Length
    requires SliceLikeImpl.SplitsAt(d, mid, halves, f)
    ensures Valid(halves.0, mem.Length) && Valid(halves.1, mem.Length)
    ensures CoreTraits.Deref(mem, halves.0) == mem[..mid] && CoreTraits.Deref(mem, halves.1) == mem[mid..]
  {
    SliceLikeImpl.SplitHalvesConcatenate(mem, d, mid, halves, f);
  }

  /** A slice of a literal, element by element. */
  lemma SliceOfLiteral(s: seq<int>, a: nat, b: nat)
    requires a <= b <= |s|
    ensures s[a..b] == seq(b - a, k requires 0 <= k < b - a => s[a + k])
  {
  }

  /** `get` on `[10, 40, 30]`: position 1 is 40, `0..2` is `[10, 40]`, position
      3 and `0..4` are out of bounds. */
  method GetOnThreeElements() returns (at1: seq<int>, first2: seq<int>, at3: Outcome<Option<Ptr>>, upTo4: Outcome<Option<Ptr>>)
    ensures at1 == [40] && first2 == [10, 40]
    ensures at3 == Ok(None) && upTo4 == Ok(None)
  {
    var mem := new int[3];
    mem[0], mem[1], mem[2] := 10, 40, 30;
    var v := CoreTraits.FromRef(Ptr(0, ArrayOf(3)));
    var g := SliceLikeImpl.Get(v, SPI.Position(1), false);
    assert g == Ok(Some(Ptr(1, Value))) by { SPI.PositionRules(1, v.ptr, false); }
    at1 := Load(mem, g.value.value);
    assert at1 == [40] by { assert at1[0] == 40; }
    g := SliceLikeImpl.Get(v, SPI.Range(0, 2), false);
    assert g == Ok(Some(Ptr(0, SliceOf(2)))) by { SPI.RangeRules(0, 2, v.ptr, false); }
    first2 := Load(mem, g.value.value);
    assert first2 == [10, 40] by { assert first2[0] == 10 && first2[1] == 40; }
    at3 := SliceLikeImpl.Get(v, SPI.Position(3), false);
    assert at3 == Ok(None) by { SPI.PositionRules(3, v.ptr, false); }
    upTo4 := SliceLikeImpl.Get(v, SPI.Range(0, 4), false);
    assert upTo4 == Ok(None) by { SPI.RangeRules(0, 4, v.ptr, false); }
  }

  /** `get_unchecked(1)` on `[1, 2, 4]` is 2. */
  method GetUncheckedOnThreeElements() returns (elem: seq<int>)
    ensures elem == [2]
  {
    var mem := new int[3];
    mem[0], mem[1], mem[2] := 1, 2, 4;
    var x := CoreTraits.FromRef(Ptr(0, ArrayOf(3)));
    var r := SliceLikeImpl.GetUnchecked(x, SPI.Position(1), false);
    elem := Load(mem, r.value);
  }

  /** Splits a handle to a whole buffer with `split_at` (or, when `unchecked`,
      `split_at_unchecked`) and reads both halves. */
  method ReadSplit(mem: array<int>, d: Deferred, mid: Usize, unchecked: bool) returns (left: seq<int>, right: seq<int>)
    requires mem.Length <= USIZE_MAX && d == New(Ptr(0, ArrayOf(mem.Length))) && mid <= mem.Length
    ensures left == mem[..mid] && right == mem[mid..]
  {
    var halves := if unchecked then SliceLikeImpl.SplitAtUnchecked(d, mid, false).value
                  else SliceLikeImpl.SplitAt(d, mid, false).value;
    SplitReads(mem, d, mid, halves, Shared);
    left, right := CoreTraits.Deref(mem, halves.0), CoreTraits.Deref(mem, halves.1);
  }

  /** `split_at` (and `split_at_unchecked`) of `[1, 2, 3, 4, 5, 6]` at 0, 2 and 6,
      and the panic at 7. */
  method SplitAtSix() returns (l0: seq<int>, r0: seq<int>, l2: seq<int>, r2: seq<int>, l6: seq<int>, r6: seq<int>, past: Outcome<(Deferred, Deferred)>)
    ensures l0 == [] && r0 == [1, 2, 3, 4, 5, 6]
    ensures l2 == [1, 2] && r2 == [3, 4, 5, 6]
    ensures l6 == [1, 2, 3, 4, 5, 6] && r6 == []
    ensures past == Panicked(SplitMidAssertFail)
  {
    var mem := new int[6];
    mem[0], mem[1], mem[2], mem[3], mem[4], mem[5] := 1, 2, 3, 4, 5, 6;
    var s := mem[..];
    assert s == [1, 2, 3, 4, 5, 6];
    var d := New(Ptr(0, ArrayOf(6)));
    l0, r0 := ReadSplit(mem, d, 0, false);
    assert s[0..] == s;
    l2, r2 := ReadSplit(mem, d, 2, false);
    assert l2 == [1, 2] by { SliceOfLiteral(s, 0, 2); }
    assert r2 == [3, 4, 5, 6] by { SliceOfLiteral(s, 2, 6); }
    l6, r6 := ReadSplit(mem, d, 6, true);
    assert s[..6] == s;
    past := SliceLikeImpl.SplitAt(d, 7, false);
  }

  /** Splits an exclusive handle to a whole buffer with `split_at_mut` and reads
      both halves. */
  method ReadSplitMut(mem: array<int>, d: Deferred, mid: Usize) returns (left: seq<int>, right: seq<int>)
    requires mem.Length <= USIZE_MAX && d == NewMut(Ptr(0, ArrayOf(mem.Length))) && mid <= mem.Length
    ensures left == mem[..mid] && right == mem[mid..]
  {
    var halves := SliceLikeImpl.SplitAtMut(d, mid, false).value;
    SplitReads(mem, d, mid, halves, Exclusive);
    left, right := CoreTraits.Deref(mem, halves.0), CoreTraits.Deref(mem, halves.1);
  }

  /** Assigning one cell is a sequence update. */
  lemma OverwriteCell<T>(s: seq<T>, i: nat, v: T)
    requires i < |s|
    ensures Overwrite(s, Ptr(i, Value), [v]) == s[i := v]
  {
  }

  /** `split_at_mut(2)` of `[1, 0, 3, 0, 5, 6]` gives exclusive halves reading
      `[1, 0]` and `[3, 0, 5, 6]`. */
  method SplitAtMutHalves() returns (left: seq<int>, right: seq<int>)
    ensures left == [1, 0] && right == [3, 0, 5, 6]
  {
    var mem := new int[6];
    mem[0], mem[1], mem[2], mem[3], mem[4], mem[5] := 1, 0, 3, 0, 5, 6;
    var s := mem[..];
    assert s == [1, 0, 3, 0, 5, 6];
    left, right := ReadSplitMut(mem, NewMut(Ptr(0, ArrayOf(6))), 2);
    assert left == [1, 0] by { SliceOfLiteral(s, 0, 2); }
    assert right == [3, 0, 5, 6] by { SliceOfLiteral(s, 2, 6); }
  }

  /** `split_at_mut(mid)` of a handle to a whole buffer, then `left[i] = x` and
      `right[j] = y` through the two slice handles in the `slice_ptr_len`
      build: the cells `i` and `mid + j` change and nothing else. */
  method WriteThroughHalves(mem: array<int>, d: Deferred, mid: Usize, i: nat, x: int, j: nat, y: int)
    requires mem.Length <= USIZE_MAX && d == NewMut(Ptr(0, ArrayOf(mem.Length)))
    requires i < mid && mid + j < mem.Length
    modifies mem
    ensures mem[..] == old(mem[..])[i := x][mid + j := y]
  {
    var s := mem[..];
    var halves := SliceLikeImpl.SplitAtMut(d, mid, true).value;
    var left, right := halves.0, halves.1;
    assert SPI.IndexCorrected(SPI.Position(i), left.ptr, true) == Ok(Ptr(i, Value)) by {
      SPI.PositionRules(i, left.ptr, true);
    }
    var w := CoreTraits.IndexMutAssign(mem, left, SPI.Position(i), [x], true);
    assert mem[..] == s[i := x] by { OverwriteCell(s, i, x); }
    s := mem[..];
    assert SPI.IndexCorrected(SPI.Position(j), right.ptr, true) == Ok(Ptr(mid + j, Value)) by {
      SPI.PositionRules(j, right.ptr, true);
    }
    w := CoreTraits.IndexMutAssign(mem, right, SPI.Position(j), [y], true);
    assert mem[..] == s[mid + j := y] by { OverwriteCell(s, mid + j, y); }
  }

  /** After `split_at_mut(2)` of `[1, 0, 3, 0, 5, 6]`, `left[1] = 2` and
      `right[1] = 4` give `[1, 2, 3, 4, 5, 6]` in the `slice_ptr_len` build. */
  method SplitAtMutThenWrite() returns (after: seq<int>)
    ensures after == [1, 2, 3, 4, 5, 6]
  {
    var mem := new int[6];
    mem[0], mem[1], mem[2], mem[3], mem[4], mem[5] := 1, 0, 3, 0, 5, 6;
    var d := NewMut(Ptr(0, ArrayOf(6)));
    WriteThroughHalves(mem, d, 2, 1, 2, 1, 4);
    after := mem[..];
  }

  /** `split_at_mut(mid)` and then `left[i] = x` in the stable build: indexing
      a slice handle needs its length, so the write panics and the buffer is
      left as it was. */
  method WriteThroughLeftHalfStable(mem: array<int>, d: Deferred, mid: Usize, i: Usize, x: int) returns (w: Outcome<Ptr>)
    requires mem.Length <= USIZE_MAX && d == NewMut(Ptr(0, ArrayOf(mem.Length))) && mid <= mem.Length
    modifies mem
    ensures w == Panicked(SlicePtrLenUnavailable)
    ensures mem[..] == old(mem[..])
  {
    var halves := SliceLikeImpl.SplitAtMut(d, mid, false).value;
    assert SPI.Get(SPI.Position(i), halves.0.ptr, false).Panicked? by {
      SPI.SliceWithoutLengthFeature(SPI.Position(i), halves.0.ptr);
    }
    w := CoreTraits.IndexMutAssign(mem, halves.0, SPI.Position(i), [x], false);
  }

  /** The `split_at_mut` example in the stable build: `left[1] = 2` panics and
      `[1, 0, 3, 0, 5, 6]` stays as it was. */
  method SplitAtMutWriteWithoutLengthFeature() returns (w: Outcome<Ptr>, after: seq<int>)
    ensures w == Panicked(SlicePtrLenUnavailable) && after == [1, 0, 3, 0, 5, 6]
  {
    var mem := new int[6];
    mem[0], mem[1], mem[2], mem[3], mem[4], mem[5] := 1, 0, 3, 0, 5, 6;
    var d := NewMut(Ptr(0, ArrayOf(6)));
    w := WriteThroughLeftHalfStable(mem, d, 2, 1, 2);
    after := mem[..];
  }

  /** `get_mut(1)` on `[0, 1, 2]` and `*elem = 42` give `[0, 42, 2]`;
      `get_unchecked_mut(1)` on `[1, 2, 4]` and `*elem = 13` give `[1, 13, 4]`. */
  method GetMutThenWrite() returns (x: seq<int>, y: seq<int>)
    ensures x == [0, 42, 2] && y == [1, 13, 4]
  {
    var mem := new int[3];
    mem[0], mem[1], mem[2] := 0, 1, 2;
    var h := CoreTraits.FromMut(Ptr(0, ArrayOf(3)));
    var r := SliceLikeImpl.GetMutAssign(mem, h, SPI.Position(1), [42], false);
    x := CoreTraits.Deref(mem, h);
    mem[0], mem[1], mem[2] := 1, 2, 4;
    var u := SliceLikeImpl.GetUncheckedMutAssign(mem, h, SPI.Position(1), [13], false);
    y := CoreTraits.Deref(mem, h);
  }

  /** The module-level example on a 300-byte buffer: `a`, a shared `b` and an
      exclusive `c` made from it with `clone_unchecked`; `c[200..]` is filled
      with ones, after which `b[100..200]` and `a[0..100]` still read zeros and
      `c[200..]` reads ones. */
  method ThreeHandlesOn300() returns (first: seq<int>, middle: seq<int>, last: seq<int>)
    ensures first == seq(100, _ => 0) && middle == seq(100, _ => 0) && last == seq(100, _ => 1)
  {
    var mem := new int[300](_ => 0);
    var a := CoreTraits.FromMut(Ptr(0, ArrayOf(300)));
    var b := IntoRef(CloneUnchecked(a));
    var c := CloneUnchecked(a);
    var mutRef1 := CoreTraits.IndexMut(a, SPI.Range(0, 100), false).value;
    var w := CoreTraits.IndexMutAssign(mem, c, SPI.RangeFrom(200), seq(100, _ => 1), false);
    middle := Load(mem, CoreTraits.Index(b, SPI.Range(100, 200), false).value);
    last := Load(mem, CoreTraits.IndexMut(c, SPI.RangeFrom(200), false).value);
    first := Load(mem, mutRef1);
  }

  /** The `new` unit test: a 1024-byte buffer, a second exclusive handle from
      `clone_unchecked`, `tmp1 = &mut deferred[10..20]` with `tmp1[0] = 42`, then
      `deferred2[0] = 42`; afterwards `deferred[0]` and `buffer[0]` are 42, and so
      is the cell `tmp1[0]` wrote. */
  method CloneUncheckedSharesTarget() returns (viaFirst: seq<int>, cell0: int, cell10: int)
    ensures viaFirst == [42] && cell0 == 42 && cell10 == 42
  {
    var mem := new int[1024](_ => 0);
    var deferred := CoreTraits.FromMut(Ptr(0, ArrayOf(1024)));
    var deferred2 := CloneUnchecked(deferred);
    var tmp1 := CoreTraits.IndexMut(deferred, SPI.Range(10, 20), false).value;
    assert tmp1 == Ptr(10, SliceOf(10)) by { SPI.RangeRules(10, 20, deferred.ptr, false); }
    // `tmp1` is an ordinary `&mut [u8]`, so `tmp1[0] = 42` writes its first cell.
    mem[tmp1.addr] := 42;
    assert SPI.Get(SPI.Position(0), deferred2.ptr, false) == Ok(Some(Ptr(0, Value))) by {
      SPI.PositionRules(0, deferred2.ptr, false);
    }
    var w := CoreTraits.IndexMutAssign(mem, deferred2, SPI.Position(0), [42], false);
    assert w == Ok(Ptr(0, Value));
    viaFirst := Load(mem, CoreTraits.Index(deferred, SPI.Position(0), false).value);
    cell0, cell10 := mem[0], mem[10];
  }

  /** The one-past-the-end position on `[10, 40, 30]`: `get(3)` is None, yet the
      as-written `h[3]` returns the pointer just past the array instead of
      panicking; the corrected check panics. */
  method OnePastEndOnThreeElements() returns (viaGet: Outcome<Option<Ptr>>, asWritten: Outcome<Ptr>, corrected: Outcome<Ptr>)
    ensures viaGet == Ok(None)
    ensures asWritten == Ok(Ptr(3, Value)) && !ValidIn(asWritten.value, 3)
    ensures corrected == Panicked(IndexOverflowFail(3, 3))
  {
    var v := CoreTraits.FromRef(Ptr(0, ArrayOf(3)));
    SPI.IndexAcceptsOnePastEnd(v.ptr, false);
    viaGet := SliceLikeImpl.Get(v, SPI.Position(3), false);
    asWritten := CoreTraits.Index(v, SPI.Position(3), false);
    corrected := SPI.IndexCorrected(SPI.Position(3), AsPtr(v), false);
  }
}
