// Where tp_alloc puts header, payload and trailer inside the block that the real malloc returns
// (trxlib.c:420-495), in the 32-bit layout: every header field is one word.
module Placement {
  import opened Words
  import opened Masks
  import Arith

  type Addr = Word  // 0 is NULL

  const MINALLOC := 4
  /** trxblk_t: two links, tag, ten callers, four freers, offset, size, magic. */
  const TRACKED_HEADER := 80
  /** An untracked block only has offset, size and magic. */
  const PLAIN_HEADER := 12
  const TRAILER := 4

  function TrxAlign(size: Word): Word {
    var s := Uint32(size + MINALLOC - 1);
    s - s % MINALLOC
  }

  function HeaderSize(tracking: bool): nat {
    if tracking then TRACKED_HEADER else PLAIN_HEADER
  }

  function Overhead(tracking: bool): nat {
    HeaderSize(tracking) + TRAILER
  }

  function EffectiveAlignment(alignment: Word): Word {
    if alignment == 0 then MINALLOC else alignment
  }

  /** Bytes requested from the real malloc; every operation wraps at 32 bits. */
  function TpSize(size: Word, alignment: Word, tracking: bool): Word {
    Uint32(Uint32((alignment + Overhead(tracking)) * 2) + TrxAlign(size))
  }

  /** `x & ~(alignment-1)` on words. */
  function Mask(x: Word, alignment: Word): (r: Word)
    requires alignment > 0
    ensures r <= x
  {
    BitAnd(x, WORD_MODULUS - alignment)
  }

  function PayloadAt(raw: Addr, alignment: Word, tracking: bool): Addr
    requires alignment > 0
  {
    Mask(Uint32(raw + Overhead(tracking) + alignment), alignment)
  }

  /** The request, rounded up, plus both overheads, stays within a size_t. */
  predicate Fits(size: Word, alignment: Word, tracking: bool) {
    (size + MINALLOC - 1) / MINALLOC * MINALLOC + 2 * (alignment + Overhead(tracking)) < WORD_MODULUS
  }

  /** Header, `size` payload bytes and trailer lie, in this order, inside the raw block. */
  predicate InsideBlock(raw: Addr, tpsize: nat, ptr: Addr, size: nat, tracking: bool) {
    raw <= ptr - HeaderSize(tracking) && ptr + size + TRAILER <= raw + tpsize
  }
  // ---------------------------------------------------------------- the mask

  lemma WordWidth() returns (n: nat)
    ensures Pow2(n) == WORD_MODULUS && n > 0
  {
    assert Pow2(8) == 256 && Pow2(16) == 65536 && Pow2(24) == 16777216;
    n := 32;
  }

  lemma {:induction false} MaskBounds(x: Word, alignment: Word)
    requires alignment > 0
    ensures x - alignment < Mask(x, alignment) <= x
    ensures Mask(x, alignment) == x - BitAnd(x, alignment - 1)
    ensures PowerOfTwo(alignment) ==> Mask(x, alignment) == x - x % alignment
  {
    var n := WordWidth();
    MaskTakesLessThan(n, x, alignment);
    if PowerOfTwo(alignment) { MaskRoundsDown(n, x, alignment); }
  }

  // ---------------------------------------------------------------- the layout

  lemma NoWrap(size: Word, alignment: Word, tracking: bool)
    requires Fits(size, alignment, tracking)
    ensures TrxAlign(size) == (size + MINALLOC - 1) / MINALLOC * MINALLOC
    ensures TpSize(size, alignment, tracking) == 2 * (alignment + Overhead(tracking)) + TrxAlign(size)
    ensures Overhead(tracking) == if tracking then 84 else 16
    ensures size <= TrxAlign(size) < size + MINALLOC && TrxAlign(size) % MINALLOC == 0
  {
    RoundedUp(size);
    assert Uint32((alignment + Overhead(tracking)) * 2) == 2 * (alignment + Overhead(tracking));
  }

  lemma RoundedUp(size: Word)
    requires size + MINALLOC - 1 < WORD_MODULUS
    ensures TrxAlign(size) == (size + MINALLOC - 1) / MINALLOC * MINALLOC
    ensures size <= TrxAlign(size) < size + MINALLOC && TrxAlign(size) % MINALLOC == 0
  {
    assert Uint32(size + MINALLOC - 1) == size + MINALLOC - 1;
  }

  /** Placement: when the request fits in a size_t, the header, the rounded payload and the trailer are
      disjoint and inside the bytes requested, and for a power of two the pointer is aligned. */
  lemma {:induction false} PlacementIsSound(raw: Addr, size: Word, alignment: Word, tracking: bool)
    requires alignment > 0 && Fits(size, alignment, tracking)
    requires raw + TpSize(size, alignment, tracking) <= WORD_MODULUS
    ensures var ptr := PayloadAt(raw, alignment, tracking);
            && (PowerOfTwo(alignment) ==> ptr % alignment == 0)
            && raw + Overhead(tracking) < ptr <= raw + Overhead(tracking) + alignment
            && size <= TrxAlign(size)
            && InsideBlock(raw, TpSize(size, alignment, tracking), ptr, TrxAlign(size), tracking)
  {
    NoWrap(size, alignment, tracking);
    PayloadBounds(raw, alignment, tracking);
  }

  /** Masking from beyond header and alignment lands after the header, for a power of two on a multiple. */
  lemma {:induction false} PayloadBounds(raw: Addr, alignment: Word, tracking: bool)
    requires alignment > 0 && raw + Overhead(tracking) + alignment < WORD_MODULUS
    ensures var ptr := PayloadAt(raw, alignment, tracking);
            && raw + Overhead(tracking) < ptr <= raw + Overhead(tracking) + alignment
            && (PowerOfTwo(alignment) ==> ptr % alignment == 0)
  {
    var x := raw + Overhead(tracking) + alignment;
    PayloadIsMasked(raw, alignment, tracking, x);
    MaskBounds(x, alignment);
    RoundedDown(x, alignment);
  }

  lemma PayloadIsMasked(raw: Addr, alignment: Word, tracking: bool, x: Word)
    requires alignment > 0 && x == raw + Overhead(tracking) + alignment
    ensures PayloadAt(raw, alignment, tracking) == Mask(x, alignment)
  {
    assert Uint32(x) == x;
  }

  lemma RoundedDown(x: nat, alignment: nat)
    requires alignment > 0
    ensures (x - x % alignment) % alignment == 0
  {
    Arith.RoundDownIsMultiple(x, alignment);
  }

  /** memalign accepts any alignment of a word or more; if there is room for it at all, every pointer it
      can return is aligned if and only if that alignment is a power of two. */
  lemma {:induction false} AlignedExactly(alignment: Word, tracking: bool)
    requires MINALLOC <= alignment && Fits(0, alignment, tracking)
    ensures PowerOfTwo(alignment) <==>
            forall raw: Addr :: raw + Overhead(tracking) + alignment < WORD_MODULUS ==>
              PayloadAt(raw, alignment, tracking) % alignment == 0
  {
    if PowerOfTwo(alignment) {
      forall raw: Addr | raw + Overhead(tracking) + alignment < WORD_MODULUS
        ensures PayloadAt(raw, alignment, tracking) % alignment == 0
      {
        PayloadBounds(raw, alignment, tracking);
      }
    } else {
      var raw := MisalignedAt(alignment, tracking);
    }
  }

  /** A payload at 2^31 is where the mask stops, and only powers of two divide that. */
  lemma MisalignedAt(alignment: Word, tracking: bool) returns (raw: Addr)
    requires MINALLOC <= alignment && Fits(0, alignment, tracking) && !PowerOfTwo(alignment)
    ensures raw + TpSize(0, alignment, tracking) <= WORD_MODULUS
    ensures raw + Overhead(tracking) + alignment < WORD_MODULUS
    ensures PayloadAt(raw, alignment, tracking) % alignment != 0
  {
    var n := WordWidth();
    var high := Pow2(n - 1);
    HighBitApart(n - 1, alignment - 1);
    PassesMask(high, alignment, tracking);
    raw := high - Overhead(tracking) - alignment;
    NoWrap(0, alignment, tracking);
    if high % alignment == 0 { OnlyPowersDivide(n - 1, alignment); }
  }

  /** An address that has none of the bits below the alignment is where the payload goes. */
  lemma PassesMask(x: Word, alignment: Word, tracking: bool)
    requires alignment > 0 && x >= Overhead(tracking) + alignment && BitAnd(x, alignment - 1) == 0
    ensures PayloadAt(x - Overhead(tracking) - alignment, alignment, tracking) == x
  {
    MaskBounds(x, alignment);
    PayloadIsMasked(x - Overhead(tracking) - alignment, alignment, tracking, x);
  }

  /** A request that memalign accepts and does not align: 12 is no power of two. */
  lemma MisalignedRequest()
    ensures Fits(8, 12, false) && PayloadAt(72, 12, false) == 100 && 100 % 12 != 0
  {
    assert BitAnd(100, 11) == 0 by {
      LowBit(100, 11);
      LowBit(50, 5);
      LowBit(25, 2);
      LowBit(12, 1);
    }
    PassesMask(100, 12, false);
  }

  lemma WrapsShort(size: Word, alignment: Word, tracking: bool)
    requires MINALLOC <= alignment && alignment + Overhead(tracking) < 0x8000_0000
    requires !Fits(size, alignment, tracking)
    ensures TrxAlign(size) < size
            || TpSize(size, alignment, tracking) == 2 * (alignment + Overhead(tracking)) + TrxAlign(size) - WORD_MODULUS
  {
    var both := 2 * (alignment + Overhead(tracking));
    assert Uint32(both) == both;
    if size + MINALLOC - 1 >= WORD_MODULUS {
      assert TrxAlign(size) == 0;
    } else {
      assert TrxAlign(size) == (size + MINALLOC - 1) / MINALLOC * MINALLOC;
    }
  }

  /** The converse: when alignment and overhead stay below 2^31, the requested bytes and the trailer are
      inside the block exactly when the request fits; otherwise the wrapped sum asks malloc for too
      little. */
  lemma PlacementExact(raw: Addr, size: Word, alignment: Word, tracking: bool, tpsize: Word, ptr: Addr)
    requires MINALLOC <= alignment && alignment + Overhead(tracking) < 0x8000_0000
    requires tpsize == TpSize(size, alignment, tracking) && raw + tpsize <= WORD_MODULUS
    requires raw + Overhead(tracking) + alignment < WORD_MODULUS && ptr == PayloadAt(raw, alignment, tracking)
    ensures size <= TrxAlign(size) && InsideBlock(raw, tpsize, ptr, TrxAlign(size), tracking)
            <==> Fits(size, alignment, tracking)
  {
    if Fits(size, alignment, tracking) {
      PlacementIsSound(raw, size, alignment, tracking);
    } else {
      WrapsShort(size, alignment, tracking);
      PayloadBounds(raw, alignment, tracking);
    }
  }

  /** Some bound is needed: at alignment 2^31 the doubled sum wraps, and an empty request is still placed
      inside its 32 bytes when malloc answers just below 2^31. */
  lemma LargestAlignment(raw: Addr, alignment: Word, ptr: Addr)
    requires raw == 0x7FFF_FFEF && alignment == 0x8000_0000 && ptr == PayloadAt(raw, alignment, false)
    ensures !Fits(0, alignment, false)
    ensures InsideBlock(raw, TpSize(0, alignment, false), ptr, 0, false)
  {
    LargestPayload(raw, alignment);
    LargestSize(alignment);
  }

  lemma LargestPayload(raw: Addr, alignment: Word)
    requires raw == 0x7FFF_FFEF && alignment == 0x8000_0000
    ensures PayloadAt(raw, alignment, false) == alignment
  {
    var a := HighestBit();
    var x: Word := raw + Overhead(false) + alignment;
    PayloadIsMasked(raw, alignment, false, x);
    MaskBounds(x, alignment);
    Arith.DivModUnique(x, alignment, 1, x - alignment);
  }

  lemma LargestSize(alignment: Word)
    requires alignment == 0x8000_0000
    ensures TpSize(0, alignment, false) == 32 && TrxAlign(0) == 0 && !Fits(0, alignment, false)
  {
    assert (alignment + Overhead(false)) * 2 == WORD_MODULUS + 32;
    assert Uint32((alignment + Overhead(false)) * 2) == 32;
  }

  lemma HighestBit() returns (a: Word)
    ensures a == 0x8000_0000 && PowerOfTwo(a)
  {
    var n := WordWidth();
    Pow2IsPower(n - 1);
    a := Pow2(n - 1);
  }

  /** A request whose rounded size plus overhead reaches 2^32: malloc is asked for 32 bytes. */
  lemma WrappedRequest()
    ensures TrxAlign(0xFFFF_FFF8) == 0xFFFF_FFF8
    ensures TpSize(0xFFFF_FFF8, 4, false) == 32 && !Fits(0xFFFF_FFF8, 4, false)
  {
    assert Uint32(0xFFFF_FFFB) == 0xFFFF_FFFB;
    assert Uint32(40) == 40;
  }

  predicate Within(a: int, at: int, n: nat) {
    at <= a < at + n
  }

  function Bytes(at: int, n: nat): (r: set<int>)
    ensures forall a :: a in r <==> Within(a, at, n)
  {
    set a: int | at <= a < at + n && Within(a, at, n)
  }

  /** The untracked branch of calloc clears `size` bytes from one past the raw address instead of
      from the payload.  The payload is cleared only when it is empty, and the header survives only
      when the cleared range stops short of it. */
  lemma UntrackedZeroFill(raw: Addr, size: Word, alignment: Word, ptr: Addr, n: nat)
    requires alignment > 0 && Fits(size, alignment, false)
    requires raw + TpSize(size, alignment, false) < WORD_MODULUS
    requires ptr == PayloadAt(raw, alignment, false) && n == TrxAlign(size)
    ensures Bytes(ptr, n) <= Bytes(raw + 1, n) <==> n == 0
    ensures Bytes(raw + 1, n) !! Bytes(ptr - PLAIN_HEADER, PLAIN_HEADER) <==> raw + 1 + n <= ptr - PLAIN_HEADER
  {
    PlacementIsSound(raw, size, alignment, false);
    LaterRangeCovered(raw + 1, ptr, n);
    RangesApart(raw + 1, n, ptr - PLAIN_HEADER);
  }

  lemma LaterRangeCovered(from: int, ptr: int, n: nat)
    requires from < ptr
    ensures Bytes(ptr, n) <= Bytes(from, n) <==> n == 0
  {
    if n > 0 { assert Within(ptr + n - 1, ptr, n) && !Within(ptr + n - 1, from, n); }
  }

  lemma RangesApart(from: int, n: nat, header: int)
    requires from <= header
    ensures Bytes(from, n) !! Bytes(header, PLAIN_HEADER) <==> from + n <= header
  {
    if from + n > header { assert Within(header, from, n) && Within(header, header, PLAIN_HEADER); }
  }
}
