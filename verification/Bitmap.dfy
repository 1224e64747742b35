/** The bitmap behind the physical page allocator: one bit a page, eight pages a byte, a set
    bit for a page in use.  The functions mirror the SET_BIT, CLEAR_BIT and TEST_BIT macros and
    the byte masks of kernel/pmm.c; the lemmas say what each byte write does to the set of
    clear pages. */
module Bitmap {

  /** The mask `1 << j`. */
  function OneBit(j: nat): (r: bv8)
    requires j < 8
    ensures forall k: nat | k < 8 :: Bit(r, k) == (k == j)
  {
    1 << j
  }

  /** TEST_BIT inside one byte. */
  function Bit(b: bv8, j: nat): bool
    requires j < 8
  {
    b & (1 << j) != 0
  }

  /** Of the eight pages of a byte the first one has the lowest bit. */
  lemma BitsInOrder(b: bv8)
    ensures Bit(b, 0) <==> b & 0x01 != 0
    ensures Bit(b, 1) <==> b & 0x02 != 0
    ensures Bit(b, 2) <==> b & 0x04 != 0
    ensures Bit(b, 3) <==> b & 0x08 != 0
    ensures Bit(b, 4) <==> b & 0x10 != 0
    ensures Bit(b, 5) <==> b & 0x20 != 0
    ensures Bit(b, 6) <==> b & 0x40 != 0
    ensures Bit(b, 7) <==> b & 0x80 != 0
  {
  }

  lemma OrBits(a: bv8, b: bv8)
    ensures forall k: nat | k < 8 :: Bit(a | b, k) == (Bit(a, k) || Bit(b, k))
  {
  }

  lemma AndNotBits(a: bv8, b: bv8)
    ensures forall k: nat | k < 8 :: Bit(a & !b, k) == (Bit(a, k) && !Bit(b, k))
  {
  }

  /** SET_BIT inside one byte. */
  function SetBit(b: bv8, j: nat): (r: bv8)
    requires j < 8
    ensures forall k: nat | k < 8 :: Bit(r, k) == (Bit(b, k) || k == j)
  {
    OrBits(b, OneBit(j));
    b | OneBit(j)
  }

  /** CLEAR_BIT inside one byte. */
  function ClearBit(b: bv8, j: nat): (r: bv8)
    requires j < 8
    ensures forall k: nat | k < 8 :: Bit(r, k) == (Bit(b, k) && k != j)
  {
    AndNotBits(b, OneBit(j));
    b & !OneBit(j)
  }

  /** The mask `0xFF << j`: bits j and above. */
  function MaskFrom(j: nat): (r: bv8)
    requires j < 8
    ensures forall k: nat | k < 8 :: Bit(r, k) == (k >= j)
  {
    0xFF << j
  }

  /** The mask `0xFF >> (8 - j)`: bits below j. */
  function MaskBelow(j: nat): (r: bv8)
    requires 0 < j < 8
    ensures forall k: nat | k < 8 :: Bit(r, k) == (k < j)
  {
    0xFF >> (8 - j)
  }

  /** TEST_BIT(i). */
  function Used(bm: seq<bv8>, i: nat): bool
    requires i < 8 * |bm|
  {
    Bit(bm[i / 8], i % 8)
  }

  /** The clear pages below `total`: the abstract value of a bitmap. */
  ghost function ClearPages(bm: seq<bv8>, total: nat): set<nat>
    requires total <= 8 * |bm|
  {
    set i: nat | i < total && !Used(bm, i)
  }

  /** SET_BIT(i) removes exactly page i from the clear pages. */
  lemma SetBitPages(bm: seq<bv8>, bm': seq<bv8>, total: nat, i: nat)
    requires total <= 8 * |bm| && i < 8 * |bm|
    requires bm' == bm[i / 8 := SetBit(bm[i / 8], i % 8)]
    ensures ClearPages(bm', total) == ClearPages(bm, total) - {i}
  {
    forall j: nat | j < 8 * |bm| ensures Used(bm', j) == (Used(bm, j) || j == i) {
      if j / 8 == i / 8 && j % 8 == i % 8 { assert j == i; }
    }
  }

  /** CLEAR_BIT(i) adds exactly page i. */
  lemma ClearBitPages(bm: seq<bv8>, bm': seq<bv8>, total: nat, i: nat)
    requires total <= 8 * |bm| && i < total
    requires bm' == bm[i / 8 := ClearBit(bm[i / 8], i % 8)]
    ensures ClearPages(bm', total) == ClearPages(bm, total) + {i}
  {
    forall j: nat | j < 8 * |bm| ensures Used(bm', j) == (Used(bm, j) && j != i) {
      if j / 8 == i / 8 && j % 8 == i % 8 { assert j == i; }
    }
  }

  /** The pages from `lo` up to (not including) `hi`. */
  ghost function Pages(lo: nat, hi: nat): (r: set<nat>)
    ensures forall i: nat :: i in r <==> lo <= i < hi
    decreases hi
  {
    if hi <= lo then {} else Pages(lo, hi - 1) + {hi - 1}
  }

  /** A write to byte b alone changes only that byte's eight pages, bit by bit. */
  lemma ByteChange(bm: seq<bv8>, bm': seq<bv8>, total: nat, b: nat)
    requires |bm| == |bm'| && b < |bm| && total <= 8 * |bm|
    requires forall k | 0 <= k < |bm| && k != b :: bm'[k] == bm[k]
    ensures forall p: nat :: p in ClearPages(bm', total) <==>
      p < total && if p / 8 == b then !Bit(bm'[b], p - 8 * b) else p in ClearPages(bm, total)
    ensures forall p: nat | p / 8 == b :: p in ClearPages(bm, total) <==> p < total && !Bit(bm[b], p - 8 * b)
  {
  }

  /** Writing 0x00 to byte b makes its pages clear, as far as they exist. */
  lemma ZeroedByte(bm: seq<bv8>, bm': seq<bv8>, total: nat, b: nat)
    requires b < |bm| && total <= 8 * |bm| && bm' == bm[b := 0]
    ensures ClearPages(bm', total) == ClearPages(bm, total) + Pages(8 * b, 8 * b + 8) * Pages(0, total)
  {
    EmptyByte();
    ByteChange(bm, bm', total, b);
    hide Bit, ClearPages, Pages;
  }

  /** Writing 0xFF marks them. */
  lemma FilledByte(bm: seq<bv8>, bm': seq<bv8>, total: nat, b: nat)
    requires b < |bm| && total <= 8 * |bm| && bm' == bm[b := 0xFF]
    ensures ClearPages(bm', total) == ClearPages(bm, total) - Pages(8 * b, 8 * b + 8)
  {
    FullByte(0xFF);
    ByteChange(bm, bm', total, b);
    hide Bit, ClearPages, Pages;
  }

  lemma ClearBelow(bm: seq<bv8>, total: nat)
    requires total <= 8 * |bm|
    ensures forall p :: p in ClearPages(bm, total) ==> p < total
  {
  }

  /** A byte or-ed with, or cleared by, a mask of the bits lo to hi. */
  lemma OrMask(a: bv8, mask: bv8, x: bv8, lo: nat, hi: nat)
    requires x == a | mask && forall k: nat | k < 8 :: Bit(mask, k) == (lo <= k < hi)
    ensures forall k: nat | k < 8 :: Bit(x, k) == (Bit(a, k) || lo <= k < hi)
  {
    OrBits(a, mask);
    hide Bit;
  }

  lemma AndNotMask(a: bv8, mask: bv8, x: bv8, lo: nat, hi: nat)
    requires x == a & !mask && forall k: nat | k < 8 :: Bit(mask, k) == (lo <= k < hi)
    ensures forall k: nat | k < 8 :: Bit(x, k) == (Bit(a, k) && !(lo <= k < hi))
  {
    AndNotBits(a, mask);
    hide Bit;
  }

  /** Setting the bits lo to hi of byte b marks their pages. */
  lemma MaskedByte(bm: seq<bv8>, bm': seq<bv8>, total: nat, b: nat, a: bv8, x: bv8, lo: nat, hi: nat)
    requires b < |bm| && total <= 8 * |bm| && bm[b] == a && bm' == bm[b := x] && lo <= hi <= 8
    requires forall k: nat | k < 8 :: Bit(x, k) == (Bit(a, k) || lo <= k < hi)
    ensures ClearPages(bm', total) == ClearPages(bm, total) - Pages(8 * b + lo, 8 * b + hi)
  {
    hide *;
    ByteChange(bm, bm', total, b);
    ClearBelow(bm, total);
    forall p: nat ensures p in ClearPages(bm', total) <==> p in ClearPages(bm, total) && !(8 * b + lo <= p < 8 * b + hi) {
      if p / 8 == b { assert Bit(x, p - 8 * b) == (Bit(a, p - 8 * b) || lo <= p - 8 * b < hi); }
    }
  }

  /** Clearing them makes the pages clear, as far as they exist. */
  lemma UnmaskedByte(bm: seq<bv8>, bm': seq<bv8>, total: nat, b: nat, a: bv8, x: bv8, lo: nat, hi: nat)
    requires b < |bm| && total <= 8 * |bm| && bm[b] == a && bm' == bm[b := x] && lo <= hi <= 8
    requires forall k: nat | k < 8 :: Bit(x, k) == (Bit(a, k) && !(lo <= k < hi))
    ensures ClearPages(bm', total) == ClearPages(bm, total) + Pages(8 * b + lo, 8 * b + hi) * Pages(0, total)
  {
    hide *;
    ByteChange(bm, bm', total, b);
    ClearBelow(bm, total);
    forall p: nat
      ensures p in ClearPages(bm', total) <==> p in ClearPages(bm, total) || (8 * b + lo <= p < 8 * b + hi && p < total)
    {
      if p / 8 == b { assert Bit(x, p - 8 * b) == (Bit(a, p - 8 * b) && !(lo <= p - 8 * b < hi)); }
    }
  }

  /** Eight pages more. */
  lemma MorePages(clear: set<nat>, all: set<nat>, lo: nat, i: nat)
    requires lo <= i
    ensures clear + Pages(lo, i) * all + Pages(i, i + 8) * all == clear + Pages(lo, i + 8) * all
    ensures clear - Pages(lo, i) - Pages(i, i + 8) == clear - Pages(lo, i + 8)
  {
    hide Pages;
    assert Pages(lo, i + 8) == Pages(lo, i) + Pages(i, i + 8);
  }

  lemma NoPages(lo: nat)
    ensures Pages(lo, lo) == {}
  {
  }

  lemma {:induction false} PagesSize(lo: nat, hi: nat)
    requires lo <= hi
    ensures |Pages(lo, hi)| == hi - lo
    decreases hi - lo
  {
    hide Pages;
    if lo == hi {
      NoPages(lo);
    } else {
      PagesSize(lo, hi - 1);
      LastPage(lo, hi);
      OneMore(Pages(lo, hi - 1), hi - 1);
    }
  }

  lemma LastPage(lo: nat, hi: nat)
    requires lo < hi
    ensures Pages(lo, hi) == Pages(lo, hi - 1) + {hi - 1}
  {
  }

  lemma OneMore(s: set<nat>, x: nat)
    requires x !in s
    ensures |s + {x}| == |s| + 1
  {
  }

  lemma {:induction false} SubsetSize<T>(a: set<T>, b: set<T>)
    requires a <= b
    ensures |a| <= |b|
  {
    assert b == a + (b - a);
  }

  lemma FullByte(b: bv8)
    ensures b == 0xFF <==> forall k: nat | k < 8 :: Bit(b, k)
  {
    if b != 0xFF {
      assert !Bit(b, 0) || !Bit(b, 1) || !Bit(b, 2) || !Bit(b, 3) || !Bit(b, 4) || !Bit(b, 5) || !Bit(b, 6) || !Bit(b, 7);
    }
  }

  lemma EmptyByte()
    ensures forall k: nat | k < 8 :: !Bit(0, k)
  {
  }
}
