/** The physical page allocator of kernel/pmm.c. */
module PageAllocator {
  import opened Words
  import opened Bitmap

  /** The first page outside the protected 16 MiB (0x1000000 / 4096). */
  const FIRST_PAGE := 4096

  /** pmm_is_address_valid. */
  predicate ValidAddress(addr: uint64) {
    addr != 0 && addr != 0xFFFF_FFFF_FFFF_FFFF && addr <= 0x80_0000_0000
  }

  /** One UEFI memory descriptor, as far as pmm_init reads it. */
  datatype Region = Region(kind: uint32, start: uint64, pages: uint64) {
    predicate Usable() { kind == 7 || kind == 3 || kind == 4 }

    ghost predicate Contains(p: nat) {
      Usable() && start / 4096 <= p < start / 4096 + pages
    }

    function FirstPage(): nat { start / 4096 }

    /** The end address, in 64-bit arithmetic. */
    function End(): uint64 { Wrap64(start + Wrap64(pages * 4096)) }

    /** The end page pmm_init computes: 64-bit arithmetic, then clamped to the number of pages. */
    function EndPage(total: nat): nat {
      var e := Wrap64(FirstPage() + pages);
      if e > total then total else e
    }
  }

  /** What pmm_init's byte-wise loop clears for a region [s, e). */
  ghost function ClearedBy(s: nat, e: nat): set<nat>
    requires s < e
  {
    var first, last := s / 8, (e - 1) / 8;
    if first != last then Pages(s, 8 * last)
    else if s % 8 == 0 then {}
    else if e % 8 == 0 then Pages(s, e)
    else Pages(8 * first, 8 * first + 8)
  }

  /** What pmm_alloc_blocks' byte-wise marking sets for a run [s, e). */
  ghost function MarkedBy(s: nat, e: nat): set<nat>
    requires s < e
  {
    var first, last := s / 8, (e - 1) / 8;
    if first != last then (if e % 8 == 0 then Pages(s, 8 * last) else Pages(s, e))
    else if s % 8 == 0 && e % 8 == 0 then {}
    else if s % 8 != 0 && e % 8 != 0 then Pages(8 * first, 8 * first + 8)
    else Pages(s, e)
  }

  /** Both ends of [s, e) lie strictly inside one bitmap byte. */
  predicate InsideOneByte(s: nat, e: nat)
    requires s < e
  {
    s / 8 == (e - 1) / 8 && s % 8 != 0 && e % 8 != 0
  }

  /** The guard under which pmm_alloc_blocks marks exactly the run it returns. */
  predicate MarksExactly(s: nat, e: nat)
    requires s < e
  {
    if s / 8 == (e - 1) / 8 then (s % 8 == 0) != (e % 8 == 0) else e % 8 != 0
  }

  lemma ClearedWithinRegion(s: nat, e: nat)
    requires s < e
    ensures ClearedBy(s, e) <= Pages(s, e) <==> !InsideOneByte(s, e)
    ensures !InsideOneByte(s, e) ==> |ClearedBy(s, e)| <= e - s
  {
    if InsideOneByte(s, e) {
      assert 8 * (s / 8) in ClearedBy(s, e) && 8 * (s / 8) !in Pages(s, e);
    } else {
      PagesSize(s, e);
      SubsetSize(ClearedBy(s, e), Pages(s, e));
    }
  }

  lemma ClearedExactly(s: nat, e: nat)
    requires s < e
    ensures ClearedBy(s, e) == Pages(s, e) <==> s / 8 == (e - 1) / 8 && s % 8 != 0 && e % 8 == 0
  {
    assert e - 1 in Pages(s, e);
    if InsideOneByte(s, e) {
      ClearedWithinRegion(s, e);
    }
  }

  lemma MarkedExactly(s: nat, e: nat)
    requires s < e
    ensures MarkedBy(s, e) == Pages(s, e) <==> MarksExactly(s, e)
    ensures s / 8 < (e - 1) / 8 && e % 8 == 0 ==> Pages(s, e) - MarkedBy(s, e) == Pages(e - 8, e)
  {
    hide Pages;
    Ends(s, e);
    assert e - 1 in Pages(s, e);
    if InsideOneByte(s, e) {
      assert 8 * (s / 8) in MarkedBy(s, e) && 8 * (s / 8) !in Pages(s, e);
    }
  }

  /** The guard under which pmm_alloc_blocks marks at least the run it returns: the end is not
      byte-aligned, or the run is the tail of one byte. */
  predicate Covers(s: nat, e: nat)
    requires s < e
  {
    e % 8 != 0 || (s / 8 == (e - 1) / 8 && s % 8 != 0)
  }

  /** Otherwise the whole last byte stays clear. */
  lemma MarkedCovers(s: nat, e: nat)
    requires s < e
    ensures Pages(s, e) <= MarkedBy(s, e) <==> Covers(s, e)
    ensures !Covers(s, e) ==> e - 8 >= s && Pages(s, e) - MarkedBy(s, e) == Pages(e - 8, e)
  {
    hide Pages;
    Ends(s, e);
    assert e - 1 in Pages(s, e);
    assert !Covers(s, e) ==> e - 1 !in MarkedBy(s, e);
  }

  /** The abstract allocator: the clear pages and the separate 64-bit counter. */
  datatype State = State(clear: set<nat>, free: uint64)

  /** Pages pmm_alloc_page may hand out. */
  ghost function Allocatable(clear: set<nat>): set<nat> {
    set p | p in clear && FIRST_PAGE <= p && p * 4096 <= 0x80_0000_0000
  }

  ghost function Least(s: set<nat>): (m: nat)
    requires s != {}
    ensures m in s && forall x :: x in s ==> m <= x
  {
    var x :| x in s;
    if s - {x} == {} then
      assert s == {x};
      x
    else
      var m := Least(s - {x});
      assert forall y :: y in s ==> y == x || y in s - {x};
      if x < m then x else m
  }

  /** pmm_alloc_page as a function: the new state and the address (0 for NULL). */
  ghost function AllocStep(s: State): (State, nat) {
    var a := Allocatable(s.clear);
    if a == {} then (s, 0)
    else (State(s.clear - {Least(a)}, Wrap64(s.free - 1)), Least(a) * 4096)
  }

  lemma AllocatableBounds(clear: set<nat>)
    ensures forall q | q in Allocatable(clear) :: q in clear && FIRST_PAGE <= q
    ensures FIRST_PAGE == 4096
  {
  }

  /** A used page, and a page without a valid address, cannot be had. */
  lemma NotAllocatable(clear: set<nat>, p: nat)
    requires p * 4096 < 0x1_0000_0000_0000_0000
    ensures p !in clear || !ValidAddress(p * 4096) ==> p !in Allocatable(clear)
  {
  }

  lemma LeastAllocatable(s: State, p: nat)
    requires p in s.clear && FIRST_PAGE <= p && p * 4096 < 0x1_0000_0000_0000_0000 && ValidAddress(p * 4096)
    requires forall q | q in Allocatable(s.clear) :: p <= q
    ensures AllocStep(s) == (State(s.clear - {p}, Wrap64(s.free - 1)), p * 4096)
  {
    hide Wrap64;
    assert p in Allocatable(s.clear);
    assert p == Least(Allocatable(s.clear));
  }

  lemma NothingAllocatable(s: State, total: nat)
    requires forall q | q in Allocatable(s.clear) :: total <= q
    requires forall q | q in s.clear :: q < total
    ensures AllocStep(s) == (s, 0)
  {
    assert Allocatable(s.clear) == {};
  }

  /** pmm_free_page of page p as a function. */
  ghost function FreeStep(s: State, total: nat, p: nat): State {
    if FIRST_PAGE <= p < total && p !in s.clear then State(s.clear + {p}, Wrap64(s.free + 1)) else s
  }

  /** pmm_free_blocks as a function: `count` pages from `first`, page numbers modulo 2^52. */
  ghost function FreeManySteps(s: State, total: nat, first: nat, count: nat): State {
    if count == 0 then s
    else FreeStep(FreeManySteps(s, total, first, count - 1), total, (first + count - 1) % 0x10_0000_0000_0000)
  }

  /** `count` clear pages from `first` on. */
  ghost predicate IsRun(clear: set<nat>, first: nat, count: nat) {
    FIRST_PAGE <= first && forall p | first <= p < first + count :: p in clear
  }

  lemma RunStart(clear: set<nat>, i: nat, count: nat)
    requires FIRST_PAGE <= i
    ensures IsRun(clear, i, 0)
    ensures i == FIRST_PAGE ==> forall f | IsRun(clear, f, count) :: i <= f
  {
  }

  /** One clear page more. */
  lemma RunMore(clear: set<nat>, first: nat, n: nat)
    requires IsRun(clear, first, n) && first + n in clear
    ensures IsRun(clear, first, n + 1)
  {
  }

  /** A used page ends every run that starts at or before it. */
  lemma RunBroken(clear: set<nat>, i: nat, n: nat, count: nat)
    requires i !in clear && n < count && n <= i && FIRST_PAGE <= i && forall f | IsRun(clear, f, count) :: i - n <= f
    ensures IsRun(clear, i + 1, 0) && forall f | IsRun(clear, f, count) :: i + 1 <= f
  {
  }

  /** No run fits beyond the last page. */
  lemma NoRun(clear: set<nat>, total: nat, start: nat, count: nat)
    requires count > 0 && start + count > total && forall p :: p in clear ==> p < total
    requires forall f | IsRun(clear, f, count) :: start <= f
    ensures forall f :: !IsRun(clear, f, count)
  {
    assert forall f: nat :: IsRun(clear, f, count) ==> f + count - 1 in clear;
  }

  lemma NoBlocks(s: State, count: nat)
    requires count == 0 || count > s.free || forall f :: !IsRun(s.clear, f, count)
    ensures BlocksStep(s, count, s, 0)
  {
    hide IsRun;
  }

  lemma SomeBlocks(s: State, count: nat, s': State, first: nat)
    requires 0 < count <= s.free && IsRun(s.clear, first, count) && (forall f | IsRun(s.clear, f, count) :: first <= f)
    requires s' == State(s.clear - MarkedBy(first, first + count), s.free - count)
    ensures BlocksStep(s, count, s', first * 4096)
  {
    assert FIRST_PAGE <= first;
    hide IsRun, MarkedBy;
    assert first * 4096 / 4096 == first;
  }

  /** The address of page x in 64-bit arithmetic names page x modulo 2^52. */
  lemma PageOfAddress(x: nat)
    ensures Wrap64(x * 4096) / 4096 == x % 0x10_0000_0000_0000
  {
  }

  /** pmm_alloc_blocks as a step: first fit at or above page 4096, the byte-mask marking, and
      the counter taken down by `count` whatever was marked. */
  ghost predicate BlocksStep(s: State, count: nat, s': State, addr: nat) {
    && (addr == 0 <==> count == 0 || count > s.free || forall f :: !IsRun(s.clear, f, count))
    && (addr == 0 ==> s' == s)
    && (addr != 0 ==>
          var first := addr / 4096;
          && addr == first * 4096
          && IsRun(s.clear, first, count)
          && (forall f | IsRun(s.clear, f, count) :: first <= f)
          && s'.clear == s.clear - MarkedBy(first, first + count)
          && s'.free == s.free - count)
  }

  function MaxEnd(regions: seq<Region>): uint64 {
    if regions == [] then 0
    else
      var rest := MaxEnd(regions[..|regions| - 1]);
      var end := regions[|regions| - 1].End();
      if end > rest then end else rest
  }

  /** It is the largest end of a region, of whatever kind, in 64-bit arithmetic. */
  lemma MaxEndIsLargest(regions: seq<Region>)
    ensures forall d | d in regions :: (d.start + d.pages * 4096) % 0x1_0000_0000_0000_0000 <= MaxEnd(regions)
    ensures regions != [] ==> exists d | d in regions :: (d.start + d.pages * 4096) % 0x1_0000_0000_0000_0000 == MaxEnd(regions)
  {
    LargestEnd(regions);
    hide MaxEnd;
    forall d: Region ensures d.End() == (d.start + d.pages * 4096) % 0x1_0000_0000_0000_0000 { EndIs(d); }
  }

  lemma EndIs(d: Region)
    ensures d.End() == (d.start + d.pages * 4096) % 0x1_0000_0000_0000_0000
  {
    WrapAgain(d.pages * 4096, d.start);
  }

  lemma {:induction false} LargestEnd(regions: seq<Region>)
    ensures forall d | d in regions :: d.End() <= MaxEnd(regions)
    ensures regions != [] ==> exists d | d in regions :: d.End() == MaxEnd(regions)
  {
    hide *;
    if regions != [] {
      var front, last := regions[..|regions| - 1], regions[|regions| - 1];
      LargestEnd(front);
      MaxEndStep(regions);
      if front != [] {
        var d :| d in front && d.End() == MaxEnd(front);
        assert d in regions && last in regions;
      } else {
        assert last in regions;
      }
    }
  }

  lemma MaxEndStep(regions: seq<Region>)
    requires regions != []
    ensures var front, last := regions[..|regions| - 1], regions[|regions| - 1];
      && (front == [] ==> MaxEnd(front) == 0)
      && MaxEnd(regions) == (if last.End() > MaxEnd(front) then last.End() else MaxEnd(front))
      && forall d :: d in regions <==> d in front || d == last
  {
    hide Region.End;
    assert regions == regions[..|regions| - 1] + [regions[|regions| - 1]];
  }

  function TotalPages(regions: seq<Region>): nat {
    MaxEnd(regions) / 4096
  }

  lemma TotalIs(regions: seq<Region>)
    ensures TotalPages(regions) == MaxEnd(regions) / 4096 < 0x10_0000_0000_0000
  {
  }

  /** The first conventional region of at least `size` bytes at or above 16 MiB; 0 (NULL) if none. */
  function BitmapAddress(regions: seq<Region>, size: nat): uint64 {
    if regions == [] then 0
    else if regions[0].kind == 7 && Wrap64(regions[0].pages * 4096) >= size && regions[0].start >= 0x100_0000
    then regions[0].start
    else BitmapAddress(regions[1..], size)
  }

  /** It is where the first conventional region at or above 16 MiB with room for the bitmap starts, and
      NULL exactly when there is none. */
  lemma {:induction false} BitmapAddressIsFirst(regions: seq<Region>, size: nat) returns (i: nat)
    ensures i <= |regions|
    ensures forall j | 0 <= j < i ::
      !(regions[j].kind == 7 && regions[j].start >= 0x100_0000 && regions[j].pages * 4096 % 0x1_0000_0000_0000_0000 >= size)
    ensures if i < |regions|
            then && regions[i].kind == 7 && regions[i].start >= 0x100_0000
                 && regions[i].pages * 4096 % 0x1_0000_0000_0000_0000 >= size
                 && BitmapAddress(regions, size) == regions[i].start
            else BitmapAddress(regions, size) == 0
  {
    i := 0;
    if regions != []
      && !(regions[0].kind == 7 && regions[0].start >= 0x100_0000 && regions[0].pages * 4096 % 0x1_0000_0000_0000_0000 >= size)
    {
      var k := BitmapAddressIsFirst(regions[1..], size);
      i := k + 1;
      forall j | 0 <= j < i
        ensures !(regions[j].kind == 7 && regions[j].start >= 0x100_0000
                  && regions[j].pages * 4096 % 0x1_0000_0000_0000_0000 >= size)
      {
        if j > 0 { assert regions[j] == regions[1..][j - 1]; }
      }
    }
  }

  /** What the region loop of pmm_init has cleared, below `total`. */
  ghost function AllCleared(regions: seq<Region>, total: nat): set<nat> {
    if regions == [] then {}
    else
      var d := regions[|regions| - 1];
      var rest := AllCleared(regions[..|regions| - 1], total);
      if d.Usable() && d.FirstPage() < d.EndPage(total)
      then rest + ClearedBy(d.FirstPage(), d.EndPage(total)) * Pages(0, total)
      else rest
  }

  /** In numbers: the regions of the kinds 3, 4 and 7 clear their pages up to the last bitmap byte, and
      inside a single byte the unaligned tail, or the whole byte if neither end is aligned. */
  lemma ClearedMeans(regions: seq<Region>, total: nat, p: nat)
    ensures p in AllCleared(regions, total) <==>
      p < total && exists d | d in regions ::
        && (d.kind == 3 || d.kind == 4 || d.kind == 7)
        && var s, end := d.start / 4096, (d.start / 4096 + d.pages) % 0x1_0000_0000_0000_0000;
           var e := if end > total then total else end;
           && s < e
           && if s / 8 < (e - 1) / 8 then s <= p < 8 * ((e - 1) / 8)
              else s % 8 != 0 && if e % 8 == 0 then s <= p < e else p / 8 == s / 8
  {
    forall d: Region
      ensures d.Usable() && d.FirstPage() < d.EndPage(total) && p in ClearedBy(d.FirstPage(), d.EndPage(total)) <==>
        && (d.kind == 3 || d.kind == 4 || d.kind == 7)
        && var s, end := d.start / 4096, (d.start / 4096 + d.pages) % 0x1_0000_0000_0000_0000;
           var e := if end > total then total else end;
           && s < e
           && if s / 8 < (e - 1) / 8 then s <= p < 8 * ((e - 1) / 8)
              else s % 8 != 0 && if e % 8 == 0 then s <= p < e else p / 8 == s / 8
    {
      RegionClears(d, total, p);
    }
    ClearedByRegions(regions, total, p);
    hide AllCleared, ClearedBy, Region.Usable, Region.FirstPage, Region.EndPage;
  }

  lemma RegionClears(d: Region, total: nat, p: nat)
    ensures d.Usable() && d.FirstPage() < d.EndPage(total) && p in ClearedBy(d.FirstPage(), d.EndPage(total)) <==>
      && (d.kind == 3 || d.kind == 4 || d.kind == 7)
      && var s, end := d.start / 4096, (d.start / 4096 + d.pages) % 0x1_0000_0000_0000_0000;
         var e := if end > total then total else end;
         && s < e
         && if s / 8 < (e - 1) / 8 then s <= p < 8 * ((e - 1) / 8)
            else s % 8 != 0 && if e % 8 == 0 then s <= p < e else p / 8 == s / 8
  {
    hide Pages;
  }

  lemma {:induction false} ClearedByRegions(regions: seq<Region>, total: nat, p: nat)
    ensures p in AllCleared(regions, total) <==>
      p < total && exists d | d in regions ::
        d.Usable() && d.FirstPage() < d.EndPage(total) && p in ClearedBy(d.FirstPage(), d.EndPage(total))
  {
    hide ClearedBy, Region.Usable, Region.FirstPage, Region.EndPage;
    if regions != [] {
      var front, last := regions[..|regions| - 1], regions[|regions| - 1];
      ClearedByRegions(front, total, p);
      assert forall d :: d in regions <==> d in front || d == last by { assert regions == front + [last]; }
    }
  }

  /** What the region loop of pmm_init has counted, before wrap-around. */
  ghost function Counted(regions: seq<Region>, total: nat): nat {
    if regions == [] then 0
    else
      var d := regions[|regions| - 1];
      Counted(regions[..|regions| - 1], total)
      + if d.Usable() && d.FirstPage() < d.EndPage(total) then d.EndPage(total) - d.FirstPage() else 0
  }

  /** In numbers, region by region. */
  lemma CountedMeans(regions: seq<Region>, d: Region, total: nat)
    ensures Counted([], total) == 0
    ensures Counted(regions + [d], total) == Counted(regions, total) +
      var s, end := d.start / 4096, (d.start / 4096 + d.pages) % 0x1_0000_0000_0000_0000;
      var e := if end > total then total else end;
      if (d.kind == 3 || d.kind == 4 || d.kind == 7) && s < e then e - s else 0
  {
    assert (regions + [d])[..|regions|] == regions;
  }

  /** The pages pmm_init takes back: the first 16 MiB and the bitmap's own. */
  ghost function Protected(bitmapAddress: uint64, size: nat): set<nat> {
    Pages(0, FIRST_PAGE) + Pages(bitmapAddress / 4096, bitmapAddress / 4096 + (size + 4095) / 4096)
  }

  lemma ProtectedIs(bitmapAddress: uint64, size: nat)
    ensures Protected(bitmapAddress, size) ==
      Pages(0, FIRST_PAGE) + Pages(bitmapAddress / 4096, bitmapAddress / 4096 + (size + 4095) / 4096)
    ensures FIRST_PAGE == 4096
  {
  }

  lemma ProtectedMeans(bitmapAddress: uint64, size: nat)
    ensures forall p: nat :: p in Protected(bitmapAddress, size) <==>
      p < 4096 || bitmapAddress / 4096 <= p < bitmapAddress / 4096 + (size + 4095) / 4096
  {
    hide Pages;
  }

  /** In numbers, the pages that pmm_init leaves clear: of those at or above 16 MiB and outside the
      bitmap, the ones that a region of kind 3, 4 or 7 clears -- its pages up to the last bitmap byte,
      and inside a single byte the unaligned tail, or the whole byte if neither end is aligned. */
  ghost predicate LeftClear(regions: seq<Region>, total: nat, bitmapAddress: uint64, size: nat, p: nat) {
    && 4096 <= p < total && !(bitmapAddress / 4096 <= p < bitmapAddress / 4096 + (size + 4095) / 4096)
    && exists d | d in regions ::
         && (d.kind == 3 || d.kind == 4 || d.kind == 7)
         && var s, end := d.start / 4096, (d.start / 4096 + d.pages) % 0x1_0000_0000_0000_0000;
            var e := if end > total then total else end;
            && s < e
            && if s / 8 < (e - 1) / 8 then s <= p < 8 * ((e - 1) / 8)
               else s % 8 != 0 && if e % 8 == 0 then s <= p < e else p / 8 == s / 8
  }

  lemma LeftClearIs(regions: seq<Region>, total: nat, bitmapAddress: uint64, size: nat)
    ensures forall p: nat :: p in AllCleared(regions, total) - Protected(bitmapAddress, size) <==>
      LeftClear(regions, total, bitmapAddress, size, p)
  {
    forall p: nat
      ensures p in AllCleared(regions, total) - Protected(bitmapAddress, size) <==> LeftClear(regions, total, bitmapAddress, size, p)
    {
      ProtectedMeans(bitmapAddress, size);
      ClearedMeans(regions, total, p);
      hide AllCleared, Protected;
    }
  }

  /** The pages of the partial first byte of a range, and of its partial last byte. */
  ghost function HeadPages(s: nat): set<nat> {
    if s % 8 != 0 then Pages(8 * (s / 8) + s % 8, 8 * (s / 8) + 8) else {}
  }

  ghost function TailPages(e: nat): set<nat>
    requires e > 0
  {
    if e % 8 != 0 then Pages(8 * ((e - 1) / 8) + 0, 8 * ((e - 1) / 8) + e % 8) else {}
  }

  lemma HeadIs(s: nat)
    ensures HeadPages(s) == if s % 8 != 0 then Pages(8 * (s / 8) + s % 8, 8 * (s / 8) + 8) else {}
  {
  }

  lemma TailIs(e: nat)
    requires e > 0
    ensures TailPages(e) == if e % 8 != 0 then Pages(8 * ((e - 1) / 8) + 0, 8 * ((e - 1) / 8) + e % 8) else {}
  {
  }

  lemma EmptyRange(lo: nat, hi: nat)
    requires hi <= lo
    ensures Pages(lo, hi) == {}
  {
  }

  lemma HeadAndTail(s: nat, e: nat, p: nat)
    requires e > 0
    ensures p in HeadPages(s) <==> s % 8 != 0 && s <= p < 8 * (s / 8) + 8
    ensures p in TailPages(e) <==> e % 8 != 0 && 8 * ((e - 1) / 8) <= p < e
  {
    hide Pages;
  }

  /** MarkedBy in terms of the three writes: first byte, whole bytes, last byte. */
  lemma MarkedPieces(s: nat, e: nat)
    requires s < e
    ensures var first := s / 8 + if s % 8 != 0 then 1 else 0;
      MarkedBy(s, e) == HeadPages(s) + Pages(8 * first, 8 * ((e - 1) / 8)) + TailPages(e)
  {
    hide HeadPages, TailPages, Pages;
    forall p: nat ensures p in MarkedBy(s, e) <==>
      p in HeadPages(s) || p in Pages(8 * (s / 8 + if s % 8 != 0 then 1 else 0), 8 * ((e - 1) / 8)) || p in TailPages(e)
    {
      HeadAndTail(s, e, p);
      Ends(s, e);
    }
  }

  /** ClearedBy in terms of the three writes: the last byte only when it is the first one too. */
  lemma ClearedPieces(s: nat, e: nat)
    requires s < e
    ensures var first := s / 8 + if s % 8 != 0 then 1 else 0;
      ClearedBy(s, e) == HeadPages(s) + Pages(8 * first, 8 * ((e - 1) / 8))
                         + if (e - 1) / 8 == first - 1 then TailPages(e) else {}
  {
    hide HeadPages, TailPages, Pages;
    forall p: nat ensures p in ClearedBy(s, e) <==>
      || p in HeadPages(s)
      || p in Pages(8 * (s / 8 + if s % 8 != 0 then 1 else 0), 8 * ((e - 1) / 8))
      || ((e - 1) / 8 == s / 8 && s % 8 != 0 && p in TailPages(e))
    {
      HeadAndTail(s, e, p);
      Ends(s, e);
    }
  }

  /** The byte arithmetic of a range's two ends. */
  lemma Ends(s: nat, e: nat)
    requires s < e
    ensures s / 8 <= (e - 1) / 8
    ensures s % 8 == 0 <==> s == 8 * (s / 8)
    ensures e % 8 == 0 <==> e == 8 * ((e - 1) / 8) + 8
    ensures s < 8 * (s / 8) + 8 && 8 * ((e - 1) / 8) < e <= 8 * ((e - 1) / 8) + 8
  {
  }

  /** One more page of a range: what it takes from a set and from its size. */
  lemma CountStep(s: set<nat>, lo: nat, i: nat)
    requires lo <= i
    ensures s - Pages(lo, i + 1) == if i in s then s - Pages(lo, i) - {i} else s - Pages(lo, i)
    ensures |s * Pages(lo, i + 1)| == |s * Pages(lo, i)| + if i in s then 1 else 0
  {
    hide Pages;
    assert Pages(lo, i + 1) == Pages(lo, i) + {i};
    var part := s * Pages(lo, i);
    if i in s {
      assert s * Pages(lo, i + 1) == part + {i};
      assert i !in part;
    } else {
      assert s * Pages(lo, i + 1) == part;
    }
  }

  /** Clear pages and counter once the pages lo to i are taken out. */
  ghost function Without(s: State, lo: nat, i: nat): State {
    State(s.clear - Pages(lo, i), Wrap64(s.free - |s.clear * Pages(lo, i)|))
  }

  lemma WithoutNone(s: State, lo: nat)
    ensures Without(s, lo, lo) == s
  {
    NoPages(lo);
    hide Pages;
    assert s.clear * Pages(lo, lo) == {} && s.clear - Pages(lo, lo) == s.clear;
  }

  lemma WithoutIs(s: State, lo: nat, i: nat)
    ensures Without(s, lo, i) == State(s.clear - Pages(lo, i), Wrap64(s.free - |s.clear * Pages(lo, i)|))
  {
  }

  /** One more page of the range. */
  lemma ProtectStep(s: State, lo: nat, i: nat)
    requires lo <= i
    ensures var t := Without(s, lo, i);
      Without(s, lo, i + 1) == State(t.clear - {i}, if i in t.clear then Wrap64(t.free - 1) else t.free)
  {
    hide *;
    StepOut(s.clear, s.free, lo, i);
    WithoutIs(s, lo, i);
    WithoutIs(s, lo, i + 1);
  }

  lemma StepOut(s: set<nat>, free: uint64, lo: nat, i: nat)
    requires lo <= i
    ensures s - Pages(lo, i + 1) == s - Pages(lo, i) - {i}
    ensures Wrap64(free - |s * Pages(lo, i + 1)|) ==
      if i in s - Pages(lo, i) then Wrap64(Wrap64(free - |s * Pages(lo, i)|) - 1) else Wrap64(free - |s * Pages(lo, i)|)
  {
    hide Pages, Wrap64;
    CountStep(s, lo, i);
    WrapAgain(free - |s * Pages(lo, i)|, 1);
  }

  /** Taking two ranges out one after the other. */
  lemma CountTwo(s: set<nat>, a: set<nat>, b: set<nat>)
    ensures s - a - b == s - (a + b)
    ensures |s * (a + b)| == |s * a| + |(s - a) * b|
  {
    assert s * (a + b) == s * a + (s - a) * b;
  }

  class Allocator {
    var bitmap: array<bv8>
    var bitmapAddress: uint64
    var totalPages: nat
    var freePages: uint64

    ghost predicate Shape()
      reads this`bitmap, this`totalPages
    {
      totalPages < 0x10_0000_0000_0000 && bitmap.Length == (totalPages + 7) / 8
    }

    /** The clear pages. */
    ghost function Clear(): set<nat>
      reads this`bitmap, this`totalPages, bitmap
      requires Shape()
    {
      ClearPages(bitmap[..], totalPages)
    }

    /** The invariant pmm_init establishes: the first 16 MiB are never clear. */
    ghost predicate Valid()
      reads this`bitmap, this`totalPages, bitmap
    {
      Shape() && forall p :: p in Clear() ==> FIRST_PAGE <= p
    }

    ghost function Abstract(): State
      reads this, bitmap
      requires Shape()
    {
      State(Clear(), freePages)
    }

    /** TEST_BIT. */
    function Test(i: nat): (r: bool)
      reads this, bitmap
      requires Shape() && i < totalPages
      ensures r <==> i !in Clear()
    {
      Used(bitmap[..], i)
    }

    method Set(i: nat)
      requires Shape() && i < totalPages
      modifies bitmap
      ensures Clear() == old(Clear()) - {i}
    {
      bitmap[i / 8] := SetBit(bitmap[i / 8], i % 8);
      SetBitPages(old(bitmap[..]), bitmap[..], totalPages, i);
    }

    method Reset(i: nat)
      requires Shape() && i < totalPages
      modifies bitmap
      ensures Clear() == old(Clear()) + {i}
    {
      bitmap[i / 8] := ClearBit(bitmap[i / 8], i % 8);
      ClearBitPages(old(bitmap[..]), bitmap[..], totalPages, i);
    }

    /** memset(&bitmap[lo], 0xFF, hi - lo). */
    method FillOnes(lo: nat, hi: nat)
      requires Shape() && lo <= hi <= bitmap.Length
      modifies bitmap
      ensures Clear() == old(Clear()) - Pages(8 * lo, 8 * hi)
    {
      hide Bit, ClearPages, Pages;
      NoPages(8 * lo);
      for k := lo to hi
        invariant Clear() == old(Clear()) - Pages(8 * lo, 8 * k)
      {
        ghost var before := bitmap[..];
        bitmap[k] := 0xFF;
        FilledByte(before, bitmap[..], totalPages, k);
        MorePages(old(Clear()), {}, 8 * lo, 8 * k);
      }
    }

    /** memset(&bitmap[lo], 0x00, hi - lo). */
    method FillZeros(lo: nat, hi: nat)
      requires Shape() && lo <= hi <= bitmap.Length
      modifies bitmap
      ensures Clear() == old(Clear()) + Pages(8 * lo, 8 * hi) * Pages(0, totalPages)
    {
      hide Bit, ClearPages, Pages;
      NoPages(8 * lo);
      for k := lo to hi
        invariant Clear() == old(Clear()) + Pages(8 * lo, 8 * k) * Pages(0, totalPages)
      {
        ghost var before := bitmap[..];
        bitmap[k] := 0x00;
        ZeroedByte(before, bitmap[..], totalPages, k);
        MorePages(old(Clear()), Pages(0, totalPages), 8 * lo, 8 * k);
      }
    }

    /** pmm_alloc_page. */
    method AllocPage() returns (addr: nat)
      requires Valid()
      modifies this`freePages, bitmap
      ensures Valid()
      ensures (Abstract(), addr) == AllocStep(old(Abstract()))
    {
      hide *;
      Bounds();
      AbstractIs();
      AllocatableBounds(Clear());
      var startByte := FIRST_PAGE / 8;
      var endByte := totalPages / 8;
      var i := startByte;
      while i < endByte
        invariant startByte <= i && Valid() && Shape()
        invariant forall q | q in Allocatable(Clear()) :: 8 * i <= q
        invariant Clear() == old(Clear()) && Abstract() == old(Abstract()) && freePages == old(freePages)
      {
        Bounds();
        BytesOfRange(0, 8 * i + 8);
        if bitmap[i] != 0xFF {
          var j := 0;
          while j < 8
            invariant 0 <= j <= 8 && Valid() && Shape()
            invariant forall q | q in Allocatable(Clear()) :: 8 * i + j <= q
            invariant Clear() == old(Clear()) && Abstract() == old(Abstract()) && freePages == old(freePages)
          {
            var page := i * 8 + j;
            if page >= totalPages { break; }
            NotAllocatable(Clear(), page);
            if !Test(page) {
              addr := page * 4096;
              if !ValidAddress(addr) { j := j + 1; continue; }
              Take(page);
              return;
            }
            j := j + 1;
          }
        } else {
          FullByteUsed(i);
          AllocatableBounds(Clear());
        }
        i := i + 1;
      }
      var k := totalPages / 8 * 8;
      while k < totalPages
        invariant Valid() && Shape() && forall q | q in Allocatable(Clear()) :: k <= q
        invariant Clear() == old(Clear()) && Abstract() == old(Abstract()) && freePages == old(freePages)
      {
        NotAllocatable(Clear(), k);
        if !Test(k) {
          addr := k * 4096;
          if !ValidAddress(addr) { k := k + 1; continue; }
          Bounds();
          Take(k);
          return;
        }
        k := k + 1;
      }
      addr := 0;
      ClearBelowTotal();
      NothingAllocatable(Abstract(), totalPages);
    }

    /** SET_BIT and the counter, for the least page that can be had. */
    method Take(page: nat)
      requires Valid() && Shape() && page < totalPages && page in Clear() && FIRST_PAGE <= page
      requires page * 4096 < 0x1_0000_0000_0000_0000 && ValidAddress(page * 4096)
      requires forall q | q in Allocatable(Clear()) :: page <= q
      modifies this`freePages, bitmap
      ensures Valid() && Shape() && (Abstract(), page * 4096) == AllocStep(old(Abstract()))
    {
      hide *;
      ghost var clear := Clear();
      AbstractIs();
      LeastAllocatable(Abstract(), page);
      Bounds();
      Set(page);
      freePages := Wrap64(freePages - 1);
      AbstractIs();
      StillValid(clear, {page});
    }

    /** pmm_free_page. */
    method FreePage(addr: uint64)
      requires Valid()
      modifies this`freePages, bitmap
      ensures Valid()
      ensures Abstract() == FreeStep(old(Abstract()), totalPages, addr / 4096)
    {
      var page := addr / 4096;
      if FIRST_PAGE <= page < totalPages {
        if Test(page) {
          Reset(page);
          freePages := Wrap64(freePages + 1);
        }
      }
    }

    /** pmm_free_blocks. */
    method FreeBlocks(addr: uint64, count: uint64)
      requires Valid()
      modifies this`freePages, bitmap
      ensures Valid()
      ensures Abstract() == FreeManySteps(old(Abstract()), totalPages, addr / 4096, count)
    {
      var first := addr / 4096;
      for i := 0 to count
        invariant Valid()
        invariant Abstract() == FreeManySteps(old(Abstract()), totalPages, first, i)
      {
        var a: uint64 := Wrap64((first + i) * 4096);
        PageOfAddress(first + i);
        FreePage(a);
      }
    }

    /** bitmap[b] |= mask, for a mask of bits lo to hi. */
    method OrByte(b: nat, mask: bv8, ghost lo: nat, ghost hi: nat)
      requires Shape() && b < bitmap.Length && lo <= hi <= 8
      requires forall k: nat | k < 8 :: Bit(mask, k) == (lo <= k < hi)
      modifies bitmap
      ensures Clear() == old(Clear()) - Pages(8 * b + lo, 8 * b + hi)
    {
      hide Bit, ClearPages, Pages;
      var a := bitmap[b];
      var x := a | mask;
      OrMask(a, mask, x, lo, hi);
      bitmap[b] := x;
      MaskedByte(old(bitmap[..]), bitmap[..], totalPages, b, a, x, lo, hi);
    }

    /** bitmap[b] &= ~mask, for a mask of bits lo to hi. */
    method AndNotByte(b: nat, mask: bv8, ghost lo: nat, ghost hi: nat)
      requires Shape() && b < bitmap.Length && lo <= hi <= 8
      requires forall k: nat | k < 8 :: Bit(mask, k) == (lo <= k < hi)
      modifies bitmap
      ensures Clear() == old(Clear()) + Pages(8 * b + lo, 8 * b + hi) * Pages(0, totalPages)
    {
      hide Bit, ClearPages, Pages;
      var a := bitmap[b];
      var x := a & !mask;
      AndNotMask(a, mask, x, lo, hi);
      bitmap[b] := x;
      UnmaskedByte(old(bitmap[..]), bitmap[..], totalPages, b, a, x, lo, hi);
    }

    /** The bytes of a range lie in the bitmap. */
    lemma BytesOfRange(s: nat, e: nat)
      requires Shape() && s < e <= totalPages
      ensures s / 8 <= (e - 1) / 8 < bitmap.Length
    {
    }

    /** The byte-mask marking inside pmm_alloc_blocks. */
    method MarkRun(s: nat, e: nat)
      requires Shape() && s < e <= totalPages
      modifies bitmap
      ensures Clear() == old(Clear()) - MarkedBy(s, e)
    {
      hide *;
      BytesOfRange(s, e);
      MarkedPieces(s, e);
      HeadIs(s);
      TailIs(e);
      var startByte, endByte := s / 8, (e - 1) / 8;
      if s % 8 != 0 {
        OrByte(startByte, MaskFrom(s % 8), s % 8, 8);
        startByte := startByte + 1;
      }
      assert Clear() == old(Clear()) - HeadPages(s);
      if startByte < endByte {
        FillOnes(startByte, endByte);
      }
      assert Clear() == old(Clear()) - HeadPages(s) - Pages(8 * startByte, 8 * endByte) by {
        if startByte >= endByte { EmptyRange(8 * startByte, 8 * endByte); }
      }
      if e % 8 != 0 {
        OrByte(endByte, MaskBelow(e % 8), 0, e % 8);
      }
    }

    /** The byte-wise clearing of one region inside pmm_init. */
    method ClearRegion(s: nat, e: nat)
      requires Shape() && s < e <= totalPages
      modifies bitmap
      ensures Clear() == old(Clear()) + ClearedBy(s, e) * Pages(0, totalPages)
    {
      hide *;
      BytesOfRange(s, e);
      ClearedPieces(s, e);
      HeadIs(s);
      TailIs(e);
      ghost var all := Pages(0, totalPages);
      var startByte, endByte := s / 8, (e - 1) / 8;
      if s % 8 != 0 {
        AndNotByte(startByte, MaskFrom(s % 8), s % 8, 8);
        startByte := startByte + 1;
      }
      assert Clear() == old(Clear()) + HeadPages(s) * all;
      if startByte < endByte {
        FillZeros(startByte, endByte);
      }
      assert Clear() == old(Clear()) + HeadPages(s) * all + Pages(8 * startByte, 8 * endByte) * all by {
        if startByte >= endByte { EmptyRange(8 * startByte, 8 * endByte); }
      }
      if endByte == startByte - 1 {
        if e % 8 != 0 {
          AndNotByte(endByte, MaskBelow(e % 8), 0, e % 8);
        }
      }
    }

    /** pmm_alloc_blocks. */
    method AllocBlocks(count: uint64) returns (addr: nat)
      requires Valid()
      modifies this`freePages, bitmap
      ensures Valid()
      ensures BlocksStep(old(Abstract()), count, Abstract(), addr)
    {
      hide *;
      Bounds();
      AbstractIs();
      ghost var clear := Clear();
      addr := 0;
      if count == 0 || count > freePages {
        NoBlocks(Abstract(), count);
        return;
      }
      var i, consecutive, startIndex := FIRST_PAGE, 0, 0;
      RunStart(clear, i, count);
      while i < totalPages
        invariant FIRST_PAGE <= i && consecutive < count && consecutive <= i - FIRST_PAGE
        invariant consecutive > 0 ==> startIndex + consecutive == i
        invariant IsRun(clear, i - consecutive, consecutive)
        invariant forall f | IsRun(clear, f, count) :: i - consecutive <= f
        invariant Shape() && Valid() && Clear() == clear && freePages == old(freePages) && Abstract() == old(Abstract())
      {
        if !Test(i) {
          if consecutive == 0 { startIndex := i; }
          RunMore(clear, startIndex, consecutive);
          consecutive := consecutive + 1;
          if consecutive == count {
            MarkRun(startIndex, startIndex + count);
            freePages := freePages - count;
            addr := startIndex * 4096;
            AbstractIs();
            StillValid(clear, MarkedBy(startIndex, startIndex + count));
            SomeBlocks(old(Abstract()), count, Abstract(), startIndex);
            return;
          }
        } else {
          RunBroken(clear, i, consecutive, count);
          consecutive := 0;
        }
        i := i + 1;
      }
      ClearBelowTotal();
      NoRun(clear, totalPages, i - consecutive, count);
      NoBlocks(Abstract(), count);
    }

    lemma MakeShape()
      requires totalPages < 0x10_0000_0000_0000 && bitmap.Length == (totalPages + 7) / 8
      ensures Shape()
    {
    }

    lemma AbstractIs()
      requires Shape()
      ensures Abstract() == State(Clear(), freePages)
    {
    }

    lemma Bounds()
      requires Valid()
      ensures Shape() && FIRST_PAGE == 4096 && totalPages < 0x10_0000_0000_0000
      ensures forall p :: p in Clear() ==> FIRST_PAGE <= p
    {
      hide ClearPages;
    }

    /** Fewer clear pages keep the invariant. */
    lemma StillValid(all: set<nat>, marked: set<nat>)
      requires Shape() && Clear() == all - marked && forall p :: p in all ==> FIRST_PAGE <= p
      ensures Valid()
    {
      hide ClearPages;
    }

    /** One of the two loops that take pages back, over the pages lo to hi. */
    method Protect(lo: nat, hi: nat)
      requires Shape() && lo <= hi
      modifies this`freePages, bitmap
      ensures Shape()
      ensures Clear() == old(Clear()) - Pages(lo, hi)
      ensures freePages == Wrap64(old(freePages) - |old(Clear()) * Pages(lo, hi)|)
    {
      hide *;
      ghost var s := State(Clear(), freePages);
      WithoutNone(s, lo);
      for i := lo to hi
        invariant Shape()
        invariant State(Clear(), freePages) == Without(s, lo, i)
      {
        ProtectStep(s, lo, i);
        ProtectOne(i);
      }
      WithoutIs(s, lo, hi);
    }

    /** `if (!TEST_BIT(i)) { SET_BIT(i); free_pages--; }` for one page, if it exists. */
    method ProtectOne(i: nat)
      requires Shape()
      modifies this`freePages, bitmap
      ensures Shape() && Clear() == old(Clear()) - {i}
      ensures freePages == if i in old(Clear()) then Wrap64(old(freePages) - 1) else old(freePages)
    {
      hide Bit, ClearPages, Wrap64;
      if i < totalPages && !Test(i) {
        Set(i);
        freePages := Wrap64(freePages - 1);
      } else {
        ClearBelowTotal();
      }
    }

    lemma FullByteUsed(b: nat)
      requires Shape() && b < bitmap.Length && bitmap[b] == 0xFF
      ensures forall p :: p in Clear() ==> p / 8 != b
    {
      FullByte(bitmap[b]);
    }

    lemma ClearBelowTotal()
      requires Shape()
      ensures forall p :: p in Clear() ==> p < totalPages
    {
    }

    static method HighestEnd(regions: seq<Region>) returns (maxAddr: uint64)
      ensures maxAddr == MaxEnd(regions)
    {
      maxAddr := 0;
      for i := 0 to |regions|
        invariant maxAddr == MaxEnd(regions[..i])
      {
        assert regions[..i + 1][..i] == regions[..i];
        var end := regions[i].End();
        if end > maxAddr { maxAddr := end; }
      }
      assert regions[..|regions|] == regions;
    }

    static method FindBitmap(regions: seq<Region>, size: nat) returns (address: uint64)
      ensures address == BitmapAddress(regions, size)
    {
      address := 0;
      var i := 0;
      while i < |regions|
        invariant 0 <= i <= |regions|
        invariant address == 0
        invariant BitmapAddress(regions, size) == BitmapAddress(regions[i..], size)
      {
        var d := regions[i];
        assert regions[i..][1..] == regions[i + 1..];
        if d.kind == 7 && Wrap64(d.pages * 4096) >= size && d.start >= 0x100_0000 {
          address := d.start;
          break;
        }
        i := i + 1;
      }
    }

    /** The second pass of pmm_init over the map: clear the usable regions and count them. */
    method ReleaseRegions(regions: seq<Region>)
      requires Shape() && Clear() == {} && freePages == 0
      modifies this`freePages, bitmap
      ensures Shape()
      ensures Clear() == AllCleared(regions, totalPages)
      ensures freePages == Wrap64(Counted(regions, totalPages))
    {
      hide Bit, ClearPages, ClearedBy, Pages, Wrap64;
      WrapSame(0);
      for i := 0 to |regions|
        invariant Shape()
        invariant Clear() == AllCleared(regions[..i], totalPages)
        invariant freePages == Wrap64(Counted(regions[..i], totalPages))
      {
        assert regions[..i + 1][..i] == regions[..i];
        var d := regions[i];
        if d.Usable() {
          var startPage, endPage := d.FirstPage(), d.EndPage(totalPages);
          if startPage >= endPage { continue; }
          ClearRegion(startPage, endPage);
          WrapAgain(Counted(regions[..i], totalPages), endPage - startPage);
          freePages := Wrap64(freePages + (endPage - startPage));
        }
      }
      assert regions[..|regions|] == regions;
    }

    /** The last two loops of pmm_init: take back the first 16 MiB, then the bitmap's own pages. */
    method Reserve()
      requires Shape()
      modifies this`freePages, bitmap
      ensures Valid()
      ensures Clear() == old(Clear()) - Protected(bitmapAddress, bitmap.Length)
      ensures freePages == Wrap64(old(freePages) - |old(Clear()) * Protected(bitmapAddress, bitmap.Length)|)
    {
      hide *;
      ProtectedIs(bitmapAddress, bitmap.Length);
      ghost var all, free := Clear(), freePages;
      var ownPage, ownPages := bitmapAddress / 4096, (bitmap.Length + 4095) / 4096;
      ghost var low, own := Pages(0, FIRST_PAGE), Pages(ownPage, ownPage + ownPages);
      CountTwo(all, low, own);
      Protect(0, FIRST_PAGE);
      Protect(ownPage, ownPage + ownPages);
      WrapAgain(free - |all * low|, |(all - low) * own|);
      LowPagesGone(all, own);
    }

    /** With the first 16 MiB out, the invariant holds. */
    lemma LowPagesGone(all: set<nat>, own: set<nat>)
      requires Shape() && Clear() == all - Pages(0, FIRST_PAGE) - own
      ensures Valid()
    {
      hide ClearPages, Pages;
    }

    lemma FreshBitmap()
      requires Shape() && forall k | 0 <= k < bitmap.Length :: bitmap[k] == 0xFF
      ensures Clear() == {}
    {
      FullByte(0xFF);
    }

    /** The passes of pmm_init over a bitmap with every bit set. */
    method StartUp(regions: seq<Region>)
      requires Shape() && Clear() == {} && freePages == 0
      modifies this`freePages, bitmap
      ensures Valid()
      ensures Clear() == AllCleared(regions, totalPages) - Protected(bitmapAddress, bitmap.Length)
      ensures forall p: nat :: p in Clear() <==> LeftClear(regions, totalPages, bitmapAddress, bitmap.Length, p)
      ensures freePages == Wrap64(Counted(regions, totalPages)
                                  - |AllCleared(regions, totalPages) * Protected(bitmapAddress, bitmap.Length)|)
    {
      hide *;
      ReleaseRegions(regions);
      Reserve();
      WrapAgain(Counted(regions, totalPages),
                |AllCleared(regions, totalPages) * Protected(bitmapAddress, bitmap.Length)|);
      LeftClearIs(regions, totalPages, bitmapAddress, bitmap.Length);
    }

    /** pmm_init over the decoded memory map. */
    constructor Init(regions: seq<Region>)
      ensures Valid() && fresh(bitmap)
      ensures totalPages == TotalPages(regions) && bitmapAddress == BitmapAddress(regions, bitmap.Length)
      ensures bitmap.Length == (totalPages + 7) / 8
      ensures Clear() == AllCleared(regions, totalPages) - Protected(bitmapAddress, bitmap.Length)
      ensures forall p: nat :: p in Clear() <==> LeftClear(regions, totalPages, bitmapAddress, bitmap.Length, p)
      ensures freePages == Wrap64(Counted(regions, totalPages)
                                  - |AllCleared(regions, totalPages) * Protected(bitmapAddress, bitmap.Length)|)
    {
      hide *;
      TotalIs(regions);
      var maxAddr := HighestEnd(regions);
      var size := (maxAddr / 4096 + 7) / 8;
      totalPages := maxAddr / 4096;
      var address := FindBitmap(regions, size);
      bitmapAddress := address;
      freePages := 0;
      bitmap := new bv8[size](_ => 0xFF);
      new;
      MakeShape();
      FreshBitmap();
      StartUp(regions);
    }
  }
}
