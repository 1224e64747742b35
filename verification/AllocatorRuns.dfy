/** What the page allocator keeps over whole runs, and what pmm_init promises. */
module AllocatorRuns {
  import opened Words
  import opened Bitmap
  import opened PageAllocator

  // ----- pmm_init -----

  /** No usable region has both ends strictly inside one bitmap byte. */
  ghost predicate NoInnerRegion(regions: seq<Region>, total: nat) {
    forall d | d in regions && d.Usable() && d.FirstPage() < d.EndPage(total) ::
      !InsideOneByte(d.FirstPage(), d.EndPage(total))
  }

  /** What one usable region releases, when it is not inside one bitmap byte. */
  lemma RegionReleases(d: Region, total: nat)
    requires d.Usable() && d.FirstPage() < d.EndPage(total)
    requires !InsideOneByte(d.FirstPage(), d.EndPage(total))
    ensures forall p | p in ClearedBy(d.FirstPage(), d.EndPage(total)) :: d.Contains(p)
    ensures |ClearedBy(d.FirstPage(), d.EndPage(total)) * Pages(0, total)| <= d.EndPage(total) - d.FirstPage()
  {
    var s, e := d.FirstPage(), d.EndPage(total);
    assert e <= s + d.pages;
    ClearedWithinRegion(s, e);
    forall p | p in ClearedBy(s, e) ensures d.Contains(p) {
      assert p in Pages(s, e);
    }
    SubsetSize(ClearedBy(s, e) * Pages(0, total), ClearedBy(s, e));
  }

  lemma {:induction false} ClearedAreUsable(regions: seq<Region>, total: nat)
    requires NoInnerRegion(regions, total)
    ensures forall p | p in AllCleared(regions, total) :: p < total && exists d | d in regions :: d.Contains(p)
    ensures |AllCleared(regions, total)| <= Counted(regions, total)
  {
    hide *;
    if regions == [] {
      NothingReleased(total);
    } else {
      var n := |regions| - 1;
      var front, d := regions[..n], regions[n];
      FrontRegions(regions, total);
      ClearedAreUsable(front, total);
      OneMoreRegion(regions, total);
      if Counts(d, total) {
        CountsMeans(d, total);
        RegionReleases(d, total);
        UnionSize(AllCleared(front, total), ClearedBy(d.FirstPage(), d.EndPage(total)) * Pages(0, total));
        assert d in regions;
      }
    }
  }

  /** The region loop of pmm_init releases and counts region d. */
  predicate Counts(d: Region, total: nat) {
    d.Usable() && d.FirstPage() < d.EndPage(total)
  }

  lemma CountsMeans(d: Region, total: nat)
    ensures Counts(d, total) <==> d.Usable() && d.FirstPage() < d.EndPage(total)
    ensures d.EndPage(total) <= total
    ensures forall p: nat :: p in Pages(0, total) <==> p < total
  {
    hide Pages;
  }

  lemma NothingReleased(total: nat)
    ensures AllCleared([], total) == {} && Counted([], total) == 0
  {
  }

  lemma FrontRegions(regions: seq<Region>, total: nat)
    requires regions != [] && NoInnerRegion(regions, total)
    ensures var front, d := regions[..|regions| - 1], regions[|regions| - 1];
      && NoInnerRegion(front, total) && (forall x :: x in front ==> x in regions) && d in regions
      && (Counts(d, total) ==> !InsideOneByte(d.FirstPage(), d.EndPage(total)))
  {
    hide Region.FirstPage, Region.EndPage, InsideOneByte;
    assert forall x :: x in regions[..|regions| - 1] ==> x in regions;
  }

  lemma OneMoreRegion(regions: seq<Region>, total: nat)
    requires regions != []
    ensures var front, d := regions[..|regions| - 1], regions[|regions| - 1];
      if Counts(d, total) then
        && AllCleared(regions, total) == AllCleared(front, total) + ClearedBy(d.FirstPage(), d.EndPage(total)) * Pages(0, total)
        && Counted(regions, total) == Counted(front, total) + (d.EndPage(total) - d.FirstPage())
      else AllCleared(regions, total) == AllCleared(front, total) && Counted(regions, total) == Counted(front, total)
  {
    hide ClearedBy, Pages, Region.FirstPage, Region.EndPage;
  }

  lemma UnionSize<T>(a: set<T>, b: set<T>)
    ensures |a + b| <= |a| + |b|
  {
    assert a + b == a + (b - a);
    SubsetSize(b - a, b);
  }

  /** Some usable region of the map holds page p. */
  ghost predicate InUsable(regions: seq<Region>, p: nat) {
    exists d | d in regions :: d.Contains(p)
  }

  /** What pmm_init leaves clear lies below the end of memory, at or above 16 MiB and outside the
      bitmap; with no region inside one bitmap byte it also lies in a usable region. */
  lemma InitIsSafe(regions: seq<Region>, total: nat, bitmapAddress: uint64, size: nat, p: nat)
    requires p in AllCleared(regions, total) - Protected(bitmapAddress, size)
    ensures FIRST_PAGE <= p < total
    ensures !(bitmapAddress / 4096 <= p < bitmapAddress / 4096 + (size + 4095) / 4096)
    ensures NoInnerRegion(regions, total) ==> InUsable(regions, p)
  {
    var d := ClearedBySome(regions, total, p);
    if NoInnerRegion(regions, total) { RegionReleases(d, total); }
  }

  /** Start-up releases conventional memory and that of the boot services, which is what the kinds 7, 3
      and 4 are: of such a region every page up to the last bitmap byte, if nothing else takes it. */
  lemma InitReleases(regions: seq<Region>, total: nat, bitmapAddress: uint64, size: nat, d: Region, p: nat)
    requires d in regions && (d.kind == 7 || d.kind == 3 || d.kind == 4) && d.start / 4096 + d.pages <= total < 0x10_0000_0000_0000
    requires d.start / 4096 <= p < 8 * ((d.start / 4096 + d.pages - 1) / 8) && 4096 <= p
    requires !(bitmapAddress / 4096 <= p < bitmapAddress / 4096 + (size + 4095) / 4096)
    ensures LeftClear(regions, total, bitmapAddress, size, p)
  {
    InEarlierByte(d.start / 4096, d.start / 4096 + d.pages, p);
  }

  lemma InEarlierByte(s: nat, e: nat, p: nat)
    requires s <= p < 8 * ((e - 1) / 8)
    ensures s / 8 < (e - 1) / 8 && p < e
  {
  }

  /** And nothing else, as long as no such region has both ends strictly inside one bitmap byte. */
  lemma InitReleasesOnly(regions: seq<Region>, total: nat, bitmapAddress: uint64, size: nat, p: nat)
    requires total < 0x10_0000_0000_0000 && LeftClear(regions, total, bitmapAddress, size, p)
    requires forall d | d in regions && (d.kind == 7 || d.kind == 3 || d.kind == 4) ::
      var s, end := d.start / 4096, (d.start / 4096 + d.pages) % 0x1_0000_0000_0000_0000;
      var e := if end > total then total else end;
      s < e ==> s / 8 < (e - 1) / 8 || s % 8 == 0 || e % 8 == 0
    ensures exists d | d in regions ::
      (d.kind == 7 || d.kind == 3 || d.kind == 4) && d.start / 4096 <= p < d.start / 4096 + d.pages
  {
  }

  /** A usable region of the map that exists below `total`. */
  ghost predicate Releases(regions: seq<Region>, total: nat, d: Region) {
    d in regions && d.Usable() && d.FirstPage() < d.EndPage(total)
  }

  /** A page is cleared by the region loop exactly when some region of the map clears it. */
  lemma {:induction false} ClearedBySome(regions: seq<Region>, total: nat, p: nat) returns (d: Region)
    requires p in AllCleared(regions, total)
    ensures Releases(regions, total, d) && p in ClearedBy(d.FirstPage(), d.EndPage(total)) && p < total
  {
    var front, last := regions[..|regions| - 1], regions[|regions| - 1];
    if p in AllCleared(front, total) {
      d := ClearedBySome(front, total, p);
    } else {
      d := last;
    }
  }

  lemma {:induction false} SomeClears(regions: seq<Region>, total: nat, d: Region, p: nat)
    requires Releases(regions, total, d) && p in ClearedBy(d.FirstPage(), d.EndPage(total)) && p < total
    ensures p in AllCleared(regions, total)
  {
    var front := regions[..|regions| - 1];
    assert regions == front + [regions[|regions| - 1]];
    if d in front { SomeClears(front, total, d, p); }
  }

  /** Every page pmm_init leaves clear is usable memory. */
  ghost predicate Safe(regions: seq<Region>, total: nat, bitmapAddress: uint64, size: nat) {
    forall p | p in AllCleared(regions, total) - Protected(bitmapAddress, size) :: InUsable(regions, p)
  }

  /** Of the bitmap byte around a region inside one byte, every page that exists and is not taken
      back is usable memory. */
  ghost predicate InnerBytesUsable(regions: seq<Region>, total: nat, bitmapAddress: uint64, size: nat) {
    forall d, p: nat | Releases(regions, total, d) && InsideOneByte(d.FirstPage(), d.EndPage(total))
      && p / 8 == d.FirstPage() / 8 && p < total && p !in Protected(bitmapAddress, size) :: InUsable(regions, p)
  }

  /** pmm_init is safe on a map exactly when the bytes around its inner regions are usable. */
  lemma InitIsSafeIff(regions: seq<Region>, total: nat, bitmapAddress: uint64, size: nat)
    ensures Safe(regions, total, bitmapAddress, size) <==> InnerBytesUsable(regions, total, bitmapAddress, size)
  {
    hide AllCleared, Protected;
    if Safe(regions, total, bitmapAddress, size) {
      forall d, p: nat | Releases(regions, total, d) && InsideOneByte(d.FirstPage(), d.EndPage(total))
        && p / 8 == d.FirstPage() / 8 && p < total && p !in Protected(bitmapAddress, size)
        ensures InUsable(regions, p)
      {
        SomeClears(regions, total, d, p);
      }
    }
    if InnerBytesUsable(regions, total, bitmapAddress, size) {
      forall p | p in AllCleared(regions, total) - Protected(bitmapAddress, size) ensures InUsable(regions, p) {
        var d := ClearedBySome(regions, total, p);
        if !InsideOneByte(d.FirstPage(), d.EndPage(total)) { RegionReleases(d, total); }
      }
    }
  }

  /** One conventional region of the pages 4097 to 4099. */
  const SHORT_REGION := Region(7, 0x100_1000, 3)

  /** The 4100 pages of that map need a bitmap of 513 bytes, which goes to page 4097. */
  lemma ShortMap()
    ensures TotalPages([SHORT_REGION]) == 4100 && BitmapAddress([SHORT_REGION], 513) == 0x100_1000
    ensures 4096 !in Protected(0x100_1000, 513)
  {
    OneRegion(SHORT_REGION);
    ShortRegion();
    hide MaxEnd, Region.End;
    ShortBitmap();
  }

  lemma ShortBitmap()
    ensures BitmapAddress([SHORT_REGION], 513) == 0x100_1000
  {
  }

  /** A map on which it is not safe: that region leaves page 4096, which no region holds, clear in
      the end. */
  lemma UnsafeMap()
    ensures TotalPages([SHORT_REGION]) == 4100 && BitmapAddress([SHORT_REGION], 513) == 0x100_1000
    ensures 4096 in AllCleared([SHORT_REGION], 4100) - Protected(0x100_1000, 513) && !InUsable([SHORT_REGION], 4096)
    ensures !Safe([SHORT_REGION], 4100, 0x100_1000, 513)
  {
    ShortMap();
    ShortRegion();
    ShortUsable();
    hide *;
    SomeClears([SHORT_REGION], 4100, SHORT_REGION, 4096);
    NotSafe([SHORT_REGION], 4100, 0x100_1000, 513, 4096);
  }

  lemma NotSafe(regions: seq<Region>, total: nat, bitmapAddress: uint64, size: nat, p: nat)
    requires p in AllCleared(regions, total) - Protected(bitmapAddress, size) && !InUsable(regions, p)
    ensures !Safe(regions, total, bitmapAddress, size)
  {
  }

  lemma ShortUsable()
    ensures Releases([SHORT_REGION], 4100, SHORT_REGION) && !InUsable([SHORT_REGION], 4096)
  {
    ShortRegion();
    hide Region.FirstPage, Region.EndPage, Region.Contains;
  }

  lemma ShortRegion()
    ensures SHORT_REGION.FirstPage() == 4097 && SHORT_REGION.EndPage(4100) == 4100 && SHORT_REGION.End() == 0x100_4000
    ensures !SHORT_REGION.Contains(4096) && 4096 in ClearedBy(4097, 4100)
  {
  }

  lemma OneRegion(d: Region)
    ensures MaxEnd([d]) == d.End()
  {
    assert MaxEnd([]) == 0 && [d][..0] == [];
  }

  /** With no region inside one bitmap byte the counter pmm_init leaves is no less than the number of
      clear pages, while the pages counted fit 64 bits. */
  lemma InitCounterCovers(regions: seq<Region>, total: nat, bitmapAddress: uint64, size: nat)
    requires NoInnerRegion(regions, total) && Counted(regions, total) < 0x1_0000_0000_0000_0000
    ensures |AllCleared(regions, total) - Protected(bitmapAddress, size)|
         <= Wrap64(Counted(regions, total) - |AllCleared(regions, total) * Protected(bitmapAddress, size)|)
  {
    hide AllCleared, Counted, Protected, Wrap64;
    ClearedAreUsable(regions, total);
    CounterCovers(AllCleared(regions, total), Protected(bitmapAddress, size), Counted(regions, total));
  }

  lemma CounterCovers(all: set<nat>, own: set<nat>, counted: nat)
    requires |all| <= counted < 0x1_0000_0000_0000_0000
    ensures |all - own| <= Wrap64(counted - |all * own|)
  {
    assert |all| == |all - own| + |all * own| by { assert all == (all - own) + all * own; }
    WrapSame(counted - |all * own|);
  }

  /** The unaligned tail of one bitmap byte. */
  predicate IsTail(s: nat, e: nat)
    requires s < e
  {
    s / 8 == (e - 1) / 8 && s % 8 != 0 && e % 8 == 0
  }

  /** Every range the map releases is the unaligned tail of one byte, and no two of them overlap. */
  ghost predicate TailsApart(regions: seq<Region>, total: nat) {
    && (forall i | 0 <= i < |regions| && Counts(regions[i], total) ::
          IsTail(regions[i].FirstPage(), regions[i].EndPage(total)))
    && (forall i, j | 0 <= i < j < |regions| && Counts(regions[i], total) && Counts(regions[j], total) ::
          Apart(regions[i], regions[j], total))
  }

  ghost predicate Apart(a: Region, b: Region, total: nat) {
    a.EndPage(total) <= b.FirstPage() || b.EndPage(total) <= a.FirstPage()
  }

  /** A range not inside one byte is released in full exactly when it is such a tail. */
  lemma ReleasedInFull(s: nat, e: nat)
    requires s < e && !InsideOneByte(s, e)
    ensures |ClearedBy(s, e)| == e - s <==> IsTail(s, e)
    ensures IsTail(s, e) ==> ClearedBy(s, e) == Pages(s, e)
  {
    ClearedExactly(s, e);
    ClearedWithinRegion(s, e);
    PagesSize(s, e);
    hide Pages, ClearedBy;
    if |ClearedBy(s, e)| == e - s { SameSize(ClearedBy(s, e), Pages(s, e)); }
  }

  /** What tails release together. */
  lemma TailsReleased(regions: seq<Region>, total: nat, p: nat)
    requires TailsApart(regions, total)
    ensures p in AllCleared(regions, total) <==>
      exists i :: 0 <= i < |regions| && Counts(regions[i], total) && regions[i].FirstPage() <= p < regions[i].EndPage(total)
  {
    hide AllCleared, Region.FirstPage, Region.EndPage, Region.Usable, Pages, ClearedBy;
    if p in AllCleared(regions, total) {
      var d := ClearedBySome(regions, total, p);
      var i :| 0 <= i < |regions| && regions[i] == d;
      assert Counts(regions[i], total);
      TailIsReleased(d.FirstPage(), d.EndPage(total));
    }
    if i :| 0 <= i < |regions| && Counts(regions[i], total) && regions[i].FirstPage() <= p < regions[i].EndPage(total) {
      TailIsReleased(regions[i].FirstPage(), regions[i].EndPage(total));
      CountsMeans(regions[i], total);
      SomeClears(regions, total, regions[i], p);
    }
  }

  lemma TailIsReleased(s: nat, e: nat)
    requires s < e && IsTail(s, e)
    ensures ClearedBy(s, e) == Pages(s, e)
  {
    ClearedExactly(s, e);
  }

  /** As many pages are clear as were counted exactly when every released range is such a tail and
      shares no page with another. */
  lemma {:induction false} CountedExactly(regions: seq<Region>, total: nat)
    requires NoInnerRegion(regions, total)
    ensures |AllCleared(regions, total)| == Counted(regions, total) <==> TailsApart(regions, total)
  {
    hide *;
    if regions == [] {
      NothingReleased(total);
      NoTails(total);
    } else {
      var front, d := regions[..|regions| - 1], regions[|regions| - 1];
      FrontRegions(regions, total);
      CountedExactly(front, total);
      ClearedAreUsable(front, total);
      OneMoreRegion(regions, total);
      CountsMeans(d, total);
      if Counts(d, total) {
        var s, e, all := d.FirstPage(), d.EndPage(total), AllCleared(front, total);
        ClearedWithinRegion(s, e);
        ReleasedInFull(s, e);
        ClearedBelow(s, e, total);
        UnionExactly(all, ClearedBy(s, e), |all|, Counted(front, total), e - s);
        if TailsApart(front, total) && IsTail(s, e) { LastApart(regions, total); }
      }
      TailsSplit(regions, total);
    }
  }

  lemma NoTails(total: nat)
    ensures TailsApart([], total)
  {
  }

  lemma ClearedBelow(s: nat, e: nat, total: nat)
    requires s < e <= total && !InsideOneByte(s, e)
    ensures ClearedBy(s, e) * Pages(0, total) == ClearedBy(s, e) && ClearedBy(s, e) <= Pages(s, e)
  {
    ClearedWithinRegion(s, e);
    hide ClearedBy, Pages;
  }

  /** A union is as large as its bounds allow exactly when both parts are and they are disjoint. */
  lemma UnionExactly<T>(a: set<T>, b: set<T>, size: nat, m: nat, n: nat)
    requires size == |a| <= m && |b| <= n
    ensures |a + b| == m + n <==> |a| == m && |b| == n && a !! b
  {
    assert a + b == a + (b - a);
    Taken(b, a);
    if !(a !! b) {
      var x :| x in b * a;
      assert |b * a| > 0;
    } else {
      assert b * a == {};
    }
  }

  /** The last range is disjoint from what the others released exactly when it is apart from each. */
  lemma LastApart(regions: seq<Region>, total: nat)
    requires regions != [] && TailsApart(regions[..|regions| - 1], total) && Counts(regions[|regions| - 1], total)
    requires IsTail(regions[|regions| - 1].FirstPage(), regions[|regions| - 1].EndPage(total))
    ensures var n := |regions| - 1;
      AllCleared(regions[..n], total) !! ClearedBy(regions[n].FirstPage(), regions[n].EndPage(total)) <==>
      forall i | 0 <= i < n && Counts(regions[i], total) :: Apart(regions[i], regions[n], total)
  {
    var n := |regions| - 1;
    var front, d := regions[..n], regions[n];
    var s, e := d.FirstPage(), d.EndPage(total);
    TailIsReleased(s, e);
    hide AllCleared, ClearedBy, Pages, Region.FirstPage, Region.EndPage, Region.Usable, TailsApart, IsTail;
    if forall i | 0 <= i < n && Counts(regions[i], total) :: Apart(regions[i], d, total) {
      forall p | p in AllCleared(front, total) ensures p !in Pages(s, e) {
        TailsReleased(front, total, p);
        var i :| 0 <= i < |front| && Counts(front[i], total) && front[i].FirstPage() <= p < front[i].EndPage(total);
        assert Apart(regions[i], d, total);
      }
    } else {
      var i :| 0 <= i < n && Counts(regions[i], total) && !Apart(regions[i], d, total);
      var p := if regions[i].FirstPage() >= s then regions[i].FirstPage() else s;
      assert front[i] == regions[i];
      CountsMeans(regions[i], total);
      TailsReleased(front, total, p);
      assert p in Pages(s, e);
    }
  }

  lemma TailsSplit(regions: seq<Region>, total: nat)
    requires regions != []
    ensures var n := |regions| - 1;
      TailsApart(regions, total) <==>
      && TailsApart(regions[..n], total)
      && (Counts(regions[n], total) ==>
            && IsTail(regions[n].FirstPage(), regions[n].EndPage(total))
            && forall i | 0 <= i < n && Counts(regions[i], total) :: Apart(regions[i], regions[n], total))
  {
    var n := |regions| - 1;
    hide Counts, IsTail, Apart, Region.FirstPage, Region.EndPage;
    assert forall i | 0 <= i < n :: regions[..n][i] == regions[i];
    if TailsApart(regions, total) {
      assert TailsApart(regions[..n], total);
    }
  }

  /** So the counter pmm_init leaves on such a map is the number of clear pages exactly then. */
  lemma InitCounterExact(regions: seq<Region>, total: nat, bitmapAddress: uint64, size: nat)
    requires NoInnerRegion(regions, total) && Counted(regions, total) < 0x1_0000_0000_0000_0000
    ensures Wrap64(Counted(regions, total) - |AllCleared(regions, total) * Protected(bitmapAddress, size)|)
            == |AllCleared(regions, total) - Protected(bitmapAddress, size)|
            <==> TailsApart(regions, total)
  {
    hide *;
    ClearedAreUsable(regions, total);
    CountedExactly(regions, total);
    CounterExact(AllCleared(regions, total), Protected(bitmapAddress, size), Counted(regions, total));
  }

  lemma CounterExact(all: set<nat>, own: set<nat>, counted: nat)
    requires |all| <= counted < 0x1_0000_0000_0000_0000
    ensures Wrap64(counted - |all * own|) == |all - own| <==> |all| == counted
  {
    Taken(all, own);
    WrapSame(counted - |all * own|);
    hide Wrap64;
  }

  /** One conventional region of the pages 4096 to 4111; its bitmap goes to page 4096. */
  const LONG_REGION := Region(7, 0x100_0000, 16)

  /** A map on which the counter is wrong: 15 pages are counted in the end, and 7 are clear. */
  lemma OvercountedMap()
    ensures TotalPages([LONG_REGION]) == 4112 && BitmapAddress([LONG_REGION], 514) == 0x100_0000
    ensures |AllCleared([LONG_REGION], 4112) - Protected(0x100_0000, 514)| == 7
    ensures Wrap64(Counted([LONG_REGION], 4112) - |AllCleared([LONG_REGION], 4112) * Protected(0x100_0000, 514)|) == 15
  {
    LongRegion();
    OneRegion(LONG_REGION);
    OneReleased(LONG_REGION, 4112);
    hide MaxEnd, Region.End, AllCleared, Counted, Region.FirstPage, Region.EndPage, ClearedBy, BitmapAddress;
    LeftOver(4096, 4104, 0x100_0000, 514, 4096);
  }

  /** With a region inside one byte it may even be too low: on the map of UnsafeMap 2 pages are counted
      in the end, and 3 are clear. */
  lemma UndercountedMap()
    ensures |AllCleared([SHORT_REGION], 4100) - Protected(0x100_1000, 513)| == 3
    ensures Wrap64(Counted([SHORT_REGION], 4100) - |AllCleared([SHORT_REGION], 4100) * Protected(0x100_1000, 513)|) == 2
  {
    ShortRegion();
    ShortCleared();
    OneReleased(SHORT_REGION, 4100);
    hide MaxEnd, Region.End, AllCleared, Counted, Region.FirstPage, Region.EndPage, ClearedBy, BitmapAddress;
    LeftOver(4096, 4100, 0x100_1000, 513, 4097);
  }

  lemma ShortCleared()
    ensures ClearedBy(4097, 4100) * Pages(0, 4100) == Pages(4096, 4100) && Counts(SHORT_REGION, 4100)
  {
    ShortRegion();
    hide Pages, Region.FirstPage, Region.EndPage;
  }

  lemma LongRegion()
    ensures LONG_REGION.FirstPage() == 4096 && LONG_REGION.EndPage(4112) == 4112 && LONG_REGION.End() == 0x101_0000
    ensures Counts(LONG_REGION, 4112) && ClearedBy(4096, 4112) * Pages(0, 4112) == Pages(4096, 4104)
    ensures BitmapAddress([LONG_REGION], 514) == 0x100_0000
  {
    LongCleared();
    hide Pages, ClearedBy;
  }

  lemma LongCleared()
    ensures ClearedBy(4096, 4112) * Pages(0, 4112) == Pages(4096, 4104)
  {
    assert ClearedBy(4096, 4112) == Pages(4096, 4104) by { hide Pages; }
    hide ClearedBy, Pages;
  }

  lemma OneReleased(d: Region, total: nat)
    requires Counts(d, total)
    ensures AllCleared([d], total) == ClearedBy(d.FirstPage(), d.EndPage(total)) * Pages(0, total)
    ensures Counted([d], total) == d.EndPage(total) - d.FirstPage()
  {
    assert [d][..0] == [];
    NothingReleased(total);
    OneMoreRegion([d], total);
    hide AllCleared, Counted, ClearedBy, Pages, Counts, Region.FirstPage, Region.EndPage;
  }

  /** A bitmap of one page takes that page from a range. */
  lemma LeftOver(lo: nat, hi: nat, bitmapAddress: uint64, size: nat, own: nat)
    requires FIRST_PAGE <= lo <= own < hi && bitmapAddress == own * 4096 && 0 < size <= 4096
    ensures |Pages(lo, hi) - Protected(bitmapAddress, size)| == hi - lo - 1
    ensures |Pages(lo, hi) * Protected(bitmapAddress, size)| == 1
  {
    hide *;
    ProtectedIs(bitmapAddress, size);
    OnePage(own, size);
    PagesSize(lo, hi);
    var range := Pages(lo, hi);
    assert range * Protected(bitmapAddress, size) == {own};
    Taken(range, Protected(bitmapAddress, size));
  }

  lemma OnePage(own: nat, size: nat)
    requires 0 < size <= 4096
    ensures own * 4096 / 4096 == own && (size + 4095) / 4096 == 1
  {
  }

  /** The pages counted fit 64 bits for fewer than 4096 regions. */
  lemma {:induction false} CountedBound(regions: seq<Region>, total: nat)
    requires total < 0x10_0000_0000_0000
    ensures Counted(regions, total) <= |regions| * 0x10_0000_0000_0000
  {
    if regions != [] {
      CountedBound(regions[..|regions| - 1], total);
    }
  }

  /** A region with both ends strictly inside one byte makes the region loop of pmm_init release a
      page outside it; whether that page is taken back decides, as above. */
  lemma InnerRegionLeaks(d: Region, total: nat)
    requires d.Usable() && d.FirstPage() < d.EndPage(total)
    requires InsideOneByte(d.FirstPage(), d.EndPage(total))
    ensures exists p :: p in AllCleared([d], total) && !d.Contains(p)
  {
    var s := d.FirstPage();
    assert [d][..0] == [];
    assert AllCleared([d][..0], total) == {};
    assert 8 * (s / 8) in AllCleared([d], total);
    assert !d.Contains(8 * (s / 8));
  }

  /** Why the counter exceeds the clear pages: a region over several bitmap bytes is counted in
      full, but the pages of its last byte (one to eight of them) stay marked. */
  lemma LastByteIsLost(s: nat, e: nat)
    requires s / 8 < (e - 1) / 8 && s < e
    ensures Pages(s, e) - ClearedBy(s, e) == Pages(8 * ((e - 1) / 8), e)
    ensures e - s == |ClearedBy(s, e)| + (e - 8 * ((e - 1) / 8)) && 1 <= e - 8 * ((e - 1) / 8) <= 8
  {
    PagesSize(s, 8 * ((e - 1) / 8));
  }

  // ----- single steps -----

  /** pmm_alloc_blocks in terms of pages alone: what it returns is a run of clear pages at or above
      16 MiB, and none starts at a page f below it; it returns NULL for no pages, for more than are
      counted, and when none starts at any page f. */
  lemma BlocksAreFirstFit(s: State, count: nat, s': State, addr: nat, f: nat)
    requires BlocksStep(s, count, s', addr)
    ensures addr != 0 ==>
      && 0 < count <= s.free && s'.free == s.free - count
      && addr % 4096 == 0 && addr >= 0x100_0000 && Pages(addr / 4096, addr / 4096 + count) <= s.clear
    ensures 0 < count <= s.free && 4096 <= f && (addr == 0 || f < addr / 4096) ==> !(Pages(f, f + count) <= s.clear)
  {
    if 4096 <= f && Pages(f, f + count) <= s.clear {
      assert IsRun(s.clear, f, count) by {
        forall p | f <= p < f + count ensures p in s.clear { assert p in Pages(f, f + count); }
      }
    }
    if addr != 0 { assert IsRun(s.clear, addr / 4096, count); }
    hide MarkedBy;
  }

  /** pmm_alloc_page refines the bit-by-bit search. */
  lemma AllocFindsLeast(s: State)
    ensures var (s', addr) := AllocStep(s);
      && (addr == 0 <==> forall p | p in s.clear && FIRST_PAGE <= p :: !(p * 4096 <= 0x80_0000_0000))
      && (addr == 0 ==> s' == s)
      && (addr != 0 ==>
            && addr % 4096 == 0 && addr / 4096 in s.clear && FIRST_PAGE * 4096 <= addr <= 0x80_0000_0000
            && (forall p | p in s.clear && FIRST_PAGE <= p :: addr / 4096 <= p)
            && s'.clear == s.clear - {addr / 4096})
  {
    var a := Allocatable(s.clear);
    if a != {} {
      var m := Least(a);
      assert forall p :: p in s.clear && FIRST_PAGE <= p && p * 4096 <= 0x80_0000_0000 ==> p in a;
    } else {
      assert forall p :: p in s.clear && FIRST_PAGE <= p && p * 4096 <= 0x80_0000_0000 ==> p in a;
    }
  }

  /** Freeing a range makes exactly its existing pages at or above 16 MiB clear. */
  lemma {:induction false} FreeManyClears(s: State, total: nat, first: nat, count: nat)
    ensures forall p :: p in FreeManySteps(s, total, first, count).clear <==>
      p in s.clear || (FIRST_PAGE <= p < total && InRange(p, first, count))
  {
    if count > 0 {
      FreeManyClears(s, total, first, count - 1);
      forall p ensures InRange(p, first, count) <==>
        InRange(p, first, count - 1) || p == (first + count - 1) % 0x10_0000_0000_0000
      {
        if p == (first + count - 1) % 0x10_0000_0000_0000 { assert Hits(p, first, count - 1); }
        if InRange(p, first, count - 1) {
          var k :| 0 <= k < count - 1 && Hits(p, first, k);
          assert 0 <= k < count;
        }
      }
    }
  }

  ghost predicate Hits(p: nat, first: nat, k: nat) {
    p == (first + k) % 0x10_0000_0000_0000
  }

  ghost predicate InRange(p: nat, first: nat, count: nat) {
    exists k: nat :: k < count && Hits(p, first, k)
  }

  /** A second free of the same range has no effect. */
  lemma {:induction false} DoubleFreeHasNoEffect(s: State, total: nat, first: nat, count: nat, k: nat)
    requires k <= count
    ensures var t := FreeManySteps(s, total, first, count); FreeManySteps(t, total, first, k) == t
    decreases k
  {
    if k > 0 {
      DoubleFreeHasNoEffect(s, total, first, count, k - 1);
      FreeManyClears(s, total, first, count);
      assert Hits((first + k - 1) % 0x10_0000_0000_0000, first, k - 1);
    }
  }

  // ----- runs -----

  datatype Op =
    | AllocPage
    | AllocBlocks(count: uint64)
    | FreePage(addr: uint64)
    | FreeBlocks(addr: uint64, count: uint64)

  ghost predicate Next(total: nat, s: State, op: Op, result: nat, s': State) {
    match op
    case AllocPage => (s', result) == AllocStep(s)
    case AllocBlocks(count) => BlocksStep(s, count, s', result)
    case FreePage(addr) => s' == FreeStep(s, total, addr / 4096)
    case FreeBlocks(addr, count) => s' == FreeManySteps(s, total, addr / 4096, count)
  }

  /** A run: one more state than operations, each operation with its result. */
  datatype Run = Run(states: seq<State>, ops: seq<Op>, results: seq<nat>) {
    ghost predicate Valid(total: nat) {
      && |states| == |ops| + 1 && |results| == |ops|
      && forall i | 0 <= i < |ops| :: Next(total, states[i], ops[i], results[i], states[i + 1])
    }
  }

  /** The pages an operation hands to its caller. */
  ghost function HandedOut(op: Op, result: nat): set<nat> {
    if result == 0 then {}
    else match op
      case AllocPage => {result / 4096}
      case AllocBlocks(count) => Pages(result / 4096, result / 4096 + count)
      case _ => {}
  }

  ghost predicate Frees(op: Op, p: nat) {
    match op
    case FreePage(addr) => addr / 4096 == p
    case FreeBlocks(addr, count) => InRange(p, addr / 4096, count)
    case _ => false
  }

  /** A handed-out page whose bit was set stays in use until some operation frees it. */
  lemma {:induction false} StaysUsed(total: nat, r: Run, i: nat, j: nat, p: nat)
    requires r.Valid(total) && i <= j <= |r.ops|
    requires p !in r.states[i].clear
    requires forall k | i <= k < j :: !Frees(r.ops[k], p)
    ensures p !in r.states[j].clear
    decreases j
  {
    if i < j {
      StaysUsed(total, r, i, j - 1, p);
      assert Next(total, r.states[j - 1], r.ops[j - 1], r.results[j - 1], r.states[j]);
      match r.ops[j - 1] {
        case AllocPage =>
        case AllocBlocks(_) =>
        case FreePage(_) =>
        case FreeBlocks(addr, count) =>
          FreeManyClears(r.states[j - 1], total, addr / 4096, count);
      }
    }
  }

  /** A block allocation, if it is one, marks at least the run it returns. */
  ghost predicate CoveringMarking(op: Op, result: nat) {
    op.AllocBlocks? && result != 0 ==>
      op.count > 0 && Covers(result / 4096, result / 4096 + op.count)
  }

  /** Only clear pages are handed out, and when the marking covers them they are no longer clear. */
  lemma HandedOutIsMarked(total: nat, s: State, op: Op, result: nat, s': State, p: nat)
    requires Next(total, s, op, result, s') && p in HandedOut(op, result)
    ensures p in s.clear
    ensures CoveringMarking(op, result) ==> p !in s'.clear
  {
    hide Pages, MarkedBy, Covers, AllocStep, BlocksStep, FreeStep, FreeManySteps;
    match op {
      case AllocPage => PageIsMarked(s, s', result);
      case AllocBlocks(count) => BlocksAreMarked(s, count, s', result, p);
      case FreePage(_) =>
      case FreeBlocks(_, _) =>
    }
  }

  lemma PageIsMarked(s: State, s': State, addr: nat)
    requires (s', addr) == AllocStep(s) && addr != 0
    ensures addr / 4096 in s.clear && addr / 4096 !in s'.clear
  {
  }

  lemma BlocksAreMarked(s: State, count: uint64, s': State, addr: nat, p: nat)
    requires BlocksStep(s, count, s', addr) && addr != 0 && p in Pages(addr / 4096, addr / 4096 + count)
    ensures p in s.clear && count > 0
    ensures Covers(addr / 4096, addr / 4096 + count) ==> p !in s'.clear
  {
    hide Pages, MarkedBy, Covers;
    MarkedCovers(addr / 4096, addr / 4096 + count);
  }

  /** Over any run of the four operations, no page is handed out twice without a free in between,
      provided the marking of the first hand-out covered it (always so for pmm_alloc_page). */
  lemma NoDoubleHandOut(total: nat, r: Run, i: nat, j: nat, p: nat)
    requires r.Valid(total) && i < j < |r.ops|
    requires p in HandedOut(r.ops[i], r.results[i]) && p in HandedOut(r.ops[j], r.results[j])
    requires CoveringMarking(r.ops[i], r.results[i])
    ensures exists k :: i < k < j && Frees(r.ops[k], p)
  {
    HandedOutIsMarked(total, r.states[i], r.ops[i], r.results[i], r.states[i + 1], p);
    HandedOutIsMarked(total, r.states[j], r.ops[j], r.results[j], r.states[j + 1], p);
    if forall k | i < k < j :: !Frees(r.ops[k], p) {
      StaysUsed(total, r, i + 1, j, p);
    }
  }

  /** A run with one operation more in front. */
  function Preceded(s: State, op: Op, result: nat, r: Run): Run {
    Run([s] + r.states, [op] + r.ops, [result] + r.results)
  }

  lemma PrecededIsRun(total: nat, s: State, op: Op, result: nat, r: Run)
    requires r.Valid(total) && Next(total, s, op, result, r.states[0])
    ensures Preceded(s, op, result, r).Valid(total)
  {
    hide Next;
    var q := Preceded(s, op, result, r);
    forall i | 0 <= i < |q.ops| ensures Next(total, q.states[i], q.ops[i], q.results[i], q.states[i + 1]) {
      if i > 0 { assert Next(total, r.states[i - 1], r.ops[i - 1], r.results[i - 1], r.states[i]); }
    }
  }

  lemma PrecededEnds(total: nat, s: State, op: Op, result: nat, r: Run)
    requires r.Valid(total) && |r.ops| > 0
    ensures var q, n := Preceded(s, op, result, r), |r.ops|;
      && |q.states| > 0 && |q.ops| == |q.results| == n + 1 && |r.results| == n
      && q.states[0] == s && q.ops[0] == op && q.results[0] == result
      && q.ops[n] == r.ops[n - 1] && q.results[n] == r.results[n - 1]
      && forall i | 0 < i <= n :: q.ops[i] == r.ops[i - 1]
  {
    hide Next;
  }

  lemma BlocksNext(total: nat, s: State, count: uint64, s': State, addr: nat)
    requires BlocksStep(s, count, s', addr)
    ensures Next(total, s, AllocBlocks(count), addr, s')
  {
    hide BlocksStep;
  }

  /** Page allocation hands out every clear page with a valid address in the end. */
  lemma {:induction false} HandedOutInTheEnd(total: nat, s: State, p: nat) returns (r: Run)
    requires p in Allocatable(s.clear)
    ensures r.Valid(total) && |r.ops| > 0 && r.states[0] == s && forall i | 0 <= i < |r.ops| :: r.ops[i] == AllocPage
    ensures p in HandedOut(r.ops[|r.ops| - 1], r.results[|r.ops| - 1])
    decreases |Allocatable(s.clear)|
  {
    var (s', addr) := AllocStep(s);
    var first := Run([s, s'], [AllocPage], [addr]);
    assert first.Valid(total);
    var m := Least(Allocatable(s.clear));
    if m == p {
      r := first;
    } else {
      assert Allocatable(s'.clear) == Allocatable(s.clear) - {m};
      var rest := HandedOutInTheEnd(total, s', p);
      r := Preceded(s, AllocPage, addr, rest);
      PrecededIsRun(total, s, AllocPage, addr, rest);
    }
  }

  /** The guard is the exact one: whenever it fails the run's last eight pages stay clear, and a run
      of page allocations, without any free, hands the first of them out again if its address is one
      that page allocation accepts; the others have higher addresses. */
  lemma UncoveredHandedOutTwice(total: nat, s: State, count: uint64, s': State, addr: nat) returns (r: Run)
    requires BlocksStep(s, count, s', addr) && addr != 0
    requires count > 0 && !Covers(addr / 4096, addr / 4096 + count)
    requires (addr / 4096 + count - 8) * 4096 <= 0x80_0000_0000
    ensures count >= 8 && Pages(addr / 4096 + count - 8, addr / 4096 + count) <= s'.clear
    ensures r.Valid(total) && |r.ops| > 1 && r.states[0] == s && r.ops[0] == AllocBlocks(count) && r.results[0] == addr
    ensures forall i | 0 < i < |r.ops| :: r.ops[i] == AllocPage
    ensures exists p :: p in HandedOut(r.ops[0], r.results[0]) && p in HandedOut(r.ops[|r.ops| - 1], r.results[|r.ops| - 1])
  {
    hide *;
    var e := addr / 4096 + count;
    LastByteStaysClear(s, count, s', addr);
    var rest := HandedOutInTheEnd(total, s', e - 8);
    r := Preceded(s, AllocBlocks(count), addr, rest);
    BlocksNext(total, s, count, s', addr);
    PrecededIsRun(total, s, AllocBlocks(count), addr, rest);
    PrecededEnds(total, s, AllocBlocks(count), addr, rest);
    assert r.ops[|rest.ops|] == rest.ops[|rest.ops| - 1];
  }

  /** What the byte masks leave of a run that they do not cover. */
  lemma LastByteStaysClear(s: State, count: uint64, s': State, addr: nat)
    requires BlocksStep(s, count, s', addr) && addr != 0
    requires count > 0 && !Covers(addr / 4096, addr / 4096 + count)
    ensures count >= 8 && Pages(addr / 4096 + count - 8, addr / 4096 + count) <= s'.clear
    ensures (addr / 4096 + count - 8) * 4096 <= 0x80_0000_0000 ==> addr / 4096 + count - 8 in Allocatable(s'.clear)
    ensures addr / 4096 + count - 8 in HandedOut(AllocBlocks(count), addr)
  {
    var first, e := addr / 4096, addr / 4096 + count;
    MarkedCovers(first, e);
    assert FIRST_PAGE <= first;
    hide MarkedBy, Covers, Pages;
    assert Pages(first, e) <= s.clear;
    assert e - 8 in Pages(e - 8, e) && e - 8 in Pages(first, e);
  }

  /** An identical request may even get the very same run: eight byte-aligned pages. */
  lemma AlignedByteHandedOutTwice(s: State, s': State, addr: nat)
    requires BlocksStep(s, 8, s', addr) && addr != 0 && addr / 4096 % 8 == 0 && s.free >= 16
    ensures s'.clear == s.clear
    ensures BlocksStep(s', 8, State(s'.clear, s'.free - 8), addr)
  {
    assert MarkedBy(addr / 4096, addr / 4096 + 8) == {};
  }

  /** The accounting quantity: the counter less the number of clear pages, modulo 2^64. */
  ghost function Slack(s: State): uint64 {
    Wrap64(s.free - |s.clear|)
  }

  lemma {:induction false} FreeManySlack(s: State, total: nat, first: nat, count: nat)
    ensures Slack(FreeManySteps(s, total, first, count)) == Slack(s)
  {
    if count > 0 {
      FreeManySlack(s, total, first, count - 1);
      FreeSlack(FreeManySteps(s, total, first, count - 1), total, (first + count - 1) % 0x10_0000_0000_0000);
    }
  }

  lemma FreeSlack(s: State, total: nat, p: nat)
    ensures Slack(FreeStep(s, total, p)) == Slack(s)
  {
    WrapAgain(s.free + 1, -(|s.clear| + 1));
  }

  lemma AllocSlack(s: State)
    ensures Slack(AllocStep(s).0) == Slack(s)
  {
    if Allocatable(s.clear) != {} {
      var p := Least(Allocatable(s.clear));
      assert |s.clear - {p}| == |s.clear| - 1;
      WrapAgain(s.free - 1, -(|s.clear| - 1));
    }
  }

  /** The guard under which pmm_alloc_blocks takes as many pages from the clear ones as from the
      counter: the marking is exact, or the run lies inside one byte whose other pages are in use. */
  ghost predicate TakesAsCounted(clear: set<nat>, s: nat, e: nat)
    requires s < e
  {
    MarksExactly(s, e) || (InsideOneByte(s, e) && clear * Pages(8 * (s / 8), 8 * (s / 8) + 8) <= Pages(s, e))
  }

  /** How many clear pages the marking of a run takes: all of them, those of its byte, or eight fewer. */
  lemma TakenByMarking(clear: set<nat>, s: nat, e: nat)
    requires s < e && Pages(s, e) <= clear
    ensures |clear * MarkedBy(s, e)| == e - s <==> TakesAsCounted(clear, s, e)
    ensures e - s - 8 <= |clear * MarkedBy(s, e)| <= e - s + 8
  {
    PagesSize(s, e);
    MarkedExactly(s, e);
    MarkedCovers(s, e);
    var taken := clear * MarkedBy(s, e);
    if MarksExactly(s, e) {
      assert taken == Pages(s, e);
    } else if InsideOneByte(s, e) {
      TakenInside(clear, s, e, 8 * (s / 8), taken);
    } else {
      TakenUncovered(clear, s, e);
    }
  }

  lemma TakenInside(clear: set<nat>, s: nat, e: nat, b: nat, taken: set<nat>)
    requires s < e && InsideOneByte(s, e) && b == 8 * (s / 8) && Pages(s, e) <= clear && taken == clear * MarkedBy(s, e)
    ensures TakesRun(taken, Pages(s, e), e - s) && taken == clear * Pages(b, b + 8)
  {
    hide *;
    MarkedInside(s, e);
    PagesSize(s, e);
    PagesSize(b, b + 8);
    TakenFrom(clear, Pages(s, e), Pages(b, b + 8), e - s);
  }

  /** Of at most eight pages taken, as many as the run has exactly when they are no more than the run. */
  ghost predicate TakesRun(taken: set<nat>, run: set<nat>, n: nat) {
    n <= |taken| <= 8 && (|taken| == n <==> taken <= run)
  }

  lemma TakenFrom(clear: set<nat>, run: set<nat>, whole: set<nat>, n: nat)
    requires run <= clear && run <= whole && |run| == n && |whole| == 8
    ensures TakesRun(clear * whole, run, n)
  {
    var taken := clear * whole;
    SubsetSize(taken, whole);
    SubsetSize(run, taken);
    if |taken| == n { SameSize(run, taken); }
    if taken <= run { assert taken == run; }
  }

  lemma MarkedInside(s: nat, e: nat)
    requires s < e && InsideOneByte(s, e)
    ensures MarkedBy(s, e) == Pages(8 * (s / 8), 8 * (s / 8) + 8) && Pages(s, e) <= MarkedBy(s, e)
  {
    Ends(s, e);
    hide Pages;
  }

  lemma TakenUncovered(clear: set<nat>, s: nat, e: nat)
    requires s < e && Pages(s, e) <= clear && !MarksExactly(s, e) && !InsideOneByte(s, e)
    ensures |clear * MarkedBy(s, e)| == e - s - 8
  {
    hide *;
    MarkedUncovered(s, e);
    PagesSize(s, e - 8);
    assert clear * MarkedBy(s, e) == Pages(s, e - 8) by {
      assert Pages(s, e - 8) <= Pages(s, e);
    }
  }

  lemma MarkedUncovered(s: nat, e: nat)
    requires s < e && !MarksExactly(s, e) && !InsideOneByte(s, e)
    ensures s <= e - 8 && MarkedBy(s, e) == Pages(s, e - 8)
  {
    Ends(s, e);
    if s / 8 == (e - 1) / 8 {
      NoPages(s);
    } else {
      assert e - 8 == 8 * ((e - 1) / 8);
    }
    hide Pages;
  }

  lemma SameSize<T>(a: set<T>, b: set<T>)
    requires a <= b && |a| == |b|
    ensures a == b
  {
    SubtractRun(b, a);
    assert b == a + (b - a);
  }

  lemma NullBlocks(s: State, count: uint64, s': State, addr: nat)
    requires BlocksStep(s, count, s', addr)
    ensures addr == 0 ==> s' == s
    ensures addr != 0 ==>
      var first := addr / 4096;
      && count > 0 && Pages(first, first + count) <= s.clear
      && s' == State(s.clear - MarkedBy(first, first + count), s.free - count)
  {
    hide MarkedBy;
  }

  /** It keeps the slack exactly under that guard. */
  lemma BlocksSlack(s: State, count: uint64, s': State, addr: nat)
    requires BlocksStep(s, count, s', addr)
    ensures addr != 0 ==> count > 0
    ensures Slack(s') == Slack(s) <==> addr == 0 || TakesAsCounted(s.clear, addr / 4096, addr / 4096 + count)
  {
    hide *;
    NullBlocks(s, count, s', addr);
    if addr != 0 {
      var first := addr / 4096;
      var marked := MarkedBy(first, first + count);
      TakenByMarking(s.clear, first, first + count);
      Taken(s.clear, marked);
      SlackAfter(s, s', count, |s.clear * marked|);
    }
  }

  lemma Taken<T>(a: set<T>, b: set<T>)
    ensures |a - b| == |a| - |a * b|
  {
    assert a == (a - b) + a * b;
  }

  lemma SlackAfter(s: State, s': State, count: nat, taken: nat)
    requires s'.free == s.free - count && |s'.clear| == |s.clear| - taken && count - 8 <= taken <= count + 8
    ensures Slack(s') == Slack(s) <==> taken == count
  {
  }

  lemma SubtractRun<T>(clear: set<T>, run: set<T>)
    requires run <= clear
    ensures |clear - run| == |clear| - |run|
  {
    assert clear == (clear - run) + run;
  }

  /** What an operation, in its state, must meet to keep the slack. */
  ghost predicate KeepsCount(s: State, op: Op, result: nat) {
    op.AllocBlocks? && result != 0 ==>
      op.count > 0 && TakesAsCounted(s.clear, result / 4096, result / 4096 + op.count)
  }

  lemma StepKeepsSlack(total: nat, s: State, op: Op, result: nat, s': State)
    requires Next(total, s, op, result, s')
    ensures Slack(s') == Slack(s) <==> KeepsCount(s, op, result)
  {
    hide MarkedBy, TakesAsCounted, Wrap64, FreeStep, FreeManySteps, AllocStep, BlocksStep, Slack;
    match op {
      case AllocPage => AllocSlack(s);
      case AllocBlocks(count) => BlocksSlack(s, count, s', result);
      case FreePage(addr) => FreeSlack(s, total, addr / 4096);
      case FreeBlocks(addr, count) => FreeManySlack(s, total, addr / 4096, count);
    }
  }

  /** Over any run, the counter minus the number of clear pages never changes if and only if every
      block allocation of the run takes as many clear pages as it counts. */
  lemma SlackIsConstant(total: nat, r: Run)
    requires r.Valid(total)
    ensures (forall j | 0 <= j <= |r.ops| :: Slack(r.states[j]) == Slack(r.states[0])) <==>
      forall i | 0 <= i < |r.ops| :: KeepsCount(r.states[i], r.ops[i], r.results[i])
  {
    hide Next, KeepsCount, Slack;
    forall i | 0 <= i < |r.ops|
      ensures Slack(r.states[i + 1]) == Slack(r.states[i]) <==> KeepsCount(r.states[i], r.ops[i], r.results[i])
    {
      StepKeepsSlack(total, r.states[i], r.ops[i], r.results[i], r.states[i + 1]);
    }
    if forall j | 0 <= j <= |r.ops| :: Slack(r.states[j]) == Slack(r.states[0]) {
      forall i | 0 <= i < |r.ops| ensures KeepsCount(r.states[i], r.ops[i], r.results[i]) {
        assert Slack(r.states[i + 1]) == Slack(r.states[0]) && Slack(r.states[i]) == Slack(r.states[0]);
      }
    }
    if forall i | 0 <= i < |r.ops| :: KeepsCount(r.states[i], r.ops[i], r.results[i]) {
      forall j | 0 <= j <= |r.ops| ensures Slack(r.states[j]) == Slack(r.states[0]) { SlackUpTo(total, r, j); }
    }
  }

  lemma {:induction false} SlackUpTo(total: nat, r: Run, j: nat)
    requires r.Valid(total) && j <= |r.ops|
    requires forall i | 0 <= i < j :: Slack(r.states[i + 1]) == Slack(r.states[i])
    ensures Slack(r.states[j]) == Slack(r.states[0])
    decreases j
  {
    if j > 0 { SlackUpTo(total, r, j - 1); }
  }

  /** Over any run at all, pages below 16 MiB or beyond memory never become clear. */
  lemma {:induction false} LowPagesStayUsed(total: nat, r: Run, j: nat)
    requires r.Valid(total) && j <= |r.ops|
    requires forall p :: p in r.states[0].clear ==> FIRST_PAGE <= p < total
    ensures forall p :: p in r.states[j].clear ==> FIRST_PAGE <= p < total
    decreases j
  {
    if j > 0 {
      LowPagesStayUsed(total, r, j - 1);
      assert Next(total, r.states[j - 1], r.ops[j - 1], r.results[j - 1], r.states[j]);
      match r.ops[j - 1] {
        case AllocPage =>
        case AllocBlocks(_) =>
        case FreePage(_) =>
        case FreeBlocks(addr, count) =>
          FreeManyClears(r.states[j - 1], total, addr / 4096, count);
      }
    }
  }
}
