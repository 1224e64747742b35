/** The driver's FAT and chain functions on a mounted volume, proved against the functions on the
    abstract table. */
module FatVolume {
  import opened Words
  import opened FatChains
  import opened FatRuns
  import opened Sectors

  /** Only words of clusters in FAT sectors differ, and copies follow. */
  ghost predicate FatOnly(d: Image, d': Image, g: Geometry) {
    && Fits(d, g) && Fits(d', g)
    && (forall k | 0 <= k < |d| && !(g.partitionStart + g.fatStart <= k < g.partitionStart + g.fatStart + 2 * 993) :: d'[k] == d[k])
    && FatKept(d, d', g)
  }

  class Volume {
    const geo: Geometry
    const disk: array<Sector>

    ghost predicate Valid()
      reads disk
    {
      Fits(disk[..], geo)
    }

    /** The abstract file allocation table. */
    ghost function Table(): Fat
      reads disk
      requires Valid()
    {
      FatOf(disk[..], geo)
    }

    constructor (geo: Geometry, disk: array<Sector>)
      requires Fits(disk[..], geo)
      ensures Valid() && this.geo == geo && this.disk == disk
    {
      this.geo := geo;
      this.disk := disk;
    }

    /** read_sector, without I/O errors. */
    method ReadSector(sector: nat) returns (s: Sector)
      requires geo.partitionStart + sector < disk.Length
      ensures s == disk[geo.partitionStart + sector]
    {
      s := disk[geo.partitionStart + sector];
    }

    /** write_sector, on a writable volume without I/O errors. */
    method WriteSector(sector: nat, s: Sector)
      requires geo.partitionStart + sector < disk.Length
      modifies disk
      ensures disk[..] == old(disk[..])[geo.partitionStart + sector := s]
    {
      disk[geo.partitionStart + sector] := s;
    }

    /** read_fat_entry. */
    method ReadFatEntry(c: nat) returns (v: nat)
      requires Valid()
      ensures v == Entry(Table(), c)
      ensures c < 2 || c >= 127006 ==> v == 0x0FFF_FFF7
      ensures 2 <= c < 127006 ==>
        var l, o := geo.partitionStart + geo.fatStart + c / 128, 4 * (c % 128);
        && l < disk.Length
        && var b0: int, b1: int, b2: int, b3: int := disk[l][o], disk[l][o + 1], disk[l][o + 2], disk[l][o + 3];
           v == (b0 + 0x100 * b1 + 0x1_0000 * b2 + 0x100_0000 * b3) % 0x1000_0000
    {
      if c < 2 || c >= 127006 { return 0x0FFF_FFF7; }
      FatEntryBytes(disk[..], geo, c);
      var fatOffset := c * 4;
      FatSectorsInRange(geo, c);
      var buf := ReadSector(geo.fatStart + fatOffset / 512);
      v := GetU32(buf, fatOffset % 512) % 0x1000_0000;
    }

    /** write_fat_entry. */
    method WriteFatEntry(c: nat, value: nat) returns (ok: bool)
      requires Valid()
      modifies disk
      ensures Valid() && FatOnly(old(disk[..]), disk[..], geo)
      ensures ok <==> 2 <= c < 127006
      ensures !ok ==> disk[..] == old(disk[..])
      ensures ok ==> EntryWritten(old(disk[..]), disk[..], geo, c, value)
      ensures Table() == if ok then old(Table())[c := value % 0x1000_0000] else old(Table())
    {
      FatOnlyRefl(disk[..], geo);
      if c < 2 || c >= 127006 { return false; }
      hide FatOf, FatOnly, Fits, FatKept, EntryWritten, FatWritten;
      RangeIs(c);
      FatWriteRefines(disk[..], geo, c, value);
      FatWrittenBytes(disk[..], geo, c, value);
      MakeFatOnly(disk[..], FatWritten(disk[..], geo, c, value), geo);
      StoreEntry(c, value);
      ok := true;
    }

    /** The sector of entry c, with its new word, written to both copies. */
    method StoreEntry(c: nat, value: nat)
      requires Valid() && c < 127006
      modifies disk
      ensures disk[..] == FatWritten(old(disk[..]), geo, c, value)
    {
      hide *;
      TableIs(this);
      FatWrittenIs(disk[..], geo, c, value);
      var fatOffset := c * 4;
      var buf := ReadSector(geo.fatStart + fatOffset / 512);
      buf := PutU32(buf, fatOffset % 512, value % 0x1000_0000);
      WriteSector(geo.fatStart + fatOffset / 512, buf);
      WriteSector(geo.fatStart + fatOffset / 512 + 993, buf);
    }

    /** find_free_cluster. */
    method FindFreeCluster() returns (c: nat)
      requires Valid()
      ensures c == FindFree(Table())
      ensures if exists e: nat :: 3 <= e < 127006 && Table()[e] == 0
              then 3 <= c < 127006 && Table()[c] == 0 && forall e: nat | 3 <= e < c :: Table()[e] != 0
              else c == 0x0FFF_FFF7
    {
      c := 3;
      while c < 127006
        invariant 3 <= c <= 127006
        invariant FreeFrom(Table(), 3) == FreeFrom(Table(), c)
      {
        var entry := ReadFatEntry(c);
        if entry == 0 { return; }
        c := c + 1;
      }
      c := 0x0FFF_FFF7;
    }

    /** free_cluster_chain: it ends on every table, cyclic or corrupt. */
    method FreeClusterChain(first: nat) returns (ok: bool)
      requires Valid()
      modifies disk
      ensures Valid() && FatOnly(old(disk[..]), disk[..], geo)
      ensures (Table(), ok) == FreeChain(old(Table()), first)
    {
      hide FatOf, FatOnly, NonZero;
      var c: nat := first;
      ghost var f := Table();
      FatOnlyRefl(disk[..], geo);
      while c < LAST_CLUSTER
        invariant Valid() && FatOnly(old(disk[..]), disk[..], geo)
        invariant f == Table()
        invariant FreeChain(f, c) == FreeChain(old(Table()), first)
        decreases |NonZero(f)|
      {
        ghost var before := disk[..];
        var next := ReadFatEntry(c);
        var written := WriteFatEntry(c, FREE_CLUSTER);
        FatOnlyTrans(old(disk[..]), before, disk[..], geo);
        if !written { return false; }
        if next >= LAST_CLUSTER || next == FREE_CLUSTER { return true; }
        FewerNonZero(f, c);
        f := Table();
        c := next;
      }
      ok := true;
    }

    /** One round of allocate_cluster_chain's loop: take the lowest free cluster and link it to
        the chain so far, or free that chain. */
    method AllocateOne(i: nat, first: nat, prev: nat) returns (ok: bool, newCluster: nat)
      requires Valid() && FindFree(Table()) != 0 && (i > 0 ==> InRange(prev))
      modifies disk
      ensures Valid() && FatOnly(old(disk[..]), disk[..], geo)
      ensures newCluster == FindFree(old(Table())) && (ok <==> InRange(newCluster))
      ensures ok ==> Table() == (if i == 0 then old(Table())[newCluster := LAST_CLUSTER]
                                 else old(Table())[newCluster := LAST_CLUSTER][prev := newCluster])
      ensures !ok ==> Table() == if first != 0 then FreeChain(old(Table()), first).0 else old(Table())
    {
      hide *;
      newCluster := FindFreeCluster();
      if newCluster == 0 { assert false; }
      RangeIs(newCluster);
      var written := WriteFatEntry(newCluster, LAST_CLUSTER);
      ghost var after := disk[..];
      if !written {
        if first != 0 {
          var freed := FreeClusterChain(first);
          FatOnlyTrans(old(disk[..]), after, disk[..], geo);
        }
        return false, newCluster;
      }
      if i > 0 {
        var linked := WriteFatEntry(prev, newCluster);
        RangeIs(prev);
        if !linked { assert false; }
        FatOnlyTrans(old(disk[..]), after, disk[..], geo);
      }
      ok := true;
    }

    /** allocate_cluster_chain: on success the `count` lowest free clusters, linked in ascending
        order; on exhaustion the same table as before. */
    method AllocateClusterChain(count: uint32) returns (ok: bool, cluster: nat)
      requires Valid()
      modifies disk
      ensures Valid() && FatOnly(old(disk[..]), disk[..], geo)
      ensures ok <==> count <= |FreeList(old(Table()))|
      ensures ok ==> Table() == LinkUp(old(Table()), Picks(old(Table()), count))
      ensures ok ==> cluster == if count == 0 then 0 else Picks(old(Table()), count)[0]
      ensures !ok ==> Table() == old(Table())
    {
      hide FatOf, FatOnly, FreeList, LinkUp, Fits, FreeChain, FindFree;
      var first, prev := 0, 0;
      ghost var f := Table();
      FatOnlyRefl(disk[..], geo);
      NoPicks(f);
      for i := 0 to count
        invariant Valid() && FatOnly(old(disk[..]), disk[..], geo)
        invariant i <= |FreeList(f)|
        invariant Table() == LinkUp(f, Picks(f, i))
        invariant if i == 0 then first == 0 else first == Picks(f, i)[0] && prev == Picks(f, i)[i - 1]
      {
        ghost var before := disk[..];
        AllocationRound(f, i);
        var taken, newCluster := AllocateOne(i, first, prev);
        FatOnlyTrans(old(disk[..]), before, disk[..], geo);
        if !taken { return false, 0; }
        if i == 0 { first := newCluster; }
        prev := newCluster;
      }
      return true, first;
    }
  }

  lemma TableIs(v: Volume)
    requires v.Valid() || Fits(v.disk[..], v.geo)
    ensures v.Valid() && Fits(v.disk[..], v.geo) && v.Table() == FatOf(v.disk[..], v.geo)
  {
  }

  lemma FatOnlyRefl(d: Image, g: Geometry)
    requires Fits(d, g)
    ensures FatOnly(d, d, g)
  {
    FatKeptRefl(d, g);
    hide FatKept;
  }

  lemma FatOnlyTrans(a: Image, b: Image, c: Image, g: Geometry)
    requires FatOnly(a, b, g) && FatOnly(b, c, g)
    ensures FatOnly(a, c, g)
  {
    FatKeptTrans(a, b, c, g);
    hide FatKept;
  }

  lemma MakeFatOnly(d: Image, d': Image, g: Geometry)
    requires Fits(d, g) && Fits(d', g) && FatKept(d, d', g)
    requires forall k | 0 <= k < |d| && !(g.partitionStart + g.fatStart <= k < g.partitionStart + g.fatStart + 2 * 993) :: d'[k] == d[k]
    ensures FatOnly(d, d', g)
  {
    hide FatKept;
  }

  lemma RangeIs(c: nat)
    ensures InRange(c) <==> 2 <= c < 127006
    ensures InRange(c) ==> c % 0x1000_0000 == c
    ensures LAST_CLUSTER % 0x1000_0000 == LAST_CLUSTER
  {
  }

  /** Round i of the allocation loop: the cluster it finds, or the rollback that follows. */
  lemma AllocationRound(f: Fat, i: nat)
    requires i <= |FreeList(f)|
    ensures var g := LinkUp(f, Picks(f, i));
      && FindFree(g) != 0
      && (InRange(FindFree(g)) <==> i < |FreeList(f)|)
      && (i < |FreeList(f)| ==>
            var picked := FindFree(g);
            && Picks(f, i + 1) == Picks(f, i) + [picked]
            && LinkUp(f, Picks(f, i + 1)) ==
               if i == 0 then g[picked := LAST_CLUSTER] else g[picked := LAST_CLUSTER][Picks(f, i)[i - 1] := picked])
      && (i > 0 ==> Picks(f, i)[0] != 0 && InRange(Picks(f, i)[i - 1]) && FreeChain(g, Picks(f, i)[0]) == (f, true))
  {
    hide LinkUp, FreeChain;
    PicksAreLowest(f, i);
    if i < |FreeList(f)| {
      PickOne(f, i);
    }
    if i > 0 {
      AllocateThenFree(f, i);
    }
  }

  lemma NoPicks(f: Fat)
    ensures LinkUp(f, Picks(f, 0)) == f
  {
  }
}
