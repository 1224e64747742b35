/** The FAT32 volume of kernel/drivers/fs/fat32.c as an array of 512-byte sectors: sector and
    cluster addresses, the two copies of the file allocation table, and the functions that read
    and write its entries and its chains. */
module Sectors {
  import opened Words
  import opened FatChains

  type Sector = s: seq<byte> | |s| == 512 witness seq(512, i => 0)

  // ----- little-endian words inside a sector -----

  function GetU32(s: Sector, off: nat): (v: uint32)
    requires off + 4 <= 512
  {
    var b0: int, b1: int, b2: int, b3: int := s[off], s[off + 1], s[off + 2], s[off + 3];
    b0 + 0x100 * b1 + 0x1_0000 * b2 + 0x100_0000 * b3
  }

  function PutU32(s: Sector, off: nat, v: uint32): (r: Sector)
    requires off + 4 <= 512
  {
    s[off := v % 0x100][off + 1 := v / 0x100 % 0x100][off + 2 := v / 0x1_0000 % 0x100][off + 3 := v / 0x100_0000]
  }

  lemma GetPut(s: Sector, off: nat, v: uint32, at: nat)
    requires off + 4 <= 512 && at + 4 <= 512
    requires at == off || at + 4 <= off || off + 4 <= at
    ensures GetU32(PutU32(s, off, v), at) == if at == off then v else GetU32(s, at)
  {
    BytesOf(v);
  }

  lemma BytesOf(v: uint32)
    ensures v % 0x100 + 0x100 * (v / 0x100 % 0x100) + 0x1_0000 * (v / 0x1_0000 % 0x100) + 0x100_0000 * (v / 0x100_0000) == v
  {
    assert v / 0x1_0000 == v / 0x100 / 0x100 && v / 0x100_0000 == v / 0x1_0000 / 0x100;
  }

  // ----- geometry -----

  /** The fields of fs_info the driver computes with; the FAT size and the cluster count are the
      constants the driver forces. */
  datatype Geometry = Geometry(partitionStart: nat, fatStart: nat, dataStart: nat, sectorsPerCluster: nat, rootCluster: nat) {
    /** Two FAT copies of 993 sectors precede the data area; all sector numbers fit 32 bits. */
    predicate Valid() {
      && 1 <= sectorsPerCluster <= 255
      && 1 <= fatStart && fatStart + 2 * 993 <= dataStart
      && InRange(rootCluster)
      && 2 * partitionStart + dataStart + 127004 * sectorsPerCluster < 0x1_0000_0000
    }

    /** The number of sectors the disk must have for every cluster to exist. */
    function DiskSize(): nat {
      2 * partitionStart + dataStart + 127004 * sectorsPerCluster
    }

    /** cluster_to_sector: 0 outside its accepted range; it adds the partition start, which
        read_sector and write_sector add once more. */
    function ClusterToSector(c: nat): nat {
      if c < 2 || c > 200000 then 0
      else
        ProductNat(sectorsPerCluster, c - 2);
        partitionStart + (dataStart + (c - 2) * sectorsPerCluster)
    }

    /** The physical sector of cluster c's s-th sector, as the data paths reach it. */
    function DataSector(c: nat, s: nat): nat {
      partitionStart + (ClusterToSector(c) + s)
    }

    /** The physical sector of FAT entry c in copy 0 or 1. */
    function FatSector(c: nat, copy: nat): nat {
      partitionStart + (fatStart + c * 4 / 512 + 993 * copy)
    }
  }

  /** The physical data sector in one formula. */
  lemma DataSectorIs(g: Geometry, c: nat, s: nat)
    requires InRange(c)
    ensures g.DataSector(c, s) == 2 * g.partitionStart + g.dataStart + ((c - 2) * g.sectorsPerCluster + s)
    ensures g.ClusterToSector(c) == g.partitionStart + g.dataStart + (c - 2) * g.sectorsPerCluster
  {
  }

  lemma ProductNat(m: nat, a: nat)
    ensures a * m >= 0
  {
  }

  /** Distinct clusters have disjoint data sectors; data sectors are on the disk, above both FAT
      copies, and never sector 0 of the partition. */
  lemma DataSectorsDisjoint(g: Geometry, c: nat, s: nat, e: nat, t: nat)
    requires g.Valid() && InRange(c) && InRange(e) && s < g.sectorsPerCluster && t < g.sectorsPerCluster
    ensures g.DataSector(c, s) == g.DataSector(e, t) <==> c == e && s == t
    ensures g.DataSector(c, s) < g.DiskSize()
    ensures g.DataSector(c, s) >= g.partitionStart + g.fatStart + 2 * 993
    ensures g.ClusterToSector(c) > 0
  {
    var m := g.sectorsPerCluster;
    DataSectorIs(g, c, s);
    DataSectorIs(g, e, t);
    ProductSplit(m, c - 2, s, e - 2, t);
    ProductSplit(m, c - 2, s, 127004, 0);
    ProductNat(m, c - 2);
  }

  /** All FAT entries fit the 993 sectors of a copy; the two copies do not overlap. */
  lemma FatSectorsInRange(g: Geometry, c: nat)
    requires g.Valid() && c < 127006
    ensures c * 4 / 512 < 993 && c * 4 % 512 + 4 <= 512
    ensures g.partitionStart + g.fatStart <= g.FatSector(c, 0) < g.partitionStart + g.fatStart + 993
    ensures g.FatSector(c, 1) == g.FatSector(c, 0) + 993 < g.DiskSize()
  {
  }

  /** Two entries share a sector and offset only when they are the same entry. */
  lemma FatSlotsDistinct(c: nat, e: nat)
    requires c != e && c * 4 / 512 == e * 4 / 512
    ensures c * 4 % 512 + 4 <= e * 4 % 512 || e * 4 % 512 + 4 <= c * 4 % 512
  {
    var q := c * 4 / 512;
    assert c * 4 == 512 * q + c * 4 % 512;
    assert e * 4 == 512 * q + e * 4 % 512;
  }

  // ----- the abstract table -----

  type Image = seq<Sector>

  ghost predicate Fits(d: Image, g: Geometry) {
    g.Valid() && |d| == g.DiskSize()
  }

  /** The 28-bit value of entry c in the first FAT copy. */
  ghost function FatEntry(d: Image, g: Geometry, c: nat): (v: nat)
    requires Fits(d, g) && c < 127006
    ensures v < 0x1000_0000
  {
    FatSectorsInRange(g, c);
    GetU32(d[g.FatSector(c, 0)], c * 4 % 512) % 0x1000_0000
  }

  /** The abstraction: a volume's file allocation table. */
  ghost function FatOf(d: Image, g: Geometry): (f: Fat)
    requires Fits(d, g)
    ensures forall c: nat | c < 127006 :: f[c] == FatEntry(d, g, c)
  {
    seq(127006, c requires 0 <= c < 127006 => FatEntry(d, g, c))
  }

  /** Both FAT copies hold the same sectors. */
  ghost predicate Mirrored(d: Image, g: Geometry)
    requires Fits(d, g)
  {
    forall k | g.partitionStart + g.fatStart <= k < g.partitionStart + g.fatStart + 993 :: d[k] == d[k + 993]
  }

  /** What writing entries may change of the FAT sectors. */
  ghost predicate FatKept(d: Image, d': Image, g: Geometry)
    requires Fits(d, g) && Fits(d', g)
  {
    forall k: nat | k < 993 :: FatSectorKept(d, d', g, k)
  }

  /** Of a FAT sector only the words of clusters change, to 28-bit values; and where it or its copy
      changes, the copy becomes the same. */
  ghost predicate FatSectorKept(d: Image, d': Image, g: Geometry, k: nat)
    requires Fits(d, g) && Fits(d', g) && k < 993
  {
    var l := g.partitionStart + g.fatStart + k;
    && (d'[l + 993] == d'[l] || (d'[l] == d[l] && d'[l + 993] == d[l + 993]))
    && forall w: nat | w < 128 ::
         GetU32(d'[l], 4 * w) == GetU32(d[l], 4 * w) || (InRange(128 * k + w) && GetU32(d'[l], 4 * w) < 0x1000_0000)
  }

  lemma FatKeptRefl(d: Image, g: Geometry)
    requires Fits(d, g)
    ensures FatKept(d, d, g)
  {
  }

  lemma FatKeptTrans(a: Image, b: Image, c: Image, g: Geometry)
    requires Fits(a, g) && Fits(b, g) && Fits(c, g) && FatKept(a, b, g) && FatKept(b, c, g)
    ensures FatKept(a, c, g)
  {
    forall k: nat | k < 993 ensures FatSectorKept(a, c, g, k) {
      assert FatSectorKept(a, b, g, k) && FatSectorKept(b, c, g, k);
      hide GetU32, InRange;
    }
  }

  /** So equal FAT copies stay equal. */
  lemma FatKeptMirror(d: Image, d': Image, g: Geometry)
    requires Fits(d, g) && Fits(d', g) && FatKept(d, d', g)
    ensures Mirrored(d, g) ==> Mirrored(d', g)
  {
    if Mirrored(d, g) {
      forall l | g.partitionStart + g.fatStart <= l < g.partitionStart + g.fatStart + 993 ensures d'[l] == d'[l + 993] {
        var k: nat := l - (g.partitionStart + g.fatStart);
        assert FatSectorKept(d, d', g, k);
        assert d[l] == d[l + 993];
      }
    }
  }

  /** Images with the same FAT sectors. */
  lemma FatKeptSame(d: Image, d': Image, g: Geometry)
    requires Fits(d, g) && Fits(d', g)
    requires forall l: nat | g.partitionStart + g.fatStart <= l < g.partitionStart + g.fatStart + 2 * 993 :: d'[l] == d[l]
    ensures FatKept(d, d', g)
  {
    forall k: nat | k < 993 ensures FatSectorKept(d, d', g, k) {
      hide GetU32, InRange;
      assert d'[g.partitionStart + g.fatStart + k] == d[g.partitionStart + g.fatStart + k];
      assert d'[g.partitionStart + g.fatStart + k + 993] == d[g.partitionStart + g.fatStart + k + 993];
    }
  }

  /** The image write_fat_entry leaves: both copies of the entry's sector rewritten. */
  ghost function FatWritten(d: Image, g: Geometry, c: nat, v: nat): (d': Image)
    requires Fits(d, g) && c < 127006
    ensures Fits(d', g)
  {
    FatSectorsInRange(g, c);
    var s := PutU32(d[g.FatSector(c, 0)], c * 4 % 512, v % 0x1000_0000);
    d[g.FatSector(c, 0) := s][g.FatSector(c, 1) := s]
  }

  lemma FatWrittenIs(d: Image, g: Geometry, c: nat, v: nat)
    requires Fits(d, g) && c < 127006
    ensures var l := g.partitionStart + g.fatStart + c * 4 / 512;
      && l + 993 < |d| && c * 4 % 512 + 4 <= 512
      && var s := PutU32(d[l], c * 4 % 512, v % 0x1000_0000);
         FatWritten(d, g, c, v) == d[l := s][l + 993 := s]
  {
    FatSectorsInRange(g, c);
    hide PutU32;
  }

  lemma FatWriteKeeps(d: Image, g: Geometry, c: nat, v: nat)
    requires Fits(d, g) && InRange(c)
    ensures FatKept(d, FatWritten(d, g, c, v), g)
  {
    hide GetU32, PutU32;
    var d' := FatWritten(d, g, c, v);
    FatSectorsInRange(g, c);
    var start := g.partitionStart + g.fatStart;
    forall k: nat | k < 993 ensures FatSectorKept(d, d', g, k) {
      if k == c / 128 {
        WordsOfSector(d[start + k], c, v % 0x1000_0000, k);
      } else {
        assert d'[start + k] == d[start + k] && d'[start + k + 993] == d[start + k + 993];
      }
    }
  }

  /** A word written leaves the others of its sector. */
  lemma WordsOfSector(s: Sector, c: nat, v: uint32, k: nat)
    requires k == c / 128
    ensures c * 4 % 512 + 4 <= 512
    ensures forall w: nat | w < 128 :: GetU32(PutU32(s, c * 4 % 512, v), 4 * w) == if 128 * k + w == c then v else GetU32(s, 4 * w)
  {
    hide GetU32, PutU32;
    WordPlace(c);
    var o := c * 4 % 512;
    forall w: nat | w < 128 ensures GetU32(PutU32(s, o, v), 4 * w) == if 128 * k + w == c then v else GetU32(s, 4 * w) {
      GetPut(s, o, v, 4 * w);
    }
  }

  lemma WordPlace(c: nat)
    ensures c * 4 / 512 == c / 128 && c * 4 % 512 == 4 * (c % 128) && c == 128 * (c / 128) + c % 128
  {
  }

  /** An entry as the bytes of the disk: the four bytes at 4 * (c % 128) of the first FAT copy's sector
      c / 128, least byte first, without the top four bits. */
  lemma FatEntryBytes(d: Image, g: Geometry, c: nat)
    requires Fits(d, g) && c < 127006
    ensures var l, o := g.partitionStart + g.fatStart + c / 128, 4 * (c % 128);
      && l < |d|
      && var b0: int, b1: int, b2: int, b3: int := d[l][o], d[l][o + 1], d[l][o + 2], d[l][o + 3];
         FatOf(d, g)[c] == (b0 + 0x100 * b1 + 0x1_0000 * b2 + 0x100_0000 * b3) % 0x1000_0000
  {
    FatSectorsInRange(g, c);
    WordPlace(c);
  }

  /** The disk d' is d with the 28 bits of v as entry c: four bytes in one sector of the first FAT copy,
      and that sector 993 sectors further on. */
  ghost predicate EntryWritten(d: Image, d': Image, g: Geometry, c: nat, v: nat) {
    var l, o := g.partitionStart + g.fatStart + c / 128, 4 * (c % 128);
    && |d'| == |d| && l + 993 < |d|
    && (forall k | 0 <= k < |d| && k != l && k != l + 993 :: d'[k] == d[k])
    && (forall j | 0 <= j < 512 && !(o <= j < o + 4) :: d'[l][j] == d[l][j])
    && d'[l][o] == v % 0x100 && d'[l][o + 1] == v / 0x100 % 0x100 && d'[l][o + 2] == v / 0x1_0000 % 0x100
    && d'[l][o + 3] == v / 0x100_0000 % 0x10
    && d'[l + 993] == d'[l]
  }

  lemma FatWrittenBytes(d: Image, g: Geometry, c: nat, v: nat)
    requires Fits(d, g) && c < 127006
    ensures EntryWritten(d, FatWritten(d, g, c, v), g, c, v)
  {
    FatSectorsInRange(g, c);
    WordPlace(c);
    LowBits(v);
  }

  lemma LowBits(v: nat)
    ensures var w := v % 0x1000_0000;
      && w % 0x100 == v % 0x100 && w / 0x100 % 0x100 == v / 0x100 % 0x100 && w / 0x1_0000 % 0x100 == v / 0x1_0000 % 0x100
      && w / 0x100_0000 == v / 0x100_0000 % 0x10
  {
    var q, w := v / 0x1000_0000, v % 0x1000_0000;
    assert v == q * 0x1000_0000 + w;
    LowByte(q, w);
    SecondByte(q, w);
    ThirdByte(q, w);
  }

  lemma LowByte(q: nat, w: nat)
    ensures (q * 0x1000_0000 + w) % 0x100 == w % 0x100
  {
  }

  lemma SecondByte(q: nat, w: nat)
    ensures (q * 0x1000_0000 + w) / 0x100 % 0x100 == w / 0x100 % 0x100
  {
    DivModUnique(0x100, q * 0x10_0000 + w / 0x100, w % 0x100);
    LowOfSum(q * 0x1000, w / 0x100);
  }

  lemma LowOfSum(k: nat, x: nat)
    ensures (k * 0x100 + x) % 0x100 == x % 0x100
  {
  }

  lemma ThirdByte(q: nat, w: nat)
    ensures (q * 0x1000_0000 + w) / 0x1_0000 % 0x100 == w / 0x1_0000 % 0x100
    ensures w < 0x1000_0000 ==> (q * 0x1000_0000 + w) / 0x100_0000 % 0x10 == w / 0x100_0000
  {
    DivModUnique(0x1_0000, q * 0x1000 + w / 0x1_0000, w % 0x1_0000);
    LowOfSum(q * 0x10, w / 0x1_0000);
    DivModUnique(0x100_0000, q * 0x10 + w / 0x100_0000, w % 0x100_0000);
    if w < 0x1000_0000 { DivModUnique(0x10, q, w / 0x100_0000); }
  }

  /** write_fat_entry then read_fat_entry: an update of the abstract table at one cluster. */
  lemma FatWriteRefines(d: Image, g: Geometry, c: nat, v: nat)
    requires Fits(d, g) && c < 127006
    ensures FatOf(FatWritten(d, g, c, v), g) == FatOf(d, g)[c := v % 0x1000_0000]
    ensures InRange(c) ==> FatKept(d, FatWritten(d, g, c, v), g)
    ensures Mirrored(d, g) ==> Mirrored(FatWritten(d, g, c, v), g)
    ensures forall k | 0 <= k < |d| && !(g.partitionStart + g.fatStart <= k < g.partitionStart + g.fatStart + 2 * 993) ::
      FatWritten(d, g, c, v)[k] == d[k]
  {
    hide GetU32, PutU32, FatOf;
    var d' := FatWritten(d, g, c, v);
    FatSectorsInRange(g, c);
    if InRange(c) { FatWriteKeeps(d, g, c, v); }
    hide FatKept;
    forall e: nat | e < 127006
      ensures FatEntry(d', g, e) == if e == c then v % 0x1000_0000 else FatEntry(d, g, e)
    {
      FatSectorsInRange(g, e);
      if e * 4 / 512 == c * 4 / 512 {
        if e != c { FatSlotsDistinct(c, e); }
        GetPut(d[g.FatSector(c, 0)], c * 4 % 512, v % 0x1000_0000, e * 4 % 512);
      }
    }
  }
}
