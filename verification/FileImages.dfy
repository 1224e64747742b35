/** Files as byte sequences on a disk image: where the bytes of a chain lie, and what writing one
    sector does to them. */
module FileImages {
  import opened Words
  import opened FatChains
  import opened Sectors

  // ----- positions -----

  /** The index in the chain of the cluster that holds file sector k, and the sector inside it. */
  function ClusterOf(spc: nat, k: nat): nat
    requires spc > 0
  {
    k / spc
  }

  function WithinOf(spc: nat, k: nat): (s: nat)
    requires spc > 0
    ensures s < spc
  {
    k % spc
  }

  lemma SectorSplit(spc: nat, k: nat)
    requires spc > 0
    ensures k == ClusterOf(spc, k) * spc + WithinOf(spc, k)
  {
  }

  /** File sectors below n * spc lie in the first n clusters, and conversely. */
  lemma ClusterBound(spc: nat, k: nat, n: nat)
    requires spc > 0
    ensures k < n * spc <==> ClusterOf(spc, k) < n
  {
    SectorSplit(spc, k);
    var q, s := ClusterOf(spc, k), WithinOf(spc, k);
    hide ClusterOf, WithinOf;
    if q < n {
      ProductSplit(spc, q, s, n, 0);
    } else if n < q {
      MultiplesApart(spc, n, q);
    }
  }

  /** The driver's cluster_offset: the position within its cluster. */
  function ClusterOffset(spc: nat, pos: nat): nat
    requires spc > 0
  {
    pos % (spc * 512)
  }

  /** fat32_truncate's count of clusters for a size, in 32-bit arithmetic. */
  function ClusterCount(spc: nat, size: nat): nat
    requires spc > 0
  {
    Quotient(Wrap32(size + spc * 512 - 1), spc * 512)
  }

  /** An unsigned quotient. */
  function Quotient(sum: uint32, unit: nat): nat
    requires unit > 0
  {
    sum / unit
  }

  /** The number of bytes in `shift` clusters. */
  function Ahead(spc: nat, shift: nat): nat {
    shift * (spc * 512)
  }

  /** The driver's cluster, sector and byte offsets of a position, by way of the file sector. */
  lemma PositionParts(spc: nat, pos: nat)
    requires spc > 0
    ensures ClusterOffset(spc, pos) / 512 == WithinOf(spc, pos / 512)
    ensures ClusterOffset(spc, pos) % 512 == pos % 512
    ensures pos / (spc * 512) == ClusterOf(spc, pos / 512)
    ensures ClusterOffset(spc, pos) == 0 <==> pos % 512 == 0 && WithinOf(spc, pos / 512) == 0
  {
    var k, o := pos / 512, pos % 512;
    var q, s := ClusterOf(spc, k), WithinOf(spc, k);
    SectorSplit(spc, k);
    hide ClusterOf, WithinOf;
    var r := s * 512 + o;
    assert r < spc * 512;
    assert pos == q * (spc * 512) + r by {
      Regroup(q, spc);
    }
    DivModUnique(spc * 512, q, r);
  }

  lemma Regroup(q: nat, spc: nat)
    ensures q * (spc * 512) == q * spc * 512
  {
  }

  /** The chain index the driver's cluster cursor stands at: it moves on only when the first byte
      of the next cluster is touched. */
  function CursorIndex(spc: nat, pos: nat): nat
    requires spc > 0
  {
    if pos == 0 then 0 else ClusterOf(spc, (pos - 1) / 512)
  }

  /** When the driver advances the cursor before touching position pos. */
  lemma CursorAdvance(spc: nat, pos: nat)
    requires spc > 0
    ensures ClusterOf(spc, pos / 512) ==
      CursorIndex(spc, pos) + if pos > 0 && ClusterOffset(spc, pos) == 0 then 1 else 0
  {
    PositionParts(spc, pos);
    if pos == 0 {
      DivModUnique(spc, 0, 0);
    } else if pos % 512 == 0 {
      var k := pos / 512;
      assert (pos - 1) / 512 == k - 1;
      SectorSplit(spc, k);
      SectorSplit(spc, k - 1);
      var q, s := ClusterOf(spc, k - 1), WithinOf(spc, k - 1);
      if s + 1 < spc {
        DivModUnique(spc, q, s + 1);
      } else {
        assert k == (q + 1) * spc;
        DivModUnique(spc, q + 1, 0);
      }
    } else {
      assert (pos - 1) / 512 == pos / 512;
    }
  }

  // ----- the bytes of a chain -----

  /** The physical sector of a chain's k-th sector. */
  function Lba(g: Geometry, cs: seq<nat>, k: nat): nat
    requires g.sectorsPerCluster > 0 && ClusterOf(g.sectorsPerCluster, k) < |cs|
  {
    g.DataSector(cs[ClusterOf(g.sectorsPerCluster, k)], WithinOf(g.sectorsPerCluster, k))
  }

  /** In numbers: sector r of the q-th cluster of a chain, as the driver reaches it. */
  lemma LbaIs(g: Geometry, cs: seq<nat>, q: nat, r: nat)
    requires r < g.sectorsPerCluster && q < |cs| && AllInRange(cs)
    ensures ClusterOf(g.sectorsPerCluster, q * g.sectorsPerCluster + r) == q
    ensures Lba(g, cs, q * g.sectorsPerCluster + r) == 2 * g.partitionStart + g.dataStart + (cs[q] - 2) * g.sectorsPerCluster + r
  {
    DivModUnique(g.sectorsPerCluster, q, r);
    DataSectorIs(g, cs[q], r);
  }

  /** A chain's sectors are distinct data sectors of the disk. */
  lemma LbasDistinct(g: Geometry, cs: seq<nat>, k: nat, j: nat)
    requires g.Valid() && AllInRange(cs) && Distinct(cs)
    requires ClusterOf(g.sectorsPerCluster, k) < |cs| && ClusterOf(g.sectorsPerCluster, j) < |cs|
    ensures Lba(g, cs, k) == Lba(g, cs, j) <==> k == j
    ensures g.partitionStart + g.fatStart + 2 * 993 <= Lba(g, cs, k) < g.DiskSize()
  {
    var m := g.sectorsPerCluster;
    DataSectorsDisjoint(g, cs[ClusterOf(m, k)], WithinOf(m, k), cs[ClusterOf(m, j)], WithinOf(m, j));
    SectorSplit(m, k);
    SectorSplit(m, j);
    hide ClusterOf, WithinOf;
  }

  /** Chains without a common cluster have no common sector. */
  lemma LbasOfDisjoint(g: Geometry, cs: seq<nat>, ds: seq<nat>, k: nat, j: nat)
    requires g.Valid() && AllInRange(cs) && AllInRange(ds)
    requires ClusterOf(g.sectorsPerCluster, k) < |cs| && ClusterOf(g.sectorsPerCluster, j) < |ds|
    requires cs[ClusterOf(g.sectorsPerCluster, k)] !in ds
    ensures Lba(g, cs, k) != Lba(g, ds, j)
  {
    var m := g.sectorsPerCluster;
    DataSectorsDisjoint(g, cs[ClusterOf(m, k)], WithinOf(m, k), ds[ClusterOf(m, j)], WithinOf(m, j));
  }

  /** How many bytes a chain holds. */
  function Capacity(g: Geometry, cs: seq<nat>): nat {
    |cs| * g.sectorsPerCluster * 512
  }

  lemma CapacityBound(g: Geometry, cs: seq<nat>, i: nat)
    requires g.sectorsPerCluster > 0
    ensures i < Capacity(g, cs) <==> ClusterOf(g.sectorsPerCluster, i / 512) < |cs|
  {
    ClusterBound(g.sectorsPerCluster, i / 512, |cs|);
    var n := |cs| * g.sectorsPerCluster;
    assert i < n * 512 <==> i / 512 < n;
  }

  ghost predicate OnDisk(d: Image, g: Geometry, cs: seq<nat>) {
    Fits(d, g) && AllInRange(cs) && Distinct(cs) && cs != []
  }

  /** Byte i of a chain. */
  ghost function ByteAt(d: Image, g: Geometry, cs: seq<nat>, i: nat): byte
    requires OnDisk(d, g, cs) && ClusterOf(g.sectorsPerCluster, i / 512) < |cs|
  {
    LbasDistinct(g, cs, i / 512, i / 512);
    d[Lba(g, cs, i / 512)][i % 512]
  }

  /** The chain's first |content| bytes are `content`. */
  ghost predicate Holds(d: Image, g: Geometry, cs: seq<nat>, content: seq<byte>) {
    && OnDisk(d, g, cs) && |content| <= Capacity(g, cs)
    && forall i: nat | i < |content| :: ClusterOf(g.sectorsPerCluster, i / 512) < |cs| && ByteAt(d, g, cs, i) == content[i]
  }

  /** In numbers: byte i of the content lies at i % 512 of sector r of the q-th cluster of the chain, where
      q * m + r is i / 512 for m sectors in a cluster. */
  lemma HeldByte(d: Image, g: Geometry, cs: seq<nat>, content: seq<byte>, i: nat, q: nat, r: nat)
    requires Holds(d, g, cs, content) && i < |content|
    requires r < g.sectorsPerCluster && i / 512 == q * g.sectorsPerCluster + r
    ensures q < |cs|
    ensures var l := 2 * g.partitionStart + g.dataStart + (cs[q] - 2) * g.sectorsPerCluster + r;
      0 <= l < |d| && d[l][i % 512] == content[i]
  {
    assert ByteAt(d, g, cs, i) == content[i];
    DivModUnique(g.sectorsPerCluster, q, r);
    LbaIs(g, cs, q, r);
    LbasDistinct(g, cs, i / 512, i / 512);
    hide Lba, ClusterOf, Capacity;
  }

  // ----- writing into a file -----

  /** Overwriting `content` with `data` at `pos`, growing it if need be. */
  function Splice(content: seq<byte>, pos: nat, data: seq<byte>): (r: seq<byte>)
    requires pos <= |content|
    ensures |r| == if pos + |data| > |content| then pos + |data| else |content|
  {
    content[..pos] + data + (if pos + |data| <= |content| then content[pos + |data|..] else [])
  }

  /** Byte by byte: the data from the position on, and the content everywhere else. */
  lemma SpliceBytes(content: seq<byte>, pos: nat, data: seq<byte>)
    requires pos <= |content|
    ensures var r := Splice(content, pos, data);
      forall i | 0 <= i < |r| :: r[i] == if pos <= i < pos + |data| then data[i - pos] else content[i]
  {
  }

  /** Two writes one after the other are one write. */
  lemma SpliceTwice(content: seq<byte>, pos: nat, a: seq<byte>, b: seq<byte>)
    requires pos <= |content|
    ensures Splice(Splice(content, pos, a), pos + |a|, b) == Splice(content, pos, a + b)
  {
  }

  /** The sector after memcpy(buffer + off, data, |data|). */
  function Patch(base: Sector, off: nat, data: seq<byte>): (r: Sector)
    requires off + |data| <= 512
  {
    base[..off] + data + base[off + |data|..]
  }

  /** Writing one patched sector is splicing the content.  The sector patched is the one on disk,
      or any sector at all when it lies wholly beyond the end of the content. */
  lemma PatchSplices(d: Image, g: Geometry, cs: seq<nat>, content: seq<byte>, pos: nat, l: nat, base: Sector, data: seq<byte>)
    requires Holds(d, g, cs, content) && pos <= |content| && pos % 512 + |data| <= 512
    requires ClusterOf(g.sectorsPerCluster, pos / 512) < |cs| && data != []
    requires l == Lba(g, cs, pos / 512) && l < |d|
    requires base == d[l] || (pos == |content| && pos % 512 == 0)
    ensures Holds(d[l := Patch(base, pos % 512, data)], g, cs, Splice(content, pos, data))
  {
    var m, k, off := g.sectorsPerCluster, pos / 512, pos % 512;
    var d' := d[l := Patch(base, off, data)];
    var after := Splice(content, pos, data);
    CapacityBound(g, cs, pos + |data| - 1);
    assert (pos + |data| - 1) / 512 == k;
    hide Capacity, ClusterOf, WithinOf, Lba;
    forall i: nat | i < |after| ensures ClusterOf(m, i / 512) < |cs| && ByteAt(d', g, cs, i) == after[i] {
      if i < |content| {
        assert ByteAt(d, g, cs, i) == content[i];
      } else {
        assert i / 512 == k;
      }
      LbasDistinct(g, cs, i / 512, k);
    }
  }
}
