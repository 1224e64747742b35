/** Where the slots of a directory lie on a disk image, what one of them says, and what writing
    one does to the image. */
module DirSlots {
  import opened Words
  import opened Names
  import opened FatChains
  import opened Sectors
  import opened FatVolume
  import opened FileImages
  import opened FileSteps
  import opened DirEntries
  import opened DirMaps

  // ----- the fields of a slot -----

  /** `(cluster_high << 16) | cluster_low`. */
  function FirstCluster(s: Slot): nat {
    var b0: int, b1: int, b2: int, b3: int := s[26], s[27], s[20], s[21];
    b0 + 0x100 * b1 + 0x1_0000 * (b2 + 0x100 * b3)
  }

  function FileSize(s: Slot): nat {
    var b0: int, b1: int, b2: int, b3: int := s[28], s[29], s[30], s[31];
    b0 + 0x100 * b1 + 0x1_0000 * b2 + 0x100_0000 * b3
  }

  predicate IsDirectory(s: Slot) { HasAttribute(s[11], 0x10) }

  predicate IsReadOnly(s: Slot) { HasAttribute(s[11], 0x01) }

  /** The slot add_directory_entry fills in: all dates and times zero. */
  function NewEntry(name: Name, attributes: byte, first: uint32, size: uint32): (s: Slot)
    ensures NameOf(s) == name && s[11] == attributes
  {
    name + EntryTail(attributes, first, size)
  }

  /** What follows the name. */
  function EntryTail(attributes: byte, first: uint32, size: uint32): (t: seq<byte>)
    ensures |t| == 21
  {
    [attributes, 0, 0, 0, 0, 0, 0, 0, 0,
     first / 0x1_0000 % 0x100, first / 0x100_0000, 0, 0, 0, 0, first % 0x100, first / 0x100 % 0x100,
     size % 0x100, size / 0x100 % 0x100, size / 0x1_0000 % 0x100, size / 0x100_0000]
  }

  /** The entry says what it was made of. */
  lemma NewEntryFields(name: Name, attributes: byte, first: uint32, size: uint32)
    ensures var s := NewEntry(name, attributes, first, size);
      FirstCluster(s) == first && FileSize(s) == size
  {
    BytesOf(first);
    BytesOf(size);
  }

  /** The fields of a slot by its bytes. */
  lemma SlotBytes(s: Slot)
    ensures var b0: int, b1: int, b2: int, b3: int := s[26], s[27], s[20], s[21];
      FirstCluster(s) == b0 + 0x100 * b1 + 0x1_0000 * b2 + 0x100_0000 * b3
    ensures var b0: int, b1: int, b2: int, b3: int := s[28], s[29], s[30], s[31];
      FileSize(s) == b0 + 0x100 * b1 + 0x1_0000 * b2 + 0x100_0000 * b3
    ensures IsDirectory(s) <==> s[11] % 32 >= 16
    ensures IsReadOnly(s) <==> s[11] % 2 == 1
  {
  }

  /** A new entry is the name, the attributes, the first cluster and the size; every other byte is zero. */
  lemma NewEntryBytes(name: Name, attributes: byte, first: uint32, size: uint32)
    ensures var s := NewEntry(name, attributes, first, size);
      && s[..11] == name && s[11] == attributes
      && (forall k | 12 <= k < 20 || 22 <= k < 26 :: s[k] == 0)
      && s[26] == first % 0x100 && s[27] == first / 0x100 % 0x100 && s[20] == first / 0x1_0000 % 0x100
      && s[21] == first / 0x100_0000
      && s[28] == size % 0x100 && s[29] == size / 0x100 % 0x100 && s[30] == size / 0x1_0000 % 0x100
      && s[31] == size / 0x100_0000
  {
  }

  // ----- slots of one sector -----

  function SlotIn(s: Sector, i: nat): (t: Slot)
    requires i < 16
  {
    s[32 * i..32 * i + 32]
  }

  function SectorSlots(s: Sector): (r: seq<Slot>)
    ensures |r| == 16
  {
    seq<Slot>(16, i requires 0 <= i < 16 => SlotIn(s, i))
  }

  /** The field readers of a sector agree with those of its slot. */
  lemma SlotFields(s: Sector, i: nat)
    requires i < 16
    ensures NameAt(s, 32 * i) == NameOf(SlotIn(s, i)) && AttributesAt(s, 32 * i) == SlotIn(s, i)[11]
    ensures ClusterAt(s, 32 * i) == FirstCluster(SlotIn(s, i)) && SizeAt(s, 32 * i) == FileSize(SlotIn(s, i))
  {
    assert forall k | 0 <= k < 32 :: SlotIn(s, i)[k] == s[32 * i + k];
  }

  function PutSlot(s: Sector, i: nat, t: Slot): (r: Sector)
    requires i < 16
  {
    s[..32 * i] + t + s[32 * i + 32..]
  }

  lemma SlotAfterPut(s: Sector, i: nat, t: Slot, k: nat)
    requires i < 16 && k < 16
    ensures SlotIn(PutSlot(s, i, t), k) == if k == i then t else SlotIn(s, k)
  {
    var r := PutSlot(s, i, t);
    assert forall j | 0 <= j < 512 :: r[j] == if 32 * i <= j < 32 * i + 32 then t[j - 32 * i] else s[j];
    hide PutSlot;
    if k < i { assert 32 * k + 32 <= 32 * i; } else if k > i { assert 32 * i + 32 <= 32 * k; }
  }

  lemma PutSlotMeans(s: Sector, i: nat, t: Slot)
    requires i < 16
    ensures SectorSlots(PutSlot(s, i, t)) == SectorSlots(s)[i := t]
  {
    forall k: nat | k < 16 ensures SectorSlots(PutSlot(s, i, t))[k] == SectorSlots(s)[i := t][k] {
      SlotAfterPut(s, i, t, k);
      hide PutSlot, SlotIn;
    }
  }

  // ----- slots of a directory -----

  lemma SlotBound(g: Geometry, ds: seq<nat>, j: nat)
    requires g.sectorsPerCluster > 0
    ensures j < |ds| * g.sectorsPerCluster * 16 <==> ClusterOf(g.sectorsPerCluster, j / 16) < |ds|
  {
    ClusterBound(g.sectorsPerCluster, j / 16, |ds|);
    var n := |ds| * g.sectorsPerCluster;
    assert j < n * 16 <==> j / 16 < n;
  }

  ghost function SlotAt(d: Image, g: Geometry, ds: seq<nat>, j: nat): Slot
    requires OnDisk(d, g, ds) && ClusterOf(g.sectorsPerCluster, j / 16) < |ds|
  {
    LbasDistinct(g, ds, j / 16, j / 16);
    SlotIn(d[Lba(g, ds, j / 16)], j % 16)
  }

  /** The directory with the cluster chain ds. */
  ghost function Slots(d: Image, g: Geometry, ds: seq<nat>): (r: seq<Slot>)
    requires OnDisk(d, g, ds)
    ensures |r| == |ds| * g.sectorsPerCluster * 16
    ensures forall j: nat | j < |r| :: ClusterOf(g.sectorsPerCluster, j / 16) < |ds| && r[j] == SlotAt(d, g, ds, j)
  {
    var n := |ds| * g.sectorsPerCluster * 16;
    assert forall j: nat | j < n :: ClusterOf(g.sectorsPerCluster, j / 16) < |ds| by {
      forall j: nat | j < n ensures ClusterOf(g.sectorsPerCluster, j / 16) < |ds| { SlotBound(g, ds, j); }
    }
    seq<Slot>(n, j requires 0 <= j < n && OnDisk(d, g, ds) && ClusterOf(g.sectorsPerCluster, j / 16) < |ds| => SlotAt(d, g, ds, j))
  }

  /** Where byte b of slot i lies on the disk, in sector r of the q-th cluster. */
  lemma SlotByteAt(d: Image, g: Geometry, ds: seq<nat>, i: nat, b: nat, q: nat, r: nat)
    requires OnDisk(d, g, ds) && i < 16 && b < 32 && q < |ds| && r < g.sectorsPerCluster
    ensures var l, j := 2 * g.partitionStart + g.dataStart + (ds[q] - 2) * g.sectorsPerCluster + r,
                        16 * (q * g.sectorsPerCluster + r) + i;
      0 <= l < |d| && 0 <= j < |Slots(d, g, ds)| && Slots(d, g, ds)[j][b] == d[l][32 * i + b]
  {
    var k := q * g.sectorsPerCluster + r;
    LbaIs(g, ds, q, r);
    LbasDistinct(g, ds, k, k);
    SlotsOfSector(d, g, ds, k, i);
    hide Slots, Lba, ClusterOf;
  }

  /** Sixteen slots from one sector. */
  lemma SlotsOfSector(d: Image, g: Geometry, ds: seq<nat>, k: nat, i: nat)
    requires OnDisk(d, g, ds) && ClusterOf(g.sectorsPerCluster, k) < |ds| && i < 16
    requires Lba(g, ds, k) < |d|
    ensures 16 * k + 16 <= |Slots(d, g, ds)|
    ensures Slots(d, g, ds)[16 * k + i] == SectorSlots(d[Lba(g, ds, k)])[i]
  {
    var j := 16 * k + i;
    assert (16 * k + 15) / 16 == k && j / 16 == k && j % 16 == i;
    SlotBound(g, ds, 16 * k + 15);
    hide ClusterOf, WithinOf, Lba, SlotIn;
    assert Slots(d, g, ds)[j] == SlotAt(d, g, ds, j);
  }

  /** The image after slot j is written. */
  ghost function WithSlot(d: Image, g: Geometry, ds: seq<nat>, j: nat, s: Slot): (d': Image)
    requires OnDisk(d, g, ds) && ClusterOf(g.sectorsPerCluster, j / 16) < |ds|
    ensures Fits(d', g)
  {
    LbasDistinct(g, ds, j / 16, j / 16);
    var l := Lba(g, ds, j / 16);
    d[l := PutSlot(d[l], j % 16, s)]
  }

  /** Exactly that slot changes. */
  lemma WithSlotMeans(d: Image, g: Geometry, ds: seq<nat>, j: nat, s: Slot)
    requires OnDisk(d, g, ds) && j < |Slots(d, g, ds)|
    ensures ClusterOf(g.sectorsPerCluster, j / 16) < |ds|
    ensures Slots(WithSlot(d, g, ds, j, s), g, ds) == Slots(d, g, ds)[j := s]
    ensures FatOf(WithSlot(d, g, ds, j, s), g) == FatOf(d, g)
  {
    hide Slots;
    var n := |Slots(d, g, ds)|;
    SlotBound(g, ds, j);
    var d' := WithSlot(d, g, ds, j, s);
    var l := Lba(g, ds, j / 16);
    LbasDistinct(g, ds, j / 16, j / 16);
    PutSlotMeans(d[l], j % 16, s);
    hide ClusterOf, WithinOf, Lba, PutSlot;
    forall i: nat | i < n ensures Slots(d', g, ds)[i] == if i == j then s else Slots(d, g, ds)[i] {
      LbasDistinct(g, ds, i / 16, j / 16);
      SameSector(d[l], d'[l], j % 16, s, i % 16);
      assert i / 16 == j / 16 && i % 16 == j % 16 ==> i == j;
    }
    SameFats(d, d', g);
  }

  lemma SameSector(b: Sector, b': Sector, i: nat, s: Slot, k: nat)
    requires i < 16 && k < 16 && SectorSlots(b') == SectorSlots(b)[i := s]
    ensures SlotIn(b', k) == if k == i then s else SlotIn(b, k)
  {
    assert SectorSlots(b')[k] == SlotIn(b', k) && SectorSlots(b)[k] == SlotIn(b, k);
  }

  /** Directories keep their slots when their sectors keep their contents. */
  lemma SlotsElsewhere(d: Image, d': Image, g: Geometry, ds: seq<nat>)
    requires OnDisk(d, g, ds) && Fits(d', g)
    requires forall l: nat | l < |d| && InFile(g, ds, l) :: d'[l] == d[l]
    ensures Slots(d', g, ds) == Slots(d, g, ds)
  {
    hide ClusterOf, WithinOf, Lba;
    forall j: nat | j < |Slots(d, g, ds)| ensures Slots(d', g, ds)[j] == Slots(d, g, ds)[j] {
      LbasDistinct(g, ds, j / 16, j / 16);
      LbaInFile(g, ds, j / 16);
    }
  }
}
