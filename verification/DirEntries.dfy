/** The 32-byte directory entries of FAT32, at an offset inside a sector. */
module DirEntries {
  import opened Words
  import opened Sectors

  const ATTR_READ_ONLY: nat := 0x01
  const ATTR_DIRECTORY: nat := 0x10
  const ATTR_ARCHIVE: nat := 0x20

  function GetU16(s: Sector, off: nat): nat
    requires off + 2 <= 512
  {
    var b0: int, b1: int := s[off], s[off + 1];
    b0 + 0x100 * b1
  }

  predicate IsSlot(off: nat) { off % 32 == 0 && off < 512 }

  /** The eleven name bytes. */
  function NameAt(s: Sector, off: nat): (n: seq<byte>)
    requires IsSlot(off)
    ensures |n| == 11
  {
    s[off..off + 11]
  }

  function AttributesAt(s: Sector, off: nat): byte
    requires IsSlot(off)
  {
    s[off + 11]
  }

  /** `(cluster_high << 16) | cluster_low`. */
  function ClusterAt(s: Sector, off: nat): nat
    requires IsSlot(off)
  {
    GetU16(s, off + 20) * 0x1_0000 + GetU16(s, off + 26)
  }

  function SizeAt(s: Sector, off: nat): uint32
    requires IsSlot(off)
  {
    GetU32(s, off + 28)
  }

  /** The attribute test `attributes & bit`. */
  predicate HasAttribute(a: nat, bit: nat)
    requires bit > 0
  {
    a / bit % 2 == 1
  }

  /** The sector update_directory_entry writes back: the new size, and zero write time and date. */
  function SizeUpdated(s: Sector, off: nat, size: uint32): Sector
    requires IsSlot(off)
  {
    PutU32(PutU32(s, off + 28, size), off + 22, 0)
  }

  /** The entry's bytes: name, attributes, the first cluster in two halves, and the size. */
  lemma EntryBytes(s: Sector, off: nat)
    requires IsSlot(off)
    ensures off + 32 <= 512 && NameAt(s, off) == s[off..off + 11] && AttributesAt(s, off) == s[off + 11]
    ensures var b0: int, b1: int, b2: int, b3: int := s[off + 26], s[off + 27], s[off + 20], s[off + 21];
      ClusterAt(s, off) == b0 + 0x100 * b1 + 0x1_0000 * b2 + 0x100_0000 * b3
    ensures var b0: int, b1: int, b2: int, b3: int := s[off + 28], s[off + 29], s[off + 30], s[off + 31];
      SizeAt(s, off) == b0 + 0x100 * b1 + 0x1_0000 * b2 + 0x100_0000 * b3
  {
  }

  /** Read-only is the lowest bit of the attributes, and directory the fifth. */
  lemma AttributeBits(a: byte)
    ensures HasAttribute(a, ATTR_READ_ONLY) <==> a % 2 == 1
    ensures HasAttribute(a, ATTR_DIRECTORY) <==> a % 32 >= 16
  {
  }

  /** The bytes update_directory_entry writes: four of size, least first, and four zeros. */
  lemma SizeUpdatedBytes(s: Sector, off: nat, size: uint32)
    requires IsSlot(off)
    ensures off + 32 <= 512
    ensures var t := SizeUpdated(s, off, size);
      && t[off + 28] == size % 0x100 && t[off + 29] == size / 0x100 % 0x100 && t[off + 30] == size / 0x1_0000 % 0x100
      && t[off + 31] == size / 0x100_0000
      && t[off + 22] == 0 && t[off + 23] == 0 && t[off + 24] == 0 && t[off + 25] == 0
      && forall k | 0 <= k < 512 && !(off + 22 <= k < off + 26) && !(off + 28 <= k < off + 32) :: t[k] == s[k]
  {
    SlotsApart(off, off);
  }

  /** It changes the size and keeps name, attributes, first cluster and every other entry. */
  lemma SizeUpdatedMeans(s: Sector, off: nat, size: uint32, at: nat)
    requires IsSlot(off) && IsSlot(at)
    ensures var t := SizeUpdated(s, off, size);
      && SizeAt(t, at) == (if at == off then size else SizeAt(s, at))
      && NameAt(t, at) == NameAt(s, at) && AttributesAt(t, at) == AttributesAt(s, at) && ClusterAt(t, at) == ClusterAt(s, at)
      && (at != off ==> t[at..at + 32] == s[at..at + 32])
  {
    SlotsApart(off, at);
    var t1 := PutU32(s, off + 28, size);
    GetPut(s, off + 28, size, at + 28);
    GetPut(t1, off + 22, 0, at + 28);
    PutElsewhere(s, off + 28, size);
    PutElsewhere(t1, off + 22, 0);
    hide PutU32, GetU32;
    var t := SizeUpdated(s, off, size);
    hide *;
    OtherFields(s, t, off, at);
  }

  lemma OtherFields(s: Sector, t: Sector, off: nat, at: nat)
    requires IsSlot(off) && IsSlot(at)
    requires forall k | 0 <= k < 512 && !(off + 22 <= k < off + 26) && !(off + 28 <= k < off + 32) :: t[k] == s[k]
    ensures NameAt(t, at) == NameAt(s, at) && AttributesAt(t, at) == AttributesAt(s, at) && ClusterAt(t, at) == ClusterAt(s, at)
    ensures at + 32 <= 512 && (at != off ==> t[at..at + 32] == s[at..at + 32])
  {
    SlotsApart(off, at);
    hide IsSlot;
    assert forall k | at <= k < at + 22 || at + 26 <= k < at + 28 :: t[k] == s[k];
  }

  lemma PutElsewhere(s: Sector, off: nat, v: uint32)
    requires off + 4 <= 512
    ensures forall k | 0 <= k < 512 && !(off <= k < off + 4) :: PutU32(s, off, v)[k] == s[k]
  {
  }

  lemma SlotsApart(a: nat, b: nat)
    requires IsSlot(a) && IsSlot(b)
    ensures a == b || a + 32 <= b || b + 32 <= a
    ensures a + 32 <= 512
  {
  }
}
