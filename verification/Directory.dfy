/** The directory operations of the driver on a mounted volume: search, add, remove, create,
    delete and rename, each against what it does to the slots and to the allocation table. */
module Directory {
  import opened Words
  import opened Names
  import opened FatChains
  import opened FatRuns
  import opened Sectors
  import opened FatVolume
  import opened FileImages
  import opened FileSteps
  import opened DirEntries
  import opened FileSessions
  import opened DirMaps
  import opened DirSlots

  /** What one sector, cluster or chain of a directory says to a search. */
  datatype Scan = More | Stop | Hit(sector: nat, offset: nat)

  /** The directory's chain, as the operations need it. */
  ghost predicate HasDirectory(d: Image, g: Geometry, ds: seq<nat>) {
    Fits(d, g) && IsChain(FatOf(d, g), ds)
  }

  /** Sector (as the driver numbers it) and offset of slot j. */
  ghost predicate SlotLocation(g: Geometry, ds: seq<nat>, j: nat, sector: nat, offset: nat)
    requires g.sectorsPerCluster > 0
  {
    && ClusterOf(g.sectorsPerCluster, j / 16) < |ds|
    && g.partitionStart + sector == Lba(g, ds, j / 16) && offset == 32 * (j % 16)
  }

  lemma ChainOnDisk(d: Image, g: Geometry, ds: seq<nat>)
    requires HasDirectory(d, g, ds)
    ensures OnDisk(d, g, ds)
  {
  }

  lemma OnDiskMeans(d: Image, g: Geometry, ds: seq<nat>)
    requires OnDisk(d, g, ds)
    ensures Fits(d, g) && g.Valid() && g.sectorsPerCluster > 0 && ds != []
  {
  }

  lemma Mounted(vol: Volume, ds: seq<nat>)
    requires HasDirectory(vol.disk[..], vol.geo, ds)
    ensures OnDisk(vol.disk[..], vol.geo, ds) && ds != [] && vol.Valid() && Fits(vol.disk[..], vol.geo)
    ensures vol.Table() == FatOf(vol.disk[..], vol.geo) && IsChain(vol.Table(), ds)
  {
    hide FatOf;
  }

  /** The s-th sector of the c-th cluster of a chain. */
  lemma ClusterSector(d: Image, g: Geometry, ds: seq<nat>, c: nat, s: nat)
    requires OnDisk(d, g, ds) && c < |ds| && s < g.sectorsPerCluster
    ensures ClusterOf(g.sectorsPerCluster, c * g.sectorsPerCluster + s) == c
    ensures Lba(g, ds, c * g.sectorsPerCluster + s) == g.partitionStart + (g.ClusterToSector(ds[c]) + s) < |d|
  {
    DivModUnique(g.sectorsPerCluster, c, s);
    LbasDistinct(g, ds, c * g.sectorsPerCluster + s, c * g.sectorsPerCluster + s);
  }

  // ----- search -----

  /** The name comparison. */
  method SameName(buf: Sector, offset: nat, name: Name) returns (match': bool)
    requires IsSlot(offset)
    ensures match' <==> NameAt(buf, offset) == name
  {
    match' := true;
    for i := 0 to 11
      invariant forall k | 0 <= k < i :: buf[offset + k] == name[k]
    {
      if buf[offset + i] != name[i] {
        assert NameAt(buf, offset)[i] == buf[offset + i];
        return false;
      }
    }
    assert NameAt(buf, offset) == name;
  }

  /** The slots of one sector, as part of a directory from slot `at` on. */
  ghost predicate Window(dir: seq<Slot>, at: nat, buf: Sector) {
    at + 16 <= |dir| && forall i: nat | i < 16 :: dir[at + i] == SectorSlots(buf)[i]
  }

  /** The search within one sector. */
  method FindInSector(buf: Sector, sector: nat, name: Name, ghost dir: seq<Slot>, ghost at: nat) returns (r: Scan)
    requires Window(dir, at, buf)
    ensures match r
      case More => Search(dir, at, name) == Search(dir, at + 16, name)
      case Stop => Search(dir, at, name) == None
      case Hit(s, offset) => s == sector && IsSlot(offset) && Search(dir, at, name) == Some(at + offset / 32)
  {
    var offset := 0;
    ghost var i: nat := 0;
    while offset < 512
      invariant offset == 32 * i && i <= 16
      invariant Search(dir, at, name) == Search(dir, at + i, name)
    {
      assert dir[at + i] == SectorSlots(buf)[i];
      assert SectorSlots(buf)[i] == SlotIn(buf, i);
      SlotFields(buf, i);
      assert SlotIn(buf, i)[0] == buf[offset];
      if buf[offset] == 0x00 { return Stop; }
      if buf[offset] != 0xE5 && buf[offset + 11] % 16 != 15 {
        var match' := SameName(buf, offset, name);
        if match' { return Hit(sector, offset); }
      }
      offset := offset + 32;
      i := i + 1;
    }
    r := More;
  }

  /** The search for a slot to fill within one sector. */
  method RoomInSector(buf: Sector, sector: nat, ghost dir: seq<Slot>, ghost at: nat) returns (r: Scan)
    requires Window(dir, at, buf)
    ensures match r
      case More => Room(dir, at) == Room(dir, at + 16)
      case Stop => false
      case Hit(s, offset) => s == sector && IsSlot(offset) && Room(dir, at) == Some(at + offset / 32)
  {
    var offset := 0;
    ghost var i: nat := 0;
    while offset < 512
      invariant offset == 32 * i && i <= 16
      invariant Room(dir, at) == Room(dir, at + i)
    {
      assert dir[at + i] == SectorSlots(buf)[i];
      assert SlotIn(buf, i)[0] == buf[offset];
      if buf[offset] == 0x00 || buf[offset] == 0xE5 { return Hit(sector, offset); }
      offset := offset + 32;
      i := i + 1;
    }
    r := More;
  }

  lemma WindowOf(d: Image, g: Geometry, ds: seq<nat>, k: nat)
    requires OnDisk(d, g, ds) && ClusterOf(g.sectorsPerCluster, k) < |ds| && Lba(g, ds, k) < |d|
    ensures Window(Slots(d, g, ds), 16 * k, d[Lba(g, ds, k)])
  {
    hide Slots, ClusterOf, Lba, SectorSlots;
    SlotsOfSector(d, g, ds, k, 0);
    forall i: nat | i < 16 ensures Slots(d, g, ds)[16 * k + i] == SectorSlots(d[Lba(g, ds, k)])[i] {
      SlotsOfSector(d, g, ds, k, i);
    }
  }

  lemma HitLocation(d: Image, g: Geometry, ds: seq<nat>, c: nat, s: nat, offset: nat)
    requires OnDisk(d, g, ds) && c < |ds| && s < g.sectorsPerCluster && IsSlot(offset)
    ensures SlotLocation(g, ds, 16 * (c * g.sectorsPerCluster + s) + offset / 32, g.ClusterToSector(ds[c]) + s, offset)
    ensures ClusterOf(g.sectorsPerCluster, (16 * (c * g.sectorsPerCluster + s) + offset / 32) / 16) == c
  {
    ClusterSector(d, g, ds, c, s);
    var k, i := c * g.sectorsPerCluster + s, offset / 32;
    assert (16 * k + i) / 16 == k && (16 * k + i) % 16 == i && offset == 32 * i;
  }

  /** The first slot of a directory's c-th cluster. */
  function ClusterStart(g: Geometry, c: nat): nat { 16 * (c * g.sectorsPerCluster) }

  lemma ClusterStarts(g: Geometry, c: nat)
    ensures ClusterStart(g, 0) == 0 && ClusterStart(g, c) == 16 * (c * g.sectorsPerCluster)
    ensures ClusterStart(g, c + 1) == 16 * (c * g.sectorsPerCluster + g.sectorsPerCluster)
  {
  }

  /** The search within one cluster. */
  method FindInCluster(vol: Volume, current: nat, name: Name, ghost ds: seq<nat>, ghost c: nat) returns (r: Scan)
    requires OnDisk(vol.disk[..], vol.geo, ds) && c < |ds| && current == ds[c]
    ensures var dir := Slots(vol.disk[..], vol.geo, ds);
      match r
      case More => Search(dir, ClusterStart(vol.geo, c), name) == Search(dir, ClusterStart(vol.geo, c + 1), name)
      case Stop => Search(dir, ClusterStart(vol.geo, c), name) == None
      case Hit(sector, offset) =>
        var j := Search(dir, ClusterStart(vol.geo, c), name);
        && j.Some? && SlotLocation(vol.geo, ds, j.value, sector, offset)
        && ClusterOf(vol.geo.sectorsPerCluster, j.value / 16) == c
  {
    hide *;
    OnDiskMeans(vol.disk[..], vol.geo, ds);
    ClusterStarts(vol.geo, c);
    var sector := vol.geo.ClusterToSector(current);
    ghost var dir := Slots(vol.disk[..], vol.geo, ds);
    ghost var base := c * vol.geo.sectorsPerCluster;
    for s := 0 to vol.geo.sectorsPerCluster
      invariant Search(dir, 16 * base, name) == Search(dir, 16 * (base + s), name)
    {
      ClusterSector(vol.disk[..], vol.geo, ds, c, s);
      WindowOf(vol.disk[..], vol.geo, ds, base + s);
      var buf := vol.ReadSector(sector + s);
      r := FindInSector(buf, sector + s, name, dir, 16 * (base + s));
      if r.Stop? { return; }
      if r.Hit? {
        HitLocation(vol.disk[..], vol.geo, ds, c, s, r.offset);
        return;
      }
    }
    r := More;
  }

  method RoomInCluster(vol: Volume, current: nat, ghost ds: seq<nat>, ghost c: nat) returns (r: Scan)
    requires OnDisk(vol.disk[..], vol.geo, ds) && c < |ds| && current == ds[c]
    ensures var dir := Slots(vol.disk[..], vol.geo, ds);
      match r
      case More => Room(dir, ClusterStart(vol.geo, c)) == Room(dir, ClusterStart(vol.geo, c + 1))
      case Stop => false
      case Hit(sector, offset) =>
        var j := Room(dir, ClusterStart(vol.geo, c));
        j.Some? && SlotLocation(vol.geo, ds, j.value, sector, offset)
  {
    hide *;
    OnDiskMeans(vol.disk[..], vol.geo, ds);
    ClusterStarts(vol.geo, c);
    var sector := vol.geo.ClusterToSector(current);
    ghost var dir := Slots(vol.disk[..], vol.geo, ds);
    ghost var base := c * vol.geo.sectorsPerCluster;
    for s := 0 to vol.geo.sectorsPerCluster
      invariant Room(dir, 16 * base) == Room(dir, 16 * (base + s))
    {
      ClusterSector(vol.disk[..], vol.geo, ds, c, s);
      WindowOf(vol.disk[..], vol.geo, ds, base + s);
      var buf := vol.ReadSector(sector + s);
      r := RoomInSector(buf, sector + s, dir, 16 * (base + s));
      if r.Hit? {
        HitLocation(vol.disk[..], vol.geo, ds, c, s, r.offset);
        return;
      }
    }
    r := More;
  }

  lemma PastTheEnd(d: Image, g: Geometry, ds: seq<nat>, name: Name)
    requires OnDisk(d, g, ds)
    ensures Search(Slots(d, g, ds), ClusterStart(g, |ds|), name) == None
    ensures Room(Slots(d, g, ds), ClusterStart(g, |ds|)) == None
  {
    Reorder(|ds| * g.sectorsPerCluster);
  }

  lemma Reorder(n: nat)
    ensures 16 * n == n * 16
  {
  }

  /** What read_fat_entry gives at the c-th cluster of a chain. */
  lemma NextInDirectory(f: Fat, ds: seq<nat>, c: nat)
    requires IsChain(f, ds) && c < |ds|
    ensures ds[c] < LAST_CLUSTER && InRange(ds[c])
    ensures if c + 1 < |ds| then Entry(f, ds[c]) == ds[c + 1] else Entry(f, ds[c]) >= LAST_CLUSTER
  {
  }

  /** find_directory_entry: the slot the search over all the directory's slots finds. */
  method FindDirectoryEntry(vol: Volume, path: CString, ghost ds: seq<nat>)
    returns (found: bool, dirSector: nat, dirOffset: nat, parentCluster: nat)
    requires HasDirectory(vol.disk[..], vol.geo, ds) && ds[0] == vol.geo.rootCluster
    ensures OnDisk(vol.disk[..], vol.geo, ds)
    ensures var j := Search(Slots(vol.disk[..], vol.geo, ds), 0, To83(path));
      && (found <==> j.Some?)
      && (found ==> SlotLocation(vol.geo, ds, j.value, dirSector, dirOffset))
      && (found ==> var c := ClusterOf(vol.geo.sectorsPerCluster, j.value / 16); c < |ds| && parentCluster == ds[c])
  {
    hide *;
    Mounted(vol, ds);
    var name83 := new byte[11];
    NameTo83(path, name83);
    var name: Name := name83[..];
    ghost var dir, f := Slots(vol.disk[..], vol.geo, ds), vol.Table();
    var current := vol.geo.rootCluster;
    ghost var c: nat := 0;
    ClusterStarts(vol.geo, 0);
    while current < LAST_CLUSTER
      invariant c <= |ds|
      invariant if c < |ds| then current == ds[c] else current >= LAST_CLUSTER
      invariant Search(dir, 0, name) == Search(dir, ClusterStart(vol.geo, c), name)
      decreases |ds| - c
    {
      var r := FindInCluster(vol, current, name, ds, c);
      if r.Stop? { return false, 0, 0, 0; }
      if r.Hit? { return true, r.sector, r.offset, current; }
      NextInDirectory(f, ds, c);
      current := vol.ReadFatEntry(current);
      c := c + 1;
    }
    if c < |ds| { NextInDirectory(f, ds, c); }
    PastTheEnd(vol.disk[..], vol.geo, ds, name);
    found, dirSector, dirOffset, parentCluster := false, 0, 0, 0;
  }

  // ----- writing one slot -----

  /** Where a slot lies in the sector at its location. */
  lemma SlotSector(d: Image, g: Geometry, ds: seq<nat>, j: nat, sector: nat, offset: nat)
    requires OnDisk(d, g, ds) && SlotLocation(g, ds, j, sector, offset)
    ensures g.partitionStart + sector < |d| && IsSlot(offset) && offset == 32 * (j % 16) && offset / 32 == j % 16
    ensures j < |Slots(d, g, ds)| && Slots(d, g, ds)[j] == SlotIn(d[g.partitionStart + sector], j % 16)
    ensures forall s: Slot ::
      WithSlot(d, g, ds, j, s) == d[g.partitionStart + sector := PutSlot(d[g.partitionStart + sector], j % 16, s)]
  {
    hide ClusterOf, Lba, PutSlot, SlotIn;
    LbasDistinct(g, ds, j / 16, j / 16);
    SlotBound(g, ds, j);
  }

  /** Copy a name over the name bytes at offset. */
  method WriteName(buf: Sector, offset: nat, name: Name) returns (r: Sector)
    requires IsSlot(offset)
    ensures r == buf[..offset] + name + buf[offset + 11..]
  {
    r := buf;
    for i := 0 to 11
      invariant r[..offset] == buf[..offset] && r[offset + i..] == buf[offset + i..]
      invariant r[offset..offset + i] == name[..i]
    {
      ghost var before := r;
      r := r[offset + i := name[i]];
      assert r[offset..offset + i + 1] == before[offset..offset + i] + [name[i]];
      assert name[..i + 1] == name[..i] + [name[i]];
      assert r[offset + i + 1..] == before[offset + i..][1..];
    }
    assert r == r[..offset] + r[offset..offset + 11] + r[offset + 11..];
  }

  lemma NameIntoSlot(buf: Sector, i: nat, name: Name, tail: seq<byte>)
    requires i < 16 && |tail| == 21
    ensures var named := buf[..32 * i] + name + buf[32 * i + 11..];
      && named == PutSlot(buf, i, Renamed(SlotIn(buf, i), name))
      && named[..32 * i + 11] + tail + named[32 * i + 32..] == PutSlot(buf, i, name + tail)
  {
    assert buf[32 * i + 11..] == buf[32 * i..32 * i + 32][11..] + buf[32 * i + 32..];
  }

  lemma MarkIntoSlot(buf: Sector, i: nat, v: byte)
    requires i < 16
    ensures buf[32 * i := v] == PutSlot(buf, i, SlotIn(buf, i)[0 := v])
  {
  }

  /** The fields add_directory_entry sets in the slot it found. */
  method FillSlot(vol: Volume, sector: nat, offset: nat, name: Name, attributes: byte, first: uint32, size: uint32,
                  ghost ds: seq<nat>, ghost j: nat)
    requires OnDisk(vol.disk[..], vol.geo, ds) && SlotLocation(vol.geo, ds, j, sector, offset)
    modifies vol.disk
    ensures ClusterOf(vol.geo.sectorsPerCluster, j / 16) < |ds|
    ensures vol.disk[..] == WithSlot(old(vol.disk[..]), vol.geo, ds, j, NewEntry(name, attributes, first, size))
  {
    hide Slots, WithSlot, Lba, ClusterOf, PutSlot, SlotIn, EntryTail;
    SlotSector(vol.disk[..], vol.geo, ds, j, sector, offset);
    var buf := vol.ReadSector(sector);
    NameIntoSlot(buf, j % 16, name, EntryTail(attributes, first, size));
    buf := WriteName(buf, offset, name);
    buf := buf[..offset + 11] + EntryTail(attributes, first, size) + buf[offset + 32..];
    vol.WriteSector(sector, buf);
  }

  /** add_directory_entry, on the chain that starts at its argument: the first slot not in use is
      filled; when there is none nothing changes, because the end mark it then links from is not a
      cluster write_fat_entry accepts. */
  method AddDirectoryEntry(vol: Volume, parentCluster: nat, name: Name, attributes: byte, first: uint32, size: uint32,
                           ghost ds: seq<nat>)
    returns (ok: bool)
    requires HasDirectory(vol.disk[..], vol.geo, ds) && ds[0] == parentCluster
    modifies vol.disk
    ensures OnDisk(old(vol.disk[..]), vol.geo, ds)
    ensures match Room(Slots(old(vol.disk[..]), vol.geo, ds), 0)
      case None => !ok && vol.disk[..] == old(vol.disk[..])
      case Some(j) =>
        && ok && ClusterOf(vol.geo.sectorsPerCluster, j / 16) < |ds|
        && vol.disk[..] == WithSlot(old(vol.disk[..]), vol.geo, ds, j, NewEntry(name, attributes, first, size))
  {
    hide *;
    Mounted(vol, ds);
    ghost var dir, f := Slots(vol.disk[..], vol.geo, ds), vol.Table();
    var current := parentCluster;
    ghost var c: nat := 0;
    ClusterStarts(vol.geo, 0);
    while current < LAST_CLUSTER
      invariant vol.disk[..] == old(vol.disk[..]) && vol.Valid() && vol.Table() == f
      invariant c <= |ds|
      invariant if c < |ds| then current == ds[c] else current >= LAST_CLUSTER
      invariant Room(dir, 0) == Room(dir, ClusterStart(vol.geo, c))
      decreases |ds| - c
    {
      var r := RoomInCluster(vol, current, ds, c);
      if r.Hit? {
        FillSlot(vol, r.sector, r.offset, name, attributes, first, size, ds, Room(dir, 0).value);
        return true;
      }
      NextInDirectory(f, ds, c);
      current := vol.ReadFatEntry(current);
      c := c + 1;
    }
    if c < |ds| { NextInDirectory(f, ds, c); }
    PastTheEnd(vol.disk[..], vol.geo, ds, name);
    var newCluster := vol.FindFreeCluster();
    if newCluster == 0 { return false; }
    var linked := vol.WriteFatEntry(current, newCluster);
    EndNotInRange(current);
    if linked { assert false; }
    ok := false;
  }

  lemma EndNotInRange(c: nat)
    requires c >= LAST_CLUSTER
    ensures !InRange(c) && c >= 127006
  {
  }

  /** remove_directory_entry. */
  method RemoveDirectoryEntry(vol: Volume, dirSector: nat, dirOffset: nat, ghost ds: seq<nat>, ghost j: nat)
    requires OnDisk(vol.disk[..], vol.geo, ds) && SlotLocation(vol.geo, ds, j, dirSector, dirOffset)
    requires j < |Slots(vol.disk[..], vol.geo, ds)|
    modifies vol.disk
    ensures vol.disk[..] == WithSlot(old(vol.disk[..]), vol.geo, ds, j, Slots(old(vol.disk[..]), vol.geo, ds)[j][0 := 0xE5])
  {
    hide Slots, WithSlot, Lba, ClusterOf, PutSlot, SlotIn;
    SlotSector(vol.disk[..], vol.geo, ds, j, dirSector, dirOffset);
    var buf := vol.ReadSector(dirSector);
    MarkIntoSlot(buf, j % 16, 0xE5);
    buf := buf[dirOffset := 0xE5];
    vol.WriteSector(dirSector, buf);
  }

  /** Rename succeeds exactly when the old name is found and the new one is not; then the slot found
      gets the new name and nothing else changes on the disk. */
  ghost predicate RenameStep(d: Image, d': Image, g: Geometry, ds: seq<nat>, oldPath: CString, newPath: CString, ok: bool)
    requires OnDisk(d, g, ds)
  {
    var dir := Slots(d, g, ds);
    var j := Search(dir, 0, To83(oldPath));
    && (ok <==> j.Some? && Search(dir, 0, To83(newPath)).None?)
    && (!ok ==> d' == d)
    && (ok ==> ClusterOf(g.sectorsPerCluster, j.value / 16) < |ds|)
    && (ok ==> d' == WithSlot(d, g, ds, j.value, Renamed(dir[j.value], To83(newPath))))
  }

  /** fat32_rename. */
  method Rename(vol: Volume, oldPath: CString, newPath: CString, ghost ds: seq<nat>) returns (ok: bool)
    requires HasDirectory(vol.disk[..], vol.geo, ds) && ds[0] == vol.geo.rootCluster
    modifies vol.disk
    ensures OnDisk(old(vol.disk[..]), vol.geo, ds)
    ensures RenameStep(old(vol.disk[..]), vol.disk[..], vol.geo, ds, oldPath, newPath, ok)
  {
    hide Slots, Search, IsChain, FatOf, WithSlot, Lba, ClusterOf, PutSlot, SlotIn, To83, Renamed;
    var found, dirSector, dirOffset, parent := FindDirectoryEntry(vol, oldPath, ds);
    if !found { return false; }
    var taken, otherSector, otherOffset, otherParent := FindDirectoryEntry(vol, newPath, ds);
    if taken { return false; }
    ghost var j := Search(Slots(vol.disk[..], vol.geo, ds), 0, To83(oldPath)).value;
    SlotSector(vol.disk[..], vol.geo, ds, j, dirSector, dirOffset);
    var buf := vol.ReadSector(dirSector);
    var name83 := new byte[11];
    NameTo83(newPath, name83);
    NameIntoSlot(buf, j % 16, name83[..], seq(21, i => 0));
    buf := WriteName(buf, dirOffset, name83[..]);
    vol.WriteSector(dirSector, buf);
    ok := true;
  }

  // ----- delete -----

  /** A change of FAT sectors leaves a directory's slots. */
  lemma SlotsFatOnly(d: Image, d': Image, g: Geometry, ds: seq<nat>)
    requires OnDisk(d, g, ds) && FatOnly(d, d', g)
    ensures OnDisk(d', g, ds) && Slots(d', g, ds) == Slots(d, g, ds)
  {
    forall l: nat | l < |d| && InFile(g, ds, l) ensures d'[l] == d[l] {
      FileNotInFats(g, ds, l);
    }
    SlotsElsewhere(d, d', g, ds);
  }

  /** fat32_delete_file on a name that is found: what the slot says decides. */
  ghost predicate Deletable(f: Fat, s: Slot) {
    !IsDirectory(s) && (FirstCluster(s) != 0 ==> FreeChain(f, FirstCluster(s)).1)
  }

  /** Delete frees the chain of a file that is found, and then marks its slot; when freeing fails
      the slot stays.  Only words of clusters in the FATs and the directory's sectors
      change. */
  ghost predicate DeleteStep(d: Image, d': Image, g: Geometry, ds: seq<nat>, path: CString, ok: bool)
    requires OnDisk(d, g, ds)
  {
    var dir, f := Slots(d, g, ds), FatOf(d, g);
    var j := Search(dir, 0, To83(path));
    && OnDisk(d', g, ds)
    && (ok <==> j.Some? && Deletable(f, dir[j.value]))
    && Slots(d', g, ds) == (if ok then dir[j.value := dir[j.value][0 := 0xE5]] else dir)
    && FatOf(d', g) == (if j.Some? && !IsDirectory(dir[j.value]) && FirstCluster(dir[j.value]) != 0
                        then FreeChain(f, FirstCluster(dir[j.value])).0 else f)
    && (forall l: nat | l < |d| && !InFats(g, l) && !InFile(g, ds, l) :: d'[l] == d[l])
    && FatKept(d, d', g)
  }

  /** fat32_delete_file. */
  method DeleteFile(vol: Volume, path: CString, ghost ds: seq<nat>) returns (ok: bool)
    requires HasDirectory(vol.disk[..], vol.geo, ds) && ds[0] == vol.geo.rootCluster
    modifies vol.disk
    ensures OnDisk(old(vol.disk[..]), vol.geo, ds)
    ensures DeleteStep(old(vol.disk[..]), vol.disk[..], vol.geo, ds, path, ok)
  {
    hide Slots, Search, IsChain, FatOf, WithSlot, Lba, ClusterOf, PutSlot, SlotIn, To83, FirstCluster, FreeChain, InFile, FatKept;
    var found, dirSector, dirOffset, parent := FindDirectoryEntry(vol, path, ds);
    ghost var d := vol.disk[..];
    FatKeptRefl(d, vol.geo);
    if !found { return false; }
    ghost var j := Search(Slots(d, vol.geo, ds), 0, To83(path)).value;
    SlotSector(d, vol.geo, ds, j, dirSector, dirOffset);
    var buf := vol.ReadSector(dirSector);
    SlotFields(buf, j % 16);
    if HasAttribute(AttributesAt(buf, dirOffset), ATTR_DIRECTORY) { return false; }
    var fileCluster := ClusterAt(buf, dirOffset);
    if fileCluster != 0 {
      var freed := vol.FreeClusterChain(fileCluster);
      SlotsFatOnly(d, vol.disk[..], vol.geo, ds);
      FatOnlyMeans(d, vol.disk[..], vol.geo);
      if !freed { return false; }
    }
    ghost var d1 := vol.disk[..];
    RemoveDirectoryEntry(vol, dirSector, dirOffset, ds, j);
    WithSlotMeans(d1, vol.geo, ds, j, Slots(d1, vol.geo, ds)[j][0 := 0xE5]);
    WithSlotElsewhere(d1, vol.geo, ds, j, Slots(d1, vol.geo, ds)[j][0 := 0xE5]);
    SlotKeepsFats(d1, vol.geo, ds, j, Slots(d1, vol.geo, ds)[j][0 := 0xE5]);
    FatKeptTrans(d, d1, vol.disk[..], vol.geo);
    ok := true;
  }

  lemma WithSlotElsewhere(d: Image, g: Geometry, ds: seq<nat>, j: nat, s: Slot)
    requires OnDisk(d, g, ds) && ClusterOf(g.sectorsPerCluster, j / 16) < |ds|
    ensures forall l: nat | l < |d| && !InFile(g, ds, l) :: WithSlot(d, g, ds, j, s)[l] == d[l]
  {
    LbaInFile(g, ds, j / 16);
  }

  lemma SlotKeepsFats(d: Image, g: Geometry, ds: seq<nat>, j: nat, s: Slot)
    requires OnDisk(d, g, ds) && ClusterOf(g.sectorsPerCluster, j / 16) < |ds|
    ensures FatKept(d, WithSlot(d, g, ds, j, s), g)
  {
    hide ClusterOf, Lba, PutSlot, FatKept;
    LbasDistinct(g, ds, j / 16, j / 16);
    SameKept(d, WithSlot(d, g, ds, j, s), g);
  }

  // ----- create -----

  /** The cluster a new file gets, beside a chain that is in use. */
  lemma FirstPick(f: Fat, ds: seq<nat>)
    requires IsChain(f, ds) && FreeList(f) != []
    ensures var first := FreeList(f)[0];
      && InRange(first) && first !in ds && Picks(f, 1) == [first]
      && LinkUp(f, [first]) == f[first := LAST_CLUSTER]
      && IsChain(f[first := LAST_CLUSTER], ds) && IsChain(f[first := LAST_CLUSTER], [first])
  {
    FirstFree(f);
    var first := FreeList(f)[0];
    if first in ds { ChainNonZero(f, ds, first); }
    assert FreeList(f)[..1] == [first];
    ChainElsewhere(f, f[first := LAST_CLUSTER], ds);
  }

  /** Every sector of a cluster is zero in d', and everything outside the cluster is as in d. */
  ghost predicate ClusterZeroed(d: Image, d': Image, g: Geometry, c: nat)
    requires Fits(d, g) && InRange(c)
  {
    && |d'| == |d|
    && (forall l: nat | l < |d| && InFile(g, [c], l) :: d'[l] == ZeroSector())
    && (forall l: nat | l < |d| && !InFile(g, [c], l) :: d'[l] == d[l])
  }

  lemma SectorsOfOne(g: Geometry, c: nat, l: nat)
    requires g.Valid() && InRange(c)
    ensures InFile(g, [c], l) <==> exists s: nat :: s < g.sectorsPerCluster && l == g.DataSector(c, s)
  {
    hide Geometry.DataSector;
    var m := g.sectorsPerCluster;
    if InFile(g, [c], l) {
      var k: nat :| ClusterOf(m, k) < 1 && l == Lba(g, [c], k);
      assert l == g.DataSector(c, WithinOf(m, k));
    }
    if s: nat :| s < m && l == g.DataSector(c, s) {
      DivModUnique(m, 0, s);
      assert Lba(g, [c], s) == l;
    }
  }

  /** fat32_create_file's loop over the new cluster's sectors. */
  method ZeroCluster(vol: Volume, c: nat)
    requires vol.Valid() && InRange(c)
    modifies vol.disk
    ensures ClusterZeroed(old(vol.disk[..]), vol.disk[..], vol.geo, c)
  {
    hide Geometry.DataSector, Geometry.ClusterToSector, InFile, Lba, ClusterOf;
    ghost var d, g := vol.disk[..], vol.geo;
    var sector := vol.geo.ClusterToSector(c);
    for i := 0 to vol.geo.sectorsPerCluster
      invariant forall s: nat | s < i :: g.DataSector(c, s) < |d| && vol.disk[g.DataSector(c, s)] == ZeroSector()
      invariant forall l: nat | l < |d| && (forall s: nat | s < i :: l != g.DataSector(c, s)) :: vol.disk[l] == d[l]
    {
      DataSectorsDisjoint(g, c, i, c, i);
      DataSectorAt(g, c, i);
      vol.WriteSector(sector + i, ZeroSector());
    }
    forall l: nat | l < |d|
      ensures InFile(g, [c], l) ==> vol.disk[l] == ZeroSector()
      ensures !InFile(g, [c], l) ==> vol.disk[l] == d[l]
    {
      SectorsOfOne(g, c, l);
    }
  }

  lemma DataSectorAt(g: Geometry, c: nat, s: nat)
    ensures g.DataSector(c, s) == g.partitionStart + (g.ClusterToSector(c) + s)
  {
  }

  /** Zeroing a cluster outside a directory changes neither its slots nor the table. */
  lemma ZeroedElsewhere(d: Image, d': Image, g: Geometry, ds: seq<nat>, c: nat)
    requires OnDisk(d, g, ds) && InRange(c) && c !in ds && ClusterZeroed(d, d', g, c)
    ensures OnDisk(d', g, ds) && Slots(d', g, ds) == Slots(d, g, ds) && FatOf(d', g) == FatOf(d, g)
    ensures FatKept(d, d', g)
  {
    forall l: nat | l < |d| && InFile(g, ds, l) ensures d'[l] == d[l] {
      DisjointSectors(g, [c], ds, l);
    }
    SlotsElsewhere(d, d', g, ds);
    forall l: nat | l < |d| && InFats(g, l) ensures d'[l] == d[l] {
      if InFile(g, [c], l) { FileNotInFats(g, [c], l); }
    }
    SameFats(d, d', g);
    SameKept(d, d', g);
  }

  /** The image after a successful create: one cluster more in the table, one slot more in the
      directory, an empty cluster, and nothing else. */
  ghost predicate Created(d: Image, d': Image, g: Geometry, ds: seq<nat>, name: Name, attributes: byte)
    requires OnDisk(d, g, ds) && FreeList(FatOf(d, g)) != [] && Room(Slots(d, g, ds), 0).Some?
  {
    var f, first, j := FatOf(d, g), FreeList(FatOf(d, g))[0], Room(Slots(d, g, ds), 0).value;
    && OnDisk(d', g, ds) && InRange(first)
    && FatOf(d', g) == f[first := LAST_CLUSTER]
    && Slots(d', g, ds) == Slots(d, g, ds)[j := NewEntry(name, attributes, first, 0)]
    && (forall l: nat | l < |d| && InFile(g, [first], l) :: d'[l] == ZeroSector())
    && (forall l: nat | l < |d| && !InFats(g, l) && !InFile(g, ds, l) && !InFile(g, [first], l) :: d'[l] == d[l])
    && FatKept(d, d', g)
  }

  lemma CreateEnds(d: Image, d1: Image, d2: Image, d3: Image, g: Geometry, ds: seq<nat>, first: nat, j: nat,
                   name: Name, attributes: byte)
    requires HasDirectory(d, g, ds) && OnDisk(d, g, ds) && FreeList(FatOf(d, g)) != [] && FreeList(FatOf(d, g))[0] == first
    requires Room(Slots(d, g, ds), 0) == Some(j) && InRange(first)
    requires FatOnly(d, d1, g) && OnDisk(d1, g, ds) && Slots(d1, g, ds) == Slots(d, g, ds)
    requires FatOf(d1, g) == FatOf(d, g)[first := LAST_CLUSTER]
    requires ClusterOf(g.sectorsPerCluster, j / 16) < |ds| && d2 == WithSlot(d1, g, ds, j, NewEntry(name, attributes, first, 0))
    requires ClusterZeroed(d2, d3, g, first)
    ensures Created(d, d3, g, ds, name, attributes)
  {
    hide Slots, IsChain, FatOf, WithSlot, Lba, ClusterOf, NewEntry, FreeList, Room, InFile, FatKept;
    FirstPick(FatOf(d, g), ds);
    WithSlotMeans(d1, g, ds, j, NewEntry(name, attributes, first, 0));
    WithSlotElsewhere(d1, g, ds, j, NewEntry(name, attributes, first, 0));
    SlotKeepsFats(d1, g, ds, j, NewEntry(name, attributes, first, 0));
    ZeroedElsewhere(d2, d3, g, ds, first);
    FatOnlyMeans(d, d1, g);
    FatKeptTrans(d, d1, d2, g);
    FatKeptTrans(d, d2, d3, g);
  }

  lemma FatOnlyMeans(d: Image, d': Image, g: Geometry)
    requires FatOnly(d, d', g)
    ensures |d'| == |d| && forall l: nat | l < |d| && !InFats(g, l) :: d'[l] == d[l]
  {
  }

  /** Create succeeds exactly when the name is not empty and not found, a cluster is free and a slot
      is; then the file is there, and otherwise table and directory are as they were. */
  ghost predicate CreateStep(d: Image, d': Image, g: Geometry, ds: seq<nat>, path: CString, ok: bool)
    requires OnDisk(d, g, ds)
  {
    var dir, f := Slots(d, g, ds), FatOf(d, g);
    && (ok <==> path != [] && Search(dir, 0, To83(path)).None? && FreeList(f) != [] && Room(dir, 0).Some?)
    && (ok ==> Created(d, d', g, ds, To83(path), 0x20))
    && (!ok ==> OnDisk(d', g, ds) && Slots(d', g, ds) == dir && FatOf(d', g) == f && FatOnly(d, d', g))
  }

  /** In numbers: create succeeds exactly when the path is not empty, no live slot before an end marker
      has its name, some cluster from 3 on has entry 0, and the first byte of some slot is 0x00 or 0xE5. */
  lemma CreateSucceeds(d: Image, d': Image, g: Geometry, ds: seq<nat>, path: CString, ok: bool)
    requires OnDisk(d, g, ds) && CreateStep(d, d', g, ds, path, ok)
    ensures var dir, f := Slots(d, g, ds), FatOf(d, g);
      ok <==>
        && path != []
        && (forall j: nat | j < |dir| && (forall i | 0 <= i <= j :: dir[i][0] != 0x00) ::
              dir[j][..11] != To83(path) || dir[j][0] == 0xE5 || dir[j][11] % 16 == 15)
        && (exists c: nat :: 3 <= c < 127006 && f[c] == 0)
        && exists j :: 0 <= j < |dir| && (dir[j][0] == 0x00 || dir[j][0] == 0xE5)
  {
    hide *;
    OnDiskMeans(d, g, ds);
    CreateStepIs(d, d', g, ds, path, ok);
    var dir, f := Slots(d, g, ds), FatOf(d, g);
    SearchMeans(dir, To83(path), 0);
    RoomMeans(dir, 0);
    SomeFree(f);
  }

  lemma SomeFree(f: Fat)
    ensures FreeList(f) != [] <==> exists c: nat :: 3 <= c < 127006 && f[c] == 0
    ensures FreeList(f) != [] ==>
      var c := FreeList(f)[0];
      3 <= c < 127006 && f[c] == 0 && forall e: nat | 3 <= e < c :: f[e] != 0
  {
    if FreeList(f) != [] {
      FirstFree(f);
      forall e: nat | 3 <= e < FreeList(f)[0] ensures f[e] != 0 {
        assert e in FreeList(f) <==> f[e] == 0;
      }
    }
    if c: nat :| 3 <= c < 127006 && f[c] == 0 { assert c in FreeList(f); }
  }

  lemma CreateStepIs(d: Image, d': Image, g: Geometry, ds: seq<nat>, path: CString, ok: bool)
    requires OnDisk(d, g, ds) && CreateStep(d, d', g, ds, path, ok)
    ensures ok <==>
      && path != [] && Search(Slots(d, g, ds), 0, To83(path)).None? && FreeList(FatOf(d, g)) != []
      && Room(Slots(d, g, ds), 0).Some?
    ensures ok ==> Created(d, d', g, ds, To83(path), 0x20)
  {
    hide Created, Search, Room, FreeList, FatOf, Slots, To83, FatOnly;
  }

  /** And what it then makes: of the least such cluster c a chain of its own, and of the least such slot j
      the entry -- name, attribute 0x20, the cluster, and zeros -- while no other slot changes. */
  lemma CreateMakes(d: Image, d': Image, g: Geometry, ds: seq<nat>, path: CString, c: nat, j: nat)
    requires OnDisk(d, g, ds) && CreateStep(d, d', g, ds, path, true)
    requires 3 <= c < 127006 && FatOf(d, g)[c] == 0 && forall e: nat | 3 <= e < c :: FatOf(d, g)[e] != 0
    requires j < |Slots(d, g, ds)| && (Slots(d, g, ds)[j][0] == 0x00 || Slots(d, g, ds)[j][0] == 0xE5)
    requires forall i | 0 <= i < j :: Slots(d, g, ds)[i][0] != 0x00 && Slots(d, g, ds)[i][0] != 0xE5
    ensures OnDisk(d', g, ds) && FatOf(d', g) == FatOf(d, g)[c := 0x0FFF_FFF8]
    ensures |Slots(d', g, ds)| == |Slots(d, g, ds)|
    ensures forall i: nat | i < |Slots(d, g, ds)| && i != j :: Slots(d', g, ds)[i] == Slots(d, g, ds)[i]
    ensures var s := Slots(d', g, ds)[j];
      && s[..11] == To83(path) && s[11] == 0x20
      && s[26] == c % 0x100 && s[27] == c / 0x100 % 0x100 && s[20] == c / 0x1_0000 && s[21] == 0
      && forall k | 12 <= k < 20 || 22 <= k < 26 || 28 <= k < 32 :: s[k] == 0
  {
    hide *;
    OnDiskMeans(d, g, ds);
    CreateStepIs(d, d', g, ds, path, true);
    SomeFree(FatOf(d, g));
    RoomMeans(Slots(d, g, ds), j);
    CreatedIs(d, d', g, ds, To83(path), 0x20);
    EndMark();
    NewEntryBytes(To83(path), 0x20, c, 0);
  }

  lemma EndMark()
    ensures LAST_CLUSTER == 0x0FFF_FFF8
  {
  }

  lemma CreatedIs(d: Image, d': Image, g: Geometry, ds: seq<nat>, name: Name, attributes: byte)
    requires OnDisk(d, g, ds) && FreeList(FatOf(d, g)) != [] && Room(Slots(d, g, ds), 0).Some?
    requires Created(d, d', g, ds, name, attributes)
    ensures var first, j := FreeList(FatOf(d, g))[0], Room(Slots(d, g, ds), 0).value;
      && OnDisk(d', g, ds) && first < 127006 && FatOf(d', g) == FatOf(d, g)[first := LAST_CLUSTER]
      && j < |Slots(d, g, ds)| && Slots(d', g, ds) == Slots(d, g, ds)[j := NewEntry(name, attributes, first, 0)]
  {
    hide Slots, FatOf, Room, FreeList, InFile, InFats, NewEntry, FatKept;
  }

  /** In numbers: delete succeeds exactly when some slot is found, bit 4 of its attributes is clear, and
      freeing the path from its cluster, if that is not 0, succeeds; it then changes the first byte of
      that slot to 0xE5, and nothing else in the directory. */
  lemma DeleteSucceeds(d: Image, d': Image, g: Geometry, ds: seq<nat>, path: CString, ok: bool, j: nat)
    requires OnDisk(d, g, ds) && DeleteStep(d, d', g, ds, path, ok)
    requires Search(Slots(d, g, ds), 0, To83(path)) == Some(j)
    ensures var s := Slots(d, g, ds)[j];
      var b0: int, b1: int, b2: int, b3: int := s[26], s[27], s[20], s[21];
      var c := b0 + 0x100 * b1 + 0x1_0000 * b2 + 0x100_0000 * b3;
      && (ok <==> s[11] % 32 < 16 && (c == 0 || FreeChain(FatOf(d, g), c).1))
      && OnDisk(d', g, ds)
      && (ok ==> Slots(d', g, ds) == Slots(d, g, ds)[j := s[0 := 0xE5]])
      && (!ok ==> Slots(d', g, ds) == Slots(d, g, ds))
      && FatOf(d', g) == if s[11] % 32 < 16 && c != 0 then FreeChain(FatOf(d, g), c).0 else FatOf(d, g)
  {
    SlotBytes(Slots(d, g, ds)[j]);
    hide Slots, FatOf, Search, To83, FreeChain, InFile, InFats, FatKept, FirstCluster, IsDirectory;
  }

  /** Rename gives the slot found the new name's eleven bytes and keeps the other 21. */
  lemma RenameMakes(d: Image, d': Image, g: Geometry, ds: seq<nat>, oldPath: CString, newPath: CString, j: nat)
    requires OnDisk(d, g, ds) && RenameStep(d, d', g, ds, oldPath, newPath, true)
    requires Search(Slots(d, g, ds), 0, To83(oldPath)) == Some(j)
    ensures OnDisk(d', g, ds) && FatOf(d', g) == FatOf(d, g) && |Slots(d', g, ds)| == |Slots(d, g, ds)|
    ensures forall i: nat | i < |Slots(d, g, ds)| && i != j :: Slots(d', g, ds)[i] == Slots(d, g, ds)[i]
    ensures Slots(d', g, ds)[j][..11] == To83(newPath) && Slots(d', g, ds)[j][11..] == Slots(d, g, ds)[j][11..]
  {
    var s := Renamed(Slots(d, g, ds)[j], To83(newPath));
    assert s[..11] == To83(newPath) && s[11..] == Slots(d, g, ds)[j][11..];
    hide Slots, FatOf, Search, To83, WithSlot, ClusterOf, Renamed;
    WithSlotMeans(d, g, ds, j, s);
  }

  /** Paths that differ in the case of ASCII letters only find the same slot. */
  lemma CaseFindsSame(d: Image, g: Geometry, ds: seq<nat>, a: CString, b: CString)
    requires OnDisk(d, g, ds) && |a| == |b|
    requires forall i | 0 <= i < |a| ::
      a[i] == b[i] || (0x61 <= a[i] <= 0x7A && b[i] == a[i] - 0x20) || (0x61 <= b[i] <= 0x7A && a[i] == b[i] - 0x20)
    ensures Search(Slots(d, g, ds), 0, To83(a)) == Search(Slots(d, g, ds), 0, To83(b))
  {
    hide *;
    CaseIsIgnored(a, b);
  }

  /** fat32_create_file, in the directory whose first cluster is given: all or nothing. */
  method CreateFile(vol: Volume, path: CString, parentCluster: nat, ghost ds: seq<nat>) returns (ok: bool)
    requires HasDirectory(vol.disk[..], vol.geo, ds) && ds[0] == vol.geo.rootCluster == parentCluster
    modifies vol.disk
    ensures OnDisk(old(vol.disk[..]), vol.geo, ds)
    ensures CreateStep(old(vol.disk[..]), vol.disk[..], vol.geo, ds, path, ok)
  {
    hide Slots, Search, Room, IsChain, FatOf, WithSlot, Lba, ClusterOf, To83, FreeChain, FreeList, Picks, LinkUp, NewEntry,
         Created, FatOnly, ClusterZeroed, Fits;
    Mounted(vol, ds);
    ghost var d, g, f := vol.disk[..], vol.geo, vol.Table();
    FatOnlyRefl(d, g);
    if |path| == 0 { return false; }
    var found, dirSector, dirOffset, parent := FindDirectoryEntry(vol, path, ds);
    if found { return false; }
    var got, first := vol.AllocateClusterChain(1);
    ghost var d1 := vol.disk[..];
    SlotsFatOnly(d, d1, g, ds);
    if !got { return false; }
    FirstPick(f, ds);
    var name83 := new byte[11];
    NameTo83(path, name83);
    var added := AddDirectoryEntry(vol, parentCluster, name83[..], ATTR_ARCHIVE, first, 0, ds);
    ghost var d2 := vol.disk[..];
    if !added {
      var freed := vol.FreeClusterChain(first);
      AllocateThenFree(f, 1);
      FatOnlyTrans(d, d1, vol.disk[..], g);
      SlotsFatOnly(d, vol.disk[..], g, ds);
      return false;
    }
    ZeroCluster(vol, first);
    CreateEnds(d, d1, d2, vol.disk[..], g, ds, first, Room(Slots(d, g, ds), 0).value, To83(path), 0x20);
    ok := true;
  }
}
