/** Directory and files together: saving to a file by name and loading it again, on a volume where
    every file has its own chain. */
module FileSystem {
  import opened Words
  import opened Names
  import opened FatChains
  import opened FatRuns
  import opened Sectors
  import opened FatVolume
  import opened FileImages
  import opened FileSteps
  import opened FileSessions
  import opened DirEntries
  import opened DirMaps
  import opened DirSlots
  import opened Directory
  import opened DirectoryRuns

  /** The volume is consistent and the file `name` on it has this content. */
  ghost predicate FileAt(d: Image, g: Geometry, ds: seq<nat>, files: FileChains, name: Name, content: seq<byte>) {
    && Consistent(d, g, ds, files) && name in files && name in MapOf(Slots(d, g, ds))
    && !IsDirectory(MapOf(Slots(d, g, ds))[name]) && FileSize(MapOf(Slots(d, g, ds))[name]) == |content|
    && Holds(d, g, files[name], content)
  }

  // ----- the slot of a file -----

  /** What update_directory_entry makes of a slot. */
  function Resized(s: Slot, size: uint32): (t: Slot)
    ensures NameOf(t) == NameOf(s) && t[11] == s[11]
  {
    s[..22] + Bytes(0) + s[26..28] + Bytes(size)
  }

  lemma ResizedMeans(s: Slot, size: uint32)
    ensures FileSize(Resized(s, size)) == size && FirstCluster(Resized(s, size)) == FirstCluster(s)
    ensures IsDirectory(Resized(s, size)) == IsDirectory(s) && InUse(Resized(s, size)) == InUse(s)
    ensures IsReadOnly(Resized(s, size)) == IsReadOnly(s)
    ensures forall n: Name :: Matches(Resized(s, size), n) <==> Matches(s, n)
  {
    BytesOf(size);
    assert Resized(s, size)[..22] == s[..22];
  }

  lemma SizeUpdatedSlot(b: Sector, i: nat, size: uint32)
    requires i < 16
    ensures SizeUpdated(b, 32 * i, size) == PutSlot(b, i, Resized(SlotIn(b, i), size))
  {
    var off, u := 32 * i, PutU32(b, 32 * i + 28, size);
    PutBytes(b, off + 28, size);
    PutBytes(u, off + 22, 0);
    hide PutU32, Bytes;
    var low, mid, tail := b[..off + 22], b[off + 26..off + 28], b[off + 32..];
    assert u[..off + 22] == low && u[off + 26..] == mid + Bytes(size) + tail;
    PutResized(b, i, size);
    hide PutSlot, Resized, SlotIn;
  }

  lemma PutResized(b: Sector, i: nat, size: uint32)
    requires i < 16
    ensures PutSlot(b, i, Resized(SlotIn(b, i), size)) ==
      b[..32 * i + 22] + Bytes(0) + (b[32 * i + 26..32 * i + 28] + Bytes(size) + b[32 * i + 32..])
  {
    hide Bytes;
    var off, s := 32 * i, SlotIn(b, i);
    assert b[..off] + s[..22] == b[..off + 22] && s[26..28] == b[off + 26..off + 28];
  }

  function Bytes(v: uint32): (r: seq<byte>)
    ensures |r| == 4
  {
    [v % 0x100, v / 0x100 % 0x100, v / 0x1_0000 % 0x100, v / 0x100_0000]
  }

  lemma PutBytes(s: Sector, at: nat, v: uint32)
    requires at + 4 <= 512
    ensures PutU32(s, at, v) == s[..at] + Bytes(v) + s[at + 4..]
  {
  }

  /** The entry of a file, where the search finds it. */
  lemma FileIsEntry(d: Image, g: Geometry, ds: seq<nat>, files: FileChains, name: Name, content: seq<byte>,
                    j: nat, sector: nat, offset: nat)
    requires FileAt(d, g, ds, files, name, content) && OnDisk(d, g, ds)
    requires Search(Slots(d, g, ds), 0, name) == Some(j) && SlotLocation(g, ds, j, sector, offset)
    ensures EntryOf(d, g, sector, offset, files[name], content)
    ensures InDirectory(d, g, sector, ds) && Disjoint(files[name], ds)
    ensures MapOf(Slots(d, g, ds))[name] == Slots(d, g, ds)[j] && LiveAt(Slots(d, g, ds), j, name)
  {
    var dir, cs := Slots(d, g, ds), files[name];
    FileParts(d, g, ds, files, name, content);
    hide *;
    LookupMeans(dir, files, name);
    ChainsApart(FatOf(d, g), ds, files, name);
    SlotSector(d, g, ds, j, sector, offset);
    SlotFields(d[g.partitionStart + sector], j % 16);
    OwnsChain(FatOf(d, g), ds, files, name);
    LinkedHead(dir[j], name, files);
    LocationInDirectory(d, g, ds, j, sector, offset);
    SizeFits(dir[j]);
    SlotIsFile(dir[j]);
    MakeEntry(d, g, sector, offset, cs, content);
  }

  lemma LinkedHead(s: Slot, name: Name, files: FileChains)
    requires LinkOk(s, name, files) && name in files
    ensures files[name] != [] && files[name][0] == FirstCluster(s)
  {
  }

  lemma SlotIsFile(s: Slot)
    ensures IsDirectory(s) <==> HasAttribute(s[11], ATTR_DIRECTORY)
    ensures IsReadOnly(s) <==> HasAttribute(s[11], ATTR_READ_ONLY)
  {
  }

  /** The attribute fat32_open tests is that of the slot. */
  lemma SlotIsReadOnly(d: Image, g: Geometry, ds: seq<nat>, j: nat, sector: nat, offset: nat)
    requires OnDisk(d, g, ds) && SlotLocation(g, ds, j, sector, offset)
    ensures j < |Slots(d, g, ds)| && g.partitionStart + sector < |d| && IsSlot(offset)
    ensures ReadOnlyAt(d, g, sector, offset) <==> IsReadOnly(Slots(d, g, ds)[j])
  {
    hide Slots, SlotIn, ClusterOf, Lba, HasAttribute, SlotLocation;
    SlotSector(d, g, ds, j, sector, offset);
    SlotFields(d[g.partitionStart + sector], j % 16);
    SlotIsFile(Slots(d, g, ds)[j]);
  }

  lemma LocationInDirectory(d: Image, g: Geometry, ds: seq<nat>, j: nat, sector: nat, offset: nat)
    requires OnDisk(d, g, ds) && IsChain(FatOf(d, g), ds) && SlotLocation(g, ds, j, sector, offset)
    ensures InDirectory(d, g, sector, ds) && sector != 0
  {
    hide FatOf, IsChain, ClusterOf, Lba;
    LbaInFile(g, ds, j / 16);
    LbasDistinct(g, ds, j / 16, j / 16);
  }

  lemma SizeFits(s: Slot)
    ensures FileSize(s) < 0x1_0000_0000
  {
  }

  lemma OwnsChain(f: Fat, ds: seq<nat>, files: FileChains, name: Name)
    requires Owns(f, ds, files) && name in files
    ensures IsChain(f, files[name]) && IsChain(f, ds)
  {
    assert files[name] in {ds} + files.Values && ds in {ds} + files.Values;
  }

  // ----- saving keeps the volume consistent -----

  lemma ValuesReplace(files: FileChains, n: Name, cs: seq<nat>)
    requires n in files && Injective(files)
    ensures files[n := cs].Values == files.Values - {files[n]} + {cs}
  {
    ValuesRemove(files, n);
    ValuesAdd(files - {n}, n, cs);
    assert files[n := cs] == (files - {n})[n := cs];
  }

  lemma ChainsReplace(files: FileChains, n: Name, ds: seq<nat>, cs: seq<nat>)
    requires n in files && Injective(files) && ds !in files.Values && cs != ds
    ensures {ds} + files[n := cs].Values == {ds} + files.Values - {files[n]} + {cs} && ds !in files[n := cs].Values
  {
    ValuesReplace(files, n, cs);
    assert files[n] in files.Values;
  }

  /** A file's chain grows into free clusters. */
  lemma OwnsGrown(f: Fat, f': Fat, ds: seq<nat>, files: FileChains, name: Name, cs': seq<nat>)
    requires Owns(f, ds, files) && name in files && Extended(f, files[name], f', cs') && IsChain(f', cs')
    ensures Owns(f', ds, files[name := cs'])
  {
    var chains, cs := {ds} + files.Values, files[name];
    assert cs in chains;
    hide *;
    OwnsParts(f, ds, files);
    OwnsChain(f, ds, files, name);
    GrownParts(f, cs, f', cs');
    SwapOne(f, f', chains, cs, cs');
    ChainsApart(f, ds, files, name);
    GrownStaysApart(f, ds, files, name, cs');
    ChainsReplace(files, name, ds, cs');
    StillInjective(files, name, cs');
    MakeOwns(f', ds, files[name := cs']);
  }

  lemma StillInjective(files: FileChains, name: Name, cs: seq<nat>)
    requires Injective(files) && forall m | m in files && m != name :: files[m] != cs
    ensures Injective(files[name := cs])
  {
  }

  lemma GrownParts(f: Fat, cs: seq<nat>, f': Fat, cs': seq<nat>)
    requires IsChain(f, cs) && Extended(f, cs, f', cs')
    ensures cs != [] && cs' != [] && cs'[0] == cs[0]
    ensures forall c | c in cs' :: IsFree(f, c) || c in cs
    ensures forall c: nat | c < 127006 && f[c] != 0 && c !in cs :: f'[c] == f[c]
    ensures forall c: nat | InRange(c) && f'[c] != 0 && (f[c] == 0 || c in cs) :: c in cs'
  {
    hide IsChain, FreeList;
    var more := FreeList(f)[..|cs'| - |cs|];
    assert forall c | c in more :: c in FreeList(f);
    assert forall c | c in cs :: c in cs' by { assert cs' == cs + more; }
    assert IsChain(f, cs) ==> cs != [] by { ChainShape(f, cs); }
  }

  lemma GrownStaysApart(f: Fat, ds: seq<nat>, files: FileChains, name: Name, cs': seq<nat>)
    requires Owns(f, ds, files) && name in files && files[name] != [] && cs' != [] && cs'[0] == files[name][0]
    requires Disjoint(files[name], ds) && forall m | m in files && m != name :: Disjoint(files[m], files[name])
    ensures cs' != ds && forall m | m in files && m != name :: files[m] != cs'
  {
    var c := files[name][0];
    assert c in files[name] && c in cs';
    forall m | m in files && m != name ensures files[m] != cs' {
      assert Disjoint(files[m], files[name]);
    }
  }

  /** The directory after the entry of one file was resized. */
  lemma ResizedSlots(d: Image, d': Image, g: Geometry, ds: seq<nat>, cs': seq<nat>, j: nat, sector: nat, offset: nat, size: uint32)
    requires OnDisk(d, g, ds) && SlotLocation(g, ds, j, sector, offset) && OnlyUpdate(d, d', g, cs', sector)
    requires AllInRange(cs') && Disjoint(cs', ds)
    requires IsSlot(offset) && g.partitionStart + sector < |d|
    requires d'[g.partitionStart + sector] == SizeUpdated(d[g.partitionStart + sector], offset, size)
    ensures OnDisk(d', g, ds) && j < |Slots(d, g, ds)| && Slots(d', g, ds) == Slots(d, g, ds)[j := Resized(Slots(d, g, ds)[j], size)]
  {
    hide Slots, SlotIn, SizeUpdated, Resized, PutSlot, ClusterOf, Lba, FatOf, InFats;
    SlotSector(d, g, ds, j, sector, offset);
    var l := g.partitionStart + sector;
    var t := Resized(Slots(d, g, ds)[j], size);
    SizeUpdatedSlot(d[l], j % 16, size);
    WithSlotMeans(d, g, ds, j, t);
    var w := WithSlot(d, g, ds, j, t);
    assert w == d[l := d'[l]];
    hide WithSlot;
    forall k: nat | k < |w| && InFile(g, ds, k) ensures d'[k] == w[k] {
      DisjointSectors(g, cs', ds, k);
      FileNotInFats(g, ds, k);
    }
    SlotsElsewhere(w, d', g, ds);
  }

  lemma ResizeLinks(dir: seq<Slot>, j: nat, name: Name, size: uint32, files: FileChains, cs': seq<nat>)
    requires WellFormed(dir) && Links(dir, files) && LiveAt(dir, j, name) && name in files
    requires cs' != [] && cs'[0] == files[name][0]
    ensures var dir' := dir[j := Resized(dir[j], size)];
      && Links(dir', files[name := cs']) && WellFormed(dir')
      && MapOf(dir') == MapOf(dir)[name := Resized(dir[j], size)]
  {
    var s := Resized(dir[j], size);
    var files' := files[name := cs'];
    ResizedMeans(dir[j], size);
    LiveSlot(dir, j, name, files);
    ResizedSlot(dir[j], name, size, files, cs');
    MapAt(dir, j, name);
    hide *;
    LinksAfterWrite(dir, j, s, files, files');
    WriteMeans(dir, j, s, Some(name));
    RewrittenSame(MapOf(dir), name, s);
  }

  lemma LiveSlot(dir: seq<Slot>, j: nat, name: Name, files: FileChains)
    requires LiveAt(dir, j, name) && Links(dir, files)
    ensures j < |dir| && Reached(dir, j) && InUse(dir[j]) && LinkOk(dir[j], name, files)
    ensures forall n: Name :: Matches(dir[j], n) <==> n == name
  {
  }

  lemma ResizedSlot(s: Slot, name: Name, size: uint32, files: FileChains, cs': seq<nat>)
    requires InUse(s) && LinkOk(s, name, files) && name in files && cs' != [] && cs'[0] == files[name][0]
    requires forall n: Name :: Matches(s, n) <==> n == name
    ensures var t := Resized(s, size);
      && !Ends(t) && InUse(t) && NameOf(t) == name && LinkOk(t, name, files[name := cs'])
      && Matches(s, NameOf(t))
      && (forall n: Name :: Matches(t, n) <==> n == name)
  {
    ResizedMeans(s, size);
    hide Resized, FirstCluster;
    assert Matches(s, NameOf(s));
  }

  lemma RewrittenSame(m: imap<Name, Slot>, name: Name, s: Slot)
    requires InUse(s) && NameOf(s) == name
    ensures Rewritten(m, Some(name), s) == m[name := s]
  {
  }

  /** An update of one file, seen from the directory: the file has its new content, its entry its
      new size, every other file keeps chain and bytes, and the volume stays consistent. */
  lemma SaveKeeps(d: Image, d': Image, g: Geometry, ds: seq<nat>, files: FileChains, name: Name, content: seq<byte>,
                  data: seq<byte>, cs': seq<nat>, j: nat, sector: nat, offset: nat)
    requires FileAt(d, g, ds, files, name, content) && OnDisk(d, g, ds)
    requires Search(Slots(d, g, ds), 0, name) == Some(j) && SlotLocation(g, ds, j, sector, offset)
    requires Updated(d, d', g, sector, offset, files[name], cs', content, data)
    ensures FileAt(d', g, ds, files[name := cs'], name, Splice(content, 0, data))
    ensures |Splice(content, 0, data)| < 0x1_0000_0000
    ensures MapOf(Slots(d', g, ds)) ==
      MapOf(Slots(d, g, ds))[name := Resized(MapOf(Slots(d, g, ds))[name], |Splice(content, 0, data)|)]
    ensures forall m | m in files && m != name :: BytesKept(d, d', g, files[m])
  {
    hide *;
    FileParts(d, g, ds, files, name, content);
    FileIsEntry(d, g, ds, files, name, content, j, sector, offset);
    UpdatedParts(d, d', g, sector, offset, files[name], cs', content, data);
    var dir, cs, now := Slots(d, g, ds), files[name], Splice(content, 0, data);
    var f, f' := FatOf(d, g), FatOf(d', g);
    OwnsChain(f, ds, files, name);
    GrownApart(f, cs, f', cs', ds);
    GrownParts(f, cs, f', cs');
    OwnsGrown(f, f', ds, files, name, cs');
    ChainShape(f', cs');
    ResizedSlots(d, d', g, ds, cs', j, sector, offset, |now|);
    ResizeLinks(dir, j, name, |now|, files, cs');
    ResizedMeans(dir[j], |now|);
    MakeFileAt(d', g, ds, files[name := cs'], name, now);
    forall m | m in files && m != name ensures BytesKept(d, d', g, files[m]) {
      OthersKept(d, d', g, ds, files, name, m, sector, offset, cs', content, data);
    }
  }

  lemma FileParts(d: Image, g: Geometry, ds: seq<nat>, files: FileChains, name: Name, content: seq<byte>)
    requires FileAt(d, g, ds, files, name, content)
    ensures OnDisk(d, g, ds) && Fits(d, g) && ds != [] && ds[0] == g.rootCluster && WellFormed(Slots(d, g, ds))
    ensures Links(Slots(d, g, ds), files) && Owns(FatOf(d, g), ds, files) && name in files && name in MapOf(Slots(d, g, ds))
    ensures !IsDirectory(MapOf(Slots(d, g, ds))[name])
  {
    hide Slots, MapOf, Owns, Links, WellFormed, FatOf;
  }

  lemma UpdatedParts(d: Image, d': Image, g: Geometry, sector: nat, offset: nat, cs: seq<nat>, cs': seq<nat>,
                     content: seq<byte>, data: seq<byte>)
    requires Updated(d, d', g, sector, offset, cs, cs', content, data)
    ensures Fits(d, g) && Fits(d', g) && g.partitionStart + sector < |d| == |d'| && IsSlot(offset)
    ensures Extended(FatOf(d, g), cs, FatOf(d', g), cs') && IsChain(FatOf(d', g), cs')
    ensures Holds(d', g, cs', Splice(content, 0, data)) && |Splice(content, 0, data)| < 0x1_0000_0000
    ensures OnlyUpdate(d, d', g, cs', sector)
    ensures d'[g.partitionStart + sector] == SizeUpdated(d[g.partitionStart + sector], offset, |Splice(content, 0, data)|)
  {
    hide FatOf, Holds, IsChain, Extended, SizeUpdated, Splice, InFile;
  }

  lemma MakeFileAt(d: Image, g: Geometry, ds: seq<nat>, files: FileChains, name: Name, content: seq<byte>)
    requires Fits(d, g) && IsChain(FatOf(d, g), ds) && ds[0] == g.rootCluster
    requires OnDisk(d, g, ds) && WellFormed(Slots(d, g, ds)) && Links(Slots(d, g, ds), files) && Owns(FatOf(d, g), ds, files)
    requires name in files && name in MapOf(Slots(d, g, ds)) && !IsDirectory(MapOf(Slots(d, g, ds))[name])
    requires FileSize(MapOf(Slots(d, g, ds))[name]) == |content| && Holds(d, g, files[name], content)
    ensures FileAt(d, g, ds, files, name, content)
  {
    hide Slots, MapOf, Owns, Links, WellFormed, FatOf, Holds;
  }

  lemma OthersKept(d: Image, d': Image, g: Geometry, ds: seq<nat>, files: FileChains, name: Name, m: Name,
                   sector: nat, offset: nat, cs': seq<nat>, content: seq<byte>, data: seq<byte>)
    requires Fits(d, g) && Owns(FatOf(d, g), ds, files) && name in files && m in files && m != name
    requires Updated(d, d', g, sector, offset, files[name], cs', content, data) && InDirectory(d, g, sector, ds)
    ensures BytesKept(d, d', g, files[m])
  {
    OwnsChain(FatOf(d, g), ds, files, m);
    ChainsApart(FatOf(d, g), ds, files, m);
    hide Owns, Updated, InDirectory, FatOf, IsChain, Holds;
    forall other | Holds(d, g, files[m], other) ensures Holds(d', g, files[m], other) {
      OtherFileUnchanged(d, d', g, sector, offset, files[name], cs', content, data, ds, files[m], other);
    }
  }

  // ----- a save that fails -----

  /** A file apart from the one updated, and from the directory, keeps its bytes. */
  lemma BytesApart(d: Image, d': Image, g: Geometry, sector: nat, cs: seq<nat>, ds: seq<nat>, es: seq<nat>)
    requires OnlyUpdate(d, d', g, cs, sector) && AllInRange(cs) && InDirectory(d, g, sector, ds)
    requires Disjoint(cs, es) && Disjoint(es, ds)
    ensures BytesKept(d, d', g, es)
  {
    ChainShape(FatOf(d, g), ds);
    hide FatOf, IsChain, InFile, Holds, InFats, Disjoint, AllInRange, Distinct;
    forall other | Holds(d, g, es, other) ensures Holds(d', g, es, other) {
      HoldsOnDisk(d, g, es, other);
      forall l: nat | l < |d| && InFile(g, es, l) ensures d'[l] == d[l] {
        DisjointSectors(g, cs, es, l);
        DisjointSectors(g, es, ds, g.partitionStart + sector);
        FileNotInFats(g, es, l);
      }
      HoldsElsewhere(d, d', g, es, other);
    }
  }

  /** The clusters that a failed update used are the file's own and formerly free ones. */
  lemma UsedApart(f: Fat, f': Fat, cs: seq<nat>, cs': seq<nat>, es: seq<nat>)
    requires IsChain(f, es) && Disjoint(es, cs) && forall c | c in cs' :: c in cs || IsFree(f, c)
    requires forall c: nat | c < 127006 && c !in cs' :: f'[c] == f[c]
    ensures Disjoint(cs', es) && IsChain(f', es)
  {
    forall c | c in es ensures c !in cs' && InRange(c) && f'[c] == f[c] {
      ChainNonZero(f, es, c);
    }
    ChainElsewhere(f, f', es);
  }

  /** What an update leaves for which the clusters ran out: the file's clusters and all the free ones
      are linked, up to a last one that is marked bad, and hold as much of the data as fits. */
  ghost predicate Filled(d: Image, d': Image, g: Geometry, cs: seq<nat>, data: seq<byte>) {
    && Fits(d, g) && Fits(d', g)
    && var all := cs + FreeList(FatOf(d, g));
       && all != [] && AllInRange(all) && MarkedBad(FatOf(d', g), all)
       && Capacity(g, all) <= |data| < 0x1_0000_0000 && Holds(d', g, all, data[..Capacity(g, all)])
  }

  /** The entry of a name says this size, and no other entry changed. */
  ghost predicate EntrySays(d: Image, d': Image, g: Geometry, ds: seq<nat>, name: Name, n: nat) {
    && OnDisk(d, g, ds) && OnDisk(d', g, ds) && name in MapOf(Slots(d, g, ds)) && n < 0x1_0000_0000
    && MapOf(Slots(d', g, ds)) == MapOf(Slots(d, g, ds))[name := Resized(MapOf(Slots(d, g, ds))[name], n)]
  }

  /** An update for which the clusters ran out ends the structure: no assignment of chains to names
      accounts for the table.  Every other file keeps its entry, its chain and its bytes. */
  lemma SaveFails(d: Image, d': Image, g: Geometry, ds: seq<nat>, files: FileChains, name: Name, content: seq<byte>,
                  data: seq<byte>, cs': seq<nat>, j: nat, sector: nat, offset: nat)
    requires FileAt(d, g, ds, files, name, content) && OnDisk(d, g, ds)
    requires Search(Slots(d, g, ds), 0, name) == Some(j) && SlotLocation(g, ds, j, sector, offset)
    requires UpdateFailed(d, d', g, sector, offset, files[name], cs', data)
    ensures !Intact(d', g, ds)
    ensures Filled(d, d', g, files[name], data)
    ensures EntrySays(d, d', g, ds, name, Capacity(g, files[name] + FreeList(FatOf(d, g))))
    ensures Fits(d', g) && forall m | m in files && m != name :: IsChain(FatOf(d', g), files[m]) && BytesKept(d, d', g, files[m])
  {
    hide *;
    FileParts(d, g, ds, files, name, content);
    FailedUpdateParts(d, d', g, sector, offset, files[name], cs', data);
    FailedFills(d, d', g, sector, offset, files[name], cs', data);
    FileIsEntry(d, g, ds, files, name, content, j, sector, offset);
    BadTailBreaks(d', g, ds, cs'[|cs'| - 1]);
    OwnsChain(FatOf(d, g), ds, files, name);
    LocationInDirectory(d, g, ds, j, sector, offset);
    HasDirectoryChain(FatOf(d, g), ds, files);
    DisjointBoth(files[name], ds);
    UsedApart(FatOf(d, g), FatOf(d', g), files[name], cs', ds);
    ResizedSlots(d, d', g, ds, cs', j, sector, offset, Capacity(g, cs'));
    LinkedChain(FatOf(d, g), ds, files, name);
    ResizeLinks(Slots(d, g, ds), j, name, Capacity(g, cs'), files, files[name]);
    MakeEntrySays(d, d', g, ds, name, Capacity(g, cs'), Slots(d, g, ds), Slots(d', g, ds));
    forall m | m in files && m != name ensures IsChain(FatOf(d', g), files[m]) && BytesKept(d, d', g, files[m]) {
      ChainsApart(FatOf(d, g), ds, files, name);
      ChainsApart(FatOf(d, g), ds, files, m);
      OwnsChain(FatOf(d, g), ds, files, m);
      UsedApart(FatOf(d, g), FatOf(d', g), files[name], cs', files[m]);
      BytesApart(d, d', g, sector, cs', ds, files[m]);
    }
  }

  lemma FailedFills(d: Image, d': Image, g: Geometry, sector: nat, offset: nat, cs: seq<nat>, cs': seq<nat>, data: seq<byte>)
    requires UpdateFailed(d, d', g, sector, offset, cs, cs', data)
    ensures Filled(d, d', g, cs, data)
  {
    hide FatOf, FreeList, Holds, Capacity, MarkedBad, AllInRange, SizeUpdated, OnlyUpdate;
  }

  lemma MakeEntrySays(d: Image, d': Image, g: Geometry, ds: seq<nat>, name: Name, n: nat, dir: seq<Slot>, dir': seq<Slot>)
    requires OnDisk(d, g, ds) && OnDisk(d', g, ds) && dir == Slots(d, g, ds) && dir' == Slots(d', g, ds)
    requires name in MapOf(dir) && n < 0x1_0000_0000 && MapOf(dir') == MapOf(dir)[name := Resized(MapOf(dir)[name], n)]
    ensures EntrySays(d, d', g, ds, name, n)
  {
    hide Slots, MapOf, Resized;
  }

  lemma DisjointBoth(a: seq<nat>, b: seq<nat>)
    requires Disjoint(a, b)
    ensures Disjoint(b, a)
  {
  }

  lemma LinkedChain(f: Fat, ds: seq<nat>, files: FileChains, name: Name)
    requires Owns(f, ds, files) && name in files
    ensures files[name] != []
  {
    hide Distinct;
    assert files[name] in {ds} + files.Values;
  }

  lemma HasDirectoryChain(f: Fat, ds: seq<nat>, files: FileChains)
    requires Owns(f, ds, files)
    ensures IsChain(f, ds) && ds != []
  {
    hide Distinct;
    assert ds in {ds} + files.Values;
  }

  lemma FailedUpdateParts(d: Image, d': Image, g: Geometry, sector: nat, offset: nat, cs: seq<nat>, cs': seq<nat>, data: seq<byte>)
    requires UpdateFailed(d, d', g, sector, offset, cs, cs', data)
    ensures Fits(d, g) && Fits(d', g) && |d'| == |d| && cs' != [] && AllInRange(cs') && InRange(cs'[|cs'| - 1])
    ensures MarkedBad(FatOf(d', g), cs')
    ensures FatOf(d', g)[cs'[|cs'| - 1]] == BAD_CLUSTER && OnlyUpdate(d, d', g, cs', sector)
    ensures cs' == cs + FreeList(FatOf(d, g)) && Capacity(g, cs') <= |data| < 0x1_0000_0000
    ensures Holds(d', g, cs', data[..Capacity(g, cs')])
    ensures g.partitionStart + sector < |d| && IsSlot(offset)
    ensures d'[g.partitionStart + sector] == SizeUpdated(d[g.partitionStart + sector], offset, Capacity(g, cs'))
    ensures forall c | c in cs' :: c in cs || IsFree(FatOf(d, g), c)
    ensures forall c: nat | c < 127006 && c !in cs' :: FatOf(d', g)[c] == FatOf(d, g)[c]
  {
    hide FatOf, OnlyUpdate, FreeList, Holds, Capacity, SizeUpdated;
  }

  lemma BadTailBreaks(d: Image, g: Geometry, ds: seq<nat>, tail: nat)
    requires Fits(d, g) && InRange(tail) && FatOf(d, g)[tail] == BAD_CLUSTER
    ensures !Intact(d, g, ds)
  {
    hide Sound, FatOf, Links, WellFormed;
    forall files ensures !Consistent(d, g, ds, files) {
      if Consistent(d, g, ds, files) { BadTail(FatOf(d, g), tail, {ds} + files.Values); }
    }
  }

  // ----- truncation -----

  /** A file's chain is cut to its first clusters. */
  lemma OwnsCut(f: Fat, f': Fat, ds: seq<nat>, files: FileChains, name: Name, kept: seq<nat>)
    requires Owns(f, ds, files) && name in files && IsChain(f', kept) && kept <= files[name] && kept != []
    requires forall c: nat | c < 127006 && c !in files[name] :: f'[c] == f[c]
    requires forall c: nat | c in files[name] && c !in kept :: InRange(c) && f'[c] == 0
    ensures Owns(f', ds, files[name := kept])
  {
    var chains, cs := {ds} + files.Values, files[name];
    assert cs in chains;
    assert kept[0] == cs[0] && forall c | c in kept :: c in cs;
    hide *;
    OwnsParts(f, ds, files);
    OwnsChain(f, ds, files, name);
    SwapOne(f, f', chains, cs, kept);
    ChainsApart(f, ds, files, name);
    GrownStaysApart(f, ds, files, name, kept);
    ChainsReplace(files, name, ds, kept);
    StillInjective(files, name, kept);
    MakeOwns(f', ds, files[name := kept]);
  }

  /** A truncation, seen from the directory: the file has its first bytes, its entry the new size,
      every other file keeps chain and bytes, and the volume stays consistent. */
  lemma TruncateKeeps(d: Image, d': Image, g: Geometry, ds: seq<nat>, files: FileChains, name: Name, content: seq<byte>,
                      newSize: nat, j: nat, sector: nat, offset: nat) returns (kept: seq<nat>)
    requires FileAt(d, g, ds, files, name, content) && OnDisk(d, g, ds)
    requires Search(Slots(d, g, ds), 0, name) == Some(j) && SlotLocation(g, ds, j, sector, offset)
    requires Truncated(d, d', g, sector, offset, files[name], content, newSize)
    ensures newSize <= |content| && newSize < 0x1_0000_0000 && kept <= files[name]
    ensures FileAt(d', g, ds, files[name := kept], name, content[..newSize])
    ensures MapOf(Slots(d', g, ds)) == MapOf(Slots(d, g, ds))[name := Resized(MapOf(Slots(d, g, ds))[name], newSize)]
    ensures forall m | m in files && m != name :: BytesKept(d, d', g, files[m])
  {
    hide *;
    FileParts(d, g, ds, files, name, content);
    FileIsEntry(d, g, ds, files, name, content, j, sector, offset);
    var dir, cs := Slots(d, g, ds), files[name];
    OwnsChain(FatOf(d, g), ds, files, name);
    ChainShape(FatOf(d, g), cs);
    kept := TruncatedParts(d, d', g, sector, offset, cs, content, newSize);
    ChainShape(FatOf(d', g), kept);
    PrefixApart(kept, cs, ds);
    OwnsCut(FatOf(d, g), FatOf(d', g), ds, files, name, kept);
    ResizedSlots(d, d', g, ds, kept, j, sector, offset, newSize);
    ResizeLinks(dir, j, name, newSize, files, kept);
    ResizedMeans(dir[j], newSize);
    DirectoryStays(FatOf(d, g), FatOf(d', g), cs, ds);
    MakeFileAt(d', g, ds, files[name := kept], name, content[..newSize]);
    forall m | m in files && m != name ensures BytesKept(d, d', g, files[m]) {
      ChainsApart(FatOf(d, g), ds, files, name);
      ChainsApart(FatOf(d, g), ds, files, m);
      PrefixApart(kept, cs, files[m]);
      BytesApart(d, d', g, sector, kept, ds, files[m]);
    }
  }

  lemma PrefixApart(kept: seq<nat>, cs: seq<nat>, es: seq<nat>)
    requires kept <= cs && (Disjoint(cs, es) || Disjoint(es, cs))
    ensures Disjoint(kept, es)
  {
    assert forall c | c in kept :: c in cs;
  }

  lemma DirectoryStays(f: Fat, f': Fat, cs: seq<nat>, ds: seq<nat>)
    requires IsChain(f, ds) && Disjoint(cs, ds) && forall c: nat | c < 127006 && c !in cs :: f'[c] == f[c]
    ensures IsChain(f', ds)
  {
    ChainElsewhere(f, f', ds);
  }

  lemma TruncatedParts(d: Image, d': Image, g: Geometry, sector: nat, offset: nat, cs: seq<nat>, content: seq<byte>, newSize: nat)
    returns (kept: seq<nat>)
    requires Truncated(d, d', g, sector, offset, cs, content, newSize) && cs != []
    ensures Fits(d, g) && Fits(d', g) && newSize <= |content| && newSize < 0x1_0000_0000
    ensures g.partitionStart + sector < |d| == |d'| && IsSlot(offset)
    ensures kept <= cs && kept != [] && kept[0] == cs[0]
    ensures IsChain(FatOf(d', g), kept) && Holds(d', g, kept, content[..newSize]) && OnlyUpdate(d, d', g, kept, sector)
    ensures forall c: nat | c < 127006 && c !in cs :: FatOf(d', g)[c] == FatOf(d, g)[c]
    ensures forall c: nat | c in cs && c !in kept :: InRange(c) && FatOf(d', g)[c] == 0
    ensures d'[g.partitionStart + sector] == SizeUpdated(d[g.partitionStart + sector], offset, newSize)
  {
    hide FatOf, Holds, InFile, InFats, SizeUpdated, FatKept, Clusters, EntryOf, IsChain;
    kept := ChainKept(g.sectorsPerCluster, cs, |content|, newSize);
    KeptIsPrefix(g.sectorsPerCluster, cs, |content|, newSize);
    EntryMeans(d', g, sector, offset, kept, content[..newSize]);
  }

  // ----- by name -----

  /** Open a file by name, write the chunks from its start, close it: when the clusters suffice the
      file has its new content; when they do not, the structure is lost. */
  method Save(v: Volume, path: CString, chunks: seq<seq<byte>>, ghost ds: seq<nat>, ghost files: FileChains, ghost content: seq<byte>)
    returns (ok: bool, ghost files': FileChains)
    requires FileAt(v.disk[..], v.geo, ds, files, To83(path), content) && |Flatten(chunks)| < 0x1_0000_0000
    modifies v.disk
    ensures ok <==> Flatten(chunks) == []
                    || CursorIndex(v.geo.sectorsPerCluster, |Flatten(chunks)|) + 1 <= |files[To83(path)]| + |FreeList(old(v.Table()))|
    ensures ok ==> FileAt(v.disk[..], v.geo, ds, files', To83(path), Splice(content, 0, Flatten(chunks)))
    ensures ok ==> forall m: Name | m != To83(path) :: FileUntouched(old(v.disk[..]), v.disk[..], v.geo, ds, files, files', m)
    ensures ok ==> IsReadOnly(MapOf(Slots(v.disk[..], v.geo, ds))[To83(path)])
                   == IsReadOnly(MapOf(Slots(old(v.disk[..]), v.geo, ds))[To83(path)])
    ensures !ok ==> forall files1 :: !Consistent(v.disk[..], v.geo, ds, files1)
    ensures !ok ==> Fits(v.disk[..], v.geo) && forall m | m in files && m != To83(path) ::
      IsChain(FatOf(v.disk[..], v.geo), files[m]) && BytesKept(old(v.disk[..]), v.disk[..], v.geo, files[m])
    ensures !ok ==> Filled(old(v.disk[..]), v.disk[..], v.geo, files[To83(path)], Flatten(chunks))
    ensures !ok ==> EntrySays(old(v.disk[..]), v.disk[..], v.geo, ds, To83(path),
                              Capacity(v.geo, files[To83(path)] + FreeList(old(v.Table()))))
  {
    hide *;
    ghost var d, g, name := v.disk[..], v.geo, To83(path);
    FileHasDirectory(d, g, ds, files, name, content);
    Mounted(v, ds);
    LookupByName(d, g, ds, files, name, content);
    var found, sector, offset, parent := FindDirectoryEntry(v, path, ds);
    ghost var j := Search(Slots(d, g, ds), 0, name).value;
    FileIsEntry(d, g, ds, files, name, content, j, sector, offset);
    ghost var cs';
    ok, cs' := UpdateFile(v, sector, offset, chunks, files[name], content, ds);
    files' := files[name := cs'];
    if ok {
      SaveKeeps(d, v.disk[..], g, ds, files, name, content, Flatten(chunks), cs', j, sector, offset);
      FileHasDirectory(v.disk[..], g, ds, files', name, Splice(content, 0, Flatten(chunks)));
      forall m: Name | m != name ensures FileUntouched(d, v.disk[..], g, ds, files, files', m) {
        UntouchedBut(d, v.disk[..], g, ds, files, files', m);
      }
      FileParts(d, g, ds, files, name, content);
      ResizedReadOnly(MapOf(Slots(d, g, ds)), name, |Splice(content, 0, Flatten(chunks))|);
    } else {
      SaveFails(d, v.disk[..], g, ds, files, name, content, Flatten(chunks), cs', j, sector, offset);
      NotIntact(v.disk[..], g, ds);
    }
  }

  lemma NotIntact(d: Image, g: Geometry, ds: seq<nat>)
    ensures !Intact(d, g, ds) <==> forall files :: !Consistent(d, g, ds, files)
  {
    hide Consistent;
  }

  lemma ResizedReadOnly(m: imap<Name, Slot>, name: Name, size: uint32)
    requires name in m
    ensures IsReadOnly(m[name := Resized(m[name], size)][name]) == IsReadOnly(m[name])
  {
    ResizedMeans(m[name], size);
  }

  lemma FileHasDirectory(d: Image, g: Geometry, ds: seq<nat>, files: FileChains, name: Name, content: seq<byte>)
    requires FileAt(d, g, ds, files, name, content)
    ensures HasDirectory(d, g, ds) && OnDisk(d, g, ds) && Fits(d, g) && ds != [] && ds[0] == g.rootCluster && name in files
  {
    FileParts(d, g, ds, files, name, content);
    hide FileAt, Owns, FatOf, IsChain;
    OwnsChain(FatOf(d, g), ds, files, name);
  }

  lemma LookupByName(d: Image, g: Geometry, ds: seq<nat>, files: FileChains, name: Name, content: seq<byte>)
    requires FileAt(d, g, ds, files, name, content)
    ensures OnDisk(d, g, ds) && Search(Slots(d, g, ds), 0, name).Some?
  {
    FileParts(d, g, ds, files, name, content);
    hide FileAt, Slots, MapOf, Links, WellFormed;
    LookupMeans(Slots(d, g, ds), files, name);
  }

  /** Open a file by name for reading and read all of it: refused exactly for read-only entries. */
  method Load(v: Volume, path: CString, ghost ds: seq<nat>, ghost files: FileChains, ghost content: seq<byte>)
    returns (ok: bool, data: seq<byte>)
    requires FileAt(v.disk[..], v.geo, ds, files, To83(path), content)
    ensures ok <==> !IsReadOnly(MapOf(Slots(v.disk[..], v.geo, ds))[To83(path)])
    ensures data == if ok then content else []
  {
    hide *;
    ghost var d, g, name := v.disk[..], v.geo, To83(path);
    FileHasDirectory(d, g, ds, files, name, content);
    LookupByName(d, g, ds, files, name, content);
    var found, sector, offset, parent := FindDirectoryEntry(v, path, ds);
    ghost var j := Search(Slots(d, g, ds), 0, name).value;
    FileIsEntry(d, g, ds, files, name, content, j, sector, offset);
    SlotIsReadOnly(d, g, ds, j, sector, offset);
    ok, data := ReadFile(v, sector, offset, files[name], content);
  }

  /** A new file takes what is saved to it: create, save, and load again. */
  method CreateSaveLoad(v: Volume, path: CString, chunks: seq<seq<byte>>, ghost ds: seq<nat>, ghost files: FileChains)
    returns (created: bool, saved: bool, back: seq<byte>)
    requires Consistent(v.disk[..], v.geo, ds, files) && path != [] && path[0] != 0xE5 && |Flatten(chunks)| < 0x1_0000_0000
    modifies v.disk
    ensures created <==>
      && To83(path) !in MapOf(Slots(old(v.disk[..]), v.geo, ds)) && FreeList(old(v.Table())) != []
      && Room(Slots(old(v.disk[..]), v.geo, ds), 0).Some?
    ensures created ==> (saved <==>
      Flatten(chunks) == []
      || CursorIndex(v.geo.sectorsPerCluster, |Flatten(chunks)|) < |FreeList(old(v.Table()))|)
    ensures created && saved ==> back == Flatten(chunks)
  {
    hide *;
    ghost var d, g, name := v.disk[..], v.geo, To83(path);
    saved, back := false, [];
    ConsistentDirectory(d, g, ds, files);
    LookupMeans(Slots(d, g, ds), files, name);
    TableIs(v);
    created := CreateFile(v, path, v.geo.rootCluster, ds);
    CreateOutcome(d, v.disk[..], g, ds, path, created);
    if created {
      ghost var files1 := FileCreated(d, v.disk[..], g, ds, path, files);
      ghost var files2;
      FileHasDirectory(v.disk[..], g, ds, files1, name, []);
      TableIs(v);
      saved, files2 := Save(v, path, chunks, ds, files1, []);
      WholeSplice(Flatten(chunks));
      if saved {
        var loaded;
        loaded, back := Load(v, path, ds, files2, Flatten(chunks));
      }
    }
  }

  lemma WholeSplice(data: seq<byte>)
    ensures Splice([], 0, data) == data
  {
  }

  lemma ConsistentDirectory(d: Image, g: Geometry, ds: seq<nat>, files: FileChains)
    requires Consistent(d, g, ds, files)
    ensures HasDirectory(d, g, ds) && OnDisk(d, g, ds) && Fits(d, g) && ds[0] == g.rootCluster && IsChain(FatOf(d, g), ds)
    ensures WellFormed(Slots(d, g, ds)) && Links(Slots(d, g, ds), files)
  {
    hide Owns, FatOf, IsChain, WellFormed, Links, Slots;
    assert {ds} + files.Values == files.Values + {ds};
    OwnsDirectory(FatOf(d, g), ds, files);
  }

  lemma OwnsDirectory(f: Fat, ds: seq<nat>, files: FileChains)
    requires Owns(f, ds, files)
    ensures IsChain(f, ds)
  {
    assert ds in {ds} + files.Values;
  }

  lemma CreateOutcome(d: Image, d': Image, g: Geometry, ds: seq<nat>, path: CString, ok: bool)
    requires OnDisk(d, g, ds) && CreateStep(d, d', g, ds, path, ok)
    ensures ok <==>
      && path != [] && Search(Slots(d, g, ds), 0, To83(path)).None?
      && FreeList(FatOf(d, g)) != [] && Room(Slots(d, g, ds), 0).Some?
  {
    hide FatOf, Slots, FreeList, Room, Search;
  }

  lemma AddedHere(m: imap<Name, Slot>, name: Name, s: Slot)
    requires name[0] != 0xE5
    ensures MapAfterCreate(m, name, s) == m[name := s]
  {
  }

  lemma EmptyFile(d: Image, g: Geometry, name: Name, first: nat)
    requires Fits(d, g) && 2 <= first < 127006 && name[0] != 0
    ensures Holds(d, g, [first], [])
    ensures var s := NewEntry(name, 0x20, first, 0); !IsDirectory(s) && !IsReadOnly(s) && FileSize(s) == 0
  {
    NewSlot(name, first);
    assert NewEntry(name, 0x20, first, 0)[11] == 0x20;
  }

  lemma ConsistentOwns(d: Image, g: Geometry, ds: seq<nat>, files: FileChains)
    requires Consistent(d, g, ds, files)
    ensures Fits(d, g) && Owns(FatOf(d, g), ds, files)
  {
    hide Owns, FatOf;
  }

  lemma OneLess(f: Fat, first: nat)
    requires FreeList(f) != [] && FreeList(f)[0] == first < 127006
    ensures FreeList(f[first := LAST_CLUSTER]) == FreeList(f)[1..]
  {
    TakeFirstFree(f, LAST_CLUSTER);
  }

  /** The file just created is there, and empty; it took one free cluster. */
  lemma FileCreated(d: Image, d': Image, g: Geometry, ds: seq<nat>, path: CString, files: FileChains)
    returns (files': FileChains)
    requires Consistent(d, g, ds, files) && CreateStep(d, d', g, ds, path, true) && (path != [] ==> path[0] != 0xE5)
    ensures FileAt(d', g, ds, files', To83(path), []) && |files'[To83(path)]| == 1
    ensures !IsReadOnly(MapOf(Slots(d', g, ds))[To83(path)])
    ensures FreeList(FatOf(d, g)) != [] && FreeList(FatOf(d', g)) == FreeList(FatOf(d, g))[1..]
  {
    hide *;
    ConsistentDirectory(d, g, ds, files);
    CreateTakes(d, d', g, ds, path);
    var first, name := FreeList(FatOf(d, g))[0], To83(path);
    CreateFacts(d, d', g, ds, path, files, first);
    CreateKeeps(d, d', g, ds, path, files, first);
    files' := files[name := [first]];
    ConsistentDirectory(d', g, ds, files');
    FirstByte(path);
    var s := NewEntry(name, 0x20, first, 0);
    assert MapOf(Slots(d', g, ds)) == MapOf(Slots(d, g, ds))[name := s] by {
      AddedHere(MapOf(Slots(d, g, ds)), name, s);
    }
    EmptyFile(d', g, name, first);
    ConsistentOwns(d', g, ds, files');
    MakeFileAt(d', g, ds, files', name, []);
    OneLess(FatOf(d, g), first);
  }
}
