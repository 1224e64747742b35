/** An open file of kernel/drivers/fs/fat32.c as a value: the handle's fields, the steps of
    fat32_read and fat32_write on them, and what the steps mean for the file's bytes. */
module FileSteps {
  import opened Words
  import opened FatChains
  import opened FatRuns
  import opened Sectors
  import opened FatVolume
  import opened FileImages

  // ----- facts used by the methods -----

  /** Content does not depend on FAT sectors. */
  lemma HoldsFatOnly(d: Image, d': Image, g: Geometry, cs: seq<nat>, content: seq<byte>)
    requires FatOnly(d, d', g) && Holds(d, g, cs, content)
    ensures Holds(d', g, cs, content)
  {
    hide ClusterOf, WithinOf, Lba, Capacity;
    forall i: nat | i < |content| ensures ByteAt(d', g, cs, i) == content[i] {
      assert ByteAt(d, g, cs, i) == content[i];
      LbasDistinct(g, cs, i / 512, i / 512);
    }
  }

  /** A longer chain holds the same content. */
  lemma HoldsGrown(d: Image, g: Geometry, cs: seq<nat>, c: nat, content: seq<byte>)
    requires Holds(d, g, cs, content) && InRange(c) && c !in cs
    ensures Holds(d, g, cs + [c], content)
  {
    hide ClusterOf, WithinOf;
    var ds := cs + [c];
    assert Distinct(ds);
    assert Capacity(g, ds) >= Capacity(g, cs) by {
      MultiplesApart(g.sectorsPerCluster, |cs|, |ds|);
    }
    forall i: nat | i < |content| ensures ClusterOf(g.sectorsPerCluster, i / 512) < |ds| && ByteAt(d, g, ds, i) == content[i] {
      assert ByteAt(d, g, cs, i) == content[i];
      assert ds[ClusterOf(g.sectorsPerCluster, i / 512)] == cs[ClusterOf(g.sectorsPerCluster, i / 512)];
    }
  }

  lemma ClusterMono(spc: nat, k: nat, j: nat)
    requires spc > 0 && k <= j
    ensures ClusterOf(spc, k) <= ClusterOf(spc, j)
  {
    ClusterBound(spc, j, ClusterOf(spc, j) + 1);
    ClusterBound(spc, k, ClusterOf(spc, j) + 1);
  }

  /** CursorIndex + 1 is the number of clusters that pos bytes need. */
  lemma ClustersNeeded(spc: nat, pos: nat)
    requires spc > 0 && pos > 0
    ensures CursorIndex(spc, pos) + 1 == (pos + spc * 512 - 1) / (spc * 512)
  {
    var m := spc * 512;
    PositionParts(spc, pos - 1);
    var q, r := (pos - 1) / m, (pos - 1) % m;
    assert pos - 1 == q * m + r;
    assert pos + m - 1 == (q + 1) * m + r;
    DivModUnique(m, q + 1, r);
  }

  /** A physical sector of the chain. */
  ghost predicate InFile(g: Geometry, cs: seq<nat>, l: nat)
    requires g.sectorsPerCluster > 0
  {
    exists k: nat :: ClusterOf(g.sectorsPerCluster, k) < |cs| && l == Lba(g, cs, k)
  }

  ghost predicate InFats(g: Geometry, l: nat) {
    g.partitionStart + g.fatStart <= l < g.partitionStart + g.fatStart + 2 * 993
  }

  /** Nothing changed but words of clusters in the FATs and the file's own sectors. */
  ghost predicate OnlyFile(d: Image, d': Image, g: Geometry, cs: seq<nat>) {
    && Fits(d, g) && Fits(d', g)
    && (forall l: nat | l < |d| && !InFats(g, l) && !InFile(g, cs, l) :: d'[l] == d[l])
    && FatKept(d, d', g)
  }

  /** The table after the chain grew from cs to cs' by the lowest free clusters. */
  ghost predicate Extended(f: Fat, cs: seq<nat>, f': Fat, cs': seq<nat>) {
    && |cs| <= |cs'| <= |cs| + |FreeList(f)|
    && cs' == cs + FreeList(f)[..|cs'| - |cs|]
    && FreeList(f') == FreeList(f)[|cs'| - |cs|..]
    && forall c: nat | c < 127006 && c !in cs' :: f'[c] == f[c]
  }

  lemma ExtendedRefl(f: Fat, cs: seq<nat>)
    ensures Extended(f, cs, f, cs)
  {
  }

  /** Growing a chain takes the lowest free cluster and leaves the others free. */
  lemma GrowFreeList(f: Fat, cs: seq<nat>)
    requires IsChain(f, cs) && FreeList(f) != []
    ensures FreeList(GrowStep(f, cs[|cs| - 1]).0) == FreeList(f)[1..]
  {
    var n, tail := FreeList(f)[0], cs[|cs| - 1];
    FirstFree(f);
    TakeFirstFree(f, LAST_CLUSTER);
    ChainNonZero(f, cs, tail);
    hide FreeList, IsChain;
    var f2 := f[n := LAST_CLUSTER];
    StillTaken(f2, tail, n);
    assert GrowStep(f, tail).0 == f2[tail := n];
  }

  lemma TakeOneMore(free: seq<nat>, j: nat)
    requires j < |free|
    ensures free[j..][0] == free[j] && free[j..][1..] == free[j + 1..] && free[..j] + [free[j]] == free[..j + 1]
  {
  }

  lemma ExtendedByOne(f: Fat, cs: seq<nat>, f1: Fat, cs1: seq<nat>)
    requires Extended(f, cs, f1, cs1) && FreeList(f1) != [] && IsChain(f1, cs1)
    ensures Extended(f, cs, GrowStep(f1, cs1[|cs1| - 1]).0, cs1 + [FreeList(f1)[0]])
  {
    hide *;
    ExtendedChain(f1, cs1);
    GrowOnChain(f1, cs1);
    GrowFreeList(f1, cs1);
    ExtendMore(f, cs, f1, cs1, FreeList(f1)[0], GrowStep(f1, cs1[|cs1| - 1]).0);
  }

  lemma ExtendedChain(f: Fat, cs: seq<nat>)
    requires IsChain(f, cs)
    ensures cs != [] && InRange(cs[|cs| - 1])
  {
  }

  lemma ExtendMore(f: Fat, cs: seq<nat>, f1: Fat, cs1: seq<nat>, n: nat, f2: Fat)
    requires Extended(f, cs, f1, cs1) && FreeList(f1) != [] && n == FreeList(f1)[0] && FreeList(f2) == FreeList(f1)[1..]
    requires cs1 != [] && forall c | 0 <= c < 127006 && c != cs1[|cs1| - 1] && c != n :: f2[c] == f1[c]
    ensures Extended(f, cs, f2, cs1 + [n])
  {
    var j := |cs1| - |cs|;
    hide FreeList;
    TakeOneMore(FreeList(f), j);
    assert cs1 + [n] == cs + (FreeList(f)[..j] + [n]);
    forall c: nat | c < 127006 && c !in cs1 + [n] ensures f2[c] == f[c] {
      assert cs1[|cs1| - 1] in cs1 + [n] && n in cs1 + [n];
      assert c !in cs1;
    }
  }

  lemma FatOnlyAt(d: Image, d': Image, g: Geometry, l: nat)
    requires FatOnly(d, d', g) && l < |d| && !InFats(g, l)
    ensures d'[l] == d[l]
  {
  }

  /** The same sector laid over two images that differ in the FATs. */
  lemma FatOnlyOverlay(d: Image, d': Image, g: Geometry, l: nat, s: Sector)
    requires FatOnly(d, d', g) && l < |d| && !InFats(g, l)
    ensures FatOnly(d[l := s], d'[l := s], g)
  {
    assert forall k: nat | InFats(g, k) && k < |d| :: d[l := s][k] == d[k] && d'[l := s][k] == d'[k];
    hide FatKept;
    FatKeptSame(d[l := s], d, g);
    FatKeptSame(d', d'[l := s], g);
    FatKeptTrans(d[l := s], d, d', g);
    FatKeptTrans(d[l := s], d', d'[l := s], g);
  }

  lemma OnlyFileTrans(a: Image, b: Image, c: Image, g: Geometry, cs: seq<nat>, ds: seq<nat>)
    requires OnlyFile(a, b, g, cs) && OnlyFile(b, c, g, ds) && cs <= ds
    ensures OnlyFile(a, c, g, ds)
  {
    FatKeptTrans(a, b, c, g);
    hide FatKept;
    forall l: nat | InFile(g, cs, l) ensures InFile(g, ds, l) {
      var k: nat :| ClusterOf(g.sectorsPerCluster, k) < |cs| && l == Lba(g, cs, k);
      assert ClusterOf(g.sectorsPerCluster, k) < |ds| && l == Lba(g, ds, k);
    }
  }

  function Zeros(n: nat): (z: seq<byte>)
    ensures |z| == n && forall i | 0 <= i < n :: z[i] == 0
  {
    seq(n, i => 0)
  }

  /** What the content is, for a write at pos: the content itself, unless the write starts in the
      middle of a sector at the very end of the file with no sector in the buffer; the driver then
      starts from a zeroed buffer and forgets the bytes before pos in that sector. */
  function WriteBase(content: seq<byte>, pos: nat, ready: bool): (r: seq<byte>)
    requires pos <= |content| && (!ready ==> pos == |content|)
    ensures |r| == |content|
  {
    if ready then content else content[..pos - pos % 512] + Zeros(pos % 512)
  }

  lemma FindFreeIsNotZero(f: Fat)
    ensures 0 < FindFree(f) < 0x1000_0000 && (FreeList(f) == [] ==> FindFree(f) == BAD_CLUSTER)
    ensures InRange(FindFree(f)) <==> FreeList(f) != []
    ensures FreeList(f) != [] ==> FindFree(f) == FreeList(f)[0]
  {
    if FreeList(f) != [] { FirstFree(f); }
  }

  // ----- an open file as a value -----

  /** The fields of a handle that reading and writing use. */
  datatype Open = Open(first: nat, current: nat, fileSize: nat, position: nat, bufferSector: nat, dirty: bool, buffer: Sector)

  /** The disk as it will be once the buffer is flushed. */
  ghost function Shown(d: Image, g: Geometry, s: Open): (r: Image)
    requires Fits(d, g) && g.partitionStart + s.bufferSector < |d|
    ensures Fits(r, g)
  {
    if s.dirty && s.bufferSector != 0 then d[g.partitionStart + s.bufferSector := s.buffer] else d
  }

  /** The buffer is empty, or holds the sector of the last byte touched. */
  ghost predicate BufferOk(d: Image, g: Geometry, s: Open, cs: seq<nat>) {
    && Fits(d, g) && g.partitionStart + s.bufferSector < |d|
    && (s.dirty ==> s.bufferSector != 0)
    && (s.bufferSector != 0 ==>
          && s.position > 0
          && ClusterOf(g.sectorsPerCluster, (s.position - 1) / 512) < |cs|
          && g.partitionStart + s.bufferSector == Lba(g, cs, (s.position - 1) / 512))
    && (s.bufferSector != 0 && !s.dirty ==> s.buffer == d[g.partitionStart + s.bufferSector])
  }

  /** An open file with the given chain and content, wherever its cursor is. */
  ghost predicate Core(d: Image, g: Geometry, s: Open, cs: seq<nat>, content: seq<byte>) {
    && BufferOk(d, g, s, cs)
    && IsChain(FatOf(d, g), cs) && s.first == cs[0]
    && |content| == s.fileSize && s.position <= s.fileSize
    && Holds(Shown(d, g, s), g, cs, content)
  }

  /** The cursor invariant: the first cluster at position 0, else the cluster of the byte before
      the position. */
  ghost predicate AtCursor(g: Geometry, s: Open, cs: seq<nat>) {
    && g.sectorsPerCluster > 0
    && CursorIndex(g.sectorsPerCluster, s.position) < |cs|
    && s.current == cs[CursorIndex(g.sectorsPerCluster, s.position)]
  }

  /** The handle stands for a byte sequence at a position. */
  ghost predicate Refines(d: Image, g: Geometry, s: Open, cs: seq<nat>, content: seq<byte>) {
    Core(d, g, s, cs, content) && AtCursor(g, s, cs)
  }

  /** The cursor is in the cluster of the byte about to be touched. */
  ghost predicate AtByte(g: Geometry, s: Open, cs: seq<nat>) {
    && g.sectorsPerCluster > 0
    && ClusterOf(g.sectorsPerCluster, s.position / 512) < |cs|
    && s.current == cs[ClusterOf(g.sectorsPerCluster, s.position / 512)]
  }

  /** Growing the chain by a free cluster leaves an open file what it is. */
  lemma GrowChange(d: Image, d': Image, g: Geometry, s: Open, cs: seq<nat>, content: seq<byte>)
    requires Core(d, g, s, cs, content) && FatOnly(d, d', g) && FreeList(FatOf(d, g)) != []
    requires FatOf(d', g) == GrowStep(FatOf(d, g), cs[|cs| - 1]).0
    ensures Core(d', g, s, cs + [FreeList(FatOf(d, g))[0]], content)
  {
    hide *;
    CoreParts(d, g, s, cs, content);
    var c := FreeList(FatOf(d, g))[0];
    GrowOnChain(FatOf(d, g), cs);
    FirstFreeInRange(FatOf(d, g));
    ShownFatOnly(d, d', g, s, cs, content);
    HoldsFatOnly(Shown(d, g, s), Shown(d', g, s), g, cs, content);
    HoldsGrown(Shown(d', g, s), g, cs, c, content);
    BufferGrown(d', g, s, cs, c);
    MakeCore(d', g, s, cs + [c], content);
  }

  lemma CoreParts(d: Image, g: Geometry, s: Open, cs: seq<nat>, content: seq<byte>)
    requires Core(d, g, s, cs, content)
    ensures BufferOk(d, g, s, cs) && Fits(d, g) && g.sectorsPerCluster > 0 && g.partitionStart + s.bufferSector < |d|
    ensures IsChain(FatOf(d, g), cs) && cs != [] && s.first == cs[0] && |content| == s.fileSize && s.position <= s.fileSize
    ensures Holds(Shown(d, g, s), g, cs, content)
  {
    hide FatOf, Holds, ClusterOf, Lba, Shown;
  }

  lemma MakeCore(d: Image, g: Geometry, s: Open, cs: seq<nat>, content: seq<byte>)
    requires BufferOk(d, g, s, cs) && Fits(d, g) && g.partitionStart + s.bufferSector < |d|
    requires IsChain(FatOf(d, g), cs) && cs != [] && s.first == cs[0] && |content| == s.fileSize && s.position <= s.fileSize
    requires Holds(Shown(d, g, s), g, cs, content)
    ensures Core(d, g, s, cs, content)
  {
    hide FatOf, Holds, IsChain, BufferOk, Shown;
  }

  lemma FirstFreeInRange(f: Fat)
    requires FreeList(f) != []
    ensures InRange(FreeList(f)[0])
  {
    FirstFree(f);
    hide FreeList;
  }

  /** A change of FAT sectors shows through the buffer, and leaves the buffer what it is. */
  lemma ShownFatOnly(d: Image, d': Image, g: Geometry, s: Open, cs: seq<nat>, content: seq<byte>)
    requires BufferOk(d, g, s, cs) && g.partitionStart + s.bufferSector < |d| && FatOnly(d, d', g)
    requires Holds(Shown(d, g, s), g, cs, content)
    ensures Fits(d', g) && g.partitionStart + s.bufferSector < |d'| && BufferOk(d', g, s, cs)
    ensures FatOnly(Shown(d, g, s), Shown(d', g, s), g)
  {
    hide ClusterOf, WithinOf, Holds, FatKept;
    var l := g.partitionStart + s.bufferSector;
    if s.bufferSector != 0 {
      HoldsOnDisk(Shown(d, g, s), g, cs, content);
      LbasDistinct(g, cs, (s.position - 1) / 512, (s.position - 1) / 512);
      FatOnlyAt(d, d', g, l);
    }
    if s.dirty {
      FatOnlyOverlay(d, d', g, l, s.buffer);
    }
  }

  lemma BufferGrown(d: Image, g: Geometry, s: Open, cs: seq<nat>, c: nat)
    requires BufferOk(d, g, s, cs)
    ensures BufferOk(d, g, s, cs + [c]) && Fits(d, g) && g.partitionStart + s.bufferSector < |d|
    ensures cs != [] ==> (cs + [c])[0] == cs[0]
  {
    hide ClusterOf;
  }

  lemma HoldsOnDisk(d: Image, g: Geometry, cs: seq<nat>, content: seq<byte>)
    requires Holds(d, g, cs, content)
    ensures OnDisk(d, g, cs)
  {
  }

  // ----- the buffer steps of fat32_write -----

  function ZeroSector(): (s: Sector)
    ensures forall i | 0 <= i < 512 :: s[i] == 0
  {
    seq(512, i => 0)
  }

  /** The sector number the driver computes for the byte at the position. */
  function TargetSector(g: Geometry, s: Open): nat
    requires g.sectorsPerCluster > 0
  {
    g.ClusterToSector(s.current) + ClusterOffset(g.sectorsPerCluster, s.position) / 512
  }

  /** Bringing the target sector into the buffer: flush, then read it, or zero the buffer at the
      end of the file. */
  ghost function LoadStep(d: Image, g: Geometry, s: Open): (Image, Open)
    requires Fits(d, g) && g.partitionStart + s.bufferSector < |d| && g.partitionStart + TargetSector(g, s) < |d|
  {
    var target := TargetSector(g, s);
    if target == s.bufferSector then (d, s)
    else
      var flush := s.dirty && s.bufferSector != 0;
      var d' := if flush then d[g.partitionStart + s.bufferSector := s.buffer] else d;
      var fresh' := if s.position < s.fileSize then d'[g.partitionStart + target] else ZeroSector();
      (d', s.(dirty := s.dirty && !flush, buffer := fresh', bufferSector := target))
  }

  /** memcpy into the buffer, and the new position and size. */
  ghost function CopyStep(s: Open, data: seq<byte>): Open
    requires s.position % 512 + |data| <= 512
  {
    var position := s.position + |data|;
    s.(buffer := Patch(s.buffer, s.position % 512, data), dirty := true, position := position,
       fileSize := if position > s.fileSize then position else s.fileSize)
  }

  /** The target sector is the chain's sector for the position. */
  lemma TargetIsLba(d: Image, g: Geometry, s: Open, cs: seq<nat>)
    requires OnDisk(d, g, cs) && AtByte(g, s, cs)
    ensures g.partitionStart + TargetSector(g, s) == Lba(g, cs, s.position / 512) < |d|
    ensures TargetSector(g, s) > 0 && !InFats(g, Lba(g, cs, s.position / 512))
    ensures InFile(g, cs, Lba(g, cs, s.position / 512))
  {
    PositionParts(g.sectorsPerCluster, s.position);
    LbasDistinct(g, cs, s.position / 512, s.position / 512);
    DataSectorsDisjoint(g, s.current, WithinOf(g.sectorsPerCluster, s.position / 512),
                        s.current, WithinOf(g.sectorsPerCluster, s.position / 512));
  }

  /** Loading the buffer changes nothing to be seen; the buffer then shows the target sector,
      unless the driver zeroed it at the end of the file. */
  lemma LoadKeeps(d: Image, g: Geometry, s: Open, cs: seq<nat>, content: seq<byte>)
    requires Core(d, g, s, cs, content) && AtByte(g, s, cs)
    ensures g.partitionStart + TargetSector(g, s) < |d|
    ensures var (d', s') := LoadStep(d, g, s); var l := Lba(g, cs, s.position / 512);
      && Fits(d', g) && l < |d| && g.partitionStart + s'.bufferSector == l && s'.bufferSector != 0
      && s' == s.(dirty := s'.dirty, buffer := s'.buffer, bufferSector := s'.bufferSector)
      && Shown(d', g, s') == Shown(d, g, s)
      && (if s.position < s.fileSize || s.bufferSector == TargetSector(g, s)
          then s'.buffer == Shown(d, g, s)[l] else s'.buffer == ZeroSector())
      && OnlyFile(d, d', g, cs) && FatOnlyFile(d, d', g)
  {
    hide *;
    BufferPlace(d, g, s, cs, content);
    TargetIsLba(d, g, s, cs);
    AtByteMeans(g, s, cs);
    LoadMeans(d, g, s, cs);
  }

  lemma AtByteMeans(g: Geometry, s: Open, cs: seq<nat>)
    requires AtByte(g, s, cs)
    ensures g.sectorsPerCluster > 0 && ClusterOf(g.sectorsPerCluster, s.position / 512) < |cs|
  {
  }

  /** A sector in the buffer is one of the file's. */
  lemma BufferPlace(d: Image, g: Geometry, s: Open, cs: seq<nat>, content: seq<byte>)
    requires Core(d, g, s, cs, content)
    ensures Fits(d, g) && g.sectorsPerCluster > 0 && g.partitionStart + s.bufferSector < |d| && OnDisk(d, g, cs)
    ensures s.dirty ==> s.bufferSector != 0
    ensures s.bufferSector != 0 ==>
      InFile(g, cs, g.partitionStart + s.bufferSector) && !InFats(g, g.partitionStart + s.bufferSector)
    ensures s.bufferSector != 0 && !s.dirty ==> s.buffer == d[g.partitionStart + s.bufferSector]
  {
    hide ClusterOf, InFile, IsChain, FatOf;
    HoldsOnDisk(Shown(d, g, s), g, cs, content);
    hide Holds;
    if s.bufferSector != 0 {
      LbasDistinct(g, cs, (s.position - 1) / 512, (s.position - 1) / 512);
      LbaInFile(g, cs, (s.position - 1) / 512);
    }
  }

  lemma LoadMeans(d: Image, g: Geometry, s: Open, cs: seq<nat>)
    requires Fits(d, g) && g.sectorsPerCluster > 0 && g.partitionStart + s.bufferSector < |d|
    requires TargetSector(g, s) > 0 && g.partitionStart + TargetSector(g, s) < |d|
    requires s.dirty ==> s.bufferSector != 0
    requires s.bufferSector != 0 ==>
      InFile(g, cs, g.partitionStart + s.bufferSector) && !InFats(g, g.partitionStart + s.bufferSector)
    requires s.bufferSector != 0 && !s.dirty ==> s.buffer == d[g.partitionStart + s.bufferSector]
    ensures var (d', s') := LoadStep(d, g, s); var l := g.partitionStart + TargetSector(g, s);
      && Fits(d', g) && g.partitionStart + s'.bufferSector == l && s'.bufferSector != 0
      && s' == s.(dirty := s'.dirty, buffer := s'.buffer, bufferSector := s'.bufferSector)
      && Shown(d', g, s') == Shown(d, g, s)
      && (if s.position < s.fileSize || s.bufferSector == TargetSector(g, s)
          then s'.buffer == Shown(d, g, s)[l] else s'.buffer == ZeroSector())
      && OnlyFile(d, d', g, cs) && FatOnlyFile(d, d', g)
  {
    hide TargetSector, InFile, InFats, FatKept;
    SameKept(d, LoadStep(d, g, s).0, g);
  }

  lemma LbaInFile(g: Geometry, cs: seq<nat>, k: nat)
    requires g.sectorsPerCluster > 0 && ClusterOf(g.sectorsPerCluster, k) < |cs|
    ensures InFile(g, cs, Lba(g, cs, k))
  {
  }

  /** No FAT sector changed. */
  ghost predicate FatOnlyFile(d: Image, d': Image, g: Geometry) {
    Fits(d, g) && Fits(d', g) && forall l: nat | l < |d| && InFats(g, l) :: d'[l] == d[l]
  }

  lemma SameFats(d: Image, d': Image, g: Geometry)
    requires FatOnlyFile(d, d', g)
    ensures FatOf(d', g) == FatOf(d, g)
  {
    forall c: nat | c < 127006 ensures FatEntry(d', g, c) == FatEntry(d, g, c) {
      FatSectorsInRange(g, c);
      assert InFats(g, g.FatSector(c, 0));
    }
  }

  lemma SameKept(d: Image, d': Image, g: Geometry)
    requires FatOnlyFile(d, d', g)
    ensures FatKept(d, d', g)
  {
    FatKeptSame(d, d', g);
    hide FatKept;
  }

  /** A shorter content is held as well. */
  lemma HoldsPrefix(d: Image, g: Geometry, cs: seq<nat>, content: seq<byte>, n: nat)
    requires Holds(d, g, cs, content) && n <= |content|
    ensures Holds(d, g, cs, content[..n])
  {
    forall i: nat | i < n ensures ClusterOf(g.sectorsPerCluster, i / 512) < |cs| && ByteAt(d, g, cs, i) == content[..n][i] {
      assert ByteAt(d, g, cs, i) == content[i];
    }
  }

  /** The memcpy of a write, on a loaded buffer. */
  lemma CopyKeeps(d: Image, g: Geometry, s: Open, s': Open, cs: seq<nat>, content: seq<byte>, data: seq<byte>, shown: Image)
    requires Fits(d, g) && IsChain(FatOf(d, g), cs) && s.first == cs[0] && AtByte(g, s, cs)
    requires |content| == s.fileSize && s.position <= s.fileSize && Holds(shown, g, cs, content)
    requires s' == s.(dirty := s'.dirty, buffer := s'.buffer, bufferSector := s'.bufferSector) && s'.bufferSector != 0
    requires g.partitionStart + s'.bufferSector == Lba(g, cs, s.position / 512) < |d| && shown == Shown(d, g, s')
    requires data != [] && s.position % 512 + |data| <= 512
    requires var ready := s.position % 512 == 0 || s.bufferSector != 0 || s.position < s.fileSize;
      if ready && !(s.position == s.fileSize && s.position % 512 == 0)
      then s'.buffer == shown[Lba(g, cs, s.position / 512)]
      else ready || s'.buffer == ZeroSector()
    ensures var ready := s.position % 512 == 0 || s.bufferSector != 0 || s.position < s.fileSize;
      Refines(d, g, CopyStep(s', data), cs, Splice(WriteBase(content, s.position, ready), s.position, data))
  {
    hide IsChain, FatOf, ClusterOf, WithinOf, Lba;
    var pos, l := s.position, Lba(g, cs, s.position / 512);
    var off := pos % 512;
    var ready := off == 0 || s.bufferSector != 0 || pos < s.fileSize;
    var after := CopyStep(s', data);
    assert (pos + |data| - 1) / 512 == pos / 512;
    if ready {
      PatchSplices(shown, g, cs, content, pos, l, s'.buffer, data);
    } else {
      ZeroedSplice(shown, g, cs, content, l, data);
    }
    hide *;
    CopyRefines(d, g, s, s', cs, Splice(WriteBase(content, pos, ready), pos, data), data, shown);
  }

  lemma CopyRefines(d: Image, g: Geometry, s: Open, s': Open, cs: seq<nat>, now: seq<byte>, data: seq<byte>, shown: Image)
    requires Fits(d, g) && IsChain(FatOf(d, g), cs) && cs != [] && s.first == cs[0] && AtByte(g, s, cs) && g.sectorsPerCluster > 0
    requires s.position <= s.fileSize && |now| == Max(s.fileSize, s.position + |data|)
    requires s' == s.(dirty := s'.dirty, buffer := s'.buffer, bufferSector := s'.bufferSector) && s'.bufferSector != 0
    requires ClusterOf(g.sectorsPerCluster, s.position / 512) < |cs|
    requires g.partitionStart + s'.bufferSector == Lba(g, cs, s.position / 512) < |d| && shown == Shown(d, g, s')
    requires data != [] && s.position % 512 + |data| <= 512
    requires Holds(shown[g.partitionStart + s'.bufferSector := Patch(s'.buffer, s.position % 512, data)], g, cs, now)
    ensures Refines(d, g, CopyStep(s', data), cs, now)
  {
    hide IsChain, FatOf, ClusterOf, Lba, Holds, Patch, CursorIndex;
    var after := CopyStep(s', data);
    CursorAfter(g.sectorsPerCluster, s.position, |data|);
    assert Shown(d, g, after) == shown[g.partitionStart + s'.bufferSector := Patch(s'.buffer, s.position % 512, data)];
  }

  /** A buffered sector in the middle of which the position stands is the target. */
  lemma TargetOfBuffer(d: Image, g: Geometry, s: Open, cs: seq<nat>, content: seq<byte>)
    requires Core(d, g, s, cs, content) && AtByte(g, s, cs)
    ensures s.bufferSector != 0 && s.position % 512 != 0 ==> s.bufferSector == TargetSector(g, s)
  {
    HoldsOnDisk(Shown(d, g, s), g, cs, content);
    TargetIsLba(d, g, s, cs);
    if s.position % 512 != 0 { assert (s.position - 1) / 512 == s.position / 512; }
  }

  lemma ZeroedSplice(d: Image, g: Geometry, cs: seq<nat>, content: seq<byte>, l: nat, data: seq<byte>)
    requires Holds(d, g, cs, content) && data != [] && |content| % 512 + |data| <= 512
    requires ClusterOf(g.sectorsPerCluster, |content| / 512) < |cs|
    requires l == Lba(g, cs, |content| / 512) && l < |d|
    ensures Holds(d[l := Patch(ZeroSector(), |content| % 512, data)], g, cs,
                  Splice(WriteBase(content, |content|, false), |content|, data))
  {
    hide ClusterOf, WithinOf, Lba;
    var off := |content| % 512;
    var start := |content| - off;
    var kept, padded := content[..start], Zeros(off) + data;
    HoldsPrefix(d, g, cs, content, start);
    assert start / 512 == |content| / 512 && start % 512 == 0;
    PatchSplices(d, g, cs, kept, start, l, ZeroSector(), padded);
    hide Holds;
    ZeroPad(content, data);
  }

  lemma ZeroPad(content: seq<byte>, data: seq<byte>)
    requires |content| % 512 + |data| <= 512
    ensures var off := |content| % 512;
      && Patch(ZeroSector(), 0, Zeros(off) + data) == Patch(ZeroSector(), off, data)
      && Splice(content[..|content| - off], |content| - off, Zeros(off) + data)
         == Splice(WriteBase(content, |content|, false), |content|, data)
  {
  }

  // ----- the steps of fat32_read -----

  /** Byte i of a chain; 0 beyond its end. */
  ghost function ChainByte(d: Image, g: Geometry, cs: seq<nat>, i: nat): byte
    requires OnDisk(d, g, cs)
  {
    if ClusterOf(g.sectorsPerCluster, i / 512) < |cs| then ByteAt(d, g, cs, i) else 0
  }

  /** In numbers: the byte at i % 512 of sector r of the q-th cluster, where q * m + r is i / 512. */
  lemma ChainByteIs(d: Image, g: Geometry, cs: seq<nat>, i: nat, q: nat, r: nat)
    requires OnDisk(d, g, cs) && r < g.sectorsPerCluster && i / 512 == q * g.sectorsPerCluster + r
    ensures q >= |cs| ==> ChainByte(d, g, cs, i) == 0
    ensures q < |cs| ==>
      var l := 2 * g.partitionStart + g.dataStart + (cs[q] - 2) * g.sectorsPerCluster + r;
      0 <= l < |d| && ChainByte(d, g, cs, i) == d[l][i % 512]
  {
    DivModUnique(g.sectorsPerCluster, q, r);
    if q < |cs| {
      LbaIs(g, cs, q, r);
      LbasDistinct(g, cs, i / 512, i / 512);
    }
    hide Lba;
  }

  /** Bytes p to p + n of a chain. */
  ghost function Slice(d: Image, g: Geometry, cs: seq<nat>, p: nat, n: nat): (r: seq<byte>)
    requires OnDisk(d, g, cs)
    ensures |r| == n && forall i | 0 <= i < n :: r[i] == ChainByte(d, g, cs, p + i)
  {
    seq<byte>(n, i requires 0 <= i => ChainByte(d, g, cs, p + i))
  }

  lemma SliceAppend(d: Image, g: Geometry, cs: seq<nat>, p: nat, n: nat, k: nat)
    requires OnDisk(d, g, cs)
    ensures Slice(d, g, cs, p, n) + Slice(d, g, cs, p + n, k) == Slice(d, g, cs, p, n + k)
  {
    hide ChainByte;
  }

  lemma SliceOfContent(d: Image, g: Geometry, cs: seq<nat>, content: seq<byte>, p: nat, n: nat)
    requires Holds(d, g, cs, content) && p + n <= |content|
    ensures Slice(d, g, cs, p, n) == content[p..p + n]
  {
    hide Capacity, ClusterOf;
    forall i | 0 <= i < n ensures Slice(d, g, cs, p, n)[i] == content[p..p + n][i] {
      assert ByteAt(d, g, cs, p + i) == content[p + i];
    }
  }

  /** With the cursor `shift` clusters ahead, the driver reads `shift` clusters further on. */
  lemma ShiftedSector(spc: nat, k: nat, shift: nat)
    requires spc > 0
    ensures ClusterOf(spc, k + shift * spc) == ClusterOf(spc, k) + shift
    ensures WithinOf(spc, k + shift * spc) == WithinOf(spc, k)
  {
    SectorSplit(spc, k);
    var q, r := ClusterOf(spc, k), WithinOf(spc, k);
    assert k + shift * spc == (q + shift) * spc + r;
    DivModUnique(spc, q + shift, r);
  }

  /** The byte `shift` clusters further on, by sector and offset. */
  lemma ByteIndex(m: nat, pos: nat, shift: nat)
    ensures (pos + Ahead(m, shift)) / 512 == pos / 512 + shift * m
    ensures (pos + Ahead(m, shift)) % 512 == pos % 512
  {
    Regroup(shift, m);
    var t := shift * m;
    assert Ahead(m, shift) == t * 512;
  }

  /** What one buffer-sized piece of fat32_read takes out of the buffer. */
  lemma ReadPiece(d: Image, g: Geometry, s: Open, cs: seq<nat>, shift: nat, n: nat)
    requires OnDisk(d, g, cs) && s.position % 512 + n <= 512 && n > 0
    requires ClusterOf(g.sectorsPerCluster, s.position / 512) + shift < |cs|
    requires s.current == cs[ClusterOf(g.sectorsPerCluster, s.position / 512) + shift]
    ensures ClusterOf(g.sectorsPerCluster, s.position / 512 + shift * g.sectorsPerCluster) < |cs|
    ensures g.partitionStart + TargetSector(g, s) == Lba(g, cs, s.position / 512 + shift * g.sectorsPerCluster) < |d|
    ensures TargetSector(g, s) > 0
    ensures s.position + Ahead(g.sectorsPerCluster, shift) + n <= Capacity(g, cs)
    ensures Slice(d, g, cs, s.position + Ahead(g.sectorsPerCluster, shift), n)
         == d[g.partitionStart + TargetSector(g, s)][s.position % 512..s.position % 512 + n]
  {
    hide *;
    ByteIndex(g.sectorsPerCluster, s.position, shift);
    PieceSector(d, g, s, cs, shift);
    PieceBytes(d, g, cs, s.position + Ahead(g.sectorsPerCluster, shift), n);
  }

  /** The sector it reads. */
  lemma PieceSector(d: Image, g: Geometry, s: Open, cs: seq<nat>, shift: nat)
    requires OnDisk(d, g, cs) && ClusterOf(g.sectorsPerCluster, s.position / 512) + shift < |cs|
    requires s.current == cs[ClusterOf(g.sectorsPerCluster, s.position / 512) + shift]
    ensures g.sectorsPerCluster > 0
    ensures ClusterOf(g.sectorsPerCluster, s.position / 512 + shift * g.sectorsPerCluster) < |cs|
    ensures g.partitionStart + TargetSector(g, s) == Lba(g, cs, s.position / 512 + shift * g.sectorsPerCluster) < |d|
    ensures TargetSector(g, s) > 0
  {
    var m, k := g.sectorsPerCluster, s.position / 512;
    ShiftedSector(m, k, shift);
    PositionParts(m, s.position);
    hide ClusterOf, WithinOf, Geometry.ClusterToSector;
    LbasDistinct(g, cs, k + shift * m, k + shift * m);
    DataSectorsDisjoint(g, s.current, WithinOf(m, k), s.current, WithinOf(m, k));
  }

  /** Bytes of a chain that lie in one sector. */
  lemma PieceBytes(d: Image, g: Geometry, cs: seq<nat>, p: nat, n: nat)
    requires OnDisk(d, g, cs) && p % 512 + n <= 512 && n > 0 && ClusterOf(g.sectorsPerCluster, p / 512) < |cs|
    requires Lba(g, cs, p / 512) < |d|
    ensures p + n <= Capacity(g, cs)
    ensures Slice(d, g, cs, p, n) == d[Lba(g, cs, p / 512)][p % 512..p % 512 + n]
  {
    assert (p + n - 1) / 512 == p / 512;
    CapacityBound(g, cs, p + n - 1);
    hide Capacity, ClusterOf, Lba;
    forall i | 0 <= i < n
      ensures Slice(d, g, cs, p, n)[i] == d[Lba(g, cs, p / 512)][p % 512 + i]
    {
      assert (p + i) / 512 == p / 512 && (p + i) % 512 == p % 512 + i;
    }
  }

  // ----- the cluster step of fat32_write -----

  lemma NextOnChain(f: Fat, cs: seq<nat>, i: nat)
    requires IsChain(f, cs) && i < |cs|
    ensures InRange(cs[i]) && (Entry(f, cs[i]) >= LAST_CLUSTER <==> i + 1 == |cs|)
    ensures i + 1 < |cs| ==> Entry(f, cs[i]) == cs[i + 1] && Entry(f, cs[i]) != FREE_CLUSTER
  {
    if i + 1 < |cs| { assert InRange(cs[i + 1]); }
  }

  lemma GrowOk(f: Fat, tail: nat)
    requires InRange(tail)
    ensures GrowStep(f, tail).1 <==> FreeList(f) != []
  {
    FindFreeIsNotZero(f);
  }

  /** The cursor is no part of what a file is. */
  lemma CurrentAside(d: Image, g: Geometry, s: Open, cs: seq<nat>, content: seq<byte>, c: nat)
    requires Core(d, g, s, cs, content)
    ensures Core(d, g, s.(current := c), cs, content)
  {
  }

  /** What the cluster step guarantees: the cursor is at the byte to be written, on a chain that
      grew by the lowest free cluster if it had to; it fails exactly when it had to and could not. */
  ghost predicate Advanced(d: Image, d': Image, g: Geometry, s: Open, s': Open, cs: seq<nat>, cs': seq<nat>,
                           content: seq<byte>, ok: bool) {
    && Fits(d, g) && FatOnly(d, d', g) && g.sectorsPerCluster > 0 && cs != [] && AllInRange(cs)
    && s' == s.(current := s'.current)
    && (ok <==> ClusterOf(g.sectorsPerCluster, s.position / 512) < |cs| || FreeList(FatOf(d, g)) != [])
    && (if ClusterOf(g.sectorsPerCluster, s.position / 512) < |cs|
        then cs' == cs && FatOf(d', g) == FatOf(d, g)
        else FatOf(d', g) == GrowStep(FatOf(d, g), cs[|cs| - 1]).0
             && cs' == (if ok then cs + [FreeList(FatOf(d, g))[0]] else cs)
             && ClusterOf(g.sectorsPerCluster, s.position / 512) == |cs|)
    && (ok ==> Core(d', g, s', cs', content) && AtByte(g, s', cs'))
  }

  /** The driver's test for a cluster boundary, on an open file. */
  ghost predicate AtBoundary(g: Geometry, s: Open)
    requires g.sectorsPerCluster > 0
  {
    ClusterOffset(g.sectorsPerCluster, s.position) == 0 && s.position > 0
  }

  lemma AtTail(d: Image, g: Geometry, s: Open, cs: seq<nat>, content: seq<byte>)
    requires Refines(d, g, s, cs, content)
    ensures g.sectorsPerCluster > 0 && Fits(d, g)
    ensures InRange(s.current)
  {
    assert InRange(cs[CursorIndex(g.sectorsPerCluster, s.position)]);
  }

  lemma AdvanceStays(d: Image, g: Geometry, s: Open, cs: seq<nat>, content: seq<byte>)
    requires Refines(d, g, s, cs, content) && !AtBoundary(g, s)
    ensures Advanced(d, d, g, s, s, cs, cs, content, true)
  {
    hide ClusterOf, CursorIndex, FatOf, FreeList;
    FatOnlyRefl(d, g);
    CursorAdvance(g.sectorsPerCluster, s.position);
  }

  lemma AdvanceFollows(d: Image, g: Geometry, s: Open, cs: seq<nat>, content: seq<byte>)
    requires Refines(d, g, s, cs, content) && AtBoundary(g, s)
    requires Entry(FatOf(d, g), s.current) < LAST_CLUSTER
    ensures Advanced(d, d, g, s, s.(current := Entry(FatOf(d, g), s.current)), cs, cs, content, true)
  {
    hide ClusterOf, CursorIndex, FatOf, FreeList;
    FatOnlyRefl(d, g);
    CursorAdvance(g.sectorsPerCluster, s.position);
    NextOnChain(FatOf(d, g), cs, CursorIndex(g.sectorsPerCluster, s.position));
    CurrentAside(d, g, s, cs, content, Entry(FatOf(d, g), s.current));
  }

  /** At the last cluster the boundary leads past the chain, and the tail is the current cluster. */
  lemma BoundaryAtTail(d: Image, g: Geometry, s: Open, cs: seq<nat>, content: seq<byte>)
    requires Refines(d, g, s, cs, content) && AtBoundary(g, s)
    requires Entry(FatOf(d, g), s.current) >= LAST_CLUSTER
    ensures ClusterOf(g.sectorsPerCluster, s.position / 512) == |cs| && cs != [] && AllInRange(cs)
    ensures s.current == cs[|cs| - 1] && Fits(d, g)
  {
    CoreIsChain(d, g, s, cs, content);
    hide ClusterOf, CursorIndex, FatOf, Core, IsChain;
    CursorAdvance(g.sectorsPerCluster, s.position);
    NextOnChain(FatOf(d, g), cs, CursorIndex(g.sectorsPerCluster, s.position));
  }

  lemma AdvanceGrows(d: Image, d': Image, g: Geometry, s: Open, cs: seq<nat>, content: seq<byte>, c: nat)
    requires Refines(d, g, s, cs, content) && AtBoundary(g, s)
    requires Entry(FatOf(d, g), s.current) >= LAST_CLUSTER
    requires InRange(s.current) && FatOnly(d, d', g) && (FatOf(d', g), true) == GrowStep(FatOf(d, g), s.current)
    requires c == FindFree(FatOf(d, g))
    ensures Advanced(d, d', g, s, s.(current := c), cs, cs + [c], content, true)
  {
    BoundaryAtTail(d, g, s, cs, content);
    FindFreeIsNotZero(FatOf(d, g));
    GrowOk(FatOf(d, g), s.current);
    hide ClusterOf, CursorIndex, FatOf, FreeList, GrowStep, FindFree, Core, IsChain, FatOnly, AllInRange;
    GrowChange(d, d', g, s, cs, content);
    CurrentAside(d', g, s, cs + [c], content, c);
  }

  lemma AdvanceFails(d: Image, d': Image, g: Geometry, s: Open, cs: seq<nat>, content: seq<byte>)
    requires Refines(d, g, s, cs, content) && AtBoundary(g, s)
    requires Entry(FatOf(d, g), s.current) >= LAST_CLUSTER
    requires InRange(s.current) && FatOnly(d, d', g) && (FatOf(d', g), false) == GrowStep(FatOf(d, g), s.current)
    ensures Advanced(d, d', g, s, s, cs, cs, content, false)
  {
    hide *;
    AtTail(d, g, s, cs, content);
    BoundaryAtTail(d, g, s, cs, content);
    GrowOk(FatOf(d, g), s.current);
    NotAdvanced(d, d', g, s, cs, content);
  }

  lemma NotAdvanced(d: Image, d': Image, g: Geometry, s: Open, cs: seq<nat>, content: seq<byte>)
    requires Fits(d, g) && FatOnly(d, d', g) && g.sectorsPerCluster > 0 && cs != [] && AllInRange(cs) && InRange(cs[|cs| - 1])
    requires ClusterOf(g.sectorsPerCluster, s.position / 512) == |cs| && FreeList(FatOf(d, g)) == []
    requires FatOf(d', g) == GrowStep(FatOf(d, g), cs[|cs| - 1]).0
    ensures Advanced(d, d', g, s, s, cs, cs, content, false)
  {
    hide FatOf, GrowStep, FreeList, AllInRange, ClusterOf;
  }

  // ----- a whole write -----

  /** A file being written: from chain cs0 on image d0 to chain cs on image d. */
  ghost predicate Writing(d0: Image, g: Geometry, cs0: seq<nat>, d: Image, s: Open, cs: seq<nat>, content: seq<byte>) {
    && Fits(d0, g) && Refines(d, g, s, cs, content)
    && Extended(FatOf(d0, g), cs0, FatOf(d, g), cs)
    && OnlyFile(d0, d, g, cs)
    && |cs| == Max(|cs0|, CursorIndex(g.sectorsPerCluster, s.position) + 1)
  }

  function Max(a: int, b: int): int { if a >= b then a else b }

  lemma MaxIs(a: int, b: int)
    ensures Max(a, b) == if b > a then b else a
  {
  }

  /** A write not yet begun. */
  lemma WritingStart(d: Image, g: Geometry, s: Open, cs: seq<nat>, content: seq<byte>)
    requires Refines(d, g, s, cs, content)
    ensures Writing(d, g, cs, d, s, cs, content)
  {
    hide ClusterOf, CursorIndex, FatOf, FreeList, IsChain;
    ExtendedRefl(FatOf(d, g), cs);
  }

  /** The cluster step inside a write. */
  lemma WritingAdvanced(d0: Image, g: Geometry, cs0: seq<nat>, d: Image, s: Open, cs: seq<nat>, content: seq<byte>,
                        d1: Image, s1: Open, cs1: seq<nat>)
    requires Writing(d0, g, cs0, d, s, cs, content)
    requires Advanced(d, d1, g, s, s1, cs, cs1, content, true)
    ensures Fits(d0, g) && Fits(d1, g) && Extended(FatOf(d0, g), cs0, FatOf(d1, g), cs1)
    ensures OnlyFile(d0, d1, g, cs1)
    ensures |cs1| == Max(|cs0|, ClusterOf(g.sectorsPerCluster, s.position / 512) + 1)
  {
    CursorAdvance(g.sectorsPerCluster, s.position);
    hide ClusterOf, CursorIndex, FatOf, FreeList, GrowStep, InFile, Core;
    var f, f1 := FatOf(d, g), FatOf(d1, g);
    assert IsChain(f, cs) by { CoreIsChain(d, g, s, cs, content); }
    if ClusterOf(g.sectorsPerCluster, s.position / 512) >= |cs| {
      ExtendedByOne(FatOf(d0, g), cs0, f, cs);
    }
    hide Extended, IsChain;
    assert OnlyFile(d, d1, g, cs1);
    OnlyFileTrans(d0, d, d1, g, cs, cs1);
  }

  lemma CoreIsChain(d: Image, g: Geometry, s: Open, cs: seq<nat>, content: seq<byte>)
    requires Core(d, g, s, cs, content)
    ensures Fits(d, g) && IsChain(FatOf(d, g), cs) && cs != [] && AllInRange(cs)
  {
  }

  // ----- a write whose cursor is ahead -----

  /** An open file seen from its cursor: `ahead` bytes further on, in a file of `base` bytes or more. */
  function Shifted(s: Open, ahead: nat, base: nat): Open {
    s.(position := s.position + ahead, fileSize := Max(base, s.position + ahead))
  }

  /** The cursor is `shift` clusters ahead of the position (0 when all is well), and the driver's tests
      on position and size come out as they would there. */
  ghost predicate CursorAhead(g: Geometry, s: Open, shift: nat, base: nat) {
    && g.sectorsPerCluster > 0
    && if shift == 0 then s.fileSize == Max(base, s.position)
       else
         && s.position > 0 && base <= s.fileSize + Ahead(g.sectorsPerCluster, shift)
         && (s.position % 512 == 0 || s.bufferSector != 0)
  }

  /** Whole clusters further on, position tests and sector offsets are the same. */
  lemma SameOffsets(g: Geometry, s: Open, shift: nat, base: nat)
    requires CursorAhead(g, s, shift, base)
    ensures var v := Shifted(s, Ahead(g.sectorsPerCluster, shift), base);
      && (shift == 0 ==> v == s)
      && v.position == s.position + Ahead(g.sectorsPerCluster, shift) && v.position % 512 == s.position % 512
      && v.current == s.current && v.bufferSector == s.bufferSector && v.dirty == s.dirty && v.buffer == s.buffer
      && v.position <= v.fileSize
      && (AtBoundary(g, v) <==> AtBoundary(g, s)) && TargetSector(g, v) == TargetSector(g, s)
  {
    var m, p := g.sectorsPerCluster, s.position;
    var q := p + Ahead(m, shift);
    ByteIndex(m, p, shift);
    ShiftedSector(m, p / 512, shift);
    PositionParts(m, p);
    PositionParts(m, q);
    hide ClusterOf, WithinOf, ClusterOffset;
    assert p % 512 == q % 512;
    if shift == 0 { assert Ahead(m, 0) == 0; }
  }

  /** Moving the cursor moves it in the shifted view. */
  lemma ShiftedCursor(s: Open, ahead: nat, base: nat, c: nat)
    ensures Shifted(s.(current := c), ahead, base) == Shifted(s, ahead, base).(current := c)
  {
  }

  lemma StaysAhead(g: Geometry, s: Open, shift: nat, base: nat, c: nat)
    requires CursorAhead(g, s, shift, base)
    ensures CursorAhead(g, s.(current := c), shift, base)
  {
  }

  /** One buffer-sized piece of a write: in the shifted view it is spliced in as ChunkKeeps says. */
  lemma ChunkAhead(d: Image, g: Geometry, s: Open, shift: nat, base: nat, cs: seq<nat>, content: seq<byte>, data: seq<byte>)
    requires CursorAhead(g, s, shift, base)
    requires Core(d, g, Shifted(s, Ahead(g.sectorsPerCluster, shift), base), cs, content)
    requires AtByte(g, Shifted(s, Ahead(g.sectorsPerCluster, shift), base), cs)
    requires data != [] && s.position % 512 + |data| <= 512
    ensures g.partitionStart + s.bufferSector < |d| && g.partitionStart + TargetSector(g, s) < |d|
    ensures var v, (d', s') := Shifted(s, Ahead(g.sectorsPerCluster, shift), base), LoadStep(d, g, s);
      var ready := v.position % 512 == 0 || v.bufferSector != 0 || v.position < v.fileSize;
      && v.position <= |content| == v.fileSize
      && Refines(d', g, Shifted(CopyStep(s', data), Ahead(g.sectorsPerCluster, shift), base), cs,
                 Splice(WriteBase(content, v.position, ready), v.position, data))
      && OnlyFile(d, d', g, cs) && FatOnlyFile(d, d', g)
      && s'.position == s.position && s'.bufferSector != 0 && CopyStep(s', data).bufferSector != 0
      && CursorAhead(g, CopyStep(s', data), shift, base)
  {
    hide *;
    var v := Shifted(s, Ahead(g.sectorsPerCluster, shift), base);
    SameOffsets(g, s, shift, base);
    CoreParts(d, g, v, cs, content);
    BufferPlace(d, g, v, cs, content);
    TargetIsLba(d, g, v, cs);
    AtByteMeans(g, v, cs);
    LoadMeans(d, g, s, cs);
    TargetOfBuffer(d, g, v, cs, content);
    var (d', s') := LoadStep(d, g, s);
    var v' := v.(dirty := s'.dirty, buffer := s'.buffer, bufferSector := s'.bufferSector);
    SameFats(d, d', g);
    FitsSize(d, d', g);
    SameShown(d, g, s, v);
    SameShown(d', g, s', v');
    LoadedAhead(g, s, shift, base, v);
    CopyKeeps(d', g, v, v', cs, content, data, Shown(d, g, v));
    CopiedAhead(g, s, s', shift, base, data);
  }

  lemma FitsSize(d: Image, d': Image, g: Geometry)
    requires Fits(d, g) && Fits(d', g)
    ensures |d'| == |d|
  {
  }

  /** What is shown does not depend on cursor, position and size. */
  lemma SameShown(d: Image, g: Geometry, s: Open, t: Open)
    requires Fits(d, g) && g.partitionStart + s.bufferSector < |d|
    requires s.dirty == t.dirty && s.bufferSector == t.bufferSector && s.buffer == t.buffer
    ensures Shown(d, g, s) == Shown(d, g, t)
  {
  }

  /** Where the shifted view wants the sector that is on the disk, the driver reads it. */
  lemma LoadedAhead(g: Geometry, s: Open, shift: nat, base: nat, v: Open)
    requires CursorAhead(g, s, shift, base) && v == Shifted(s, Ahead(g.sectorsPerCluster, shift), base)
    ensures shift == 0 ==> v == s
    ensures v.position % 512 == s.position % 512
    ensures shift > 0 ==> s.position % 512 == 0 || s.bufferSector != 0
    ensures shift > 0 && v.position < v.fileSize ==> s.position < s.fileSize
  {
    SameOffsets(g, s, shift, base);
    hide TargetSector, Ahead;
  }

  lemma CopiedAhead(g: Geometry, s: Open, s': Open, shift: nat, base: nat, data: seq<byte>)
    requires CursorAhead(g, s, shift, base) && s.position % 512 + |data| <= 512
    requires s' == s.(dirty := s'.dirty, buffer := s'.buffer, bufferSector := s'.bufferSector) && s'.bufferSector != 0
    ensures var ahead := Ahead(g.sectorsPerCluster, shift);
      var v := Shifted(s, ahead, base);
      && v.position % 512 == s.position % 512
      && Shifted(CopyStep(s', data), ahead, base)
         == CopyStep(v.(dirty := s'.dirty, buffer := s'.buffer, bufferSector := s'.bufferSector), data)
      && CopyStep(s', data).bufferSector == s'.bufferSector && CursorAhead(g, CopyStep(s', data), shift, base)
  {
    SameOffsets(g, s, shift, base);
    hide TargetSector, Ahead, Patch;
  }

  /** One buffer-sized piece of a write: the data are spliced into the content -- or, when the piece
      starts in the middle of a sector at the end of the file and no sector is in the buffer, into
      the content with the bytes before it in that sector zeroed.  The rest of the disk is as it
      was. */
  lemma ChunkKeeps(d: Image, g: Geometry, s: Open, cs: seq<nat>, content: seq<byte>, data: seq<byte>)
    requires Core(d, g, s, cs, content) && AtByte(g, s, cs)
    requires data != [] && s.position % 512 + |data| <= 512
    ensures g.partitionStart + TargetSector(g, s) < |d| && s.position <= |content| == s.fileSize
    ensures var (d', s') := LoadStep(d, g, s);
      var ready := s.position % 512 == 0 || s.bufferSector != 0 || s.position < s.fileSize;
      && Refines(d', g, CopyStep(s', data), cs, Splice(WriteBase(content, s.position, ready), s.position, data))
      && CopyStep(s', data).bufferSector != 0
      && OnlyFile(d, d', g, cs) && FatOnlyFile(d, d', g)
  {
    hide *;
    CoreParts(d, g, s, cs, content);
    NoShift(g, s);
    ChunkAhead(d, g, s, 0, s.fileSize, cs, content, data);
    var (d', s') := LoadStep(d, g, s);
    var t := CopyStep(s', data);
    SameOffsets(g, t, 0, s.fileSize);
  }

  lemma NoShift(g: Geometry, s: Open)
    requires g.sectorsPerCluster > 0 && s.position <= s.fileSize
    ensures CursorAhead(g, s, 0, s.fileSize) && Shifted(s, Ahead(g.sectorsPerCluster, 0), s.fileSize) == s
  {
    assert Ahead(g.sectorsPerCluster, 0) == 0;
  }

  /** One round of fat32_write's loop, wherever the cursor is. */
  lemma RoundAhead(d0: Image, g: Geometry, cs0: seq<nat>, d: Image, s: Open, cs: seq<nat>, content: seq<byte>,
                   d1: Image, s1: Open, cs1: seq<nat>, data: seq<byte>, shift: nat, base: nat)
    requires CursorAhead(g, s, shift, base) && s1 == s.(current := s1.current)
    requires Writing(d0, g, cs0, d, Shifted(s, Ahead(g.sectorsPerCluster, shift), base), cs, content)
    requires Advanced(d, d1, g, Shifted(s, Ahead(g.sectorsPerCluster, shift), base),
                      Shifted(s1, Ahead(g.sectorsPerCluster, shift), base), cs, cs1, content, true)
    requires data != [] && s.position % 512 + |data| <= 512
    ensures Fits(d1, g) && g.partitionStart + s1.bufferSector < |d1| && g.partitionStart + TargetSector(g, s1) < |d1|
    ensures var v, (d2, s2) := Shifted(s, Ahead(g.sectorsPerCluster, shift), base), LoadStep(d1, g, s1);
      var ready := v.position % 512 == 0 || v.bufferSector != 0 || v.position < v.fileSize;
      && s2.position == s.position && s2.fileSize == s.fileSize && CopyStep(s2, data).bufferSector != 0
      && v.position <= |content| == v.fileSize && CursorAhead(g, CopyStep(s2, data), shift, base)
      && Writing(d0, g, cs0, d2, Shifted(CopyStep(s2, data), Ahead(g.sectorsPerCluster, shift), base), cs1,
                 Splice(WriteBase(content, v.position, ready), v.position, data))
  {
    hide *;
    var ahead := Ahead(g.sectorsPerCluster, shift);
    var v, v1 := Shifted(s, ahead, base), Shifted(s1, ahead, base);
    SameOffsets(g, s, shift, base);
    StaysAhead(g, s, shift, base, s1.current);
    SameOffsets(g, s1, shift, base);
    ShiftedCursor(s, ahead, base, s1.current);
    WritingAdvanced(d0, g, cs0, d, v, cs, content, d1, v1, cs1);
    AdvancedOk(d, d1, g, v, v1, cs, cs1, content);
    ChunkAhead(d1, g, s1, shift, base, cs1, content, data);
    var (d2, s2) := LoadStep(d1, g, s1);
    LoadFields(d1, g, s1);
    CopiedAhead(g, s1, s2, shift, base, data);
    AfterCopy(g, v, v1, s2, data, |cs1|, |cs0|);
    var ready := v.position % 512 == 0 || v.bufferSector != 0 || v.position < v.fileSize;
    WritingLoaded(d0, g, cs0, d1, cs1, d2, Shifted(CopyStep(s2, data), ahead, base),
                  Splice(WriteBase(content, v.position, ready), v.position, data));
  }

  /** The cursor stands in the cluster of the bytes just copied. */
  lemma AfterCopy(g: Geometry, v: Open, v1: Open, s: Open, data: seq<byte>, n: nat, n0: nat)
    requires g.sectorsPerCluster > 0 && v1 == v.(current := v1.current) && data != [] && v.position % 512 + |data| <= 512
    requires n == Max(n0, ClusterOf(g.sectorsPerCluster, v.position / 512) + 1)
    ensures var t := CopyStep(v1.(dirty := s.dirty, buffer := s.buffer, bufferSector := s.bufferSector), data);
      n == Max(n0, CursorIndex(g.sectorsPerCluster, t.position) + 1)
  {
    CursorAfter(g.sectorsPerCluster, v.position, |data|);
    hide CursorIndex, ClusterOf, Patch;
  }

  lemma FailedAhead(d0: Image, g: Geometry, cs0: seq<nat>, d: Image, s: Open, cs: seq<nat>, content: seq<byte>, ahead: nat, base: nat)
    requires Failed(d0, g, cs0, d, Shifted(s, ahead, base), cs, content)
    ensures Failed(d0, g, cs0, d, s, cs, content)
  {
    hide FatOf, OnlyFile, InFile, Distinct, AllInRange, IsFree, Holds, FreeList;
  }

  lemma AdvancedOk(d: Image, d': Image, g: Geometry, s: Open, s': Open, cs: seq<nat>, cs': seq<nat>, content: seq<byte>)
    requires Advanced(d, d', g, s, s', cs, cs', content, true)
    ensures Fits(d', g) && s' == s.(current := s'.current) && g.partitionStart + s'.bufferSector < |d'|
    ensures Core(d', g, s', cs', content) && AtByte(g, s', cs')
    ensures s.position <= |content| == s.fileSize
  {
    hide IsChain, FatOf, Holds, FreeList, GrowStep, ClusterOf, Lba;
  }

  lemma LoadFields(d: Image, g: Geometry, s: Open)
    requires Fits(d, g) && g.partitionStart + s.bufferSector < |d| && g.partitionStart + TargetSector(g, s) < |d|
    ensures var s' := LoadStep(d, g, s).1;
      s' == s.(dirty := s'.dirty, buffer := s'.buffer, bufferSector := s'.bufferSector)
  {
  }

  lemma WritingLoaded(d0: Image, g: Geometry, cs0: seq<nat>, d1: Image, cs: seq<nat>, d2: Image, s: Open, content: seq<byte>)
    requires Fits(d0, g) && Fits(d1, g)
    requires Extended(FatOf(d0, g), cs0, FatOf(d1, g), cs) && OnlyFile(d0, d1, g, cs)
    requires Refines(d2, g, s, cs, content) && OnlyFile(d1, d2, g, cs) && FatOnlyFile(d1, d2, g)
    requires |cs| == Max(|cs0|, CursorIndex(g.sectorsPerCluster, s.position) + 1)
    ensures Writing(d0, g, cs0, d2, s, cs, content)
  {
    hide FatOf, Extended, InFile, Core, CursorIndex;
    SameFats(d1, d2, g);
    OnlyFileTrans(d0, d1, d2, g, cs, cs);
  }

  /** After a write that could not grow: all free clusters are linked to the file's, in order, and the
      last one is marked bad; they hold the given content; and no other cluster, and no sector but
      the file's own and words of clusters in the FATs, has changed. */
  ghost predicate Failed(d0: Image, g: Geometry, cs0: seq<nat>, d: Image, s: Open, cs: seq<nat>, content: seq<byte>) {
    && Fits(d0, g) && Fits(d, g) && cs != [] && AllInRange(cs) && Distinct(cs)
    && cs == cs0 + FreeList(FatOf(d0, g)) && MarkedBad(FatOf(d, g), cs)
    && (forall c | c in cs :: c in cs0 || IsFree(FatOf(d0, g), c))
    && (forall c: nat | c < 127006 && c !in cs :: FatOf(d, g)[c] == FatOf(d0, g)[c])
    && OnlyFile(d0, d, g, cs)
    && g.partitionStart + s.bufferSector < |d|
    && (s.dirty ==> s.bufferSector != 0 && InFile(g, cs, g.partitionStart + s.bufferSector))
    && Holds(Shown(d, g, s), g, cs, content)
  }

  /** A chain but for its end, which is the bad-cluster mark. */
  ghost predicate MarkedBad(f: Fat, cs: seq<nat>)
    requires cs != [] && AllInRange(cs)
  {
    (forall i | 0 <= i < |cs| - 1 :: f[cs[i]] == cs[i + 1]) && f[cs[|cs| - 1]] == 0x0FFF_FFF7
  }

  /** A write that cannot grow has used up every free cluster, and stands at the end of the chain. */
  lemma WritingFails(d0: Image, g: Geometry, cs0: seq<nat>, d: Image, s: Open, cs: seq<nat>, content: seq<byte>,
                     d1: Image, s1: Open, cs1: seq<nat>, end: nat)
    requires Writing(d0, g, cs0, d, s, cs, content)
    requires Advanced(d, d1, g, s, s1, cs, cs1, content, false)
    requires end > s.position
    ensures Fits(d0, g) && CursorIndex(g.sectorsPerCluster, end) + 1 > |cs0| + |FreeList(FatOf(d0, g))|
    ensures cs1 == cs && Failed(d0, g, cs0, d1, s1, cs, content) && s1.position == Capacity(g, cs)
  {
    hide *;
    WritingShape(d0, g, cs0, d, s, cs, content);
    FailedStep(d0, g, cs0, d, s, cs, content, d1, s1, cs1, end);
    OnlyFileFats(d0, d, d1, g, cs);
    GrowOnFullMarks(FatOf(d, g), cs[|cs| - 1]);
    MarkTail(FatOf(d, g), cs);
    WritingTakes(d0, g, cs0, d, s, cs, content);
    assert cs + [] == cs;
    FailedHolds(d0, g, cs0, d, s, cs, content, d1, s1);
    AtCapacity(d0, g, cs0, d, s, cs, content);
    MakeFailed(d0, g, cs0, d, d1, s, s1, cs, content);
  }

  /** What a failing cluster step says. */
  lemma FailedStep(d0: Image, g: Geometry, cs0: seq<nat>, d: Image, s: Open, cs: seq<nat>, content: seq<byte>,
                   d1: Image, s1: Open, cs1: seq<nat>, end: nat)
    requires Writing(d0, g, cs0, d, s, cs, content)
    requires Advanced(d, d1, g, s, s1, cs, cs1, content, false)
    requires end > s.position
    ensures Fits(d0, g) && CursorIndex(g.sectorsPerCluster, end) + 1 > |cs0| + |FreeList(FatOf(d0, g))|
    ensures Fits(d, g) && FatOnly(d, d1, g) && cs1 == cs != [] && AllInRange(cs) && InRange(cs[|cs| - 1])
    ensures FreeList(FatOf(d, g)) == [] && FatOf(d1, g) == GrowStep(FatOf(d, g), cs[|cs| - 1]).0
    ensures s1 == s.(current := s1.current)
    ensures g.sectorsPerCluster > 0 && ClusterOf(g.sectorsPerCluster, s.position / 512) == |cs|
  {
    ClusterMono(g.sectorsPerCluster, s.position / 512, (end - 1) / 512);
    hide ClusterOf, FatOf, FreeList, Core, GrowStep, FatOnly, OnlyFile, IsChain;
    assert FreeList(FatOf(d0, g))[|cs| - |cs0|..] == [];
  }

  lemma MarkTail(f: Fat, cs: seq<nat>)
    requires IsChain(f, cs) && AllInRange(cs) && InRange(cs[|cs| - 1])
    ensures MarkedBad(f[cs[|cs| - 1] := BAD_CLUSTER], cs)
  {
  }

  /** A change of FAT sectors does not touch what the file shows. */
  lemma FailedHolds(d0: Image, g: Geometry, cs0: seq<nat>, d: Image, s: Open, cs: seq<nat>, content: seq<byte>, d1: Image, s1: Open)
    requires Writing(d0, g, cs0, d, s, cs, content) && FatOnly(d, d1, g) && s1 == s.(current := s1.current)
    ensures Fits(d1, g) && g.partitionStart + s1.bufferSector < |d1| && Holds(Shown(d1, g, s1), g, cs, content)
  {
    hide *;
    WritingRefines(d0, g, cs0, d, s, cs, content);
    RefinesCore(d, g, s, cs, content);
    CoreParts(d, g, s, cs, content);
    ShownFatOnly(d, d1, g, s, cs, content);
    HoldsFatOnly(Shown(d, g, s), Shown(d1, g, s), g, cs, content);
    SameShown(d1, g, s, s1);
  }

  lemma RefinesCore(d: Image, g: Geometry, s: Open, cs: seq<nat>, content: seq<byte>)
    requires Refines(d, g, s, cs, content)
    ensures Core(d, g, s, cs, content)
  {
    hide Core;
  }

  lemma AtCapacity(d0: Image, g: Geometry, cs0: seq<nat>, d: Image, s: Open, cs: seq<nat>, content: seq<byte>)
    requires Writing(d0, g, cs0, d, s, cs, content) && g.sectorsPerCluster > 0
    requires ClusterOf(g.sectorsPerCluster, s.position / 512) == |cs|
    ensures s.position == Capacity(g, cs)
  {
    CapacityBound(g, cs, s.position);
    hide FatOf, IsChain, ByteAt, ClusterOf, Lba, Capacity, CursorIndex, OnlyFile, Extended;
  }

  lemma MakeFailed(d0: Image, g: Geometry, cs0: seq<nat>, d: Image, d1: Image, s: Open, s1: Open, cs: seq<nat>, content: seq<byte>)
    requires Fits(d0, g) && Fits(d, g) && cs != [] && AllInRange(cs) && Distinct(cs)
    requires forall c | c in cs :: c in cs0 || IsFree(FatOf(d0, g), c)
    requires forall c: nat | c < 127006 && c !in cs :: FatOf(d, g)[c] == FatOf(d0, g)[c]
    requires OnlyFile(d0, d1, g, cs) && Fits(d1, g) && FatOf(d1, g) == FatOf(d, g)[cs[|cs| - 1] := BAD_CLUSTER]
    requires s1 == s.(current := s1.current) && g.partitionStart + s.bufferSector < |d|
    requires s.dirty ==> s.bufferSector != 0 && InFile(g, cs, g.partitionStart + s.bufferSector)
    requires cs == cs0 + FreeList(FatOf(d0, g)) && MarkedBad(FatOf(d1, g), cs)
    requires g.partitionStart + s1.bufferSector < |d1| && Holds(Shown(d1, g, s1), g, cs, content)
    ensures Failed(d0, g, cs0, d1, s1, cs, content)
  {
    hide FatOf, OnlyFile, InFile, Distinct, FreeList, MarkedBad, Holds, Shown;
    assert cs[|cs| - 1] in cs && InRange(cs[|cs| - 1]);
  }

  /** What a file being written looks like from outside. */
  lemma WritingShape(d0: Image, g: Geometry, cs0: seq<nat>, d: Image, s: Open, cs: seq<nat>, content: seq<byte>)
    requires Writing(d0, g, cs0, d, s, cs, content)
    ensures Fits(d0, g) && Fits(d, g) && cs != [] && AllInRange(cs) && Distinct(cs) && IsChain(FatOf(d, g), cs)
    ensures forall c | c in cs :: c in cs0 || IsFree(FatOf(d0, g), c)
    ensures forall c: nat | c < 127006 && c !in cs :: FatOf(d, g)[c] == FatOf(d0, g)[c]
    ensures OnlyFile(d0, d, g, cs)
    ensures g.partitionStart + s.bufferSector < |d|
    ensures s.dirty ==> s.bufferSector != 0 && InFile(g, cs, g.partitionStart + s.bufferSector)
  {
    hide FatOf, Holds, ClusterOf, Lba, FreeList, CursorIndex;
    if s.dirty { LbaInFile(g, cs, (s.position - 1) / 512); }
    var more := FreeList(FatOf(d0, g))[..|cs| - |cs0|];
    assert forall c | c in more :: c in FreeList(FatOf(d0, g));
  }

  lemma OnlyFileFats(d0: Image, d: Image, d1: Image, g: Geometry, cs: seq<nat>)
    requires OnlyFile(d0, d, g, cs) && FatOnly(d, d1, g)
    ensures OnlyFile(d0, d1, g, cs) && Fits(d1, g)
  {
    FatKeptTrans(d0, d, d1, g);
    hide InFile, FatKept;
  }

  lemma WritingExtends(d0: Image, g: Geometry, cs0: seq<nat>, d: Image, s: Open, cs: seq<nat>, content: seq<byte>)
    requires Writing(d0, g, cs0, d, s, cs, content)
    ensures cs0 <= cs
  {
    hide FatOf, FreeList, Refines, OnlyFile, CursorIndex;
  }

  /** A write that fails after writes that did not. */
  lemma FailedTrans(d0: Image, g: Geometry, cs0: seq<nat>, d1: Image, s1: Open, cs1: seq<nat>, content: seq<byte>,
                    d2: Image, s2: Open, cs2: seq<nat>, now: seq<byte>)
    requires Writing(d0, g, cs0, d1, s1, cs1, content) && Failed(d1, g, cs1, d2, s2, cs2, now) && cs1 <= cs2
    ensures Failed(d0, g, cs0, d2, s2, cs2, now)
  {
    WritingShape(d0, g, cs0, d1, s1, cs1, content);
    WritingTakes(d0, g, cs0, d1, s1, cs1, content);
    FailedFields(d1, g, cs1, d2, s2, cs2, now);
    hide *;
    FailedClusters(FatOf(d0, g), FatOf(d1, g), FatOf(d2, g), cs0, cs1, cs2);
    OnlyFileTrans(d0, d1, d2, g, cs1, cs2);
    FailedFrom(d0, g, cs0, d2, s2, cs2, now);
  }

  lemma FailedFields(d0: Image, g: Geometry, cs0: seq<nat>, d: Image, s: Open, cs: seq<nat>, content: seq<byte>)
    requires Failed(d0, g, cs0, d, s, cs, content)
    ensures Fits(d0, g) && Fits(d, g) && cs != [] && AllInRange(cs) && Distinct(cs)
    ensures cs == cs0 + FreeList(FatOf(d0, g)) && MarkedBad(FatOf(d, g), cs)
    ensures forall c | c in cs :: c in cs0 || IsFree(FatOf(d0, g), c)
    ensures forall c: nat | c < 127006 && c !in cs :: FatOf(d, g)[c] == FatOf(d0, g)[c]
    ensures OnlyFile(d0, d, g, cs) && g.partitionStart + s.bufferSector < |d|
    ensures s.dirty ==> s.bufferSector != 0 && InFile(g, cs, g.partitionStart + s.bufferSector)
    ensures Holds(Shown(d, g, s), g, cs, content)
  {
    hide FatOf, IsChain, InFile, Distinct, OnlyFile, FreeList, MarkedBad, Holds, Shown, IsFree, AllInRange;
  }

  lemma FailedFrom(d0: Image, g: Geometry, cs0: seq<nat>, d: Image, s: Open, cs: seq<nat>, content: seq<byte>)
    requires Fits(d0, g) && Fits(d, g) && cs != [] && AllInRange(cs) && Distinct(cs)
    requires cs == cs0 + FreeList(FatOf(d0, g)) && MarkedBad(FatOf(d, g), cs)
    requires forall c | c in cs :: c in cs0 || IsFree(FatOf(d0, g), c)
    requires forall c: nat | c < 127006 && c !in cs :: FatOf(d, g)[c] == FatOf(d0, g)[c]
    requires OnlyFile(d0, d, g, cs) && g.partitionStart + s.bufferSector < |d|
    requires s.dirty ==> s.bufferSector != 0 && InFile(g, cs, g.partitionStart + s.bufferSector)
    requires Holds(Shown(d, g, s), g, cs, content)
    ensures Failed(d0, g, cs0, d, s, cs, content)
  {
    hide FatOf, IsChain, InFile, Distinct, OnlyFile, FreeList, MarkedBad, Holds, Shown, IsFree, AllInRange;
  }

  lemma WritingTakes(d0: Image, g: Geometry, cs0: seq<nat>, d: Image, s: Open, cs: seq<nat>, content: seq<byte>)
    requires Writing(d0, g, cs0, d, s, cs, content)
    ensures Fits(d0, g) && Fits(d, g) && cs + FreeList(FatOf(d, g)) == cs0 + FreeList(FatOf(d0, g))
  {
    hide FatOf, FreeList, Refines, OnlyFile, CursorIndex;
    RefinesFits(d, g, s, cs, content);
    var n := |cs| - |cs0|;
    assert FreeList(FatOf(d0, g)) == FreeList(FatOf(d0, g))[..n] + FreeList(FatOf(d0, g))[n..];
  }

  lemma RefinesFits(d: Image, g: Geometry, s: Open, cs: seq<nat>, content: seq<byte>)
    requires Refines(d, g, s, cs, content)
    ensures Fits(d, g)
  {
    hide FatOf, IsChain, Holds, ClusterOf, Lba, Shown, CursorIndex;
  }

  lemma FailedClusters(f0: Fat, f1: Fat, f2: Fat, cs0: seq<nat>, cs1: seq<nat>, cs2: seq<nat>)
    requires forall c | c in cs1 :: c in cs0 || IsFree(f0, c)
    requires forall c: nat | c < 127006 && c !in cs1 :: f1[c] == f0[c]
    requires forall c | c in cs2 :: c in cs1 || IsFree(f1, c)
    requires forall c: nat | c < 127006 && c !in cs2 :: f2[c] == f1[c]
    requires cs1 <= cs2
    ensures forall c | c in cs2 :: c in cs0 || IsFree(f0, c)
    ensures forall c: nat | c < 127006 && c !in cs2 :: f2[c] == f0[c]
  {
    assert forall c | c in cs1 :: c in cs2;
  }

  lemma GrowOnFullMarks(f: Fat, tail: nat)
    requires InRange(tail) && FreeList(f) == []
    ensures GrowStep(f, tail).0 == f[tail := BAD_CLUSTER]
  {
    FindFreeIsNotZero(f);
  }

  // ----- the content after a write -----

  /** The content after writing `data` with a handle in state s; WriteIsSplice says when it is a
      plain splice. */
  function WriteResult(content: seq<byte>, s: Open, data: seq<byte>): (r: seq<byte>)
    requires s.position <= |content| == s.fileSize
  {
    if data == [] then content
    else
      var ready := s.position % 512 == 0 || s.bufferSector != 0 || s.position < s.fileSize;
      Splice(WriteBase(content, s.position, ready), s.position, data)
  }

  /** A write replaces the bytes at the position exactly when it need not start from a zeroed buffer
      in the middle of a sector, or the bytes it would forget are zero anyway: a sector is in the
      buffer, or the position is before the end of the file, or the sector holds only zeros up to
      the position (so at a multiple of 512). */
  lemma WriteIsSplice(content: seq<byte>, s: Open, data: seq<byte>)
    requires s.position <= |content| == s.fileSize && data != []
    ensures WriteResult(content, s, data) == Splice(content, s.position, data) <==>
      || s.bufferSector != 0 || s.position < s.fileSize
      || forall i | s.position - s.position % 512 <= i < s.position :: content[i] == 0
  {
    var pos := s.position;
    var start := pos - pos % 512;
    var r := WriteResult(content, s, data);
    if s.bufferSector == 0 && pos == s.fileSize {
      assert forall i | start <= i < pos :: r[i] == 0;
      assert forall i | 0 <= i < start :: r[i] == content[i];
      if forall i | start <= i < pos :: content[i] == 0 {
        assert WriteBase(content, pos, pos % 512 == 0) == content;
      } else {
        var i :| start <= i < pos && content[i] != 0;
        assert Splice(content, pos, data)[i] == content[i];
      }
    }
  }

  /** Appending one byte to a one-byte file through a fresh buffer loses the byte that was there. */
  lemma AppendForgets(s: Open)
    requires s.position == s.fileSize == 1 && s.bufferSector == 0
    ensures WriteResult([7], s, [8]) == [0, 8]
    ensures Splice([7], 1, [8]) == [7, 8]
  {
    assert 1 % 512 == 1;
    assert WriteBase([7], 1, false) == [0];
  }

  /** One more piece of the data. */
  lemma WriteResultStep(content: seq<byte>, s0: Open, data: seq<byte>, written: nat, n: nat, now: seq<byte>, s: Open)
    requires s0.position <= |content| == s0.fileSize && written + n <= |data| && n > 0
    requires now == WriteResult(content, s0, data[..written])
    requires s.position == s0.position + written <= |now|
    requires if written == 0 then s == s0 else s.bufferSector != 0
    ensures var ready := s.position % 512 == 0 || s.bufferSector != 0 || s.position < s.fileSize;
      var piece := data[written..written + n];
      && (ready || s.position == |now|)
      && Splice(WriteBase(now, s.position, ready), s.position, piece) == WriteResult(content, s0, data[..written + n])
  {
    var piece := data[written..written + n];
    assert data[..written + n] == data[..written] + piece;
    if written == 0 {
      assert data[..n] == piece;
    } else {
      var ready := s0.position % 512 == 0 || s0.bufferSector != 0 || s0.position < s0.fileSize;
      SpliceTwice(WriteBase(content, s0.position, ready), s0.position, data[..written], piece);
    }
  }

  lemma WritingRefines(d0: Image, g: Geometry, cs0: seq<nat>, d: Image, s: Open, cs: seq<nat>, content: seq<byte>)
    requires Writing(d0, g, cs0, d, s, cs, content)
    ensures Refines(d, g, s, cs, content) && |content| == s.fileSize && s.position <= |content|
  {
  }

  /** A write that went through fitted the free clusters. */
  lemma WritingFitsFree(d0: Image, g: Geometry, cs0: seq<nat>, d: Image, s: Open, cs: seq<nat>, content: seq<byte>)
    requires Writing(d0, g, cs0, d, s, cs, content)
    ensures CursorIndex(g.sectorsPerCluster, s.position) + 1 <= |cs0| + |FreeList(FatOf(d0, g))|
  {
    hide FatOf, FreeList, CursorIndex, Refines, OnlyFile;
  }

  // ----- reading -----

  /** A clean handle with its cursor `shift` clusters ahead of where reading expects it (0 when all
      is well). */
  ghost predicate Reading(d: Image, g: Geometry, s: Open, cs: seq<nat>, shift: nat) {
    && OnDisk(d, g, cs) && g.sectorsPerCluster > 0 && IsChain(FatOf(d, g), cs) && !s.dirty
    && CursorIndex(g.sectorsPerCluster, s.position) + shift < |cs|
    && s.current == cs[CursorIndex(g.sectorsPerCluster, s.position) + shift]
    && s.position + Ahead(g.sectorsPerCluster, shift) <= Capacity(g, cs)
    && (s.bufferSector != 0 ==>
          && s.position > 0
          && ClusterOf(g.sectorsPerCluster, (s.position - 1) / 512 + shift * g.sectorsPerCluster) < |cs|
          && g.partitionStart + s.bufferSector == Lba(g, cs, (s.position - 1) / 512 + shift * g.sectorsPerCluster) < |d|
          && s.buffer == d[g.partitionStart + s.bufferSector])
  }

  /** A clean open file is being read with no shift. */
  lemma CleanIsReading(d: Image, g: Geometry, s: Open, cs: seq<nat>, content: seq<byte>)
    requires Refines(d, g, s, cs, content) && !s.dirty
    ensures Reading(d, g, s, cs, 0) && Holds(d, g, cs, content)
  {
    hide ClusterOf, Lba, CursorIndex, FatOf, IsChain;
  }

  lemma ReadingIsClean(d: Image, g: Geometry, s: Open, cs: seq<nat>, content: seq<byte>)
    requires Reading(d, g, s, cs, 0) && Holds(d, g, cs, content)
    requires s.first == cs[0] && |content| == s.fileSize && s.position <= s.fileSize
    requires g.partitionStart + s.bufferSector < |d|
    ensures Refines(d, g, s, cs, content)
  {
    hide ClusterOf, Lba, CursorIndex, FatOf, IsChain;
  }

  /** The cluster step of fat32_read: it breaks off exactly at the end of the chain. */
  lemma ReadAdvance(d: Image, g: Geometry, s: Open, cs: seq<nat>, shift: nat)
    requires Reading(d, g, s, cs, shift)
    ensures var next := if AtBoundary(g, s) then Entry(FatOf(d, g), s.current) else s.current;
      var i := ClusterOf(g.sectorsPerCluster, s.position / 512) + shift;
      && (AtBoundary(g, s) && next >= LAST_CLUSTER <==> i == |cs|) && i <= |cs|
      && (i < |cs| ==> next == cs[i])
      && (i == |cs| ==> s.position + Ahead(g.sectorsPerCluster, shift) == Capacity(g, cs))
  {
    hide *;
    var m := g.sectorsPerCluster;
    ReadingCursor(d, g, s, cs, shift);
    BoundaryAdvance(g, s);
    NextOnChain(FatOf(d, g), cs, CursorIndex(m, s.position) + shift);
    ByteIndex(m, s.position, shift);
    CapacityBound(g, cs, s.position + Ahead(m, shift));
    ShiftedSector(m, s.position / 512, shift);
  }

  /** The place of the cursor while reading. */
  lemma ReadingCursor(d: Image, g: Geometry, s: Open, cs: seq<nat>, shift: nat)
    requires Reading(d, g, s, cs, shift)
    ensures OnDisk(d, g, cs) && Fits(d, g) && g.sectorsPerCluster > 0 && IsChain(FatOf(d, g), cs)
    ensures CursorIndex(g.sectorsPerCluster, s.position) + shift < |cs|
    ensures s.current == cs[CursorIndex(g.sectorsPerCluster, s.position) + shift]
    ensures InRange(s.current) && s.current < LAST_CLUSTER
    ensures s.position + Ahead(g.sectorsPerCluster, shift) <= Capacity(g, cs)
  {
    hide FatOf, CursorIndex, Capacity, ClusterOf, Lba;
  }

  lemma BoundaryAdvance(g: Geometry, s: Open)
    requires g.sectorsPerCluster > 0
    ensures ClusterOf(g.sectorsPerCluster, s.position / 512)
            == CursorIndex(g.sectorsPerCluster, s.position) + if AtBoundary(g, s) then 1 else 0
  {
    CursorAdvance(g.sectorsPerCluster, s.position);
    hide CursorIndex, ClusterOf;
  }

  /** The state after one piece of fat32_read. */
  function ReadStep(s: Open, current: nat, target: nat, sector: Sector, n: nat): Open {
    s.(current := current, buffer := sector, position := s.position + n,
       bufferSector := if s.position % 512 + n == 512 then 0 else target)
  }

  lemma ReadRound(d: Image, g: Geometry, s: Open, cs: seq<nat>, shift: nat, current: nat, n: nat)
    requires Reading(d, g, s, cs, shift) && 0 < n && s.position % 512 + n <= 512
    requires ClusterOf(g.sectorsPerCluster, s.position / 512) + shift < |cs|
    requires current == cs[ClusterOf(g.sectorsPerCluster, s.position / 512) + shift]
    ensures var target, off := TargetSector(g, s.(current := current)), s.position % 512;
      var start := s.position + Ahead(g.sectorsPerCluster, shift);
      && g.partitionStart + target < |d|
      && (target == s.bufferSector ==> s.buffer == d[g.partitionStart + target])
      && Slice(d, g, cs, start, n) == d[g.partitionStart + target][off..off + n]
      && start + n <= Capacity(g, cs)
      && Reading(d, g, ReadStep(s, current, target, d[g.partitionStart + target], n), cs, shift)
  {
    hide *;
    ReadingCursor(d, g, s, cs, shift);
    ReadingBuffer(d, g, s, cs, shift);
    ReadPiece(d, g, s.(current := current), cs, shift, n);
    CursorAfter(g.sectorsPerCluster, s.position, n);
    MakeReading(d, g, s, cs, shift, current, TargetSector(g, s.(current := current)), n);
  }

  lemma ReadingBuffer(d: Image, g: Geometry, s: Open, cs: seq<nat>, shift: nat)
    requires Reading(d, g, s, cs, shift)
    ensures !s.dirty
    ensures s.bufferSector != 0 ==> g.partitionStart + s.bufferSector < |d| && s.buffer == d[g.partitionStart + s.bufferSector]
  {
    hide FatOf, CursorIndex, Capacity, ClusterOf, IsChain;
  }

  /** The cursor stays in the cluster of the bytes just touched. */
  lemma CursorAfter(spc: nat, pos: nat, n: nat)
    requires spc > 0 && 0 < n && pos % 512 + n <= 512
    ensures (pos + n - 1) / 512 == pos / 512
    ensures CursorIndex(spc, pos + n) == ClusterOf(spc, pos / 512)
  {
    hide ClusterOf;
  }

  lemma MakeReading(d: Image, g: Geometry, s: Open, cs: seq<nat>, shift: nat, current: nat, target: nat, n: nat)
    requires OnDisk(d, g, cs) && Fits(d, g) && g.sectorsPerCluster > 0 && IsChain(FatOf(d, g), cs) && !s.dirty && n > 0
    requires CursorIndex(g.sectorsPerCluster, s.position + n) + shift < |cs|
    requires current == cs[CursorIndex(g.sectorsPerCluster, s.position + n) + shift]
    requires s.position + Ahead(g.sectorsPerCluster, shift) + n <= Capacity(g, cs)
    requires (s.position + n - 1) / 512 == s.position / 512
    requires ClusterOf(g.sectorsPerCluster, s.position / 512 + shift * g.sectorsPerCluster) < |cs|
    requires g.partitionStart + target == Lba(g, cs, s.position / 512 + shift * g.sectorsPerCluster) < |d|
    ensures Reading(d, g, ReadStep(s, current, target, d[g.partitionStart + target], n), cs, shift)
  {
    hide FatOf, IsChain, CursorIndex, Capacity, ClusterOf, Lba, Ahead, OnDisk;
  }

  /** What one round of fat32_read guarantees. */
  ghost predicate ReadDone(d: Image, g: Geometry, s: Open, s': Open, cs: seq<nat>, shift: nat, piece: seq<byte>, more: bool) {
    && OnDisk(d, g, cs)
    && var start := s.position + Ahead(g.sectorsPerCluster, shift);
    && piece == Slice(d, g, cs, start, |piece|) && start + |piece| <= Capacity(g, cs)
    && s'.position == s.position + |piece|
    && (more ==> Reading(d, g, s', cs, shift))
    && (!more ==> piece == [] && start == Capacity(g, cs))
  }

  lemma ReadEnds(d: Image, g: Geometry, s: Open, cs: seq<nat>, shift: nat, c: nat)
    requires Reading(d, g, s, cs, shift) && AtBoundary(g, s) && Entry(FatOf(d, g), s.current) >= LAST_CLUSTER
    ensures ReadDone(d, g, s, s.(current := c), cs, shift, [], false)
  {
    hide FatOf, IsChain, Capacity, ClusterOf, CursorIndex, Lba, ClusterOffset, Ahead;
    ReadAdvance(d, g, s, cs, shift);
  }

  lemma ReadGoesOn(d: Image, g: Geometry, s: Open, cs: seq<nat>, shift: nat, current: nat, n: nat)
    requires Reading(d, g, s, cs, shift) && 0 < n && s.position % 512 + n <= 512
    requires current == if AtBoundary(g, s) then Entry(FatOf(d, g), s.current) else s.current
    requires AtBoundary(g, s) ==> current < LAST_CLUSTER
    ensures var target, off := TargetSector(g, s.(current := current)), s.position % 512;
      && g.partitionStart + target < |d|
      && (target == s.bufferSector ==> s.buffer == d[g.partitionStart + target])
      && ReadDone(d, g, s, ReadStep(s, current, target, d[g.partitionStart + target], n), cs, shift,
                  d[g.partitionStart + target][off..off + n], true)
  {
    hide FatOf, IsChain, Capacity, ClusterOf, CursorIndex, Lba, TargetSector, ClusterOffset, Ahead;
    ReadAdvance(d, g, s, cs, shift);
    ReadRound(d, g, s, cs, shift, current, n);
  }
}
