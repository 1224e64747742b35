/** Whole uses of a file: seek then read, reading in pieces, any sequence of writes and a close,
    and truncation. */
module FileSessions {
  import opened Words
  import opened FatChains
  import opened FatRuns
  import opened Sectors
  import opened FatVolume
  import opened FileImages
  import opened FileSteps
  import opened DirEntries
  import opened Files

  // ----- seek -----

  /** After fat32_seek the cursor is where fat32_read expects it exactly when the position is not a
      nonzero multiple of the cluster size; there it is one cluster ahead. */
  lemma SeekCursor(d: Image, g: Geometry, s: Open, cs: seq<nat>, content: seq<byte>)
    requires Holds(d, g, cs, content) && IsChain(FatOf(d, g), cs) && s.position <= |content|
    requires ClusterOf(g.sectorsPerCluster, s.position / 512) < |cs|
    requires s.current == cs[ClusterOf(g.sectorsPerCluster, s.position / 512)]
    requires s.bufferSector == 0 && !s.dirty
    ensures AtCursor(g, s, cs) <==> !AtBoundary(g, s)
    ensures Reading(d, g, s, cs, if AtBoundary(g, s) then 1 else 0)
  {
    var m, shift := g.sectorsPerCluster, if AtBoundary(g, s) then 1 else 0;
    CursorAdvance(m, s.position);
    assert Distinct(cs);
    assert s.position + Ahead(m, shift) <= Capacity(g, cs) by {
      if AtBoundary(g, s) { NextClusterFits(g, cs, s.position); } else { assert Ahead(m, 0) == 0; }
    }
    hide ClusterOf, FatOf, IsChain, Capacity, Ahead, ClusterOffset, CursorIndex;
  }

  lemma NextClusterFits(g: Geometry, cs: seq<nat>, pos: nat)
    requires g.sectorsPerCluster > 0 && ClusterOffset(g.sectorsPerCluster, pos) == 0
    requires ClusterOf(g.sectorsPerCluster, pos / 512) < |cs|
    ensures pos + Ahead(g.sectorsPerCluster, 1) <= Capacity(g, cs)
  {
    var m := g.sectorsPerCluster;
    PositionParts(m, pos);
    var q := ClusterOf(m, pos / 512);
    SectorSplit(m, pos / 512);
    hide ClusterOf, WithinOf, ClusterOffset;
    MultiplesApart(m, q, |cs|);
    assert pos == q * m * 512;
  }

  /** Seek, then read: the bytes at the position, unless that is a nonzero multiple of the cluster
      size; then the bytes one cluster further on, up to the end of the chain. */
  method SeekAndRead(h: Handle, v: Volume, target: uint32, size: uint32, ghost cs: seq<nat>, ghost content: seq<byte>)
    returns (sought: bool, ok: bool, data: seq<byte>)
    requires h.IsFile(v, cs, content) && !h.bufferDirty && target + size < 0x1_0000_0000
    modifies h, h.buffer
    ensures sought <==> target <= |content| && ClusterOf(v.geo.sectorsPerCluster, target / 512) < |cs|
    ensures v.Valid() && OnDisk(v.disk[..], v.geo, cs)
    ensures var asked := if target + size > |content| then |content| - target else size;
      var boundary := target > 0 && v.geo.sectorsPerCluster > 0 && ClusterOffset(v.geo.sectorsPerCluster, target) == 0;
      && (sought && !boundary ==> data == content[target..target + asked])
      && (sought && boundary && target < |content| ==>
            var start := target + Ahead(v.geo.sectorsPerCluster, 1);
            && |data| == (if start + asked <= Capacity(v.geo, cs) then asked else Capacity(v.geo, cs) - start)
            && data == Slice(v.disk[..], v.geo, cs, start, |data|))
      && (sought && target == |content| ==> data == [])
  {
    hide *;
    h.FileFields(v, cs, content);
    ghost var d, s0 := v.disk[..], h.Now();
    data, ok := [], false;
    CoreFacts(d, v.geo, s0, cs, content);
    sought := h.Seek(v, target, cs);
    VolumeIs(v);
    if !sought { return; }
    h.Fields(v);
    BoundaryIs(v.geo, h.Now());
    SeekCursor(d, v.geo, h.Now(), cs, content);
    ghost var shift := if AtBoundary(v.geo, h.Now()) then 1 else 0;
    ok, data := h.Read(v, size, cs, shift);
    if shift == 0 && target < |content| {
      AheadNone(v.geo, cs, content);
      SliceOfContent(d, v.geo, cs, content, target, |data|);
    }
  }

  lemma AheadNone(g: Geometry, cs: seq<nat>, content: seq<byte>)
    requires |content| <= Capacity(g, cs)
    ensures Ahead(g.sectorsPerCluster, 0) == 0
    ensures |content| <= Capacity(g, cs)
  {
  }

  lemma CoreFacts(d: Image, g: Geometry, s: Open, cs: seq<nat>, content: seq<byte>)
    requires Refines(d, g, s, cs, content) && !s.dirty
    ensures Holds(d, g, cs, content) && OnDisk(d, g, cs) && |content| <= Capacity(g, cs)
    ensures IsChain(FatOf(d, g), cs) && cs != [] && s.first == cs[0]
    ensures |content| == s.fileSize && s.position <= |content|
  {
    hide FatOf, Capacity, ClusterOf;
  }

  // ----- reading in pieces -----

  function Sum(sizes: seq<uint32>): nat {
    if sizes == [] then 0 else Sum(sizes[..|sizes| - 1]) + sizes[|sizes| - 1]
  }

  /** Any split of a read into calls returns consecutive slices of the file. */
  method ReadInPieces(h: Handle, v: Volume, sizes: seq<uint32>, ghost cs: seq<nat>, ghost content: seq<byte>) returns (data: seq<byte>)
    requires h.IsFile(v, cs, content) && !h.bufferDirty
    requires h.position + Sum(sizes) < 0x1_0000_0000
    modifies h, h.buffer
    ensures h.IsFile(v, cs, content) && !h.bufferDirty
    ensures var p, n := old(h.position), Sum(sizes);
      && p <= |content|
      && data == content[p..if p + n <= |content| then p + n else |content|]
      && h.position == p + |data|
  {
    hide *;
    data := [];
    ghost var p := h.position;
    h.FileFields(v, cs, content);
    CoreFacts(v.disk[..], v.geo, h.Now(), cs, content);
    SumNone(sizes);
    for i := 0 to |sizes|
      invariant h.IsFile(v, cs, content) && !h.bufferDirty
      invariant data == content[p..if p + Sum(sizes[..i]) <= |content| then p + Sum(sizes[..i]) else |content|]
      invariant h.position == p + |data|
    {
      SumOne(sizes, i);
      SumMonotone(sizes, i + 1);
      h.FileFields(v, cs, content);
      var ok, piece := ReadPiece(h, v, sizes[i], cs, content);
      data := data + piece;
    }
    assert sizes[..|sizes|] == sizes;
  }

  lemma SumNone(sizes: seq<uint32>)
    ensures sizes[..0] == [] && Sum([]) == 0
  {
  }

  lemma SumOne(sizes: seq<uint32>, i: nat)
    requires i < |sizes|
    ensures Sum(sizes[..i + 1]) == Sum(sizes[..i]) + sizes[i]
  {
    assert sizes[..i + 1][..i] == sizes[..i];
  }

  lemma {:induction false} SumMonotone(sizes: seq<uint32>, i: nat)
    requires i <= |sizes|
    ensures Sum(sizes[..i]) <= Sum(sizes)
    decreases |sizes|
  {
    if i == |sizes| {
      assert sizes[..i] == sizes;
    } else {
      assert sizes[..|sizes| - 1][..i] == sizes[..i];
      SumMonotone(sizes[..|sizes| - 1], i);
    }
  }

  /** One read of an open file: the next bytes of its content. */
  method ReadPiece(h: Handle, v: Volume, size: uint32, ghost cs: seq<nat>, ghost content: seq<byte>) returns (ok: bool, data: seq<byte>)
    requires h.IsFile(v, cs, content) && !h.bufferDirty && h.position + size < 0x1_0000_0000
    modifies h`currentCluster, h`bufferSector, h`position, h.buffer
    ensures h.IsFile(v, cs, content)
    ensures ok <==> data != []
    ensures var p := old(h.position);
      p <= |content| && data == content[p..if p + size <= |content| then p + size else |content|] && h.position == p + |data|
  {
    hide ClusterOf, FatOf, IsChain, Capacity, Ahead, Slice, Reading, CursorIndex, Refines;
    ghost var d, s := v.disk[..], h.Now();
    CoreFacts(d, v.geo, s, cs, content);
    CleanIsReading(d, v.geo, s, cs, content);
    AheadNone(v.geo, cs, content);
    ok, data := h.Read(v, size, cs, 0);
    if s.position < |content| {
      SliceOfContent(d, v.geo, cs, content, s.position, |data|);
      ReadingFits2(d, v.geo, h.Now(), cs);
      ReadingIsClean(d, v.geo, h.Now(), cs, content);
    }
  }

  lemma ReadingFits2(d: Image, g: Geometry, s: Open, cs: seq<nat>)
    requires Reading(d, g, s, cs, 0)
    ensures g.partitionStart + s.bufferSector < |d|
  {
  }

  // ----- a sequence of writes -----

  lemma CursorMono(spc: nat, p: nat, q: nat)
    requires spc > 0 && p <= q
    ensures CursorIndex(spc, p) <= CursorIndex(spc, q)
  {
    if p > 0 { ClusterMono(spc, (p - 1) / 512, (q - 1) / 512); }
  }

  lemma ExtendedTrans(f: Fat, cs: seq<nat>, f1: Fat, cs1: seq<nat>, f2: Fat, cs2: seq<nat>)
    requires Extended(f, cs, f1, cs1) && Extended(f1, cs1, f2, cs2)
    ensures Extended(f, cs, f2, cs2)
  {
    hide *;
    ExtendedParts(f, cs, f1, cs1);
    ExtendedParts(f1, cs1, f2, cs2);
    TakeTwice(FreeList(f), |cs1| - |cs|, |cs2| - |cs1|);
    TakenTogether(cs, FreeList(f)[..|cs1| - |cs|], FreeList(f1)[..|cs2| - |cs1|], cs1, cs2);
    MakeExtended(f, cs, f2, cs2);
  }

  lemma TakenTogether(cs: seq<nat>, a: seq<nat>, b: seq<nat>, cs1: seq<nat>, cs2: seq<nat>)
    requires cs1 == cs + a && cs2 == cs1 + b
    ensures cs2 == cs + (a + b) && forall c | c in cs1 :: c in cs2
  {
  }

  lemma ExtendedParts(f: Fat, cs: seq<nat>, f': Fat, cs': seq<nat>)
    requires Extended(f, cs, f', cs')
    ensures |cs| <= |cs'| <= |cs| + |FreeList(f)|
    ensures cs' == cs + FreeList(f)[..|cs'| - |cs|] && FreeList(f') == FreeList(f)[|cs'| - |cs|..]
    ensures forall c: nat | c < 127006 && c !in cs' :: f'[c] == f[c]
  {
    hide FreeList;
  }

  lemma MakeExtended(f: Fat, cs: seq<nat>, f': Fat, cs': seq<nat>)
    requires |cs| <= |cs'| <= |cs| + |FreeList(f)|
    requires cs' == cs + FreeList(f)[..|cs'| - |cs|] && FreeList(f') == FreeList(f)[|cs'| - |cs|..]
    requires forall c: nat | c < 127006 && c !in cs' :: f'[c] == f[c]
    ensures Extended(f, cs, f', cs')
  {
    hide FreeList;
  }

  lemma TakeTwice<T>(s: seq<T>, i: nat, j: nat)
    requires i + j <= |s|
    ensures s[i..][j..] == s[i + j..] && s[..i] + s[i..][..j] == s[..i + j]
  {
  }

  /** Two writes one after the other. */
  lemma WritingTrans(d0: Image, g: Geometry, cs0: seq<nat>, d1: Image, s1: Open, cs1: seq<nat>, c1: seq<byte>,
                     d2: Image, s2: Open, cs2: seq<nat>, c2: seq<byte>)
    requires Writing(d0, g, cs0, d1, s1, cs1, c1) && Writing(d1, g, cs1, d2, s2, cs2, c2)
    requires s1.position <= s2.position
    ensures Writing(d0, g, cs0, d2, s2, cs2, c2)
  {
    hide FatOf, FreeList, InFile, Refines, CursorIndex;
    ExtendedTrans(FatOf(d0, g), cs0, FatOf(d1, g), cs1, FatOf(d2, g), cs2);
    assert cs1 <= cs2;
    OnlyFileTrans(d0, d1, d2, g, cs1, cs2);
    CursorMono(g.sectorsPerCluster, s1.position, s2.position);
  }

  function Flatten(chunks: seq<seq<byte>>): seq<byte> {
    if chunks == [] then [] else Flatten(chunks[..|chunks| - 1]) + chunks[|chunks| - 1]
  }

  lemma {:induction false} FlattenPrefix(chunks: seq<seq<byte>>, i: nat)
    requires i <= |chunks|
    ensures Flatten(chunks[..i]) <= Flatten(chunks)
    decreases |chunks|
  {
    if i == |chunks| {
      assert chunks[..i] == chunks;
    } else {
      assert chunks[..|chunks| - 1][..i] == chunks[..i];
      FlattenPrefix(chunks[..|chunks| - 1], i);
    }
  }

  lemma FlattenNone(chunks: seq<seq<byte>>)
    ensures chunks[..0] == [] && Flatten([]) == []
  {
  }

  lemma FlattenOne(chunks: seq<seq<byte>>, i: nat)
    requires i < |chunks|
    ensures Flatten(chunks[..i + 1]) == Flatten(chunks[..i]) + chunks[i]
  {
    assert chunks[..i + 1][..i] == chunks[..i];
  }

  /** One more call of fat32_write, after data `a` in state s0. */
  lemma WriteResultAppend(content: seq<byte>, s0: Open, a: seq<byte>, now: seq<byte>, s: Open, b: seq<byte>)
    requires s0.position <= |content| == s0.fileSize && now == WriteResult(content, s0, a)
    requires s.position == s0.position + |a| <= |now| == s.fileSize
    requires if a == [] then s.bufferSector == s0.bufferSector else s.bufferSector != 0
    ensures WriteResult(now, s, b) == WriteResult(content, s0, a + b)
  {
    if a == [] {
      assert a + b == b;
    } else if b == [] {
      assert a + b == a;
    } else {
      WriteResultReady(content, s0, a);
      WriteResultReady(content, s0, a + b);
      WriteResultReady(now, s, b);
      var ready := s0.position % 512 == 0 || s0.bufferSector != 0 || s0.position < s0.fileSize;
      hide WriteResult, WriteBase, Splice;
      assert WriteBase(now, s.position, true) == now by { ReadyBase(now, s.position); }
      SpliceTwice(WriteBase(content, s0.position, ready), s0.position, a, b);
    }
  }

  lemma WriteResultReady(content: seq<byte>, s: Open, data: seq<byte>)
    requires s.position <= |content| == s.fileSize && data != []
    ensures var ready := s.position % 512 == 0 || s.bufferSector != 0 || s.position < s.fileSize;
      WriteResult(content, s, data) == Splice(WriteBase(content, s.position, ready), s.position, data)
  {
  }

  lemma ReadyBase(content: seq<byte>, pos: nat)
    requires pos <= |content|
    ensures WriteBase(content, pos, true) == content
  {
  }

  /** Any sequence of fat32_write calls is one write of all the data, with the same exception for
      where the first one starts (WriteIsSplice). */
  method WriteAll(h: Handle, v: Volume, chunks: seq<seq<byte>>, ghost cs: seq<nat>, ghost content: seq<byte>)
    returns (ok: bool, ghost cs': seq<nat>)
    requires h.IsFile(v, cs, content) && h.buffer as object != v.disk
    requires h.position + |Flatten(chunks)| < 0x1_0000_0000
    modifies h`currentCluster, h`bufferSector, h`bufferDirty, h`position, h`fileSize, h.buffer, v.disk
    ensures ok <==> Flatten(chunks) == []
                    || CursorIndex(v.geo.sectorsPerCluster, old(h.position) + |Flatten(chunks)|) + 1
                       <= |cs| + |FreeList(old(v.Table()))|
    ensures ok ==> h.Shape(v) && old(h.position) <= |content| == old(h.fileSize)
    ensures ok ==> h.position == old(h.position) + |Flatten(chunks)|
    ensures ok ==> Writing(old(v.disk[..]), v.geo, cs, v.disk[..], h.Now(), cs',
                           WriteResult(content, old(h.Now()), Flatten(chunks)))
    ensures !ok ==> h.Shape(v) && old(h.position) <= |content| == old(h.fileSize)
    ensures !ok ==> old(h.position) <= h.position < old(h.position) + |Flatten(chunks)| && h.position == Capacity(v.geo, cs')
    ensures !ok ==>
      var now := WriteResult(content, old(h.Now()), Flatten(chunks)[..h.position - old(h.position)]);
      Failed(old(v.disk[..]), v.geo, cs, v.disk[..], h.Now(), cs', now) && h.fileSize == |now|
  {
    hide *;
    h.FileFields(v, cs, content);
    ghost var d0, g, s0, now := v.disk[..], v.geo, h.Now(), content;
    WritingStart(d0, g, s0, cs, content);
    WritingRefines(d0, g, cs, d0, s0, cs, content);
    assert WriteResult(content, s0, []) == content by { NothingWritten(content, s0); }
    FlattenNone(chunks);
    cs' := cs;
    ok := true;
    for i := 0 to |chunks|
      invariant h.Shape(v) && ok
      invariant now == WriteResult(content, s0, Flatten(chunks[..i]))
      invariant Writing(d0, g, cs, v.disk[..], h.Now(), cs', now)
      invariant h.position == s0.position + |Flatten(chunks[..i])|
      invariant if Flatten(chunks[..i]) == [] then h.bufferSector == s0.bufferSector else h.bufferSector != 0
    {
      h.Fields(v);
      ghost var d, s, cs1 := v.disk[..], h.Now(), cs';
      FlattenOne(chunks, i);
      FlattenPrefix(chunks, i + 1);
      WritingRefines(d0, g, cs, d, s, cs1, now);
      h.MakeFile(v, cs1, now);
      TableIs(v);
      WriteResultAppend(content, s0, Flatten(chunks[..i]), now, s, chunks[i]);
      VolumeIs(v);
      NoShift(g, s);
      h.FromIs(v, 0, s.fileSize);
      ok, cs' := h.Write(v, chunks[i], cs1, now, 0, s.fileSize);
      h.Fields(v);
      h.FromIs(v, 0, s.fileSize);
      if ok { SameOffsets(g, h.Now(), 0, s.fileSize); }
      ShiftedPosition(g, h.Now(), 0, s.fileSize);
      if !ok {
        WriteAllFails(d0, g, cs, d, s, cs1, now, s.position + |chunks[i]|, s0.position + |Flatten(chunks)|);
        ghost var part := chunks[i][..h.position - s.position];
        WritingExtends(d0, g, cs, d, s, cs1, now);
        FailedTrans(d0, g, cs, d, s, cs1, now, v.disk[..], h.Now(), cs', WriteResult(now, s, part));
        WriteResultAppend(content, s0, Flatten(chunks[..i]), now, s, part);
        ResultLength(now, s, part);
        PartOf(Flatten(chunks), Flatten(chunks[..i]), chunks[i], |part|);
        return;
      }
      now := WriteResult(now, s, chunks[i]);
      WritingTrans(d0, g, cs, d, s, cs1, WriteResult(content, s0, Flatten(chunks[..i])), v.disk[..], h.Now(), cs', now);
    }
    assert chunks[..|chunks|] == chunks;
    h.Fields(v);
    WritingFitsFree(d0, g, cs, v.disk[..], h.Now(), cs', now);
  }

  lemma ShiftedPosition(g: Geometry, s: Open, shift: nat, base: nat)
    ensures Shifted(s, Ahead(g.sectorsPerCluster, shift), base).position == s.position + Ahead(g.sectorsPerCluster, shift)
    ensures Ahead(g.sectorsPerCluster, 0) == 0
  {
    hide Ahead;
    NoneAhead(g.sectorsPerCluster);
  }

  lemma NoneAhead(spc: nat)
    ensures Ahead(spc, 0) == 0
  {
  }

  lemma ResultLength(content: seq<byte>, s: Open, data: seq<byte>)
    requires s.position <= |content| == s.fileSize
    ensures |WriteResult(content, s, data)| == Max(s.fileSize, s.position + |data|)
  {
    hide WriteBase;
  }

  lemma PartOf(all: seq<byte>, a: seq<byte>, b: seq<byte>, k: nat)
    requires a + b <= all && k <= |b|
    ensures a + b[..k] == all[..|a| + k]
  {
  }

  lemma NothingWritten(content: seq<byte>, s: Open)
    requires s.position <= |content| == s.fileSize
    ensures WriteResult(content, s, []) == content
  {
  }

  lemma WriteAllFails(d0: Image, g: Geometry, cs0: seq<nat>, d: Image, s: Open, cs: seq<nat>, content: seq<byte>, end: nat, last: nat)
    requires Writing(d0, g, cs0, d, s, cs, content) && end <= last && end > 0
    requires CursorIndex(g.sectorsPerCluster, end) + 1 > |cs| + |FreeList(FatOf(d, g))|
    ensures CursorIndex(g.sectorsPerCluster, last) + 1 > |cs0| + |FreeList(FatOf(d0, g))|
  {
    hide FatOf, FreeList, Refines, OnlyFile, CursorIndex;
    CursorMono(g.sectorsPerCluster, end, last);
  }

  /** How far beyond the position a write after a seek begins: one cluster when the position is a
      nonzero multiple of the cluster size. */
  function Skipped(spc: nat, target: nat): nat
    requires spc > 0
  {
    if target > 0 && ClusterOffset(spc, target) == 0 then Ahead(spc, 1) else 0
  }

  /** The content, as far as the first bytes of its chain if these are more. */
  function Padded(before: seq<byte>, content: seq<byte>): seq<byte> {
    if |content| >= |before| then content else before
  }

  /** The content after a seek and a write that begins `skip` bytes beyond the position: `before` is
      what the chain holds up to there.  At the end of the file, in the middle of a sector, the bytes
      before the position in that sector become zero. */
  function SoughtWrite(before: seq<byte>, content: seq<byte>, target: nat, skip: nat, data: seq<byte>): (r: seq<byte>)
    requires target <= |content| && |before| == target + skip
    ensures |r| == Max(|content|, target + |data|)
  {
    if skip == 0 then
      var base := if target == |content| then content[..target - target % 512] + Zeros(target % 512) else content;
      Splice(base, target, data)
    else
      Splice(Padded(before, content), target + skip, data)[..Max(|content|, target + |data|)]
  }

  /** An open file after a write, wherever its cursor is: its chain and bytes, and that nothing else on
      the disk changed. */
  ghost predicate Written(d0: Image, g: Geometry, cs0: seq<nat>, d: Image, s: Open, cs: seq<nat>, content: seq<byte>) {
    && Fits(d0, g) && Fits(d, g) && g.partitionStart + s.bufferSector < |d| && IsChain(FatOf(d, g), cs)
    && Extended(FatOf(d0, g), cs0, FatOf(d, g), cs) && OnlyFile(d0, d, g, cs)
    && |content| == s.fileSize && Holds(Shown(d, g, s), g, cs, content)
  }

  /** Seek, then write, anywhere: what the file then holds, when it succeeds, and on which chain. */
  method SeekAndWrite(h: Handle, v: Volume, target: uint32, data: seq<byte>, ghost cs: seq<nat>, ghost content: seq<byte>)
    returns (sought: bool, ok: bool, ghost cs': seq<nat>)
    requires h.IsFile(v, cs, content) && !h.bufferDirty && h.buffer as object != v.disk && target + |data| < 0x1_0000_0000
    modifies h, h.buffer, v.disk
    ensures v.geo.sectorsPerCluster > 0 && OnDisk(old(v.disk[..]), v.geo, cs)
    ensures sought <==> target <= |content| && ClusterOf(v.geo.sectorsPerCluster, target / 512) < |cs|
    ensures var end := target + Skipped(v.geo.sectorsPerCluster, target) + |data|;
      sought ==>
        (ok <==> data == [] || CursorIndex(v.geo.sectorsPerCluster, end) + 1 <= |cs| + |FreeList(old(v.Table()))|)
    ensures sought && ok ==> h.Shape(v) && h.position == target + |data|
    ensures sought && ok && data != [] ==>
      var skip := Skipped(v.geo.sectorsPerCluster, target);
      var now := SoughtWrite(Slice(old(v.disk[..]), v.geo, cs, 0, target + skip), content, target, skip, data);
      && Written(old(v.disk[..]), v.geo, cs, v.disk[..], h.Now(), cs', now)
      && |cs'| == Max(|cs|, CursorIndex(v.geo.sectorsPerCluster, target + skip + |data|) + 1)
      && (skip == 0 ==> Writing(old(v.disk[..]), v.geo, cs, v.disk[..], h.Now(), cs', now))
      && var spliced := Holds(Shown(v.disk[..], v.geo, h.Now()), v.geo, cs', Splice(content, target, data));
         && (skip == 0 ==> (spliced <==> WritesAtPosition(content, target, skip)))
         && (skip > 0 && data[0] != ChainByte(old(v.disk[..]), v.geo, cs, target) ==> !spliced)
    ensures sought && !ok ==> h.Shape(v) && target <= h.position < target + |data|
    ensures sought && !ok ==>
      var skip, n := Skipped(v.geo.sectorsPerCluster, target), h.position - target;
      && target + skip + n == Capacity(v.geo, cs')
      && Failed(old(v.disk[..]), v.geo, cs, v.disk[..], h.Now(), cs',
                if n == 0 then content
                else SoughtWrite(Slice(old(v.disk[..]), v.geo, cs, 0, target + skip), content, target, skip, data[..n]))
  {
    hide *;
    h.FileFields(v, cs, content);
    ghost var d, s0 := v.disk[..], h.Now();
    ok, cs' := false, cs;
    CoreFacts(d, v.geo, s0, cs, content);
    VolumeIs(v);
    sought := h.Seek(v, target, cs);
    if !sought { return; }
    h.Fields(v);
    ghost var s, skip := h.Now(), Skipped(v.geo.sectorsPerCluster, target);
    ghost var shift := if AtBoundary(v.geo, s) then 1 else 0;
    ghost var before := Slice(d, v.geo, cs, 0, target + skip);
    SkippedIs(v.geo, s);
    SoughtAhead(d, v.geo, s, cs, content, shift);
    SameOffsets(v.geo, s, shift, |content|);
    h.FromIs(v, shift, |content|);
    ok, cs' := h.Write(v, data, cs, Padded(before, content), shift, |content|);
    h.Fields(v);
    h.FromIs(v, shift, |content|);
    if ok && data != [] {
      WrittenAhead(d, v.geo, cs, s, v.disk[..], h.Now(), cs', shift, before, content, data);
      SliceAgrees(d, v.geo, cs, content, target + skip);
      OneWrite(before, content, target, skip, data);
      SpliceLength(content, target, data);
      WrittenSplice(d, v.geo, cs, v.disk[..], h.Now(), cs', SoughtWrite(before, content, target, skip, data),
                    Splice(content, target, data));
      AtPosition(content, target, skip);
      SliceAt(d, v.geo, cs, target, skip);
    }
    if !ok {
      ShiftedPosition(v.geo, h.Now(), shift, |content|);
      SliceAgrees(d, v.geo, cs, content, target + skip);
      FailedSought(d, v.geo, cs, s, v.disk[..], h.Now(), cs', shift, before, content, data[..h.position - target]);
    }
  }

  /** What a write that failed leaves, read off the view from the cursor. */
  lemma FailedSought(d0: Image, g: Geometry, cs0: seq<nat>, s: Open, d: Image, t: Open, cs: seq<nat>, shift: nat,
                     before: seq<byte>, content: seq<byte>, data: seq<byte>)
    requires g.sectorsPerCluster > 0 && s.position <= |content| == s.fileSize && s.bufferSector == 0
    requires shift == (if AtBoundary(g, s) then 1 else 0) && |before| == s.position + Skipped(g.sectorsPerCluster, s.position)
    requires forall i | 0 <= i < |content| && i < |before| :: content[i] == before[i]
    requires var v := Shifted(s, Ahead(g.sectorsPerCluster, shift), |content|);
      && v.position <= |Padded(before, content)| == v.fileSize
      && Failed(d0, g, cs0, d, t, cs, WriteResult(Padded(before, content), v, data))
    ensures var skip := Skipped(g.sectorsPerCluster, s.position);
      Failed(d0, g, cs0, d, t, cs, if data == [] then content else SoughtWrite(before, content, s.position, skip, data))
  {
    hide *;
    var ahead, skip := Ahead(g.sectorsPerCluster, shift), Skipped(g.sectorsPerCluster, s.position);
    SkippedIs(g, s);
    if AtBoundary(g, s) { BoundaryPositive(g, s); }
    AheadAligned(g, shift);
    var full := WriteResult(Padded(before, content), Shifted(s, ahead, |content|), data);
    if data == [] {
      NothingWritten(Padded(before, content), Shifted(s, ahead, |content|));
      PaddedFrom(before, content);
      FailedPrefix(d0, g, cs0, d, t, cs, full, |content|);
    } else {
      ResultAhead(s, ahead, before, content, data);
      FailedPrefix(d0, g, cs0, d, t, cs, full, Max(|content|, s.position + |data|));
    }
  }

  lemma AheadAligned(g: Geometry, shift: nat)
    ensures Ahead(g.sectorsPerCluster, shift) % 512 == 0
  {
    Regroup(shift, g.sectorsPerCluster);
    MultipleOf512(shift * g.sectorsPerCluster);
  }

  lemma MultipleOf512(n: nat)
    ensures n * 512 % 512 == 0
  {
  }

  lemma PaddedFrom(before: seq<byte>, content: seq<byte>)
    requires forall i | 0 <= i < |content| && i < |before| :: content[i] == before[i]
    ensures |content| <= |Padded(before, content)| && Padded(before, content)[..|content|] == content
  {
  }

  lemma FailedPrefix(d0: Image, g: Geometry, cs0: seq<nat>, d: Image, s: Open, cs: seq<nat>, content: seq<byte>, n: nat)
    requires Failed(d0, g, cs0, d, s, cs, content) && n <= |content|
    ensures Failed(d0, g, cs0, d, s, cs, content[..n])
  {
    hide *;
    FailedFields(d0, g, cs0, d, s, cs, content);
    HoldsPrefix(Shown(d, g, s), g, cs, content, n);
    FailedFrom(d0, g, cs0, d, s, cs, content[..n]);
  }

  lemma SpliceLength(content: seq<byte>, target: nat, data: seq<byte>)
    requires target <= |content|
    ensures |Splice(content, target, data)| == Max(|content|, target + |data|)
  {
  }

  lemma AtPosition(content: seq<byte>, target: nat, skip: nat)
    requires target <= |content|
    ensures WritesAtPosition(content, target, skip) <==> skip == 0 && (target < |content| || ZeroBefore(content, target))
  {
    hide ZeroBefore;
  }

  lemma SliceAt(d: Image, g: Geometry, cs: seq<nat>, target: nat, skip: nat)
    requires OnDisk(d, g, cs)
    ensures skip > 0 ==> Slice(d, g, cs, 0, target + skip)[target] == ChainByte(d, g, cs, target)
  {
    hide ChainByte;
  }

  /** A chain's bytes agree with the content on it. */
  lemma SliceAgrees(d: Image, g: Geometry, cs: seq<nat>, content: seq<byte>, n: nat)
    requires Holds(d, g, cs, content)
    ensures OnDisk(d, g, cs) && forall i | 0 <= i < |content| && i < n :: content[i] == Slice(d, g, cs, 0, n)[i]
  {
    hide ClusterOf, Capacity;
    forall i: nat | i < |content| && i < n ensures content[i] == Slice(d, g, cs, 0, n)[i] {
      assert ByteAt(d, g, cs, i) == content[i];
    }
  }

  /** It holds another content of the same length only if that is the same. */
  lemma WrittenSplice(d0: Image, g: Geometry, cs0: seq<nat>, d: Image, s: Open, cs: seq<nat>, now: seq<byte>, other: seq<byte>)
    requires Written(d0, g, cs0, d, s, cs, now) && |now| == |other|
    ensures Fits(d, g) && g.partitionStart + s.bufferSector < |d|
    ensures Holds(Shown(d, g, s), g, cs, other) <==> now == other
  {
    hide Holds, Shown, FatOf, IsChain, Extended, OnlyFile;
    if Holds(Shown(d, g, s), g, cs, other) { HoldsOne(Shown(d, g, s), g, cs, now, other); }
  }

  lemma SkippedIs(g: Geometry, s: Open)
    requires g.sectorsPerCluster > 0
    ensures Skipped(g.sectorsPerCluster, s.position) == Ahead(g.sectorsPerCluster, if AtBoundary(g, s) then 1 else 0)
    ensures Skipped(g.sectorsPerCluster, s.position) == 0 <==> !AtBoundary(g, s)
  {
    Regroup(1, g.sectorsPerCluster);
    Regroup(0, g.sectorsPerCluster);
    hide ClusterOffset;
  }

  /** The first n bytes of a chain. */
  lemma SliceHolds(d: Image, g: Geometry, cs: seq<nat>, n: nat)
    requires OnDisk(d, g, cs) && n <= Capacity(g, cs)
    ensures Holds(d, g, cs, Slice(d, g, cs, 0, n))
  {
    hide Capacity, ClusterOf;
    forall i: nat | i < n
      ensures ClusterOf(g.sectorsPerCluster, i / 512) < |cs| && ByteAt(d, g, cs, i) == Slice(d, g, cs, 0, n)[i]
    {
      CapacityBound(g, cs, i);
    }
  }

  lemma CursorShift(m: nat, p: nat, shift: nat)
    requires m > 0 && (p > 0 || shift == 0)
    ensures CursorIndex(m, p + Ahead(m, shift)) == CursorIndex(m, p) + shift
  {
    if p > 0 {
      ByteIndex(m, p - 1, shift);
      ShiftedSector(m, (p - 1) / 512, shift);
    } else {
      assert Ahead(m, 0) == 0;
    }
    hide ClusterOf, Ahead;
  }

  /** A handle after a seek is where writing expects it, in the view from its cursor. */
  lemma SoughtAhead(d: Image, g: Geometry, s: Open, cs: seq<nat>, content: seq<byte>, shift: nat)
    requires Holds(d, g, cs, content) && IsChain(FatOf(d, g), cs) && s.first == cs[0] && g.sectorsPerCluster > 0
    requires |content| == s.fileSize && s.position <= s.fileSize && s.bufferSector == 0 && !s.dirty
    requires ClusterOf(g.sectorsPerCluster, s.position / 512) < |cs|
    requires s.current == cs[ClusterOf(g.sectorsPerCluster, s.position / 512)]
    requires shift == if AtBoundary(g, s) then 1 else 0
    ensures OnDisk(d, g, cs) && CursorAhead(g, s, shift, |content|)
    ensures var ahead := Ahead(g.sectorsPerCluster, shift);
      Refines(d, g, Shifted(s, ahead, |content|), cs, Padded(Slice(d, g, cs, 0, s.position + ahead), content))
  {
    hide *;
    var m, ahead := g.sectorsPerCluster, Ahead(g.sectorsPerCluster, shift);
    HoldsFits(d, g, cs, content);
    HoldsOnDisk(d, g, cs, content);
    SeekCursor(d, g, s, cs, content);
    ReadingCursor(d, g, s, cs, shift);
    if AtBoundary(g, s) { BoundaryPositive(g, s); }
    CursorShift(m, s.position, shift);
    SliceHolds(d, g, cs, s.position + ahead);
    PaddedIs(Slice(d, g, cs, 0, s.position + ahead), content);
    MakeAhead(g, s, shift, content);
    SoughtView(d, g, s, cs, ahead, content, Padded(Slice(d, g, cs, 0, s.position + ahead), content));
  }

  lemma PaddedIs(before: seq<byte>, content: seq<byte>)
    ensures Padded(before, content) == content || Padded(before, content) == before
    ensures |Padded(before, content)| == Max(|content|, |before|)
  {
  }

  lemma BoundaryPositive(g: Geometry, s: Open)
    requires g.sectorsPerCluster > 0 && AtBoundary(g, s)
    ensures s.position > 0 && s.position % 512 == 0
  {
    PositionParts(g.sectorsPerCluster, s.position);
    hide ClusterOffset;
  }

  lemma MakeAhead(g: Geometry, s: Open, shift: nat, content: seq<byte>)
    requires g.sectorsPerCluster > 0 && |content| == s.fileSize && s.position <= s.fileSize
    requires shift > 0 ==> s.position > 0 && s.position % 512 == 0
    ensures CursorAhead(g, s, shift, |content|)
  {
  }

  lemma SoughtView(d: Image, g: Geometry, s: Open, cs: seq<nat>, ahead: nat, content: seq<byte>, padded: seq<byte>)
    requires Fits(d, g) && g.partitionStart < |d| && g.sectorsPerCluster > 0 && IsChain(FatOf(d, g), cs) && cs != [] && s.first == cs[0]
    requires s.bufferSector == 0 && !s.dirty && |content| == s.fileSize
    requires CursorIndex(g.sectorsPerCluster, s.position + ahead) < |cs|
    requires s.current == cs[CursorIndex(g.sectorsPerCluster, s.position + ahead)]
    requires |padded| == Max(|content|, s.position + ahead) && Holds(d, g, cs, padded)
    ensures Refines(d, g, Shifted(s, ahead, |content|), cs, padded)
  {
    hide FatOf, IsChain, CursorIndex, Holds, ClusterOf, Lba;
  }

  /** What the write leaves, read off the view from the cursor. */
  lemma WrittenAhead(d0: Image, g: Geometry, cs0: seq<nat>, s: Open, d: Image, t: Open, cs: seq<nat>, shift: nat,
                     before: seq<byte>, content: seq<byte>, data: seq<byte>)
    requires g.sectorsPerCluster > 0 && s.position <= |content| == s.fileSize && s.bufferSector == 0 && data != []
    requires shift == (if AtBoundary(g, s) then 1 else 0) && |before| == s.position + Skipped(g.sectorsPerCluster, s.position)
    requires |Padded(before, content)| == Shifted(s, Ahead(g.sectorsPerCluster, shift), |content|).fileSize
    requires Writing(d0, g, cs0, d, Shifted(t, Ahead(g.sectorsPerCluster, shift), |content|), cs,
                     WriteResult(Padded(before, content), Shifted(s, Ahead(g.sectorsPerCluster, shift), |content|), data))
    requires CursorAhead(g, t, shift, |content|) && t.position == s.position + |data| && t.fileSize == Max(|content|, t.position)
    ensures var skip := Skipped(g.sectorsPerCluster, s.position);
      var now := SoughtWrite(before, content, s.position, skip, data);
      && Written(d0, g, cs0, d, t, cs, now)
      && |cs| == Max(|cs0|, CursorIndex(g.sectorsPerCluster, s.position + skip + |data|) + 1)
      && (skip == 0 ==> Writing(d0, g, cs0, d, t, cs, now))
  {
    hide *;
    var ahead, skip := Ahead(g.sectorsPerCluster, shift), Skipped(g.sectorsPerCluster, s.position);
    var u, now := Shifted(t, ahead, |content|), SoughtWrite(before, content, s.position, skip, data);
    SkippedIs(g, s);
    SameOffsets(g, t, shift, |content|);
    if AtBoundary(g, s) { BoundaryPositive(g, s); }
    ResultAhead(s, ahead, before, content, data);
    var full := WriteResult(Padded(before, content), Shifted(s, ahead, |content|), data);
    WritingWhole(d0, g, cs0, d, u, cs, full);
    SameShown(d, g, t, u);
    HoldsPrefix(Shown(d, g, t), g, cs, full, |now|);
    MakeWritten(d0, g, cs0, d, t, cs, now);
    assert full[..|full|] == full;
  }

  lemma ResultAhead(s: Open, ahead: nat, before: seq<byte>, content: seq<byte>, data: seq<byte>)
    requires s.position <= |content| == s.fileSize && s.bufferSector == 0 && data != []
    requires |before| == s.position + ahead && (ahead > 0 ==> s.position % 512 == 0 && ahead % 512 == 0)
    ensures var v := Shifted(s, ahead, |content|);
      && v.position <= |Padded(before, content)| == v.fileSize
      && var full := WriteResult(Padded(before, content), v, data);
         && |full| >= Max(|content|, s.position + |data|)
         && SoughtWrite(before, content, s.position, ahead, data) == full[..Max(|content|, s.position + |data|)]
         && (ahead == 0 ==> |full| == Max(|content|, s.position + |data|))
  {
    hide *;
    PaddedIs(before, content);
    if ahead == 0 {
      ResultHere(s, before, content, data);
    } else {
      ResultFurther(s, ahead, before, content, data);
    }
  }

  lemma ResultHere(s: Open, before: seq<byte>, content: seq<byte>, data: seq<byte>)
    requires s.position <= |content| == s.fileSize && s.bufferSector == 0 && data != [] && |before| == s.position
    ensures Shifted(s, 0, |content|) == s && Padded(before, content) == content
    ensures var full := WriteResult(content, s, data);
      |full| == Max(|content|, s.position + |data|) && SoughtWrite(before, content, s.position, 0, data) == full[..|full|]
  {
    SeekWritten(content, s, data);
    hide WriteResult, Splice, Zeros;
    var r := SoughtWrite(before, content, s.position, 0, data);
    assert r[..|r|] == r;
  }

  lemma ResultFurther(s: Open, ahead: nat, before: seq<byte>, content: seq<byte>, data: seq<byte>)
    requires s.position <= |content| == s.fileSize && data != [] && |before| == s.position + ahead
    requires ahead > 0 && s.position % 512 == 0 && ahead % 512 == 0
    ensures var v := Shifted(s, ahead, |content|);
      && v.position <= |Padded(before, content)| == v.fileSize
      && var full := WriteResult(Padded(before, content), v, data);
         && |full| >= Max(|content|, s.position + |data|)
         && SoughtWrite(before, content, s.position, ahead, data) == full[..Max(|content|, s.position + |data|)]
  {
    var v, padded := Shifted(s, ahead, |content|), Padded(before, content);
    assert v.position % 512 == 0;
    PaddedIs(before, content);
    hide WriteResult, WriteBase, Splice, Padded;
    WriteResultReady(padded, v, data);
    ReadyBase(padded, v.position);
  }

  lemma WritingWhole(d0: Image, g: Geometry, cs0: seq<nat>, d: Image, s: Open, cs: seq<nat>, content: seq<byte>)
    requires Writing(d0, g, cs0, d, s, cs, content)
    ensures Fits(d0, g) && Fits(d, g) && g.partitionStart + s.bufferSector < |d| && IsChain(FatOf(d, g), cs)
    ensures Extended(FatOf(d0, g), cs0, FatOf(d, g), cs) && OnlyFile(d0, d, g, cs)
    ensures |content| == s.fileSize && Holds(Shown(d, g, s), g, cs, content)
    ensures g.sectorsPerCluster > 0 && |cs| == Max(|cs0|, CursorIndex(g.sectorsPerCluster, s.position) + 1)
  {
    hide FatOf, IsChain, Extended, OnlyFile, Holds, CursorIndex, Shown, Lba, ClusterOf;
  }

  lemma MakeWritten(d0: Image, g: Geometry, cs0: seq<nat>, d: Image, s: Open, cs: seq<nat>, content: seq<byte>)
    requires Fits(d0, g) && Fits(d, g) && g.partitionStart + s.bufferSector < |d| && IsChain(FatOf(d, g), cs)
    requires Extended(FatOf(d0, g), cs0, FatOf(d, g), cs) && OnlyFile(d0, d, g, cs)
    requires |content| == s.fileSize && Holds(Shown(d, g, s), g, cs, content)
    ensures Written(d0, g, cs0, d, s, cs, content)
  {
    hide FatOf, IsChain, Extended, OnlyFile, Holds, Shown;
  }

  // ----- a file without clusters -----

  /** A write to a file whose entry names no cluster: the first 512 bytes go to a buffer that belongs to
      no sector, so that closing does not flush it; the next piece throws them away, and its sectors
      are those at the start of the partition. */
  lemma ClusterlessWrite(d: Image, g: Geometry, s: Open, data: seq<byte>)
    requires Fits(d, g) && g.partitionStart < |d| && s.current == 0 && s.position == 0 && s.bufferSector == 0 && !s.dirty
    requires 0 < |data| <= 512
    ensures g.sectorsPerCluster > 0 && TargetSector(g, s) == 0 && LoadStep(d, g, s) == (d, s)
    ensures var t := CopyStep(s, data);
      && t.bufferSector == 0 && t.dirty && t.position == |data| <= t.fileSize
      && Shown(d, g, t) == d
      && (|data| == 512 && g.sectorsPerCluster > 1 ==>
            && TargetSector(g, t) == 1 && g.partitionStart + 1 < |d|
            && var (d', t') := LoadStep(d, g, t);
               && d' == d && t'.bufferSector == 1 && t'.dirty
               && t'.buffer == if t.position < t.fileSize then d[g.partitionStart + 1] else ZeroSector())
  {
    hide Patch;
    var m := g.sectorsPerCluster;
    PositionParts(m, 0);
    PositionParts(m, 512);
    ClusterOfZero(m);
    if m > 1 { DivModUnique(m, 0, 1); }
    DivModUnique(m, 0, 0);
  }

  /** The sectors of its first cluster. */
  lemma ClusterlessSectors(g: Geometry, s: Open, k: nat, cs: seq<nat>)
    requires g.Valid() && s.current == 0 && k < g.sectorsPerCluster && AllInRange(cs) && Distinct(cs)
    ensures TargetSector(g, s.(position := 512 * k)) == k && (k < g.fatStart ==> !InFile(g, cs, g.partitionStart + k))
  {
    hide InFile, AllInRange, Distinct, ClusterOf, WithinOf, ClusterOffset;
    PositionParts(g.sectorsPerCluster, 512 * k);
    assert 512 * k / 512 == k;
    FirstSectors(g.sectorsPerCluster, k);
    if InFile(g, cs, g.partitionStart + k) { FileAboveFats(g, cs, g.partitionStart + k); }
  }

  lemma FirstSectors(m: nat, k: nat)
    requires k < m
    ensures WithinOf(m, k) == k
  {
    DivModUnique(m, 0, k);
  }

  // ----- when seek then write is the splice -----

  /** A chain holds one content of each length. */
  lemma HoldsOne(d: Image, g: Geometry, cs: seq<nat>, a: seq<byte>, b: seq<byte>)
    requires Holds(d, g, cs, a) && Holds(d, g, cs, b) && |a| == |b|
    ensures a == b
  {
    hide ClusterOf, Capacity;
    forall i: nat | i < |a| ensures a[i] == b[i] {
      assert ByteAt(d, g, cs, i) == a[i] && ByteAt(d, g, cs, i) == b[i];
    }
  }

  /** The bytes before the position in its sector are all zero. */
  predicate ZeroBefore(content: seq<byte>, pos: nat)
    requires pos <= |content|
  {
    forall i | pos - pos % 512 <= i < pos :: content[i] == 0
  }

  /** What decides, before the calls, whether a seek and a write splice the data in at the position: it
      is no nonzero multiple of the cluster size, and before the end of the file or after zeros only. */
  predicate WritesAtPosition(content: seq<byte>, target: nat, skip: nat)
    requires target <= |content|
  {
    skip == 0 && (target < |content| || ZeroBefore(content, target))
  }

  /** Under that condition the content becomes the splice, whatever is written; otherwise it does not
      for some data of every length.  Without a skip it never does; with one, it does not whenever the
      first byte written differs from the one at the position. */
  lemma SeekThenWriteIsSplice(before: seq<byte>, content: seq<byte>, target: nat, skip: nat, n: nat)
    requires target <= |content| && |before| == target + skip && n > 0
    requires forall i | 0 <= i < |content| && i < |before| :: content[i] == before[i]
    ensures (forall data: seq<byte> | |data| == n :: SoughtWrite(before, content, target, skip, data) == Splice(content, target, data))
            <==> WritesAtPosition(content, target, skip)
    ensures skip == 0 ==> forall data: seq<byte> | |data| == n ::
      SoughtWrite(before, content, target, skip, data) == Splice(content, target, data)
      <==> target < |content| || ZeroBefore(content, target)
    ensures skip > 0 ==> forall data: seq<byte> | |data| == n && data[0] != before[target] ::
      SoughtWrite(before, content, target, skip, data) != Splice(content, target, data)
  {
    hide SoughtWrite, Splice;
    forall data: seq<byte> | |data| == n
      ensures skip == 0 ==>
        (SoughtWrite(before, content, target, skip, data) == Splice(content, target, data)
         <==> target < |content| || ZeroBefore(content, target))
      ensures skip > 0 && data[0] != before[target] ==>
        SoughtWrite(before, content, target, skip, data) != Splice(content, target, data)
    {
      OneWrite(before, content, target, skip, data);
    }
    if !WritesAtPosition(content, target, skip) {
      var other: byte := if skip > 0 && before[target] == 0 then 1 else 0;
      var data := seq<byte>(n, i => other);
      assert |data| == n;
    }
  }

  lemma OneWrite(before: seq<byte>, content: seq<byte>, target: nat, skip: nat, data: seq<byte>)
    requires target <= |content| && |before| == target + skip && data != []
    requires forall i | 0 <= i < |content| && i < |before| :: content[i] == before[i]
    ensures skip == 0 ==>
      (SoughtWrite(before, content, target, skip, data) == Splice(content, target, data)
       <==> target < |content| || ZeroBefore(content, target))
    ensures skip > 0 && data[0] != before[target] ==>
      SoughtWrite(before, content, target, skip, data) != Splice(content, target, data)
  {
    var r := SoughtWrite(before, content, target, skip, data);
    if skip > 0 {
      assert r[target] == before[target] && Splice(content, target, data)[target] == data[0];
    } else {
      var s := Open(0, 0, |content|, target, 0, false, ZeroSector());
      SeekWritten(content, s, data);
      WriteIsSplice(content, s, data);
    }
  }

  lemma HoldsFits(d: Image, g: Geometry, cs: seq<nat>, content: seq<byte>)
    requires Holds(d, g, cs, content)
    ensures Fits(d, g) && g.partitionStart < |d|
  {
  }

  lemma SeekWritten(content: seq<byte>, s: Open, data: seq<byte>)
    requires s.position <= |content| == s.fileSize && s.bufferSector == 0
    ensures data == [] ==> WriteResult(content, s, data) == content
    ensures data != [] ==>
      var n := s.position - s.position % 512;
      var base := if s.position == |content| then content[..n] + Zeros(s.position % 512) else content;
      WriteResult(content, s, data) == Splice(base, s.position, data)
  {
    if s.position == |content| && s.position % 512 == 0 {
      assert content[..s.position] + Zeros(0) == content;
    }
  }

  /** The first piece of such a write at a nonzero multiple of the cluster size: it leaves the cluster of
      the position for the next one of the chain, and patches the sector one cluster further on; in
      the last cluster it finds the end mark, grows the chain, and goes to the new cluster. */
  lemma WriteAfterSeek(d: Image, g: Geometry, s: Open, cs: seq<nat>, data: seq<byte>)
    requires OnDisk(d, g, cs) && IsChain(FatOf(d, g), cs) && AtBoundary(g, s) && s.bufferSector == 0 && !s.dirty
    requires ClusterOf(g.sectorsPerCluster, s.position / 512) < |cs|
    requires s.current == cs[ClusterOf(g.sectorsPerCluster, s.position / 512)] && 0 < |data| <= 512
    ensures s.position % 512 == 0 && g.partitionStart < |d|
    ensures var next, k := Entry(FatOf(d, g), s.current), s.position / 512 + g.sectorsPerCluster;
      if ClusterOf(g.sectorsPerCluster, s.position / 512) + 1 == |cs| then
        && next >= LAST_CLUSTER
        && (FreeList(FatOf(d, g)) != [] ==>
              var c := FreeList(FatOf(d, g))[0];
              && InRange(s.current) && GrowStep(FatOf(d, g), s.current).1
              && OnDisk(d, g, cs + [c]) && ClusterOf(g.sectorsPerCluster, k) == |cs|
              && g.partitionStart + TargetSector(g, s.(current := c)) == Lba(g, cs + [c], k) < |d|)
      else
        && ClusterOf(g.sectorsPerCluster, k) < |cs| && next == cs[ClusterOf(g.sectorsPerCluster, k)]
        && g.partitionStart + TargetSector(g, s.(current := next)) == Lba(g, cs, k) < |d|
        && var (d', s') := LoadStep(d, g, s.(current := next));
           && d' == d && g.partitionStart + s'.bufferSector == Lba(g, cs, k)
           && CopyStep(s', data).position == s.position + |data|
           && Shown(d, g, CopyStep(s', data)) == d[Lba(g, cs, k) := Patch(s'.buffer, 0, data)]
  {
    hide *;
    BoundaryStarts(d, g, s, cs);
    var q := ClusterOf(g.sectorsPerCluster, s.position / 512);
    NextOnChain(FatOf(d, g), cs, q);
    if q + 1 < |cs| {
      var s1 := s.(current := cs[q + 1]);
      PieceSector(d, g, s1, cs, 1);
      ShiftedSector(g.sectorsPerCluster, s.position / 512, 1);
      assert 1 * g.sectorsPerCluster == g.sectorsPerCluster;
      PatchedFurther(d, g, s1, data);
    } else if FreeList(FatOf(d, g)) != [] {
      var c := FreeList(FatOf(d, g))[0];
      FirstFreeInRange(FatOf(d, g));
      GrowOnChain(FatOf(d, g), cs);
      OneMoreOnDisk(d, g, cs, c);
      var s1 := s.(current := c);
      ShiftedSector(g.sectorsPerCluster, s.position / 512, 1);
      PieceSector(d, g, s1, cs + [c], 1);
      assert 1 * g.sectorsPerCluster == g.sectorsPerCluster;
    }
  }

  lemma OneMoreOnDisk(d: Image, g: Geometry, cs: seq<nat>, c: nat)
    requires OnDisk(d, g, cs) && InRange(c) && c !in cs
    ensures OnDisk(d, g, cs + [c])
  {
  }

  lemma BoundaryStarts(d: Image, g: Geometry, s: Open, cs: seq<nat>)
    requires OnDisk(d, g, cs) && AtBoundary(g, s)
    ensures Fits(d, g) && g.sectorsPerCluster > 0 && s.position % 512 == 0 && g.partitionStart < |d|
  {
    PositionParts(g.sectorsPerCluster, s.position);
  }

  lemma PatchedFurther(d: Image, g: Geometry, s: Open, data: seq<byte>)
    requires Fits(d, g) && g.sectorsPerCluster > 0 && s.bufferSector == 0 && !s.dirty && s.position % 512 == 0
    requires g.partitionStart < |d| && g.partitionStart + TargetSector(g, s) < |d| && TargetSector(g, s) > 0
    requires 0 < |data| <= 512
    ensures var (d', s') := LoadStep(d, g, s);
      && d' == d && s'.bufferSector == TargetSector(g, s) && s'.position == s.position
      && CopyStep(s', data).position == s.position + |data|
      && Shown(d, g, CopyStep(s', data)) == d[g.partitionStart + TargetSector(g, s) := Patch(s'.buffer, 0, data)]
  {
    hide TargetSector, Patch;
  }

  /** After a growth that failed, one more write follows the bad-cluster mark in the tail like a link:
      its sectors are then counted from the start of the partition, and lie outside every file and,
      as far as they come before the first table, in the reserved area. */
  lemma RetryLeavesFile(d: Image, g: Geometry, s: Open, k: nat, cs: seq<nat>)
    requires Fits(d, g) && InRange(s.current) && FatOf(d, g)[s.current] == BAD_CLUSTER && AtBoundary(g, s)
    requires k < g.sectorsPerCluster && AllInRange(cs) && Distinct(cs)
    ensures Entry(FatOf(d, g), s.current) == BAD_CLUSTER < LAST_CLUSTER
    ensures TargetSector(g, s.(current := BAD_CLUSTER, position := s.position + 512 * k)) == k
    ensures k < g.fatStart ==> !InFats(g, g.partitionStart + k) && !InFile(g, cs, g.partitionStart + k)
  {
    hide FatOf, InFile, AllInRange, Distinct, ClusterOf, WithinOf, ClusterOffset;
    var m, pos := g.sectorsPerCluster, s.position;
    PositionParts(m, pos);
    PositionParts(m, pos + 512 * k);
    assert (pos + 512 * k) / 512 == pos / 512 + k;
    WithinFirst(m, pos / 512, k);
    if InFile(g, cs, g.partitionStart + k) { FileAboveFats(g, cs, g.partitionStart + k); }
  }

  lemma WithinFirst(m: nat, p: nat, k: nat)
    requires k < m && WithinOf(m, p) == 0
    ensures WithinOf(m, p + k) == k
  {
    SectorSplit(m, p);
    DivModUnique(m, ClusterOf(m, p), k);
  }

  lemma FileAboveFats(g: Geometry, cs: seq<nat>, l: nat)
    requires g.Valid() && AllInRange(cs) && Distinct(cs) && InFile(g, cs, l)
    ensures l >= g.partitionStart + g.fatStart
  {
    var k: nat :| ClusterOf(g.sectorsPerCluster, k) < |cs| && l == Lba(g, cs, k);
    LbasDistinct(g, cs, k, k);
  }

  // ----- the update round trip -----

  /** The directory entry at (sector, offset) describes a file with this chain and content. */
  ghost predicate EntryOf(d: Image, g: Geometry, sector: nat, offset: nat, cs: seq<nat>, content: seq<byte>) {
    && Fits(d, g) && sector != 0 && g.partitionStart + sector < |d| && IsSlot(offset)
    && IsChain(FatOf(d, g), cs) && Holds(d, g, cs, content) && |content| < 0x1_0000_0000
    && ClusterAt(d[g.partitionStart + sector], offset) == cs[0]
    && SizeAt(d[g.partitionStart + sector], offset) == |content|
    && !HasAttribute(AttributesAt(d[g.partitionStart + sector], offset), ATTR_DIRECTORY)
  }

  /** The sector belongs to the chain ds of a directory. */
  ghost predicate InDirectory(d: Image, g: Geometry, sector: nat, ds: seq<nat>) {
    Fits(d, g) && IsChain(FatOf(d, g), ds) && InFile(g, ds, g.partitionStart + sector)
  }

  /** A freshly opened handle. */
  lemma FreshHandle(d: Image, g: Geometry, sector: nat, offset: nat, cs: seq<nat>, content: seq<byte>, s: Open)
    requires EntryOf(d, g, sector, offset, cs, content)
    requires s.first == s.current == cs[0] && s.fileSize == |content| && s.position == 0 && s.bufferSector == 0 && !s.dirty
    ensures Refines(d, g, s, cs, content)
  {
    ChainShape(FatOf(d, g), cs);
    ClusterOfZero(g.sectorsPerCluster);
    hide FatOf, IsChain, Holds;
  }

  /** The clusters of a live chain stay apart from a chain that grew into free clusters. */
  lemma GrownApart(f: Fat, cs: seq<nat>, f': Fat, cs': seq<nat>, ds: seq<nat>)
    requires Extended(f, cs, f', cs') && Disjoint(cs, ds) && IsChain(f, ds)
    ensures Disjoint(cs', ds) && IsChain(f', ds)
  {
    forall c | c in ds ensures c !in cs' && f'[c] == f[c] && InRange(c) {
      ChainNonZero(f, ds, c);
    }
    ChainElsewhere(f, f', ds);
  }

  lemma DisjointSectors(g: Geometry, cs: seq<nat>, ds: seq<nat>, l: nat)
    requires g.Valid() && AllInRange(cs) && AllInRange(ds) && Disjoint(cs, ds)
    ensures InFile(g, ds, l) ==> !InFile(g, cs, l)
  {
    if InFile(g, ds, l) && InFile(g, cs, l) {
      var j: nat :| ClusterOf(g.sectorsPerCluster, j) < |ds| && l == Lba(g, ds, j);
      var k: nat :| ClusterOf(g.sectorsPerCluster, k) < |cs| && l == Lba(g, cs, k);
      LbasOfDisjoint(g, cs, ds, k, j);
    }
  }

  lemma FileNotInFats(g: Geometry, cs: seq<nat>, l: nat)
    requires g.Valid() && AllInRange(cs) && Distinct(cs) && InFile(g, cs, l)
    ensures !InFats(g, l) && l < g.DiskSize()
  {
    var k: nat :| ClusterOf(g.sectorsPerCluster, k) < |cs| && l == Lba(g, cs, k);
    LbasDistinct(g, cs, k, k);
  }

  /** Content depends only on the file's own sectors. */
  lemma HoldsElsewhere(d: Image, d': Image, g: Geometry, cs: seq<nat>, content: seq<byte>)
    requires Holds(d, g, cs, content) && Fits(d', g)
    requires forall l: nat | l < |d| && InFile(g, cs, l) :: d'[l] == d[l]
    ensures Holds(d', g, cs, content)
  {
    hide ClusterOf, WithinOf, Lba, Capacity;
    forall i: nat | i < |content| ensures ByteAt(d', g, cs, i) == content[i] {
      assert ByteAt(d, g, cs, i) == content[i];
      LbasDistinct(g, cs, i / 512, i / 512);
      LbaInFile(g, cs, i / 512);
    }
  }

  /** What changed: words of clusters in FAT sectors, the file's own sectors, and its entry's sector. */
  ghost predicate OnlyUpdate(d: Image, d': Image, g: Geometry, cs: seq<nat>, sector: nat) {
    && Fits(d, g) && Fits(d', g)
    && (forall l: nat | l < |d| && !InFats(g, l) && !InFile(g, cs, l) && l != g.partitionStart + sector :: d'[l] == d[l])
    && FatKept(d, d', g)
  }

  /** An update for which the clusters ran out: all free clusters are linked to the file's, in order, and
      the last one is marked bad; they hold as much of the data as fits, and the entry says how much;
      nothing else has changed. */
  ghost predicate UpdateFailed(d: Image, d': Image, g: Geometry, sector: nat, offset: nat, cs: seq<nat>, cs': seq<nat>,
                               data: seq<byte>) {
    && Fits(d, g) && Fits(d', g) && cs' != [] && AllInRange(cs')
    && cs' == cs + FreeList(FatOf(d, g)) && MarkedBad(FatOf(d', g), cs')
    && Capacity(g, cs') <= |data| < 0x1_0000_0000 && Holds(d', g, cs', data[..Capacity(g, cs')])
    && g.partitionStart + sector < |d| && IsSlot(offset)
    && d'[g.partitionStart + sector] == SizeUpdated(d[g.partitionStart + sector], offset, Capacity(g, cs'))
    && (forall c | c in cs' :: c in cs || IsFree(FatOf(d, g), c))
    && (forall c: nat | c < 127006 && c !in cs' :: FatOf(d', g)[c] == FatOf(d, g)[c])
    && OnlyUpdate(d, d', g, cs', sector)
  }

  /** The whole effect of an update: the entry, the chain and the bytes. */
  ghost predicate Updated(d: Image, d': Image, g: Geometry, sector: nat, offset: nat, cs: seq<nat>, cs': seq<nat>,
                          content: seq<byte>, data: seq<byte>) {
    && Fits(d, g) && EntryOf(d', g, sector, offset, cs', Splice(content, 0, data))
    && Extended(FatOf(d, g), cs, FatOf(d', g), cs')
    && (data == [] ==> cs' == cs)
    && (data != [] ==> |cs'| == Max(|cs|, CursorIndex(g.sectorsPerCluster, |data|) + 1))
    && OnlyUpdate(d, d', g, cs', sector)
    && g.partitionStart + sector < |d| && IsSlot(offset)
    && d'[g.partitionStart + sector] == SizeUpdated(d[g.partitionStart + sector], offset, |Splice(content, 0, data)|)
  }

  /** The entry's sector lies outside the file and the FATs. */
  ghost predicate EntryApart(g: Geometry, cs: seq<nat>, l: nat)
    requires g.sectorsPerCluster > 0
  {
    !InFile(g, cs, l) && !InFats(g, l)
  }

  lemma EntryStaysApart(d0: Image, g: Geometry, sector: nat, cs: seq<nat>, ds: seq<nat>, f': Fat, cs': seq<nat>)
    requires InDirectory(d0, g, sector, ds) && Disjoint(cs, ds)
    requires Extended(FatOf(d0, g), cs, f', cs') && IsChain(f', cs')
    ensures EntryApart(g, cs', g.partitionStart + sector) && g.partitionStart + sector < |d0|
  {
    hide FatOf, IsChain, InFile, Extended, Disjoint, Distinct, AllInRange, InFats;
    GrownApart(FatOf(d0, g), cs, f', cs', ds);
    ChainShape(FatOf(d0, g), ds);
    ChainShape(f', cs');
    DisjointSectors(g, cs', ds, g.partitionStart + sector);
    FileNotInFats(g, ds, g.partitionStart + sector);
  }

  /** Flushing and updating the entry: what the disk then shows. */
  lemma CloseKeeps(d1: Image, g: Geometry, sector: nat, offset: nat, s: Open, cs: seq<nat>, now: seq<byte>)
    requires Fits(d1, g) && IsChain(FatOf(d1, g), cs) && g.partitionStart + s.bufferSector < |d1|
    requires Holds(Shown(d1, g, s), g, cs, now) && |now| < 0x1_0000_0000
    requires s.dirty ==> InFile(g, cs, g.partitionStart + s.bufferSector)
    requires EntryApart(g, cs, g.partitionStart + sector) && g.partitionStart + sector < |d1| && IsSlot(offset) && sector != 0
    ensures var d2, l := EntryUpdated(Shown(d1, g, s), g, sector, offset, |now|), g.partitionStart + sector;
      && FatOf(d2, g) == FatOf(d1, g) && Holds(d2, g, cs, now)
      && d2[l] == SizeUpdated(d1[l], offset, |now|)
      && (forall k: nat | k < |d1| && !InFile(g, cs, k) && k != l :: d2[k] == d1[k])
      && FatKept(d1, d2, g)
  {
    ChainShape(FatOf(d1, g), cs);
    hide FatOf, IsChain, InFile, Holds, SizeUpdated;
    var shown, l := Shown(d1, g, s), g.partitionStart + sector;
    var d2 := EntryUpdated(shown, g, sector, offset, |now|);
    HoldsElsewhere(shown, d2, g, cs, now);
    if s.dirty { FileNotInFats(g, cs, g.partitionStart + s.bufferSector); }
    SameFats(d1, d2, g);
    SameKept(d1, d2, g);
  }

  /** Flushing and updating the entry, after a write that failed. */
  lemma CloseFailed(d0: Image, g: Geometry, sector: nat, offset: nat, cs: seq<nat>, content: seq<byte>, ds: seq<nat>,
                    d1: Image, s: Open, cs': seq<nat>, data: seq<byte>)
    requires EntryOf(d0, g, sector, offset, cs, content) && InDirectory(d0, g, sector, ds) && Disjoint(cs, ds)
    requires Capacity(g, cs') <= |data| < 0x1_0000_0000 && s.fileSize < 0x1_0000_0000
    requires Failed(d0, g, cs, d1, s, cs', Splice(content, 0, data[..Capacity(g, cs')]))
    requires s.fileSize == |Splice(content, 0, data[..Capacity(g, cs')])|
    ensures Fits(d1, g) && g.partitionStart + s.bufferSector < |d1| && g.partitionStart + sector < |d1| && IsSlot(offset)
    ensures s.dirty ==> s.bufferSector != 0
    ensures UpdateFailed(d0, EntryUpdated(Shown(d1, g, s), g, sector, offset, s.fileSize), g, sector, offset, cs, cs', data)
  {
    hide *;
    var l, now := g.partitionStart + sector, data[..Capacity(g, cs')];
    EntryParts(d0, g, sector, offset, cs, content);
    DirectoryParts(d0, g, sector, ds);
    var content' := Splice(content, 0, now);
    FailedApart(d0, g, cs, d1, s, cs', content', ds, l);
    FailedParts(d0, g, cs, d1, s, cs', content');
    FullSplice(Shown(d1, g, s), g, cs', content, now);
    ClosedSectors(d1, g, sector, offset, s, cs');
    var d2 := EntryUpdated(Shown(d1, g, s), g, sector, offset, s.fileSize);
    SameFats(d1, d2, g);
    SameKept(d1, d2, g);
    FatKeptTrans(d0, d1, d2, g);
    HoldsElsewhere(Shown(d1, g, s), d2, g, cs', now);
    FitsMeans(d1, g);
    FileOutside(d0, d1, g, cs', l);
    MakeUpdateFailed(d0, d1, d2, g, sector, offset, cs, cs', data);
  }

  lemma DirectoryParts(d: Image, g: Geometry, sector: nat, ds: seq<nat>)
    requires InDirectory(d, g, sector, ds)
    ensures Fits(d, g) && IsChain(FatOf(d, g), ds) && InFile(g, ds, g.partitionStart + sector)
  {
  }

  /** The sectors that flushing and updating the entry write. */
  lemma ClosedSectors(d: Image, g: Geometry, sector: nat, offset: nat, s: Open, cs: seq<nat>)
    requires Fits(d, g) && AllInRange(cs) && Distinct(cs) && g.partitionStart + s.bufferSector < |d|
    requires s.dirty ==> InFile(g, cs, g.partitionStart + s.bufferSector)
    requires EntryApart(g, cs, g.partitionStart + sector) && g.partitionStart + sector < |d| && IsSlot(offset)
    requires s.fileSize < 0x1_0000_0000
    ensures Fits(Shown(d, g, s), g) && |Shown(d, g, s)| == |d|
    ensures var d', l := EntryUpdated(Shown(d, g, s), g, sector, offset, s.fileSize), g.partitionStart + sector;
      && Fits(d', g) && FatOnlyFile(d, d', g)
      && (forall k: nat | k < |d| && !InFile(g, cs, k) && k != l :: d'[k] == d[k])
      && (forall k: nat | k < |d| && InFile(g, cs, k) :: d'[k] == Shown(d, g, s)[k])
      && (sector != 0 ==> d'[l] == SizeUpdated(d[l], offset, s.fileSize))
  {
    hide InFile, SizeUpdated, AllInRange, Distinct;
    if s.dirty { FileNotInFats(g, cs, g.partitionStart + s.bufferSector); }
  }

  lemma MakeUpdateFailed(d0: Image, d1: Image, d2: Image, g: Geometry, sector: nat, offset: nat, cs: seq<nat>, cs': seq<nat>,
                         data: seq<byte>)
    requires Fits(d0, g) && Fits(d1, g) && Fits(d2, g) && cs' != [] && AllInRange(cs') && |d1| == |d0|
    requires cs' == cs + FreeList(FatOf(d0, g)) && MarkedBad(FatOf(d1, g), cs') && FatOf(d2, g) == FatOf(d1, g)
    requires Capacity(g, cs') <= |data| < 0x1_0000_0000 && Holds(d2, g, cs', data[..Capacity(g, cs')])
    requires g.partitionStart + sector < |d0| && IsSlot(offset)
    requires d2[g.partitionStart + sector] == SizeUpdated(d0[g.partitionStart + sector], offset, Capacity(g, cs'))
    requires forall c | c in cs' :: c in cs || IsFree(FatOf(d0, g), c)
    requires forall c: nat | c < 127006 && c !in cs' :: FatOf(d1, g)[c] == FatOf(d0, g)[c]
    requires forall l: nat | l < |d1| && !InFats(g, l) && !InFile(g, cs', l) :: d1[l] == d0[l]
    requires forall k: nat | k < |d1| && !InFile(g, cs', k) && k != g.partitionStart + sector :: d2[k] == d1[k]
    requires FatKept(d0, d2, g)
    ensures UpdateFailed(d0, d2, g, sector, offset, cs, cs', data)
  {
    hide FatOf, InFile, InFats, FatKept, AllInRange, FreeList, MarkedBad, Holds, Capacity, SizeUpdated;
  }

  /** All the chain is overwritten. */
  lemma FullSplice(d: Image, g: Geometry, cs: seq<nat>, content: seq<byte>, now: seq<byte>)
    requires Holds(d, g, cs, Splice(content, 0, now)) && |now| == Capacity(g, cs)
    ensures Splice(content, 0, now) == now
  {
  }

  lemma FitsMeans(d: Image, g: Geometry)
    requires Fits(d, g)
    ensures g.sectorsPerCluster > 0
  {
  }

  lemma FileOutside(d0: Image, d: Image, g: Geometry, cs: seq<nat>, l: nat)
    requires g.sectorsPerCluster > 0 && EntryApart(g, cs, l) && |d| == |d0|
    requires forall k: nat | k < |d| && !InFats(g, k) && !InFile(g, cs, k) :: d[k] == d0[k]
    ensures l < |d| ==> d[l] == d0[l]
  {
    hide InFile, InFats;
  }

  lemma FailedParts(d0: Image, g: Geometry, cs0: seq<nat>, d: Image, s: Open, cs: seq<nat>, content: seq<byte>)
    requires Failed(d0, g, cs0, d, s, cs, content)
    ensures Fits(d0, g) && Fits(d, g) && |d| == |d0| && cs != [] && AllInRange(cs) && Distinct(cs)
    ensures cs == cs0 + FreeList(FatOf(d0, g)) && MarkedBad(FatOf(d, g), cs)
    ensures forall c | c in cs :: c in cs0 || IsFree(FatOf(d0, g), c)
    ensures forall c: nat | c < 127006 && c !in cs :: FatOf(d, g)[c] == FatOf(d0, g)[c]
    ensures forall l: nat | l < |d| && !InFats(g, l) && !InFile(g, cs, l) :: d[l] == d0[l]
    ensures FatKept(d0, d, g)
    ensures g.partitionStart + s.bufferSector < |d|
    ensures s.dirty ==> s.bufferSector != 0 && InFile(g, cs, g.partitionStart + s.bufferSector)
    ensures Holds(Shown(d, g, s), g, cs, content)
  {
    hide FatOf, InFile, FatKept, FreeList, MarkedBad, Holds, Shown;
  }

  lemma FailedApart(d0: Image, g: Geometry, cs: seq<nat>, d1: Image, s: Open, cs': seq<nat>, content: seq<byte>, ds: seq<nat>, l: nat)
    requires Failed(d0, g, cs, d1, s, cs', content) && Fits(d0, g) && IsChain(FatOf(d0, g), ds) && Disjoint(cs, ds) && InFile(g, ds, l)
    ensures Disjoint(cs', ds) && EntryApart(g, cs', l) && l < |d0|
  {
    ChainShape(FatOf(d0, g), ds);
    FailedFields(d0, g, cs, d1, s, cs', content);
    forall c | c in cs' ensures c !in ds {
      if c in ds { ChainNonZero(FatOf(d0, g), ds, c); }
    }
    hide FatOf, IsChain, InFile, Failed;
    DisjointSectors(g, cs', ds, l);
    FileNotInFats(g, ds, l);
  }

  /** Flushing and updating the entry, after a write. */
  lemma CloseUpdates(d0: Image, g: Geometry, sector: nat, offset: nat, cs: seq<nat>, content: seq<byte>, ds: seq<nat>,
                     d1: Image, s: Open, cs': seq<nat>, now: seq<byte>)
    requires EntryOf(d0, g, sector, offset, cs, content) && InDirectory(d0, g, sector, ds) && Disjoint(cs, ds)
    requires Writing(d0, g, cs, d1, s, cs', now) && |now| < 0x1_0000_0000
    ensures g.partitionStart + s.bufferSector < |d1|
    ensures var d2 := EntryUpdated(Shown(d1, g, s), g, sector, offset, |now|);
      && EntryOf(d2, g, sector, offset, cs', now)
      && FatOf(d2, g) == FatOf(d1, g) && OnlyUpdate(d0, d2, g, cs', sector)
      && d2[g.partitionStart + sector] == SizeUpdated(d0[g.partitionStart + sector], offset, |now|)
  {
    hide Writing, FatOf, IsChain, InFile, Extended, Holds, SizeUpdated, EntryUpdated, Shown, HasAttribute, GetU16, GetU32, InDirectory,
      Disjoint, CursorIndex, FatKept;
    ChainShape(FatOf(d0, g), cs);
    WritingChain(d0, g, cs, d1, s, cs', now);
    EntryStaysApart(d0, g, sector, cs, ds, FatOf(d1, g), cs');
    CloseKeeps(d1, g, sector, offset, s, cs', now);
    FatKeptTrans(d0, d1, EntryUpdated(Shown(d1, g, s), g, sector, offset, |now|), g);
    SizeUpdatedMeans(d0[g.partitionStart + sector], offset, |now|, offset);
  }

  lemma ChainShape(f: Fat, cs: seq<nat>)
    requires IsChain(f, cs)
    ensures cs != [] && AllInRange(cs) && Distinct(cs)
  {
  }

  lemma WritingChain(d0: Image, g: Geometry, cs0: seq<nat>, d: Image, s: Open, cs: seq<nat>, content: seq<byte>)
    requires Writing(d0, g, cs0, d, s, cs, content)
    ensures Fits(d0, g) && Fits(d, g) && IsChain(FatOf(d, g), cs) && g.partitionStart + s.bufferSector < |d|
    ensures Holds(Shown(d, g, s), g, cs, content) && |content| == s.fileSize
    ensures Extended(FatOf(d0, g), cs0, FatOf(d, g), cs) && OnlyFile(d0, d, g, cs)
    ensures cs0 != [] ==> cs[0] == cs0[0]
    ensures s.dirty ==> InFile(g, cs, g.partitionStart + s.bufferSector)
    ensures |cs| == Max(|cs0|, CursorIndex(g.sectorsPerCluster, s.position) + 1)
  {
    hide FatOf, IsChain, Holds, ClusterOf, Lba, FreeList;
    if s.dirty { LbaInFile(g, cs, (s.position - 1) / 512); }
  }

  /** Open a file, write any sequence of chunks up to the first that fails, close it: one fails
      exactly when the free clusters do not suffice. */
  method UpdateFile(v: Volume, sector: nat, offset: nat, chunks: seq<seq<byte>>,
                    ghost cs: seq<nat>, ghost content: seq<byte>, ghost ds: seq<nat>)
    returns (ok: bool, ghost cs': seq<nat>)
    requires EntryOf(v.disk[..], v.geo, sector, offset, cs, content)
    requires InDirectory(v.disk[..], v.geo, sector, ds) && Disjoint(cs, ds)
    requires |Flatten(chunks)| < 0x1_0000_0000
    modifies v.disk
    ensures ok <==> Flatten(chunks) == []
                    || CursorIndex(v.geo.sectorsPerCluster, |Flatten(chunks)|) + 1 <= |cs| + |FreeList(old(v.Table()))|
    ensures ok ==> Updated(old(v.disk[..]), v.disk[..], v.geo, sector, offset, cs, cs', content, Flatten(chunks))
    ensures !ok ==> UpdateFailed(old(v.disk[..]), v.disk[..], v.geo, sector, offset, cs, cs', Flatten(chunks))
  {
    hide EntryOf, FatOf, Refines, Updated, UpdateFailed, FreeList, CursorIndex, InDirectory, Disjoint;
    EntryParts(v.disk[..], v.geo, sector, offset, cs, content);
    var opening, h := OpenFile(v, sector, offset, false, cs, content);
    ok, cs' := WriteAndClose(h, v, chunks, cs, content, ds);
  }

  /** The writes and the close, on a freshly opened handle. */
  method WriteAndClose(h: Handle, v: Volume, chunks: seq<seq<byte>>, ghost cs: seq<nat>, ghost content: seq<byte>, ghost ds: seq<nat>)
    returns (ok: bool, ghost cs': seq<nat>)
    requires h.IsFile(v, cs, content) && h.buffer as object != v.disk && h.position == 0 && h.fileSize == |content|
    requires EntryOf(v.disk[..], v.geo, h.dirSector, h.dirOffset, cs, content)
    requires InDirectory(v.disk[..], v.geo, h.dirSector, ds) && Disjoint(cs, ds)
    requires |Flatten(chunks)| < 0x1_0000_0000
    modifies h, h.buffer, v.disk
    ensures ok <==> Flatten(chunks) == []
                    || CursorIndex(v.geo.sectorsPerCluster, |Flatten(chunks)|) + 1 <= |cs| + |FreeList(old(v.Table()))|
    ensures ok ==> Updated(old(v.disk[..]), v.disk[..], v.geo, old(h.dirSector), old(h.dirOffset), cs, cs', content, Flatten(chunks))
    ensures !ok ==> UpdateFailed(old(v.disk[..]), v.disk[..], v.geo, old(h.dirSector), old(h.dirOffset), cs, cs', Flatten(chunks))
  {
    hide *;
    ghost var d0, data := v.disk[..], Flatten(chunks);
    EntryParts(d0, v.geo, h.dirSector, h.dirOffset, cs, content);
    h.FileFields(v, cs, content);
    ghost var s0 := h.Now();
    FromStart(content, s0, data);
    ok, cs' := WriteAll(h, v, chunks, cs, content);
    h.Fields(v);
    if ok {
      UpdateEnds(d0, v.geo, h.dirSector, h.dirOffset, cs, content, ds, v.disk[..], h.Now(), cs', data);
    } else {
      FromStart(content, s0, data[..h.position]);
      CloseFailed(d0, v.geo, h.dirSector, h.dirOffset, cs, content, ds, v.disk[..], h.Now(), cs', data);
    }
    h.Close(v);
  }

  lemma FromStart(content: seq<byte>, s: Open, data: seq<byte>)
    requires s.position == 0 && s.fileSize == |content|
    ensures WriteResult(content, s, data) == Splice(content, 0, data)
    ensures |content| < 0x1_0000_0000 && |data| < 0x1_0000_0000 ==> |Splice(content, 0, data)| < 0x1_0000_0000
  {
    if data == [] { assert Splice(content, 0, []) == content; }
  }

  /** fat32_open of the file of a directory entry: a fresh handle; a read-only file is refused for
      reading. */
  method OpenFile(v: Volume, sector: nat, offset: nat, forRead: bool, ghost cs: seq<nat>, ghost content: seq<byte>)
    returns (ok: bool, h: Handle)
    requires EntryOf(v.disk[..], v.geo, sector, offset, cs, content)
    ensures fresh(h) && fresh(h.buffer) && h.IsFile(v, cs, content)
    ensures h.position == 0 && h.bufferSector == 0 && !h.bufferDirty && h.dirSector == sector && h.dirOffset == offset
    ensures h.fileSize == |content|
    ensures ok == !(forRead && ReadOnlyAt(v.disk[..], v.geo, sector, offset))
  {
    hide FatOf, IsChain, Holds, Refines, HasAttribute, GetU16, GetU32;
    h := new Handle();
    ok := h.OpenAt(v, sector, offset, forRead);
    FreshHandle(v.disk[..], v.geo, sector, offset, cs, content, h.Now());
  }

  /** The entry at (sector, offset) has the read-only attribute. */
  ghost predicate ReadOnlyAt(d: Image, g: Geometry, sector: nat, offset: nat)
    requires Fits(d, g) && g.partitionStart + sector < |d| && IsSlot(offset)
  {
    HasAttribute(AttributesAt(d[g.partitionStart + sector], offset), ATTR_READ_ONLY)
  }

  /** Closing after the writes leaves the file updated. */
  lemma UpdateEnds(d0: Image, g: Geometry, sector: nat, offset: nat, cs: seq<nat>, content: seq<byte>, ds: seq<nat>,
                   d1: Image, s: Open, cs': seq<nat>, data: seq<byte>)
    requires EntryOf(d0, g, sector, offset, cs, content) && InDirectory(d0, g, sector, ds) && Disjoint(cs, ds)
    requires Writing(d0, g, cs, d1, s, cs', Splice(content, 0, data)) && s.position == |data|
    requires |Splice(content, 0, data)| < 0x1_0000_0000
    ensures Fits(d1, g) && g.partitionStart + s.bufferSector < |d1| && (s.dirty ==> s.bufferSector != 0)
    ensures s.fileSize == |Splice(content, 0, data)|
    ensures Updated(d0, EntryUpdated(Shown(d1, g, s), g, sector, offset, |Splice(content, 0, data)|), g, sector, offset,
                    cs, cs', content, data)
  {
    hide EntryOf, FatOf, Writing, Extended, OnlyFile, OnlyUpdate, EntryUpdated, CursorIndex, SizeUpdated, Shown, InDirectory, Disjoint,
      Splice, IsChain, Holds, InFile;
    var now := Splice(content, 0, data);
    EntryParts(d0, g, sector, offset, cs, content);
    WritingChain(d0, g, cs, d1, s, cs', now);
    CloseUpdates(d0, g, sector, offset, cs, content, ds, d1, s, cs', now);
    UpdatedChain(d0, g, cs, d1, s, cs', now, data);
    WritingBuffer(d0, g, cs, d1, s, cs', now);
  }

  lemma EntryParts(d: Image, g: Geometry, sector: nat, offset: nat, cs: seq<nat>, content: seq<byte>)
    requires EntryOf(d, g, sector, offset, cs, content)
    ensures Fits(d, g) && sector != 0 && g.partitionStart + sector < |d| && IsSlot(offset) && cs != []
    ensures |content| < 0x1_0000_0000
  {
  }

  lemma WritingBuffer(d0: Image, g: Geometry, cs0: seq<nat>, d: Image, s: Open, cs: seq<nat>, content: seq<byte>)
    requires Writing(d0, g, cs0, d, s, cs, content)
    ensures s.dirty ==> s.bufferSector != 0
  {
  }

  /** Open a file for reading and read all of it: refused exactly for read-only entries. */
  method ReadFile(v: Volume, sector: nat, offset: nat, ghost cs: seq<nat>, ghost content: seq<byte>)
    returns (ok: bool, data: seq<byte>)
    requires EntryOf(v.disk[..], v.geo, sector, offset, cs, content)
    ensures Fits(v.disk[..], v.geo) && v.geo.partitionStart + sector < v.disk.Length && IsSlot(offset)
    ensures ok <==> !ReadOnlyAt(v.disk[..], v.geo, sector, offset)
    ensures data == if ok then content else []
  {
    hide EntryOf, FatOf, Refines, ReadOnlyAt;
    EntryParts(v.disk[..], v.geo, sector, offset, cs, content);
    var h;
    ok, h := OpenFile(v, sector, offset, true, cs, content);
    if !ok { return false, []; }
    var got;
    got, data := ReadPiece(h, v, h.fileSize, cs, content);
  }

  /** The round trip: what any sequence of writes and a close leave reads back, through a fresh
      handle, as the data followed by the old content beyond it -- unless the entry is read-only,
      which keeps the driver from reading the file but not from writing it. */
  method UpdateAndReadBack(v: Volume, sector: nat, offset: nat, chunks: seq<seq<byte>>,
                           ghost cs: seq<nat>, ghost content: seq<byte>, ghost ds: seq<nat>)
    returns (ok: bool, read: bool, back: seq<byte>, ghost cs': seq<nat>)
    requires EntryOf(v.disk[..], v.geo, sector, offset, cs, content)
    requires InDirectory(v.disk[..], v.geo, sector, ds) && Disjoint(cs, ds)
    requires |Flatten(chunks)| < 0x1_0000_0000
    modifies v.disk
    ensures ok <==> Flatten(chunks) == []
                    || CursorIndex(v.geo.sectorsPerCluster, |Flatten(chunks)|) + 1 <= |cs| + |FreeList(old(v.Table()))|
    ensures read <==> ok && !ReadOnlyAt(old(v.disk[..]), v.geo, sector, offset)
    ensures read ==> back == Flatten(chunks) + (if |Flatten(chunks)| <= |content| then content[|Flatten(chunks)|..] else [])
    ensures ok ==> Updated(old(v.disk[..]), v.disk[..], v.geo, sector, offset, cs, cs', content, Flatten(chunks))
  {
    hide *;
    ghost var d, g, now := v.disk[..], v.geo, Splice(content, 0, Flatten(chunks));
    EntryParts(d, g, sector, offset, cs, content);
    read, back := false, [];
    ok, cs' := UpdateFile(v, sector, offset, chunks, cs, content, ds);
    if ok {
      UpdatedEntry(d, v.disk[..], g, sector, offset, cs, cs', content, Flatten(chunks));
      SameReadOnly(d, v.disk[..], g, sector, offset, |now|);
      read, back := ReadFile(v, sector, offset, cs', now);
      SpliceAtStart(content, Flatten(chunks));
    }
  }

  lemma UpdatedEntry(d: Image, d': Image, g: Geometry, sector: nat, offset: nat, cs: seq<nat>, cs': seq<nat>,
                     content: seq<byte>, data: seq<byte>)
    requires Updated(d, d', g, sector, offset, cs, cs', content, data)
    ensures Fits(d, g) && Fits(d', g) && EntryOf(d', g, sector, offset, cs', Splice(content, 0, data))
    ensures |Splice(content, 0, data)| < 0x1_0000_0000 && g.partitionStart + sector < |d| && IsSlot(offset)
    ensures d'[g.partitionStart + sector] == SizeUpdated(d[g.partitionStart + sector], offset, |Splice(content, 0, data)|)
  {
    hide FatOf, Holds, IsChain, Extended, SizeUpdated, Splice, InFile, ClusterAt, SizeAt, HasAttribute, FatKept;
  }

  lemma SpliceAtStart(content: seq<byte>, data: seq<byte>)
    ensures Splice(content, 0, data) == data + if |data| <= |content| then content[|data|..] else []
  {
  }

  lemma SameReadOnly(d: Image, d': Image, g: Geometry, sector: nat, offset: nat, size: uint32)
    requires Fits(d, g) && Fits(d', g) && g.partitionStart + sector < |d| && IsSlot(offset)
    requires d'[g.partitionStart + sector] == SizeUpdated(d[g.partitionStart + sector], offset, size)
    ensures ReadOnlyAt(d', g, sector, offset) == ReadOnlyAt(d, g, sector, offset)
  {
    hide SizeUpdated, HasAttribute;
    SizeUpdatedMeans(d[g.partitionStart + sector], offset, size, offset);
  }

  lemma UpdatedChain(d0: Image, g: Geometry, cs0: seq<nat>, d: Image, s: Open, cs: seq<nat>, content: seq<byte>, data: seq<byte>)
    requires Writing(d0, g, cs0, d, s, cs, content) && cs0 != [] && s.position == |data|
    ensures data == [] ==> cs == cs0
    ensures data != [] ==> |cs| == Max(|cs0|, CursorIndex(g.sectorsPerCluster, |data|) + 1)
  {
  }

  /** Every other file keeps its chain and its bytes. */
  lemma OtherFileUnchanged(d: Image, d': Image, g: Geometry, sector: nat, offset: nat, cs: seq<nat>, cs': seq<nat>,
                           content: seq<byte>, data: seq<byte>, ds: seq<nat>, es: seq<nat>, other: seq<byte>)
    requires Updated(d, d', g, sector, offset, cs, cs', content, data)
    requires InDirectory(d, g, sector, ds) && IsChain(FatOf(d, g), es) && Holds(d, g, es, other)
    requires Disjoint(cs, es) && Disjoint(es, ds)
    ensures IsChain(FatOf(d', g), es) && Holds(d', g, es, other)
  {
    GrownApart(FatOf(d, g), cs, FatOf(d', g), cs', es);
    ChainShape(FatOf(d, g), es);
    ChainShape(FatOf(d, g), ds);
    ChainShape(FatOf(d', g), cs');
    hide FatOf, IsChain, InFile, Holds, Extended, EntryOf;
    forall l: nat | l < |d| && InFile(g, es, l) ensures d'[l] == d[l] {
      DisjointSectors(g, cs', es, l);
      DisjointSectors(g, es, ds, g.partitionStart + sector);
      FileNotInFats(g, es, l);
    }
    HoldsElsewhere(d, d', g, es, other);
  }

  // ----- truncation -----

  /** The number of clusters that n bytes need. */
  function Clusters(spc: nat, n: nat): nat
    requires spc > 0
  {
    if n == 0 then 0 else CursorIndex(spc, n) + 1
  }

  /** fat32_truncate's 32-bit sum for a size does not wrap around. */
  predicate CountFits(spc: nat, n: nat) { n + spc * 512 - 1 < 0x1_0000_0000 }

  /** When it does, less than a cluster is left and the count is 0, so nothing is ever cut. */
  lemma CountWraps(spc: nat, n: uint32)
    requires 0 < spc <= 255 && !CountFits(spc, n)
    ensures ClusterCount(spc, n) == 0
  {
    var m, sum := spc * 512, n + spc * 512 - 1;
    assert Wrap32(sum) == sum - 0x1_0000_0000;
    DivModUnique(m, 0, Wrap32(sum));
  }

  /** fat32_truncate's count is the rounded-up quotient while its 32-bit sum does not wrap around. */
  lemma ClusterCountIs(spc: nat, n: nat)
    requires spc > 0 && CountFits(spc, n)
    ensures ClusterCount(spc, n) == Clusters(spc, n)
    ensures spc * 512 > 0 && ClusterCount(spc, n) == (n + spc * 512 - 1) / (spc * 512)
  {
    var m := spc * 512;
    WrapSame32(n + m - 1);
    if n > 0 {
      ClustersNeeded(spc, n);
    } else {
      DivModUnique(m, 0, m - 1);
    }
  }

  /** A content of n bytes fits the first Clusters(n) clusters. */
  lemma PrefixFits(g: Geometry, cs: seq<nat>, n: nat)
    requires g.sectorsPerCluster > 0 && n <= Capacity(g, cs)
    ensures Clusters(g.sectorsPerCluster, n) <= |cs|
    ensures forall k: nat | Clusters(g.sectorsPerCluster, n) <= k <= |cs| :: n <= Capacity(g, cs[..k])
  {
    if n > 0 {
      CapacityBound(g, cs, n - 1);
      forall k: nat | Clusters(g.sectorsPerCluster, n) <= k <= |cs| ensures n <= Capacity(g, cs[..k]) {
        CapacityBound(g, cs[..k], n - 1);
      }
    }
    hide CursorIndex;
  }

  /** The first clusters of a chain hold the first bytes of its content. */
  lemma HoldsCut(d: Image, g: Geometry, cs: seq<nat>, content: seq<byte>, k: nat, n: nat)
    requires Holds(d, g, cs, content) && n <= |content| && 0 < k <= |cs| && Clusters(g.sectorsPerCluster, n) <= k
    ensures Holds(d, g, cs[..k], content[..n])
  {
    PrefixFits(g, cs, n);
    assert Distinct(cs[..k]) && AllInRange(cs[..k]);
    forall i: nat | i < n ensures ClusterOf(g.sectorsPerCluster, i / 512) < k && ByteAt(d, g, cs[..k], i) == content[..n][i] {
      CapacityBound(g, cs[..k], i);
      assert ByteAt(d, g, cs, i) == content[i];
    }
  }

  /** What truncation leaves of a chain: for a size that is not zero the clusters the new size
      needs, if these are fewer than the old size needed and the count of these did not wrap around;
      otherwise the whole chain. */
  ghost function ChainKept(spc: nat, cs: seq<nat>, oldSize: nat, newSize: nat): (r: seq<nat>)
    requires spc > 0 && Clusters(spc, newSize) <= |cs|
  {
    if CountFits(spc, oldSize) && newSize > 0 && Clusters(spc, newSize) < Clusters(spc, oldSize)
    then cs[..Clusters(spc, newSize)] else cs
  }

  /** Shrinking truncation, on the table and the bytes: exactly the clusters the new size needs
      are kept, the rest of the chain is freed, and the first bytes are those that were there. */
  lemma TruncateMeans(d: Image, g: Geometry, cs: seq<nat>, content: seq<byte>, newSize: nat, d1: Image)
    requires Holds(d, g, cs, content) && IsChain(FatOf(d, g), cs) && newSize < |content|
    requires |content| < 0x1_0000_0000 && FatOnly(d, d1, g)
    requires var kept, had := ClusterCount(g.sectorsPerCluster, newSize), ClusterCount(g.sectorsPerCluster, |content|);
      FatOf(d1, g) == if kept < had then CutStep(FatOf(d, g), cs[0], kept).0 else FatOf(d, g)
    ensures var kept, had := ClusterCount(g.sectorsPerCluster, newSize), ClusterCount(g.sectorsPerCluster, |content|);
      kept < had ==> CutStep(FatOf(d, g), cs[0], kept).1
    ensures Clusters(g.sectorsPerCluster, newSize) <= |cs|
    ensures var after, f, f1 := ChainKept(g.sectorsPerCluster, cs, |content|, newSize), FatOf(d, g), FatOf(d1, g);
      && IsChain(f1, after) && Holds(d1, g, after, content[..newSize])
      && (forall c: nat | c < 127006 && c !in cs :: f1[c] == f[c])
      && (forall c: nat | c in cs && c !in after :: InRange(c) && f1[c] == 0)
  {
    hide *;
    HoldsBounds(d, g, cs, content);
    FatOnlyFits(d, d1, g);
    ChainShape(FatOf(d, g), cs);
    var m := g.sectorsPerCluster;
    PrefixFits(g, cs, newSize);
    HoldsFatOnly(d, d1, g, cs, content);
    KeptIs(m, cs, |content|, newSize);
    NeedsNone(m);
    if !CountFits(m, |content|) {
      CountWraps(m, |content|);
      TruncateStays(FatOf(d, g), d1, g, cs, content, newSize);
    } else {
      FewerFit(m, newSize, |content|);
      ClusterCountIs(m, newSize);
      ClusterCountIs(m, |content|);
      if newSize > 0 && Clusters(m, newSize) < Clusters(m, |content|) {
        NeedsOne(m, newSize);
        TruncateCuts(FatOf(d, g), d1, g, cs, content, Clusters(m, newSize), newSize);
      } else {
        TruncateStays(FatOf(d, g), d1, g, cs, content, newSize);
      }
    }
  }

  lemma FewerFit(spc: nat, n: nat, size: nat)
    requires n <= size && CountFits(spc, size)
    ensures CountFits(spc, n)
  {
  }

  lemma HoldsBounds(d: Image, g: Geometry, cs: seq<nat>, content: seq<byte>)
    requires Holds(d, g, cs, content)
    ensures Fits(d, g) && 0 < g.sectorsPerCluster <= 255 && |content| <= Capacity(g, cs)
  {
    hide Capacity;
  }

  lemma KeptIs(spc: nat, cs: seq<nat>, oldSize: nat, newSize: nat)
    requires spc > 0 && Clusters(spc, newSize) <= |cs|
    ensures ChainKept(spc, cs, oldSize, newSize) ==
      if CountFits(spc, oldSize) && newSize > 0 && Clusters(spc, newSize) < Clusters(spc, oldSize)
      then cs[..Clusters(spc, newSize)] else cs
  {
  }

  /** Truncation to 0, or within the last cluster, leaves the table. */
  lemma TruncateStays(f: Fat, d1: Image, g: Geometry, cs: seq<nat>, content: seq<byte>, n: nat)
    requires IsChain(f, cs) && Holds(d1, g, cs, content) && n <= |content| && Clusters(g.sectorsPerCluster, n) <= |cs|
    ensures CutStep(f, cs[0], 0) == (f, true) && Holds(d1, g, cs, content[..n])
  {
    ChainShape(f, cs);
    assert cs[..|cs|] == cs;
    CutNothing(f, cs[0]);
    hide IsChain, CutStep;
    HoldsCut(d1, g, cs, content, |cs|, n);
  }

  lemma TruncateCuts(f: Fat, d1: Image, g: Geometry, cs: seq<nat>, content: seq<byte>, k: nat, n: nat)
    requires IsChain(f, cs) && Holds(d1, g, cs, content) && n <= |content|
    requires 0 < k == Clusters(g.sectorsPerCluster, n) <= |cs| && FatOf(d1, g) == CutStep(f, cs[0], k).0
    ensures CutStep(f, cs[0], k).1
    ensures IsChain(FatOf(d1, g), cs[..k]) && Holds(d1, g, cs[..k], content[..n])
    ensures forall c: nat | c < 127006 && c !in cs :: FatOf(d1, g)[c] == f[c]
    ensures forall c: nat | c in cs && c !in cs[..k] :: InRange(c) && FatOf(d1, g)[c] == 0
  {
    ChainShape(f, cs);
    assert forall c :: c in cs ==> InRange(c);
    assert forall c :: c in cs[..k] ==> c in cs;
    hide *;
    CutOnChain(f, cs, k);
    HoldsCut(d1, g, cs, content, k, n);
  }

  lemma NeedsOne(spc: nat, n: nat)
    requires spc > 0 && n > 0
    ensures Clusters(spc, n) > 0
  {
  }

  lemma NeedsNone(spc: nat)
    requires spc > 0
    ensures Clusters(spc, 0) == 0
  {
  }

  lemma CutNothing(f: Fat, first: nat)
    ensures CutStep(f, first, 0) == (f, true)
  {
  }

  /** A clean handle with an empty buffer, after it shrank its file: it still stands for the file exactly
      when its cursor is in the cluster of the byte before the new position; otherwise the cursor is
      in a cluster that the file may have lost. */
  lemma ShrunkHandle(d: Image, g: Geometry, s: Open, cs: seq<nat>, content: seq<byte>, newSize: nat)
    requires Fits(d, g) && AtCursor(g, s, cs) && Distinct(cs) && cs != [] && s.first == cs[0] && s.bufferSector == 0 && !s.dirty
    requires s.position <= |content| && newSize < |content| && Clusters(g.sectorsPerCluster, newSize) <= |cs|
    requires var kept := ChainKept(g.sectorsPerCluster, cs, |content|, newSize);
      IsChain(FatOf(d, g), kept) && Holds(d, g, kept, content[..newSize])
    ensures var kept, pos := ChainKept(g.sectorsPerCluster, cs, |content|, newSize), if s.position > newSize then newSize else s.position;
      Refines(d, g, s.(fileSize := newSize, position := pos), kept, content[..newSize])
      <==> CursorIndex(g.sectorsPerCluster, s.position) == CursorIndex(g.sectorsPerCluster, pos)
  {
    var m, pos := g.sectorsPerCluster, if s.position > newSize then newSize else s.position;
    var kept := ChainKept(m, cs, |content|, newSize);
    ChainShape(FatOf(d, g), kept);
    HoldsFits(d, g, kept, content[..newSize]);
    KeptIsPrefix(m, cs, |content|, newSize);
    CursorKept(m, cs, |content|, newSize, pos);
    hide FatOf, IsChain, Holds, CursorIndex, ChainKept, Clusters;
    assert cs[CursorIndex(m, pos)] == kept[CursorIndex(m, pos)];
  }

  lemma CursorKept(spc: nat, cs: seq<nat>, oldSize: nat, newSize: nat, pos: nat)
    requires spc > 0 && Clusters(spc, newSize) <= |cs| && pos <= newSize && cs != []
    ensures CursorIndex(spc, pos) < |ChainKept(spc, cs, oldSize, newSize)|
  {
    if newSize == 0 {
    } else {
      CursorMono(spc, pos, newSize);
    }
  }

  lemma PrefixInFile(g: Geometry, cs: seq<nat>, ds: seq<nat>, l: nat)
    requires g.sectorsPerCluster > 0 && cs <= ds
    ensures InFile(g, cs, l) ==> InFile(g, ds, l)
  {
    if InFile(g, cs, l) {
      var k: nat :| ClusterOf(g.sectorsPerCluster, k) < |cs| && l == Lba(g, cs, k);
      assert ClusterOf(g.sectorsPerCluster, k) < |ds| && l == Lba(g, ds, k);
    }
  }

  lemma DirectoryApart(d: Image, g: Geometry, sector: nat, cs: seq<nat>, ds: seq<nat>, kept: seq<nat>)
    requires InDirectory(d, g, sector, ds) && Disjoint(cs, ds) && AllInRange(cs) && kept <= cs
    ensures EntryApart(g, kept, g.partitionStart + sector) && g.partitionStart + sector < |d|
  {
    ChainShape(FatOf(d, g), ds);
    hide FatOf, IsChain, InFile, Disjoint, AllInRange, Distinct;
    DisjointSectors(g, cs, ds, g.partitionStart + sector);
    FileNotInFats(g, ds, g.partitionStart + sector);
    PrefixInFile(g, kept, cs, g.partitionStart + sector);
  }

  /** What a truncation leaves of the file and of the rest of the disk. */
  ghost predicate Truncated(d: Image, d': Image, g: Geometry, sector: nat, offset: nat, cs: seq<nat>, content: seq<byte>, newSize: nat) {
    && Fits(d, g) && Fits(d', g) && Clusters(g.sectorsPerCluster, newSize) <= |cs| && newSize <= |content|
    && var kept := ChainKept(g.sectorsPerCluster, cs, |content|, newSize);
    && EntryOf(d', g, sector, offset, kept, content[..newSize])
    && (forall c: nat | c < 127006 && c !in cs :: FatOf(d', g)[c] == FatOf(d, g)[c])
    && (forall c: nat | c in cs && c !in kept :: InRange(c) && FatOf(d', g)[c] == 0)
    && (forall l: nat | l < |d| && !InFats(g, l) && l != g.partitionStart + sector :: d'[l] == d[l])
    && g.partitionStart + sector < |d| && newSize < 0x1_0000_0000 && IsSlot(offset)
    && d'[g.partitionStart + sector] == SizeUpdated(d[g.partitionStart + sector], offset, newSize)
    && FatKept(d, d', g)
  }

  lemma TruncateEnds(d: Image, g: Geometry, sector: nat, offset: nat, cs: seq<nat>, content: seq<byte>, ds: seq<nat>,
                     newSize: uint32, d1: Image)
    requires EntryOf(d, g, sector, offset, cs, content) && InDirectory(d, g, sector, ds) && Disjoint(cs, ds)
    requires newSize < |content|
    requires FatOnly(d, d1, g)
    requires var kept, had := ClusterCount(g.sectorsPerCluster, newSize), ClusterCount(g.sectorsPerCluster, |content|);
      FatOf(d1, g) == if kept < had then CutStep(FatOf(d, g), cs[0], kept).0 else FatOf(d, g)
    ensures Truncated(d, EntryUpdated(d1, g, sector, offset, newSize), g, sector, offset, cs, content, newSize)
  {
    hide *;
    EntryMeans(d, g, sector, offset, cs, content);
    TruncateMeans(d, g, cs, content, newSize, d1);
    FatOnlyFits(d, d1, g);
    var kept, l, now := ChainKept(g.sectorsPerCluster, cs, |content|, newSize), g.partitionStart + sector, content[..newSize];
    var d2 := EntryUpdated(d1, g, sector, offset, newSize);
    ChainShape(FatOf(d, g), cs);
    ChainShape(FatOf(d1, g), kept);
    KeptIsPrefix(g.sectorsPerCluster, cs, |content|, newSize);
    DirectoryApart(d, g, sector, cs, ds, kept);
    NotInFats(g, kept, l);
    FatOnlyAt(d, d1, g, l);
    SizeUpdatedMeans(d[l], offset, newSize, offset);
    EntryWrite(d1, g, sector, offset, kept, now);
    MakeEntry(d2, g, sector, offset, kept, now);
    ShrinkFrame(d, d1, g, sector, d2, offset, newSize);
    FatKeptTrans(d, d1, d2, g);
    MakeTruncated(d, d2, g, sector, offset, cs, content, newSize);
  }

  lemma KeptIsPrefix(spc: nat, cs: seq<nat>, a: nat, b: nat)
    requires spc > 0 && Clusters(spc, b) <= |cs|
    ensures ChainKept(spc, cs, a, b) <= cs
    ensures ChainKept(spc, cs, a, b) != [] ==> ChainKept(spc, cs, a, b)[0] == cs[0]
  {
  }

  lemma FatOnlyFits(d: Image, d1: Image, g: Geometry)
    requires FatOnly(d, d1, g)
    ensures Fits(d, g) && Fits(d1, g) && |d1| == |d| && FatKept(d, d1, g)
  {
  }

  lemma NotInFats(g: Geometry, cs: seq<nat>, l: nat)
    requires g.sectorsPerCluster > 0 && EntryApart(g, cs, l)
    ensures !InFats(g, l)
  {
  }

  /** Writing a directory entry outside a file and the FATs. */
  lemma EntryWrite(d1: Image, g: Geometry, sector: nat, offset: nat, cs: seq<nat>, now: seq<byte>)
    requires Fits(d1, g) && IsChain(FatOf(d1, g), cs) && Holds(d1, g, cs, now) && |now| < 0x1_0000_0000
    requires EntryApart(g, cs, g.partitionStart + sector) && g.partitionStart + sector < |d1| && IsSlot(offset) && sector != 0
    ensures var d2, l := EntryUpdated(d1, g, sector, offset, |now|), g.partitionStart + sector;
      && FatOf(d2, g) == FatOf(d1, g) && Holds(d2, g, cs, now) && |d2| == |d1| && d2[l] == SizeUpdated(d1[l], offset, |now|)
      && FatKept(d1, d2, g)
  {
    hide FatOf, IsChain, Holds, EntryUpdated, SizeUpdated, InFile, InFats;
    var s := Open(0, 0, 0, 0, 0, false, ZeroSector());
    assert Shown(d1, g, s) == d1;
    CloseKeeps(d1, g, sector, offset, s, cs, now);
  }

  lemma ShrinkFrame(d: Image, d1: Image, g: Geometry, sector: nat, d2: Image, offset: nat, size: uint32)
    requires FatOnly(d, d1, g) && Fits(d1, g) && g.partitionStart + sector < |d1| && IsSlot(offset)
    requires d2 == EntryUpdated(d1, g, sector, offset, size)
    ensures Fits(d2, g) && forall k: nat | k < |d| && !InFats(g, k) && k != g.partitionStart + sector :: d2[k] == d[k]
  {
    hide SizeUpdated;
  }

  lemma MakeTruncated(d: Image, d': Image, g: Geometry, sector: nat, offset: nat, cs: seq<nat>, content: seq<byte>, newSize: nat)
    requires Fits(d, g) && Fits(d', g) && Clusters(g.sectorsPerCluster, newSize) <= |cs| && newSize <= |content|
    requires EntryOf(d', g, sector, offset, ChainKept(g.sectorsPerCluster, cs, |content|, newSize), content[..newSize])
    requires forall c: nat | c < 127006 && c !in cs :: FatOf(d', g)[c] == FatOf(d, g)[c]
    requires forall c: nat | c in cs && c !in ChainKept(g.sectorsPerCluster, cs, |content|, newSize) :: InRange(c) && FatOf(d', g)[c] == 0
    requires forall l: nat | l < |d| && !InFats(g, l) && l != g.partitionStart + sector :: d'[l] == d[l]
    requires g.partitionStart + sector < |d| && newSize < 0x1_0000_0000 && IsSlot(offset)
    requires d'[g.partitionStart + sector] == SizeUpdated(d[g.partitionStart + sector], offset, newSize)
    requires FatKept(d, d', g)
    ensures Truncated(d, d', g, sector, offset, cs, content, newSize)
  {
  }

  lemma EntryMeans(d: Image, g: Geometry, sector: nat, offset: nat, cs: seq<nat>, content: seq<byte>)
    requires EntryOf(d, g, sector, offset, cs, content)
    ensures Fits(d, g) && sector != 0 && g.partitionStart + sector < |d| && IsSlot(offset) && g.sectorsPerCluster > 0
    ensures IsChain(FatOf(d, g), cs) && Holds(d, g, cs, content) && |content| < 0x1_0000_0000 && cs != []
    ensures ClusterAt(d[g.partitionStart + sector], offset) == cs[0]
    ensures SizeAt(d[g.partitionStart + sector], offset) == |content|
    ensures !HasAttribute(AttributesAt(d[g.partitionStart + sector], offset), ATTR_DIRECTORY)
  {
  }

  lemma MakeEntry(d: Image, g: Geometry, sector: nat, offset: nat, cs: seq<nat>, content: seq<byte>)
    requires Fits(d, g) && sector != 0 && g.partitionStart + sector < |d| && IsSlot(offset)
    requires IsChain(FatOf(d, g), cs) && Holds(d, g, cs, content) && |content| < 0x1_0000_0000
    requires ClusterAt(d[g.partitionStart + sector], offset) == cs[0]
    requires SizeAt(d[g.partitionStart + sector], offset) == |content|
    requires !HasAttribute(AttributesAt(d[g.partitionStart + sector], offset), ATTR_DIRECTORY)
    ensures EntryOf(d, g, sector, offset, cs, content)
  {
  }

  /** Open a file and truncate it to a smaller size. */
  method TruncateFile(v: Volume, sector: nat, offset: nat, newSize: uint32,
                      ghost cs: seq<nat>, ghost content: seq<byte>, ghost ds: seq<nat>)
    returns (ok: bool)
    requires EntryOf(v.disk[..], v.geo, sector, offset, cs, content)
    requires InDirectory(v.disk[..], v.geo, sector, ds) && Disjoint(cs, ds)
    requires newSize < |content|
    modifies v.disk
    ensures ok && Truncated(old(v.disk[..]), v.disk[..], v.geo, sector, offset, cs, content, newSize)
  {
    hide *;
    ghost var d, g := v.disk[..], v.geo;
    EntryMeans(d, g, sector, offset, cs, content);
    TruncateCountsOk(d, g, cs, content, newSize);
    var opening, h := OpenFile(v, sector, offset, false, cs, content);
    h.FileFields(v, cs, content);
    h.Fields(v);
    FirstOf(d, g, h.Now(), cs, content);
    ghost var d1;
    ok, d1 := h.Truncate(v, newSize);
    TruncateEnds(d, g, sector, offset, cs, content, ds, newSize, d1);
  }

  /** Truncate a file and read it back through a fresh handle, unless its entry is read-only. */
  method TruncateAndReadBack(v: Volume, sector: nat, offset: nat, newSize: uint32,
                             ghost cs: seq<nat>, ghost content: seq<byte>, ghost ds: seq<nat>)
    returns (ok: bool, read: bool, back: seq<byte>)
    requires EntryOf(v.disk[..], v.geo, sector, offset, cs, content)
    requires InDirectory(v.disk[..], v.geo, sector, ds) && Disjoint(cs, ds)
    requires newSize < |content|
    modifies v.disk
    ensures Truncated(old(v.disk[..]), v.disk[..], v.geo, sector, offset, cs, content, newSize)
    ensures ok && (read <==> !ReadOnlyAt(old(v.disk[..]), v.geo, sector, offset))
    ensures read ==> back == content[..newSize]
  {
    hide *;
    ghost var d, g := v.disk[..], v.geo;
    EntryMeans(d, g, sector, offset, cs, content);
    ok := TruncateFile(v, sector, offset, newSize, cs, content, ds);
    TruncatedEntry(d, v.disk[..], g, sector, offset, cs, content, newSize);
    SameReadOnly(d, v.disk[..], g, sector, offset, newSize);
    read, back := ReadFile(v, sector, offset, ChainKept(g.sectorsPerCluster, cs, |content|, newSize), content[..newSize]);
  }

  lemma FirstOf(d: Image, g: Geometry, s: Open, cs: seq<nat>, content: seq<byte>)
    requires Refines(d, g, s, cs, content)
    ensures cs != [] && s.first == cs[0]
  {
  }

  lemma TruncatedEntry(d: Image, d': Image, g: Geometry, sector: nat, offset: nat, cs: seq<nat>, content: seq<byte>, newSize: nat)
    requires Truncated(d, d', g, sector, offset, cs, content, newSize)
    ensures Fits(d, g) && Fits(d', g) && g.partitionStart + sector < |d| && newSize < 0x1_0000_0000 && IsSlot(offset)
    ensures d'[g.partitionStart + sector] == SizeUpdated(d[g.partitionStart + sector], offset, newSize)
    ensures Fits(d', g) && g.sectorsPerCluster > 0 && Clusters(g.sectorsPerCluster, newSize) <= |cs| && newSize <= |content|
    ensures EntryOf(d', g, sector, offset, ChainKept(g.sectorsPerCluster, cs, |content|, newSize), content[..newSize])
  {
  }

  lemma TruncateCountsOk(d: Image, g: Geometry, cs: seq<nat>, content: seq<byte>, newSize: nat)
    requires Holds(d, g, cs, content) && IsChain(FatOf(d, g), cs) && newSize < |content| < 0x1_0000_0000
    ensures ClusterCount(g.sectorsPerCluster, newSize) < ClusterCount(g.sectorsPerCluster, |content|) ==>
      CutStep(FatOf(d, g), cs[0], ClusterCount(g.sectorsPerCluster, newSize)).1
  {
    hide *;
    HoldsBounds(d, g, cs, content);
    var f, m := FatOf(d, g), g.sectorsPerCluster;
    ChainShape(f, cs);
    if !CountFits(m, |content|) {
      CountWraps(m, |content|);
    } else {
      FewerFit(m, newSize, |content|);
      ClusterCountIs(m, newSize);
      PrefixFits(g, cs, newSize);
      NeedsNone(m);
      if newSize == 0 {
        CutNothing(f, cs[0]);
      } else {
        NeedsOne(m, newSize);
        CutOnChain(f, cs, Clusters(m, newSize));
      }
    }
  }
}
