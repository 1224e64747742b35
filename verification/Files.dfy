/** File handles of kernel/drivers/fs/fat32.c: fat32_read, fat32_write, fat32_seek and
    fat32_close as methods, proved against a byte sequence with a position. */
module Files {
  import opened Words
  import opened FatChains
  import opened FatRuns
  import opened Sectors
  import opened FatVolume
  import opened FileImages
  import opened FileSteps
  import opened DirEntries

  class Handle {
    var firstCluster: nat
    var currentCluster: nat
    var fileSize: uint32
    var position: uint32
    var isDirectory: bool
    var isOpen: bool
    const buffer: array<byte>
    var bufferSector: nat
    var bufferDirty: bool
    var dirSector: nat
    var dirOffset: nat

    /** A handle as memset leaves it. */
    constructor ()
      ensures fresh(buffer) && buffer.Length == 512 && !isOpen && bufferSector == 0 && !bufferDirty
      ensures dirSector == 0 && position == 0 && fileSize == 0
    {
      firstCluster, currentCluster, fileSize, position := 0, 0, 0, 0;
      isDirectory, isOpen := false, false;
      buffer := new byte[512](_ => 0);
      bufferSector, bufferDirty := 0, false;
      dirSector, dirOffset := 0, 0;
    }

    ghost predicate Shape(v: Volume)
      reads this`isOpen, this`isDirectory, v.disk
    {
      v.Valid() && buffer.Length == 512 && isOpen && !isDirectory
    }

    /** The fields as a value. */
    ghost function Now(): Open
      reads this, buffer
      requires buffer.Length == 512
    {
      Open(firstCluster, currentCluster, fileSize, position, bufferSector, bufferDirty, buffer[..])
    }

    /** An open file: its chain, and the bytes it shows. */
    ghost predicate IsFile(v: Volume, cs: seq<nat>, content: seq<byte>)
      reads this, buffer, v.disk
    {
      Shape(v) && Refines(v.disk[..], v.geo, Now(), cs, content)
    }

    lemma ShapeIs(v: Volume)
      ensures Shape(v) <==> v.Valid() && buffer.Length == 512 && isOpen && !isDirectory
    {
    }

    lemma NowIs()
      requires buffer.Length == 512
      ensures Now() == Open(firstCluster, currentCluster, fileSize, position, bufferSector, bufferDirty, buffer[..])
    {
    }

    /** The fields of an open file's value. */
    lemma Fields(v: Volume)
      requires Shape(v)
      ensures v.Valid() && buffer.Length == 512
      ensures Now() == Open(firstCluster, currentCluster, fileSize, position, bufferSector, bufferDirty, buffer[..])
      ensures v.geo.partitionStart + dirSector < v.disk.Length && IsSlot(dirOffset) ==> EntryOnDisk(v)
    {
    }

    lemma FileFields(v: Volume, cs: seq<nat>, content: seq<byte>)
      requires IsFile(v, cs, content)
      ensures Shape(v) && v.Valid() && buffer.Length == 512 && v.Table() == FatOf(v.disk[..], v.geo)
      ensures Refines(v.disk[..], v.geo, Now(), cs, content)
      ensures Now() == Open(firstCluster, currentCluster, fileSize, position, bufferSector, bufferDirty, buffer[..])
    {
    }

    lemma MakeFile(v: Volume, cs: seq<nat>, content: seq<byte>)
      requires Shape(v) && Refines(v.disk[..], v.geo, Now(), cs, content)
      ensures IsFile(v, cs, content)
    {
    }

    /** memcpy(buffer + off, data, |data|). */
    method CopyIn(off: nat, data: seq<byte>)
      requires buffer.Length == 512 && off + |data| <= 512
      modifies buffer
      ensures buffer[..] == Patch(old(buffer[..]), off, data)
    {
      for i := 0 to |data|
        invariant buffer[..off] == old(buffer[..off])
        invariant buffer[off..off + i] == data[..i]
        invariant buffer[off + i..] == old(buffer[off + i..])
      {
        buffer[off + i] := data[i];
      }
    }

    /** memcpy of a whole sector. */
    method Fill(s: Sector)
      requires buffer.Length == 512
      modifies buffer
      ensures buffer[..] == s
    {
      for i := 0 to 512
        invariant buffer[..i] == s[..i]
      {
        buffer[i] := s[i];
      }
    }

    /** The growth inside fat32_write: link the tail to the lowest free cluster, and terminate it. */
    method Grow(v: Volume) returns (ok: bool, newCluster: nat)
      requires v.Valid() && InRange(currentCluster)
      modifies v.disk
      ensures v.Valid() && FatOnly(old(v.disk[..]), v.disk[..], v.geo)
      ensures newCluster == FindFree(old(v.Table()))
      ensures (v.Table(), ok) == GrowStep(old(v.Table()), currentCluster)
    {
      hide FatOf, FindFree, FatOnly, Fits, FreeList, EntryWritten, FatKept;
      FindFreeIsNotZero(v.Table());
      newCluster := v.FindFreeCluster();
      if newCluster == 0 { assert false; }
      var linked := v.WriteFatEntry(currentCluster, newCluster);
      ghost var between := v.disk[..];
      assert linked && newCluster % 0x1000_0000 == newCluster;
      assert v.Table() == old(v.Table())[currentCluster := newCluster];
      var ended := v.WriteFatEntry(newCluster, LAST_CLUSTER);
      FatOnlyTrans(old(v.disk[..]), between, v.disk[..], v.geo);
      ok := linked && ended;
    }

    /** The cluster step of fat32_write: follow the chain, or grow it. */
    method AdvanceForWrite(v: Volume, ghost cs: seq<nat>, ghost content: seq<byte>, ghost shift: nat, ghost base: nat)
      returns (ok: bool, ghost cs': seq<nat>)
      requires Shape(v) && CursorAhead(v.geo, Now(), shift, base)
      requires Refines(v.disk[..], v.geo, From(v, shift, base), cs, content)
      modifies this`currentCluster, v.disk
      ensures Shape(v) && Now() == old(Now()).(current := Now().current)
      ensures Advanced(old(v.disk[..]), v.disk[..], v.geo, old(From(v, shift, base)), From(v, shift, base), cs, cs', content, ok)
    {
      hide *;
      Fields(v);
      TableIs(v);
      FromIs(v, shift, base);
      SameOffsets(v.geo, Now(), shift, base);
      ghost var now, s, d := Now(), From(v, shift, base), v.disk[..];
      AtTail(d, v.geo, s, cs, content);
      BoundaryIs(v.geo, Now());
      cs' := cs;
      ok := true;
      var clusterOffset := ClusterOffset(v.geo.sectorsPerCluster, position);
      if clusterOffset == 0 && position > 0 {
        var nextCluster := v.ReadFatEntry(currentCluster);
        if nextCluster >= LAST_CLUSTER {
          var newCluster;
          ShapeIs(v);
          ok, newCluster := Grow(v);
          TableIs(v);
          ShapeIs(v);
          NowIs();
          if ok {
            currentCluster := newCluster;
            NowIs();
            Moved(v, shift, base, now, newCluster);
            cs' := cs + [newCluster];
            AdvanceGrows(d, v.disk[..], v.geo, s, cs, content, newCluster);
          } else {
            NowIs();
            Moved(v, shift, base, now, currentCluster);
            AdvanceFails(d, v.disk[..], v.geo, s, cs, content);
          }
        } else {
          currentCluster := nextCluster;
          NowIs();
          Moved(v, shift, base, now, nextCluster);
          AdvanceFollows(d, v.geo, s, cs, content);
        }
      } else {
        AdvanceStays(d, v.geo, s, cs, content);
      }
    }

    /** Bringing the target sector into the buffer. */
    method LoadForWrite(v: Volume)
      requires Shape(v) && buffer as object != v.disk
      requires v.geo.partitionStart + bufferSector < v.disk.Length
      requires v.geo.partitionStart + TargetSector(v.geo, Now()) < v.disk.Length
      modifies this`bufferSector, this`bufferDirty, buffer, v.disk
      ensures Shape(v)
      ensures (v.disk[..], Now()) == LoadStep(old(v.disk[..]), v.geo, old(Now()))
    {
      var clusterOffset := ClusterOffset(v.geo.sectorsPerCluster, position);
      var sector := v.geo.ClusterToSector(currentCluster) + clusterOffset / 512;
      if sector != bufferSector {
        if bufferDirty && bufferSector != 0 {
          v.WriteSector(bufferSector, buffer[..]);
          bufferDirty := false;
        }
        if position < fileSize {
          var s := v.ReadSector(sector);
          Fill(s);
        } else {
          Fill(ZeroSector());
        }
        bufferSector := sector;
      }
    }

    /** Copying into the buffer, and the new position and size. */
    method CopyForWrite(data: seq<byte>)
      requires buffer.Length == 512 && position % 512 + |data| <= 512 && position + |data| < 0x1_0000_0000
      modifies this`position, this`fileSize, this`bufferDirty, buffer
      ensures Now() == CopyStep(old(Now()), data)
    {
      hide *;
      NowIs();
      CopyFields(Now(), data);
      CopyIn(position % 512, data);
      bufferDirty := true;
      position := position + |data|;
      if position > fileSize {
        fileSize := position;
      }
      NowIs();
    }

    /** One round of fat32_write's loop: at most the rest of one sector. */
    method WriteRound(v: Volume, data: seq<byte>, ghost d0: Image, ghost cs0: seq<nat>, ghost cs: seq<nat>, ghost content: seq<byte>,
                      ghost shift: nat, ghost base: nat, ghost end: nat)
      returns (ok: bool, n: nat, ghost cs': seq<nat>)
      requires Shape(v) && buffer as object != v.disk && data != [] && CursorAhead(v.geo, Now(), shift, base)
      requires Writing(d0, v.geo, cs0, v.disk[..], From(v, shift, base), cs, content)
      requires position + |data| < 0x1_0000_0000 && From(v, shift, base).position + |data| == end
      modifies this`currentCluster, this`bufferSector, this`bufferDirty, this`position, this`fileSize, buffer, v.disk
      ensures ok ==> Shape(v) && 0 < n <= |data| && position == old(position) + n && bufferSector != 0
      ensures ok ==> fileSize == Max(old(fileSize), position) && CursorAhead(v.geo, Now(), shift, base)
      ensures ok ==> old(From(v, shift, base)).position <= |content| == old(From(v, shift, base)).fileSize
      ensures ok ==>
        var s := old(From(v, shift, base));
        var ready := s.position % 512 == 0 || s.bufferSector != 0 || s.position < s.fileSize;
        Writing(d0, v.geo, cs0, v.disk[..], From(v, shift, base), cs',
                Splice(WriteBase(content, s.position, ready), s.position, data[..n]))
      ensures !ok ==> Shape(v) && cs' == cs && Failed(d0, v.geo, cs0, v.disk[..], Now(), cs', content)
      ensures !ok ==> position == old(position) && fileSize == old(fileSize) && From(v, shift, base).position == Capacity(v.geo, cs')
      ensures !ok ==> CursorIndex(v.geo.sectorsPerCluster, end) + 1 > |cs0| + |FreeList(FatOf(d0, v.geo))|
    {
      hide *;
      Fields(v);
      FromIs(v, shift, base);
      ghost var d, s, view := v.disk[..], Now(), From(v, shift, base);
      WritingRefines(d0, v.geo, cs0, d, view, cs, content);
      SameOffsets(v.geo, s, shift, base);
      var sectorOffset := position % 512;
      n := 512 - sectorOffset;
      if n > |data| { n := |data|; }
      ok, cs' := AdvanceForWrite(v, cs, content, shift, base);
      ghost var d1, s1 := v.disk[..], Now();
      Fields(v);
      FromIs(v, shift, base);
      if !ok {
        WritingFails(d0, v.geo, cs0, d, view, cs, content, d1, From(v, shift, base), cs', end);
        FailedAhead(d0, v.geo, cs0, d1, s1, cs', content, Ahead(v.geo.sectorsPerCluster, shift), base);
        return;
      }
      RoundAhead(d0, v.geo, cs0, d, s, cs, content, d1, s1, cs', data[..n], shift, base);
      LoadForWrite(v);
      NowIs();
      CopyFields(Now(), data[..n]);
      CopyForWrite(data[..n]);
      MaxIs(old(fileSize), position);
      NowIs();
      FromIs(v, shift, base);
    }

    /** The handle as its cursor sees it, `shift` clusters further on. */
    ghost function From(v: Volume, shift: nat, base: nat): Open
      reads this, buffer
      requires buffer.Length == 512
    {
      Shifted(Now(), Ahead(v.geo.sectorsPerCluster, shift), base)
    }

    lemma FromIs(v: Volume, shift: nat, base: nat)
      requires buffer.Length == 512
      ensures From(v, shift, base) == Shifted(Now(), Ahead(v.geo.sectorsPerCluster, shift), base)
    {
    }

    /** What moving the cursor does to both views. */
    lemma Moved(v: Volume, shift: nat, base: nat, now: Open, c: nat)
      requires buffer.Length == 512 && Now() == now.(current := c)
      ensures From(v, shift, base) == Shifted(now, Ahead(v.geo.sectorsPerCluster, shift), base).(current := c)
    {
      hide Now;
    }

    /** fat32_write: the content becomes WriteResult -- the data spliced in at the position, except
        that a write in the middle of a sector at the end of the file, with an empty buffer, first
        zeroes the bytes before it in that sector.  The file grows as needed, and nothing else on
        the disk changes.  It fails exactly when the clusters run out, and has then written what fits
        the file's clusters and all the free ones.  With the cursor `shift` clusters ahead, position and
        content are those that many clusters further on. */
    method Write(v: Volume, data: seq<byte>, ghost cs: seq<nat>, ghost content: seq<byte>, ghost shift: nat, ghost base: nat)
      returns (ok: bool, ghost cs': seq<nat>)
      requires Shape(v) && CursorAhead(v.geo, Now(), shift, base) && position <= fileSize && buffer as object != v.disk
      requires Refines(v.disk[..], v.geo, From(v, shift, base), cs, content)
      requires position + |data| < 0x1_0000_0000
      modifies this`currentCluster, this`bufferSector, this`bufferDirty, this`position, this`fileSize, buffer, v.disk
      ensures ok <==> data == []
                      || CursorIndex(v.geo.sectorsPerCluster, old(From(v, shift, base)).position + |data|) + 1
                         <= |cs| + |FreeList(old(v.Table()))|
      ensures ok ==> position == old(position) + |data| && fileSize == Max(old(fileSize), position) && Shape(v)
      ensures ok ==> old(From(v, shift, base)).position <= |content| == old(From(v, shift, base)).fileSize
      ensures ok ==> if data == [] then Now() == old(Now()) else bufferSector != 0
      ensures ok ==> CursorAhead(v.geo, Now(), shift, base)
      ensures ok ==> Writing(old(v.disk[..]), v.geo, cs, v.disk[..], From(v, shift, base), cs',
                             WriteResult(content, old(From(v, shift, base)), data))
      ensures !ok ==> Shape(v) && cs <= cs' && old(position) <= position < old(position) + |data|
      ensures !ok ==> fileSize == Max(old(fileSize), position) && From(v, shift, base).position == Capacity(v.geo, cs')
      ensures !ok ==> old(From(v, shift, base)).position <= |content| == old(From(v, shift, base)).fileSize
      ensures !ok ==> Failed(old(v.disk[..]), v.geo, cs, v.disk[..], Now(), cs',
                             WriteResult(content, old(From(v, shift, base)), data[..position - old(position)]))
    {
      hide *;
      Fields(v);
      TableIs(v);
      ghost var d0, s0, now, size := v.disk[..], From(v, shift, base), content, fileSize;
      FromIs(v, shift, base);
      SameOffsets(v.geo, Now(), shift, base);
      WritingStart(d0, v.geo, s0, cs, content);
      WritingRefines(d0, v.geo, cs, d0, s0, cs, content);
      NothingYet(content, s0, data);
      MaxIs(size, position);
      cs' := cs;
      var written := 0;
      while written < |data|
        invariant 0 <= written <= |data| && Shape(v) && CursorAhead(v.geo, Now(), shift, base)
        invariant position == old(position) + written && fileSize == Max(size, position)
        invariant now == WriteResult(content, s0, data[..written])
        invariant Writing(d0, v.geo, cs, v.disk[..], From(v, shift, base), cs', now) && cs <= cs'
        invariant written == 0 ==> Now() == old(Now())
        invariant written > 0 ==> bufferSector != 0
      {
        Fields(v);
        FromIs(v, shift, base);
        SameOffsets(v.geo, Now(), shift, base);
        ghost var s := From(v, shift, base);
        WritingRefines(d0, v.geo, cs, v.disk[..], s, cs', now);
        var n;
        ok, n, cs' := WriteRound(v, data[written..], d0, cs, cs', now, shift, base, s0.position + |data|);
        if !ok { return; }
        now := OnePieceMore(d0, v.geo, cs, v.disk[..], From(v, shift, base), cs', content, s0, data, written, n, now, s);
        MaxAgain(size, position - n, position);
        written := written + n;
      }
      assert data[..|data|] == data;
      ok := true;
      Fields(v);
      FromIs(v, shift, base);
      SameOffsets(v.geo, Now(), shift, base);
      WritingFitsFree(d0, v.geo, cs, v.disk[..], From(v, shift, base), cs', now);
    }

    /** The cluster step of fat32_read: follow the chain at a cluster boundary, or stop at its end. */
    method AdvanceForRead(v: Volume, ghost cs: seq<nat>) returns (more: bool)
      requires Shape(v) && IsChain(v.Table(), cs) && currentCluster in cs
      modifies this`currentCluster
      ensures currentCluster ==
        if AtBoundary(v.geo, old(Now())) then Entry(v.Table(), old(currentCluster)) else old(currentCluster)
      ensures more <==> !(AtBoundary(v.geo, old(Now())) && currentCluster >= LAST_CLUSTER)
      ensures more ==> currentCluster in cs
    {
      hide FatOf, IsChain, ClusterOffset;
      NextInChain(v.Table(), cs, currentCluster);
      var clusterOffset := ClusterOffset(v.geo.sectorsPerCluster, position);
      if clusterOffset == 0 && position > 0 {
        currentCluster := v.ReadFatEntry(currentCluster);
        if currentCluster >= LAST_CLUSTER {
          return false;
        }
      }
      more := true;
    }

    /** One round of fat32_read's loop: at most the rest of one sector, or none at the chain's end. */
    method ReadOne(v: Volume, left: nat, ghost cs: seq<nat>, ghost shift: nat, ghost exact: bool) returns (more: bool, piece: seq<byte>)
      requires Shape(v) && OnDisk(v.disk[..], v.geo, cs) && IsChain(v.Table(), cs) && currentCluster in cs
      requires left > 0 && (bufferSector != 0 ==> Cached(v))
      requires exact ==> position + left < 0x1_0000_0000 && Reading(v.disk[..], v.geo, Now(), cs, shift)
      modifies this`currentCluster, this`bufferSector, this`position, buffer
      ensures |piece| <= left && (more <==> piece != [])
      ensures more ==> currentCluster in cs && (bufferSector != 0 ==> Cached(v))
      ensures exact ==> ReadDone(v.disk[..], v.geo, old(Now()), Now(), cs, shift, piece, more)
    {
      hide *;
      Fields(v);
      TableIs(v);
      ghost var d, s := v.disk[..], Now();
      more := AdvanceForRead(v, cs);
      NowIs();
      if !more {
        if exact { ReadEnds(d, v.geo, s, cs, shift, currentCluster); }
        return false, [];
      }
      var n := 512 - position % 512;
      if n > left { n := left; }
      TargetOnDisk(d, v.geo, Now(), cs);
      if exact {
        ReadGoesOn(d, v.geo, s, cs, shift, currentCluster, n);
        WrapSame32(position + n);
      }
      piece := TakePiece(v, n);
      NowIs();
      CachedIs(v);
      ReadStepIs(s, currentCluster, TargetSector(v.geo, s.(current := currentCluster)), buffer[..], n);
    }

    /** The buffer part of a round: make the target sector current, and take n bytes out of it. */
    method TakePiece(v: Volume, n: nat) returns (piece: seq<byte>)
      requires Shape(v) && n > 0 && position % 512 + n <= 512
      requires v.geo.partitionStart + TargetSector(v.geo, Now()) < v.disk.Length
      requires bufferSector != 0 ==> Cached(v)
      requires TargetSector(v.geo, Now()) > 0
      modifies this`bufferSector, this`position, buffer
      ensures var target := TargetSector(v.geo, old(Now()));
        && piece == v.disk[v.geo.partitionStart + target][old(position) % 512..old(position) % 512 + n]
        && buffer[..] == v.disk[v.geo.partitionStart + target]
        && bufferSector == (if old(position) % 512 + n == 512 then 0 else target)
        && position == Wrap32(old(position) + n)
    {
      PositionParts(v.geo.sectorsPerCluster, position);
      var clusterOffset := ClusterOffset(v.geo.sectorsPerCluster, position);
      var sectorOffset := clusterOffset % 512;
      var sector := v.geo.ClusterToSector(currentCluster) + clusterOffset / 512;
      if sector != bufferSector {
        var content := v.ReadSector(sector);
        Fill(content);
        bufferSector := sector;
      }
      piece := buffer[sectorOffset..sectorOffset + n];
      position := Wrap32(position + n);
      if sectorOffset + n == 512 {
        bufferSector := 0;
      }
    }

    /** The loop of fat32_read, for `size` bytes; `exact` says that the position cannot wrap around. */
    method ReadPieces(v: Volume, size: nat, ghost cs: seq<nat>, ghost shift: nat, ghost exact: bool) returns (data: seq<byte>)
      requires Shape(v) && OnDisk(v.disk[..], v.geo, cs) && IsChain(v.Table(), cs) && currentCluster in cs
      requires bufferSector != 0 ==> Cached(v)
      requires exact ==> position + size < 0x1_0000_0000 && Reading(v.disk[..], v.geo, Now(), cs, shift)
      modifies this`currentCluster, this`bufferSector, this`position, buffer
      ensures |data| <= size
      ensures exact ==>
        var start := old(position) + Ahead(v.geo.sectorsPerCluster, shift);
        && data == Slice(v.disk[..], v.geo, cs, start, |data|)
        && |data| == (if start + size <= Capacity(v.geo, cs) then size else Capacity(v.geo, cs) - start)
        && position == old(position) + |data|
        && (|data| == size ==> Reading(v.disk[..], v.geo, Now(), cs, shift))
    {
      hide FatOf, IsChain, Capacity, Slice, Reading, ReadDone, OnDisk, ClusterOffset, Ahead;
      data := [];
      ghost var p0, start := position, position + Ahead(v.geo.sectorsPerCluster, shift);
      if exact { ReadingFits(v.disk[..], v.geo, Now(), cs, shift); }
      while |data| < size
        invariant |data| <= size && Shape(v)
        invariant currentCluster in cs
        invariant bufferSector != 0 ==> Cached(v)
        invariant exact ==> position == p0 + |data| && Reading(v.disk[..], v.geo, Now(), cs, shift)
        invariant exact ==> data == Slice(v.disk[..], v.geo, cs, start, |data|) && start + |data| <= Capacity(v.geo, cs)
        decreases size - |data|
      {
        ghost var s := Now();
        var more, piece := ReadOne(v, size - |data|, cs, shift, exact);
        if exact { ReadDoneMeans(v.disk[..], v.geo, s, Now(), cs, shift, piece, more); }
        if !more { break; }
        if exact { SliceAppend(v.disk[..], v.geo, cs, start, |data|, |piece|); }
        data := data + piece;
      }
    }

    /** The buffer holds what is on disk. */
    ghost predicate Cached(v: Volume)
      reads this`bufferSector, buffer, v.disk
    {
      v.geo.partitionStart + bufferSector < v.disk.Length && buffer[..] == v.disk[v.geo.partitionStart + bufferSector]
    }

    lemma CachedIs(v: Volume)
      ensures Cached(v) <==>
        v.geo.partitionStart + bufferSector < v.disk.Length && buffer[..] == v.disk[v.geo.partitionStart + bufferSector]
    {
    }

    /** fat32_read: consecutive bytes of the chain from the position (or `shift` clusters after it,
        when the cursor is that far ahead), clamped to the file size and to the end of the chain. */
    method Read(v: Volume, size: uint32, ghost cs: seq<nat>, ghost shift: nat) returns (ok: bool, data: seq<byte>)
      requires Shape(v) && Reading(v.disk[..], v.geo, Now(), cs, shift)
      modifies this`currentCluster, this`bufferSector, this`position, buffer
      ensures ok <==> data != []
      ensures old(position) >= fileSize ==> data == [] && Now() == old(Now())
      ensures old(position) < fileSize && old(position) + size < 0x1_0000_0000 ==>
        var start := old(position) + Ahead(v.geo.sectorsPerCluster, shift);
        var asked := if old(position) + size > fileSize then fileSize - old(position) else size;
        && data == Slice(v.disk[..], v.geo, cs, start, |data|)
        && |data| == (if start + asked <= Capacity(v.geo, cs) then asked else Capacity(v.geo, cs) - start)
        && position == old(position) + |data|
        && (|data| == asked ==> Reading(v.disk[..], v.geo, Now(), cs, shift))
    {
      hide FatOf, IsChain, Capacity, Slice, ClusterOf, Lba, CursorIndex, Ahead;
      data := [];
      if position >= fileSize { return false, []; }
      var asked: nat := size;
      if Wrap32(position + size) > fileSize {
        asked := fileSize - position;
      }
      ghost var exact := position + size < 0x1_0000_0000;
      if exact { WrapSame32(position + size); }
      assert Reading(v.disk[..], v.geo, Now(), cs, shift);
      data := ReadPieces(v, asked, cs, shift, exact);
      ok := |data| > 0;
    }

    /** fat32_seek: it follows the chain from its start, and drops whatever the buffer holds. */
    method Seek(v: Volume, target: uint32, ghost cs: seq<nat>) returns (ok: bool)
      requires Shape(v) && IsChain(v.Table(), cs) && firstCluster == cs[0]
      modifies this`currentCluster, this`position, this`bufferSector, this`bufferDirty
      ensures ok <==> target <= fileSize && ClusterOf(v.geo.sectorsPerCluster, target / 512) < |cs|
      ensures !ok ==> Now() == old(Now())
      ensures ok ==> Now() == old(Now()).(current := cs[ClusterOf(v.geo.sectorsPerCluster, target / 512)],
                                          position := target, bufferSector := 0, dirty := false)
    {
      hide *;
      Fields(v);
      VolumeIs(v);
      ChainStart(v.Table(), cs);
      if target > fileSize { return false; }
      ClusterOfZero(v.geo.sectorsPerCluster);
      if target == 0 {
        NextOnChain(v.Table(), cs, 0);
        currentCluster, position, bufferSector, bufferDirty := firstCluster, 0, 0, false;
        NowIs();
        return true;
      }
      var targetCluster := target / (v.geo.sectorsPerCluster * 512);
      PositionParts(v.geo.sectorsPerCluster, target);
      var current: nat := firstCluster;
      for i := 0 to targetCluster
        invariant i < |cs| && current == cs[i] && Now() == old(Now())
      {
        NextOnChain(v.Table(), cs, i);
        var next := v.ReadFatEntry(current);
        if next >= LAST_CLUSTER || next == FREE_CLUSTER {
          return false;
        }
        current := next;
      }
      currentCluster, position, bufferSector, bufferDirty := current, target, 0, false;
      NowIs();
      ok := true;
    }

    /** Where the directory entry lies, if the handle has one. */
    ghost predicate EntryOnDisk(v: Volume)
      reads this
    {
      v.geo.partitionStart + dirSector < v.disk.Length && IsSlot(dirOffset)
    }

    /** update_directory_entry. */
    method UpdateDirectoryEntry(v: Volume) returns (ok: bool)
      requires v.Valid() && EntryOnDisk(v)
      modifies v.disk
      ensures ok <==> dirSector != 0
      ensures v.disk[..] == EntryUpdated(old(v.disk[..]), v.geo, dirSector, dirOffset, fileSize)
    {
      if dirSector == 0 { return false; }
      var s := v.ReadSector(dirSector);
      v.WriteSector(dirSector, SizeUpdated(s, dirOffset, fileSize));
      ok := true;
    }

    /** The flush inside fat32_close. */
    method Flush(v: Volume)
      requires Shape(v) && v.geo.partitionStart + bufferSector < v.disk.Length
      modifies v.disk
      ensures v.disk[..] == Shown(old(v.disk[..]), v.geo, old(Now()))
    {
      if bufferDirty && bufferSector != 0 {
        v.WriteSector(bufferSector, buffer[..]);
      }
    }

    /** fat32_close: flush the buffer, update the directory entry, clear the handle. */
    method Close(v: Volume)
      requires Shape(v) && buffer as object != v.disk && EntryOnDisk(v)
      requires v.geo.partitionStart + bufferSector < v.disk.Length
      modifies this, buffer, v.disk
      ensures v.Valid() && !isOpen && !isDirectory && dirSector == 0 && dirOffset == 0
      ensures Now() == Open(0, 0, 0, 0, 0, false, ZeroSector())
      ensures v.disk[..] == EntryUpdated(Shown(old(v.disk[..]), v.geo, old(Now())), v.geo,
                                         old(dirSector), old(dirOffset), old(fileSize))
    {
      hide SizeUpdated, EntryUpdated, Shown, Fits;
      Flush(v);
      ghost var d := v.disk[..];
      NoEntryUpdated(d, v.geo, dirOffset, fileSize);
      if dirSector != 0 {
        var updated := UpdateDirectoryEntry(v);
      }
      Clear();
    }

    /** memset(handle, 0, sizeof(fat32_handle_t)). */
    method Clear()
      requires buffer.Length == 512
      modifies this, buffer
      ensures !isOpen && !isDirectory && dirSector == 0 && dirOffset == 0
      ensures Now() == Open(0, 0, 0, 0, 0, false, ZeroSector())
    {
      hide ZeroSector;
      firstCluster, currentCluster, fileSize, position := 0, 0, 0, 0;
      isDirectory, isOpen := false, false;
      Fill(ZeroSector());
      bufferSector, bufferDirty := 0, false;
      dirSector, dirOffset := 0, 0;
    }

    /** The part of fat32_open that fills a handle from an existing directory entry. */
    method OpenAt(v: Volume, sector: nat, offset: nat, forRead: bool) returns (ok: bool)
      requires v.Valid() && buffer.Length == 512 && buffer as object != v.disk
      requires v.geo.partitionStart + sector < v.disk.Length && IsSlot(offset)
      modifies this, buffer
      ensures var s := v.disk[v.geo.partitionStart + sector];
        && isOpen && firstCluster == currentCluster == ClusterAt(s, offset) && fileSize == SizeAt(s, offset)
        && position == 0 && bufferSector == 0 && !bufferDirty && buffer[..] == ZeroSector()
        && dirSector == sector && dirOffset == offset
        && isDirectory == HasAttribute(AttributesAt(s, offset), ATTR_DIRECTORY)
        && ok == !(forRead && HasAttribute(AttributesAt(s, offset), ATTR_READ_ONLY))
    {
      Fill(ZeroSector());
      var s := v.ReadSector(sector);
      firstCluster := ClusterAt(s, offset);
      currentCluster := firstCluster;
      fileSize := SizeAt(s, offset);
      position, bufferSector, bufferDirty := 0, 0, false;
      isDirectory := HasAttribute(AttributesAt(s, offset), ATTR_DIRECTORY);
      dirSector, dirOffset := sector, offset;
      isOpen := true;
      ok := !(forRead && HasAttribute(AttributesAt(s, offset), ATTR_READ_ONLY));
    }

    /** The cluster walk and cut inside fat32_truncate, keeping `keep` clusters. */
    method CutChain(v: Volume, keep: nat) returns (ok: bool)
      requires v.Valid()
      modifies v.disk
      ensures v.Valid() && FatOnly(old(v.disk[..]), v.disk[..], v.geo)
      ensures (v.Table(), ok) == CutStep(old(v.Table()), firstCluster, keep)
    {
      hide FatOf, FatOnly, FreeChain, Advance, EntryWritten;
      FatOnlyRefl(v.disk[..], v.geo);
      var current: nat, prev: nat := firstCluster, 0;
      ghost var f := v.Table();
      for i := 0 to keep
        invariant v.disk[..] == old(v.disk[..])
        invariant Advance(f, prev, current, keep - i) == Advance(f, 0, firstCluster, keep)
      {
        AdvanceOne(f, prev, current, keep - i);
        var next := v.ReadFatEntry(current);
        prev, current := current, next;
      }
      AdvanceNone(f, prev, current);
      if prev != 0 {
        var terminated := v.WriteFatEntry(prev, LAST_CLUSTER);
        if !terminated { return false; }
        ghost var between := v.disk[..];
        if current < LAST_CLUSTER && current != FREE_CLUSTER {
          ok := v.FreeClusterChain(current);
          FatOnlyTrans(old(v.disk[..]), between, v.disk[..], v.geo);
          return;
        }
      }
      ok := true;
    }

    /** fat32_truncate; `cut` is the disk between the change of the table and that of the entry. */
    method Truncate(v: Volume, newSize: uint32) returns (ok: bool, ghost cut: Image)
      requires Shape(v) && EntryOnDisk(v)
      modifies this`fileSize, this`position, v.disk
      ensures v.Valid() && FatOnly(old(v.disk[..]), cut, v.geo)
      ensures var f, size, g := old(v.Table()), old(fileSize), v.geo;
        var kept, had := ClusterCount(g.sectorsPerCluster, newSize), ClusterCount(g.sectorsPerCluster, size);
        && FatOf(cut, g) == (if newSize < size && kept < had then CutStep(f, firstCluster, kept).0 else f)
        && if newSize == size then ok && v.disk[..] == old(v.disk[..]) && Now() == old(Now())
           else if newSize < size && kept < had && !CutStep(f, firstCluster, kept).1
           then !ok && v.disk[..] == cut && Now() == old(Now())
           else
             && (ok <==> dirSector != 0)
             && fileSize == newSize && position == (if newSize < old(position) && newSize < size then newSize else old(position))
             && v.disk[..] == EntryUpdated(cut, g, dirSector, dirOffset, newSize)
    {
      hide FatOf, FatOnly, CutStep, EntryUpdated, ClusterCount;
      FatOnlyRefl(v.disk[..], v.geo);
      cut := v.disk[..];
      if newSize == fileSize { return true, cut; }
      if newSize > fileSize {
        fileSize := newSize;
        ok := UpdateDirectoryEntry(v);
      } else {
        var oldCount := ClusterCount(v.geo.sectorsPerCluster, fileSize);
        var newCount := ClusterCount(v.geo.sectorsPerCluster, newSize);
        if newCount < oldCount {
          ok := CutChain(v, newCount);
          cut := v.disk[..];
          if !ok { return false, cut; }
        }
        fileSize := newSize;
        if position > newSize { position := newSize; }
        ok := UpdateDirectoryEntry(v);
      }
    }
  }

  /** The image after update_directory_entry. */
  ghost function EntryUpdated(d: Image, g: Geometry, sector: nat, offset: nat, size: uint32): (d': Image)
    requires Fits(d, g) && g.partitionStart + sector < |d| && IsSlot(offset)
    ensures Fits(d', g)
  {
    if sector == 0 then d
    else d[g.partitionStart + sector := SizeUpdated(d[g.partitionStart + sector], offset, size)]
  }

  lemma NoEntryUpdated(d: Image, g: Geometry, offset: nat, size: uint32)
    requires Fits(d, g) && g.partitionStart < |d| && IsSlot(offset)
    ensures EntryUpdated(d, g, 0, offset, size) == d
  {
  }

  lemma NothingYet(content: seq<byte>, s: Open, data: seq<byte>)
    requires s.position <= |content| == s.fileSize
    ensures data[..0] == [] && WriteResult(content, s, []) == content
  {
  }

  /** What one more piece makes of the content. */
  lemma OnePieceMore(d0: Image, g: Geometry, cs: seq<nat>, d: Image, t: Open, cs': seq<nat>, content: seq<byte>, s0: Open,
                     data: seq<byte>, written: nat, n: nat, now: seq<byte>, s: Open) returns (r: seq<byte>)
    requires s0.position <= |content| == s0.fileSize && written + n <= |data| && n > 0
    requires now == WriteResult(content, s0, data[..written])
    requires s.position == s0.position + written <= |now| == s.fileSize
    requires if written == 0 then s == s0 else s.bufferSector != 0
    requires var ready := s.position % 512 == 0 || s.bufferSector != 0 || s.position < s.fileSize;
      Writing(d0, g, cs, d, t, cs', Splice(WriteBase(now, s.position, ready), s.position, data[written..][..n]))
    ensures r == WriteResult(content, s0, data[..written + n]) && Writing(d0, g, cs, d, t, cs', r) && cs <= cs'
  {
    hide *;
    assert data[written..][..n] == data[written..written + n];
    WriteResultStep(content, s0, data, written, n, now, s);
    r := WriteResult(content, s0, data[..written + n]);
    WritingExtends(d0, g, cs, d, t, cs', r);
  }

  lemma MaxAgain(size: nat, p: nat, q: nat)
    requires p <= q
    ensures Max(Max(size, p), q) == Max(size, q)
  {
  }

  lemma BoundaryIs(g: Geometry, s: Open)
    requires g.sectorsPerCluster > 0
    ensures AtBoundary(g, s) <==> ClusterOffset(g.sectorsPerCluster, s.position) == 0 && s.position > 0
  {
  }

  lemma CopyFields(s: Open, data: seq<byte>)
    requires s.position % 512 + |data| <= 512
    ensures var end := s.position + |data|;
      CopyStep(s, data) == Open(s.first, s.current, if end > s.fileSize then end else s.fileSize, end, s.bufferSector, true,
                                Patch(s.buffer, s.position % 512, data))
  {
  }

  lemma ReadStepIs(s: Open, current: nat, target: nat, sector: Sector, n: nat)
    ensures ReadStep(s, current, target, sector, n) ==
      Open(s.first, current, s.fileSize, s.position + n, if s.position % 512 + n == 512 then 0 else target, s.dirty, sector)
  {
  }

  lemma VolumeIs(v: Volume)
    requires v.Valid()
    ensures Fits(v.disk[..], v.geo) && v.geo.sectorsPerCluster > 0
  {
  }

  lemma ChainStart(f: Fat, cs: seq<nat>)
    requires IsChain(f, cs)
    ensures cs != []
  {
  }

  lemma AdvanceOne(f: Fat, prev: nat, c: nat, k: nat)
    requires k > 0
    ensures Advance(f, prev, c, k) == Advance(f, c, Entry(f, c), k - 1)
  {
  }

  lemma AdvanceNone(f: Fat, prev: nat, c: nat)
    ensures Advance(f, prev, c, 0) == (prev, c)
  {
  }

  lemma ClusterOfZero(spc: nat)
    requires spc > 0
    ensures ClusterOf(spc, 0) == 0
  {
  }

  lemma WrapSame32(x: uint32)
    ensures Wrap32(x) == x
  {
  }

  /** Along a chain every value below the end mark is again a cluster of the chain. */
  lemma NextInChain(f: Fat, cs: seq<nat>, c: nat)
    requires IsChain(f, cs) && c in cs
    ensures InRange(c) && (Entry(f, c) < LAST_CLUSTER ==> Entry(f, c) in cs)
  {
    var i :| 0 <= i < |cs| && cs[i] == c;
    NextOnChain(f, cs, i);
  }

  lemma TargetOnDisk(d: Image, g: Geometry, s: Open, cs: seq<nat>)
    requires OnDisk(d, g, cs) && s.current in cs
    ensures g.sectorsPerCluster > 0
    ensures g.partitionStart + TargetSector(g, s) < |d| && TargetSector(g, s) > 0
  {
    var i :| 0 <= i < |cs| && cs[i] == s.current;
    var w := WithinOf(g.sectorsPerCluster, s.position / 512);
    PositionParts(g.sectorsPerCluster, s.position);
    DataSectorsDisjoint(g, s.current, w, s.current, w);
  }

  lemma ReadingFits(d: Image, g: Geometry, s: Open, cs: seq<nat>, shift: nat)
    requires Reading(d, g, s, cs, shift)
    ensures s.position + Ahead(g.sectorsPerCluster, shift) <= Capacity(g, cs)
  {
  }

  lemma ReadDoneMeans(d: Image, g: Geometry, s: Open, s': Open, cs: seq<nat>, shift: nat, piece: seq<byte>, more: bool)
    requires ReadDone(d, g, s, s', cs, shift, piece, more)
    ensures OnDisk(d, g, cs) && s'.position == s.position + |piece|
    ensures var start := s.position + Ahead(g.sectorsPerCluster, shift);
      && piece == Slice(d, g, cs, start, |piece|) && start + |piece| <= Capacity(g, cs)
      && (more ==> Reading(d, g, s', cs, shift)) && (!more ==> piece == [] && start == Capacity(g, cs))
  {
  }
}
