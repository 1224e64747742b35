/** Whole runs of the file system: create, delete, rename, saving to a file and shortening it, in
    any order, from any volume with the structure and from an empty one. */
module FileSystemRuns {
  import opened Words
  import opened Names
  import opened FatChains
  import opened FatRuns
  import opened Sectors
  import opened FatVolume
  import opened FileImages
  import opened FileSteps
  import opened FileSessions
  import opened DirEntries
  import opened DirMaps
  import opened DirSlots
  import opened Directory
  import opened DirectoryRuns
  import opened FileSystem

  /** A call of create, delete or rename; or a file found by name, opened, written from its start --
      with the clusters it needed or without -- and closed; or one found by name and shortened. */
  datatype Event =
    | Called(step: Step)
    | Saved(path: CString, sector: nat, offset: nat, cs: seq<nat>, cs': seq<nat>, content: seq<byte>, data: seq<byte>,
            ok: bool, image: Image)
    | Shortened(path: CString, sector: nat, offset: nat, cs: seq<nat>, content: seq<byte>, newSize: nat, image: Image)

  function AfterEvent(e: Event): Image {
    if e.Called? then e.step.after else e.image
  }

  predicate Concerns(e: Event, n: Name) {
    if e.Called? then Mentions(e.step.change, n) else n == To83(e.path)
  }

  /** Looking the path up finds the entry of a file with this chain and content. */
  ghost predicate Finds(d: Image, g: Geometry, ds: seq<nat>, path: CString, sector: nat, offset: nat, cs: seq<nat>, content: seq<byte>) {
    && OnDisk(d, g, ds)
    && var j := Search(Slots(d, g, ds), 0, To83(path));
    && j.Some? && SlotLocation(g, ds, j.value, sector, offset) && EntryOf(d, g, sector, offset, cs, content)
  }

  /** A chain of `had` clusters can grow to hold n bytes. */
  ghost predicate Suffices(d: Image, g: Geometry, had: nat, n: nat)
    requires Fits(d, g)
  {
    n == 0 || CursorIndex(g.sectorsPerCluster, n) + 1 <= had + |FreeList(FatOf(d, g))|
  }

  ghost predicate Happened(d: Image, g: Geometry, ds: seq<nat>, e: Event) {
    match e
    case Called(step) => Happens(d, g, ds, step)
    case Saved(path, sector, offset, cs, cs', content, data, ok, image) =>
      && Finds(d, g, ds, path, sector, offset, cs, content) && (ok <==> Suffices(d, g, |cs|, |data|))
      && (ok ==> Updated(d, image, g, sector, offset, cs, cs', content, data))
      && (!ok ==> UpdateFailed(d, image, g, sector, offset, cs, cs', data))
    case Shortened(path, sector, offset, cs, content, newSize, image) =>
      && Finds(d, g, ds, path, sector, offset, cs, content)
      && Truncated(d, image, g, sector, offset, cs, content, newSize)
  }

  /** What must hold before an event for it to keep the structure; EventKeepsIff says that this is
      exact. */
  ghost predicate SafeEvent(d: Image, g: Geometry, ds: seq<nat>, e: Event)
    requires OnDisk(d, g, ds)
  {
    match e
    case Called(step) => Safe(d, g, ds, step.change)
    case Saved(_, _, _, cs, _, _, data, _, _) => Suffices(d, g, |cs|, |data|)
    case Shortened(_, _, _, _, _, _, _) => true
  }

  ghost predicate ValidRun(d: Image, g: Geometry, ds: seq<nat>, events: seq<Event>)
    decreases |events|
  {
    events == [] || (Happened(d, g, ds, events[0]) && ValidRun(AfterEvent(events[0]), g, ds, events[1..]))
  }

  /** Every event of the run is safe where it happens. */
  ghost predicate SafeRun(d: Image, g: Geometry, ds: seq<nat>, events: seq<Event>)
    decreases |events|
  {
    events == []
    || (OnDisk(d, g, ds) && SafeEvent(d, g, ds, events[0]) && SafeRun(AfterEvent(events[0]), g, ds, events[1..]))
  }

  function Last(d: Image, events: seq<Event>): Image {
    if events == [] then d else AfterEvent(events[|events| - 1])
  }

  // ----- one event -----

  /** The table determines a chain by its head. */
  lemma {:induction false} ChainUnique(f: Fat, a: seq<nat>, b: seq<nat>)
    requires IsChain(f, a) && IsChain(f, b) && a[0] == b[0]
    ensures a == b
    decreases |a|
  {
    ChainStep(f, a);
    ChainStep(f, b);
    if |a| > 1 {
      hide IsChain;
      ChainUnique(f, a[1..], b[1..]);
      assert a == [a[0]] + a[1..] && b == [b[0]] + b[1..];
    }
  }

  lemma ChainStep(f: Fat, a: seq<nat>)
    requires IsChain(f, a)
    ensures if |a| > 1 then f[a[0]] == a[1] < LAST_CLUSTER && IsChain(f, a[1..]) else f[a[0]] >= LAST_CLUSTER
  {
    assert |a| > 1 ==> InRange(a[1]);
  }

  /** An entry found by name is the file the structure knows under that name. */
  lemma EntryIsFile(d: Image, g: Geometry, ds: seq<nat>, files: FileChains, name: Name, j: nat, sector: nat, offset: nat,
                    cs: seq<nat>, content: seq<byte>)
    requires Consistent(d, g, ds, files) && OnDisk(d, g, ds)
    requires Search(Slots(d, g, ds), 0, name) == Some(j) && SlotLocation(g, ds, j, sector, offset)
    requires EntryOf(d, g, sector, offset, cs, content)
    ensures FileAt(d, g, ds, files, name, content) && files[name] == cs
  {
    hide *;
    ConsistentDirectory(d, g, ds, files);
    ConsistentOwns(d, g, ds, files);
    EntryMeansParts(d, g, sector, offset, cs, content);
    var dir, f := Slots(d, g, ds), FatOf(d, g);
    LookupMeans(dir, files, name);
    SlotSector(d, g, ds, j, sector, offset);
    SlotFields(d[g.partitionStart + sector], j % 16);
    SlotIsFile(dir[j]);
    LinkedFile(dir[j], name, files);
    OwnsChain(f, ds, files, name);
    ChainUnique(f, files[name], cs);
    MakeFileAt(d, g, ds, files, name, content);
  }

  lemma EntryMeansParts(d: Image, g: Geometry, sector: nat, offset: nat, cs: seq<nat>, content: seq<byte>)
    requires EntryOf(d, g, sector, offset, cs, content)
    ensures Fits(d, g) && g.partitionStart + sector < |d| && IsSlot(offset) && IsChain(FatOf(d, g), cs) && cs != [] && cs[0] != 0
    ensures Holds(d, g, cs, content)
    ensures ClusterAt(d[g.partitionStart + sector], offset) == cs[0] && SizeAt(d[g.partitionStart + sector], offset) == |content|
    ensures !HasAttribute(AttributesAt(d[g.partitionStart + sector], offset), ATTR_DIRECTORY)
  {
    ChainShape(FatOf(d, g), cs);
    assert InRange(cs[0]);
    hide FatOf, IsChain, Holds, GetU16, GetU32;
  }

  lemma LinkedFile(s: Slot, name: Name, files: FileChains)
    requires LinkOk(s, name, files) && FirstCluster(s) != 0
    ensures name in files && files[name] != [] && files[name][0] == FirstCluster(s)
  {
  }

  /** One safe event keeps the structure, and every file it does not concern. */
  lemma EventKeeps(d: Image, g: Geometry, ds: seq<nat>, e: Event, files: FileChains) returns (files': FileChains)
    requires Consistent(d, g, ds, files) && OnDisk(d, g, ds) && Happened(d, g, ds, e) && SafeEvent(d, g, ds, e)
    ensures Consistent(AfterEvent(e), g, ds, files')
    ensures forall n: Name | !Concerns(e, n) :: FileUntouched(d, AfterEvent(e), g, ds, files, files', n)
  {
    hide Consistent, FileUntouched, OnDisk, Finds, Suffices, Updated, UpdateFailed, Truncated, Happens, Safe, To83;
    match e
    case Called(step) =>
      files' := StepKeeps(d, g, ds, step, files);
    case Saved(path, sector, offset, cs, cs', content, data, ok, image) =>
      files' := SavedKeeps(d, g, ds, path, sector, offset, cs, cs', content, data, image, files);
    case Shortened(path, sector, offset, cs, content, newSize, image) =>
      files' := ShortenedKeeps(d, g, ds, path, sector, offset, cs, content, newSize, image, files);
  }

  lemma FindsFile(d: Image, g: Geometry, ds: seq<nat>, path: CString, sector: nat, offset: nat, cs: seq<nat>, content: seq<byte>,
                  files: FileChains) returns (j: nat)
    requires Consistent(d, g, ds, files) && Finds(d, g, ds, path, sector, offset, cs, content)
    ensures OnDisk(d, g, ds) && FileAt(d, g, ds, files, To83(path), content) && files[To83(path)] == cs
    ensures Search(Slots(d, g, ds), 0, To83(path)) == Some(j) && SlotLocation(g, ds, j, sector, offset)
  {
    hide Consistent, Slots, Search, To83, EntryOf, FileAt, SlotLocation;
    j := Search(Slots(d, g, ds), 0, To83(path)).value;
    EntryIsFile(d, g, ds, files, To83(path), j, sector, offset, cs, content);
  }

  lemma SavedKeeps(d: Image, g: Geometry, ds: seq<nat>, path: CString, sector: nat, offset: nat, cs: seq<nat>, cs': seq<nat>,
                   content: seq<byte>, data: seq<byte>, image: Image, files: FileChains)
    returns (files': FileChains)
    requires Consistent(d, g, ds, files) && Finds(d, g, ds, path, sector, offset, cs, content)
    requires Updated(d, image, g, sector, offset, cs, cs', content, data)
    ensures Consistent(image, g, ds, files')
    ensures forall n: Name | n != To83(path) :: FileUntouched(d, image, g, ds, files, files', n)
  {
    hide *;
    var name := To83(path);
    var j := FindsFile(d, g, ds, path, sector, offset, cs, content, files);
    SaveKeeps(d, image, g, ds, files, name, content, data, cs', j, sector, offset);
    files' := files[name := cs'];
    FileIsConsistent(image, g, ds, files', name, Splice(content, 0, data));
    forall n: Name | n != name ensures FileUntouched(d, image, g, ds, files, files', n) {
      UntouchedBut(d, image, g, ds, files, files', n);
    }
  }

  lemma ShortenedKeeps(d: Image, g: Geometry, ds: seq<nat>, path: CString, sector: nat, offset: nat, cs: seq<nat>,
                       content: seq<byte>, newSize: nat, image: Image, files: FileChains)
    returns (files': FileChains)
    requires Consistent(d, g, ds, files) && Finds(d, g, ds, path, sector, offset, cs, content)
    requires Truncated(d, image, g, sector, offset, cs, content, newSize)
    ensures Consistent(image, g, ds, files')
    ensures forall n: Name | n != To83(path) :: FileUntouched(d, image, g, ds, files, files', n)
  {
    hide *;
    var name := To83(path);
    var j := FindsFile(d, g, ds, path, sector, offset, cs, content, files);
    var kept := TruncateKeeps(d, image, g, ds, files, name, content, newSize, j, sector, offset);
    files' := files[name := kept];
    FileIsConsistent(image, g, ds, files', name, content[..newSize]);
    forall n: Name | n != name ensures FileUntouched(d, image, g, ds, files, files', n) {
      UntouchedBut(d, image, g, ds, files, files', n);
    }
  }

  lemma FileIsConsistent(d: Image, g: Geometry, ds: seq<nat>, files: FileChains, name: Name, content: seq<byte>)
    requires FileAt(d, g, ds, files, name, content)
    ensures Consistent(d, g, ds, files) && OnDisk(d, g, ds)
  {
    hide Owns, Links, WellFormed, FatOf, Slots, MapOf, Holds;
  }

  /** An event keeps the structure if and only if it is safe: create and rename must not go through
      with a name that reads as deleted, and a save must find the clusters it needs. */
  lemma EventKeepsIff(d: Image, g: Geometry, ds: seq<nat>, e: Event, files: FileChains)
    requires Consistent(d, g, ds, files) && OnDisk(d, g, ds) && Happened(d, g, ds, e)
    ensures Intact(AfterEvent(e), g, ds) <==> SafeEvent(d, g, ds, e)
  {
    hide Consistent, FileUntouched, OnDisk, Finds, Suffices, Updated, UpdateFailed, Truncated, Happens, Safe, FileAt, SlotLocation;
    if SafeEvent(d, g, ds, e) {
      var files' := EventKeeps(d, g, ds, e, files);
    } else {
      match e
      case Called(step) =>
        StepKeepsIff(d, g, ds, step, files);
      case Saved(path, sector, offset, cs, cs', content, data, ok, image) =>
        var j := FindsFile(d, g, ds, path, sector, offset, cs, content, files);
        SaveFails(d, image, g, ds, files, To83(path), content, data, cs', j, sector, offset);
    }
  }

  /** Whether safe or not, an event changes no FAT word but those of clusters. */
  lemma EventKeepsFats(d: Image, g: Geometry, ds: seq<nat>, e: Event)
    requires Happened(d, g, ds, e)
    ensures Fits(d, g) && Fits(AfterEvent(e), g) && FatKept(d, AfterEvent(e), g)
  {
    hide Happens, FatKept, FatOf, Finds, Suffices, EntryOf, Extended, SizeUpdated, InFile, InFats, Splice, CursorIndex;
    match e
    case Called(step) => StepKeepsFats(d, g, ds, step);
    case Saved(_, _, _, _, _, _, _, _, _) =>
    case Shortened(_, _, _, _, _, _, _) =>
  }

  // ----- runs -----

  /** Any run of safe events keeps the volume consistent, and leaves every file that none of them
      concerns untouched. */
  lemma {:induction false} RunKeeps(d: Image, g: Geometry, ds: seq<nat>, events: seq<Event>, files: FileChains)
    returns (files': FileChains)
    requires Consistent(d, g, ds, files) && ValidRun(d, g, ds, events) && SafeRun(d, g, ds, events)
    ensures Consistent(Last(d, events), g, ds, files')
    ensures forall n: Name | (forall i | 0 <= i < |events| :: !Concerns(events[i], n)) ::
      FileUntouched(d, Last(d, events), g, ds, files, files', n)
    decreases |events|
  {
    hide Concerns, SafeEvent, Happened, FileUntouched, Consistent, OnDisk;
    ConsistentOnDisk(d, g, ds, files);
    if events == [] {
      files' := files;
      forall n: Name ensures FileUntouched(d, d, g, ds, files, files, n) {
        SameBytes(d, g);
        UntouchedBut(d, d, g, ds, files, files, n);
      }
    } else {
      var next := AfterEvent(events[0]);
      var between := EventKeeps(d, g, ds, events[0], files);
      ConsistentOnDisk(next, g, ds, between);
      files' := RunKeeps(next, g, ds, events[1..], between);
      var last := Last(d, events);
      assert last == Last(next, events[1..]);
      ConsistentOnDisk(last, g, ds, files');
      forall n: Name | forall i | 0 <= i < |events| :: !Concerns(events[i], n)
        ensures FileUntouched(d, last, g, ds, files, files', n)
      {
        assert !Concerns(events[0], n);
        assert forall i | 0 <= i < |events| - 1 :: events[1..][i] == events[i + 1];
        UntouchedTrans(d, next, last, g, ds, files, between, files', n);
      }
    }
  }

  /** Every state of the run has the structure. */
  ghost predicate IntactThroughout(d: Image, g: Geometry, ds: seq<nat>, events: seq<Event>) {
    forall i | 0 <= i <= |events| :: Intact(Last(d, events[..i]), g, ds)
  }

  lemma ThroughoutSplit(d: Image, g: Geometry, ds: seq<nat>, events: seq<Event>)
    ensures IntactThroughout(d, g, ds, events) <==>
      Intact(d, g, ds) && (events != [] ==> IntactThroughout(AfterEvent(events[0]), g, ds, events[1..]))
  {
    hide Intact, AfterEvent;
    assert events[..0] == [];
    if events != [] {
      var next := AfterEvent(events[0]);
      forall i | 0 < i <= |events| ensures Last(d, events[..i]) == Last(next, events[1..][..i - 1]) {
        assert events[..i] == [events[0]] + events[1..][..i - 1];
      }
      if IntactThroughout(d, g, ds, events) {
        forall i | 0 <= i <= |events[1..]| ensures Intact(Last(next, events[1..][..i]), g, ds) {
          assert Intact(Last(d, events[..i + 1]), g, ds);
        }
      }
    }
  }

  /** The structure lasts throughout a run if and only if every event of it is safe. */
  lemma {:induction false} RunKeepsIff(d: Image, g: Geometry, ds: seq<nat>, events: seq<Event>)
    requires Intact(d, g, ds) && ValidRun(d, g, ds, events)
    ensures IntactThroughout(d, g, ds, events) <==> SafeRun(d, g, ds, events)
    decreases |events|
  {
    hide SafeEvent, Happened, Consistent, OnDisk, IntactThroughout;
    ThroughoutSplit(d, g, ds, events);
    if events != [] {
      var files :| Consistent(d, g, ds, files);
      var next := AfterEvent(events[0]);
      ConsistentOnDisk(d, g, ds, files);
      EventKeepsIff(d, g, ds, events[0], files);
      if Intact(next, g, ds) {
        RunKeepsIff(next, g, ds, events[1..]);
      } else {
        ThroughoutSplit(next, g, ds, events[1..]);
      }
    }
  }

  /** In every run, safe or not, no FAT word but those of clusters changes, and equal copies of the
      table stay equal. */
  lemma {:induction false} RunKeepsFats(d: Image, g: Geometry, ds: seq<nat>, events: seq<Event>)
    requires Fits(d, g) && ValidRun(d, g, ds, events)
    ensures Fits(Last(d, events), g) && FatKept(d, Last(d, events), g)
    ensures Mirrored(d, g) ==> Mirrored(Last(d, events), g)
    decreases |events|
  {
    hide Happened, FatKept, Mirrored;
    if events == [] {
      FatKeptRefl(d, g);
    } else {
      var next := AfterEvent(events[0]);
      EventKeepsFats(d, g, ds, events[0]);
      RunKeepsFats(next, g, ds, events[1..]);
      assert Last(d, events) == Last(next, events[1..]);
      FatKeptTrans(d, next, Last(d, events), g);
      FatKeptMirror(d, Last(d, events), g);
    }
  }

  // ----- from a blank volume -----

  ghost function ZeroImage(g: Geometry): (d: Image)
    requires g.Valid()
    ensures Fits(d, g)
  {
    seq(g.DiskSize(), i => ZeroSector())
  }

  /** An empty file system: zero sectors, and a root directory of one cluster. */
  ghost function Blank(g: Geometry): (d: Image)
    requires g.Valid()
    ensures Fits(d, g)
  {
    FatWritten(ZeroImage(g), g, g.rootCluster, LAST_CLUSTER)
  }

  lemma ZeroTable(g: Geometry)
    requires g.Valid()
    ensures forall c: nat | c < 127006 :: FatOf(ZeroImage(g), g)[c] == 0
  {
    forall c: nat | c < 127006 ensures FatEntry(ZeroImage(g), g, c) == 0 {
      FatSectorsInRange(g, c);
    }
  }

  lemma BlankTable(g: Geometry)
    requires g.Valid()
    ensures forall c: nat | c < 127006 :: FatOf(Blank(g), g)[c] == if c == g.rootCluster then LAST_CLUSTER else 0
    ensures Mirrored(Blank(g), g)
  {
    ZeroTable(g);
    hide FatOf, FatWritten, FatKept;
    FatWriteRefines(ZeroImage(g), g, g.rootCluster, LAST_CLUSTER);
  }

  lemma BlankSlots(g: Geometry)
    requires g.Valid() && OnDisk(Blank(g), g, [g.rootCluster])
    ensures forall j | 0 <= j < |Slots(Blank(g), g, [g.rootCluster])| :: Ends(Slots(Blank(g), g, [g.rootCluster])[j])
  {
    var d, ds := Blank(g), [g.rootCluster];
    FatWriteRefines(ZeroImage(g), g, g.rootCluster, LAST_CLUSTER);
    hide Blank, FatWritten, FatOf, Lba, ClusterOf;
    forall j: nat | j < |Slots(d, g, ds)| ensures Ends(Slots(d, g, ds)[j]) {
      assert Slots(d, g, ds)[j] == SlotAt(d, g, ds, j);
      LbasDistinct(g, ds, j / 16, j / 16);
      assert d[Lba(g, ds, j / 16)] == ZeroSector();
    }
  }

  lemma BlankOwns(f: Fat, root: nat)
    requires InRange(root) && forall c: nat | c < 127006 :: f[c] == if c == root then LAST_CLUSTER else 0
    ensures Owns(f, [root], map[])
  {
    var files: FileChains := map[];
    assert {[root]} + files.Values == {[root]};
    assert [root][0] == root;
    assert IsChain(f, [root]);
    forall c: nat | InRange(c) && f[c] != 0 ensures InSome({[root]}, c) {
      assert root in [root] && [root] in {[root]};
    }
  }

  /** The structure the theorems keep exists to begin with: an empty volume has it. */
  lemma BlankConsistent(g: Geometry)
    requires g.Valid()
    ensures Consistent(Blank(g), g, [g.rootCluster], map[])
  {
    var d, ds := Blank(g), [g.rootCluster];
    BlankTable(g);
    hide Blank, FatOf, Owns;
    assert OnDisk(d, g, ds);
    BlankSlots(g);
    BlankOwns(FatOf(d, g), g.rootCluster);
    hide Slots;
    NothingListed(Slots(d, g, ds));
  }

  lemma NothingListed(dir: seq<Slot>)
    requires forall j | 0 <= j < |dir| :: Ends(dir[j])
    ensures WellFormed(dir) && Links(dir, map[])
  {
  }

  /** From an empty volume: while every event is safe, and no longer, each state has unique names,
      disjoint chains, one for every file with clusters, and no lost cluster.  The two copies of the
      table are equal in every state. */
  lemma ReachableConsistent(g: Geometry, events: seq<Event>)
    requires g.Valid() && ValidRun(Blank(g), g, [g.rootCluster], events)
    ensures IntactThroughout(Blank(g), g, [g.rootCluster], events) <==> SafeRun(Blank(g), g, [g.rootCluster], events)
    ensures Fits(Last(Blank(g), events), g) && Mirrored(Last(Blank(g), events), g)
  {
    BlankConsistent(g);
    BlankTable(g);
    hide Blank, Consistent, ValidRun, SafeRun, Mirrored, FatKept, IntactThroughout, FatOf;
    RunKeepsIff(Blank(g), g, [g.rootCluster], events);
    RunKeepsFats(Blank(g), g, [g.rootCluster], events);
  }
}
