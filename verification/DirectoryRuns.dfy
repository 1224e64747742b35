/** What create, delete and rename keep: unique names, one chain for every file, no cluster shared
    and none lost, and the bytes of every file not named. */
module DirectoryRuns {
  import opened Words
  import opened Names
  import opened FatChains
  import opened FatRuns
  import opened Sectors
  import opened FatVolume
  import opened FileImages
  import opened FileSteps
  import opened FileSessions
  import opened DirMaps
  import opened DirSlots
  import opened Directory

  /** The chain of every file that has clusters. */
  type FileChains = map<Name, seq<nat>>

  /** The slot s of the name n points to the chain of n, or to no cluster when n has none. */
  ghost predicate LinkOk(s: Slot, n: Name, files: FileChains) {
    if FirstCluster(s) == 0 then n !in files else n in files && files[n] != [] && files[n][0] == FirstCluster(s)
  }

  ghost predicate Links(dir: seq<Slot>, files: FileChains) {
    && (forall j: nat, n: Name | LiveAt(dir, j, n) :: LinkOk(dir[j], n, files))
    && (forall n: Name | n in files :: Listed(dir, n))
  }

  ghost predicate Injective(files: FileChains) {
    forall a, b | a in files && b in files && files[a] == files[b] :: a == b
  }

  /** The directory's chain and the files' chains are disjoint chains and use every cluster that is
      not free. */
  ghost predicate Owns(f: Fat, ds: seq<nat>, files: FileChains) {
    Sound(f, {ds} + files.Values) && ds !in files.Values && Injective(files)
  }

  ghost predicate Consistent(d: Image, g: Geometry, ds: seq<nat>, files: FileChains) {
    && OnDisk(d, g, ds) && ds[0] == g.rootCluster
    && WellFormed(Slots(d, g, ds)) && Links(Slots(d, g, ds), files) && Owns(FatOf(d, g), ds, files)
  }

  /** Some assignment of chains to names has the structure. */
  ghost predicate Intact(d: Image, g: Geometry, ds: seq<nat>) {
    exists files :: Consistent(d, g, ds, files)
  }

  // ----- links after one slot is written -----

  lemma LinksAfterWrite(dir: seq<Slot>, i: nat, s: Slot, files: FileChains, files': FileChains)
    requires WellFormed(dir) && i < |dir| && Reached(dir, i) && !Ends(s) && Links(dir, files)
    requires InUse(s) ==> Matches(dir[i], NameOf(s)) || !Listed(dir, NameOf(s))
    requires forall n: Name | Matches(s, n) :: LinkOk(s, n, files')
    requires forall n: Name | Matches(dir[i], n) && !Matches(s, n) :: n !in files'
    requires forall n: Name | !Matches(dir[i], n) && !Matches(s, n) ::
      (n in files' <==> n in files) && (n in files ==> files'[n] == files[n])
    ensures Links(dir[i := s], files')
  {
    var dir' := dir[i := s];
    forall j: nat, n: Name ensures LiveAt(dir', j, n) <==> (if j == i then Matches(s, n) else LiveAt(dir, j, n)) {
      LiveAfterWrite(dir, i, s, j, n);
    }
    assert forall n: Name :: LiveAt(dir, i, n) <==> Matches(dir[i], n);
    hide LiveAt, LinkOk, Matches;
    forall j: nat, n: Name | LiveAt(dir', j, n) ensures LinkOk(dir'[j], n, files') {
      if j != i { OtherLink(dir, i, s, j, n, files, files'); }
    }
    forall n: Name | n in files' ensures Listed(dir', n) {
      if Matches(s, n) {
        assert LiveAt(dir', i, n);
      } else {
        var j: nat :| LiveAt(dir, j, n);
        assert LiveAt(dir', j, n);
      }
    }
  }

  lemma OtherLink(dir: seq<Slot>, i: nat, s: Slot, j: nat, n: Name, files: FileChains, files': FileChains)
    requires WellFormed(dir) && i < |dir| && Reached(dir, i) && Links(dir, files)
    requires InUse(s) ==> Matches(dir[i], NameOf(s)) || !Listed(dir, NameOf(s))
    requires LiveAt(dir, j, n) && j != i
    requires !Matches(dir[i], n) && !Matches(s, n) ==> (n in files' <==> n in files) && (n in files ==> files'[n] == files[n])
    ensures LinkOk(dir[j], n, files')
  {
    assert Matches(dir[i], n) ==> LiveAt(dir, i, n);
    assert Listed(dir, n);
  }

  // ----- chains -----

  lemma OwnsParts(f: Fat, ds: seq<nat>, files: FileChains)
    requires Owns(f, ds, files)
    ensures Sound(f, {ds} + files.Values) && ds !in files.Values && Injective(files)
  {
  }

  lemma MakeOwns(f: Fat, ds: seq<nat>, files: FileChains)
    requires Sound(f, {ds} + files.Values) && ds !in files.Values && Injective(files)
    ensures Owns(f, ds, files)
  {
  }

  lemma ValuesAdd(files: FileChains, n: Name, cs: seq<nat>)
    requires n !in files
    ensures files[n := cs].Values == files.Values + {cs}
  {
    var m := files[n := cs];
    assert m[n] == cs;
    forall v | v in files.Values ensures v in m.Values {
      var k :| k in files && files[k] == v;
      assert m[k] == v;
    }
  }

  lemma ValuesRemove(files: FileChains, n: Name)
    requires n in files && Injective(files)
    ensures (files - {n}).Values == files.Values - {files[n]}
  {
    var m := files - {n};
    forall v | v in files.Values - {files[n]} ensures v in m.Values {
      var k :| k in files && files[k] == v;
      assert k in m && m[k] == v;
    }
  }

  lemma FreeNotInChain(f: Fat, chains: set<seq<nat>>, cs: seq<nat>, c: nat)
    requires Sound(f, chains) && cs in chains && IsFree(f, c)
    ensures c !in cs
  {
    if c in cs { ChainNonZero(f, cs, c); }
  }

  /** A new file's single cluster joins. */
  lemma OwnsMore(f: Fat, ds: seq<nat>, files: FileChains, n: Name, first: nat, f': Fat)
    requires Owns(f, ds, files) && n !in files && FreeList(f) != [] && FreeList(f)[0] == first
    requires first < 127006 && f' == f[first := LAST_CLUSTER]
    ensures Owns(f', ds, files[n := [first]])
    ensures Sound(f', {ds} + files.Values + {[first]}) && [first] != ds
  {
    hide Sound, FreeList, LinkUp, Picks;
    var chains := {ds} + files.Values;
    FirstPickAlone(f);
    AllocateKeeps(f, chains, 1);
    ValuesAdd(files, n, [first]);
    assert {ds} + files[n := [first]].Values == chains + {[first]};
    forall cs | cs in chains ensures cs != [first] {
      FreeNotInChain(f, chains, cs, first);
    }
    assert ds in chains;
    forall a | a in files ensures files[a] in chains {}
  }

  lemma FirstPickAlone(f: Fat)
    requires FreeList(f) != []
    ensures IsFree(f, FreeList(f)[0]) && Picks(f, 1) == [FreeList(f)[0]]
    ensures LinkUp(f, Picks(f, 1)) == f[FreeList(f)[0] := LAST_CLUSTER]
  {
    FirstFree(f);
    assert FreeList(f)[..1] == [FreeList(f)[0]];
  }

  /** A deleted file's chain leaves. */
  lemma OwnsLess(f: Fat, ds: seq<nat>, files: FileChains, n: Name)
    requires Owns(f, ds, files) && n in files && files[n] != []
    ensures FreeChain(f, files[n][0]).1
    ensures Owns(FreeChain(f, files[n][0]).0, ds, files - {n})
  {
    hide *;
    var chains := {ds} + files.Values;
    OwnsParts(f, ds, files);
    ChainsLess(files, n, ds);
    ChainFrees(f, chains, files[n]);
    FreeKeeps(f, chains, files[n]);
    FewerInjective(files, n);
    MakeOwns(FreeChain(f, files[n][0]).0, ds, files - {n});
  }

  lemma ChainsLess(files: FileChains, n: Name, ds: seq<nat>)
    requires n in files && Injective(files) && ds !in files.Values
    ensures files[n] in {ds} + files.Values && ds !in (files - {n}).Values
    ensures {ds} + (files - {n}).Values == {ds} + files.Values - {files[n]}
  {
    assert files[n] in files.Values;
    ValuesRemove(files, n);
    hide Injective;
  }

  lemma FewerInjective(files: FileChains, n: Name)
    requires Injective(files)
    ensures Injective(files - {n})
  {
  }

  lemma ChainFrees(f: Fat, chains: set<seq<nat>>, cs: seq<nat>)
    requires Sound(f, chains) && cs in chains && cs != []
    ensures IsChain(f, cs) && FreeChain(f, cs[0]).1
  {
    assert IsChain(f, cs);
    hide IsChain, FreeChain;
    FreeChainOfChain(f, cs);
  }

  /** A renamed file's chain stays. */
  function Moved(files: FileChains, a: Name, b: Name): FileChains {
    if a in files then (files - {a})[b := files[a]] else files
  }

  lemma OwnsMoved(f: Fat, ds: seq<nat>, files: FileChains, a: Name, b: Name)
    requires Owns(f, ds, files) && b !in files
    ensures Owns(f, ds, Moved(files, a, b))
  {
    hide Sound;
    if a in files {
      ValuesRemove(files, a);
      ValuesAdd(files - {a}, b, files[a]);
      assert {files[a]} <= files.Values;
      assert Moved(files, a, b).Values == files.Values;
    }
  }

  // ----- a chain no entry points to -----

  lemma SuccessorInChain(f: Fat, a: seq<nat>, p: nat)
    requires IsChain(f, a) && p in a && InRange(p) && InRange(f[p])
    ensures f[p] in a && f[p] != a[0]
  {
    var i :| 0 <= i < |a| && a[i] == p;
    assert f[p] == a[i + 1];
  }

  /** Nothing in the table points to the head of a live chain. */
  lemma HeadUnreferenced(f: Fat, chains: set<seq<nat>>, cs: seq<nat>, p: nat)
    requires Sound(f, chains) && cs in chains && cs != [] && InRange(p)
    ensures f[p] != cs[0]
  {
    assert IsChain(f, cs) && InRange(cs[0]) && cs[0] in cs;
    if f[p] == cs[0] {
      assert InSome(chains, p);
      var a :| a in chains && p in a;
      assert IsChain(f, a) && (a != cs ==> Disjoint(a, cs));
      hide IsChain, Sound;
      SuccessorInChain(f, a, p);
    }
  }

  /** Two sets of chains that account for the same table have the same heads. */
  lemma SameHeads(f: Fat, chains: set<seq<nat>>, others: set<seq<nat>>, cs: seq<nat>) returns (a: seq<nat>)
    requires Sound(f, chains) && Sound(f, others) && cs in chains
    ensures cs != [] && a in others && a != [] && a[0] == cs[0]
  {
    assert IsChain(f, cs);
    var c := cs[0];
    assert c in cs;
    ChainNonZero(f, cs, c);
    assert InSome(others, c);
    a :| a in others && c in a;
    var i :| 0 <= i < |a| && a[i] == c;
    assert IsChain(f, a);
    if i > 0 {
      assert InRange(a[i - 1]);
      HeadUnreferenced(f, chains, cs, a[i - 1]);
    }
  }

  /** When no live entry points to some live chain, no assignment of chains to names is right. */
  lemma LostChain(f: Fat, dir: seq<Slot>, ds: seq<nat>, chains: set<seq<nat>>, cs: seq<nat>, files: FileChains)
    requires Sound(f, chains) && cs in chains && ds in chains && cs != ds
    requires forall j: nat, n: Name | LiveAt(dir, j, n) :: cs != [] && FirstCluster(dir[j]) != cs[0]
    requires Links(dir, files)
    ensures !Owns(f, ds, files)
  {
    hide LiveAt, FirstCluster, Sound;
    if Owns(f, ds, files) {
      HeadsApart(f, chains, ds, cs);
      var a := SameHeads(f, chains, {ds} + files.Values, cs);
      HeadOwner(dir, ds, files, a);
    }
  }

  lemma HeadOwner(dir: seq<Slot>, ds: seq<nat>, files: FileChains, a: seq<nat>)
    requires Links(dir, files) && a in {ds} + files.Values && a != []
    ensures a[0] in ds || exists j: nat, n: Name :: LiveAt(dir, j, n) && FirstCluster(dir[j]) == a[0]
  {
    hide FirstCluster;
    if a != ds {
      var n :| n in files && files[n] == a;
      var j: nat :| LiveAt(dir, j, n);
      assert LinkOk(dir[j], n, files);
    }
  }

  lemma HeadsApart(f: Fat, chains: set<seq<nat>>, ds: seq<nat>, cs: seq<nat>)
    requires Sound(f, chains) && cs in chains && ds in chains && cs != ds
    ensures cs != [] && cs[0] !in ds
  {
    assert IsChain(f, cs) && Disjoint(ds, cs);
    assert cs[0] in cs;
  }

  // ----- bytes -----

  /** Every file of `files` keeps its bytes when only FAT sectors, the directory and one cluster
      outside all chains change. */
  ghost predicate BytesKept(d: Image, d': Image, g: Geometry, cs: seq<nat>) {
    forall content | Holds(d, g, cs, content) :: Holds(d', g, cs, content)
  }

  lemma BytesOutside(d: Image, d': Image, g: Geometry, ds: seq<nat>, made: seq<nat>, cs: seq<nat>)
    requires Fits(d, g) && Fits(d', g) && AllInRange(ds) && AllInRange(made) && AllInRange(cs)
    requires Disjoint(cs, ds) && Disjoint(cs, made)
    requires forall l: nat | l < |d| && !InFats(g, l) && !InFile(g, ds, l) && !InFile(g, made, l) :: d'[l] == d[l]
    ensures BytesKept(d, d', g, cs)
  {
    forall content | Holds(d, g, cs, content) ensures Holds(d', g, cs, content) {
      hide InFile, InFats;
      forall l: nat | l < |d| && InFile(g, cs, l) ensures d'[l] == d[l] {
        assert OnDisk(d, g, cs);
        FileNotInFats(g, cs, l);
        Apart(g, cs, ds, l);
        Apart(g, cs, made, l);
      }
      HoldsElsewhere(d, d', g, cs, content);
    }
  }

  lemma Apart(g: Geometry, cs: seq<nat>, ds: seq<nat>, l: nat)
    requires g.Valid() && AllInRange(cs) && AllInRange(ds) && Disjoint(cs, ds) && InFile(g, cs, l)
    ensures !InFile(g, ds, l)
  {
    if InFile(g, ds, l) { DisjointSectors(g, cs, ds, l); }
  }

  // ----- create -----

  /** The slot of a new file: what it matches and where it points. */
  lemma NewSlot(name: Name, first: nat)
    requires InRange(first) && name[0] != 0
    ensures var s := NewEntry(name, 0x20, first, 0);
      && !Ends(s) && !LongName(s) && NameOf(s) == name && FirstCluster(s) == first && FileSize(s) == 0
      && (InUse(s) <==> name[0] != 0xE5)
      && (forall n: Name :: Matches(s, n) <==> InUse(s) && n == name)
  {
    NewEntryFields(name, 0x20, first, 0);
  }

  /** The directory's side of create. */
  lemma CreateLinks(dir: seq<Slot>, s: Slot, files: FileChains, first: nat)
    requires WellFormed(dir) && Links(dir, files) && Room(dir, 0).Some? && !Ends(s) && !LongName(s) && !Listed(dir, NameOf(s))
    requires FirstCluster(s) == first != 0
    ensures var dir' := dir[Room(dir, 0).value := s];
      && NameOf(s) !in files
      && (InUse(s) ==> Links(dir', files[NameOf(s) := [first]]))
      && (!InUse(s) ==> Links(dir', files))
  {
    RoomIsFirst(dir, 0);
    hide Room, FirstCluster, Listed, NameOf;
    LinksAfterWrite(dir, Room(dir, 0).value, s, files, if InUse(s) then files[NameOf(s) := [first]] else files);
  }

  /** The names the directory knows after create. */
  ghost function MapAfterCreate(m: imap<Name, Slot>, name: Name, s: Slot): imap<Name, Slot> {
    if name[0] == 0xE5 then m else m[name := s]
  }

  lemma CreateFacts(d: Image, d': Image, g: Geometry, ds: seq<nat>, path: CString, files: FileChains, first: nat)
    requires Consistent(d, g, ds, files) && CreateStep(d, d', g, ds, path, true) && FreeList(FatOf(d, g))[0] == first
    ensures var dir, f := Slots(d, g, ds), FatOf(d, g);
      && path != [] && Search(dir, 0, To83(path)) == None && FreeList(f) != [] && Room(dir, 0).Some?
      && OnDisk(d', g, ds) && InRange(first) && FatOf(d', g) == f[first := LAST_CLUSTER]
      && Slots(d', g, ds) == dir[Room(dir, 0).value := NewEntry(To83(path), 0x20, first, 0)]
      && WellFormed(dir) && Links(dir, files) && Owns(f, ds, files)
    ensures forall l: nat | l < |d| && !InFats(g, l) && !InFile(g, ds, l) && !InFile(g, [first], l) :: d'[l] == d[l]
  {
    hide Slots, FatOf, To83, NewEntry, Room, Search, Owns, Links, WellFormed, FreeList, InFile;
  }

  /** Before create no file's chain holds the cluster it takes. */
  lemma FreshCluster(f: Fat, ds: seq<nat>, files: FileChains, first: nat)
    requires Owns(f, ds, files) && FreeList(f) != [] && FreeList(f)[0] == first
    ensures first !in ds && forall n | n in files :: first !in files[n]
  {
    hide Sound;
    FirstPickAlone(f);
    FreeNotInChain(f, {ds} + files.Values, ds, first);
    forall n | n in files ensures first !in files[n] {
      FreeNotInChain(f, {ds} + files.Values, files[n], first);
    }
  }

  lemma NotPointedTo(dir: seq<Slot>, files: FileChains, first: nat)
    requires Links(dir, files) && first > 0 && forall n | n in files :: first !in files[n]
    ensures forall j: nat, n: Name | LiveAt(dir, j, n) :: FirstCluster(dir[j]) != first
  {
    hide FirstCluster;
    forall j: nat, n: Name | LiveAt(dir, j, n) ensures FirstCluster(dir[j]) != first {
      assert LinkOk(dir[j], n, files);
    }
  }

  lemma CreateLost(f: Fat, f': Fat, dir': seq<Slot>, ds: seq<nat>, files: FileChains, first: nat, files': FileChains)
    requires Owns(f, ds, files) && FreeList(f) != [] && FreeList(f)[0] == first && first > 0
    requires Sound(f', {ds} + files.Values + {[first]}) && [first] != ds && Links(dir', files)
    requires Links(dir', files')
    ensures !Owns(f', ds, files')
  {
    hide FirstCluster, Owns, Sound, LinkOk, Links, FreeList;
    FreshCluster(f, ds, files, first);
    NotPointedTo(dir', files, first);
    LostChain(f', dir', ds, {ds} + files.Values + {[first]}, [first], files');
  }

  lemma CreateBytes(d: Image, d': Image, g: Geometry, ds: seq<nat>, files: FileChains, first: nat, n: Name)
    requires OnDisk(d, g, ds) && Fits(d', g) && InRange(first) && n in files && Owns(FatOf(d, g), ds, files)
    requires FreeList(FatOf(d, g)) != [] && FreeList(FatOf(d, g))[0] == first
    requires forall l: nat | l < |d| && !InFats(g, l) && !InFile(g, ds, l) && !InFile(g, [first], l) :: d'[l] == d[l]
    ensures BytesKept(d, d', g, files[n])
  {
    hide FatOf, FreeList, InFile, InFats, BytesKept;
    var chains, cs := {ds} + files.Values, files[n];
    FreshCluster(FatOf(d, g), ds, files, first);
    ChainsApart(FatOf(d, g), ds, files, n);
    BytesOutside(d, d', g, ds, [first], cs);
  }

  lemma ChainsApart(f: Fat, ds: seq<nat>, files: FileChains, n: Name)
    requires Owns(f, ds, files) && n in files
    ensures AllInRange(files[n]) && AllInRange(ds) && Disjoint(files[n], ds)
    ensures forall m | m in files && m != n :: Disjoint(files[m], files[n])
  {
    var chains := {ds} + files.Values;
    assert files[n] in chains && ds in chains && IsChain(f, files[n]) && IsChain(f, ds);
    forall m | m in files && m != n ensures Disjoint(files[m], files[n]) {
      assert files[m] in chains && files[m] != files[n];
    }
  }

  /** A create that fails changes nothing the structure sees, and it fails exactly when the path is
      empty, the name is there, no cluster is free or every slot is in use. */
  lemma CreateRefused(d: Image, d': Image, g: Geometry, ds: seq<nat>, path: CString, files: FileChains)
    requires Consistent(d, g, ds, files) && CreateStep(d, d', g, ds, path, false)
    ensures path == [] || To83(path) in MapOf(Slots(d, g, ds)) || FreeList(FatOf(d, g)) == []
         || forall i | 0 <= i < |Slots(d, g, ds)| :: !Reusable(Slots(d, g, ds)[i])
    ensures Consistent(d', g, ds, files) && Slots(d', g, ds) == Slots(d, g, ds) && FatOf(d', g) == FatOf(d, g)
    ensures forall n | n in files :: BytesKept(d, d', g, files[n])
  {
    hide Slots, FatOf, To83, Owns, Links, MapOf, BytesKept, Search, Room, FreeList, InFats, InFile;
    LookupMeans(Slots(d, g, ds), files, To83(path));
    RoomIsFirst(Slots(d, g, ds), 0);
    FatOnlyMeans(d, d', g);
    forall n | n in files ensures BytesKept(d, d', g, files[n]) {
      OnlyDirectoryBytes(d, d', g, ds, files, n);
    }
  }

  /** A successful create keeps the whole structure -- unless the path begins with the byte that
      marks deleted entries: then the directory is as before and the new cluster belongs to no one. */
  lemma CreateKeeps(d: Image, d': Image, g: Geometry, ds: seq<nat>, path: CString, files: FileChains, first: nat)
    requires Consistent(d, g, ds, files) && CreateStep(d, d', g, ds, path, true)
    requires FreeList(FatOf(d, g))[0] == first
    ensures path != [] && To83(path) !in files && OnDisk(d', g, ds) && 2 <= first < 127006
    ensures MapOf(Slots(d', g, ds)) == MapAfterCreate(MapOf(Slots(d, g, ds)), To83(path), NewEntry(To83(path), 0x20, first, 0))
    ensures path[0] != 0xE5 ==> Consistent(d', g, ds, files[To83(path) := [first]])
    ensures path[0] == 0xE5 ==> forall files' :: !Consistent(d', g, ds, files')
    ensures forall n | n in files :: BytesKept(d, d', g, files[n])
  {
    var dir, f, name := Slots(d, g, ds), FatOf(d, g), To83(path);
    var s := NewEntry(name, 0x20, first, 0);
    FirstByte(path);
    CreateFacts(d, d', g, ds, path, files, first);
    NewSlot(name, first);
    SearchIsFirst(dir, 0, name);
    hide Slots, FatOf, To83, NewEntry, Room, Search, CreateStep, Owns, Links, WellFormed, Sound, FirstCluster, InUse, MapOf;
    CreateMeans(dir, s);
    CreateLinks(dir, s, files, first);
    OwnsMore(f, ds, files, name, first, FatOf(d', g));
    if path[0] == 0xE5 {
      forall files' ensures !Consistent(d', g, ds, files') {
        if Links(Slots(d', g, ds), files') {
          CreateLost(f, FatOf(d', g), Slots(d', g, ds), ds, files, first, files');
        }
      }
    }
    forall n | n in files ensures BytesKept(d, d', g, files[n]) {
      CreateBytes(d, d', g, ds, files, first, n);
    }
  }

  // ----- delete -----

  lemma DeleteLinks(dir: seq<Slot>, i: nat, name: Name, files: FileChains)
    requires WellFormed(dir) && Links(dir, files) && LiveAt(dir, i, name)
    ensures Links(dir[i := dir[i][0 := 0xE5]], files - {name})
  {
    LinksAfterWrite(dir, i, dir[i][0 := 0xE5], files, files - {name});
  }

  /** What a search for a name says about its slot and its chain. */
  lemma LookupMeans(dir: seq<Slot>, files: FileChains, name: Name)
    requires WellFormed(dir) && Links(dir, files)
    ensures match Search(dir, 0, name)
      case Some(j) => LiveAt(dir, j, name) && name in MapOf(dir) && MapOf(dir)[name] == dir[j] && LinkOk(dir[j], name, files)
      case None => name !in MapOf(dir) && name !in files && !Listed(dir, name)
  {
    hide LiveAt, LinkOk;
    SearchIsLookup(dir, name);
  }

  lemma OnlyDirectoryBytes(d: Image, d': Image, g: Geometry, ds: seq<nat>, files: FileChains, n: Name)
    requires OnDisk(d, g, ds) && Fits(d', g) && n in files && Owns(FatOf(d, g), ds, files)
    requires forall l: nat | l < |d| && !InFats(g, l) && !InFile(g, ds, l) :: d'[l] == d[l]
    ensures BytesKept(d, d', g, files[n])
  {
    hide FatOf, InFile, InFats, BytesKept;
    ChainsApart(FatOf(d, g), ds, files, n);
    BytesOutside(d, d', g, ds, ds, files[n]);
  }

  /** On a consistent volume a file can always be freed. */
  lemma AlwaysDeletable(f: Fat, ds: seq<nat>, files: FileChains, s: Slot, name: Name)
    requires Owns(f, ds, files) && LinkOk(s, name, files)
    ensures Deletable(f, s) <==> !IsDirectory(s)
    ensures FirstCluster(s) != 0 ==> Owns(FreeChain(f, FirstCluster(s)).0, ds, files - {name})
    ensures FirstCluster(s) == 0 ==> files - {name} == files
  {
    hide Owns, FreeChain, FirstCluster, IsDirectory;
    if FirstCluster(s) != 0 { OwnsLess(f, ds, files, name); }
  }

  /** The part of DeleteStep about slots and table. */
  ghost predicate DeleteSlots(dir: seq<Slot>, dir': seq<Slot>, f: Fat, f': Fat, name: Name, ok: bool) {
    var j := Search(dir, 0, name);
    && (ok <==> j.Some? && Deletable(f, dir[j.value]))
    && dir' == (if ok then dir[j.value := dir[j.value][0 := 0xE5]] else dir)
    && f' == (if j.Some? && !IsDirectory(dir[j.value]) && FirstCluster(dir[j.value]) != 0
              then FreeChain(f, FirstCluster(dir[j.value])).0 else f)
  }

  lemma DeleteOnSlots(dir: seq<Slot>, dir': seq<Slot>, f: Fat, f': Fat, ds: seq<nat>, files: FileChains, name: Name, ok: bool)
    requires WellFormed(dir) && Links(dir, files) && Owns(f, ds, files) && DeleteSlots(dir, dir', f, f', name, ok)
    ensures ok <==> name in MapOf(dir) && !IsDirectory(MapOf(dir)[name])
    ensures WellFormed(dir') && Links(dir', if ok then files - {name} else files)
    ensures Owns(f', ds, if ok then files - {name} else files)
    ensures MapOf(dir') == if ok then Without(MapOf(dir), Some(name)) else MapOf(dir)
  {
    hide Owns, Links, WellFormed, FirstCluster, MapOf, IsDirectory, Deletable, FreeChain, LiveAt, LinkOk, Search, Without;
    LookupMeans(dir, files, name);
    var j := Search(dir, 0, name);
    if j.Some? {
      AlwaysDeletable(f, ds, files, dir[j.value], name);
      if ok {
        DeleteMeans(dir, j.value, name);
        DeleteLinks(dir, j.value, name, files);
      }
    }
  }

  /** Delete takes away exactly the named file, unless it is missing or a directory: then nothing
      changes.  Its clusters are free again, and every other file keeps its chain and its bytes. */
  lemma DeleteKeeps(d: Image, d': Image, g: Geometry, ds: seq<nat>, path: CString, files: FileChains, ok: bool)
    requires Consistent(d, g, ds, files) && DeleteStep(d, d', g, ds, path, ok)
    ensures OnDisk(d', g, ds)
    ensures var m, n := MapOf(Slots(d, g, ds)), To83(path);
      && (ok <==> n in m && !IsDirectory(m[n]))
      && Consistent(d', g, ds, if ok then files - {n} else files)
      && MapOf(Slots(d', g, ds)) == if ok then Without(m, Some(n)) else m
    ensures forall n | n in files :: BytesKept(d, d', g, files[n])
  {
    hide Slots, FatOf, To83, Owns, Links, WellFormed, FirstCluster, MapOf, IsDirectory, Deletable, FreeChain, BytesKept,
         Search, Without, InFile, InFats;
    DeleteOnSlots(Slots(d, g, ds), Slots(d', g, ds), FatOf(d, g), FatOf(d', g), ds, files, To83(path), ok);
    forall n | n in files ensures BytesKept(d, d', g, files[n]) {
      OnlyDirectoryBytes(d, d', g, ds, files, n);
    }
  }

  // ----- rename -----

  lemma RenamedSlot(s: Slot, name: Name)
    requires InUse(s) && name[0] != 0
    ensures var t := Renamed(s, name);
      && !Ends(t) && NameOf(t) == name && FirstCluster(t) == FirstCluster(s) && (InUse(t) <==> name[0] != 0xE5)
      && (forall n: Name :: Matches(t, n) <==> InUse(t) && n == name)
  {
  }

  lemma RenameLinks(dir: seq<Slot>, i: nat, a: Name, b: Name, files: FileChains)
    requires WellFormed(dir) && Links(dir, files) && LiveAt(dir, i, a) && !Listed(dir, b) && b[0] != 0 && a != b
    ensures Links(dir[i := Renamed(dir[i], b)], if b[0] == 0xE5 then files - {a} else Moved(files, a, b))
    ensures b !in files
  {
    var s := Renamed(dir[i], b);
    RenamedSlot(dir[i], b);
    assert LinkOk(dir[i], a, files);
    hide Renamed, FirstCluster, Listed;
    LinksAfterWrite(dir, i, s, files, if b[0] == 0xE5 then files - {a} else Moved(files, a, b));
  }

  lemma RenameLost(f: Fat, dir': seq<Slot>, ds: seq<nat>, files: FileChains, a: Name, files': FileChains)
    requires Owns(f, ds, files) && a in files && files[a] != [] && files[a][0] > 0
    requires Links(dir', files - {a}) && Links(dir', files')
    ensures !Owns(f, ds, files')
  {
    hide FirstCluster, Sound, LinkOk, Links;
    ChainsApart(f, ds, files, a);
    NotPointedTo(dir', files - {a}, files[a][0]);
    LostChain(f, dir', ds, {ds} + files.Values, files[a], files');
  }

  /** Rename on slots, when it succeeds. */
  lemma RenameOnSlots(dir: seq<Slot>, f: Fat, ds: seq<nat>, files: FileChains, a: Name, b: Name)
    requires WellFormed(dir) && Links(dir, files) && Owns(f, ds, files) && b[0] != 0
    requires Search(dir, 0, a).Some? && Search(dir, 0, b).None?
    ensures var j, m := Search(dir, 0, a).value, MapOf(dir);
      var dir' := dir[j := Renamed(dir[j], b)];
      && WellFormed(dir') && a in m && b !in m
      && (b[0] != 0xE5 ==>
            && Links(dir', Moved(files, a, b)) && Owns(f, ds, Moved(files, a, b))
            && MapOf(dir') == Without(m, Some(a))[b := Renamed(m[a], b)])
      && (b[0] == 0xE5 ==>
            && MapOf(dir') == Without(m, Some(a))
            && Links(dir', files - {a}) && (a !in files ==> files - {a} == files)
            && (a in files ==> forall files' :: !Links(dir', files') || !Owns(f, ds, files')))
  {
    hide Owns, Links, WellFormed, FirstCluster, MapOf, LinkOk, Search, Renamed, LiveAt, Listed, Without, Moved;
    LookupMeans(dir, files, a);
    LookupMeans(dir, files, b);
    var j := Search(dir, 0, a).value;
    RenameMeans(dir, j, a, b);
    RenameLinks(dir, j, a, b, files);
    if b[0] != 0xE5 {
      OwnsMoved(f, ds, files, a, b);
    } else {
      RenameToNothing(f, dir, j, dir[j := Renamed(dir[j], b)], ds, files, a);
    }
  }

  lemma RenameFacts(d: Image, d': Image, g: Geometry, ds: seq<nat>, oldPath: CString, newPath: CString)
    requires OnDisk(d, g, ds) && RenameStep(d, d', g, ds, oldPath, newPath, true)
    ensures OnDisk(d', g, ds) && FatOf(d', g) == FatOf(d, g)
    ensures var dir := Slots(d, g, ds);
      var j := Search(dir, 0, To83(oldPath)).value;
      Slots(d', g, ds) == dir[j := Renamed(dir[j], To83(newPath))]
    ensures forall l: nat | l < |d| && !InFats(g, l) && !InFile(g, ds, l) :: d'[l] == d[l]
  {
    hide Slots, FatOf, To83, Search, Renamed, WithSlot, InFats, InFile, Lba, ClusterOf;
    var dir := Slots(d, g, ds);
    var j := Search(dir, 0, To83(oldPath)).value;
    WithSlotMeans(d, g, ds, j, Renamed(dir[j], To83(newPath)));
    WithSlotElsewhere(d, g, ds, j, Renamed(dir[j], To83(newPath)));
  }

  /** A renamed file keeps everything but its name, and so does every other file.  A new name that
      begins with the byte that marks deleted entries loses the file: its clusters, if it has any,
      then belong to no one. */
  lemma RenameKeeps(d: Image, d': Image, g: Geometry, ds: seq<nat>, oldPath: CString, newPath: CString, files: FileChains)
    requires Consistent(d, g, ds, files) && RenameStep(d, d', g, ds, oldPath, newPath, true)
    ensures OnDisk(d', g, ds)
    ensures var m, a, b := MapOf(Slots(d, g, ds)), To83(oldPath), To83(newPath);
      && a in m && b !in m
      && (b[0] != 0xE5 ==>
            && Consistent(d', g, ds, Moved(files, a, b))
            && MapOf(Slots(d', g, ds)) == Without(m, Some(a))[b := Renamed(m[a], b)])
      && (b[0] == 0xE5 ==>
            && MapOf(Slots(d', g, ds)) == Without(m, Some(a))
            && (a !in files ==> Consistent(d', g, ds, files))
            && (Intact(d', g, ds) <==> a !in files))
    ensures forall n | n in files :: BytesKept(d, d', g, files[n])
  {
    var a, b := To83(oldPath), To83(newPath);
    FirstByte(newPath);
    hide Slots, FatOf, To83, Owns, Links, WellFormed, MapOf, BytesKept, Search, Renamed, InFats, InFile, Moved, Without;
    RenameFacts(d, d', g, ds, oldPath, newPath);
    hide WithSlot;
    RenameOnSlots(Slots(d, g, ds), FatOf(d, g), ds, files, a, b);
    hide RenameStep;
    if b[0] == 0xE5 {
      var dir' := Slots(d', g, ds);
      if a !in files { assert Consistent(d', g, ds, files); }
    }
    forall n | n in files ensures BytesKept(d, d', g, files[n]) {
      OnlyDirectoryBytes(d, d', g, ds, files, n);
    }
  }

  /** Rename fails exactly when the old name is missing or the new one is there. */
  lemma RenameRefused(d: Image, d': Image, g: Geometry, ds: seq<nat>, oldPath: CString, newPath: CString, files: FileChains, ok: bool)
    requires Consistent(d, g, ds, files) && RenameStep(d, d', g, ds, oldPath, newPath, ok)
    ensures ok <==> To83(oldPath) in MapOf(Slots(d, g, ds)) && To83(newPath) !in MapOf(Slots(d, g, ds))
    ensures !ok ==> d' == d
  {
    hide Slots, To83, FatOf, Owns, Links, MapOf, Search, Renamed, WithSlot;
    LookupMeans(Slots(d, g, ds), files, To83(oldPath));
    LookupMeans(Slots(d, g, ds), files, To83(newPath));
  }

  lemma RenameToNothing(f: Fat, dir: seq<Slot>, j: nat, dir': seq<Slot>, ds: seq<nat>, files: FileChains, a: Name)
    requires Owns(f, ds, files) && j < |dir| && LinkOk(dir[j], a, files) && Links(dir', files - {a})
    ensures a !in files ==> files - {a} == files
    ensures a in files ==> forall files' :: !Links(dir', files') || !Owns(f, ds, files')
  {
    hide Owns, Links, FirstCluster;
    if a in files {
      forall files' ensures !Links(dir', files') || !Owns(f, ds, files') {
        if Links(dir', files') { RenameLost(f, dir', ds, files, a, files'); }
      }
    }
  }

  // ----- one call -----

  datatype Change =
    | Create(path: CString)
    | Delete(path: CString)
    | Rename(oldPath: CString, newPath: CString)

  predicate Marked(path: CString) { path != [] && path[0] == 0xE5 }

  /** The call loses no cluster: it does not go through with a new name that begins with the byte
      that marks deleted entries, unless it renames a file that has no clusters.  StepKeepsIff says
      that this is the exact condition. */
  ghost predicate Safe(d: Image, g: Geometry, ds: seq<nat>, c: Change)
    requires OnDisk(d, g, ds)
  {
    var dir := Slots(d, g, ds);
    match c
    case Create(path) => Marked(path) ==> FreeList(FatOf(d, g)) == [] || Room(dir, 0).None?
    case Delete(_) => true
    case Rename(oldPath, newPath) =>
      var j := Search(dir, 0, To83(oldPath));
      Marked(newPath) && j.Some? ==> FirstCluster(dir[j.value]) == 0
  }

  predicate Mentions(c: Change, n: Name) {
    match c
    case Create(path) => n == To83(path)
    case Delete(path) => n == To83(path)
    case Rename(oldPath, newPath) => n == To83(oldPath) || n == To83(newPath)
  }

  /** One call of the driver, with the result it reports and the image it leaves. */
  datatype Step = Step(change: Change, ok: bool, after: Image)

  ghost predicate Happens(d: Image, g: Geometry, ds: seq<nat>, s: Step) {
    OnDisk(d, g, ds) &&
    match s.change
    case Create(path) => CreateStep(d, s.after, g, ds, path, s.ok)
    case Delete(path) => DeleteStep(d, s.after, g, ds, path, s.ok)
    case Rename(oldPath, newPath) => RenameStep(d, s.after, g, ds, oldPath, newPath, s.ok)
  }

  /** The file n is untouched: same slot, same chain, same bytes. */
  ghost predicate FileUntouched(d: Image, d': Image, g: Geometry, ds: seq<nat>, files: FileChains, files': FileChains, n: Name)
    requires OnDisk(d, g, ds) && OnDisk(d', g, ds)
  {
    var m, m' := MapOf(Slots(d, g, ds)), MapOf(Slots(d', g, ds));
    && (n in m <==> n in m') && (n in m ==> m'[n] == m[n])
    && (n in files <==> n in files') && (n in files ==> files'[n] == files[n] && BytesKept(d, d', g, files[n]))
  }

  /** Nothing happened to the map, the chains and the bytes of any name but those in `named`. */
  lemma UntouchedBut(d: Image, d': Image, g: Geometry, ds: seq<nat>, files: FileChains, files': FileChains, n: Name)
    requires OnDisk(d, g, ds) && OnDisk(d', g, ds)
    requires var m, m' := MapOf(Slots(d, g, ds)), MapOf(Slots(d', g, ds)); (n in m <==> n in m') && (n in m ==> m'[n] == m[n])
    requires n in files <==> n in files'
    requires n in files ==> files'[n] == files[n] && BytesKept(d, d', g, files[n])
    ensures FileUntouched(d, d', g, ds, files, files', n)
  {
  }

  lemma CreateUntouched(d: Image, d': Image, g: Geometry, ds: seq<nat>, path: CString, ok: bool, files: FileChains)
    returns (files': FileChains)
    requires Consistent(d, g, ds, files) && CreateStep(d, d', g, ds, path, ok) && (ok ==> !Marked(path))
    ensures Consistent(d', g, ds, files')
    ensures forall n: Name | n != To83(path) :: FileUntouched(d, d', g, ds, files, files', n)
  {
    hide *;
    ConsistentOnDisk(d, g, ds, files);
    if ok {
      CreateTakes(d, d', g, ds, path);
      MarkedFirst(path);
      var first := FreeList(FatOf(d, g))[0];
      CreateKeeps(d, d', g, ds, path, files, first);
      files' := files[To83(path) := [first]];
      ConsistentOnDisk(d', g, ds, files');
      AddedOnly(MapOf(Slots(d, g, ds)), To83(path), NewEntry(To83(path), 0x20, first, 0));
    } else {
      CreateRefused(d, d', g, ds, path, files);
      files' := files;
      ConsistentOnDisk(d', g, ds, files');
    }
    forall n: Name | n != To83(path) ensures FileUntouched(d, d', g, ds, files, files', n) {
      UntouchedBut(d, d', g, ds, files, files', n);
    }
  }

  lemma MarkedFirst(path: CString)
    ensures path != [] ==> (Marked(path) <==> path[0] == 0xE5)
    ensures Marked(path) <==> To83(path)[0] == 0xE5
  {
    FirstByte(path);
    hide To83;
  }

  /** A name with the deletion mark is never found. */
  lemma {:induction false} NeverFound(dir: seq<Slot>, i: nat, name: Name)
    requires name[0] == 0xE5
    ensures Search(dir, i, name) == None
    decreases |dir| - i
  {
    if i < |dir| && !Ends(dir[i]) {
      assert NameOf(dir[i])[0] == dir[i][0];
      NeverFound(dir, i + 1, name);
    }
  }

  /** Create goes through with a name that has the mark exactly when it is not safe. */
  lemma CreateSafe(d: Image, d': Image, g: Geometry, ds: seq<nat>, path: CString, ok: bool)
    requires OnDisk(d, g, ds) && CreateStep(d, d', g, ds, path, ok)
    ensures Safe(d, g, ds, Create(path)) <==> !(ok && Marked(path))
  {
    MarkedFirst(path);
    hide Slots, FatOf, To83, FreeList, Room, Search, Created, FatOnly;
    if Marked(path) { NeverFound(Slots(d, g, ds), 0, To83(path)); }
  }

  /** Rename is safe unless it gives such a name to a file with clusters. */
  lemma RenameSafe(d: Image, d': Image, g: Geometry, ds: seq<nat>, oldPath: CString, newPath: CString, ok: bool, files: FileChains)
    requires Consistent(d, g, ds, files) && RenameStep(d, d', g, ds, oldPath, newPath, ok)
    ensures Safe(d, g, ds, Rename(oldPath, newPath)) <==> !(ok && Marked(newPath) && To83(oldPath) in files)
  {
    MarkedFirst(newPath);
    hide Slots, To83, FatOf, Owns, Links, MapOf, Search, Renamed, WithSlot, FirstCluster;
    LookupMeans(Slots(d, g, ds), files, To83(oldPath));
    if Marked(newPath) { NeverFound(Slots(d, g, ds), 0, To83(newPath)); }
  }

  lemma ConsistentOnDisk(d: Image, g: Geometry, ds: seq<nat>, files: FileChains)
    requires Consistent(d, g, ds, files)
    ensures OnDisk(d, g, ds) && Fits(d, g)
  {
  }

  lemma CreateTakes(d: Image, d': Image, g: Geometry, ds: seq<nat>, path: CString)
    requires OnDisk(d, g, ds) && CreateStep(d, d', g, ds, path, true)
    ensures path != [] && FreeList(FatOf(d, g)) != []
  {
    hide FatOf, FreeList;
  }

  lemma AddedOnly(m: imap<Name, Slot>, name: Name, s: Slot)
    ensures var m' := MapAfterCreate(m, name, s);
      forall n: Name | n != name :: (n in m <==> n in m') && (n in m ==> m'[n] == m[n])
  {
  }

  lemma WithoutOnly(m: imap<Name, Slot>, name: Name)
    ensures var m' := Without(m, Some(name));
      forall n: Name | n != name :: (n in m <==> n in m') && (n in m ==> m'[n] == m[n])
  {
  }

  lemma DeleteUntouched(d: Image, d': Image, g: Geometry, ds: seq<nat>, path: CString, ok: bool, files: FileChains)
    returns (files': FileChains)
    requires Consistent(d, g, ds, files) && DeleteStep(d, d', g, ds, path, ok)
    ensures Consistent(d', g, ds, files')
    ensures forall n: Name | n != To83(path) :: FileUntouched(d, d', g, ds, files, files', n)
  {
    hide *;
    ConsistentOnDisk(d, g, ds, files);
    DeleteKeeps(d, d', g, ds, path, files, ok);
    files' := if ok then files - {To83(path)} else files;
    ConsistentOnDisk(d', g, ds, files');
    WithoutOnly(MapOf(Slots(d, g, ds)), To83(path));
    forall n: Name | n != To83(path) ensures FileUntouched(d, d', g, ds, files, files', n) {
      UntouchedBut(d, d', g, ds, files, files', n);
    }
  }

  lemma MovedOnly(files: FileChains, a: Name, b: Name)
    ensures forall n: Name | n != a && n != b ::
      (n in files <==> n in Moved(files, a, b)) && (n in files ==> Moved(files, a, b)[n] == files[n])
  {
  }

  lemma RenameUntouched(d: Image, d': Image, g: Geometry, ds: seq<nat>, oldPath: CString, newPath: CString, ok: bool, files: FileChains)
    returns (files': FileChains)
    requires Consistent(d, g, ds, files) && RenameStep(d, d', g, ds, oldPath, newPath, ok)
    requires ok && Marked(newPath) ==> To83(oldPath) !in files
    ensures Consistent(d', g, ds, files')
    ensures forall n: Name | n != To83(oldPath) && n != To83(newPath) :: FileUntouched(d, d', g, ds, files, files', n)
  {
    hide *;
    ConsistentOnDisk(d, g, ds, files);
    var a, b := To83(oldPath), To83(newPath);
    if ok {
      MarkedFirst(newPath);
      RenameKeeps(d, d', g, ds, oldPath, newPath, files);
      files' := if Marked(newPath) then files else Moved(files, a, b);
      MovedOnly(files, a, b);
      WithoutOnly(MapOf(Slots(d, g, ds)), a);
    } else {
      RenameRefused(d, d', g, ds, oldPath, newPath, files, false);
      files' := files;
      SameBytes(d, g);
    }
    ConsistentOnDisk(d', g, ds, files');
    forall n: Name | n != a && n != b ensures FileUntouched(d, d', g, ds, files, files', n) {
      UntouchedBut(d, d', g, ds, files, files', n);
    }
  }

  lemma SameBytes(d: Image, g: Geometry)
    ensures forall cs :: BytesKept(d, d, g, cs)
  {
  }

  /** One step. */
  lemma StepKeeps(d: Image, g: Geometry, ds: seq<nat>, s: Step, files: FileChains) returns (files': FileChains)
    requires Consistent(d, g, ds, files) && Happens(d, g, ds, s) && Safe(d, g, ds, s.change)
    ensures Consistent(s.after, g, ds, files')
    ensures forall n: Name | !Mentions(s.change, n) :: FileUntouched(d, s.after, g, ds, files, files', n)
  {
    hide Consistent, FileUntouched, CreateStep, DeleteStep, RenameStep, OnDisk, To83, Safe;
    match s.change
    case Create(path) =>
      CreateSafe(d, s.after, g, ds, path, s.ok);
      files' := CreateUntouched(d, s.after, g, ds, path, s.ok, files);
    case Delete(path) =>
      files' := DeleteUntouched(d, s.after, g, ds, path, s.ok, files);
    case Rename(oldPath, newPath) =>
      RenameSafe(d, s.after, g, ds, oldPath, newPath, s.ok, files);
      files' := RenameUntouched(d, s.after, g, ds, oldPath, newPath, s.ok, files);
  }

  /** A step keeps the structure if and only if it is safe; whether it is, can be told before. */
  lemma StepKeepsIff(d: Image, g: Geometry, ds: seq<nat>, s: Step, files: FileChains)
    requires Consistent(d, g, ds, files) && Happens(d, g, ds, s)
    ensures Intact(s.after, g, ds) <==> Safe(d, g, ds, s.change)
  {
    hide Consistent, CreateStep, DeleteStep, RenameStep, OnDisk, To83, Safe;
    if Safe(d, g, ds, s.change) {
      var files' := StepKeeps(d, g, ds, s, files);
    } else {
      Breaks(d, g, ds, s, files);
    }
  }

  lemma Breaks(d: Image, g: Geometry, ds: seq<nat>, s: Step, files: FileChains)
    requires Consistent(d, g, ds, files) && Happens(d, g, ds, s) && !Safe(d, g, ds, s.change)
    ensures !Intact(s.after, g, ds)
  {
    assert !s.change.Delete?;
    hide Consistent, CreateStep, DeleteStep, RenameStep, OnDisk, To83, Safe, FatOf, FreeList;
    match s.change
    case Create(path) =>
      CreateSafe(d, s.after, g, ds, path, s.ok);
      CreateTakes(d, s.after, g, ds, path);
      MarkedFirst(path);
      ConsistentOnDisk(d, g, ds, files);
      CreateKeeps(d, s.after, g, ds, path, files, FreeList(FatOf(d, g))[0]);
    case Delete(path) =>
    case Rename(oldPath, newPath) =>
      RenameSafe(d, s.after, g, ds, oldPath, newPath, s.ok, files);
      MarkedFirst(newPath);
      RenameKeeps(d, s.after, g, ds, oldPath, newPath, files);
  }

  /** No FAT word but those of clusters changes, and the copies follow. */
  lemma StepKeepsFats(d: Image, g: Geometry, ds: seq<nat>, s: Step)
    requires Happens(d, g, ds, s)
    ensures Fits(d, g) && Fits(s.after, g) && FatKept(d, s.after, g)
  {
    hide Slots, FatOf, To83, Search, Room, FreeList, Renamed, WithSlot, NewEntry, Deletable, FreeChain, InFile, InFats, FatKept;
    match s.change
    case Create(path) => CreateKeepsFats(d, s.after, g, ds, path, s.ok);
    case Delete(path) =>
    case Rename(oldPath, newPath) =>
      if s.ok {
        var j := Search(Slots(d, g, ds), 0, To83(oldPath)).value;
        SlotKeepsFats(d, g, ds, j, Renamed(Slots(d, g, ds)[j], To83(newPath)));
      } else {
        FatKeptRefl(d, g);
      }
  }

  lemma CreateKeepsFats(d: Image, d': Image, g: Geometry, ds: seq<nat>, path: CString, ok: bool)
    requires OnDisk(d, g, ds) && CreateStep(d, d', g, ds, path, ok)
    ensures Fits(d, g) && Fits(d', g) && FatKept(d, d', g)
  {
    hide Slots, FatOf, To83, Search, Room, FreeList, NewEntry, InFile, InFats, FatKept;
  }

  lemma UntouchedTrans(d: Image, mid: Image, d': Image, g: Geometry, ds: seq<nat>, files: FileChains, between: FileChains,
                       files': FileChains, n: Name)
    requires OnDisk(d, g, ds) && OnDisk(mid, g, ds) && OnDisk(d', g, ds)
    requires FileUntouched(d, mid, g, ds, files, between, n) && FileUntouched(mid, d', g, ds, between, files', n)
    ensures FileUntouched(d, d', g, ds, files, files', n)
  {
    hide MapOf, Slots, OnDisk, Holds;
  }
}
