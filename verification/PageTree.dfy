/** vmm_map as a function on memory and allocator state, and the theorem that it changes the
    translation of exactly one page. */
module PageTree {
  import opened Words
  import opened PageAllocator
  import opened PageTables

  /** Physical memory as page tables: 512 entries in each of the 2^40 pages an entry can name. */
  type Memory = map<nat, seq<nat>>

  ghost predicate IsMemory(m: Memory) {
    forall p: nat :: p < 0x100_0000_0000 ==> p in m && |m[p]| == 512
  }

  function ZeroTable(): (t: seq<nat>)
    ensures |t| == 512 && forall i | 0 <= i < 512 :: t[i] == 0
  {
    seq(512, i => 0)
  }

  /** A path of at most three table indices from the root table. */
  ghost predicate IsPath(a: seq<nat>) {
    |a| <= 3 && forall k | 0 <= k < |a| :: a[k] < 512
  }

  /** The table reached from `root` along path `a`, if every entry on the way is present. */
  ghost function Node(m: Memory, root: nat, a: seq<nat>): (r: Option<nat>)
    requires IsMemory(m) && root < 0x100_0000_0000 && IsPath(a)
    ensures r.Some? ==> r.value < 0x100_0000_0000
    decreases |a|
  {
    if a == [] then Some(root)
    else
      var n := |a| - 1;
      match Node(m, root, a[..n])
      case None => None
      case Some(p) => if Present(m[p][a[n]]) then Some(PageOf(m[p][a[n]])) else None
  }

  /** The path of an address to its last-level table. */
  function PathOf(v: nat): (a: seq<nat>)
    ensures IsPath(a) && |a| == 3
  {
    [Pml4Index(v), PdptIndex(v), PdIndex(v)]
  }

  /** The leaf entry the processor finds for an address; None when some level is not present. */
  ghost function Translate(m: Memory, root: nat, v: nat): Option<nat>
    requires IsMemory(m) && root < 0x100_0000_0000
  {
    match Node(m, root, PathOf(v))
    case None => None
    case Some(p) => if Present(m[p][PtIndex(v)]) then Some(m[p][PtIndex(v)]) else None
  }

  /** Which is the processor's walk: four lookups at nine bits of the address each, as long as bit 0
      of the entry is set, at the page that bits 12 to 51 of the entry before name. */
  lemma TranslateIsWalk(m: Memory, root: nat, v: nat)
    requires IsMemory(m) && root < 0x100_0000_0000
    ensures Translate(m, root, v) ==
      var e0 := m[root][v / 0x80_0000_0000 % 512];
      if e0 % 2 == 0 then None else
      var e1 := m[e0 / 0x1000 % 0x100_0000_0000][v / 0x4000_0000 % 512];
      if e1 % 2 == 0 then None else
      var e2 := m[e1 / 0x1000 % 0x100_0000_0000][v / 0x20_0000 % 512];
      if e2 % 2 == 0 then None else
      var e3 := m[e2 / 0x1000 % 0x100_0000_0000][v / 0x1000 % 512];
      if e3 % 2 == 0 then None else Some(e3)
  {
    WalkByIndices(m, root, v);
    hide Translate;
  }

  lemma WalkByIndices(m: Memory, root: nat, v: nat)
    requires IsMemory(m) && root < 0x100_0000_0000
    ensures Translate(m, root, v) ==
      var e0 := m[root][Pml4Index(v)];
      if !Present(e0) then None else
      var e1 := m[PageOf(e0)][PdptIndex(v)];
      if !Present(e1) then None else
      var e2 := m[PageOf(e1)][PdIndex(v)];
      if !Present(e2) then None else
      var e3 := m[PageOf(e2)][PtIndex(v)];
      if !Present(e3) then None else Some(e3)
  {
    hide Pml4Index, PdptIndex, PdIndex, PtIndex, Present, PageOf;
    var a := PathOf(v);
    assert a[..1] == [] + [a[0]] && a[..2] == a[..1] + [a[1]] && a == a[..2] + [a[2]];
    NodeStep(m, root, [], a[0]);
    NodeStep(m, root, a[..1], a[1]);
    NodeStep(m, root, a[..2], a[2]);
    NodeRoot(m, root);
    hide Node;
  }

  lemma NodeRoot(m: Memory, root: nat)
    requires IsMemory(m) && root < 0x100_0000_0000
    ensures Node(m, root, []) == Some(root)
  {
  }

  lemma NodeStep(m: Memory, root: nat, a: seq<nat>, i: nat)
    requires IsMemory(m) && root < 0x100_0000_0000 && IsPath(a) && |a| < 3 && i < 512
    ensures IsPath(a + [i]) && Node(m, root, a + [i]) ==
      match Node(m, root, a)
      case None => None
      case Some(p) => if Present(m[p][i]) then Some(PageOf(m[p][i])) else None
  {
    assert (a + [i])[..|a|] == a;
  }

  /** Reachable tables form a tree of distinct pages, all of them marked used. */
  ghost predicate TableTree(m: Memory, root: nat, clear: set<nat>)
    requires IsMemory(m) && root < 0x100_0000_0000
  {
    && (forall a, b | IsPath(a) && IsPath(b) && Node(m, root, a).Some? && Node(m, root, a) == Node(m, root, b) :: a == b)
    && (forall a | IsPath(a) && Node(m, root, a).Some? :: Node(m, root, a).value !in clear)
  }

  // ----- the code as functions -----

  /** get_next_level on entry i of table p; table 0 stands for the NULL it returns on failure. */
  ghost function NextLevel(m: Memory, s: State, p: nat, i: nat, flags: nat): (Memory, State, nat)
    requires IsMemory(m) && p < 0x100_0000_0000 && i < 512
  {
    if Present(m[p][i]) then (m, s, PageOf(m[p][i]))
    else
      var (s', addr) := AllocStep(s);
      if addr == 0 then (m, s', 0) else (Link(m, p, i, addr / 4096, TableEntry(addr, flags)), s', addr / 4096)
  }

  /** Store entry e in slot i of table p. */
  function Store(m: Memory, p: nat, i: nat, e: nat): Memory
    requires p in m && i < |m[p]|
  {
    var table: seq<nat> := m[p][i := e];
    m[p := table]
  }

  /** Zero page c, then store entry e in slot i of table p. */
  ghost function Link(m: Memory, p: nat, i: nat, c: nat, e: nat): Memory
    requires IsMemory(m) && p < 0x100_0000_0000 && i < 512
  {
    Store(m[c := ZeroTable()], p, i, e)
  }

  lemma NextLevelIsMemory(m: Memory, s: State, p: nat, i: nat, flags: nat)
    requires IsMemory(m) && p < 0x100_0000_0000 && i < 512
    ensures IsMemory(NextLevel(m, s, p, i, flags).0)
    ensures NextLevel(m, s, p, i, flags).2 < 0x100_0000_0000
  {
  }

  /** vmm_map. */
  ghost function MapStep(m: Memory, s: State, root: nat, virt: nat, phys: nat, flags: nat): (Memory, State)
    requires IsMemory(m) && root < 0x100_0000_0000
  {
    var (m1, s1, pdpt) := NextLevel(m, s, root, Pml4Index(virt), flags);
    NextLevelIsMemory(m, s, root, Pml4Index(virt), flags);
    var (m2, s2, pd) := NextLevel(m1, s1, pdpt, PdptIndex(virt), flags);
    NextLevelIsMemory(m1, s1, pdpt, PdptIndex(virt), flags);
    var (m3, s3, pt) := NextLevel(m2, s2, pd, PdIndex(virt), flags);
    NextLevelIsMemory(m2, s2, pd, PdIndex(virt), flags);
    (Store(m3, pt, PtIndex(virt), LeafEntry(phys, flags)), s3)
  }

  // ----- linking a fresh table -----

  /** Two paths to one table are the same path, and no table is a clear page. */
  lemma TreeFacts(m: Memory, root: nat, clear: set<nat>, a: seq<nat>, b: seq<nat>)
    requires IsMemory(m) && root < 0x100_0000_0000 && TableTree(m, root, clear)
    requires IsPath(a) && IsPath(b) && Node(m, root, a).Some?
    ensures Node(m, root, a) == Node(m, root, b) ==> a == b
    ensures Node(m, root, a).value !in clear
  {
  }

  lemma LinkEntries(m: Memory, p: nat, i: nat, c: nat, e: nat)
    requires IsMemory(m) && p < 0x100_0000_0000 && i < 512 && c < 0x100_0000_0000 && p != c
    ensures IsMemory(Link(m, p, i, c, e))
    ensures Link(m, p, i, c, e)[c] == ZeroTable() && Link(m, p, i, c, e)[p] == m[p][i := e]
    ensures forall q | q in m && q != p && q != c :: Link(m, p, i, c, e)[q] == m[q]
  {
  }

  /** Linking a fresh zeroed table adds exactly one node. */
  lemma {:induction false} LinkNodes(m: Memory, root: nat, clear: set<nat>, a: seq<nat>, i: nat, c: nat, e: nat, b: seq<nat>)
    requires IsMemory(m) && root < 0x100_0000_0000 && TableTree(m, root, clear)
    requires IsPath(a + [i]) && IsPath(a) && Node(m, root, a).Some?
    requires i < 512 && !Present(m[Node(m, root, a).value][i])
    requires c in clear && c < 0x100_0000_0000 && Present(e) && PageOf(e) == c
    requires IsPath(b)
    ensures IsMemory(Link(m, Node(m, root, a).value, i, c, e))
    ensures Node(Link(m, Node(m, root, a).value, i, c, e), root, b)
         == if b == a + [i] then Some(c) else Node(m, root, b)
    decreases |b|
  {
    hide TableTree, Link, PageOf;
    var p := Node(m, root, a).value;
    var m' := Link(m, p, i, c, e);
    TreeFacts(m, root, clear, a, a);
    LinkEntries(m, p, i, c, e);
    if b != [] {
      var front, k := b[..|b| - 1], b[|b| - 1];
      assert b == front + [k];
      assert IsPath(front);
      LinkNodes(m, root, clear, a, i, c, e, front);
      if front == a + [i] {
        assert front[..|front| - 1] == a;
      } else if Node(m, root, front).Some? {
        TreeFacts(m, root, clear, front, a);
      }
    }
  }

  /** A present entry is kept wherever its table is a page in use. */
  ghost predicate KeepsEntries(m: Memory, m': Memory, clear: set<nat>)
    requires IsMemory(m) && IsMemory(m')
  {
    forall q: nat, k | q < 0x100_0000_0000 && q !in clear && 0 <= k < 512 && Present(m[q][k]) :: m'[q][k] == m[q][k]
  }

  lemma TreeGrows(m: Memory, m': Memory, root: nat, clear: set<nat>, a: seq<nat>, c: nat)
    requires IsMemory(m) && IsMemory(m') && root < 0x100_0000_0000 && TableTree(m, root, clear)
    requires IsPath(a) && c in clear
    requires forall b | IsPath(b) :: Node(m', root, b) == if b == a then Some(c) else Node(m, root, b)
    ensures TableTree(m', root, clear - {c})
  {
  }

  /** Linking a fresh table keeps the tree, every present entry, and every translation. */
  lemma LinkTree(m: Memory, root: nat, clear: set<nat>, a: seq<nat>, i: nat, c: nat, e: nat, m': Memory)
    requires IsMemory(m) && root < 0x100_0000_0000 && TableTree(m, root, clear)
    requires IsPath(a + [i]) && IsPath(a) && Node(m, root, a).Some?
    requires i < 512 && !Present(m[Node(m, root, a).value][i])
    requires c in clear && c < 0x100_0000_0000 && Present(e) && PageOf(e) == c
    requires m' == Link(m, Node(m, root, a).value, i, c, e)
    ensures IsMemory(m') && TableTree(m', root, clear - {c}) && KeepsEntries(m, m', clear)
  {
    hide TableTree, Link, PageOf;
    TreeFacts(m, root, clear, a, a);
    LinkEntries(m, Node(m, root, a).value, i, c, e);
    forall b | IsPath(b) ensures Node(m', root, b) == if b == a + [i] then Some(c) else Node(m, root, b) {
      LinkNodes(m, root, clear, a, i, c, e, b);
    }
    TreeGrows(m, m', root, clear, a + [i], c);
  }

  lemma LinkTranslates(m: Memory, root: nat, clear: set<nat>, a: seq<nat>, i: nat, c: nat, e: nat, m': Memory, v: nat)
    requires IsMemory(m) && root < 0x100_0000_0000 && TableTree(m, root, clear)
    requires IsPath(a + [i]) && IsPath(a) && Node(m, root, a).Some?
    requires i < 512 && !Present(m[Node(m, root, a).value][i])
    requires c in clear && c < 0x100_0000_0000 && Present(e) && PageOf(e) == c
    requires m' == Link(m, Node(m, root, a).value, i, c, e)
    ensures IsMemory(m') && Translate(m', root, v) == Translate(m, root, v)
  {
    hide TableTree, Link, PageOf, PathOf, PtIndex;
    assert (a + [i])[..|a|] == a;
    TreeFacts(m, root, clear, a, a);
    LinkEntries(m, Node(m, root, a).value, i, c, e);
    LinkNodes(m, root, clear, a, i, c, e, PathOf(v));
    if PathOf(v) != a + [i] && Node(m, root, PathOf(v)).Some? {
      TreeFacts(m, root, clear, PathOf(v), a);
    }
  }

  /** get_next_level on a missing entry, when a page can be had. */
  lemma NextLevelAllocates(m: Memory, s: State, p: nat, i: nat, flags: nat)
    requires IsMemory(m) && p < 0x100_0000_0000 && i < 512
    requires !Present(m[p][i]) && Allocatable(s.clear) != {} && PageOf(flags) == 0
    ensures var c, (m', s', q) := Least(Allocatable(s.clear)), NextLevel(m, s, p, i, flags);
      && q == c && c in s.clear && c < 0x100_0000_0000
      && m' == Link(m, p, i, c, TableEntry(c * 4096, flags)) && IsMemory(m')
      && Present(TableEntry(c * 4096, flags)) && PageOf(TableEntry(c * 4096, flags)) == c
      && s'.clear == s.clear - {c}
      && |Allocatable(s'.clear)| == |Allocatable(s.clear)| - 1
  {
    hide PageOf, TableEntry, Or, Link;
    var c := Least(Allocatable(s.clear));
    TableEntryFields(c, flags);
    assert c * 4096 / 4096 == c;
    assert Allocatable(s.clear - {c}) == Allocatable(s.clear) - {c};
    NextLevelIsMemory(m, s, p, i, flags);
  }

  /** What one get_next_level call guarantees on a table tree: the slot now leads to table q, one
      page was taken if the slot was empty, and nothing else is to be seen. */
  ghost predicate LevelDone(m: Memory, s: State, m': Memory, s': State, q: nat, root: nat, a: seq<nat>)
    requires IsMemory(m) && root < 0x100_0000_0000 && IsPath(a)
  {
    && IsMemory(m') && TableTree(m', root, s'.clear) && s'.clear <= s.clear
    && Node(m', root, a) == Some(q)
    && (forall b | IsPath(b) && b != a :: Node(m', root, b) == Node(m, root, b))
    && (Node(m, root, a).Some? ==> Node(m, root, a) == Some(q))
    && KeepsEntries(m, m', s.clear)
    && |Allocatable(s'.clear)| == |Allocatable(s.clear)| - (if Node(m, root, a).None? then 1 else 0)
    && (forall v :: Translate(m', root, v) == Translate(m, root, v))
  }

  lemma LevelStep(m: Memory, s: State, root: nat, a: seq<nat>, i: nat, flags: nat)
    requires IsMemory(m) && root < 0x100_0000_0000 && TableTree(m, root, s.clear)
    requires IsPath(a) && IsPath(a + [i]) && i < 512 && Node(m, root, a).Some?
    requires PageOf(flags) == 0
    requires Node(m, root, a + [i]).None? ==> Allocatable(s.clear) != {}
    ensures var (m', s', q) := NextLevel(m, s, Node(m, root, a).value, i, flags);
      LevelDone(m, s, m', s', q, root, a + [i])
  {
    var p := Node(m, root, a).value;
    var (m', s', q) := NextLevel(m, s, p, i, flags);
    assert (a + [i])[..|a|] == a;
    if !Present(m[p][i]) {
      NextLevelAllocates(m, s, p, i, flags);
      hide NextLevel, Link, Allocatable, PageOf, TableEntry, TableTree, Translate, KeepsEntries;
      var e := TableEntry(q * 4096, flags);
      LinkTree(m, root, s.clear, a, i, q, e, m');
      forall b | IsPath(b) ensures Node(m', root, b) == if b == a + [i] then Some(q) else Node(m, root, b) {
        LinkNodes(m, root, s.clear, a, i, q, e, b);
      }
      forall v: nat ensures Translate(m', root, v) == Translate(m, root, v) {
        LinkTranslates(m, root, s.clear, a, i, q, e, m', v);
      }
    }
  }

  /** Storing a leaf entry changes the translation of exactly one page. */
  lemma {:induction false} StoreNodes(m: Memory, root: nat, clear: set<nat>, a: seq<nat>, l: nat, e: nat, b: seq<nat>)
    requires IsMemory(m) && root < 0x100_0000_0000 && TableTree(m, root, clear)
    requires IsPath(a) && |a| == 3 && Node(m, root, a).Some? && l < 512 && IsPath(b)
    ensures IsMemory(Store(m, Node(m, root, a).value, l, e))
    ensures Node(Store(m, Node(m, root, a).value, l, e), root, b) == Node(m, root, b)
    decreases |b|
  {
    if b != [] {
      var front := b[..|b| - 1];
      assert IsPath(front);
      StoreNodes(m, root, clear, a, l, e, front);
      assert front != a;
    }
  }

  lemma StoreTranslates(m: Memory, root: nat, clear: set<nat>, virt: nat, e: nat, v: nat)
    requires IsMemory(m) && root < 0x100_0000_0000 && TableTree(m, root, clear)
    requires Node(m, root, PathOf(virt)).Some? && Present(e)
    ensures IsMemory(Store(m, Node(m, root, PathOf(virt)).value, PtIndex(virt), e))
    ensures Translate(Store(m, Node(m, root, PathOf(virt)).value, PtIndex(virt), e), root, v)
         == if VirtualPage(v) == VirtualPage(virt) then Some(e) else Translate(m, root, v)
  {
    StoreNodes(m, root, clear, PathOf(virt), PtIndex(virt), e, PathOf(v));
    SameIndices(v, virt);
    assert PathOf(v) == PathOf(virt) <==> Pml4Index(v) == Pml4Index(virt) && PdptIndex(v) == PdptIndex(virt) && PdIndex(v) == PdIndex(virt)
    by {
      assert PathOf(v)[0] == Pml4Index(v) && PathOf(v)[1] == PdptIndex(v) && PathOf(v)[2] == PdIndex(v);
      assert PathOf(virt)[0] == Pml4Index(virt) && PathOf(virt)[1] == PdptIndex(virt) && PathOf(virt)[2] == PdIndex(virt);
    }
  }

  // ----- vmm_map -----

  /** How many tables vmm_map has to make for an address. */
  ghost function Missing(m: Memory, root: nat, virt: nat): nat
    requires IsMemory(m) && root < 0x100_0000_0000
  {
    (if Node(m, root, PathOf(virt)[..1]).None? then 1 else 0)
    + (if Node(m, root, PathOf(virt)[..2]).None? then 1 else 0)
    + (if Node(m, root, PathOf(virt)).None? then 1 else 0)
  }

  /** The intermediate entries already present, and so the tables, are as before. */
  ghost predicate KeepsTables(m: Memory, m': Memory, root: nat)
    requires IsMemory(m) && IsMemory(m') && root < 0x100_0000_0000
  {
    forall a, k | IsPath(a) && |a| < 3 && Node(m, root, a).Some? && 0 <= k < 512 && Present(m[Node(m, root, a).value][k]) ::
      Node(m', root, a) == Node(m, root, a) && m'[Node(m, root, a).value][k] == m[Node(m, root, a).value][k]
  }

  /** The tables of an address exist after the three calls of get_next_level. */
  ghost predicate PathMade(m: Memory, s: State, m': Memory, s': State, q: nat, root: nat, virt: nat)
    requires IsMemory(m) && root < 0x100_0000_0000
  {
    && IsMemory(m') && TableTree(m', root, s'.clear) && s'.clear <= s.clear
    && Node(m', root, PathOf(virt)) == Some(q)
    && (forall b | IsPath(b) :: Node(m', root, b).Some? <==> Node(m, root, b).Some? || b <= PathOf(virt))
    && (forall b | IsPath(b) && Node(m, root, b).Some? :: Node(m', root, b) == Node(m, root, b))
    && KeepsEntries(m, m', s.clear)
    && |Allocatable(s'.clear)| == |Allocatable(s.clear)| - Missing(m, root, virt)
    && (forall v :: Translate(m', root, v) == Translate(m, root, v))
  }

  lemma ThreeLevels(m: Memory, s: State, root: nat, virt: nat, m1: Memory, s1: State, m2: Memory, s2: State, m3: Memory, s3: State,
                    q1: nat, q2: nat, q3: nat)
    requires IsMemory(m) && root < 0x100_0000_0000 && TableTree(m, root, s.clear)
    requires LevelDone(m, s, m1, s1, q1, root, PathOf(virt)[..1])
    requires LevelDone(m1, s1, m2, s2, q2, root, PathOf(virt)[..2])
    requires LevelDone(m2, s2, m3, s3, q3, root, PathOf(virt))
    ensures PathMade(m, s, m3, s3, q3, root, virt)
  {
    hide *;
    var a := PathOf(virt);
    Prefixes(a);
    RootNode(m, root);
    LevelParts(m, s, m1, s1, q1, root, a[..1]);
    LevelParts(m1, s1, m2, s2, q2, root, a[..2]);
    LevelParts(m2, s2, m3, s3, q3, root, a);
    MissingIs(m, root, virt);
    forall b | IsPath(b) ensures Node(m3, root, b).Some? <==> Node(m, root, b).Some? || b <= a {
      PrefixOf(b, a);
    }
    KeepsTwice(m, m1, m2, s.clear, s1.clear);
    KeepsTwice(m, m2, m3, s.clear, s2.clear);
    MakePathMade(m, s, m3, s3, q3, root, virt);
  }

  lemma LevelParts(m: Memory, s: State, m': Memory, s': State, q: nat, root: nat, a: seq<nat>)
    requires IsMemory(m) && root < 0x100_0000_0000 && IsPath(a) && LevelDone(m, s, m', s', q, root, a)
    ensures IsMemory(m') && TableTree(m', root, s'.clear) && s'.clear <= s.clear && q < 0x100_0000_0000
    ensures Node(m', root, a) == Some(q) && (Node(m, root, a).Some? ==> Node(m, root, a) == Some(q))
    ensures forall b | IsPath(b) && b != a :: Node(m', root, b) == Node(m, root, b)
    ensures KeepsEntries(m, m', s.clear)
    ensures |Allocatable(s'.clear)| == |Allocatable(s.clear)| - (if Node(m, root, a).None? then 1 else 0)
    ensures forall v :: Translate(m', root, v) == Translate(m, root, v)
  {
    hide TableTree, Translate, Allocatable, Node, IsPath, KeepsEntries;
  }

  lemma MissingIs(m: Memory, root: nat, virt: nat)
    requires IsMemory(m) && root < 0x100_0000_0000
    ensures IsPath(PathOf(virt)) && IsPath(PathOf(virt)[..1]) && IsPath(PathOf(virt)[..2])
    ensures Missing(m, root, virt) ==
      (if Node(m, root, PathOf(virt)[..1]).None? then 1 else 0)
      + (if Node(m, root, PathOf(virt)[..2]).None? then 1 else 0)
      + (if Node(m, root, PathOf(virt)).None? then 1 else 0)
  {
  }

  lemma MakePathMade(m: Memory, s: State, m': Memory, s': State, q: nat, root: nat, virt: nat)
    requires IsMemory(m) && root < 0x100_0000_0000
    requires IsMemory(m') && TableTree(m', root, s'.clear) && s'.clear <= s.clear
    requires Node(m', root, PathOf(virt)) == Some(q)
    requires forall b | IsPath(b) :: Node(m', root, b).Some? <==> Node(m, root, b).Some? || b <= PathOf(virt)
    requires forall b | IsPath(b) && Node(m, root, b).Some? :: Node(m', root, b) == Node(m, root, b)
    requires KeepsEntries(m, m', s.clear)
    requires |Allocatable(s'.clear)| == |Allocatable(s.clear)| - Missing(m, root, virt)
    requires forall v :: Translate(m', root, v) == Translate(m, root, v)
    ensures PathMade(m, s, m', s', q, root, virt)
  {
    hide TableTree, Translate, Allocatable, PathOf, Missing, KeepsEntries, Node, IsPath;
  }

  lemma RootNode(m: Memory, root: nat)
    requires IsMemory(m) && root < 0x100_0000_0000
    ensures IsPath([]) && Node(m, root, []) == Some(root)
  {
  }

  lemma Prefixes(a: seq<nat>)
    requires IsPath(a) && |a| == 3
    ensures IsPath(a[..1]) && IsPath(a[..2])
    ensures a[..1] != a[..2] && a[..2] != a && a[..1] != a && a[..1] != [] && a[..2] != [] && a != []
  {
  }

  lemma PrefixOf(b: seq<nat>, a: seq<nat>)
    requires |a| == 3
    ensures b <= a <==> b == [] || b == a[..1] || b == a[..2] || b == a
  {
    if b <= a {
      assert b == a[..|b|];
    }
  }

  lemma KeepsTwice(m: Memory, m1: Memory, m2: Memory, clear: set<nat>, clear1: set<nat>)
    requires IsMemory(m) && IsMemory(m1) && IsMemory(m2) && clear1 <= clear
    requires KeepsEntries(m, m1, clear) && KeepsEntries(m1, m2, clear1)
    ensures KeepsEntries(m, m2, clear)
  {
    hide Present;
  }

  lemma PathSteps(virt: nat)
    ensures Pml4Index(virt) < 512 && PdptIndex(virt) < 512 && PdIndex(virt) < 512 && PtIndex(virt) < 512
    ensures var a := PathOf(virt);
      a[..1] == [] + [Pml4Index(virt)] && a[..2] == a[..1] + [PdptIndex(virt)] && a == a[..2] + [PdIndex(virt)]
  {
  }

  // ----- what vmm_map writes -----

  /** The index that the k-th table of an address's walk is read at. */
  function SlotOf(v: nat, k: nat): (i: nat)
    requires k <= 3
    ensures i < 512
  {
    if k == 0 then Pml4Index(v) else if k == 1 then PdptIndex(v) else if k == 2 then PdIndex(v) else PtIndex(v)
  }

  /** Of the pages outside `but`, those that are no table on the address's path keep their words. */
  ghost predicate OthersKept(m: Memory, m': Memory, root: nat, virt: nat, but: set<nat>)
    requires IsMemory(m) && IsMemory(m') && root < 0x100_0000_0000
  {
    forall x: nat | x < 0x100_0000_0000 && x !in but && (forall k | 0 <= k <= 3 :: Node(m', root, PathOf(virt)[..k]) != Some(x)) ::
      m'[x] == m[x]
  }

  /** The k-th table on the path keeps every word but the one indexed, and is zero but for it if it is
      new. */
  ghost predicate SlotsKept(m: Memory, m': Memory, root: nat, virt: nat, but: set<nat>, k: nat)
    requires IsMemory(m) && IsMemory(m') && root < 0x100_0000_0000 && k <= 3
  {
    forall x: nat, j | x < 0x100_0000_0000 && x !in but && Node(m', root, PathOf(virt)[..k]) == Some(x)
        && 0 <= j < 512 && j != SlotOf(virt, k) ::
      m'[x][j] == if Node(m, root, PathOf(virt)[..k]).Some? then m[x][j] else 0
  }

  /** Tables that were there are where they were. */
  ghost predicate NodesKept(m: Memory, m': Memory, root: nat)
    requires IsMemory(m) && IsMemory(m') && root < 0x100_0000_0000
  {
    forall b | IsPath(b) && Node(m, root, b).Some? :: Node(m', root, b) == Node(m, root, b)
  }

  /** Outside `but`, vmm_map's writes are confined to the path. */
  ghost predicate OnlyPath(m: Memory, m': Memory, root: nat, virt: nat, but: set<nat>)
    requires IsMemory(m) && IsMemory(m') && root < 0x100_0000_0000
  {
    && NodesKept(m, m', root) && OthersKept(m, m', root, virt, but)
    && SlotsKept(m, m', root, virt, but, 0) && SlotsKept(m, m', root, virt, but, 1)
    && SlotsKept(m, m', root, virt, but, 2) && SlotsKept(m, m', root, virt, but, 3)
  }

  /** What one get_next_level call writes: slot i of table p, and the fresh table q. */
  ghost predicate LevelWrites(m: Memory, m': Memory, p: nat, i: nat, q: nat, fresh': bool)
    requires IsMemory(m) && IsMemory(m') && p < 0x100_0000_0000 && q < 0x100_0000_0000
  {
    && (forall x: nat | x < 0x100_0000_0000 && x != p && !(fresh' && x == q) :: m'[x] == m[x])
    && (forall j | 0 <= j < 512 && j != i :: m'[p][j] == m[p][j])
    && (fresh' ==> forall j | 0 <= j < 512 :: m'[q][j] == 0)
    && (!fresh' ==> m' == m)
  }

  lemma LevelFrame(m: Memory, s: State, root: nat, a: seq<nat>, i: nat, flags: nat)
    requires IsMemory(m) && root < 0x100_0000_0000 && TableTree(m, root, s.clear)
    requires IsPath(a) && IsPath(a + [i]) && i < 512 && Node(m, root, a).Some?
    requires PageOf(flags) == 0
    requires Node(m, root, a + [i]).None? ==> Allocatable(s.clear) != {}
    ensures var (m', s', q) := NextLevel(m, s, Node(m, root, a).value, i, flags);
      && IsMemory(m') && q < 0x100_0000_0000
      && LevelWrites(m, m', Node(m, root, a).value, i, q, Node(m, root, a + [i]).None?)
  {
    var p := Node(m, root, a).value;
    assert (a + [i])[..|a|] == a;
    assert Node(m, root, a + [i]).None? <==> !Present(m[p][i]);
    if !Present(m[p][i]) {
      TreeFacts(m, root, s.clear, a, a);
      hide Node, IsPath, TableTree;
      NextLevelAllocates(m, s, p, i, flags);
      var c := Least(Allocatable(s.clear));
      hide NextLevel, Link, PageOf, TableEntry;
      LinkEntries(m, p, i, c, TableEntry(c * 4096, flags));
    }
  }

  lemma OnlyPathRefl(m: Memory, root: nat, virt: nat)
    requires IsMemory(m) && root < 0x100_0000_0000
    ensures OnlyPath(m, m, root, virt, {})
  {
    hide Node, PathOf, SlotOf;
  }

  /** One more level of the walk: the call at the table p of path a[..k - 1]. */
  ghost predicate OneLevel(m: Memory, m': Memory, root: nat, clear: set<nat>, virt: nat, k: nat, p: nat, q: nat)
    requires IsMemory(m) && IsMemory(m') && root < 0x100_0000_0000 && 0 < k <= 3
  {
    && p < 0x100_0000_0000 && q < 0x100_0000_0000 && TableTree(m', root, clear)
    && Node(m, root, PathOf(virt)[..k - 1]) == Some(p) && Node(m', root, PathOf(virt)[..k]) == Some(q)
    && LevelWrites(m, m', p, SlotOf(virt, k - 1), q, Node(m, root, PathOf(virt)[..k]).None?)
    && (Node(m, root, PathOf(virt)[..k]).Some? ==> Node(m, root, PathOf(virt)[..k]) == Some(q))
    && (forall b | IsPath(b) && b != PathOf(virt)[..k] :: Node(m', root, b) == Node(m, root, b))
  }

  lemma PrefixPaths(virt: nat)
    ensures forall k | 0 <= k <= 3 :: IsPath(PathOf(virt)[..k]) && |PathOf(virt)[..k]| == k
  {
  }

  lemma LevelOthers(m0: Memory, m: Memory, m': Memory, root: nat, clear: set<nat>, virt: nat, k: nat, p: nat, q: nat)
    requires IsMemory(m0) && IsMemory(m) && IsMemory(m') && root < 0x100_0000_0000 && 0 < k <= 3
    requires OneLevel(m, m', root, clear, virt, k, p, q) && OthersKept(m0, m, root, virt, {})
    ensures OthersKept(m0, m', root, virt, {})
  {
    PrefixPaths(virt);
    hide Node, PathOf, SlotOf, TableTree, IsPath;
    assert PathOf(virt)[..k - 1] != PathOf(virt)[..k];
    forall x: nat | x < 0x100_0000_0000 && (forall l | 0 <= l <= 3 :: Node(m', root, PathOf(virt)[..l]) != Some(x))
      ensures m'[x] == m0[x]
    {
      assert x != p && x != q;
      forall l | 0 <= l <= 3 ensures Node(m, root, PathOf(virt)[..l]) != Some(x) {
        assert Node(m', root, PathOf(virt)[..l]) != Some(x);
      }
    }
  }

  lemma LevelSlots(m0: Memory, m: Memory, m': Memory, root: nat, clear: set<nat>, virt: nat, k: nat, p: nat, q: nat, l: nat)
    requires IsMemory(m0) && IsMemory(m) && IsMemory(m') && root < 0x100_0000_0000 && 0 < k <= 3 && l <= 3
    requires OneLevel(m, m', root, clear, virt, k, p, q) && SlotsKept(m0, m, root, virt, {}, l)
    requires NodesKept(m0, m, root)
    ensures SlotsKept(m0, m', root, virt, {}, l)
  {
    PrefixPaths(virt);
    var a := PathOf(virt);
    assert |a[..l]| == l && |a[..k]| == k && |a[..k - 1]| == k - 1;
    assert IsPath(a[..l]) && IsPath(a[..k]) && IsPath(a[..k - 1]);
    TreeFactsIf(m', root, clear, a[..l], a[..k]);
    TreeFactsIf(m', root, clear, a[..l], a[..k - 1]);
    hide Node, PathOf, SlotOf, TableTree, IsPath;
  }

  lemma TreeFactsIf(m: Memory, root: nat, clear: set<nat>, a: seq<nat>, b: seq<nat>)
    requires IsMemory(m) && root < 0x100_0000_0000 && TableTree(m, root, clear) && IsPath(a) && IsPath(b)
    ensures Node(m, root, a).Some? && Node(m, root, a) == Node(m, root, b) ==> a == b
  {
    hide Node;
  }

  lemma LevelNodes(m0: Memory, m: Memory, m': Memory, root: nat, clear: set<nat>, virt: nat, k: nat, p: nat, q: nat)
    requires IsMemory(m0) && IsMemory(m) && IsMemory(m') && root < 0x100_0000_0000 && 0 < k <= 3
    requires OneLevel(m, m', root, clear, virt, k, p, q) && NodesKept(m0, m, root)
    ensures NodesKept(m0, m', root)
  {
    hide Node, PathOf, SlotOf, TableTree, IsPath, LevelWrites;
  }

  lemma LevelOnlyPath(m0: Memory, m: Memory, m': Memory, root: nat, clear: set<nat>, virt: nat, k: nat, p: nat, q: nat)
    requires IsMemory(m0) && IsMemory(m) && IsMemory(m') && root < 0x100_0000_0000 && 0 < k <= 3
    requires OneLevel(m, m', root, clear, virt, k, p, q) && OnlyPath(m0, m, root, virt, {})
    ensures OnlyPath(m0, m', root, virt, {})
  {
    OnlyPathIs(m0, m, root, virt, {});
    OnlyPathIs(m0, m', root, virt, {});
    hide *;
    LevelNodes(m0, m, m', root, clear, virt, k, p, q);
    LevelOthers(m0, m, m', root, clear, virt, k, p, q);
    LevelSlots(m0, m, m', root, clear, virt, k, p, q, 0);
    LevelSlots(m0, m, m', root, clear, virt, k, p, q, 1);
    LevelSlots(m0, m, m', root, clear, virt, k, p, q, 2);
    LevelSlots(m0, m, m', root, clear, virt, k, p, q, 3);
  }

  lemma OnlyPathIs(m: Memory, m': Memory, root: nat, virt: nat, but: set<nat>)
    requires IsMemory(m) && IsMemory(m') && root < 0x100_0000_0000
    ensures OnlyPath(m, m', root, virt, but) <==>
      && NodesKept(m, m', root) && OthersKept(m, m', root, virt, but)
      && SlotsKept(m, m', root, virt, but, 0) && SlotsKept(m, m', root, virt, but, 1)
      && SlotsKept(m, m', root, virt, but, 2) && SlotsKept(m, m', root, virt, but, 3)
  {
    hide OthersKept, SlotsKept, NodesKept;
  }

  /** What get_next_level guarantees and what it writes, as one level of the walk. */
  lemma LevelIs(m: Memory, s: State, root: nat, virt: nat, k: nat, p: nat, flags: nat)
    requires IsMemory(m) && root < 0x100_0000_0000 && TableTree(m, root, s.clear) && 0 < k <= 3 && PageOf(flags) == 0
    requires IsPath(PathOf(virt)[..k - 1]) && Node(m, root, PathOf(virt)[..k - 1]) == Some(p)
    requires Node(m, root, PathOf(virt)[..k]).None? ==> Allocatable(s.clear) != {}
    requires PathOf(virt)[..k] == PathOf(virt)[..k - 1] + [SlotOf(virt, k - 1)] && IsPath(PathOf(virt)[..k])
    ensures p < 0x100_0000_0000
    ensures var (m', s', q) := NextLevel(m, s, p, SlotOf(virt, k - 1), flags);
      LevelDone(m, s, m', s', q, root, PathOf(virt)[..k]) && IsMemory(m') && OneLevel(m, m', root, s'.clear, virt, k, p, q)
  {
    hide *;
    var a, i := PathOf(virt)[..k - 1], SlotOf(virt, k - 1);
    SlotBound(virt, k - 1);
    LevelStep(m, s, root, a, i, flags);
    LevelFrame(m, s, root, a, i, flags);
    var (m', s', q) := NextLevel(m, s, p, i, flags);
    LevelParts(m, s, m', s', q, root, a + [i]);
    MakeOneLevel(m, m', root, s'.clear, virt, k, p, q);
  }

  lemma SlotBound(virt: nat, k: nat)
    requires k <= 3
    ensures SlotOf(virt, k) < 512 && SlotOf(virt, k) == (PathOf(virt) + [PtIndex(virt)])[k]
    ensures SlotOf(virt, 0) == Pml4Index(virt) && SlotOf(virt, 1) == PdptIndex(virt)
    ensures SlotOf(virt, 2) == PdIndex(virt) && SlotOf(virt, 3) == PtIndex(virt)
  {
  }

  lemma MakeOneLevel(m: Memory, m': Memory, root: nat, clear: set<nat>, virt: nat, k: nat, p: nat, q: nat)
    requires IsMemory(m) && IsMemory(m') && root < 0x100_0000_0000 && 0 < k <= 3
    requires p < 0x100_0000_0000 && q < 0x100_0000_0000 && TableTree(m', root, clear)
    requires IsPath(PathOf(virt)[..k - 1]) && IsPath(PathOf(virt)[..k])
    requires Node(m, root, PathOf(virt)[..k - 1]) == Some(p) && Node(m', root, PathOf(virt)[..k]) == Some(q)
    requires LevelWrites(m, m', p, SlotOf(virt, k - 1), q, Node(m, root, PathOf(virt)[..k]).None?)
    requires Node(m, root, PathOf(virt)[..k]).Some? ==> Node(m, root, PathOf(virt)[..k]) == Some(q)
    requires forall b | IsPath(b) && b != PathOf(virt)[..k] :: Node(m', root, b) == Node(m, root, b)
    ensures OneLevel(m, m', root, clear, virt, k, p, q)
  {
    hide Node, PathOf, SlotOf, TableTree, IsPath, LevelWrites;
  }

  /** Storing the leaf entry. */
  lemma StoreOnlyPath(m0: Memory, m: Memory, root: nat, clear: set<nat>, virt: nat, q: nat, e: nat)
    requires IsMemory(m0) && IsMemory(m) && root < 0x100_0000_0000 && TableTree(m, root, clear)
    requires OnlyPath(m0, m, root, virt, {}) && Node(m, root, PathOf(virt)) == Some(q)
    ensures IsMemory(Store(m, q, PtIndex(virt), e)) && OnlyPath(m0, Store(m, q, PtIndex(virt), e), root, virt, {})
  {
    hide *;
    var a := PathOf(virt);
    PrefixPaths(virt);
    FullPath(virt);
    StoreTree(m, root, clear, a, PtIndex(virt), e);
    NodeBound(m, root, a);
    SlotBound(virt, 3);
    StoreWords(m, q, PtIndex(virt), e);
    var m' := Store(m, q, PtIndex(virt), e);
    OnlyPathIs(m0, m, root, virt, {});
    OnlyPathIs(m0, m', root, virt, {});
    SameNodes(m0, m, m', root);
    StoreOthers(m0, m, m', root, virt, q, {});
    StoreSlots(m0, m, m', root, clear, virt, q, 0);
    StoreSlots(m0, m, m', root, clear, virt, q, 1);
    StoreSlots(m0, m, m', root, clear, virt, q, 2);
    StoreSlots(m0, m, m', root, clear, virt, q, 3);
  }

  lemma FullPath(virt: nat)
    ensures |PathOf(virt)| == 3 && PathOf(virt)[..3] == PathOf(virt) && PtIndex(virt) < 512 && IsPath(PathOf(virt))
  {
  }

  lemma StoreWords(m: Memory, q: nat, i: nat, e: nat)
    requires IsMemory(m) && q < 0x100_0000_0000 && i < 512
    ensures q in m && |m[q]| == 512 && IsMemory(Store(m, q, i, e))
    ensures forall x: nat | x < 0x100_0000_0000 && x != q :: Store(m, q, i, e)[x] == m[x]
    ensures forall j | 0 <= j < 512 :: Store(m, q, i, e)[q][j] == if j == i then e else m[q][j]
  {
  }

  lemma SameNodes(m0: Memory, m: Memory, m': Memory, root: nat)
    requires IsMemory(m0) && IsMemory(m) && IsMemory(m') && root < 0x100_0000_0000 && NodesKept(m0, m, root)
    requires forall b | IsPath(b) :: Node(m', root, b) == Node(m, root, b)
    ensures NodesKept(m0, m', root)
  {
    hide Node, IsPath;
  }

  /** A store to page q, which is on the path or exempt. */
  lemma StoreOthers(m0: Memory, m: Memory, m': Memory, root: nat, virt: nat, q: nat, but: set<nat>)
    requires IsMemory(m0) && IsMemory(m) && IsMemory(m') && root < 0x100_0000_0000 && OthersKept(m0, m, root, virt, {})
    requires forall b | IsPath(b) :: Node(m', root, b) == Node(m, root, b)
    requires forall x: nat | x < 0x100_0000_0000 && x != q :: m'[x] == m[x]
    requires q in but || Node(m, root, PathOf(virt)[..3]) == Some(q)
    ensures OthersKept(m0, m', root, virt, but)
  {
    PrefixPaths(virt);
    hide Node, PathOf, IsPath;
  }

  lemma StoreSlots(m0: Memory, m: Memory, m': Memory, root: nat, clear: set<nat>, virt: nat, q: nat, l: nat)
    requires IsMemory(m0) && IsMemory(m) && IsMemory(m') && root < 0x100_0000_0000 && TableTree(m, root, clear) && l <= 3
    requires SlotsKept(m0, m, root, virt, {}, l) && q < 0x100_0000_0000
    requires forall b | IsPath(b) :: Node(m', root, b) == Node(m, root, b)
    requires forall x: nat | x < 0x100_0000_0000 && x != q :: m'[x] == m[x]
    requires forall j | 0 <= j < 512 && j != SlotOf(virt, 3) :: m'[q][j] == m[q][j]
    requires Node(m, root, PathOf(virt)[..3]) == Some(q)
    ensures SlotsKept(m0, m', root, virt, {}, l)
  {
    PrefixPaths(virt);
    var a := PathOf(virt);
    assert |a[..l]| == l && |a[..3]| == 3 && IsPath(a[..l]) && IsPath(a[..3]);
    TreeFactsIf(m, root, clear, a[..l], a[..3]);
    hide Node, PathOf, SlotOf, TableTree, IsPath;
  }

  /** A store to an exempt page. */
  lemma StoreExempt(m0: Memory, m: Memory, m': Memory, root: nat, virt: nat, q: nat, l: nat)
    requires IsMemory(m0) && IsMemory(m) && IsMemory(m') && root < 0x100_0000_0000 && l <= 3
    requires SlotsKept(m0, m, root, virt, {}, l)
    requires forall b | IsPath(b) :: Node(m', root, b) == Node(m, root, b)
    requires forall x: nat | x < 0x100_0000_0000 && x != q :: m'[x] == m[x]
    ensures SlotsKept(m0, m', root, virt, {q}, l)
  {
    PrefixPaths(virt);
    hide Node, PathOf, SlotOf, IsPath;
  }

  // ----- the pages vmm_map takes -----

  /** Only tables on the address's path were taken from the allocator, and its counter went down by as
      many. */
  ghost predicate Consumed(s0: State, m: Memory, s: State, root: nat, virt: nat)
    requires IsMemory(m) && root < 0x100_0000_0000
  {
    && s.clear <= s0.clear && Wrap64(s.free - |s.clear|) == Wrap64(s0.free - |s0.clear|)
    && forall p | p in s0.clear && p !in s.clear :: exists k :: 0 <= k <= 3 && Node(m, root, PathOf(virt)[..k]) == Some(p)
  }

  /** One get_next_level call takes the fresh table, if it needs one. */
  lemma LevelTakes(m: Memory, s: State, p: nat, i: nat, flags: nat)
    requires IsMemory(m) && p < 0x100_0000_0000 && i < 512 && (Present(m[p][i]) || Allocatable(s.clear) != {})
    ensures var (m', s', q) := NextLevel(m, s, p, i, flags);
      && s'.clear <= s.clear && s.clear - s'.clear <= {q}
      && Wrap64(s'.free - |s'.clear|) == Wrap64(s.free - |s.clear|)
  {
    hide Wrap64, Present, PageOf, Allocatable, AllocStep, NextLevel, Link, TableEntry;
    if Present(m[p][i]) {
      NextLevelFollows(m, s, p, i, flags);
    } else {
      NextLevelTakes(m, s, p, i, flags);
      TakeOne(s, Least(Allocatable(s.clear)));
    }
  }

  lemma EmptySlot(m: Memory, root: nat, a: seq<nat>, i: nat)
    requires IsMemory(m) && root < 0x100_0000_0000 && IsPath(a) && IsPath(a + [i]) && i < 512 && Node(m, root, a).Some?
    ensures Node(m, root, a + [i]).None? <==> !Present(m[Node(m, root, a).value][i])
  {
    assert (a + [i])[..|a|] == a;
  }

  lemma NextLevelFollows(m: Memory, s: State, p: nat, i: nat, flags: nat)
    requires IsMemory(m) && p < 0x100_0000_0000 && i < 512 && Present(m[p][i])
    ensures NextLevel(m, s, p, i, flags) == (m, s, PageOf(m[p][i]))
  {
  }

  lemma NextLevelTakes(m: Memory, s: State, p: nat, i: nat, flags: nat)
    requires IsMemory(m) && p < 0x100_0000_0000 && i < 512 && !Present(m[p][i]) && Allocatable(s.clear) != {}
    ensures var c, (m', s', q) := Least(Allocatable(s.clear)), NextLevel(m, s, p, i, flags);
      q == c && c in s.clear && s' == State(s.clear - {c}, Wrap64(s.free - 1))
  {
    hide Link, TableEntry, Wrap64;
    var c := Least(Allocatable(s.clear));
    assert c * 4096 / 4096 == c;
  }

  lemma TakeOne(s: State, c: nat)
    requires c in s.clear
    ensures s.clear - {c} <= s.clear && s.clear - (s.clear - {c}) == {c}
    ensures Wrap64(Wrap64(s.free - 1) - |s.clear - {c}|) == Wrap64(s.free - |s.clear|)
  {
    hide Wrap64;
    assert s.clear == (s.clear - {c}) + {c};
    WrapAgain(s.free - 1, |s.clear| - 1);
  }

  lemma LevelConsumes(s0: State, m: Memory, s: State, root: nat, virt: nat, k: nat, p: nat, flags: nat)
    requires IsMemory(m) && root < 0x100_0000_0000 && TableTree(m, root, s.clear) && 0 < k <= 3 && PageOf(flags) == 0
    requires IsPath(PathOf(virt)[..k - 1]) && Node(m, root, PathOf(virt)[..k - 1]) == Some(p)
    requires Node(m, root, PathOf(virt)[..k]).None? ==> Allocatable(s.clear) != {}
    requires PathOf(virt)[..k] == PathOf(virt)[..k - 1] + [SlotOf(virt, k - 1)] && IsPath(PathOf(virt)[..k])
    requires Consumed(s0, m, s, root, virt)
    ensures p < 0x100_0000_0000
    ensures var (m', s', q) := NextLevel(m, s, p, SlotOf(virt, k - 1), flags);
      IsMemory(m') && Consumed(s0, m', s', root, virt)
  {
    hide *;
    LevelIs(m, s, root, virt, k, p, flags);
    SlotBound(virt, k - 1);
    EmptySlot(m, root, PathOf(virt)[..k - 1], SlotOf(virt, k - 1));
    LevelTakes(m, s, p, SlotOf(virt, k - 1), flags);
    var (m', s', q) := NextLevel(m, s, p, SlotOf(virt, k - 1), flags);
    LevelParts(m, s, m', s', q, root, PathOf(virt)[..k]);
    ConsumedMore(s0, m, s, m', s', root, virt, k, q);
  }

  lemma ConsumedMore(s0: State, m: Memory, s: State, m': Memory, s': State, root: nat, virt: nat, k: nat, q: nat)
    requires IsMemory(m) && IsMemory(m') && root < 0x100_0000_0000 && 0 < k <= 3 && IsPath(PathOf(virt)[..k])
    requires Consumed(s0, m, s, root, virt) && Node(m', root, PathOf(virt)[..k]) == Some(q)
    requires forall b | IsPath(b) && b != PathOf(virt)[..k] :: Node(m', root, b) == Node(m, root, b)
    requires Node(m, root, PathOf(virt)[..k]).Some? ==> Node(m, root, PathOf(virt)[..k]) == Some(q)
    requires s'.clear <= s.clear && s.clear - s'.clear <= {q}
    requires Wrap64(s'.free - |s'.clear|) == Wrap64(s.free - |s.clear|)
    ensures Consumed(s0, m', s', root, virt)
  {
    PrefixPaths(virt);
    hide Node, PathOf, IsPath, Wrap64;
    forall p | p in s0.clear && p !in s'.clear
      ensures exists l :: 0 <= l <= 3 && Node(m', root, PathOf(virt)[..l]) == Some(p)
    {
      if p in s.clear {
        assert p in s.clear - s'.clear && p == q;
      } else {
        var l :| 0 <= l <= 3 && Node(m, root, PathOf(virt)[..l]) == Some(p);
        assert Node(m', root, PathOf(virt)[..l]) == Some(p);
      }
    }
  }

  lemma NothingConsumed(m: Memory, s: State, root: nat, virt: nat)
    requires IsMemory(m) && root < 0x100_0000_0000
    ensures Consumed(s, m, s, root, virt)
  {
  }

  /** What is left of the clear pages is what is no table of the path. */
  lemma ConsumedMeans(s0: State, m: Memory, s: State, root: nat, virt: nat)
    requires IsMemory(m) && root < 0x100_0000_0000 && TableTree(m, root, s.clear) && Consumed(s0, m, s, root, virt)
    ensures PathPagesTaken(s0, m, s, root, virt)
  {
    PrefixPaths(virt);
    hide Node, PathOf, IsPath, Wrap64;
  }

  /** The same tables in another memory. */
  lemma ConsumedSame(s0: State, m: Memory, m': Memory, s: State, root: nat, virt: nat)
    requires IsMemory(m) && IsMemory(m') && root < 0x100_0000_0000 && Consumed(s0, m, s, root, virt)
    requires forall b | IsPath(b) :: Node(m', root, b) == Node(m, root, b)
    ensures Consumed(s0, m', s, root, virt)
  {
    PrefixPaths(virt);
    hide Node, PathOf, IsPath, Wrap64;
    forall p | p in s0.clear && p !in s.clear
      ensures exists l :: 0 <= l <= 3 && Node(m', root, PathOf(virt)[..l]) == Some(p)
    {
      var l :| 0 <= l <= 3 && Node(m, root, PathOf(virt)[..l]) == Some(p);
      assert Node(m', root, PathOf(virt)[..l]) == Some(p);
    }
  }

  lemma MakePath(m: Memory, s: State, root: nat, virt: nat, flags: nat)
    requires IsMemory(m) && root < 0x100_0000_0000 && TableTree(m, root, s.clear)
    requires PageOf(flags) == 0 && Missing(m, root, virt) <= |Allocatable(s.clear)|
    ensures var (m1, s1, q1) := NextLevel(m, s, root, Pml4Index(virt), flags);
      && IsMemory(m1) && q1 < 0x100_0000_0000
      && var (m2, s2, q2) := NextLevel(m1, s1, q1, PdptIndex(virt), flags);
      && IsMemory(m2) && q2 < 0x100_0000_0000
      && var (m3, s3, q3) := NextLevel(m2, s2, q2, PdIndex(virt), flags);
      PathMade(m, s, m3, s3, q3, root, virt) && IsMemory(m3) && OnlyPath(m, m3, root, virt, {}) && Consumed(s, m3, s3, root, virt)
  {
    hide *;
    var a := PathOf(virt);
    PathSteps(virt);
    FullPath(virt);
    SlotBound(virt, 0);
    Prefixes(a);
    RootNode(m, root);
    MissingIs(m, root, virt);
    OnlyPathRefl(m, root, virt);
    NothingConsumed(m, s, root, virt);
    var (m1, s1, q1) := NextLevel(m, s, root, Pml4Index(virt), flags);
    LevelIs(m, s, root, virt, 1, root, flags);
    LevelConsumes(s, m, s, root, virt, 1, root, flags);
    LevelParts(m, s, m1, s1, q1, root, a[..1]);
    LevelOnlyPath(m, m, m1, root, s1.clear, virt, 1, root, q1);
    assert Node(m1, root, a[..2]).None? ==> |Allocatable(s1.clear)| > 0;
    var (m2, s2, q2) := NextLevel(m1, s1, q1, PdptIndex(virt), flags);
    LevelIs(m1, s1, root, virt, 2, q1, flags);
    LevelConsumes(s, m1, s1, root, virt, 2, q1, flags);
    LevelParts(m1, s1, m2, s2, q2, root, a[..2]);
    LevelOnlyPath(m, m1, m2, root, s2.clear, virt, 2, q1, q2);
    var (m3, s3, q3) := NextLevel(m2, s2, q2, PdIndex(virt), flags);
    LevelIs(m2, s2, root, virt, 3, q2, flags);
    LevelConsumes(s, m2, s2, root, virt, 3, q2, flags);
    LevelParts(m2, s2, m3, s3, q3, root, a);
    LevelOnlyPath(m, m2, m3, root, s3.clear, virt, 3, q2, q3);
    ThreeLevels(m, s, root, virt, m1, s1, m2, s2, m3, s3, q1, q2, q3);
  }

  /** What vmm_map guarantees on a table tree. */
  ghost predicate Mapped(m: Memory, s: State, m': Memory, s': State, root: nat, virt: nat, e: nat)
    requires IsMemory(m) && root < 0x100_0000_0000
  {
    && IsMemory(m') && TableTree(m', root, s'.clear) && s'.clear <= s.clear
    && (forall v :: Translate(m', root, v) == if VirtualPage(v) == VirtualPage(virt) then Some(e) else Translate(m, root, v))
    && (forall b | IsPath(b) :: Node(m', root, b).Some? <==> Node(m, root, b).Some? || b <= PathOf(virt))
    && KeepsTables(m, m', root) && OnlyPath(m, m', root, virt, {}) && Consumed(s, m', s', root, virt)
    && |Allocatable(s'.clear)| == |Allocatable(s.clear)| - Missing(m, root, virt)
  }

  lemma StoreLeaf(m: Memory, s: State, m3: Memory, s3: State, q: nat, root: nat, virt: nat, e: nat)
    requires IsMemory(m) && root < 0x100_0000_0000 && TableTree(m, root, s.clear)
    requires PathMade(m, s, m3, s3, q, root, virt) && Present(e) && IsMemory(m3) && OnlyPath(m, m3, root, virt, {})
    requires Consumed(s, m3, s3, root, virt)
    ensures Mapped(m, s, Store(m3, q, PtIndex(virt), e), s3, root, virt, e)
  {
    hide *;
    PathMadeParts(m, s, m3, s3, q, root, virt);
    StoreTree(m3, root, s3.clear, PathOf(virt), PtIndex(virt), e);
    var m' := Store(m3, q, PtIndex(virt), e);
    forall v: nat ensures Translate(m', root, v)
      == if VirtualPage(v) == VirtualPage(virt) then Some(e) else Translate(m, root, v)
    {
      StoreTranslates(m3, root, s3.clear, virt, e, v);
    }
    StoreKeepsTables(m, s, m3, s3, q, root, virt, e);
    StoreOnlyPath(m, m3, root, s3.clear, virt, q, e);
    ConsumedSame(s, m3, m', s3, root, virt);
    MakeMapped(m, s, m3, m', s3, root, virt, e);
  }

  lemma PathMadeParts(m: Memory, s: State, m': Memory, s': State, q: nat, root: nat, virt: nat)
    requires IsMemory(m) && root < 0x100_0000_0000 && PathMade(m, s, m', s', q, root, virt)
    ensures IsMemory(m') && TableTree(m', root, s'.clear) && s'.clear <= s.clear
    ensures Node(m', root, PathOf(virt)) == Some(q) && q < 0x100_0000_0000 && q in m' && |m'[q]| == 512
    ensures forall b | IsPath(b) :: Node(m', root, b).Some? <==> Node(m, root, b).Some? || b <= PathOf(virt)
    ensures forall b | IsPath(b) && Node(m, root, b).Some? :: Node(m', root, b) == Node(m, root, b)
    ensures KeepsEntries(m, m', s.clear)
    ensures |Allocatable(s'.clear)| == |Allocatable(s.clear)| - Missing(m, root, virt)
    ensures forall v :: Translate(m', root, v) == Translate(m, root, v)
  {
    hide TableTree, Translate, Allocatable, PathOf, Missing, KeepsEntries, Node, IsPath;
  }

  lemma StoreKeepsTables(m: Memory, s: State, m3: Memory, s3: State, q: nat, root: nat, virt: nat, e: nat)
    requires IsMemory(m) && root < 0x100_0000_0000 && TableTree(m, root, s.clear)
    requires PathMade(m, s, m3, s3, q, root, virt)
    requires q in m3 && |m3[q]| == 512 && IsMemory(Store(m3, q, PtIndex(virt), e))
    requires forall b | IsPath(b) :: Node(Store(m3, q, PtIndex(virt), e), root, b) == Node(m3, root, b)
    ensures KeepsTables(m, Store(m3, q, PtIndex(virt), e), root)
  {
    PathMadeParts(m, s, m3, s3, q, root, virt);
    hide Allocatable, PathOf, PtIndex, Translate, TableTree, PathMade, Missing, Node, IsPath, Present;
    var m' := Store(m3, q, PtIndex(virt), e);
    forall a, k | IsPath(a) && |a| < 3 && Node(m, root, a).Some? && 0 <= k < 512 && Present(m[Node(m, root, a).value][k])
      ensures Node(m', root, a) == Node(m, root, a) && m'[Node(m, root, a).value][k] == m[Node(m, root, a).value][k]
    {
      TreeFacts(m, root, s.clear, a, a);
      TreeFacts(m3, root, s3.clear, a, PathOf(virt));
    }
  }

  lemma MakeMapped(m: Memory, s: State, m3: Memory, m': Memory, s': State, root: nat, virt: nat, e: nat)
    requires IsMemory(m) && root < 0x100_0000_0000 && IsMemory(m3)
    requires IsMemory(m') && TableTree(m', root, s'.clear) && s'.clear <= s.clear
    requires forall v :: Translate(m', root, v) == if VirtualPage(v) == VirtualPage(virt) then Some(e) else Translate(m, root, v)
    requires forall b | IsPath(b) :: Node(m3, root, b).Some? <==> Node(m, root, b).Some? || b <= PathOf(virt)
    requires forall b | IsPath(b) :: Node(m', root, b) == Node(m3, root, b)
    requires KeepsTables(m, m', root) && OnlyPath(m, m', root, virt, {}) && Consumed(s, m', s', root, virt)
    requires |Allocatable(s'.clear)| == |Allocatable(s.clear)| - Missing(m, root, virt)
    ensures Mapped(m, s, m', s', root, virt, e)
  {
    hide OnlyPath, Consumed, TableTree, Translate, VirtualPage, Allocatable, PathOf, Missing, KeepsTables, Node, IsPath;
  }

  lemma StoreTree(m: Memory, root: nat, clear: set<nat>, a: seq<nat>, l: nat, e: nat)
    requires IsMemory(m) && root < 0x100_0000_0000 && TableTree(m, root, clear)
    requires IsPath(a) && |a| == 3 && Node(m, root, a).Some? && l < 512
    ensures IsMemory(Store(m, Node(m, root, a).value, l, e))
    ensures TableTree(Store(m, Node(m, root, a).value, l, e), root, clear)
    ensures forall b | IsPath(b) :: Node(Store(m, Node(m, root, a).value, l, e), root, b) == Node(m, root, b)
  {
    forall b | IsPath(b) ensures Node(Store(m, Node(m, root, a).value, l, e), root, b) == Node(m, root, b) {
      StoreNodes(m, root, clear, a, l, e, b);
    }
  }

  /** vmm_map on a table tree, with enough pages for the missing tables. */
  lemma MapIsMapped(m: Memory, s: State, root: nat, virt: nat, phys: nat, flags: nat)
    requires IsMemory(m) && root < 0x100_0000_0000 && TableTree(m, root, s.clear)
    requires PageOf(flags) == 0
    requires Missing(m, root, virt) <= |Allocatable(s.clear)|
    ensures var (m', s') := MapStep(m, s, root, virt, phys, flags);
      Mapped(m, s, m', s', root, virt, LeafEntry(phys, flags))
  {
    hide NextLevel, TableTree, Allocatable, Mapped, PathMade, LeafEntry, Store, Missing, PageOf, OnlyPath, Consumed;
    MakePath(m, s, root, virt, flags);
    var (m1, s1, q1) := NextLevel(m, s, root, Pml4Index(virt), flags);
    var (m2, s2, q2) := NextLevel(m1, s1, q1, PdptIndex(virt), flags);
    var (m3, s3, q3) := NextLevel(m2, s2, q2, PdIndex(virt), flags);
    LeafEntryFields(phys, flags);
    StoreLeaf(m, s, m3, s3, q3, root, virt, LeafEntry(phys, flags));
  }

  /** Every page that is no table on the address's path keeps its words; a table of the path keeps
      those of every slot but the one indexed, and is zero but for that slot if it is new. */
  ghost predicate PathWordsOnly(m: Memory, m': Memory, root: nat, virt: nat)
    requires IsMemory(m) && IsMemory(m') && root < 0x100_0000_0000
  {
    && (forall x: nat | x < 0x100_0000_0000 && (forall k | 0 <= k <= 3 :: Node(m', root, PathOf(virt)[..k]) != Some(x)) ::
          m'[x] == m[x])
    && (forall k, x: nat | 0 <= k <= 3 && Node(m', root, PathOf(virt)[..k]) == Some(x) ::
          forall j | 0 <= j < 512 && j != (PathOf(virt) + [PtIndex(virt)])[k] ::
            m'[x][j] == if Node(m, root, PathOf(virt)[..k]).Some? then m[x][j] else 0)
  }

  /** Of the clear pages exactly the tables on the path are gone, and the counter went down by as
      many. */
  ghost predicate PathPagesTaken(s: State, m': Memory, s': State, root: nat, virt: nat)
    requires IsMemory(m') && root < 0x100_0000_0000
  {
    && Wrap64(s'.free - |s'.clear|) == Wrap64(s.free - |s.clear|)
    && forall p :: p in s'.clear <==> p in s.clear && forall k | 0 <= k <= 3 :: Node(m', root, PathOf(virt)[..k]) != Some(p)
  }

  /** vmm_map refines a map update.  With flags disjoint from the address mask and enough pages
      for the missing tables: the address's page gets the new entry, every other page translates
      as before, no present intermediate entry changes, the tables stay a tree, and exactly the
      missing tables are taken from the allocator.  No other word of memory changes. */
  lemma MapRefines(m: Memory, s: State, root: nat, virt: nat, phys: nat, flags: nat)
    requires IsMemory(m) && root < 0x100_0000_0000 && TableTree(m, root, s.clear)
    requires PageOf(flags) == 0
    requires Missing(m, root, virt) <= |Allocatable(s.clear)|
    ensures var (m', s') := MapStep(m, s, root, virt, phys, flags);
      && Mapped(m, s, m', s', root, virt, LeafEntry(phys, flags))
      && IsMemory(m') && PathWordsOnly(m, m', root, virt) && PathPagesTaken(s, m', s', root, virt)
  {
    MapIsMapped(m, s, root, virt, phys, flags);
    var (m', s') := MapStep(m, s, root, virt, phys, flags);
    hide *;
    MappedMemory(m, s, m', s', root, virt, LeafEntry(phys, flags));
    PathWords(m, m', root, virt);
    ConsumedMeans(s, m', s', root, virt);
  }

  lemma MappedMemory(m: Memory, s: State, m': Memory, s': State, root: nat, virt: nat, e: nat)
    requires IsMemory(m) && root < 0x100_0000_0000 && Mapped(m, s, m', s', root, virt, e)
    ensures IsMemory(m') && OnlyPath(m, m', root, virt, {}) && Consumed(s, m', s', root, virt) && TableTree(m', root, s'.clear)
  {
    hide OnlyPath, Consumed, TableTree, Translate, Node, KeepsTables, Missing, Allocatable;
  }

  lemma PathWords(m: Memory, m': Memory, root: nat, virt: nat)
    requires IsMemory(m) && IsMemory(m') && root < 0x100_0000_0000 && OnlyPath(m, m', root, virt, {})
    ensures PathWordsOnly(m, m', root, virt)
  {
    PrefixPaths(virt);
    hide Node, PathOf, PtIndex, SlotOf, NodesKept, IsPath;
    forall k, x: nat, j | 0 <= k <= 3 && Node(m', root, PathOf(virt)[..k]) == Some(x)
        && 0 <= j < 512 && j != (PathOf(virt) + [PtIndex(virt)])[k]
      ensures x < 0x100_0000_0000 && m'[x][j] == if Node(m, root, PathOf(virt)[..k]).Some? then m[x][j] else 0
    {
      SlotBound(virt, k);
      NodeBound(m', root, PathOf(virt)[..k]);
      hide OthersKept;
      assert SlotsKept(m, m', root, virt, {}, k);
    }
  }

  lemma NodeBound(m: Memory, root: nat, a: seq<nat>)
    requires IsMemory(m) && root < 0x100_0000_0000 && IsPath(a) && Node(m, root, a).Some?
    ensures Node(m, root, a).value < 0x100_0000_0000
  {
  }

  /** Without a page to take, get_next_level returns NULL, and vmm_map goes on in page 0: it maps
      nothing and overwrites a word of that page. */
  lemma ExhaustedMapWritesPageZero(m: Memory, s: State, root: nat, virt: nat, phys: nat, flags: nat)
    requires IsMemory(m) && root < 0x100_0000_0000 && Allocatable(s.clear) == {}
    requires !Present(m[root][Pml4Index(virt)]) && !Present(m[0][PdptIndex(virt)]) && !Present(m[0][PdIndex(virt)])
    ensures MapStep(m, s, root, virt, phys, flags) == (Store(m, 0, PtIndex(virt), LeafEntry(phys, flags)), s)
    ensures root != 0 ==> Translate(MapStep(m, s, root, virt, phys, flags).0, root, virt) == None
  {
    hide LeafEntry, Pml4Index, PdptIndex, PdIndex, PtIndex;
    var m' := MapStep(m, s, root, virt, phys, flags).0;
    if root != 0 {
      assert PathOf(virt)[..2][..1] == PathOf(virt)[..1] == [Pml4Index(virt)];
      assert Node(m', root, []) == Some(root);
      assert [Pml4Index(virt)][..0] == [];
      assert Node(m', root, [Pml4Index(virt)]) == None;
      assert Node(m', root, PathOf(virt)[..2]) == None;
    }
  }

  // ----- too few pages -----

  /** No table is page 0, which get_next_level's NULL stands for. */
  ghost predicate NoZeroTable(m: Memory, root: nat)
    requires IsMemory(m) && root < 0x100_0000_0000
  {
    forall b | IsPath(b) :: Node(m, root, b) != Some(0)
  }

  /** Nothing is to be seen, and page 0 is as it was. */
  ghost predicate Quiet(m: Memory, m': Memory, s': State, root: nat)
    requires IsMemory(m) && root < 0x100_0000_0000
  {
    && IsMemory(m') && TableTree(m', root, s'.clear) && NoZeroTable(m', root) && m'[0] == m[0]
    && forall v :: Translate(m', root, v) == Translate(m, root, v)
  }

  /** Without a page to take, an empty slot of a table leads to NULL. */
  lemma NextLevelFails(m: Memory, s: State, p: nat, i: nat, flags: nat)
    requires IsMemory(m) && p < 0x100_0000_0000 && i < 512 && !Present(m[p][i]) && Allocatable(s.clear) == {}
    ensures NextLevel(m, s, p, i, flags) == (m, s, 0)
  {
  }

  /** A call of get_next_level that succeeds leaves page 0 alone. */
  lemma LevelKeepsZero(m: Memory, s: State, root: nat, a: seq<nat>, i: nat, flags: nat)
    requires IsMemory(m) && root < 0x100_0000_0000 && TableTree(m, root, s.clear) && NoZeroTable(m, root)
    requires IsPath(a) && IsPath(a + [i]) && i < 512 && Node(m, root, a).Some?
    requires PageOf(flags) == 0
    requires Node(m, root, a + [i]).None? ==> Allocatable(s.clear) != {}
    ensures var (m', s', q) := NextLevel(m, s, Node(m, root, a).value, i, flags);
      LevelDone(m, s, m', s', q, root, a + [i]) && Quiet(m, m', s', root)
  {
    hide *;
    var (m', s', q) := NextLevel(m, s, Node(m, root, a).value, i, flags);
    LevelStep(m, s, root, a, i, flags);
    LevelParts(m, s, m', s', q, root, a + [i]);
    LevelPage(m, s, root, a, i, flags);
    NoZeroAfter(m, m', root, a + [i], q);
    MakeQuiet(m, m', s', root);
  }

  /** The page taken for a table is not page 0. */
  lemma LevelPage(m: Memory, s: State, root: nat, a: seq<nat>, i: nat, flags: nat)
    requires IsMemory(m) && root < 0x100_0000_0000 && TableTree(m, root, s.clear) && NoZeroTable(m, root)
    requires IsPath(a) && IsPath(a + [i]) && i < 512 && Node(m, root, a).Some?
    requires PageOf(flags) == 0
    requires Node(m, root, a + [i]).None? ==> Allocatable(s.clear) != {}
    ensures var (m', s', q) := NextLevel(m, s, Node(m, root, a).value, i, flags);
      IsMemory(m') && m'[0] == m[0] && (Node(m, root, a + [i]).None? ==> q != 0)
  {
    var p := Node(m, root, a).value;
    assert p != 0;
    assert (a + [i])[..|a|] == a;
    assert Node(m, root, a + [i]).None? <==> !Present(m[p][i]);
    if !Present(m[p][i]) {
      TreeFacts(m, root, s.clear, a, a);
      hide Node, IsPath, TableTree, NoZeroTable;
      NextLevelAllocates(m, s, p, i, flags);
      var c := Least(Allocatable(s.clear));
      assert c in Allocatable(s.clear);
      hide NextLevel, Link, PageOf, TableEntry;
      LinkEntries(m, p, i, c, TableEntry(c * 4096, flags));
    }
  }

  lemma NoZeroAfter(m: Memory, m': Memory, root: nat, a: seq<nat>, q: nat)
    requires IsMemory(m) && IsMemory(m') && root < 0x100_0000_0000 && IsPath(a) && NoZeroTable(m, root)
    requires Node(m', root, a) == Some(q) && (Node(m, root, a).Some? ==> Node(m, root, a) == Some(q))
    requires forall b | IsPath(b) && b != a :: Node(m', root, b) == Node(m, root, b)
    requires Node(m, root, a).None? ==> q != 0
    ensures NoZeroTable(m', root)
  {
    hide Node, IsPath;
    assert Node(m, root, a) != Some(0);
  }

  lemma MakeQuiet(m: Memory, m': Memory, s': State, root: nat)
    requires IsMemory(m) && root < 0x100_0000_0000
    requires IsMemory(m') && TableTree(m', root, s'.clear) && NoZeroTable(m', root) && m'[0] == m[0]
    requires forall v :: Translate(m', root, v) == Translate(m, root, v)
    ensures Quiet(m, m', s', root)
  {
    hide TableTree, NoZeroTable, Translate;
  }

  /** A word stored in page 0 is not seen when no table is page 0. */
  lemma {:induction false} StoreAtZeroNodes(m: Memory, root: nat, l: nat, e: nat, b: seq<nat>)
    requires IsMemory(m) && root < 0x100_0000_0000 && NoZeroTable(m, root) && l < 512 && IsPath(b)
    ensures IsMemory(Store(m, 0, l, e)) && Node(Store(m, 0, l, e), root, b) == Node(m, root, b)
    decreases |b|
  {
    if b != [] {
      var front := b[..|b| - 1];
      assert IsPath(front);
      StoreAtZeroNodes(m, root, l, e, front);
      assert Node(m, root, front) != Some(0);
    }
  }

  lemma StoreAtZero(m: Memory, s: State, root: nat, l: nat, e: nat)
    requires IsMemory(m) && root < 0x100_0000_0000 && NoZeroTable(m, root) && TableTree(m, root, s.clear) && l < 512
    ensures IsMemory(Store(m, 0, l, e)) && TableTree(Store(m, 0, l, e), root, s.clear)
    ensures forall v :: Translate(Store(m, 0, l, e), root, v) == Translate(m, root, v)
  {
    var m' := Store(m, 0, l, e);
    forall b | IsPath(b) ensures Node(m', root, b) == Node(m, root, b) {
      StoreAtZeroNodes(m, root, l, e, b);
    }
    hide Store, PathOf, PtIndex;
    assert forall q: nat | q < 0x100_0000_0000 && q != 0 :: m'[q] == m[q] by { StoreElsewhere(m, l, e); }
    forall v: nat ensures Translate(m', root, v) == Translate(m, root, v) {
      assert Node(m', root, PathOf(v)) == Node(m, root, PathOf(v));
      assert Node(m, root, PathOf(v)) != Some(0);
    }
  }

  lemma StoreElsewhere(m: Memory, l: nat, e: nat)
    requires IsMemory(m) && l < 512
    ensures forall q: nat | q < 0x100_0000_0000 && q != 0 :: q in Store(m, 0, l, e) && Store(m, 0, l, e)[q] == m[q]
  {
  }

  lemma StoreZeroOnlyPath(m0: Memory, m: Memory, root: nat, virt: nat, e: nat)
    requires IsMemory(m0) && IsMemory(m) && root < 0x100_0000_0000 && NoZeroTable(m, root)
    requires OnlyPath(m0, m, root, virt, {})
    ensures IsMemory(Store(m, 0, PtIndex(virt), e)) && OnlyPath(m0, Store(m, 0, PtIndex(virt), e), root, virt, {0})
  {
    hide *;
    FullPath(virt);
    StoreWords(m, 0, PtIndex(virt), e);
    var m' := Store(m, 0, PtIndex(virt), e);
    forall b | IsPath(b) ensures Node(m', root, b) == Node(m, root, b) { StoreAtZeroNodes(m, root, PtIndex(virt), e, b); }
    OnlyPathIs(m0, m, root, virt, {});
    OnlyPathIs(m0, m', root, virt, {0});
    SameNodes(m0, m, m', root);
    StoreOthers(m0, m, m', root, virt, 0, {0});
    StoreExempt(m0, m, m', root, virt, 0, 0);
    StoreExempt(m0, m, m', root, virt, 0, 1);
    StoreExempt(m0, m, m', root, virt, 0, 2);
    StoreExempt(m0, m, m', root, virt, 0, 3);
  }

  lemma QuietTrans(m: Memory, m1: Memory, s1: State, m2: Memory, s2: State, root: nat)
    requires IsMemory(m) && root < 0x100_0000_0000 && Quiet(m, m1, s1, root) && Quiet(m1, m2, s2, root)
    ensures Quiet(m, m2, s2, root)
  {
    hide Translate, TableTree, NoZeroTable;
  }

  lemma QuietSame(m: Memory, s: State, root: nat)
    requires IsMemory(m) && root < 0x100_0000_0000 && TableTree(m, root, s.clear) && NoZeroTable(m, root)
    ensures Quiet(m, m, s, root)
  {
  }

  /** An empty slot on the way down. */
  lemma NoEntry(m: Memory, root: nat, a: seq<nat>, i: nat)
    requires IsMemory(m) && root < 0x100_0000_0000 && IsPath(a) && IsPath(a + [i])
    requires Node(m, root, a).Some? && Node(m, root, a + [i]).None?
    ensures !Present(m[Node(m, root, a).value][i])
  {
    assert (a + [i])[..|a|] == a;
  }

  /** One of the three calls finds no page for a missing table, and the later ones walk page 0. */
  lemma ShortPath(m: Memory, s: State, root: nat, virt: nat, flags: nat)
    requires IsMemory(m) && root < 0x100_0000_0000 && TableTree(m, root, s.clear) && NoZeroTable(m, root)
    requires PageOf(flags) == 0 && Missing(m, root, virt) > |Allocatable(s.clear)|
    requires !Present(m[0][PdptIndex(virt)]) && !Present(m[0][PdIndex(virt)])
    ensures var (m1, s1, q1) := NextLevel(m, s, root, Pml4Index(virt), flags);
      && IsMemory(m1) && q1 < 0x100_0000_0000
      && var (m2, s2, q2) := NextLevel(m1, s1, q1, PdptIndex(virt), flags);
      && IsMemory(m2) && q2 < 0x100_0000_0000
      && var (m3, s3, q3) := NextLevel(m2, s2, q2, PdIndex(virt), flags);
      Quiet(m, m3, s3, root) && q3 == 0 && IsMemory(m3) && OnlyPath(m, m3, root, virt, {})
  {
    hide *;
    var a := PathOf(virt);
    PathSteps(virt);
    Prefixes(a);
    RootNode(m, root);
    MissingIs(m, root, virt);
    FullPath(virt);
    SlotBound(virt, 0);
    OnlyPathRefl(m, root, virt);
    ZeroPage(m);
    QuietSame(m, s, root);
    if Node(m, root, a[..1]).None? && Allocatable(s.clear) == {} {
      NoEntry(m, root, [], Pml4Index(virt));
      NextLevelFails(m, s, root, Pml4Index(virt), flags);
      NextLevelFails(m, s, 0, PdptIndex(virt), flags);
      NextLevelFails(m, s, 0, PdIndex(virt), flags);
      return;
    }
    QuietParts(m, m, s, root);
    LevelKeepsZero(m, s, root, [], Pml4Index(virt), flags);
    var (m1, s1, q1) := NextLevel(m, s, root, Pml4Index(virt), flags);
    LevelIs(m, s, root, virt, 1, root, flags);
    LevelOnlyPath(m, m, m1, root, s1.clear, virt, 1, root, q1);
    QuietParts(m, m1, s1, root);
    LevelParts(m, s, m1, s1, q1, root, a[..1]);
    if Node(m1, root, a[..2]).None? && Allocatable(s1.clear) == {} {
      NoEntry(m1, root, a[..1], PdptIndex(virt));
      NextLevelFails(m1, s1, q1, PdptIndex(virt), flags);
      NextLevelFails(m1, s1, 0, PdIndex(virt), flags);
      return;
    }
    LevelKeepsZero(m1, s1, root, a[..1], PdptIndex(virt), flags);
    var (m2, s2, q2) := NextLevel(m1, s1, q1, PdptIndex(virt), flags);
    LevelIs(m1, s1, root, virt, 2, q1, flags);
    LevelOnlyPath(m, m1, m2, root, s2.clear, virt, 2, q1, q2);
    QuietTrans(m, m1, s1, m2, s2, root);
    QuietParts(m, m2, s2, root);
    LevelParts(m1, s1, m2, s2, q2, root, a[..2]);
    NoEntry(m2, root, a[..2], PdIndex(virt));
    NextLevelFails(m2, s2, q2, PdIndex(virt), flags);
  }

  lemma ZeroPage(m: Memory)
    requires IsMemory(m)
    ensures 0 in m && |m[0]| == 512
  {
  }

  lemma QuietParts(m: Memory, m': Memory, s': State, root: nat)
    requires IsMemory(m) && root < 0x100_0000_0000 && Quiet(m, m', s', root)
    ensures IsMemory(m') && TableTree(m', root, s'.clear) && NoZeroTable(m', root) && m'[0] == m[0]
  {
  }

  /** With fewer pages than missing tables, vmm_map changes no translation: it stores its entry in
      page 0, and outside that page writes only on the address's path.  This needs a page 0 that is
      no table and has no entries where the walk looks. */
  lemma ShortMapIsUnseen(m: Memory, s: State, root: nat, virt: nat, phys: nat, flags: nat)
    requires IsMemory(m) && root < 0x100_0000_0000 && TableTree(m, root, s.clear) && NoZeroTable(m, root)
    requires PageOf(flags) == 0 && Missing(m, root, virt) > |Allocatable(s.clear)|
    requires !Present(m[0][PdptIndex(virt)]) && !Present(m[0][PdIndex(virt)])
    ensures var (m', s') := MapStep(m, s, root, virt, phys, flags);
      && IsMemory(m') && TableTree(m', root, s'.clear)
      && (forall v :: Translate(m', root, v) == Translate(m, root, v))
      && m'[0] == m[0][PtIndex(virt) := LeafEntry(phys, flags)]
      && OnlyPath(m, m', root, virt, {0})
  {
    hide NextLevel, TableTree, Allocatable, LeafEntry, Missing, PageOf, Translate, NoZeroTable, OnlyPath;
    ShortPath(m, s, root, virt, flags);
    var (m1, s1, q1) := NextLevel(m, s, root, Pml4Index(virt), flags);
    var (m2, s2, q2) := NextLevel(m1, s1, q1, PdptIndex(virt), flags);
    var (m3, s3, q3) := NextLevel(m2, s2, q2, PdIndex(virt), flags);
    StoreAtZero(m3, s3, root, PtIndex(virt), LeafEntry(phys, flags));
    StoreZeroOnlyPath(m, m3, root, virt, LeafEntry(phys, flags));
  }

  /** vmm_map gives the address its entry exactly when the allocator has a page for every table
      that is missing. */
  lemma MapSucceedsIff(m: Memory, s: State, root: nat, virt: nat, phys: nat, flags: nat)
    requires IsMemory(m) && root < 0x100_0000_0000 && TableTree(m, root, s.clear) && NoZeroTable(m, root)
    requires PageOf(flags) == 0
    requires !Present(m[0][PdptIndex(virt)]) && !Present(m[0][PdIndex(virt)])
    ensures IsMemory(MapStep(m, s, root, virt, phys, flags).0)
    ensures Translate(MapStep(m, s, root, virt, phys, flags).0, root, virt) == Some(LeafEntry(phys, flags))
      <==> Missing(m, root, virt) <= |Allocatable(s.clear)|
  {
    hide MapStep, TableTree, Allocatable, LeafEntry, PageOf, PathOf, PdptIndex, PdIndex;
    if Missing(m, root, virt) <= |Allocatable(s.clear)| {
      MapIsMapped(m, s, root, virt, phys, flags);
    } else {
      ShortMapIsUnseen(m, s, root, virt, phys, flags);
      MissingIsUnmapped(m, root, virt);
    }
  }

  lemma MissingIsUnmapped(m: Memory, root: nat, virt: nat)
    requires IsMemory(m) && root < 0x100_0000_0000 && Missing(m, root, virt) > 0
    ensures Translate(m, root, virt) == None
  {
    var a := PathOf(virt);
    assert a[..2][..1] == a[..1];
  }
}
