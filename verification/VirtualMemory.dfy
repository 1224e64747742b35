/** The kernel's address space of kernel/vmm.c: get_next_level, vmm_map and vmm_init over the
    page allocator, and the identity map vmm_init builds. */
module VirtualMemory {
  import opened Words
  import opened PageAllocator
  import opened PageTables
  import opened PageTree

  const PTE_WRITABLE: nat := 2

  /** The entry that maps page n to itself, writable. */
  function IdentityEntry(n: nat): nat { LeafEntry(n * 0x1000, 2) }

  lemma IdentityEntryMeans(n: nat)
    requires n < 0x100_0000_0000
    ensures Present(IdentityEntry(n)) && PageOf(IdentityEntry(n)) == n
    ensures IdentityEntry(n) / 2 % 2 == 1
    ensures IdentityEntry(n) == n * 0x1000 + 3
  {
    LeafEntryFields(n * 0x1000, 2);
    PageTables.PageOfAddress(n);
    assert Or(2, 1) == 3 by { assert Or(1, 0) == 1; }
    hide Or, LeafEntry;
    FieldsMakeEntry(IdentityEntry(n), n);
  }

  lemma FieldsMakeEntry(e: nat, n: nat)
    requires PageOf(e) == n && LowFlags(e) == 3 && HighFlags(e) == 0
    ensures e == n * 0x1000 + 3 && e / 2 % 2 == 1
  {
  }

  // ----- the words that are not seen -----

  /** Pages that are no table have the words they had in m0, and a word of a table is zero or an entry
      that is present. */
  ghost predicate OnlyTables(m0: Memory, m: Memory, root: nat)
    requires IsMemory(m0)
  {
    && IsMemory(m) && root < 0x100_0000_0000
    && (forall x: nat | x < 0x100_0000_0000 && (forall b | IsPath(b) :: Node(m, root, b) != Some(x)) :: m[x] == m0[x])
    && (forall b, j | IsPath(b) && Node(m, root, b).Some? && 0 <= j < 512 :: WordOk(m, Node(m, root, b).value, j))
  }

  ghost predicate WordOk(m: Memory, x: nat, j: int)
    requires IsMemory(m) && x < 0x100_0000_0000 && 0 <= j < 512
  {
    m[x][j] == 0 || Present(m[x][j])
  }

  /** One call of vmm_map that went well, as far as these words go. */
  ghost predicate OneMapped(m: Memory, m': Memory, root: nat, virt: nat) {
    && IsMemory(m) && IsMemory(m') && root < 0x100_0000_0000
    && OnlyPath(m, m', root, virt, {}) && Translate(m', root, virt).Some? && (exists clear :: TableTree(m', root, clear))
    && forall b | IsPath(b) && Node(m', root, b).Some? :: Node(m, root, b).Some? || b <= PathOf(virt)
  }

  lemma MappedIsOne(m: Memory, s: State, m': Memory, s': State, root: nat, virt: nat, e: nat)
    requires IsMemory(m) && root < 0x100_0000_0000 && Mapped(m, s, m', s', root, virt, e)
    ensures OneMapped(m, m', root, virt)
  {
    hide OnlyPath, TableTree, Translate, VirtualPage, Node, KeepsTables, Missing, Allocatable, PathOf, IsPath;
    assert TableTree(m', root, s'.clear);
  }

  lemma OneMappedKeeps(m0: Memory, m: Memory, m': Memory, root: nat, virt: nat)
    requires IsMemory(m0) && OnlyTables(m0, m, root) && OneMapped(m, m', root, virt)
    ensures OnlyTables(m0, m', root)
  {
    hide Node, IsPath, WordOk, OnlyTables, OneMapped, PathOf, OnlyPath;
    OneMappedParts(m, m', root, virt);
    forall x: nat | x < 0x100_0000_0000 && (forall b | IsPath(b) :: Node(m', root, b) != Some(x)) ensures m'[x] == m0[x] {
      OtherPage(m0, m, m', root, virt, x);
    }
    forall b, j | IsPath(b) && Node(m', root, b).Some? && 0 <= j < 512 ensures WordOk(m', Node(m', root, b).value, j) {
      TableWord(m0, m, m', root, virt, b, j);
    }
    MakeOnlyTables(m0, m', root);
  }

  lemma OneMappedParts(m: Memory, m': Memory, root: nat, virt: nat)
    requires OneMapped(m, m', root, virt)
    ensures IsMemory(m) && IsMemory(m') && root < 0x100_0000_0000
    ensures OnlyPath(m, m', root, virt, {})
  {
    hide OnlyPath, TableTree, Translate, Node, PathOf, IsPath;
  }

  lemma MakeOnlyTables(m0: Memory, m: Memory, root: nat)
    requires IsMemory(m0) && IsMemory(m) && root < 0x100_0000_0000
    requires forall x: nat | x < 0x100_0000_0000 && (forall b | IsPath(b) :: Node(m, root, b) != Some(x)) :: m[x] == m0[x]
    requires forall b, j | IsPath(b) && Node(m, root, b).Some? && 0 <= j < 512 :: WordOk(m, Node(m, root, b).value, j)
    ensures OnlyTables(m0, m, root)
  {
    hide Node, IsPath, WordOk;
  }

  lemma OtherPage(m0: Memory, m: Memory, m': Memory, root: nat, virt: nat, x: nat)
    requires IsMemory(m0) && OnlyTables(m0, m, root) && OneMapped(m, m', root, virt)
    requires x < 0x100_0000_0000 && forall b | IsPath(b) :: Node(m', root, b) != Some(x)
    ensures IsMemory(m') && m'[x] == m0[x]
  {
    PrefixPaths(virt);
    hide Node, IsPath, PathOf, SlotsKept, TableTree, Translate, WordOk;
    assert m'[x] == m[x];
    forall b | IsPath(b) ensures Node(m, root, b) != Some(x) {
      if Node(m, root, b).Some? { assert Node(m', root, b) == Node(m, root, b); }
    }
  }

  lemma TableWord(m0: Memory, m: Memory, m': Memory, root: nat, virt: nat, b: seq<nat>, j: int)
    requires IsMemory(m0) && OnlyTables(m0, m, root) && OneMapped(m, m', root, virt)
    requires IsMemory(m') && root < 0x100_0000_0000 && IsPath(b) && Node(m', root, b).Some? && 0 <= j < 512
    ensures WordOk(m', Node(m', root, b).value, j)
  {
    PrefixPaths(virt);
    var k, x := |b|, Node(m', root, b).value;
    if b == PathOf(virt)[..k] {
      if j == SlotOf(virt, k) {
        PathWord(m', root, virt, k);
      } else {
        hide Node, IsPath, PathOf, OthersKept, TableTree, Translate, SlotOf;
        assert SlotsKept(m, m', root, virt, {}, k);
        if Node(m, root, b).Some? { assert WordOk(m, x, j); }
      }
    } else {
      OffPath(m, m', root, virt, b);
      hide Node, IsPath, PathOf, SlotsKept, TableTree, Translate;
      assert WordOk(m, x, j);
    }
  }

  /** The words the walk of a translated address reads are entries that are present. */
  lemma PathWord(m: Memory, root: nat, virt: nat, k: nat)
    requires IsMemory(m) && root < 0x100_0000_0000 && Translate(m, root, virt).Some? && k <= 3
    ensures IsPath(PathOf(virt)[..k]) && Node(m, root, PathOf(virt)[..k]).Some?
    ensures Present(m[Node(m, root, PathOf(virt)[..k]).value][SlotOf(virt, k)])
  {
    PrefixPaths(virt);
    var a := PathOf(virt);
    assert a[..3] == a && a[..3][..2] == a[..2] && a[..2][..1] == a[..1] && a[..1][..0] == a[..0];
    assert Node(m, root, a[..3]).Some?;
    assert Node(m, root, a[..2]).Some?;
    assert Node(m, root, a[..1]).Some?;
    assert Node(m, root, a[..0]).Some?;
  }

  /** A table that is not on the path was there, and is none of the path's. */
  lemma OffPath(m: Memory, m': Memory, root: nat, virt: nat, b: seq<nat>)
    requires OneMapped(m, m', root, virt) && IsPath(b) && Node(m', root, b).Some? && b != PathOf(virt)[..|b|]
    ensures IsMemory(m) && Node(m, root, b) == Node(m', root, b) && m'[Node(m', root, b).value] == m[Node(m', root, b).value]
  {
    PrefixPaths(virt);
    var x := Node(m', root, b).value;
    NodeBound(m', root, b);
    var clear :| TableTree(m', root, clear);
    forall k | 0 <= k <= 3 ensures Node(m', root, PathOf(virt)[..k]) != Some(x) {
      assert |PathOf(virt)[..k]| == k;
      TreeFactsIf(m', root, clear, b, PathOf(virt)[..k]);
    }
    hide Node, IsPath, SlotsKept, TableTree, Translate;
    NoPrefix(b, PathOf(virt));
  }

  lemma NoPrefix(b: seq<nat>, a: seq<nat>)
    requires |b| > |a| || b != a[..|b|]
    ensures !(b <= a)
  {
  }

  /** Which tables exist once pages 0 to n - 1 of the first gigabyte are mapped. */
  ghost predicate Built(b: seq<nat>, n: nat) {
    b == [] || (n > 0 && (b == [0] || b == [0, 0] || (|b| == 3 && b[..2] == [0, 0] && b[2] * 512 < n)))
  }

  /** How many tables that is. */
  function TablesFor(n: nat): nat {
    1 + (if n > 0 then 2 else 0) + (n + 511) / 512
  }

  /** The state of vmm_init's first loop after n pages, having started with `available` pages. */
  ghost predicate FirstLoop(m: Memory, s: State, root: nat, n: nat, available: nat) {
    && root < 0x100_0000_0000 && IsMemory(m) && TableTree(m, root, s.clear)
    && (forall v :: Translate(m, root, v) == if VirtualPage(v) < n then Some(IdentityEntry(VirtualPage(v))) else None)
    && (forall b | IsPath(b) :: Node(m, root, b).Some? <==> Built(b, n))
    && |Allocatable(s.clear)| + TablesFor(n) == available
  }

  /** A zeroed root table. */
  lemma FreshRoot(m: Memory, s: State)
    requires IsMemory(m) && Allocatable(s.clear) != {}
    ensures var (s', addr) := AllocStep(s);
      && addr != 0 && FirstLoop(m[addr / 4096 := ZeroTable()], s', addr / 4096, 0, |Allocatable(s.clear)|)
      && OnlyTables(m, m[addr / 4096 := ZeroTable()], addr / 4096)
  {
    var root := Least(Allocatable(s.clear));
    assert root * 4096 / 4096 == root;
    var m' := m[root := ZeroTable()];
    assert Allocatable(s.clear - {root}) == Allocatable(s.clear) - {root};
    forall b | IsPath(b) ensures Node(m', root, b) == if b == [] then Some(root) else None {
      NoNodes(m', root, b);
    }
    FreshOnlyTables(m, m', root);
  }

  lemma FreshOnlyTables(m: Memory, m': Memory, root: nat)
    requires IsMemory(m) && IsMemory(m') && root < 0x100_0000_0000 && m' == m[root := ZeroTable()]
    requires forall b | IsPath(b) :: Node(m', root, b) == if b == [] then Some(root) else None
    ensures OnlyTables(m, m', root)
  {
    assert IsPath([]);
    hide Node, IsPath;
    forall x: nat | x < 0x100_0000_0000 && (forall b | IsPath(b) :: Node(m', root, b) != Some(x)) ensures m'[x] == m[x] {
      assert Node(m', root, []) == Some(root);
    }
  }

  lemma {:induction false} NoNodes(m: Memory, root: nat, b: seq<nat>)
    requires IsMemory(m) && root < 0x100_0000_0000 && m[root] == ZeroTable() && IsPath(b)
    ensures Node(m, root, b) == if b == [] then Some(root) else None
    decreases |b|
  {
    if b != [] {
      NoNodes(m, root, b[..|b| - 1]);
    }
  }

  /** Page n of the first gigabyte: its path and the tables it still lacks. */
  lemma PathInFirstGiB(n: nat)
    requires n < 0x4_0000
    ensures PathOf(n * 0x1000) == [0, 0, n / 512] && VirtualPage(n * 0x1000) == n
    ensures Masked(n * 0x1000) == n * 0x1000
  {
    var v := n * 0x1000;
    Shifts(v);
    assert v / 0x1000 == n;
  }

  lemma MissingInFirstGiB(m: Memory, s: State, root: nat, n: nat, available: nat)
    requires n < 0x4_0000 && FirstLoop(m, s, root, n, available)
    ensures Missing(m, root, n * 0x1000) == TablesFor(n + 1) - TablesFor(n)
  {
    PathInFirstGiB(n);
    var a := PathOf(n * 0x1000);
    assert a[..1] == [0] && a[..2] == [0, 0];
    assert Built(a[..1], n) <==> n > 0;
    assert Built(a[..2], n) <==> n > 0;
    assert Built(a, n) <==> n / 512 * 512 < n;
  }

  lemma FirstLoopMapped(m: Memory, s: State, m': Memory, s': State, root: nat, n: nat, available: nat)
    requires n < 0x4_0000 && FirstLoop(m, s, root, n, available)
    requires Mapped(m, s, m', s', root, n * 0x1000, IdentityEntry(n))
    requires Missing(m, root, n * 0x1000) == TablesFor(n + 1) - TablesFor(n)
    ensures FirstLoop(m', s', root, n + 1, available)
  {
    hide *;
    PathInFirstGiB(n);
    LoopTranslations(m, s, m', s', root, n, available);
    LoopNodes(m, s, m', s', root, n, available);
    MakeLoop(m', s', root, n + 1, available);
  }

  lemma LoopTranslations(m: Memory, s: State, m': Memory, s': State, root: nat, n: nat, available: nat)
    requires FirstLoop(m, s, root, n, available) && VirtualPage(n * 0x1000) == n
    requires Mapped(m, s, m', s', root, n * 0x1000, IdentityEntry(n))
    requires Missing(m, root, n * 0x1000) == TablesFor(n + 1) - TablesFor(n)
    ensures root < 0x100_0000_0000 && IsMemory(m') && TableTree(m', root, s'.clear)
    ensures forall v :: Translate(m', root, v) == if VirtualPage(v) < n + 1 then Some(IdentityEntry(VirtualPage(v))) else None
    ensures |Allocatable(s'.clear)| + TablesFor(n + 1) == available
  {
    hide Missing, TableTree, Translate, VirtualPage, IdentityEntry, KeepsTables, Node, PathOf, TablesFor, Allocatable, Built, IsPath;
  }

  lemma LoopNodes(m: Memory, s: State, m': Memory, s': State, root: nat, n: nat, available: nat)
    requires FirstLoop(m, s, root, n, available) && PathOf(n * 0x1000) == [0, 0, n / 512]
    requires Mapped(m, s, m', s', root, n * 0x1000, IdentityEntry(n))
    ensures forall b | IsPath(b) :: Node(m', root, b).Some? <==> Built(b, n + 1)
  {
    hide Missing, TableTree, Translate, VirtualPage, IdentityEntry, KeepsTables, Node, PathOf, TablesFor, Allocatable, Built, IsPath;
    forall b | IsPath(b) ensures Node(m', root, b).Some? <==> Built(b, n + 1) {
      PrefixBuilt(b, n);
    }
  }

  lemma MakeLoop(m: Memory, s: State, root: nat, n: nat, available: nat)
    requires root < 0x100_0000_0000 && IsMemory(m) && TableTree(m, root, s.clear)
    requires forall v :: Translate(m, root, v) == if VirtualPage(v) < n then Some(IdentityEntry(VirtualPage(v))) else None
    requires forall b | IsPath(b) :: Node(m, root, b).Some? <==> Built(b, n)
    requires |Allocatable(s.clear)| + TablesFor(n) == available
    ensures FirstLoop(m, s, root, n, available)
  {
    hide TableTree, Translate, VirtualPage, IdentityEntry, Node, TablesFor, Allocatable, Built, IsPath;
  }

  /** One turn of the first loop. */
  lemma FirstLoopStep(m: Memory, s: State, root: nat, n: nat, available: nat)
    requires n < 0x4_0000 && FirstLoop(m, s, root, n, available) && available >= 515
    ensures var (m', s') := MapStep(m, s, root, n * 0x1000, n * 0x1000, 2);
      FirstLoop(m', s', root, n + 1, available) && OneMapped(m, m', root, n * 0x1000)
  {
    MissingInFirstGiB(m, s, root, n, available);
    assert TablesFor(n + 1) <= 515;
    hide MapStep, Missing, Mapped, TablesFor;
    MapIsMapped(m, s, root, n * 0x1000, n * 0x1000, 2);
    var (m', s') := MapStep(m, s, root, n * 0x1000, n * 0x1000, 2);
    FirstLoopMapped(m, s, m', s', root, n, available);
    MappedIsOne(m, s, m', s', root, n * 0x1000, IdentityEntry(n));
  }

  lemma PrefixBuilt(b: seq<nat>, n: nat)
    ensures Built(b, n + 1) <==> Built(b, n) || b <= [0, 0, n / 512]
  {
    var a := [0, 0, n / 512];
    assert a[..1] == [0] && a[..2] == [0, 0];
    if |b| == 3 {
      assert b == b[..2] + [b[2]];
      if b[2] * 512 < n + 1 && !(b[2] * 512 < n) {
        assert b[2] == n / 512;
      }
    } else if b <= a {
      assert b == a[..|b|];
    }
  }

  // ----- the tables of a range of pages -----

  /** The path of page n to its last-level table. */
  function PagePath(n: nat): (a: seq<nat>)
    ensures |a| == 3 && IsPath(a)
  {
    [n / 0x800_0000 % 512, n / 0x4_0000 % 512, n / 512 % 512]
  }

  /** How many pages a table d steps below the root spans. */
  function Span(d: nat): (b: nat)
    ensures b > 0
  {
    if d <= 1 then 0x800_0000 else if d == 2 then 0x4_0000 else 512
  }

  /** How many tables d steps below the root the first gigabyte has. */
  function InFirstGiB(d: nat): nat { if d <= 2 then 1 else 512 }

  lemma PathOfPage(v: nat)
    ensures PathOf(v) == PagePath(v / 0x1000)
  {
    Shifts(v);
    SpanShifts(v / 0x1000);
  }

  lemma SpanShifts(n: nat)
    ensures n / 0x800_0000 == n / 512 / 512 / 512 && n / 0x4_0000 == n / 512 / 512
  {
    var v := n * 0x1000;
    Shifts(v);
    SpanOf(n);
  }

  lemma SpanOf(n: nat)
    ensures n / 0x4_0000 == n / 512 / 512 && n / 0x800_0000 == n / 0x4_0000 / 512
  {
    var q, r := n / 0x4_0000, n % 0x4_0000;
    assert n == q * 0x4_0000 + r;
    assert n / 512 == q * 512 + r / 512;
    var q3, r3 := n / 0x800_0000, n % 0x800_0000;
    assert n / 0x4_0000 == q3 * 512 + r3 / 0x4_0000;
  }

  /** The prefixes of a path, by the quotients of the page number. */
  lemma PathDigits(n: nat)
    requires n < 0x10_0000_0000
    ensures var a, q3, q2, q1 := PagePath(n), n / 512, n / 0x4_0000, n / 0x800_0000;
      && q2 == q3 / 512 && q1 == q2 / 512 && q1 < 512
      && a[..1] == [q1] && a[..2] == [q1, q2 % 512] && a[..3] == [q1, q2 % 512, q3 % 512]
  {
    SpanOf(n);
  }

  lemma SameDigits(x: nat, y: nat)
    ensures x == y <==> x / 512 == y / 512 && x % 512 == y % 512
  {
  }

  /** Below 2^36 pages, a table is shared exactly by the pages of one span. */
  lemma SharedTable(n: nat, x: nat, d: nat)
    requires n < 0x10_0000_0000 && x < 0x10_0000_0000 && 1 <= d <= 3
    ensures PagePath(n)[..d] == PagePath(x)[..d] <==> n / Span(d) == x / Span(d)
  {
    PathDigits(n);
    PathDigits(x);
    var n3, n2, x3, x2 := n / 512, n / 0x4_0000, x / 512, x / 0x4_0000;
    SameDigits(n3, x3);
    SameDigits(n2, x2);
    hide PagePath;
    SameLists(n2 / 512, n2 % 512, n3 % 512, x2 / 512, x2 % 512, x3 % 512);
  }

  lemma SameLists(a: nat, b: nat, c: nat, x: nat, y: nat, z: nat)
    ensures [a] == [x] <==> a == x
    ensures [a, b] == [x, y] <==> a == x && b == y
    ensures [a, b, c] == [x, y, z] <==> a == x && b == y && c == z
  {
    assert [a, b, c][0] == a && [a, b, c][1] == b && [a, b, c][2] == c && [a, b][0] == a && [a, b][1] == b && [a][0] == a;
  }

  lemma InFirstGiBTable(n: nat, d: nat)
    requires n < 0x10_0000_0000 && 1 <= d <= 3
    ensures Built(PagePath(n)[..d], 0x4_0000) <==> n / Span(d) < InFirstGiB(d)
  {
    PathDigits(n);
    hide PagePath;
  }

  /** Which tables exist once the first gigabyte and the k pages from `first` on are mapped. */
  ghost predicate Made(b: seq<nat>, first: nat, k: nat) {
    Built(b, 0x4_0000) || exists n: nat :: first <= n < first + k && b <= PagePath(n)
  }

  lemma MadePrefix(first: nat, k: nat, d: nat)
    requires first + k < 0x10_0000_0000 && 1 <= d <= 3
    ensures var n := first + k;
      Made(PagePath(n)[..d], first, k) <==> n / Span(d) < InFirstGiB(d) || (k > 0 && (n - 1) / Span(d) == n / Span(d))
  {
    var n := first + k;
    var b := PagePath(n)[..d];
    InFirstGiBTable(n, d);
    forall x: nat | first <= x < n ensures b <= PagePath(x) <==> x / Span(d) == n / Span(d) {
      SharedTable(n, x, d);
      assert b <= PagePath(x) <==> b == PagePath(x)[..d];
    }
    hide PagePath, Built, Span;
    if x: nat :| first <= x < n && b <= PagePath(x) { Between(x, n, Span(d)); }
    if k > 0 && (n - 1) / Span(d) == n / Span(d) { assert first <= n - 1 < n && b <= PagePath(n - 1); }
  }

  lemma Between(x: nat, n: nat, span: nat)
    requires span > 0 && x < n && x / span == n / span
    ensures (n - 1) / span == n / span
  {
    var q := n / span;
    assert x == q * span + x % span && n == q * span + n % span;
    DivModUnique(span, q, n - 1 - q * span);
  }

  /** The tables d steps below the root that k pages from `first` on need beyond the first
      gigabyte's: one for every span they touch. */
  function Spanned(first: nat, k: nat, d: nat): nat {
    var low := if first / Span(d) < InFirstGiB(d) then InFirstGiB(d) else first / Span(d);
    var high := if k == 0 then 0 else (first + k - 1) / Span(d) + 1;
    if high <= low then 0 else high - low
  }

  /** All of them. */
  function RangeTables(first: nat, k: nat): nat {
    Spanned(first, k, 1) + Spanned(first, k, 2) + Spanned(first, k, 3)
  }

  lemma OneMorePage(first: nat, k: nat, d: nat)
    requires first + k < 0x10_0000_0000 && 1 <= d <= 3
    ensures Spanned(first, k + 1, d) == Spanned(first, k, d) + if Made(PagePath(first + k)[..d], first, k) then 0 else 1
  {
    MadePrefix(first, k, d);
    hide Made, PagePath;
    var n, b := first + k, Span(d);
    StepDivision(n, b);
    if k > 0 { Monotone(first, n - 1, b); }
  }

  /** A longer range needs no fewer tables. */
  lemma RangeGrows(first: nat, k: nat, n: nat)
    requires k <= n
    ensures RangeTables(first, k) <= RangeTables(first, n)
  {
    SpannedGrows(first, k, n, 1);
    SpannedGrows(first, k, n, 2);
    SpannedGrows(first, k, n, 3);
    hide Spanned;
  }

  lemma SpannedGrows(first: nat, k: nat, n: nat, d: nat)
    requires k <= n
    ensures Spanned(first, k, d) <= Spanned(first, n, d)
  {
    hide Span;
    if k > 0 { Monotone(first + k - 1, first + n - 1, Span(d)); }
  }

  lemma StepDivision(n: nat, b: nat)
    requires b > 0
    ensures n > 0 ==> n / b == (n - 1) / b || n / b == (n - 1) / b + 1
  {
    if n > 0 {
      var q, r := (n - 1) / b, (n - 1) % b;
      assert n - 1 == q * b + r;
      if r + 1 < b { DivModUnique(b, q, r + 1); } else {
        assert n == (q + 1) * b;
        DivModUnique(b, q + 1, 0);
      }
    }
  }

  lemma Monotone(x: nat, y: nat, b: nat)
    requires b > 0 && x <= y
    ensures x / b <= y / b
  {
    var p, q := x / b, y / b;
    assert x == p * b + x % b && y == q * b + y % b;
    if q < p { MultiplesApart(b, q, p); }
  }

  /** The state of vmm_init's framebuffer loop after k of its pages, from page `first` on, having
      started with `available` pages. */
  ghost predicate SecondLoop(m: Memory, s: State, root: nat, first: nat, k: nat, available: nat) {
    && root < 0x100_0000_0000 && IsMemory(m) && TableTree(m, root, s.clear)
    && (forall v :: Translate(m, root, v) ==
          if VirtualPage(v) < 0x4_0000 || first <= VirtualPage(v) < first + k
          then Some(IdentityEntry(VirtualPage(v))) else None)
    && (forall b | IsPath(b) :: Node(m, root, b).Some? <==> Made(b, first, k))
    && |Allocatable(s.clear)| + 515 + RangeTables(first, k) == available
  }

  lemma BetweenLoops(m: Memory, s: State, root: nat, first: nat, available: nat)
    requires FirstLoop(m, s, root, 0x4_0000, available)
    ensures SecondLoop(m, s, root, first, 0, available)
  {
    hide TableTree, Translate, Allocatable, Built, Node, PagePath;
    assert TablesFor(0x4_0000) == 515 && RangeTables(first, 0) == 0;
  }

  lemma PageBelow48(v: nat)
    requires v < 0x1_0000_0000_0000
    ensures VirtualPage(v) == v / 0x1000 == PageOf(v)
  {
  }

  lemma MissingInRange(m: Memory, s: State, root: nat, addr: nat, first: nat, k: nat, available: nat)
    requires addr / 0x1000 == first + k < 0x10_0000_0000 && SecondLoop(m, s, root, first, k, available)
    ensures Missing(m, root, addr) == RangeTables(first, k + 1) - RangeTables(first, k)
  {
    hide *;
    PathOfPage(addr);
    RangeStep(first, k);
    NodesMade(m, s, root, first, k, available, PagePath(first + k));
    MissingIs(m, root, addr);
  }

  lemma MissingIs(m: Memory, root: nat, addr: nat)
    requires IsMemory(m) && root < 0x100_0000_0000
    ensures var a := PathOf(addr);
      && |a| == 3 && IsPath(a) && IsPath(a[..1]) && IsPath(a[..2])
      && Missing(m, root, addr) == (if Node(m, root, a[..1]).None? then 1 else 0)
         + (if Node(m, root, a[..2]).None? then 1 else 0) + (if Node(m, root, a).None? then 1 else 0)
  {
    hide PathOf, Node;
  }

  lemma RangeStep(first: nat, k: nat)
    requires first + k < 0x10_0000_0000
    ensures var a := PagePath(first + k);
      && |a| == 3
      && RangeTables(first, k + 1) == RangeTables(first, k) + (if Made(a[..1], first, k) then 0 else 1)
         + (if Made(a[..2], first, k) then 0 else 1) + (if Made(a, first, k) then 0 else 1)
  {
    OneMorePage(first, k, 1);
    OneMorePage(first, k, 2);
    OneMorePage(first, k, 3);
    hide Made, Spanned, PagePath;
    assert PagePath(first + k)[..3] == PagePath(first + k);
  }

  lemma NodesMade(m: Memory, s: State, root: nat, first: nat, k: nat, available: nat, a: seq<nat>)
    requires SecondLoop(m, s, root, first, k, available) && IsPath(a) && |a| == 3
    ensures IsMemory(m) && root < 0x100_0000_0000 && IsPath(a[..1]) && IsPath(a[..2])
    ensures Node(m, root, a[..1]).Some? <==> Made(a[..1], first, k)
    ensures Node(m, root, a[..2]).Some? <==> Made(a[..2], first, k)
    ensures Node(m, root, a).Some? <==> Made(a, first, k)
  {
    hide Translate, TableTree, Allocatable, Node, Made, RangeTables;
  }

  lemma MorePaths(b: seq<nat>, first: nat, k: nat)
    ensures Made(b, first, k + 1) <==> Made(b, first, k) || b <= PagePath(first + k)
  {
    hide PagePath, Built;
    if n: nat :| first <= n < first + (k + 1) && b <= PagePath(n) {
      assert n == first + k || (first <= n < first + k && b <= PagePath(n));
    }
    if n: nat :| first <= n < first + k && b <= PagePath(n) {
      assert first <= n < first + (k + 1) && b <= PagePath(n);
    }
    assert b <= PagePath(first + k) ==> first <= first + k < first + (k + 1) && b <= PagePath(first + k);
  }

  lemma SecondLoopMapped(m: Memory, s: State, m': Memory, s': State, root: nat, addr: nat, first: nat, k: nat, available: nat)
    requires addr / 0x1000 == first + k == VirtualPage(addr)
    requires SecondLoop(m, s, root, first, k, available) && Mapped(m, s, m', s', root, addr, IdentityEntry(first + k))
    requires Missing(m, root, addr) == RangeTables(first, k + 1) - RangeTables(first, k)
    ensures SecondLoop(m', s', root, first, k + 1, available)
  {
    PathOfPage(addr);
    hide Missing, TableTree, Translate, VirtualPage, IdentityEntry, Allocatable, KeepsTables, Node, PathOf, PagePath, Made,
         RangeTables, IsPath;
    forall b | IsPath(b) ensures Node(m', root, b).Some? <==> Made(b, first, k + 1) {
      MorePaths(b, first, k);
    }
  }

  /** One turn of the framebuffer loop. */
  lemma SecondLoopStep(m: Memory, s: State, root: nat, addr: nat, first: nat, k: nat, available: nat)
    requires addr < 0x1_0000_0000_0000 && addr / 0x1000 == first + k
    requires SecondLoop(m, s, root, first, k, available) && available >= 515 + RangeTables(first, k + 1)
    ensures var (m', s') := MapStep(m, s, root, addr, addr, 2);
      SecondLoop(m', s', root, first, k + 1, available) && OneMapped(m, m', root, addr)
  {
    hide *;
    PageBelow48(addr);
    IdentityLeaf(addr, first + k);
    WritableHasNoPage();
    SecondLoopParts(m, s, root, first, k, available);
    MissingInRange(m, s, root, addr, first, k, available);
    MapIsMapped(m, s, root, addr, addr, 2);
    var (m', s') := MapStep(m, s, root, addr, addr, 2);
    SecondLoopMapped(m, s, m', s', root, addr, first, k, available);
    MappedIsOne(m, s, m', s', root, addr, IdentityEntry(first + k));
  }

  lemma WritableHasNoPage()
    ensures PageOf(2) == 0
  {
  }

  lemma SecondLoopParts(m: Memory, s: State, root: nat, first: nat, k: nat, available: nat)
    requires SecondLoop(m, s, root, first, k, available)
    ensures root < 0x100_0000_0000 && IsMemory(m) && TableTree(m, root, s.clear)
    ensures |Allocatable(s.clear)| + 515 + RangeTables(first, k) == available
  {
    hide TableTree, Translate, Allocatable, Node, Made, RangeTables;
  }

  lemma IdentityLeaf(addr: nat, n: nat)
    requires addr < 0x1_0000_0000_0000 && addr / 0x1000 == n
    ensures LeafEntry(addr, 2) == IdentityEntry(n)
  {
    PageBelow48(addr);
    PageTables.PageOfAddress(n);
    assert Masked(addr) == Masked(n * 0x1000);
    hide Or, PageOf, Masked;
  }

  /** The pages the framebuffer loop visits. */
  function FramePages(size: nat): nat { (size + 0xFFF) / 0x1000 }

  /** They cover every byte of the framebuffer exactly when the misalignment of its base does not
      push its last byte onto one more page; always so for a page-aligned base. */
  lemma FramebufferCovered(base: nat, size: nat)
    requires size > 0
    ensures (forall x | base <= x < base + size :: base / 0x1000 <= x / 0x1000 < base / 0x1000 + FramePages(size))
       <==> base % 0x1000 + size <= 0x1000 * FramePages(size)
    ensures base % 0x1000 == 0 ==> base % 0x1000 + size <= 0x1000 * FramePages(size)
  {
    var last := base + size - 1;
    assert last / 0x1000 < base / 0x1000 + FramePages(size) <==> base % 0x1000 + size <= 0x1000 * FramePages(size);
    if base % 0x1000 + size <= 0x1000 * FramePages(size) {
      forall x | base <= x < base + size ensures base / 0x1000 <= x / 0x1000 < base / 0x1000 + FramePages(size) {
      }
    }
  }

  class Kernel {
    const pmm: Allocator
    var memory: Memory

    ghost predicate Valid()
      reads this, pmm, pmm.bitmap
    {
      pmm.Valid() && IsMemory(memory)
    }

    constructor (pmm: Allocator, memory: Memory)
      requires pmm.Valid() && IsMemory(memory)
      ensures Valid() && this.pmm == pmm && this.memory == memory
    {
      this.pmm := pmm;
      this.memory := memory;
    }

    /** pmm_alloc_zpage. */
    method AllocZPage() returns (addr: nat)
      requires Valid()
      modifies this`memory, pmm`freePages, pmm.bitmap
      ensures Valid() && addr <= 0x80_0000_0000
      ensures (pmm.Abstract(), addr) == AllocStep(old(pmm.Abstract()))
      ensures memory == if addr == 0 then old(memory) else old(memory)[addr / 4096 := ZeroTable()]
    {
      addr := pmm.AllocPage();
      if addr != 0 {
        memory := memory[addr / 4096 := ZeroTable()];
      }
    }

    /** get_next_level on slot i of table p. */
    method GetNextLevel(p: nat, i: nat, flags: nat) returns (q: nat)
      requires Valid() && p < 0x100_0000_0000 && i < 512
      modifies this`memory, pmm`freePages, pmm.bitmap
      ensures Valid() && q < 0x100_0000_0000
      ensures (memory, pmm.Abstract(), q) == NextLevel(old(memory), old(pmm.Abstract()), p, i, flags)
    {
      hide Or;
      if Present(memory[p][i]) {
        return PageOf(memory[p][i]);
      }
      var newTable := AllocZPage();
      if newTable == 0 {
        return 0;
      }
      memory := Store(memory, p, i, TableEntry(newTable, flags));
      q := newTable / 4096;
    }

    /** vmm_map. */
    method Map(root: nat, virt: nat, phys: nat, flags: nat)
      requires Valid() && root < 0x100_0000_0000
      modifies this`memory, pmm`freePages, pmm.bitmap
      ensures Valid()
      ensures (memory, pmm.Abstract()) == MapStep(old(memory), old(pmm.Abstract()), root, virt, phys, flags)
    {
      hide NextLevel, LeafEntry, Pml4Index, PdptIndex, PdIndex, PtIndex;
      var pdpt := GetNextLevel(root, Pml4Index(virt), flags);
      var pd := GetNextLevel(pdpt, PdptIndex(virt), flags);
      var pt := GetNextLevel(pd, PdIndex(virt), flags);
      memory := Store(memory, pt, PtIndex(virt), LeafEntry(phys, flags));
    }

    /** vmm_init: given a page for every table, an exact identity map of the first gigabyte and of
        the framebuffer's pages, made of 515 tables and of those the framebuffer's range needs.  Pages
        that are no table keep their words, and the words of a table are zero or entries. */
    method Init(fbBase: uint64, fbSize: uint64) returns (root: nat)
      requires Valid() && fbBase + fbSize <= 0x1_0000_0000_0000
      modifies this`memory, pmm`freePages, pmm.bitmap
      ensures Valid()
      ensures |Allocatable(old(pmm.Clear()))| >= 515 + RangeTables(fbBase / 0x1000, FramePages(fbSize)) ==>
        && SecondLoop(memory, pmm.Abstract(), root, fbBase / 0x1000, FramePages(fbSize), |Allocatable(old(pmm.Clear()))|)
        && OnlyTables(old(memory), memory, root)
        && forall v: nat | v < 0x1_0000_0000_0000 ::
             Translate(memory, root, v) ==
               if v < 0x4000_0000 || fbBase / 0x1000 <= v / 0x1000 < fbBase / 0x1000 + (fbSize + 0xFFF) / 0x1000
               then Some(v / 0x1000 * 0x1000 + 3) else None
    {
      hide AllocStep, MapStep, FirstLoop, SecondLoop, Allocatable, RangeTables, OnlyTables, OneMapped, Translate, IsMemory;
      ghost var before, available := memory, |Allocatable(pmm.Clear())|;
      ghost var first := fbBase / 0x1000;
      ghost var enough := available >= 515 + RangeTables(fbBase / 0x1000, FramePages(fbSize));
      if enough { FreshRoot(memory, pmm.Abstract()); }
      var rootAddr := AllocZPage();
      root := rootAddr / 4096;
      var addr := 0;
      while addr < 0x4000_0000
        invariant addr % 0x1000 == 0 && addr <= 0x4000_0000
        invariant Valid() && root < 0x100_0000_0000
        invariant enough ==> FirstLoop(memory, pmm.Abstract(), root, addr / 0x1000, available)
        invariant enough ==> OnlyTables(before, memory, root)
      {
        ghost var m := memory;
        if enough {
          FirstLoopStep(m, pmm.Abstract(), root, addr / 0x1000, available);
        }
        Map(root, addr, addr, PTE_WRITABLE);
        if enough { OneMappedKeeps(before, m, memory, root, addr); }
        addr := addr + 0x1000;
      }
      if enough { BetweenLoops(memory, pmm.Abstract(), root, first, available); }
      addr := fbBase;
      ghost var k := 0;
      while addr < fbBase + fbSize
        invariant addr == fbBase + 0x1000 * k && k <= FramePages(fbSize)
        invariant Valid() && root < 0x100_0000_0000
        invariant enough ==> SecondLoop(memory, pmm.Abstract(), root, first, k, available)
        invariant enough ==> OnlyTables(before, memory, root)
        decreases fbBase + fbSize - addr
      {
        ghost var m := memory;
        if enough {
          RangeGrows(first, k + 1, FramePages(fbSize));
          SecondLoopStep(m, pmm.Abstract(), root, addr, first, k, available);
        }
        Map(root, addr, addr, PTE_WRITABLE);
        if enough { OneMappedKeeps(before, m, memory, root, addr); }
        addr := addr + 0x1000;
        k := k + 1;
      }
      if enough { SecondLoopMeans(memory, pmm.Abstract(), root, fbBase, fbSize, available); }
    }
  }

  lemma SecondLoopMeans(m: Memory, s: State, root: nat, fbBase: nat, fbSize: nat, available: nat)
    requires SecondLoop(m, s, root, fbBase / 0x1000, FramePages(fbSize), available)
    ensures IsMemory(m) && root < 0x100_0000_0000
    ensures forall v: nat | v < 0x1_0000_0000_0000 ::
      Translate(m, root, v) ==
        if v < 0x4000_0000 || fbBase / 0x1000 <= v / 0x1000 < fbBase / 0x1000 + (fbSize + 0xFFF) / 0x1000
        then Some(v / 0x1000 * 0x1000 + 3) else None
  {
    forall v: nat | v < 0x1_0000_0000_0000
      ensures Translate(m, root, v) ==
        if v < 0x4000_0000 || fbBase / 0x1000 <= v / 0x1000 < fbBase / 0x1000 + (fbSize + 0xFFF) / 0x1000
        then Some(v / 0x1000 * 0x1000 + 3) else None
    {
      MappedAddress(m, s, root, fbBase, fbSize, available, v);
    }
    SecondLoopParts(m, s, root, fbBase / 0x1000, FramePages(fbSize), available);
    hide *;
  }

  lemma MappedAddress(m: Memory, s: State, root: nat, fbBase: nat, fbSize: nat, available: nat, v: nat)
    requires SecondLoop(m, s, root, fbBase / 0x1000, FramePages(fbSize), available) && v < 0x1_0000_0000_0000
    ensures IsMemory(m) && root < 0x100_0000_0000
    ensures Translate(m, root, v) ==
      if v < 0x4000_0000 || fbBase / 0x1000 <= v / 0x1000 < fbBase / 0x1000 + (fbSize + 0xFFF) / 0x1000
      then Some(v / 0x1000 * 0x1000 + 3) else None
  {
    hide *;
    SecondLoopAt(m, s, root, fbBase / 0x1000, FramePages(fbSize), available, v);
    FramePagesIs(fbSize);
    PageBelow48(v);
    FirstGiB(v);
    IdentityEntryMeans(v / 0x1000);
  }

  lemma FramePagesIs(size: nat)
    ensures FramePages(size) == (size + 0xFFF) / 0x1000
  {
  }

  lemma FirstGiB(v: nat)
    ensures v / 0x1000 < 0x4_0000 <==> v < 0x4000_0000
  {
  }

  lemma SecondLoopAt(m: Memory, s: State, root: nat, first: nat, k: nat, available: nat, v: nat)
    requires SecondLoop(m, s, root, first, k, available)
    ensures IsMemory(m) && root < 0x100_0000_0000
    ensures Translate(m, root, v) ==
      if VirtualPage(v) < 0x4_0000 || first <= VirtualPage(v) < first + k then Some(IdentityEntry(VirtualPage(v))) else None
  {
    hide Translate, TableTree, Allocatable, Node, Made, RangeTables, IdentityEntry, VirtualPage;
  }
}
