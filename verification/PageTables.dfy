/** Four-level page tables as values: the macros of include/vmm.h, the walk of the tables, and
    vmm_map of kernel/vmm.c as a function on memory and allocator state. */
module PageTables {
  import opened Words
  import opened PageAllocator

  // ----- 64-bit words as numbers -----

  function Pow2(k: nat): (p: nat)
    ensures p > 0
  {
    if k == 0 then 1 else 2 * Pow2(k - 1)
  }

  /** Bitwise or. */
  function Or(x: nat, y: nat): (r: nat)
    ensures r >= x && r >= y
    ensures r == 0 <==> x == 0 && y == 0
    decreases x + y
  {
    if x == 0 && y == 0 then 0
    else 2 * Or(x / 2, y / 2) + if x % 2 == 1 || y % 2 == 1 then 1 else 0
  }

  /** `e & PTE_PRESENT`. */
  predicate Present(e: nat) { e % 2 == 1 }

  /** The page number in `e & PTE_ADDR_MASK`: bits 12 to 51. */
  function PageOf(e: nat): (p: nat)
    ensures p < 0x100_0000_0000
  {
    e / 0x1000 % 0x100_0000_0000
  }

  /** `e & PTE_ADDR_MASK`. */
  function Masked(e: nat): nat { PageOf(e) * 0x1000 }

  function Pml4Index(v: nat): (i: nat) ensures i < 512 { v / 0x80_0000_0000 % 512 }
  function PdptIndex(v: nat): (i: nat) ensures i < 512 { v / 0x4000_0000 % 512 }
  function PdIndex(v: nat): (i: nat) ensures i < 512 { v / 0x20_0000 % 512 }
  function PtIndex(v: nat): (i: nat) ensures i < 512 { v / 0x1000 % 512 }

  /** The 36-bit virtual page number. */
  function VirtualPage(v: nat): nat { v / 0x1000 % 0x10_0000_0000 }

  /** The entry get_next_level stores: `new_table | PTE_PRESENT | flags`. */
  function TableEntry(addr: nat, flags: nat): nat { Or(Or(addr, 1), flags) }

  /** The entry vmm_map stores: `(phys & PTE_ADDR_MASK) | flags | PTE_PRESENT`. */
  function LeafEntry(phys: nat, flags: nat): nat { Or(Or(Masked(phys), flags), 1) }

  // ----- facts about words -----

  lemma {:induction false} OrZero(x: nat)
    ensures Or(x, 0) == x && Or(0, x) == x
    decreases x
  {
    if x > 0 { OrZero(x / 2); }
  }

  /** A product, kept folded where its factors do not matter. */
  function Scaled(a: nat, p: nat): nat { a * p }

  lemma ScaledDouble(a: nat, p: nat)
    ensures Scaled(a, 2 * p) == 2 * Scaled(a, p)
  {
  }

  lemma HalfOf(x: nat, t: nat, b: nat)
    requires x == 2 * t + b
    ensures x / 2 == t + b / 2 && x % 2 == b % 2
  {
  }

  lemma {:induction false} OrSplitScaled(x: nat, a: nat, b: nat, y: nat, c: nat, d: nat, k: nat)
    requires b < Pow2(k) && d < Pow2(k)
    requires x == Scaled(a, Pow2(k)) + b && y == Scaled(c, Pow2(k)) + d
    ensures Or(b, d) < Pow2(k)
    ensures Or(x, y) == Scaled(Or(a, c), Pow2(k)) + Or(b, d)
    decreases k
  {
    hide Or, Pow2, Scaled;
    if k == 0 {
      ScaledOne(a, c);
    } else {
      var p := Pow2(k - 1);
      Pow2Step(k);
      ScaledDouble(a, p);
      ScaledDouble(c, p);
      ScaledDouble(Or(a, c), p);
      HalfOf(x, Scaled(a, p), b);
      HalfOf(y, Scaled(c, p), d);
      HalfBelow(b, d, p);
      OrSplitScaled(x / 2, a, b / 2, y / 2, c, d / 2, k - 1);
      OrHalf(x, y);
      OrHalf(b, d);
      Join(Or(x, y), Or(x / 2, y / 2), Or(b, d), Or(b / 2, d / 2), Scaled(Or(a, c), p),
           if x % 2 == 1 || y % 2 == 1 then 1 else 0);
    }
  }

  lemma ScaledOne(a: nat, c: nat)
    ensures Pow2(0) == 1 && Or(0, 0) == 0
    ensures Scaled(a, 1) == a && Scaled(c, 1) == c && Scaled(Or(a, c), 1) == Or(a, c)
  {
    hide Or;
    assert Or(0, 0) == 0;
  }

  lemma Pow2Step(k: nat)
    requires k > 0
    ensures Pow2(k) == 2 * Pow2(k - 1)
  {
  }

  lemma HalfBelow(b: nat, d: nat, p: nat)
    requires b < 2 * p && d < 2 * p
    ensures b / 2 < p && d / 2 < p
  {
  }

  lemma Join(o: nat, half: nat, low: nat, lowHalf: nat, m: nat, bit: nat)
    requires o == 2 * half + bit && low == 2 * lowHalf + bit && half == m + lowHalf
    ensures o == 2 * m + low
  {
  }

  /** Or works separately above and below any bit. */
  lemma OrSplit(x: nat, a: nat, b: nat, y: nat, c: nat, d: nat, k: nat)
    requires b < Pow2(k) && d < Pow2(k)
    requires x == a * Pow2(k) + b && y == c * Pow2(k) + d
    ensures Or(b, d) < Pow2(k)
    ensures Or(x, y) == Or(a, c) * Pow2(k) + Or(b, d)
  {
    hide Or, Pow2;
    OrSplitScaled(x, a, b, y, c, d, k);
  }

  lemma OrHalf(x: nat, y: nat)
    ensures Or(x, y) == 2 * Or(x / 2, y / 2) + if x % 2 == 1 || y % 2 == 1 then 1 else 0
  {
  }

  lemma Pow2Values()
    ensures Pow2(12) == 0x1000 && Pow2(40) == 0x100_0000_0000
  {
    assert Pow2(4) == 16;
    Pow2Add(4, 4);
    Pow2Add(8, 4);
    Pow2Add(12, 8);
    Pow2Add(20, 20);
  }

  lemma {:induction false} Pow2Add(a: nat, b: nat)
    ensures Pow2(a + b) == Pow2(a) * Pow2(b)
    decreases b
  {
    if b > 0 {
      Pow2Add(a, b - 1);
      assert Pow2(a) * Pow2(b) == 2 * (Pow2(a) * Pow2(b - 1));
    }
  }

  /** The address field and the present bit of a bitwise or; its other bits are in OrFlags. */
  lemma OrFields(x: nat, y: nat)
    ensures PageOf(Or(x, y)) == Or(PageOf(x), PageOf(y))
    ensures Or(x, y) % 2 == 1 <==> x % 2 == 1 || y % 2 == 1
  {
    hide Or;
    OrFields12(x, y);
    OrFields40(x / 0x1000, y / 0x1000);
    assert Or(x, y) % 2 == 1 <==> x % 2 == 1 || y % 2 == 1 by { OrHalf(x, y); }
  }

  lemma OrFields12(x: nat, y: nat)
    ensures Or(x, y) / 0x1000 == Or(x / 0x1000, y / 0x1000)
  {
    Pow2Values();
    hide Or, Pow2;
    OrSplit(x, x / 0x1000, x % 0x1000, y, y / 0x1000, y % 0x1000, 12);
    Field12(Or(x, y), Or(x / 0x1000, y / 0x1000), Or(x % 0x1000, y % 0x1000));
  }

  lemma OrFields40(x: nat, y: nat)
    ensures Or(x, y) % 0x100_0000_0000 == Or(x % 0x100_0000_0000, y % 0x100_0000_0000)
  {
    Pow2Values();
    hide Or, Pow2;
    var q, r, s, t := x / 0x100_0000_0000, x % 0x100_0000_0000, y / 0x100_0000_0000, y % 0x100_0000_0000;
    OrSplit(x, q, r, y, s, t, 40);
    Field40(Or(x, y), Or(q, s), Or(r, t));
  }

  lemma Field12(n: nat, q: nat, r: nat)
    requires n == q * 0x1000 + r && r < 0x1000
    ensures n / 0x1000 == q && n % 0x1000 == r
  {
  }

  lemma Field40(n: nat, q: nat, r: nat)
    requires n == q * 0x100_0000_0000 + r && r < 0x100_0000_0000
    ensures n % 0x100_0000_0000 == r && n / 0x100_0000_0000 == q
  {
  }

  lemma PageOfAddress(c: nat)
    requires c < 0x100_0000_0000
    ensures PageOf(c * 0x1000) == c && PageOf(1) == 0
  {
  }

  /** Bits 0 to 11 and bits 52 and up of an entry: all that is not address. */
  function LowFlags(e: nat): nat { e % 0x1000 }
  function HighFlags(e: nat): nat { e / 0x1000 / 0x100_0000_0000 }

  /** The flag bits of a bitwise or are the ors of the flag bits. */
  lemma OrFlags(x: nat, y: nat)
    ensures LowFlags(Or(x, y)) == Or(LowFlags(x), LowFlags(y))
    ensures HighFlags(Or(x, y)) == Or(HighFlags(x), HighFlags(y))
  {
    hide Or;
    OrLow12(x, y);
    OrFields12(x, y);
    OrHigh40(x / 0x1000, y / 0x1000);
  }

  lemma OrLow12(x: nat, y: nat)
    ensures Or(x, y) % 0x1000 == Or(x % 0x1000, y % 0x1000)
  {
    Pow2Values();
    hide Or, Pow2;
    OrSplit(x, x / 0x1000, x % 0x1000, y, y / 0x1000, y % 0x1000, 12);
    Field12(Or(x, y), Or(x / 0x1000, y / 0x1000), Or(x % 0x1000, y % 0x1000));
  }

  lemma OrHigh40(x: nat, y: nat)
    ensures Or(x, y) / 0x100_0000_0000 == Or(x / 0x100_0000_0000, y / 0x100_0000_0000)
  {
    Pow2Values();
    hide Or, Pow2;
    var q, r, s, t := x / 0x100_0000_0000, x % 0x100_0000_0000, y / 0x100_0000_0000, y % 0x100_0000_0000;
    OrSplit(x, q, r, y, s, t, 40);
    Field40(Or(x, y), Or(q, s), Or(r, t));
  }

  lemma AddressHasNoFlags(c: nat)
    requires c < 0x100_0000_0000
    ensures LowFlags(c * 0x1000) == 0 && HighFlags(c * 0x1000) == 0 && LowFlags(1) == 1 && HighFlags(1) == 0
  {
  }

  /** A table entry is present, carries the flags, and refers to its table exactly when every
      address bit of the flags is one of the table's own; so for every table when there are none. */
  lemma TableEntryFields(c: nat, flags: nat)
    requires c < 0x100_0000_0000
    ensures Present(TableEntry(c * 0x1000, flags))
    ensures PageOf(TableEntry(c * 0x1000, flags)) == c <==> Or(c, PageOf(flags)) == c
    ensures PageOf(flags) == 0 ==> PageOf(TableEntry(c * 0x1000, flags)) == c
    ensures LowFlags(TableEntry(c * 0x1000, flags)) == Or(1, LowFlags(flags))
    ensures HighFlags(TableEntry(c * 0x1000, flags)) == HighFlags(flags)
  {
    PageOfAddress(c);
    AddressHasNoFlags(c);
    OrFields(Or(c * 0x1000, 1), flags);
    OrFields(c * 0x1000, 1);
    OrFlags(Or(c * 0x1000, 1), flags);
    OrFlags(c * 0x1000, 1);
    OrZero(c);
    OrZero(1);
    OrZero(HighFlags(flags));
    hide Or, PageOf, LowFlags, HighFlags;
  }

  /** A leaf entry is present, holds the physical page, and carries the flags. */
  lemma LeafEntryFields(phys: nat, flags: nat)
    ensures Present(LeafEntry(phys, flags))
    ensures PageOf(LeafEntry(phys, flags)) == Or(PageOf(phys), PageOf(flags))
    ensures PageOf(flags) == 0 ==> PageOf(LeafEntry(phys, flags)) == PageOf(phys)
    ensures LowFlags(LeafEntry(phys, flags)) == Or(LowFlags(flags), 1)
    ensures HighFlags(LeafEntry(phys, flags)) == HighFlags(flags)
  {
    PageOfAddress(PageOf(phys));
    AddressHasNoFlags(PageOf(phys));
    OrFields(Or(Masked(phys), flags), 1);
    OrFields(Masked(phys), flags);
    OrFlags(Or(Masked(phys), flags), 1);
    OrFlags(Masked(phys), flags);
    OrZero(PageOf(phys));
    OrZero(Or(PageOf(phys), PageOf(flags)));
    OrZero(LowFlags(flags));
    OrZero(HighFlags(flags));
    hide Or, PageOf, LowFlags, HighFlags;
  }

  /** Both in numbers: bits 0 to 11, bits 12 to 51, and the bits from 52 on. */
  lemma EntriesAre(c: nat, phys: nat, flags: nat)
    requires c < 0x100_0000_0000
    ensures var e := TableEntry(c * 0x1000, flags);
      && e % 0x1000 == Or(1, flags % 0x1000)
      && e / 0x1000 % 0x100_0000_0000 == Or(c, flags / 0x1000 % 0x100_0000_0000)
      && e / 0x1000 / 0x100_0000_0000 == flags / 0x1000 / 0x100_0000_0000
    ensures var e := LeafEntry(phys, flags);
      && e % 0x1000 == Or(flags % 0x1000, 1)
      && e / 0x1000 % 0x100_0000_0000 == Or(phys / 0x1000 % 0x100_0000_0000, flags / 0x1000 % 0x100_0000_0000)
      && e / 0x1000 / 0x100_0000_0000 == flags / 0x1000 / 0x100_0000_0000
  {
    TableEntryFields(c, flags);
    LeafEntryFields(phys, flags);
    TablePage(c, flags);
    hide Or, TableEntry, LeafEntry;
  }

  lemma TablePage(c: nat, flags: nat)
    requires c < 0x100_0000_0000
    ensures PageOf(TableEntry(c * 0x1000, flags)) == Or(c, PageOf(flags))
  {
    PageOfAddress(c);
    OrFields(Or(c * 0x1000, 1), flags);
    OrFields(c * 0x1000, 1);
    OrZero(c);
    hide Or, PageOf;
  }

  /** Or, bit by bit from the lowest. */
  lemma OrBits(x: nat, y: nat)
    ensures Or(x, y) / 2 == Or(x / 2, y / 2) && (Or(x, y) % 2 == 1 <==> x % 2 == 1 || y % 2 == 1)
    ensures Or(0, 0) == 0
  {
    OrHalf(x, y);
    hide Or;
    OrZero(0);
  }

  /** The four indices are the four base-512 digits of the virtual page number. */
  lemma IndicesArePage(v: nat)
    ensures VirtualPage(v) == ((Pml4Index(v) * 512 + PdptIndex(v)) * 512 + PdIndex(v)) * 512 + PtIndex(v)
  {
    var n0 := v / 0x1000;
    var n1 := n0 / 512;
    var n2 := n1 / 512;
    var n3 := n2 / 512;
    Shifts(v);
    Digits(n0, n1, n2, n3, n3 / 512);
  }

  lemma Shifts(v: nat)
    ensures v / 0x20_0000 == v / 0x1000 / 512
    ensures v / 0x4000_0000 == v / 0x20_0000 / 512
    ensures v / 0x80_0000_0000 == v / 0x4000_0000 / 512
  {
    Shift21(v);
    Shift30(v);
    Shift39(v);
  }

  lemma Shift21(v: nat)
    ensures v / 0x20_0000 == v / 0x1000 / 512
  {
  }

  lemma Shift30(v: nat)
    ensures v / 0x4000_0000 == v / 0x20_0000 / 512
  {
  }

  lemma Shift39(v: nat)
    ensures v / 0x80_0000_0000 == v / 0x4000_0000 / 512
  {
  }

  lemma Digits(n0: nat, n1: nat, n2: nat, n3: nat, q: nat)
    requires n1 == n0 / 512 && n2 == n1 / 512 && n3 == n2 / 512 && q == n3 / 512
    ensures n0 % 0x10_0000_0000 == ((n3 % 512 * 512 + n2 % 512) * 512 + n1 % 512) * 512 + n0 % 512
  {
    var d := ((n3 % 512 * 512 + n2 % 512) * 512 + n1 % 512) * 512 + n0 % 512;
    assert n0 == q * 0x10_0000_0000 + d;
    assert 0 <= d < 0x10_0000_0000;
    Field36(n0, q, d);
  }

  lemma Field36(n: nat, q: nat, r: nat)
    requires n == q * 0x10_0000_0000 + r && r < 0x10_0000_0000
    ensures n % 0x10_0000_0000 == r
  {
  }

  /** Two addresses share the four indices exactly when they share the page number. */
  lemma SameIndices(v: nat, w: nat)
    ensures VirtualPage(v) == VirtualPage(w) <==>
      && Pml4Index(v) == Pml4Index(w) && PdptIndex(v) == PdptIndex(w)
      && PdIndex(v) == PdIndex(w) && PtIndex(v) == PtIndex(w)
  {
    IndicesArePage(v);
    IndicesArePage(w);
    hide VirtualPage, Pml4Index, PdptIndex, PdIndex, PtIndex;
  }
}
