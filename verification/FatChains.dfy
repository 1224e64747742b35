/** Cluster chains over the abstract 28-bit file allocation table: the chain functions of
    kernel/drivers/fs/fat32.c as functions on the table, and what they do to chains. */
module FatChains {
  import opened Words

  /** The FAT marks the driver uses; its cluster count is 127006. */
  const FREE_CLUSTER: nat := 0
  const BAD_CLUSTER: nat := 0x0FFF_FFF7
  const LAST_CLUSTER: nat := 0x0FFF_FFF8

  /** The table: one 28-bit value a cluster. */
  type Fat = f: seq<nat> | |f| == 127006 && forall c | 0 <= c < 127006 :: f[c] < 0x1000_0000
    witness seq(127006, i => 0)

  predicate InRange(c: nat) { 2 <= c < 127006 }

  /** read_fat_entry on the table. */
  function Entry(f: Fat, c: nat): nat {
    if InRange(c) then f[c] else BAD_CLUSTER
  }

  /** A terminated, acyclic chain of clusters in range. */
  ghost predicate IsChain(f: Fat, cs: seq<nat>) {
    && cs != []
    && AllInRange(cs)
    && (forall i | 0 <= i < |cs| - 1 :: f[cs[i]] == cs[i + 1])
    && f[cs[|cs| - 1]] >= LAST_CLUSTER
    && Distinct(cs)
  }

  /** In numbers: the clusters are 2 to 127005, each entry leads to the next cluster, and the last one is
      0x0FFFFFF8 or more. */
  lemma ChainMeans(f: Fat, cs: seq<nat>)
    ensures IsChain(f, cs) <==>
      && cs != [] && (forall i | 0 <= i < |cs| :: 2 <= cs[i] < 127006)
      && (forall i, j | 0 <= i < j < |cs| :: cs[i] != cs[j])
      && (forall i | 0 <= i < |cs| - 1 :: f[cs[i]] == cs[i + 1]) && f[cs[|cs| - 1]] >= 0x0FFF_FFF8
  {
  }

  ghost predicate Distinct(cs: seq<nat>) {
    forall i, j | 0 <= i < j < |cs| :: cs[i] != cs[j]
  }

  /** Which clusters find_free_cluster considers. */
  ghost predicate IsFree(f: Fat, c: nat) {
    3 <= c < 127006 && f[c] == 0
  }

  /** The free clusters from c up, in ascending order. */
  ghost function FreeFrom(f: Fat, c: nat): (r: seq<nat>)
    requires c <= 127006
    ensures forall x :: x in r <==> c <= x < 127006 && f[x] == 0
    ensures forall i, j | 0 <= i < j < |r| :: r[i] < r[j]
    decreases 127006 - c
  {
    if c == 127006 then []
    else
      var rest := FreeFrom(f, c + 1);
      assert forall i | 0 <= i < |rest| :: rest[i] in rest;
      if f[c] == 0 then [c] + rest else rest
  }

  /** All free clusters, lowest first. */
  ghost function FreeList(f: Fat): (r: seq<nat>)
    ensures forall x :: x in r <==> IsFree(f, x)
    ensures forall i, j | 0 <= i < j < |r| :: r[i] < r[j]
  {
    FreeFrom(f, 3)
  }

  /** find_free_cluster: the lowest free cluster, or the bad-cluster mark when there is none. */
  ghost function FindFree(f: Fat): nat {
    if FreeList(f) == [] then BAD_CLUSTER else FreeList(f)[0]
  }

  lemma FirstFree(f: Fat)
    requires FreeList(f) != []
    ensures IsFree(f, FreeList(f)[0])
  {
    assert FreeList(f)[0] in FreeList(f);
  }

  /** Taking the lowest free cluster leaves the rest of the list. */
  lemma TakeFirstFree(f: Fat, v: nat)
    requires FreeList(f) != [] && FreeList(f)[0] < 127006 && 0 < v < 0x1000_0000
    ensures FreeList(f[FreeList(f)[0] := v]) == FreeList(f)[1..]
  {
    TakeFreeFrom(f, 3, v);
  }

  lemma {:induction false} TakeFreeFrom(f: Fat, c: nat, v: nat)
    requires c <= 127006 && FreeFrom(f, c) != [] && FreeFrom(f, c)[0] < 127006 && 0 < v < 0x1000_0000
    ensures FreeFrom(f[FreeFrom(f, c)[0] := v], c) == FreeFrom(f, c)[1..]
    decreases 127006 - c
  {
    if f[c] == 0 {
      SameFreeFrom(f, f[c := v], c + 1);
    } else {
      TakeFreeFrom(f, c + 1, v);
    }
  }

  /** The list depends only on which entries from c up are zero. */
  lemma {:induction false} SameFreeFrom(f: Fat, g: Fat, c: nat)
    requires c <= 127006
    requires forall x | c <= x < 127006 :: f[x] == 0 <==> g[x] == 0
    ensures FreeFrom(f, c) == FreeFrom(g, c)
    decreases 127006 - c
  {
    if c < 127006 { SameFreeFrom(f, g, c + 1); }
  }

  // ----- linking -----

  ghost predicate AllInRange(cs: seq<nat>) {
    forall i | 0 <= i < |cs| :: InRange(cs[i])
  }

  /** Link the clusters cs into a terminated chain. */
  ghost function LinkUp(f: Fat, cs: seq<nat>): Fat
    requires AllInRange(cs)
  {
    var n := |cs|;
    if n == 0 then f
    else if n == 1 then f[cs[0] := LAST_CLUSTER]
    else LinkUp(f, cs[..n - 1])[cs[n - 1] := LAST_CLUSTER][cs[n - 2] := cs[n - 1]]
  }

  lemma {:induction false} LinkUpMakesChain(f: Fat, cs: seq<nat>)
    requires cs != [] && Distinct(cs) && AllInRange(cs)
    ensures IsChain(LinkUp(f, cs), cs)
    ensures forall c | 0 <= c < 127006 && c !in cs :: LinkUp(f, cs)[c] == f[c]
  {
    var n := |cs|;
    if n > 1 {
      LinkUpMakesChain(f, cs[..n - 1]);
    }
  }

  /** The end mark the driver writes. */
  lemma LinkUpEnds(f: Fat, cs: seq<nat>)
    requires cs != [] && Distinct(cs) && AllInRange(cs)
    ensures LinkUp(f, cs)[cs[|cs| - 1]] == 0x0FFF_FFF8
  {
    var n := |cs|;
    if n > 1 { assert cs[n - 2] != cs[n - 1]; }
  }

  // ----- freeing -----

  ghost function NonZero(f: Fat): set<nat> {
    set c: nat | c < 127006 && f[c] != 0
  }

  /** free_cluster_chain: the table it leaves and whether it reports success. */
  ghost function FreeChain(f: Fat, c: nat): (Fat, bool)
    decreases |NonZero(f)|
  {
    if c >= LAST_CLUSTER then (f, true)
    else if !InRange(c) then (f, false)
    else
      var next := f[c];
      var f' := f[c := 0];
      if next >= LAST_CLUSTER || next == 0 then (f', true)
      else
        FewerNonZero(f, c);
        FreeChain(f', next)
  }

  lemma FewerNonZero(f: Fat, c: nat)
    requires c < 127006 && f[c] != 0
    ensures |NonZero(f[c := 0])| < |NonZero(f)|
  {
    assert NonZero(f[c := 0]) == NonZero(f) - {c};
  }

  /** The table with the clusters of cs cleared. */
  ghost predicate Cleared(f: Fat, f': Fat, cs: seq<nat>) {
    forall c | 0 <= c < 127006 :: f'[c] == if c in cs then 0 else f[c]
  }

  /** Freeing a chain from its i-th cluster on clears exactly the clusters from there. */
  lemma {:induction false} FreeChainOfChain(f: Fat, cs: seq<nat>)
    requires IsChain(f, cs)
    ensures FreeChain(f, cs[0]).1 && Cleared(f, FreeChain(f, cs[0]).0, cs)
    decreases |cs|
  {
    if |cs| > 1 {
      var f' := f[cs[0] := 0];
      assert IsChain(f', cs[1..]);
      FreeChainOfChain(f', cs[1..]);
      assert cs == [cs[0]] + cs[1..];
    }
  }

  /** The cluster n steps along the table from c, while the values stay in range. */
  ghost function Follow(f: Fat, c: nat, n: nat): Option<nat> {
    if n == 0 then (if InRange(c) then Some(c) else None)
    else match Follow(f, c, n - 1)
      case None => None
      case Some(y) => if InRange(f[y]) then Some(f[y]) else None
  }

  ghost predicate OnPath(f: Fat, c: nat, x: nat) {
    exists n: nat :: Follow(f, c, n) == Some(x)
  }

  /** Following from the second cluster is following one step further. */
  lemma {:induction false} FollowNext(f: Fat, c: nat, n: nat)
    requires InRange(c)
    ensures Follow(f, c, n + 1) == Follow(f, f[c], n)
  {
    if n > 0 { FollowNext(f, c, n - 1); }
  }

  lemma {:induction false} FollowInRange(f: Fat, c: nat, n: nat)
    ensures Follow(f, c, n).Some? ==> InRange(Follow(f, c, n).value)
  {
  }

  /** A path that avoids the cleared cluster is the same in both tables. */
  lemma {:induction false} FollowAvoiding(f: Fat, c: nat, start: nat, n: nat)
    requires InRange(c)
    requires forall k: nat | k < n :: Follow(f, start, k) != Some(c)
    ensures forall k: nat | k <= n :: Follow(f[c := 0], start, k) == Follow(f, start, k)
  {
    if n > 0 {
      FollowAvoiding(f, c, start, n - 1);
      FollowInRange(f, start, n - 1);
    }
  }

  /** Clearing c cuts nothing but c off the path that starts right after c. */
  lemma {:induction false} PathAfterClear(f: Fat, c: nat, n: nat, x: nat)
    requires InRange(c) && Follow(f, f[c], n) == Some(x)
    ensures x == c || OnPath(f[c := 0], f[c], x)
    decreases n
  {
    if k: nat :| k < n && Follow(f, f[c], k) == Some(c) {
      FollowAdd(f, f[c], k, n - k);
      FollowNext(f, c, n - k - 1);
      PathAfterClear(f, c, n - k - 1, x);
    } else {
      FollowAvoiding(f, c, f[c], n);
    }
  }

  lemma {:induction false} FollowAdd(f: Fat, c: nat, k: nat, j: nat)
    requires Follow(f, c, k).Some?
    ensures Follow(f, c, k + j) == Follow(f, Follow(f, c, k).value, j)
    decreases j
  {
    FollowInRange(f, c, k);
    if j > 0 { FollowAdd(f, c, k, j - 1); }
  }

  /** A path in the table with c cleared is a path in the table. */
  lemma {:induction false} PathBeforeClear(f: Fat, c: nat, start: nat, n: nat)
    requires InRange(c)
    ensures Follow(f[c := 0], start, n).Some? ==> Follow(f, start, n) == Follow(f[c := 0], start, n)
  {
    if n > 0 { PathBeforeClear(f, c, start, n - 1); }
  }

  /** free_cluster_chain, on any table at all (cyclic or corrupt): it ends, and it clears exactly
      the in-range clusters on the path from its argument. */
  lemma {:induction false} FreeChainClearsPath(f: Fat, c: nat, x: nat)
    requires x < 127006
    ensures FreeChain(f, c).0[x] == if OnPath(f, c, x) then 0 else f[x]
    decreases |NonZero(f)|
  {
    if !InRange(c) {
      NoPathFrom(f, c, x);
    } else {
      assert Follow(f, c, 0) == Some(c);
      var next, f' := f[c], f[c := 0];
      if next >= LAST_CLUSTER || next == 0 {
        NoPathFrom(f, next, x);
        PathSplit(f, c, x);
      } else {
        FewerNonZero(f, c);
        FreeChainClearsPath(f', next, x);
        PathAfterFirst(f, c, x);
      }
    }
  }

  /** A value that ends the walk without success: no cluster, no end mark and not free. */
  predicate Stray(v: nat) { v == 1 || 127006 <= v <= 0x0FFF_FFF7 }

  /** And it reports success exactly when the path from its argument does not end at such a value. */
  lemma {:induction false} FreeChainSucceeds(f: Fat, c: nat)
    ensures FreeChain(f, c).1 <==>
      c >= 0x0FFF_FFF8 || (2 <= c < 127006 && forall x: nat | OnPath(f, c, x) :: x < 127006 && !Stray(f[x]))
    decreases |NonZero(f)|
  {
    PathInRange(f, c);
    if InRange(c) {
      var next, f' := f[c], f[c := 0];
      assert OnPath(f, c, c) by { assert Follow(f, c, 0) == Some(c); }
      if next >= LAST_CLUSTER || next == 0 {
        forall x: nat ensures OnPath(f, c, x) ==> x == c { PathSplit(f, c, x); NoPathFrom(f, next, x); }
      } else {
        FewerNonZero(f, c);
        FreeChainSucceeds(f', next);
        PathInRange(f', next);
        hide OnPath;
        forall x: nat ensures OnPath(f, c, x) <==> x == c || OnPath(f', next, x) { PathAfterFirst(f, c, x); }
        hide NonZero;
      }
    }
  }

  lemma PathInRange(f: Fat, c: nat)
    ensures forall x: nat | OnPath(f, c, x) :: InRange(x)
  {
    forall x: nat | OnPath(f, c, x) ensures InRange(x) {
      var n: nat :| Follow(f, c, n) == Some(x);
      FollowInRange(f, c, n);
    }
  }

  /** The path from a cluster is that cluster and the path that is left when it is cleared. */
  lemma PathAfterFirst(f: Fat, c: nat, x: nat)
    requires InRange(c)
    ensures OnPath(f, c, x) <==> x == c || OnPath(f[c := 0], f[c], x)
  {
    var next, f' := f[c], f[c := 0];
    PathSplit(f, c, x);
    if OnPath(f, next, x) {
      var n: nat :| Follow(f, next, n) == Some(x);
      PathAfterClear(f, c, n, x);
    }
    if OnPath(f', next, x) {
      var n: nat :| Follow(f', next, n) == Some(x);
      PathBeforeClear(f, c, next, n);
    }
  }

  lemma {:induction false} NoFollowFrom(f: Fat, c: nat, n: nat)
    requires !InRange(c)
    ensures Follow(f, c, n) == None
  {
    if n > 0 { NoFollowFrom(f, c, n - 1); }
  }

  lemma NoPathFrom(f: Fat, c: nat, x: nat)
    requires !InRange(c)
    ensures !OnPath(f, c, x)
  {
    forall n ensures Follow(f, c, n) != Some(x) { NoFollowFrom(f, c, n); }
  }

  lemma PathSplit(f: Fat, c: nat, x: nat)
    requires InRange(c)
    ensures OnPath(f, c, x) <==> x == c || OnPath(f, f[c], x)
  {
    if OnPath(f, c, x) {
      var n: nat :| Follow(f, c, n) == Some(x);
      if n > 0 { FollowNext(f, c, n - 1); }
    }
    if x == c { assert Follow(f, c, 0) == Some(x); }
    if OnPath(f, f[c], x) {
      var n: nat :| Follow(f, f[c], n) == Some(x);
      FollowNext(f, c, n);
    }
  }
}
