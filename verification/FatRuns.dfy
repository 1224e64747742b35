/** The chain structure over whole runs: allocation, freeing, growth and truncation keep live
    chains in range, acyclic, terminated and disjoint, with every other cluster free. */
module FatRuns {
  import opened Words
  import opened FatChains

  // ----- allocation -----

  /** The `count` lowest free clusters. */
  ghost function Picks(f: Fat, count: nat): (r: seq<nat>)
    requires count <= |FreeList(f)|
    ensures AllInRange(r) && Distinct(r) && forall c | c in r :: IsFree(f, c)
    ensures |r| == count
  {
    var r := FreeList(f)[..count];
    assert forall i | 0 <= i < count :: r[i] in FreeList(f);
    r
  }

  /** Linking the picks one by one, each step takes the lowest free cluster of the table so far. */
  lemma {:induction false} PicksAreLowest(f: Fat, i: nat)
    requires i <= |FreeList(f)|
    ensures FreeList(LinkUp(f, Picks(f, i))) == FreeList(f)[i..]
  {
    if i > 0 {
      PicksAreLowest(f, i - 1);
      PickOne(f, i - 1);
    }
  }

  /** One round of allocate_cluster_chain. */
  lemma PickOne(f: Fat, i: nat)
    requires i < |FreeList(f)|
    requires FreeList(LinkUp(f, Picks(f, i))) == FreeList(f)[i..]
    ensures var g, new' := LinkUp(f, Picks(f, i)), FreeList(f)[i];
      && IsFree(g, new') && FindFree(g) == new'
      && Picks(f, i + 1) == Picks(f, i) + [new']
      && LinkUp(f, Picks(f, i + 1)) ==
         (if i == 0 then g[new' := LAST_CLUSTER] else g[new' := LAST_CLUSTER][Picks(f, i)[i - 1] := new'])
      && FreeList(LinkUp(f, Picks(f, i + 1))) == FreeList(f)[i + 1..]
  {
    hide FreeList, IsChain, AllInRange, Distinct;
    var g, picks, new' := LinkUp(f, Picks(f, i)), Picks(f, i), FreeList(f)[i];
    assert FreeList(g)[0] == new';
    FirstFree(g);
    var h := g[new' := LAST_CLUSTER];
    assert FreeList(h) == FreeList(f)[i + 1..] by {
      TakeFirstFree(g, LAST_CLUSTER);
      assert FreeList(f)[i..][1..] == FreeList(f)[i + 1..];
    }
    var more := Picks(f, i + 1);
    assert more == picks + [new'] && more[..|more| - 1] == picks by { PicksGrow(f, i); }
    hide Picks;
    if i > 0 {
      LinkUpMakesChain(f, picks);
      ChainNonZero(g, picks, picks[i - 1]);
      StillTaken(h, picks[i - 1], new');
    }
  }

  lemma PicksGrow(f: Fat, i: nat)
    requires i < |FreeList(f)|
    ensures Picks(f, i + 1) == Picks(f, i) + [FreeList(f)[i]]
    ensures Picks(f, i + 1)[..i] == Picks(f, i)
  {
  }

  /** Rewriting a taken entry frees nothing. */
  lemma StillTaken(f: Fat, c: nat, v: nat)
    requires c < 127006 && f[c] != 0 && 0 < v < 0x1000_0000
    ensures FreeList(f[c := v]) == FreeList(f)
  {
    SameFreeFrom(f, f[c := v], 3);
  }

  lemma ChainNonZero(f: Fat, cs: seq<nat>, c: nat)
    requires IsChain(f, cs) && c in cs
    ensures InRange(c) && f[c] != 0
  {
    var i :| 0 <= i < |cs| && cs[i] == c;
    if i + 1 < |cs| { assert InRange(cs[i + 1]); }
  }

  /** allocate then free is the identity on the table; so is the rollback on exhaustion. */
  lemma AllocateThenFree(f: Fat, count: nat)
    requires 0 < count <= |FreeList(f)|
    ensures FreeChain(LinkUp(f, Picks(f, count)), Picks(f, count)[0]) == (f, true)
  {
    var picks := Picks(f, count);
    var g := LinkUp(f, picks);
    LinkUpMakesChain(f, picks);
    FreeChainOfChain(g, picks);
    var h := FreeChain(g, picks[0]).0;
    assert forall c | 0 <= c < 127006 :: h[c] == f[c];
    assert h == f;
  }

  // ----- growth and truncation -----

  /** fat32_write's growth at the tail of a chain. */
  ghost function GrowStep(f: Fat, tail: nat): (Fat, bool)
    requires InRange(tail)
  {
    var new' := FindFree(f);
    if InRange(new') then (f[tail := new'][new' := LAST_CLUSTER], true) else (f[tail := BAD_CLUSTER], false)
  }

  /** The walk of fat32_truncate: the last two clusters seen after k steps. */
  ghost function Advance(f: Fat, prev: nat, c: nat, k: nat): (nat, nat)
    decreases k
  {
    if k == 0 then (prev, c) else Advance(f, c, Entry(f, c), k - 1)
  }

  /** fat32_truncate's change to the table, keeping k clusters. */
  ghost function CutStep(f: Fat, first: nat, k: nat): (Fat, bool) {
    var (prev, current) := Advance(f, 0, first, k);
    if prev == 0 then (f, true)
    else if !InRange(prev) then (f, false)
    else
      var f' := f[prev := LAST_CLUSTER];
      if current < LAST_CLUSTER && current != 0 then FreeChain(f', current) else (f', true)
  }

  lemma {:induction false} AdvanceOnChain(f: Fat, cs: seq<nat>, i: nat, prev: nat, k: nat)
    requires IsChain(f, cs) && i < |cs| && i + k <= |cs|
    ensures Advance(f, prev, cs[i], k) ==
      (if k == 0 then prev else cs[i + k - 1], if i + k < |cs| then cs[i + k] else f[cs[|cs| - 1]])
      || (k == 0 && Advance(f, prev, cs[i], k) == (prev, cs[i]))
    decreases k
  {
    if k > 0 && i + 1 < |cs| {
      AdvanceOnChain(f, cs, i + 1, cs[i], k - 1);
    }
  }

  /** Cutting a chain to its first k clusters. */
  lemma CutOnChain(f: Fat, cs: seq<nat>, k: nat)
    requires IsChain(f, cs) && 0 < k <= |cs|
    ensures var (f', ok) := CutStep(f, cs[0], k);
      && ok && IsChain(f', cs[..k]) && f'[cs[k - 1]] == 0x0FFF_FFF8
      && forall c | 0 <= c < 127006 && c !in cs[..k] :: f'[c] == if c in cs then 0 else f[c]
  {
    AdvanceOnChain(f, cs, 0, 0, k);
    var kept, rest := cs[..k], cs[k..];
    assert cs == kept + rest;
    var f1 := f[cs[k - 1] := LAST_CLUSTER];
    CutParts(f, cs, k);
    if k < |cs| {
      hide IsChain, Advance;
      FreeChainOfChain(f1, rest);
      var f' := FreeChain(f1, rest[0]).0;
      ChainElsewhere(f1, f', kept);
    } else {
      assert kept == cs;
    }
  }

  /** Terminating a chain early leaves two chains without a common cluster. */
  lemma CutParts(f: Fat, cs: seq<nat>, k: nat)
    requires IsChain(f, cs) && 0 < k <= |cs|
    ensures var f1 := f[cs[k - 1] := LAST_CLUSTER];
      && IsChain(f1, cs[..k])
      && (k < |cs| ==> IsChain(f1, cs[k..]))
      && forall c | c in cs[..k] :: c !in cs[k..]
  {
  }

  // ----- the invariant -----

  ghost predicate Disjoint(a: seq<nat>, b: seq<nat>) {
    forall c | c in a :: c !in b
  }

  ghost predicate InSome(chains: set<seq<nat>>, c: nat) {
    exists cs :: cs in chains && c in cs
  }

  /** The live chains are chains, pairwise disjoint, and every other cluster is free. */
  ghost predicate Sound(f: Fat, chains: set<seq<nat>>) {
    && (forall cs | cs in chains :: IsChain(f, cs))
    && (forall a, b | a in chains && b in chains && a != b :: Disjoint(a, b))
    && (forall c: nat | InRange(c) && f[c] != 0 :: InSome(chains, c))
  }

  /** Some set of chains accounts for the table. */
  ghost predicate Accounted(f: Fat) {
    exists chains :: Sound(f, chains)
  }

  lemma ChainElsewhere(f: Fat, f': Fat, cs: seq<nat>)
    requires IsChain(f, cs) && forall c | c in cs :: 0 <= c < 127006 ==> f'[c] == f[c]
    ensures IsChain(f', cs)
  {
    assert forall i | 0 <= i < |cs| :: cs[i] in cs;
  }

  /** The table f' differs from f only on clusters of the chains `gone` and on free clusters, and
      the chains `made` hold exactly the clusters so touched that are now in use. */
  ghost predicate Swap(f: Fat, f': Fat, gone: set<seq<nat>>, made: set<seq<nat>>) {
    && (forall cs | cs in made :: IsChain(f', cs))
    && (forall a, b | a in made && b in made && a != b :: Disjoint(a, b))
    && (forall c | InSome(made, c) :: IsFree(f, c) || InSome(gone, c))
    && (forall c: nat | c < 127006 && f[c] != 0 && !InSome(gone, c) :: f'[c] == f[c])
    && (forall c: nat | InRange(c) && f'[c] != 0 && (f[c] == 0 || InSome(gone, c)) :: InSome(made, c))
  }

  lemma Untouched(f: Fat, f': Fat, chains: set<seq<nat>>, gone: set<seq<nat>>, made: set<seq<nat>>, cs: seq<nat>)
    requires Sound(f, chains) && gone <= chains && Swap(f, f', gone, made) && cs in chains - gone
    ensures IsChain(f', cs)
    ensures forall c | c in cs :: !InSome(made, c) && !InSome(gone, c)
  {
    hide IsChain;
    assert forall g | g in gone :: Disjoint(cs, g);
    forall c | c in cs ensures InRange(c) && !InSome(made, c) && !InSome(gone, c) && f'[c] == f[c] {
      ChainNonZero(f, cs, c);
    }
    ChainElsewhere(f, f', cs);
  }

  /** Such a swap keeps the invariant. */
  lemma SwapKeeps(f: Fat, f': Fat, chains: set<seq<nat>>, gone: set<seq<nat>>, made: set<seq<nat>>)
    requires Sound(f, chains) && gone <= chains && Swap(f, f', gone, made)
    ensures Sound(f', chains - gone + made)
  {
    hide IsChain;
    var result := chains - gone + made;
    forall cs | cs in result ensures IsChain(f', cs) {
      if cs in chains - gone { Untouched(f, f', chains, gone, made, cs); }
    }
    forall a, b | a in result && b in result && a != b ensures Disjoint(a, b) {
      SwapDisjoint(f, f', chains, gone, made, a, b);
    }
    forall c: nat | InRange(c) && f'[c] != 0 ensures InSome(result, c) {
      if f[c] == 0 || InSome(gone, c) {
        var cs :| cs in made && c in cs;
        assert cs in result;
      } else {
        assert InSome(chains, c);
        var cs :| cs in chains && c in cs;
        assert cs in result;
      }
    }
  }

  lemma SwapDisjoint(f: Fat, f': Fat, chains: set<seq<nat>>, gone: set<seq<nat>>, made: set<seq<nat>>, a: seq<nat>, b: seq<nat>)
    requires Sound(f, chains) && gone <= chains && Swap(f, f', gone, made)
    requires a in chains - gone + made && b in chains - gone + made && a != b
    ensures Disjoint(a, b)
  {
    hide IsChain;
    if a in made && b in made {
    } else if a in chains - gone && b in chains - gone {
    } else if a in chains - gone {
      Untouched(f, f', chains, gone, made, a);
      assert forall c :: c in b ==> InSome(made, c);
    } else {
      Untouched(f, f', chains, gone, made, b);
      assert forall c :: c in a ==> InSome(made, c);
    }
  }

  lemma SingleChain(cs: seq<nat>)
    ensures forall c :: InSome({cs}, c) <==> c in cs
    ensures forall c :: !InSome({}, c)
  {
    assert cs in {cs};
  }

  /** Replacing one chain. */
  lemma SwapOne(f: Fat, f': Fat, chains: set<seq<nat>>, o: seq<nat>, n: seq<nat>)
    requires Sound(f, chains) && o in chains && IsChain(f', n)
    requires forall c | c in n :: IsFree(f, c) || c in o
    requires forall c: nat | c < 127006 && f[c] != 0 && c !in o :: f'[c] == f[c]
    requires forall c: nat | InRange(c) && f'[c] != 0 && (f[c] == 0 || c in o) :: c in n
    ensures Sound(f', chains - {o} + {n})
  {
    hide IsChain, Sound, IsFree;
    SingleChain(o);
    SingleChain(n);
    SwapKeeps(f, f', chains, {o}, {n});
  }

  /** Adding a chain made of free clusters. */
  lemma AddOne(f: Fat, f': Fat, chains: set<seq<nat>>, n: seq<nat>)
    requires Sound(f, chains) && IsChain(f', n)
    requires forall c | c in n :: IsFree(f, c)
    requires forall c: nat | c < 127006 && c !in n :: f'[c] == f[c]
    ensures Sound(f', chains + {n})
  {
    hide IsChain, Sound;
    SingleChain(n);
    SwapKeeps(f, f', chains, {}, {n});
    assert chains - {} + {n} == chains + {n};
  }

  /** Removing a chain whose clusters are cleared. */
  lemma RemoveOne(f: Fat, f': Fat, chains: set<seq<nat>>, o: seq<nat>)
    requires Sound(f, chains) && o in chains && Cleared(f, f', o)
    ensures Sound(f', chains - {o})
  {
    hide IsChain, Sound;
    SingleChain(o);
    SwapKeeps(f, f', chains, {o}, {});
    assert chains - {o} + {} == chains - {o};
  }

  lemma AllocateKeeps(f: Fat, chains: set<seq<nat>>, count: nat)
    requires Sound(f, chains) && 0 < count <= |FreeList(f)|
    ensures Sound(LinkUp(f, Picks(f, count)), chains + {Picks(f, count)})
  {
    hide LinkUp, Picks;
    LinkUpMakesChain(f, Picks(f, count));
    AddOne(f, LinkUp(f, Picks(f, count)), chains, Picks(f, count));
  }

  lemma FreeKeeps(f: Fat, chains: set<seq<nat>>, cs: seq<nat>)
    requires Sound(f, chains) && cs in chains && IsChain(f, cs)
    ensures Sound(FreeChain(f, cs[0]).0, chains - {cs})
  {
    hide FreeChain;
    FreeChainOfChain(f, cs);
    RemoveOne(f, FreeChain(f, cs[0]).0, chains, cs);
  }

  /** Growing a chain by the lowest free cluster. */
  lemma GrowOnChain(f: Fat, cs: seq<nat>)
    requires IsChain(f, cs) && FreeList(f) != []
    ensures var (f', ok), new' := GrowStep(f, cs[|cs| - 1]), FreeList(f)[0];
      && ok && IsFree(f, new') && new' !in cs
      && IsChain(f', cs + [new']) && f'[new'] == 0x0FFF_FFF8
      && forall c | 0 <= c < 127006 && c != cs[|cs| - 1] && c != new' :: f'[c] == f[c]
  {
    FirstFree(f);
    var new' := FreeList(f)[0];
    if new' in cs { ChainNonZero(f, cs, new'); }
  }

  lemma GrowKeeps(f: Fat, chains: set<seq<nat>>, cs: seq<nat>)
    requires Sound(f, chains) && cs in chains && IsChain(f, cs) && FreeList(f) != []
    ensures Sound(GrowStep(f, cs[|cs| - 1]).0, chains - {cs} + {cs + [FreeList(f)[0]]})
  {
    hide GrowStep;
    GrowOnChain(f, cs);
    var f', new', grown := GrowStep(f, cs[|cs| - 1]).0, FreeList(f)[0], cs + [FreeList(f)[0]];
    assert cs[|cs| - 1] in cs;
    hide IsChain, FreeList, Sound;
    assert forall c :: c in grown <==> c in cs || c == new';
    SwapOne(f, f', chains, cs, grown);
  }

  /** On a full volume growth links the tail to the bad-cluster mark: afterwards no set of chains
      at all accounts for the table. */
  lemma GrowOnFullBreaks(f: Fat, tail: nat)
    requires InRange(tail) && FreeList(f) == []
    ensures GrowStep(f, tail) == (f[tail := 0x0FFF_FFF7], false)
    ensures !Accounted(GrowStep(f, tail).0)
  {
    var f' := GrowStep(f, tail).0;
    hide GrowStep, FreeList;
    forall chains ensures !Sound(f', chains) {
      if Sound(f', chains) { BadTail(f', tail, chains); }
    }
  }

  lemma BadTail(f: Fat, tail: nat, chains: set<seq<nat>>)
    requires InRange(tail) && f[tail] == BAD_CLUSTER
    ensures !Sound(f, chains)
  {
    if InSome(chains, tail) {
      var cs :| cs in chains && tail in cs;
      var i :| 0 <= i < |cs| && cs[i] == tail;
      assert AllInRange(cs) ==> (i + 1 < |cs| ==> InRange(cs[i + 1]));
    }
  }

  /** Growth keeps the structure exactly when some cluster is free. */
  lemma GrowKeepsIff(f: Fat, chains: set<seq<nat>>, cs: seq<nat>)
    requires Sound(f, chains) && cs in chains && IsChain(f, cs)
    ensures Accounted(GrowStep(f, cs[|cs| - 1]).0) <==> exists c :: IsFree(f, c)
  {
    hide GrowStep, Sound;
    if FreeList(f) != [] {
      FirstFree(f);
      GrowKeeps(f, chains, cs);
    } else {
      GrowOnFullBreaks(f, cs[|cs| - 1]);
      assert forall c :: IsFree(f, c) ==> c in FreeList(f);
    }
  }

  lemma CutKeeps(f: Fat, chains: set<seq<nat>>, cs: seq<nat>, k: nat)
    requires Sound(f, chains) && cs in chains && IsChain(f, cs) && 0 < k <= |cs|
    ensures Sound(CutStep(f, cs[0], k).0, chains - {cs} + {cs[..k]})
  {
    CutOnChain(f, cs, k);
    hide CutStep, IsChain, Sound;
    var f', kept := CutStep(f, cs[0], k).0, cs[..k];
    assert forall c :: c in kept ==> c in cs;
    SwapOne(f, f', chains, cs, kept);
  }

  // ----- runs -----

  datatype Op =
    | Allocate(count: nat)
    | Free(chain: seq<nat>)
    | Grow(chain: seq<nat>)
    | Cut(chain: seq<nat>, keep: nat)

  /** What a caller knows before the operation: the chain is live, a growing volume has a free
      cluster, a truncation keeps at least one cluster. */
  ghost predicate Enabled(op: Op, f: Fat, chains: set<seq<nat>>) {
    match op
    case Allocate(_) => true
    case Free(cs) => cs in chains && cs != []
    case Grow(cs) => cs in chains && cs != [] && InRange(cs[|cs| - 1]) && FreeList(f) != []
    case Cut(cs, keep) => cs in chains && 0 < keep <= |cs|
  }

  /** The driver's change to the table. */
  ghost function FatAfter(op: Op, f: Fat, chains: set<seq<nat>>): Fat
    requires Enabled(op, f, chains)
  {
    match op
    case Allocate(count) => if 0 < count <= |FreeList(f)| then LinkUp(f, Picks(f, count)) else f
    case Free(cs) => FreeChain(f, cs[0]).0
    case Grow(cs) => GrowStep(f, cs[|cs| - 1]).0
    case Cut(cs, keep) => CutStep(f, cs[0], keep).0
  }

  /** The change to the set of live chains it stands for. */
  ghost function ChainsAfter(op: Op, f: Fat, chains: set<seq<nat>>): set<seq<nat>>
    requires Enabled(op, f, chains)
  {
    match op
    case Allocate(count) => if 0 < count <= |FreeList(f)| then chains + {Picks(f, count)} else chains
    case Free(cs) => chains - {cs}
    case Grow(cs) => chains - {cs} + {cs + [FreeList(f)[0]]}
    case Cut(cs, keep) => chains - {cs} + {cs[..keep]}
  }

  ghost predicate ValidRun(f: Fat, chains: set<seq<nat>>, ops: seq<Op>)
    decreases |ops|
  {
    ops == [] ||
    (Enabled(ops[0], f, chains) && ValidRun(FatAfter(ops[0], f, chains), ChainsAfter(ops[0], f, chains), ops[1..]))
  }

  ghost function Run(f: Fat, chains: set<seq<nat>>, ops: seq<Op>): (Fat, set<seq<nat>>)
    requires ValidRun(f, chains, ops)
    decreases |ops|
  {
    if ops == [] then (f, chains)
    else Run(FatAfter(ops[0], f, chains), ChainsAfter(ops[0], f, chains), ops[1..])
  }

  /** Every step keeps the chain structure. */
  lemma StepKeepsSound(op: Op, f: Fat, chains: set<seq<nat>>)
    requires Sound(f, chains) && Enabled(op, f, chains)
    ensures Sound(FatAfter(op, f, chains), ChainsAfter(op, f, chains))
  {
    hide IsChain, LinkUp, FreeChain, GrowStep, CutStep, FreeList, Picks;
    match op {
      case Allocate(count) => if 0 < count <= |FreeList(f)| { AllocateKeeps(f, chains, count); }
      case Free(cs) => FreeKeeps(f, chains, cs);
      case Grow(cs) => GrowKeeps(f, chains, cs);
      case Cut(cs, keep) => CutKeeps(f, chains, cs, keep);
    }
  }

  /** Every run keeps the chain structure. */
  lemma {:induction false} RunKeepsSound(f: Fat, chains: set<seq<nat>>, ops: seq<Op>)
    requires Sound(f, chains) && ValidRun(f, chains, ops)
    ensures Sound(Run(f, chains, ops).0, Run(f, chains, ops).1)
    decreases |ops|
  {
    if ops != [] {
      StepKeepsSound(ops[0], f, chains);
      RunKeepsSound(FatAfter(ops[0], f, chains), ChainsAfter(ops[0], f, chains), ops[1..]);
    }
  }
}
