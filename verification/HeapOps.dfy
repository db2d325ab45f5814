/** Allocation, release and in-place growth on the abstract heap, and what every run of them keeps. */
module HeapOps {
  import opened Dyadic
  import opened Tiling

  ghost predicate Sound(m: Heap) {
    Tiles(m) && Coalesced(m)
  }

  // ----- allocation

  ghost predicate Fits(m: Heap, a: nat, size: nat) {
    a in m && m[a].free && size <= Payload(m[a].order)
  }

  /** The block GetFreeBlock takes: lowest address within the smallest sufficient order. */
  ghost predicate FirstFit(m: Heap, size: nat, a: nat) {
    && Fits(m, a, size)
    && forall b | Fits(m, b, size) :: m[a].order < m[b].order || (m[a].order == m[b].order && a <= b)
  }

  /** Halve a live block while its half still holds `size` bytes. */
  ghost function SplitDown(m: Heap, a: nat, size: nat): (m': Heap)
    requires a in m
    ensures a in m'
    decreases m[a].order
  {
    if m[a].order > 0 && size <= Payload(m[a].order - 1) then SplitDown(Halve(m, a), a, size) else m
  }

  ghost function Alloc(m: Heap, a: nat, size: nat): (m': Heap)
    requires a in m
    ensures a in m'
  {
    SplitDown(Claim(m, a), a, size)
  }

  /** m' is m with a live block at `a` of the least order that holds `size` bytes, cut out of free space. */
  ghost predicate Carved(m: Heap, m': Heap, a: nat, size: nat) {
    && Sound(m') && LiveAt(m', a) && m.Keys <= m'.Keys
    && size <= Payload(m'[a].order) && (m'[a].order > 0 ==> Payload(m'[a].order - 1) < size)
    && Live(m') == Live(m)[a := m'[a]]
  }

  lemma {:induction false} SplitDownKeeps(m: Heap, a: nat, size: nat)
    requires Sound(m) && LiveAt(m, a) && size <= Payload(m[a].order)
    ensures Carved(m, SplitDown(m, a, size), a, size)
    decreases m[a].order
  {
    if m[a].order > 0 && size <= Payload(m[a].order - 1) {
      HalveKeeps(m, a);
      SplitDownKeeps(Halve(m, a), a, size);
      CarvedFrom(m, Halve(m, a), SplitDown(Halve(m, a), a, size), a, Block(m[a].order - 1, false), size);
    } else {
      assert Live(m)[a := m[a]] == Live(m);
    }
  }

  /** A block carved out of c was carved out of m, if c has only replaced the block and added others. */
  lemma CarvedFrom(m: Heap, c: Heap, m': Heap, a: nat, b: Block, size: nat)
    requires m.Keys <= c.Keys && Live(c) == Live(m)[a := b] && Carved(c, m', a, size)
    ensures Carved(m, m', a, size)
  {
  }

  /** Allocation returns a block of the least order that holds `size` bytes and touches no live block. */
  lemma AllocKeeps(m: Heap, a: nat, size: nat)
    requires Sound(m) && Fits(m, a, size)
    ensures Carved(m, Alloc(m, a, size), a, size)
  {
    ClaimKeeps(m, a);
    SplitDownKeeps(Claim(m, a), a, size);
    CarvedFrom(m, Claim(m, a), Alloc(m, a, size), a, Block(m[a].order, false), size);
  }

  // ----- release

  /** What a merge loop is after: all it can get, or a payload of at least `size` bytes. */
  datatype Goal = Everything | AtLeast(size: nat)

  /** A block with a payload of `bytes` is to be merged further if it can. */
  predicate Wants(goal: Goal, bytes: nat) {
    goal.AtLeast? ==> bytes < goal.size
  }

  /** Merge a live block with free buddies of its own order as long as there is one and the goal asks for it. */
  ghost function MergeTo(m: Heap, a: nat, goal: Goal): (Heap, nat)
    requires a in m
    decreases MAX_ORDER - m[a].order
  {
    if CanAbsorb(m, a) && Wants(goal, Payload(m[a].order))
    then MergeTo(Absorb(m, a), Parent(a, m[a].order), goal)
    else (m, a)
  }

  ghost function MergeUp(m: Heap, a: nat): (Heap, nat)
    requires a in m
  {
    MergeTo(m, a, Everything)
  }

  ghost function Free(m: Heap, a: nat): Heap
    requires a in m
  {
    var (m', a') := MergeUp(m, a);
    if a' in m' then Release(m', a') else m'
  }

  /** m' is m with the live block at `a` extended, over free space only, to the live block at `a'`. */
  ghost predicate Merged(m: Heap, a: nat, m': Heap, a': nat) {
    && Sound(m') && LiveAt(m, a) && LiveAt(m', a') && m'.Keys <= m.Keys
    && a' !in Live(m) - {a} && Live(m') == (Live(m) - {a})[a' := m'[a']]
    && a' <= a && End(m, a) <= End(m', a') && m[a].order <= m'[a'].order
  }

  lemma MergedSelf(m: Heap, a: nat)
    requires Sound(m) && LiveAt(m, a)
    ensures Merged(m, a, m, a)
  {
    assert (Live(m) - {a})[a := m[a]] == Live(m);
  }

  lemma MergedOnce(m: Heap, a: nat)
    requires Sound(m) && LiveAt(m, a) && CanAbsorb(m, a)
    ensures Merged(m, a, Absorb(m, a), Parent(a, m[a].order))
  {
    AbsorbKeeps(m, a);
    PairOf(m, a);
  }

  lemma MergedTrans(m: Heap, a: nat, m1: Heap, a1: nat, m2: Heap, a2: nat)
    requires Merged(m, a, m1, a1) && Merged(m1, a1, m2, a2)
    ensures Merged(m, a, m2, a2)
  {
    assert Live(m1) - {a1} == Live(m) - {a};
  }

  lemma {:induction false} MergeToKeeps(m: Heap, a: nat, goal: Goal)
    requires Sound(m) && LiveAt(m, a)
    ensures var (m', a') := MergeTo(m, a, goal);
            Merged(m, a, m', a') && (Wants(goal, Payload(m'[a'].order)) ==> !CanAbsorb(m', a'))
    decreases MAX_ORDER - m[a].order
  {
    if CanAbsorb(m, a) && Wants(goal, Payload(m[a].order)) {
      var m1, p := Absorb(m, a), Parent(a, m[a].order);
      MergedOnce(m, a);
      MergeToKeeps(m1, p, goal);
      MergedTrans(m, a, m1, p, MergeTo(m1, p, goal).0, MergeTo(m1, p, goal).1);
    } else {
      MergedSelf(m, a);
    }
  }

  lemma FreeKeeps(m: Heap, a: nat)
    requires Sound(m) && LiveAt(m, a)
    ensures Sound(Free(m, a)) && Live(Free(m, a)) == Live(m) - {a} && Free(m, a).Keys <= m.Keys
  {
    MergeToKeeps(m, a, Everything);
    var (m', a') := MergeUp(m, a);
    ReleaseKeeps(m', a');
    assert Live(m') - {a'} == Live(m) - {a};
  }

  // ----- in-place growth

  /** Merge as release does, but only while the block is smaller than `size` bytes. */
  ghost function Grow(m: Heap, a: nat, size: nat): (Heap, nat)
    requires a in m
  {
    MergeTo(m, a, AtLeast(size))
  }

  lemma GrowKeeps(m: Heap, a: nat, size: nat)
    requires Sound(m) && LiveAt(m, a)
    ensures var (m', a') := Grow(m, a, size);
            Merged(m, a, m', a') && (Payload(m'[a'].order) < size ==> !CanAbsorb(m', a'))
  {
    MergeToKeeps(m, a, AtLeast(size));
  }

  lemma GrownIsMerged(m: Heap, a: nat, size: nat, m': Heap, a': nat)
    requires Sound(m) && LiveAt(m, a) && (m', a') == Grow(m, a, size)
    ensures Merged(m, a, m', a')
  {
    GrowKeeps(m, a, size);
  }

  /** Growth in place ends with enough payload. */
  ghost predicate GrowsTo(m: Heap, a: nat, size: nat)
    requires a in m
  {
    var (g, u) := Grow(m, a, size);
    u in g && size <= Payload(g[u].order)
  }

  /** The aligned order-k interval at b contains the block at `a` and besides it only free blocks. */
  ghost predicate RoomAt(m: Heap, a: nat, b: nat, k: nat) {
    && k <= MAX_ORDER && Aligned(b, k) && b <= a < b + Pow2(k)
    && forall c | c in m && c != a && b <= c < b + Pow2(k) :: m[c].free
  }

  /** Growth in place reaches the size if and only if some aligned interval large enough for it contains the block
      and besides it only free blocks. */
  lemma GrowsToIff(m: Heap, a: nat, size: nat)
    requires Sound(m) && LiveAt(m, a)
    ensures GrowsTo(m, a, size) <==> exists b, k :: RoomAt(m, a, b, k) && m[a].order <= k && size <= Payload(k)
  {
    GrowKeeps(m, a, size);
    var (g, u) := Grow(m, a, size);
    assert BlockOk(g, u);
    MergedRoom(m, a, g, u);
    if b, k :| RoomAt(m, a, b, k) && m[a].order <= k && size <= Payload(k) {
      GrowUsesRoom(m, a, b, k, size);
    }
  }

  lemma MergedRoom(m: Heap, a: nat, g: Heap, u: nat)
    requires Merged(m, a, g, u)
    ensures RoomAt(m, a, u, g[u].order)
  {
    assert BlockOk(g, u);
    forall c | c in m && c != a && u <= c < u + Pow2(g[u].order) ensures m[c].free {
      assert c in Live(m) - {a} ==> c in Live(g);
    }
  }

  lemma {:induction false} GrowUsesRoom(m: Heap, a: nat, b: nat, k: nat, size: nat)
    requires Sound(m) && LiveAt(m, a) && RoomAt(m, a, b, k) && m[a].order <= k && size <= Payload(k)
    ensures GrowsTo(m, a, size)
    decreases MAX_ORDER - m[a].order
  {
    if m[a].order < k && Payload(m[a].order) < size {
      RoomAbsorbs(m, a, b, k);
      AbsorbKeeps(m, a);
      GrowUsesRoom(Absorb(m, a), Parent(a, m[a].order), b, k, size);
    }
  }

  /** A block smaller than its room can absorb its buddy, and keeps its room. */
  lemma RoomAbsorbs(m: Heap, a: nat, b: nat, k: nat)
    requires Sound(m) && LiveAt(m, a) && RoomAt(m, a, b, k) && m[a].order < k
    ensures CanAbsorb(m, a) && RoomAt(Absorb(m, a), Parent(a, m[a].order), b, k)
  {
    var j := m[a].order;
    assert BlockOk(m, a);
    var p, c := Parent(a, j), Buddy(a, j);
    Nested(p, j + 1, b, k);
    BuddyWithin(a, j);
    BuddyStart(m, a, j);
    forall x | x in m && c <= x < c + Pow2(j) ensures m[x].free { assert x != a; }
    FreeRegionIsOneBlock(m, c, j);
  }

  // ----- the merge guard as written

  /** The guard of the merge loops as written: the buddy is free and below order 10. The orders of the two
      blocks are not compared. */
  ghost predicate WrittenGuard(m: Heap, a: nat) {
    && a in m && Aligned(a, m[a].order)
    && Buddy(a, m[a].order) in m
    && m[Buddy(a, m[a].order)].free && m[Buddy(a, m[a].order)].order < MAX_ORDER
  }

  /** Following same-order buddies upwards, as far as the goal asks, never ends at a smaller free block: a
      condition a caller can read off the heap before the call. */
  ghost predicate SafeTo(m: Heap, a: nat, goal: Goal)
    requires a in m
    decreases MAX_ORDER - m[a].order
  {
    Wants(goal, Payload(m[a].order)) ==>
      if CanAbsorb(m, a) then SafeTo(Absorb(m, a), Parent(a, m[a].order), goal) else !WrittenGuard(m, a)
  }

  /** For release. */
  ghost predicate SafeClimb(m: Heap, a: nat)
    requires a in m
  {
    SafeTo(m, a, Everything)
  }

  /** For growth to `size` bytes. */
  ghost predicate SafeGrowth(m: Heap, a: nat, size: nat)
    requires a in m
  {
    SafeTo(m, a, AtLeast(size))
  }

  /** Growth to `size` bytes meets no free buddy below the block. */
  ghost predicate GrowsUpward(m: Heap, a: nat, size: nat)
    requires a in m
    decreases MAX_ORDER - m[a].order
  {
    CanAbsorb(m, a) && Payload(m[a].order) < size ==>
      Parent(a, m[a].order) == a && GrowsUpward(Absorb(m, a), a, size)
  }

  // ----- accounting along the block list

  /** Payload bytes of the blocks from `a` on, in list order. */
  ghost function PayloadFrom(m: Heap, a: nat): nat
    requires Tiles(m) && (a in m || a == ARENA)
    decreases ARENA - a
  {
    if a == ARENA then 0 else assert BlockOk(m, a); Payload(m[a].order) + PayloadFrom(m, End(m, a))
  }

  ghost function BlocksFrom(m: Heap, a: nat): nat
    requires Tiles(m) && (a in m || a == ARENA)
    decreases ARENA - a
  {
    if a == ARENA then 0 else assert BlockOk(m, a); 1 + BlocksFrom(m, End(m, a))
  }

  lemma MulSucc(h: nat, n: nat)
    ensures h * (1 + n) == h + h * n
  {
  }

  /** Payload plus one header per block is every byte from `a` to the end of the arena. */
  lemma {:induction false} BytesAddUp(m: Heap, a: nat)
    requires Tiles(m) && (a in m || a == ARENA)
    ensures PayloadFrom(m, a) + HEADER * BlocksFrom(m, a) == 128 * (ARENA - a)
    decreases ARENA - a
  {
    if a == ARENA {
      assert HEADER * 0 == 0;
    } else {
      assert BlockOk(m, a);
      BytesAddUp(m, End(m, a));
      MulSucc(HEADER, BlocksFrom(m, End(m, a)));
    }
  }

  /** Free blocks from `a` on, in list order. */
  ghost function FreeFrom(m: Heap, a: nat): nat
    requires Tiles(m) && (a in m || a == ARENA)
    decreases ARENA - a
  {
    if a == ARENA then 0
    else assert BlockOk(m, a); (if m[a].free then 1 else 0) + FreeFrom(m, End(m, a))
  }

  ghost function FreeStartsFrom(m: Heap, a: nat): set<nat> {
    set x | x in m && a <= x && m[x].free
  }

  lemma NextFreeStart(m: Heap, a: nat)
    requires Tiles(m) && a in m
    ensures a !in FreeStartsFrom(m, End(m, a))
    ensures FreeStartsFrom(m, a) == (if m[a].free then {a} else {}) + FreeStartsFrom(m, End(m, a))
  {
    forall x | x in m && a < x ensures End(m, a) <= x {}
  }

  lemma {:induction false} ListCountsFree(m: Heap, a: nat)
    requires Tiles(m) && (a in m || a == ARENA)
    ensures FreeFrom(m, a) == |FreeStartsFrom(m, a)|
    decreases ARENA - a
  {
    if a == ARENA {
      forall x | x in m ensures x < ARENA { assert BlockOk(m, x); }
      assert FreeStartsFrom(m, a) == {};
    } else {
      assert BlockOk(m, a);
      ListCountsFree(m, End(m, a));
      NextFreeStart(m, a);
    }
  }

  ghost function StartsFrom(m: Heap, a: nat): set<nat> {
    set x | x in m && a <= x
  }

  /** The list visits every block once. */
  lemma {:induction false} ListVisitsAll(m: Heap, a: nat)
    requires Tiles(m) && (a in m || a == ARENA)
    ensures BlocksFrom(m, a) == |StartsFrom(m, a)|
    decreases ARENA - a
  {
    if a == ARENA {
      forall x | x in m ensures x < ARENA { assert BlockOk(m, x); }
      assert StartsFrom(m, a) == {};
    } else {
      assert BlockOk(m, a);
      ListVisitsAll(m, End(m, a));
      assert StartsFrom(m, a) == {a} + StartsFrom(m, End(m, a));
    }
  }

  // ----- consequences of canonical form

  /** A successful allocation followed at once by the release of its result restores the heap. */
  lemma AllocThenFree(m: Heap, a: nat, size: nat)
    requires Sound(m) && Fits(m, a, size)
    ensures Free(Alloc(m, a, size), a) == m
  {
    AllocKeeps(m, a, size);
    var m' := Alloc(m, a, size);
    FreeKeeps(m', a);
    assert a !in Live(m);
    assert Live(m') - {a} == Live(m);
    Canonical(Free(m', a), m);
  }

  /** The order of two releases does not matter. */
  lemma FreesCommute(m: Heap, a: nat, b: nat)
    requires Sound(m) && LiveAt(m, a) && LiveAt(m, b) && a != b
    ensures LiveAt(Free(m, a), b) && LiveAt(Free(m, b), a)
    ensures Free(Free(m, a), b) == Free(Free(m, b), a)
  {
    FreeKeeps(m, a);
    FreeKeeps(m, b);
    assert b in Live(Free(m, a)) && a in Live(Free(m, b));
    FreeKeeps(Free(m, a), b);
    FreeKeeps(Free(m, b), a);
    assert (Live(m) - {a}) - {b} == (Live(m) - {b}) - {a};
    Canonical(Free(Free(m, a), b), Free(Free(m, b), a));
  }

  // ----- whole runs

  /** One client call: a successful allocation, the release of a live block, or the growth of a live
      block in place. A call that fails leaves the heap as it was. */
  datatype Op = Malloc(at: nat, size: nat) | Sfree(at: nat) | Extend(at: nat, size: nat)

  ghost predicate Enabled(m: Heap, op: Op) {
    match op
    case Malloc(a, size) => FirstFit(m, size, a)
    case Sfree(a) => LiveAt(m, a)
    case Extend(a, _) => LiveAt(m, a)
  }

  ghost function Apply(m: Heap, op: Op): Heap
    requires Enabled(m, op)
  {
    match op
    case Malloc(a, size) => Alloc(m, a, size)
    case Sfree(a) => Free(m, a)
    case Extend(a, size) => Grow(m, a, size).0
  }

  ghost predicate Run(hs: seq<Heap>, ops: seq<Op>) {
    && |hs| == |ops| + 1
    && hs[0] == Initial()
    && forall i | 0 <= i < |ops| :: Enabled(hs[i], ops[i]) && hs[i + 1] == Apply(hs[i], ops[i])
  }

  lemma ApplyKeeps(m: Heap, op: Op)
    requires Sound(m) && Enabled(m, op)
    ensures Sound(Apply(m, op))
  {
    match op
    case Malloc(a, size) => AllocKeeps(m, a, size);
    case Sfree(a) => FreeKeeps(m, a);
    case Extend(a, size) => GrowKeeps(m, a, size);
  }

  /** After every run the heap is a coalesced tiling. */
  lemma {:induction false} RunsAreSound(hs: seq<Heap>, ops: seq<Op>, i: nat)
    requires Run(hs, ops) && i < |hs|
    ensures Sound(hs[i])
    decreases i
  {
    if i == 0 {
      InitialKeeps();
    } else {
      RunsAreSound(hs, ops, i - 1);
      ApplyKeeps(hs[i - 1], ops[i - 1]);
    }
  }

  /** The heap carries no history: any two runs that leave the same live blocks leave the same heap,
      and a run that leaves none has restored the 32 initial blocks. */
  lemma RunsForgetHistory(hs: seq<Heap>, ops: seq<Op>, hs': seq<Heap>, ops': seq<Op>)
    requires Run(hs, ops) && Run(hs', ops')
    requires Live(hs[|ops|]) == Live(hs'[|ops'|])
    ensures hs[|ops|] == hs'[|ops'|]
    ensures Live(hs[|ops|]) == map[] ==> hs[|ops|] == Initial()
  {
    RunsAreSound(hs, ops, |ops|);
    RunsAreSound(hs', ops', |ops'|);
    Canonical(hs[|ops|], hs'[|ops'|]);
    if Live(hs[|ops|]) == map[] { EmptyHeapIsInitial(hs[|ops|]); }
  }
}
