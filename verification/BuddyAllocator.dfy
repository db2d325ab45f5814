/** `MemList` of malloc_3.cpp: the buddy allocator as an object whose headers, free lists and payload bytes
    are updated in place, proved against the abstract heap.

    `strict` selects the merge guard: true compares the orders of the two blocks, false is the guard as
    written, which then needs the heap to be free of smaller free buddies on the way up.
 */
module BuddyAllocator {
  import opened Bytes
  import opened Dyadic
  import opened Tiling
  import opened HeapOps
  import opened Headers

  const MAX_SIZE_TO_ALLOCATE: nat := 100000000
  const MAX_SIZE: nat := 131072

  /** What the client holds: the address of a block of the arena, or of a separate mapping. */
  datatype Pointer = Nil | Arena(unit: nat) | Mapped(base: nat)

  datatype Mapping = Mapping(base: nat, size: nat)

  /** Every live block other than `p` is still live, with the same order and the same payload bytes. */
  ghost predicate OthersKept(m: Heap, d: Memory, m': Heap, d': Memory, p: int) {
    forall c | c in Live(m) && c != p ::
      c in Live(m') && Live(m')[c] == Live(m)[c] && PayloadSame(d, d', c, Live(m)[c].order)
  }

  predicate MergeGuard(buddy: Header, addr: Header, strict: bool) {
    buddy.isFree && buddy.order < MAX_ORDER && (strict ==> buddy.order == addr.order)
  }

  /** On a represented heap the loop guard holds exactly when the block can absorb its buddy. */
  lemma GuardIsAbsorb(h: Store, f: FreeLists, m: Heap, ck: nat, a: nat, strict: bool)
    requires Sound(m) && LiveAt(m, a) && Represents(h, f, m, ck, a)
    requires strict || CanAbsorb(m, a) || !WrittenGuard(m, a)
    ensures BlockOk(m, a) && HeaderAt(h, m, ck, a)
    ensures var b := Xor(a, Pow2(h[a].order));
            && b == Buddy(a, m[a].order) && b in m && b in h && h[b].cookie == ck
            && h[b].order == m[b].order && h[b].isFree == m[b].free
            && (MergeGuard(h[b], h[a], strict) <==> CanAbsorb(m, a))
  {
    assert BlockOk(m, a) && HeaderAt(h, m, ck, a);
    XorIsBuddy(a, m[a].order);
    BuddyStart(m, a, m[a].order);
    var b := Buddy(a, m[a].order);
    assert HeaderAt(h, m, ck, b);
  }

  lemma NoneOfOrder(f: FreeLists, m: Heap, k: nat, size: nat)
    requires Listed(f, m) && k <= MAX_ORDER && (f[k] == [] || Payload(k) < size)
    ensures forall a: nat | Fits(m, a, size) :: m[a].order != k
  {
    assert ListOf(f[k], m, k);
    forall a: nat | Fits(m, a, size) ensures m[a].order != k {
      assert a in f[k] <==> FreeAt(m, a, k);
    }
  }

  lemma SplitXor(m: Heap, a: nat)
    requires Tiles(m) && a in m && m[a].order > 0
    ensures Xor(a, Pow2(m[a].order - 1)) == a + Pow2(m[a].order - 1)
  {
    assert BlockOk(m, a);
    HalfOf(m, a);
    XorIsBuddy(a, m[a].order - 1);
  }

  lemma SplitUnits(h: Store, m: Heap, ck: nat, a: nat, b: nat)
    requires a in m && m[a].order > 0 && BlockOk(m, a) && HeaderAt(h, m, ck, a) && b == a + Pow2(m[a].order - 1)
    ensures a != b && {a, b} + Pointee(h[a].next) <= Halve(m, a).Keys
    ensures h[a].next.At? ==> h[a].next.addr in h && h[a].next.addr !in {a, b}
  {
  }

  /** What a pass of the split loop reads, and what its writes amount to. */
  lemma SplitReads(h: Store, f: FreeLists, m: Heap, ck: nat, a: nat, k: nat) returns (b: nat)
    requires MidOperation(h, f, m, ck, a) && m[a].order == k + 1
    ensures a in h && h[a].order == k + 1 <= |f| && b == Xor(a, Pow2(k)) && a != b
    ensures h[a].next.At? ==> h[a].next.addr in h && h[a].next.addr !in {a, b}
    ensures {a, b} + Pointee(h[a].next) <= Halve(m, a).Keys
    ensures MidOperation(SplitHeaders(h, a, b, ck), f[k := Insert(f[k], b)], Halve(m, a), ck, a)
  {
    b := a + Pow2(k);
    assert HeaderAt(h, m, ck, a) && BlockOk(m, a);
    SplitXor(m, a);
    SplitUnits(h, m, ck, a, b);
    SplitMid(h, f, m, ck, a, b, k);
  }

  lemma SplitMid(h: Store, f: FreeLists, m: Heap, ck: nat, a: nat, b: nat, k: nat)
    requires MidOperation(h, f, m, ck, a) && m[a].order == k + 1 <= MAX_ORDER && b == a + Pow2(k)
    requires HeaderAt(h, m, ck, a)
    ensures MidOperation(SplitHeaders(h, a, b, ck), f[k := Insert(f[k], b)], Halve(m, a), ck, a)
  {
    SplitStep(h, f, m, ck, a, b);
    HalveKeeps(m, a);
  }

  /** The two blocks of a merge and what their headers say. */
  lemma MergeUnits(h: Store, f: FreeLists, m: Heap, ck: nat, a: nat, b: nat) returns (lo: nat, hi: nat)
    requires MidOperation(h, f, m, ck, a) && CanAbsorb(m, a) && b == Buddy(a, m[a].order)
    ensures lo == Parent(a, m[a].order) && hi == lo + Pow2(m[a].order)
    ensures lo == (if b > a then a else b) && hi == (if b > a then b else a)
    ensures lo in m && hi in m && HeaderAt(h, m, ck, lo) && HeaderAt(h, m, ck, hi)
    ensures h[b].order == m[a].order < |f|
    ensures h[hi].next.At? ==> h[hi].next.addr in h && h[hi].next.addr > hi && h[hi].next.addr in m
  {
    lo := Parent(a, m[a].order);
    hi := lo + Pow2(m[a].order);
    PairOf(m, a);
    assert HeaderAt(h, m, ck, lo) && HeaderAt(h, m, ck, hi) && BlockOk(m, hi);
  }

  /** What a merge pass reads, and what its writes amount to. */
  lemma MergeReads(h: Store, f: FreeLists, m: Heap, ck: nat, a: nat, b: nat) returns (lo: nat, hi: nat)
    requires MidOperation(h, f, m, ck, a) && CanAbsorb(m, a) && b == Buddy(a, m[a].order)
    ensures lo == Parent(a, m[a].order) && lo == (if b > a then a else b) && hi == (if b > a then b else a)
    ensures lo in h && hi in h && lo in m && h[b].order == m[a].order < |f|
    ensures h[hi].next.At? ==> h[hi].next.addr in h && h[hi].next.addr !in {a, b} && h[hi].next.addr in m
    ensures MidOperation(MergeHeaders(h, lo, hi), f[m[a].order := Without(Without(f[m[a].order], b), a)],
                         Absorb(m, a), ck, lo)
  {
    lo, hi := MergeUnits(h, f, m, ck, a, b);
    MergeMid(h, f, m, ck, a, b, lo, hi, m[a].order);
  }

  lemma MergeMid(h: Store, f: FreeLists, m: Heap, ck: nat, a: nat, b: nat, lo: nat, hi: nat, k: nat)
    requires MidOperation(h, f, m, ck, a) && CanAbsorb(m, a) && k == m[a].order < |f|
    requires b == Buddy(a, k) && lo == Parent(a, k) && hi == lo + Pow2(k)
    requires lo in m && hi in m && HeaderAt(h, m, ck, lo) && HeaderAt(h, m, ck, hi)
    ensures MidOperation(MergeHeaders(h, lo, hi), f[k := Without(Without(f[k], b), a)], Absorb(m, a), ck, lo)
  {
    MergeStep(h, f, m, ck, a, b, lo, hi, k);
    AbsorbKeeps(m, a);
  }

  /** What a merge loop knows when it tests its guard at the block `a` with the buddy `b`. */
  ghost predicate AtGuard(h: Store, m: Heap, ck: nat, a: nat, b: nat, goal: Goal, strict: bool) {
    && a in m && a in h && b in h && h[a].cookie == ck && h[b].cookie == ck
    && Aligned(a, m[a].order) && b == Buddy(a, m[a].order) && b == Xor(a, Pow2(h[a].order))
    && (MergeGuard(h[b], h[a], strict) && Wants(goal, h[a].size)
        <==> CanAbsorb(m, a) && Wants(goal, Payload(m[a].order)))
  }

  /** As GuardIsAbsorb, for a loop with a goal. */
  lemma GoalGuard(h: Store, f: FreeLists, m: Heap, ck: nat, a: nat, goal: Goal, strict: bool)
    requires MidOperation(h, f, m, ck, a) && (strict || SafeTo(m, a, goal))
    ensures HeaderAt(h, m, ck, a) && AtGuard(h, m, ck, a, Xor(a, Pow2(h[a].order)), goal, strict)
  {
    assert BlockOk(m, a) && HeaderAt(h, m, ck, a);
    GuardIsAbsorb(h, f, m, ck, a, strict || !Wants(goal, Payload(m[a].order)));
  }

  /** g is m with the block at `a` enlarged upwards over free blocks. */
  ghost predicate SameOutside(m: Heap, g: Heap, a: nat) {
    forall x | x in g && x != a :: x in m && m[x] == g[x]
  }

  /** Where growth of the block at `a` in m stands after some upward merges. */
  ghost predicate Probing(m: Heap, g: Heap, a: nat, size: nat, strict: bool) {
    && Sound(g) && LiveAt(g, a) && LiveAt(m, a) && SameOutside(m, g, a)
    && (strict || SafeGrowth(g, a, size)) && GrowsUpward(g, a, size)
    && Grow(g, a, size) == Grow(m, a, size)
  }

  lemma AbsorbUpward(m: Heap, g: Heap, a: nat, size: nat, strict: bool)
    requires Probing(m, g, a, size, strict) && CanAbsorb(g, a) && Payload(g[a].order) < size
    ensures Probing(m, Absorb(g, a), a, size, strict)
    ensures Absorb(g, a)[a].order == g[a].order + 1 <= MAX_ORDER
  {
    AbsorbKeeps(g, a);
  }

  /** The dry run reads the buddy's header in the unmodified heap; it is the header growth would meet. */
  lemma ProbeReads(h: Store, f: FreeLists, m: Heap, g: Heap, ck: nat, a: nat, k: nat, size: nat, strict: bool)
    requires Sound(m) && Represents(h, f, m, ck, -1) && LiveAt(m, a) && SameOutside(m, g, a)
    requires Sound(g) && LiveAt(g, a) && k == g[a].order && (strict || SafeGrowth(g, a, size))
    ensures HeaderAt(h, m, ck, a) && Aligned(a, k)
    ensures var b := Xor(a, Pow2(k));
            && b == Buddy(a, k) && b in h && h[b].cookie == ck
            && (h[b].isFree && h[b].order < MAX_ORDER && (strict ==> h[b].order == k) && Payload(k) < size
                <==> CanAbsorb(g, a) && Payload(k) < size)
  {
    assert BlockOk(g, a) && HeaderAt(h, m, ck, a);
    XorIsBuddy(a, k);
    BuddyStart(g, a, k);
    var b := Buddy(a, k);
    assert b in m && m[b] == g[b];
    assert HeaderAt(h, m, ck, b);
  }

  /** Header writes at block starts keep every live block that the operation does not replace. */
  lemma KeptByHeaders(m: Heap, m': Heap, d: Memory, d': Memory, p: int)
    requires Tiles(m) && Tiles(m')
    requires OnlyHeaders(d, d', m.Keys) || OnlyHeaders(d, d', m'.Keys)
    requires forall c | c in Live(m) && c != p :: c in Live(m') && Live(m')[c] == Live(m)[c]
    ensures OthersKept(m, d, m', d', p)
  {
    forall c | c in Live(m) && c != p ensures PayloadSame(d, d', c, Live(m)[c].order) {
      if OnlyHeaders(d, d', m.Keys) {
        PayloadKept(m, d, d', m.Keys, c);
      } else {
        assert c in Live(m');
        PayloadKept(m', d, d', m'.Keys, c);
      }
    }
  }

  /** The mmapped regions lie above the arena and do not overlap. */
  ghost predicate MappedOk(mapped: seq<Mapping>) {
    && (forall i | 0 <= i < |mapped| :: 128 * ARENA <= mapped[i].base)
    && (forall i, j | 0 <= i < j < |mapped| :: Apart(mapped[i], mapped[j]))
  }

  predicate Apart(r: Mapping, q: Mapping) {
    r.base + HEADER + r.size <= q.base || q.base + HEADER + q.size <= r.base
  }

  ghost predicate FreshRegion(mapped: seq<Mapping>, base: nat, size: nat) {
    128 * ARENA <= base && forall i | 0 <= i < |mapped| :: Apart(mapped[i], Mapping(base, size))
  }

  /** No byte above the arena changes, except the n bytes from `at`. */
  ghost predicate HighSameBut(d: Memory, d': Memory, at: nat, n: nat) {
    forall i: int {:trigger SameByte(d, d', i)} | 128 * ARENA <= i && !(at <= i < at + n) :: SameByte(d, d', i)
  }

  /** No byte above the arena changes. */
  ghost predicate HighSame(d: Memory, d': Memory) {
    HighSameBut(d, d', 0, 0)
  }

  predicate InMapping(i: int, r: Mapping) {
    r.base + HEADER <= i < r.base + HEADER + r.size
  }

  /** The payloads of the mmapped regions are unchanged. */
  ghost predicate MappingsKept(mapped: seq<Mapping>, d: Memory, d': Memory) {
    forall k: nat, i: int {:trigger InMapping(i, mapped[k])} |
      k < |mapped| && InMapping(i, mapped[k]) :: SameByte(d, d', i)
  }

  lemma HighKeepsMappings(mapped: seq<Mapping>, d: Memory, d': Memory, b: nat, size: nat, n: nat)
    requires MappedOk(mapped) && HighSameBut(d, d', b + HEADER, n)
    requires n == 0 || (n <= size && FreshRegion(mapped, b, size))
    ensures MappingsKept(mapped, d, d')
  {
    if n > 0 { assert forall k | 0 <= k < |mapped| :: Apart(mapped[k], Mapping(b, size)); }
  }

  lemma HighByHeaders(m: Heap, d: Memory, d': Memory)
    requires Tiles(m) && OnlyHeaders(d, d', m.Keys)
    ensures HighSame(d, d')
  {
    forall i: int | 128 * ARENA <= i ensures SameByte(d, d', i) {
      forall u: nat | u in m.Keys ensures !(128 * u <= i < 128 * u + HEADER) {
        assert BlockOk(m, u);
      }
      assert HeaderByte(i, m.Keys) || SameByte(d, d', i);
    }
  }

  lemma PayloadMonotone(j: nat, k: nat)
    requires j <= k
    ensures Payload(j) <= Payload(k)
    decreases k - j
  {
    if j < k { PayloadMonotone(j, k - 1); HalfPayload(k); }
  }

  lemma KeptByMove(m: Heap, d: Memory, d': Memory, u: nat, src: nat, n: nat)
    requires Tiles(m) && u in m && n <= Payload(m[u].order) && Moved(d, d', 128 * u + HEADER, src, n)
    ensures OthersKept(m, d, m, d', u) && HighSame(d, d')
  {
    assert BlockOk(m, u);
    forall c | c in Live(m) && c != u ensures PayloadSame(d, d', c, Live(m)[c].order) {
      assert if c < u then End(m, c) <= u else End(m, u) <= c;
    }
  }

  lemma KeptTrans(m: Heap, d: Memory, m1: Heap, d1: Memory, m2: Heap, d2: Memory, p: int, q: int)
    requires OthersKept(m, d, m1, d1, p) && OthersKept(m1, d1, m2, d2, q)
    requires forall c | c in Live(m) && c != p :: c != q
    ensures OthersKept(m, d, m2, d2, p)
  {
    forall c | c in Live(m) && c != p
      ensures c in Live(m2) && Live(m2)[c] == Live(m)[c] && PayloadSame(d, d2, c, Live(m)[c].order)
    {
      forall i: int | 128 * c + HEADER <= i < 128 * (c + Pow2(Live(m)[c].order)) ensures SameByte(d, d2, i) {
        assert SameByte(d, d1, i) && SameByte(d1, d2, i);
      }
    }
  }

  lemma CopiedSelf(d: Memory, at: nat, n: nat)
    ensures Copied(d, at, d, at, n)
  {
  }

  /** The address of the first payload byte behind a pointer. */
  function PayloadStart(p: Pointer): nat
    requires !p.Nil?
  {
    HEADER + if p.Arena? then 128 * p.unit else p.base
  }

  /** The bytes after a realloc of the block at `a`. On success the result starts with the old payload; every other
      live block and every byte outside the arena is as before, except those copied into a new mapping. */
  ghost predicate Reallocated(m: Heap, d: Memory, m': Heap, d': Memory, a: nat, p: Pointer)
    requires a in m
  {
    if p.Nil? then OthersKept(m, d, m', d', -1) && HighSame(d, d')
    else
      && Copied(d, 128 * a + HEADER, d', PayloadStart(p), Payload(m[a].order))
      && OthersKept(m, d, m', d', a)
      && HighSameBut(d, d', PayloadStart(p), if p.Mapped? then Payload(m[a].order) else 0)
  }

  lemma StaysPut(m: Heap, d: Memory, a: nat)
    requires Tiles(m) && LiveAt(m, a)
    ensures Reallocated(m, d, m, d, a, Arena(a))
  {
    CopiedSelf(d, 128 * a + HEADER, Payload(m[a].order));
    OnlyHeadersSelf(d, m.Keys);
    KeptByHeaders(m, m, d, d, a);
    HighByHeaders(m, d, d);
  }

  /** The payload of `a`, untouched so far, is moved into the block `u` that takes it over. */
  lemma MovePayload(m: Heap, d: Memory, m': Heap, d1: Memory, d2: Memory, a: nat, u: nat)
    requires Tiles(m') && a in m && u in m' && u !in Live(m) - {a}
    requires Payload(m[a].order) <= Payload(m'[u].order)
    requires PayloadSame(d, d1, a, m[a].order) && OthersKept(m, d, m', d1, a)
    requires Moved(d1, d2, 128 * u + HEADER, 128 * a + HEADER, Payload(m[a].order))
    ensures Copied(d, 128 * a + HEADER, d2, 128 * u + HEADER, Payload(m[a].order))
    ensures OthersKept(m, d, m', d2, a)
  {
    SourceKept(d, d1, d2, 128 * u + HEADER, 128 * a + HEADER, Payload(m[a].order));
    KeptByMove(m', d1, d2, u, 128 * a + HEADER, Payload(m[a].order));
    KeptTrans(m, d, m', d1, m', d2, a, u);
  }

  /** The live block at `a` now starts at `u`, with its old payload; nothing else that is live changed. */
  ghost predicate Extended(m: Heap, d: Memory, m': Heap, d': Memory, a: nat, u: nat) {
    && Merged(m, a, m', u)
    && Copied(d, 128 * a + HEADER, d', 128 * u + HEADER, Payload(m[a].order))
    && OthersKept(m, d, m', d', a) && HighSame(d, d')
  }

  lemma InPlaceMove(m: Heap, d: Memory, m': Heap, d1: Memory, d2: Memory, a: nat, u: nat)
    requires Sound(m) && Merged(m, a, m', u) && OnlyHeaders(d, d1, m.Keys)
    requires Moved(d1, d2, 128 * u + HEADER, 128 * a + HEADER, Payload(m[a].order))
    ensures Extended(m, d, m', d2, a, u)
  {
    PayloadMonotone(m[a].order, m'[u].order);
    PayloadKept(m, d, d1, m.Keys, a);
    KeptByHeaders(m, m', d, d1, a);
    MovePayload(m, d, m', d1, d2, a, u);
    KeptByMove(m', d1, d2, u, 128 * a + HEADER, Payload(m[a].order));
    HighByHeaders(m, d, d1);
    HighTrans(d, d1, d2);
  }

  lemma ExtendedBytes(m: Heap, d: Memory, m': Heap, d': Memory, a: nat, u: nat)
    requires Extended(m, d, m', d', a, u)
    ensures a in m && Reallocated(m, d, m', d', a, Arena(u))
  {
  }

  lemma HighTrans(d: Memory, d1: Memory, d2: Memory)
    requires HighSame(d, d1) && HighSame(d1, d2)
    ensures HighSame(d, d2)
  {
    forall i: int | 128 * ARENA <= i ensures SameByte(d, d2, i) {
      assert SameByte(d, d1, i) && SameByte(d1, d2, i);
    }
  }

  /** What an allocation does to the bytes. */
  lemma AllocatedBytes(m: Heap, m': Heap, d: Memory, d': Memory)
    requires Tiles(m') && OnlyHeaders(d, d', m'.Keys)
    requires forall c | c in Live(m) :: c in Live(m') && Live(m')[c] == Live(m)[c]
    ensures OthersKept(m, d, m', d', -1) && HighSame(d, d')
  {
    forall c | c in Live(m) ensures PayloadSame(d, d', c, Live(m)[c].order) {
      PayloadKept(m', d, d', m'.Keys, c);
    }
    HighByHeaders(m', d, d');
  }

  lemma TakenBytes(m: Heap, x: nat, size: nat, d: Memory, d1: Memory, d2: Memory)
    requires Sound(m) && Fits(m, x, size)
    requires OnlyHeaders(d, d1, m.Keys) && OnlyHeaders(d1, d2, Alloc(m, x, size).Keys)
    ensures OnlyHeaders(d, d2, Alloc(m, x, size).Keys)
    ensures OthersKept(m, d, Alloc(m, x, size), d2, -1) && HighSame(d, d2)
  {
    var m' := Alloc(m, x, size);
    AllocKeeps(m, x, size);
    OnlyHeadersTrans(d, d1, d2, m.Keys, m'.Keys, m'.Keys);
    AllocatedBytes(m, m', d, d2);
  }

  /** An allocation leaves a live block live and distinct from the new one. */
  lemma StillLive(m: Heap, x: nat, size: nat, a: nat)
    requires Sound(m) && Fits(m, x, size) && LiveAt(m, a)
    ensures a != x && LiveAt(Alloc(m, x, size), a) && Alloc(m, x, size)[a].order == m[a].order
  {
    AllocKeeps(m, x, size);
    assert a in Live(m);
    assert a in Live(Alloc(m, x, size));
  }

  /** Header writes after a change that kept the other live blocks keep them still. */
  lemma KeptThenHeaders(m: Heap, d: Memory, m1: Heap, d1: Memory, m2: Heap, d2: Memory, a: nat)
    requires OthersKept(m, d, m1, d1, a) && Tiles(m1) && Tiles(m2) && OnlyHeaders(d1, d2, m1.Keys)
    requires Live(m2) == Live(m1) - {a}
    ensures OthersKept(m, d, m2, d2, a)
  {
    KeptByHeaders(m1, m2, d1, d2, a);
    KeptTrans(m, d, m1, d1, m2, d2, a, a);
  }

  /** The new block takes over the payload: allocation, then memmove. */
  lemma CopyToNew(m: Heap, m1: Heap, d: Memory, d1: Memory, d2: Memory, x: nat, size: nat, a: nat)
    requires Sound(m) && Fits(m, x, size) && LiveAt(m, a) && Payload(m[a].order) < size
    requires m1 == Alloc(m, x, size) && OnlyHeaders(d, d1, m1.Keys)
    requires Moved(d1, d2, 128 * x + HEADER, 128 * a + HEADER, Payload(m[a].order))
    ensures Copied(d, 128 * a + HEADER, d2, 128 * x + HEADER, Payload(m[a].order))
    ensures OthersKept(m, d, m1, d2, a)
  {
    AllocKeeps(m, x, size);
    StillLive(m, x, size, a);
    PayloadKept(m1, d, d1, m1.Keys, a);
    KeptByHeaders(m, m1, d, d1, a);
    MovePayload(m, d, m1, d1, d2, a, x);
  }

  /** Bytes copied into the new block survive the release of the old one. */
  lemma CopySurvives(m: Heap, m1: Heap, d: Memory, d2: Memory, d3: Memory, x: nat, a: nat)
    requires Tiles(m1) && a in m && x in m1 && Payload(m[a].order) <= Payload(m1[x].order)
    requires Copied(d, 128 * a + HEADER, d2, 128 * x + HEADER, Payload(m[a].order))
    requires OnlyHeaders(d2, d3, m1.Keys)
    ensures Copied(d, 128 * a + HEADER, d3, 128 * x + HEADER, Payload(m[a].order))
  {
    PayloadKept(m1, d2, d3, m1.Keys, x);
    CopiedKept(d, 128 * a + HEADER, d2, d3, 128 * x + HEADER, Payload(m[a].order));
  }

  lemma OthersSurvive(m: Heap, m1: Heap, d: Memory, d2: Memory, d3: Memory, a: nat)
    requires Sound(m1) && LiveAt(m1, a) && OthersKept(m, d, m1, d2, a) && OnlyHeaders(d2, d3, m1.Keys)
    ensures OthersKept(m, d, HeapOps.Free(m1, a), d3, a)
  {
    FreeKeeps(m1, a);
    KeptThenHeaders(m, d, m1, d2, HeapOps.Free(m1, a), d3, a);
  }

  /** Header writes, a memmove into a block of the arena and header writes change nothing above it. */
  lemma HighThroughMove(m: Heap, d: Memory, d1: Memory, d2: Memory, d3: Memory, x: nat, src: nat, n: nat)
    requires Tiles(m) && x in m && n <= Payload(m[x].order)
    requires OnlyHeaders(d, d1, m.Keys) && OnlyHeaders(d2, d3, m.Keys) && Moved(d1, d2, 128 * x + HEADER, src, n)
    ensures HighSame(d, d3)
  {
    HighByHeaders(m, d, d1);
    KeptByMove(m, d1, d2, x, src, n);
    HighByHeaders(m, d2, d3);
    HighTrans(d, d1, d2);
    HighTrans(d, d2, d3);
  }

  lemma ElsewhereArena(m: Heap, m1: Heap, d: Memory, d1: Memory, d2: Memory, d3: Memory, x: nat, size: nat, a: nat)
    requires Sound(m) && Fits(m, x, size) && LiveAt(m, a) && Payload(m[a].order) < size
    requires m1 == Alloc(m, x, size) && OnlyHeaders(d, d1, m1.Keys) && OnlyHeaders(d2, d3, m1.Keys)
    requires Moved(d1, d2, 128 * x + HEADER, 128 * a + HEADER, Payload(m[a].order))
    ensures a in m1 && Reallocated(m, d, HeapOps.Free(m1, a), d3, a, Arena(x))
  {
    AllocKeeps(m, x, size);
    StillLive(m, x, size, a);
    CopyToNew(m, m1, d, d1, d2, x, size, a);
    CopySurvives(m, m1, d, d2, d3, x, a);
    OthersSurvive(m, m1, d, d2, d3, a);
    HighThroughMove(m1, d, d1, d2, d3, x, 128 * a + HEADER, Payload(m[a].order));
  }

  lemma ElsewhereMapped(m: Heap, d: Memory, d1: Memory, d2: Memory, d3: Memory, b: nat, a: nat)
    requires Sound(m) && LiveAt(m, a) && 128 * ARENA <= b
    requires OnlyHeaders(d, d1, m.Keys) && OnlyHeaders(d2, d3, m.Keys)
    requires Moved(d1, d2, b + HEADER, 128 * a + HEADER, Payload(m[a].order))
    ensures Reallocated(m, d, HeapOps.Free(m, a), d3, a, Mapped(b))
  {
    CopiedToMapping(m, d, d1, d2, d3, b, a);
    FreeKeeps(m, a);
    KeptOverMapping(m, HeapOps.Free(m, a), d, d1, d2, d3, b, a);
  }

  lemma CopiedToMapping(m: Heap, d: Memory, d1: Memory, d2: Memory, d3: Memory, b: nat, a: nat)
    requires Sound(m) && LiveAt(m, a) && 128 * ARENA <= b
    requires OnlyHeaders(d, d1, m.Keys) && OnlyHeaders(d2, d3, m.Keys)
    requires Moved(d1, d2, b + HEADER, 128 * a + HEADER, Payload(m[a].order))
    ensures Copied(d, 128 * a + HEADER, d3, b + HEADER, Payload(m[a].order))
    ensures HighSameBut(d, d3, b + HEADER, Payload(m[a].order))
  {
    var n := Payload(m[a].order);
    PayloadKept(m, d, d1, m.Keys, a);
    SourceKept(d, d1, d2, b + HEADER, 128 * a + HEADER, n);
    HighByHeaders(m, d, d1);
    HighByHeaders(m, d2, d3);
    CopiedKept(d, 128 * a + HEADER, d2, d3, b + HEADER, n);
    forall i: int | 128 * ARENA <= i && !(b + HEADER <= i < b + HEADER + n) ensures SameByte(d, d3, i) {
      assert SameByte(d, d1, i) && SameByte(d1, d2, i) && SameByte(d2, d3, i);
    }
  }

  lemma KeptOverMapping(m: Heap, m2: Heap, d: Memory, d1: Memory, d2: Memory, d3: Memory, b: nat, a: nat)
    requires Tiles(m) && Tiles(m2) && LiveAt(m, a) && 128 * ARENA <= b && Live(m2) == Live(m) - {a}
    requires OnlyHeaders(d, d1, m.Keys) && OnlyHeaders(d2, d3, m.Keys)
    requires Moved(d1, d2, b + HEADER, 128 * a + HEADER, Payload(m[a].order))
    ensures OthersKept(m, d, m2, d3, a)
  {
    KeptByHeaders(m, m, d, d1, a);
    KeptByHighMove(m, d1, d2, b + HEADER, 128 * a + HEADER, Payload(m[a].order), a);
    KeptTrans(m, d, m, d1, m, d2, a, a);
    KeptThenHeaders(m, d, m, d2, m2, d3, a);
  }

  lemma KeptByHighMove(m: Heap, d: Memory, d': Memory, dst: nat, src: nat, n: nat, p: int)
    requires Tiles(m) && 128 * ARENA <= dst && Moved(d, d', dst, src, n)
    ensures OthersKept(m, d, m, d', p)
  {
    forall c | c in Live(m) && c != p ensures PayloadSame(d, d', c, Live(m)[c].order) {
      assert BlockOk(m, c);
    }
  }

  // ----- which block a realloc returns

  /** What Malloc(size) returns and leaves behind, for the sizes that reach it from Srealloc. `region` is what mmap
      returns. */
  ghost predicate Obtains(m: Heap, m1: Heap, size: nat, region: Ptr, p: Pointer) {
    match p
    case Nil => m1 == m && if size < MAX_SIZE then forall x: nat :: !Fits(m, x, size) else region.Null?
    case Arena(x) => size < MAX_SIZE && FirstFit(m, size, x) && m1 == Alloc(m, x, size)
    case Mapped(b) => size >= MAX_SIZE && region == At(b) && m1 == m
  }

  /** The copying path: obtain a block or a mapping and release `a`, or fail because there is none. */
  ghost predicate MovedElsewhere(m: Heap, m': Heap, a: nat, size: nat, region: Ptr, p: Pointer) {
    exists m1: Heap :: Obtains(m, m1, size, region, p) && a in m1
                       && m' == if p.Nil? then m1 else HeapOps.Free(m1, a)
  }

  /** The pointer and the heap after a realloc: the block itself if it is large enough, else the block grown in place
      if growth suffices, else a new block or mapping, and failure only if there is none. */
  ghost predicate ReallocOutcome(m: Heap, m': Heap, a: nat, size: nat, region: Ptr, p: Pointer)
    requires a in m
  {
    if size <= Payload(m[a].order) then p == Arena(a) && m' == m
    else if GrowsTo(m, a, size) then p == Arena(Grow(m, a, size).1) && m' == Grow(m, a, size).0
    else MovedElsewhere(m, m', a, size, region, p)
  }

  /** What the outcome means for the client: the live blocks are those of before with `a` replaced by the result,
      which holds at least `size` bytes. */
  ghost predicate TakesOver(m: Heap, m': Heap, a: nat, size: nat, p: Pointer) {
    match p
    case Nil => m' == m
    case Arena(u) =>
      && LiveAt(m', u) && size <= Payload(m'[u].order)
      && u !in Live(m) - {a} && Live(m') == (Live(m) - {a})[u := m'[u]]
    case Mapped(_) => Live(m') == Live(m) - {a}
  }

  lemma OutcomeTakesOver(m: Heap, m': Heap, a: nat, size: nat, region: Ptr, p: Pointer)
    requires Sound(m) && LiveAt(m, a) && ReallocOutcome(m, m', a, size, region, p)
    ensures Sound(m') && TakesOver(m, m', a, size, p)
  {
    if size <= Payload(m[a].order) {
      assert (Live(m) - {a})[a := m[a]] == Live(m);
    } else if GrowsTo(m, a, size) {
      GrowKeeps(m, a, size);
    } else {
      var m1: Heap :| Obtains(m, m1, size, region, p) && a in m1
                      && m' == if p.Nil? then m1 else HeapOps.Free(m1, a);
      if p.Arena? {
        MovedTakesOver(m, m', a, size, p.unit);
      } else if p.Mapped? {
        FreeKeeps(m, a);
      }
    }
  }

  lemma MovedTakesOver(m: Heap, m': Heap, a: nat, size: nat, x: nat)
    requires Sound(m) && LiveAt(m, a) && Fits(m, x, size)
    requires a in Alloc(m, x, size) && m' == HeapOps.Free(Alloc(m, x, size), a)
    ensures Sound(m') && TakesOver(m, m', a, size, Arena(x))
  {
    var m1 := Alloc(m, x, size);
    AllocKeeps(m, x, size);
    StillLive(m, x, size, a);
    FreeKeeps(m1, a);
    assert x in Live(m') && Live(m')[x] == m1[x];
  }

  /** The dry run of Srealloc ends: see Deviations for why this is needed. */
  ghost predicate ReallocTerminates(m: Heap, a: nat, size: nat)
    requires a in m
  {
    Payload(m[a].order) < size ==> GrowsUpward(m, a, size)
  }

  /** The release at the end of Srealloc's copying path, if it is reached, climbs safely under the guard as written. */
  ghost predicate ReleaseSafe(m: Heap, a: nat, size: nat, granted: bool)
    requires a in m
  {
    if size < MAX_SIZE
    then forall x | FirstFit(m, size, x) :: a in Alloc(m, x, size) && SafeClimb(Alloc(m, x, size), a)
    else granted ==> SafeClimb(m, a)
  }

  /** After a successful Malloc the old block is still live, and its release is safe. */
  lemma ReadyToRelease(m: Heap, m1: Heap, a: nat, size: nat, region: Ptr, p: Pointer, strict: bool)
    requires Sound(m) && LiveAt(m, a) && Obtains(m, m1, size, region, p) && !p.Nil?
    requires strict || ReleaseSafe(m, a, size, region.At?)
    ensures LiveAt(m1, a) && m1[a].order == m[a].order && (strict || SafeClimb(m1, a))
  {
    if p.Arena? { StillLive(m, p.unit, size, a); }
  }

  /** The bytes after allocation, memmove and release. */
  lemma ElsewhereBytes(m: Heap, m1: Heap, d: Memory, d1: Memory, d2: Memory, d3: Memory, a: nat, size: nat,
                       region: Ptr, p: Pointer)
    requires Sound(m) && LiveAt(m, a) && Payload(m[a].order) < size && a in m1
    requires Obtains(m, m1, size, region, p) && !p.Nil? && (region.At? ==> 128 * ARENA <= region.addr)
    requires OnlyHeaders(d, d1, m1.Keys) && OnlyHeaders(d2, d3, m1.Keys)
    requires Moved(d1, d2, PayloadStart(p), 128 * a + HEADER, Payload(m[a].order))
    ensures Reallocated(m, d, HeapOps.Free(m1, a), d3, a, p)
  {
    if p.Arena? {
      ElsewhereArena(m, m1, d, d1, d2, d3, p.unit, size, a);
    } else {
      ElsewhereMapped(m, d, d1, d2, d3, p.base, a);
    }
  }

  /** Every merge that Srealloc makes is safe under the guard as written. */
  ghost predicate ReallocSafe(m: Heap, a: nat, size: nat, granted: bool)
    requires a in m
  {
    Payload(m[a].order) < size ==>
      SafeGrowth(m, a, size) && (GrowsTo(m, a, size) || ReleaseSafe(m, a, size, granted))
  }

  /** Between operations. */
  ghost predicate Steady(h: Store, f: FreeLists, m: Heap, ck: nat) {
    Sound(m) && Represents(h, f, m, ck, -1)
  }

  /** While the live block `cur` is being worked on. */
  ghost predicate MidOperation(h: Store, f: FreeLists, m: Heap, ck: nat, cur: nat) {
    Sound(m) && LiveAt(m, cur) && Represents(h, f, m, ck, cur)
  }

  predicate AllEmpty(f: FreeLists) {
    |f| == MAX_ORDER + 1 && forall k | 0 <= k <= MAX_ORDER :: f[k] == []
  }

  lemma CountedTwice(f: FreeLists, m: Heap)
    requires Tiles(m) && Listed(f, m)
    ensures FreeFrom(m, 0) == |FreeStarts(m)| == ListedBelow(f, MAX_ORDER + 1)
  {
    ListCountsFree(m, 0);
    ListsCountFree(f, m, MAX_ORDER + 1);
    assert FreeStartsFrom(m, 0) == FreeStarts(m);
    forall a | a in m ensures m[a].order < MAX_ORDER + 1 { assert BlockOk(m, a); }
    assert FreeBelow(m, MAX_ORDER + 1) == FreeStarts(m);
  }

  function MappedBytes(mapped: seq<Mapping>): nat {
    if mapped == [] then 0 else mapped[0].size + MappedBytes(mapped[1..])
  }

  lemma {:induction false} MappedAdds(ms: seq<Mapping>, r: Mapping)
    ensures MappedBytes(ms + [r]) == MappedBytes(ms) + r.size
    decreases |ms|
  {
    if ms == [] {
      assert [r][1..] == [];
    } else {
      MappedAdds(ms[1..], r);
      assert (ms + [r])[1..] == ms[1..] + [r];
    }
  }

  lemma {:induction false} MappedDrops(ms: seq<Mapping>, i: nat)
    requires i < |ms|
    ensures MappedBytes(ms) == MappedBytes(ms[..i] + ms[i + 1..]) + ms[i].size
    decreases |ms|
  {
    if i == 0 {
      assert ms[..0] + ms[1..] == ms[1..];
    } else {
      MappedDrops(ms[1..], i - 1);
      assert (ms[..i] + ms[i + 1..])[1..] == ms[1..][..i - 1] + ms[1..][i..];
    }
  }

  /** The size classes of Malloc: the constants, and that no free block serves a size between the largest payload
      and MAX_SIZE, from which on mmap is asked. */
  lemma SizeClasses(m: Heap, a: nat, size: nat)
    requires Tiles(m) && Payload(MAX_ORDER) < size
    ensures MAX_SIZE == 128 * Pow2(MAX_ORDER) == 131072 && MAX_SIZE_TO_ALLOCATE == 100_000_000
    ensures !Fits(m, a, size) && Payload(MAX_ORDER) < MAX_SIZE
  {
    Pow2Values();
    if a in m {
      assert BlockOk(m, a);
      PayloadMonotone(m[a].order, MAX_ORDER);
    }
  }

  /** Two mappings with the same base would overlap. */
  lemma BaseIsNew(mapped: seq<Mapping>, base: nat, size: nat, i: nat)
    requires FreshRegion(mapped, base, size) && i < |mapped|
    ensures mapped[i].base != base
  {
    assert Apart(mapped[i], Mapping(base, size));
  }

  class MemList {
    const cookie: nat
    var initialised: bool
    var headers: Store
    var freed: FreeLists
    var mapped: seq<Mapping>
    var data: Memory
    ghost var heap: Heap

    ghost predicate Valid()
      reads this
    {
      && MappedOk(mapped)
      && if initialised then Steady(headers, freed, heap, cookie) else heap == map[] && mapped == [] && AllEmpty(freed)
    }

    /** Mid-operation: `cur` is live in the abstract heap and its own free flag is not yet settled. */
    ghost predicate Working(cur: nat)
      reads this
    {
      MappedOk(mapped) && initialised && MidOperation(headers, freed, heap, cookie, cur)
    }

    constructor (cookieValue: nat)
      ensures Valid() && !initialised && cookie == cookieValue && mapped == []
    {
      cookie := cookieValue;
      initialised := false;
      headers := map[];
      freed := [[], [], [], [], [], [], [], [], [], [], []];
      mapped := [];
      data := map[];
      heap := map[];
    }

    method WriteHeader(a: nat, hd: Header)
      modifies this`headers, this`data
      ensures headers == old(headers)[a := hd]
      ensures data == EraseHeader(old(data), a)
    {
      headers := headers[a := hd];
      data := EraseHeader(data, a);
    }

    /** std::lower_bound, then insert. */
    method AddToFreeOrder(addr: nat, order: nat)
      requires order < |freed|
      modifies this`freed
      ensures freed == old(freed)[order := Insert(old(freed)[order], addr)]
    {
      var l := freed[order];
      var i := 0;
      while i < |l| && l[i] < addr
        invariant 0 <= i <= |l| && forall j | 0 <= j < i :: l[j] < addr
      {
        i := i + 1;
      }
      InsertAt(l, addr, i);
      freed := freed[order := l[..i] + [addr] + l[i..]];
    }

    /** Pop the front of the first non-empty list of sufficient order. */
    method GetFreeBlock(size: nat) returns (r: Ptr)
      requires initialised && Valid()
      modifies this`freed
      ensures r.Null? ==> freed == old(freed) && forall a: nat :: !Fits(heap, a, size)
      ensures r.Null? ==> forall a | a in heap && heap[a].free :: Payload(heap[a].order) < size
      ensures r.At? ==>
                && FirstFit(heap, size, r.addr)
                && FreeAt(heap, r.addr, heap[r.addr].order) && size <= Payload(heap[r.addr].order)
                && (forall b, k: nat | FreeAt(heap, b, k) && size <= Payload(k) ::
                      heap[r.addr].order < k || (heap[r.addr].order == k && r.addr <= b))
                && Represents(headers, freed, Claim(heap, r.addr), cookie, r.addr)
    {
      var i := 0;
      while i <= 10
        invariant 0 <= i <= 11 && freed == old(freed)
        invariant forall a: nat | Fits(heap, a, size) :: heap[a].order >= i
      {
        if size <= Pow2(i) * 128 - HEADER && freed[i] != [] {
          var addr := freed[i][0];
          StartClaim(headers, freed, heap, cookie, i);
          forall b: nat | Fits(heap, b, size) && heap[b].order == i ensures addr <= b {
            assert FreeAt(heap, b, i);
          }
          freed := freed[i := freed[i][1..]];
          return At(addr);
        }
        NoneOfOrder(freed, heap, i, size);
        i := i + 1;
      }
      forall a: nat ensures !Fits(heap, a, size) {
        if a in heap { assert BlockOk(heap, a); }
      }
      assert forall a | a in heap && heap[a].free :: Fits(heap, a, size) || Payload(heap[a].order) < size;
      return Null;
    }

    /** The writes of one pass of the split loop. */
    method SplitOnce(addr: nat, buddy: nat)
      requires addr in headers && 0 < headers[addr].order <= |freed| && buddy != addr
      requires buddy == Xor(addr, Pow2(headers[addr].order - 1))
      requires headers[addr].next.At? ==>
                 headers[addr].next.addr in headers && headers[addr].next.addr !in {addr, buddy}
      modifies this`headers, this`freed, this`data
      ensures headers == SplitHeaders(old(headers), addr, buddy, cookie)
      ensures var k := old(headers)[addr].order - 1;
              freed == old(freed)[k := Insert(old(freed)[k], buddy)]
      ensures OnlyHeaders(old(data), data, {addr, buddy} + Pointee(old(headers)[addr].next))
    {
      ghost var units := {addr, buddy} + Pointee(headers[addr].next);
      OnlyHeadersSelf(data, units);
      var next := headers[addr].next;
      var k := headers[addr].order - 1;
      EraseOnly(old(data), data, buddy, units);
      WriteHeader(buddy, Header(cookie, Pow2(k) * 128 - HEADER, true, false, k, next, At(addr)));
      AddToFreeOrder(buddy, k);
      if next.At? {
        EraseOnly(old(data), data, next.addr, units);
        WriteHeader(next.addr, headers[next.addr].(prev := At(buddy)));
      }
      EraseOnly(old(data), data, addr, units);
      WriteHeader(addr, headers[addr].(order := k, next := At(buddy), size := headers[buddy].size));
    }

    /** One pass of the split loop, against the abstract heap. */
    method SplitPass(addr: nat)
      requires Working(addr) && heap[addr].order > 0
      modifies this`headers, this`freed, this`data, this`heap
      ensures Working(addr) && heap == Halve(old(heap), addr)
      ensures OnlyHeaders(old(data), data, heap.Keys)
    {
      ghost var upper := SplitReads(headers, freed, heap, cookie, addr, heap[addr].order - 1);
      var buddy := Xor(addr, Pow2(headers[addr].order - 1));
      ghost var units := {addr, buddy} + Pointee(headers[addr].next);
      SplitOnce(addr, buddy);
      heap := Halve(heap, addr);
      OnlyHeadersWiden(old(data), data, units, heap.Keys);
    }

    /** Halve the block while its half is large enough, then mark it allocated. */
    method SplitIfPossible(addr: nat, size: nat)
      requires Working(addr) && size <= Payload(heap[addr].order)
      modifies this`headers, this`freed, this`data, this`heap
      ensures Valid() && initialised && heap == SplitDown(old(heap), addr, size)
      ensures OnlyHeaders(old(data), data, heap.Keys)
    {
      assert HeaderAt(headers, heap, cookie, addr);
      if headers[addr].cookie != cookie {
        assert false; // exit(0xdeadbeef)
      }
      OnlyHeadersSelf(data, heap.Keys);
      while headers[addr].order > 0
        invariant Working(addr) && addr in headers && headers[addr].order == heap[addr].order
        invariant headers[addr].size == Payload(heap[addr].order)
        invariant SplitDown(heap, addr, size) == SplitDown(old(heap), addr, size)
        invariant OnlyHeaders(old(data), data, heap.Keys)
        decreases heap[addr].order
      {
        HalfPayload(heap[addr].order);
        if (headers[addr].size - HEADER) / 2 >= size {
          ghost var d, keys := data, heap.Keys;
          SplitPass(addr);
          OnlyHeadersTrans(old(data), d, data, keys, heap.Keys, heap.Keys);
          assert HeaderAt(headers, heap, cookie, addr);
        } else {
          break;
        }
      }
      ghost var d := data;
      SettleLive(addr);
      OnlyHeadersTrans(old(data), d, data, heap.Keys, heap.Keys, heap.Keys);
    }

    /** Mark the block that was worked on allocated. */
    method SettleLive(addr: nat)
      requires Working(addr)
      modifies this`headers, this`data
      ensures Valid() && OnlyHeaders(old(data), data, heap.Keys)
    {
      assert HeaderAt(headers, heap, cookie, addr);
      FinishLive(headers, freed, heap, cookie, addr);
      OnlyHeadersSelf(data, heap.Keys);
      EraseOnly(data, data, addr, heap.Keys);
      WriteHeader(addr, headers[addr].(isFree := false));
    }

    /** The header writes of one merge: the lower block takes over the upper one. */
    method LinkOver(lo: nat, hi: nat)
      requires lo in headers && hi in headers && lo != hi
      requires headers[hi].next.At? ==> headers[hi].next.addr in headers && headers[hi].next.addr != lo
      modifies this`headers, this`data
      ensures headers == MergeHeaders(old(headers), lo, hi)
      ensures OnlyHeaders(old(data), data, {lo} + Pointee(old(headers)[hi].next))
    {
      ghost var units := {lo} + Pointee(headers[hi].next);
      OnlyHeadersSelf(data, units);
      var next := headers[hi].next;
      var k := headers[lo].order + 1;
      EraseOnly(old(data), data, lo, units);
      WriteHeader(lo, headers[lo].(next := next, order := k, size := Pow2(k) * 128 - HEADER, isFree := true));
      if next.At? {
        EraseOnly(old(data), data, next.addr, units);
        WriteHeader(next.addr, headers[next.addr].(prev := At(lo)));
      }
    }

    /** The writes of one pass of the merge loops, whatever the orders of the two blocks. */
    method MergeOnce(addr: nat, buddy: nat) returns (lo: nat)
      requires addr in headers && buddy in headers && addr != buddy && headers[buddy].order < |freed|
      requires var hi := if buddy > addr then buddy else addr;
               headers[hi].next.At? ==> headers[hi].next.addr in headers && headers[hi].next.addr !in {addr, buddy}
      modifies this`headers, this`freed, this`data
      ensures lo == if buddy > addr then addr else buddy
      ensures var hi := if buddy > addr then buddy else addr;
              && headers == MergeHeaders(old(headers), lo, hi)
              && OnlyHeaders(old(data), data, {lo} + Pointee(old(headers)[hi].next))
      ensures var k := old(headers)[buddy].order;
              freed == old(freed)[k := Without(Without(old(freed)[k], buddy), addr)]
    {
      var k := headers[buddy].order;
      freed := freed[k := Without(Without(freed[k], buddy), addr)];
      if buddy > addr {
        LinkOver(addr, buddy);
        lo := addr;
      } else {
        LinkOver(buddy, addr);
        lo := buddy;
      }
    }

    /** One pass of the merge loops, against the abstract heap. */
    method MergePass(addr: nat, buddy: nat) returns (lo: nat)
      requires Working(addr) && CanAbsorb(heap, addr) && buddy == Buddy(addr, heap[addr].order)
      modifies this`headers, this`freed, this`data, this`heap
      ensures lo == Parent(addr, old(heap)[addr].order) && heap == Absorb(old(heap), addr)
      ensures Working(lo) && OnlyHeaders(old(data), data, old(heap).Keys)
    {
      ghost var lower, upper := MergeReads(headers, freed, heap, cookie, addr, buddy);
      ghost var next := headers[upper].next;
      lo := MergeOnce(addr, buddy);
      OnlyHeadersWiden(old(data), data, {lo} + Pointee(next), heap.Keys);
      heap := Absorb(heap, addr);
    }

    /** The loop that UnionIfPossible and SreallocUnion have in common; the latter adds a test of the size to its
        guard. */
    method MergeLoop(start: nat, goal: Goal, strict: bool) returns (addr: nat)
      requires Working(start) && (strict || SafeTo(heap, start, goal))
      modifies this`headers, this`freed, this`data, this`heap
      ensures Working(addr) && (heap, addr) == MergeTo(old(heap), start, goal) && heap.Keys <= old(heap).Keys
      ensures OnlyHeaders(old(data), data, old(heap).Keys)
    {
      addr := start;
      GoalGuard(headers, freed, heap, cookie, addr, goal, strict);
      var buddy := Xor(addr, Pow2(headers[addr].order));
      OnlyHeadersSelf(data, heap.Keys);
      while MergeGuard(headers[buddy], headers[addr], strict) && Wants(goal, headers[addr].size)
        invariant Working(addr) && AtGuard(headers, heap, cookie, addr, buddy, goal, strict)
        invariant strict || SafeTo(heap, addr, goal)
        invariant MergeTo(heap, addr, goal) == MergeTo(old(heap), start, goal) && heap.Keys <= old(heap).Keys
        invariant OnlyHeaders(old(data), data, old(heap).Keys)
        decreases MAX_ORDER - heap[addr].order
      {
        if headers[buddy].cookie != cookie || headers[addr].cookie != cookie {
          assert false; // exit(0xdeadbeef)
        }
        ghost var d, keys := data, heap.Keys;
        AbsorbKeeps(heap, addr);
        addr := MergePass(addr, buddy);
        OnlyHeadersTrans(old(data), d, data, old(heap).Keys, keys, old(heap).Keys);
        GoalGuard(headers, freed, heap, cookie, addr, goal, strict);
        buddy := Xor(addr, Pow2(headers[addr].order));
      }
    }

    /** Free a block: merge it with same-order free buddies, then list it. */
    method UnionIfPossible(start: nat, strict: bool)
      requires Working(start) && (strict || SafeClimb(heap, start))
      modifies this`headers, this`freed, this`data, this`heap
      ensures Valid() && initialised && heap == HeapOps.Free(old(heap), start)
      ensures OnlyHeaders(old(data), data, old(heap).Keys)
    {
      assert HeaderAt(headers, heap, cookie, start);
      if headers[start].isMmap {
        assert false;
      }
      ghost var m := heap;
      MergeToKeeps(m, start, Everything);
      var addr := MergeLoop(start, Everything, strict);
      ghost var d, keys := data, heap.Keys;
      FinishFreeing(addr);
      OnlyHeadersTrans(old(data), d, data, m.Keys, keys, m.Keys);
    }

    /** The end of UnionIfPossible: flag the merged block free and list it. */
    method FinishFreeing(addr: nat)
      requires Working(addr) && !CanAbsorb(heap, addr)
      modifies this`headers, this`freed, this`data, this`heap
      ensures Valid() && initialised && heap == Release(old(heap), addr)
      ensures OnlyHeaders(old(data), data, old(heap).Keys)
    {
      assert BlockOk(heap, addr) && HeaderAt(headers, heap, cookie, addr);
      FinishFree(headers, freed, heap, cookie, addr);
      ReleaseKeeps(heap, addr);
      OnlyHeadersSelf(data, heap.Keys);
      EraseOnly(old(data), data, addr, heap.Keys);
      WriteHeader(addr, headers[addr].(isFree := true));
      AddToFreeOrder(addr, headers[addr].order);
      heap := Release(heap, addr);
    }

    /** Grow a live block in place by merging it with same-order free buddies until it holds `size` bytes.
        The source ends with an insertion into a free list (line 316) that is not made here. */
    method SreallocUnion(start: nat, size: nat, strict: bool) returns (addr: nat)
      requires Working(start) && (strict || SafeGrowth(heap, start, size))
      modifies this`headers, this`freed, this`data, this`heap
      ensures Valid() && initialised && (heap, addr) == Grow(old(heap), start, size)
      ensures OnlyHeaders(old(data), data, old(heap).Keys)
    {
      ghost var m := heap;
      addr := MergeLoop(start, AtLeast(size), strict);
      ghost var d := data;
      SettleLive(addr);
      OnlyHeadersTrans(old(data), d, data, m.Keys, heap.Keys, m.Keys);
    }

    /** The dry run of in-place growth: reads headers, keeps its own copies, changes nothing. It agrees with
        the real growth as long as that meets no free buddy below the block. */
    method CheckIfUnionIsPossible(addr: nat, size: nat, strict: bool) returns (possible: bool)
      requires Valid() && initialised && LiveAt(heap, addr)
      requires (strict || SafeGrowth(heap, addr, size)) && GrowsUpward(heap, addr, size)
      ensures possible <==> GrowsTo(heap, addr, size)
    {
      ghost var g: Heap := heap;
      assert HeaderAt(headers, heap, cookie, addr);
      ProbeReads(headers, freed, heap, g, cookie, addr, headers[addr].order, size, strict);
      var fakeBuddy := Xor(addr, Pow2(headers[addr].order));
      var fakeAddrMm := headers[addr];
      var fakeBuddyMm := headers[fakeBuddy];
      while MergeGuard(fakeBuddyMm, fakeAddrMm, strict) && fakeAddrMm.size < size
        invariant Probing(heap, g, addr, size, strict)
        invariant fakeAddrMm.order == g[addr].order && fakeAddrMm.size == Payload(g[addr].order)
        invariant fakeAddrMm.cookie == cookie && fakeBuddyMm.cookie == cookie
        invariant Aligned(addr, g[addr].order) && fakeBuddy == Buddy(addr, g[addr].order)
        invariant MergeGuard(fakeBuddyMm, fakeAddrMm, strict) && fakeAddrMm.size < size
                  <==> CanAbsorb(g, addr) && Payload(g[addr].order) < size
        decreases MAX_ORDER - g[addr].order
      {
        if fakeBuddyMm.cookie != cookie || fakeAddrMm.cookie != cookie {
          assert false; // exit(0xdeadbeef)
        }
        if fakeBuddy > addr {
          AbsorbUpward(heap, g, addr, size, strict);
          g := Absorb(g, addr);
          var k := fakeAddrMm.order + 1;
          fakeAddrMm := fakeAddrMm.(next := headers[fakeBuddy].next, order := k, size := Pow2(k) * 128 - HEADER);
          ProbeReads(headers, freed, heap, g, cookie, addr, k, size, strict);
          fakeBuddy := Xor(addr, Pow2(k));
          fakeBuddyMm := headers[fakeBuddy];
        } else {
          assert false; // a free buddy below: the source does not terminate from here
        }
      }
      possible := fakeAddrMm.size >= size;
    }

    /** The heap a call starts from: the first call to Malloc sets up the 32 roots. */
    ghost function Before(): Heap
      reads this
    {
      if initialised then heap else Initial()
    }

    /** The first root. */
    method FirstRoot(ghost keys: set<nat>)
      requires 0 in keys && RootsListed(freed, 0)
      modifies this`headers, this`freed, this`data
      ensures RootsWritten(headers, cookie, 1) && RootsListed(freed, 1) && OnlyHeaders(old(data), data, keys)
    {
      Pow2Values();
      OnlyHeadersSelf(data, keys);
      EraseOnly(data, data, 0, keys);
      WriteHeader(0, Header(cookie, 128 * 1024 - HEADER, true, false, MAX_ORDER, At(1024), Null));
      freed := freed[MAX_ORDER := freed[MAX_ORDER] + [0]];
    }

    /** One pass of the set-up loop. */
    method AddRoot(i: nat, ghost keys: set<nat>)
      requires 1 <= i <= 31 && 1024 * i in keys && RootsListed(freed, i)
      requires RootsWritten(headers, cookie, i)
      modifies this`headers, this`freed, this`data
      ensures RootsWritten(headers, cookie, i + 1)
      ensures RootsListed(freed, i + 1) && OnlyHeaders(old(data), data, keys)
    {
      Pow2Values();
      ghost var h := headers;
      var prevAddr, currAddr, nextAddr := (i - 1) * 1024, i * 1024, (i + 1) * 1024;
      freed := freed[MAX_ORDER := freed[MAX_ORDER] + [currAddr]];
      OnlyHeadersSelf(data, keys);
      EraseOnly(data, data, currAddr, keys);
      WriteHeader(currAddr, Header(cookie, 128 * 1024 - HEADER, true, false, MAX_ORDER, At(nextAddr), At(prevAddr)));
      NextRoot(h, headers, cookie, i, currAddr);
    }

    /** The end of the set-up: the last root has no successor. */
    method EndRoots(ghost keys: set<nat>)
      requires 31 * 1024 in keys && RootsWritten(headers, cookie, 32)
      modifies this`headers, this`data
      ensures Chain(headers, Initial(), cookie) && Flags(headers, Initial(), -1)
      ensures OnlyHeaders(old(data), data, keys)
    {
      assert RootWritten(headers, cookie, 31);
      ghost var h := headers;
      OnlyHeadersSelf(data, keys);
      EraseOnly(data, data, 31 * 1024, keys);
      WriteHeader(31 * 1024, headers[31 * 1024].(next := Null));
      LastRoot(h, headers, cookie);
      InitialChain(headers, cookie);
    }

    /** The set-up part of Malloc. */
    method Initialise()
      requires Valid() && !initialised
      modifies this`initialised, this`headers, this`freed, this`data, this`heap
      ensures Valid() && initialised && heap == Initial()
      ensures OnlyHeaders(old(data), data, heap.Keys)
    {
      ghost var keys: set<nat> := Initial().Keys;
      RootInside(0);
      FirstRoot(keys);
      var i := 1;
      while i <= 31
        invariant 1 <= i <= 32 && RootsListed(freed, i) && RootsWritten(headers, cookie, i)
        invariant OnlyHeaders(old(data), data, keys)
      {
        ghost var d := data;
        RootInside(i);
        AddRoot(i, keys);
        OnlyHeadersTrans(old(data), d, data, keys, keys, keys);
        i := i + 1;
      }
      ghost var d := data;
      RootInside(31);
      EndRoots(keys);
      OnlyHeadersTrans(old(data), d, data, keys, keys, keys);
      InitialReady(headers, freed, cookie);
      InitialKeeps();
      heap := Initial();
      initialised := true;
    }

    /** The first call sets up the heap. */
    method Start()
      requires Valid()
      modifies this`initialised, this`headers, this`freed, this`data, this`heap
      ensures Valid() && initialised && heap == old(Before()) && OnlyHeaders(old(data), data, heap.Keys)
    {
      if !initialised {
        Initialise();
      } else {
        OnlyHeadersSelf(data, heap.Keys);
      }
    }

    /** Take a free block of the arena and split it down to the size. */
    method TakeBlock(size: nat) returns (p: Pointer)
      requires Valid() && initialised
      modifies this`headers, this`freed, this`data, this`heap
      ensures Valid() && !p.Mapped?
      ensures p.Nil? ==> heap == old(heap) && data == old(data) && forall a: nat :: !Fits(heap, a, size)
      ensures p.Arena? ==> FirstFit(old(heap), size, p.unit) && heap == Alloc(old(heap), p.unit, size)
      ensures OnlyHeaders(old(data), data, heap.Keys)
    {
      OnlyHeadersSelf(data, heap.Keys);
      var freeAddr := GetFreeBlock(size);
      if freeAddr.Null? {
        return Nil;
      }
      ClaimKeeps(heap, freeAddr.addr);
      heap := Claim(heap, freeAddr.addr);
      SplitIfPossible(freeAddr.addr, size);
      return Arena(freeAddr.addr);
    }

    /** smalloc. `region` is what mmap would return: a fresh region, or Null for MAP_FAILED. */
    method Malloc(size: nat, region: Ptr) returns (p: Pointer)
      requires Valid()
      requires region.At? ==> FreshRegion(mapped, region.addr, size)
      modifies this
      ensures Valid() && initialised
      ensures size == 0 || size > MAX_SIZE_TO_ALLOCATE ==>
                p == Nil && heap == old(Before()) && mapped == old(mapped)
      ensures 0 < size < MAX_SIZE ==>
                && !p.Mapped? && mapped == old(mapped)
                && (p.Nil? <==> forall a: nat :: !Fits(old(Before()), a, size))
                && (p.Nil? ==> heap == old(Before()))
                && (p.Arena? ==> FirstFit(old(Before()), size, p.unit) && heap == Alloc(old(Before()), p.unit, size))
      ensures MAX_SIZE <= size <= MAX_SIZE_TO_ALLOCATE ==>
                && heap == old(Before())
                && (region.Null? ==> p == Nil && mapped == old(mapped))
                && (region.At? ==> p == Mapped(region.addr) && mapped == old(mapped) + [Mapping(region.addr, size)])
      ensures OnlyHeaders(old(data), data, heap.Keys)
      ensures OthersKept(old(Before()), old(data), heap, data, -1) && HighSame(old(data), data)
    {
      ghost var m := Before();
      Start();
      AllocatedBytes(m, heap, old(data), data);
      if size == 0 || size > MAX_SIZE_TO_ALLOCATE {
        return Nil;
      }
      if size >= MAX_SIZE {
        if region.Null? {
          return Nil;
        }
        mapped := mapped + [Mapping(region.addr, size)];
        return Mapped(region.addr);
      }
      ghost var d := data;
      p := TakeBlock(size);
      if p.Arena? {
        TakenBytes(m, p.unit, size, old(data), d, data);
      }
    }

    /** sfree. The source has no double-free check: the client must hold a live pointer. */
    method Free(p: Pointer, strict: bool)
      requires Valid()
      requires p.Arena? ==> initialised && LiveAt(heap, p.unit) && (strict || SafeClimb(heap, p.unit))
      requires p.Mapped? ==> exists i :: 0 <= i < |mapped| && mapped[i].base == p.base
      modifies this
      ensures Valid() && initialised == old(initialised)
      ensures p.Nil? ==> heap == old(heap) && data == old(data) && mapped == old(mapped)
      ensures p.Arena? ==> heap == HeapOps.Free(old(heap), p.unit) && mapped == old(mapped)
      ensures p.Arena? ==> OthersKept(old(heap), old(data), heap, data, p.unit)
      ensures p.Arena? ==> OnlyHeaders(old(data), data, old(heap).Keys) && HighSame(old(data), data)
      ensures p.Mapped? ==> heap == old(heap) && data == old(data)
      ensures p.Mapped? ==> exists i :: 0 <= i < |old(mapped)| && old(mapped)[i].base == p.base
                                        && mapped == old(mapped)[..i] + old(mapped)[i + 1..]
    {
      if p.Nil? {
        return;
      }
      if p.Mapped? {
        var i := 0;
        while mapped[i].base != p.base
          invariant 0 <= i < |mapped|
          invariant exists j :: i <= j < |mapped| && mapped[j].base == p.base
          decreases |mapped| - i
        {
          i := i + 1;
        }
        mapped := mapped[..i] + mapped[i + 1..];
      } else {
        ghost var m := heap;
        UnionIfPossible(p.unit, strict);
        FreeKeeps(m, p.unit);
        KeptByHeaders(m, heap, old(data), data, p.unit);
        HighByHeaders(m, old(data), data);
      }
    }

    method Memmove(dst: nat, src: nat, n: nat)
      modifies this`data
      ensures Moved(old(data), data, dst, src, n)
    {
      MoveIsMoved(data, dst, src, n);
      data := Move(data, dst, src, n);
    }

    /** In-place growth of a live block followed by the memmove of its old payload. Growth over a lower buddy
        slides the payload down. */
    method ExtendInPlace(a: nat, size: nat, strict: bool) returns (u: nat)
      requires Valid() && initialised && LiveAt(heap, a) && (strict || SafeGrowth(heap, a, size))
      modifies this`headers, this`freed, this`data, this`heap
      ensures Valid() && initialised && (heap, u) == Grow(old(heap), a, size)
      ensures Extended(old(heap), old(data), heap, data, a, u)
    {
      ghost var m, d := heap, data;
      assert HeaderAt(headers, heap, cookie, a);
      var oldSize := headers[a].size;
      u := SreallocUnion(a, size, strict);
      GrownIsMerged(m, a, size, heap, u);
      ghost var d1 := data;
      Memmove(128 * u + HEADER, 128 * a + HEADER, oldSize);
      InPlaceMove(m, d, heap, d1, data, a, u);
    }

    /** The copying path of Srealloc: allocate, memmove, free. */
    method MoveElsewhere(a: nat, size: nat, region: Ptr, strict: bool) returns (p: Pointer)
      requires Valid() && initialised && LiveAt(heap, a)
      requires Payload(heap[a].order) < size <= MAX_SIZE_TO_ALLOCATE
      requires region.At? ==> FreshRegion(mapped, region.addr, size)
      requires strict || ReleaseSafe(heap, a, size, region.At?)
      modifies this
      ensures Valid() && initialised && Reallocated(old(heap), old(data), heap, data, a, p)
      ensures MovedElsewhere(old(heap), heap, a, size, region, p)
      ensures mapped == old(mapped) + if p.Mapped? then [Mapping(p.base, size)] else []
    {
      ghost var m, d := heap, data;
      assert HeaderAt(headers, heap, cookie, a);
      var oldSize := headers[a].size;
      p := Malloc(size, region);
      if p.Nil? {
        return;
      }
      ghost var m1, d1 := heap, data;
      ReadyToRelease(m, m1, a, size, region, p, strict);
      ghost var d2 := CopyThenFree(a, PayloadStart(p), oldSize, strict);
      ElsewhereBytes(m, m1, d, d1, d2, data, a, size, region, p);
    }

    method CopyThenFree(a: nat, dst: nat, n: nat, strict: bool) returns (ghost d2: Memory)
      requires Valid() && initialised && LiveAt(heap, a) && (strict || SafeClimb(heap, a))
      modifies this
      ensures Valid() && initialised && mapped == old(mapped) && heap == HeapOps.Free(old(heap), a)
      ensures Moved(old(data), d2, dst, 128 * a + HEADER, n) && OnlyHeaders(d2, data, old(heap).Keys)
    {
      Memmove(dst, 128 * a + HEADER, n);
      d2 := data;
      Free(Arena(a), strict);
    }

    /** srealloc of a block of the arena, for the sizes the wrapper lets through: the three paths of the source. */
    method ReallocPaths(a: nat, size: nat, region: Ptr, strict: bool) returns (p: Pointer)
      requires Valid() && initialised && LiveAt(heap, a) && 0 < size <= MAX_SIZE_TO_ALLOCATE
      requires region.At? ==> FreshRegion(mapped, region.addr, size)
      requires ReallocTerminates(heap, a, size) && (strict || ReallocSafe(heap, a, size, region.At?))
      modifies this
      ensures Valid() && initialised && ReallocOutcome(old(heap), heap, a, size, region, p)
      ensures Reallocated(old(heap), old(data), heap, data, a, p)
      ensures mapped == old(mapped) + if p.Mapped? then [Mapping(p.base, size)] else []
      ensures size <= Payload(old(heap)[a].order) ==> data == old(data)
    {
      assert HeaderAt(headers, heap, cookie, a);
      if size <= headers[a].size {
        StaysPut(heap, data, a);
        return Arena(a);
      }
      var possible := CheckIfUnionIsPossible(a, size, strict);
      if possible {
        ghost var m, d := heap, data;
        var u := ExtendInPlace(a, size, strict);
        ExtendedBytes(m, d, heap, data, a, u);
        return Arena(u);
      }
      p := MoveElsewhere(a, size, region, strict);
    }

    /** srealloc. It returns the block itself, the block grown in place, or a new block or mapping, and fails only if
        no free block suffices and mmap is refused or not asked. The result starts with the old payload; no other
        live block, no other mapping and none of their bytes change. */
    method Srealloc(a: nat, size: nat, region: Ptr, strict: bool) returns (p: Pointer)
      requires Valid() && initialised && LiveAt(heap, a) && 0 < size <= MAX_SIZE_TO_ALLOCATE
      requires region.At? ==> FreshRegion(mapped, region.addr, size)
      requires ReallocTerminates(heap, a, size) && (strict || ReallocSafe(heap, a, size, region.At?))
      modifies this
      ensures Valid() && initialised && ReallocOutcome(old(heap), heap, a, size, region, p)
      ensures TakesOver(old(heap), heap, a, size, p) && Reallocated(old(heap), old(data), heap, data, a, p)
      ensures !p.Nil? ==> Copied(old(data), 128 * a + HEADER, data, PayloadStart(p), Payload(old(heap)[a].order))
      ensures mapped == old(mapped) + if p.Mapped? then [Mapping(p.base, size)] else []
      ensures MappingsKept(old(mapped), old(data), data)
      ensures size <= Payload(old(heap)[a].order) ==> data == old(data)
    {
      ghost var m, d := heap, data;
      p := ReallocPaths(a, size, region, strict);
      OutcomeTakesOver(m, heap, a, size, region, p);
      if p.Mapped? {
        HighKeepsMappings(old(mapped), d, data, p.base, size, Payload(m[a].order));
      } else {
        HighKeepsMappings(old(mapped), d, data, 0, 0, 0);
      }
    }

    /** Walking the block list counts what the eleven free lists hold. */
    method GetNumberOfFreeBlocks() returns (counter: nat)
      requires Valid()
      ensures counter == |FreeStarts(heap)|
      ensures initialised ==> counter == ListedBelow(freed, MAX_ORDER + 1)
    {
      counter := 0;
      if !initialised {
        return;
      }
      var curr := At(0);
      while curr.At?
        invariant curr.At? ==> curr.addr in heap
        invariant counter + FreeFrom(heap, if curr.At? then curr.addr else ARENA) == FreeFrom(heap, 0)
        decreases BlocksFrom(heap, if curr.At? then curr.addr else ARENA)
      {
        assert HeaderAt(headers, heap, cookie, curr.addr) && BlockOk(heap, curr.addr);
        if headers[curr.addr].isFree {
          counter := counter + 1;
        }
        curr := headers[curr.addr].next;
      }
      CountedTwice(freed, heap);
    }

    method GetNumberOfAllocatedBlocks() returns (counter: nat)
      requires Valid()
      ensures counter == |heap| + |mapped|
    {
      counter := 0;
      if initialised {
        var curr := At(0);
        while curr.At?
          invariant curr.At? ==> curr.addr in heap
          invariant counter + BlocksFrom(heap, if curr.At? then curr.addr else ARENA) == BlocksFrom(heap, 0)
          decreases BlocksFrom(heap, if curr.At? then curr.addr else ARENA)
        {
          assert HeaderAt(headers, heap, cookie, curr.addr) && BlockOk(heap, curr.addr);
          counter := counter + 1;
          curr := headers[curr.addr].next;
        }
        ListVisitsAll(heap, 0);
        assert StartsFrom(heap, 0) == heap.Keys;
      }
      counter := counter + |mapped|;
    }

    /** The shortcut: the distance from the first to the last block plus the last payload, less the headers in
        between, is the sum of the payloads of all blocks. */
    method GetNumberOfAllocatedBytes() returns (bytes: nat)
      requires Valid()
      ensures !initialised ==> bytes == 0
      ensures initialised ==> bytes == PayloadFrom(heap, 0) + MappedBytes(mapped)
      ensures initialised ==> bytes + HEADER * |heap| == 128 * ARENA + MappedBytes(mapped)
    {
      if !initialised {
        return 0;
      }
      var curr, first, last := At(0), 0, 0;
      var counter := 0;
      while curr.At?
        invariant curr.At? ==> curr.addr in heap
        invariant counter + BlocksFrom(heap, if curr.At? then curr.addr else ARENA) == BlocksFrom(heap, 0)
        invariant last in heap && (counter > 0 ==> End(heap, last) == if curr.At? then curr.addr else ARENA)
        invariant counter == 0 ==> curr == At(0)
        decreases BlocksFrom(heap, if curr.At? then curr.addr else ARENA)
      {
        assert HeaderAt(headers, heap, cookie, curr.addr) && BlockOk(heap, curr.addr);
        counter := counter + 1;
        last := curr.addr;
        curr := headers[curr.addr].next;
      }
      assert HeaderAt(headers, heap, cookie, last);
      ListVisitsAll(heap, 0);
      assert StartsFrom(heap, 0) == heap.Keys;
      BytesAddUp(heap, 0);
      MulSucc(HEADER, counter - 1);
      bytes := 128 * last - 128 * first + headers[last].size - HEADER * (counter - 1);
      var i := 0;
      ghost var heapBytes := bytes;
      while i < |mapped|
        invariant 0 <= i <= |mapped| && bytes + MappedBytes(mapped[i..]) == heapBytes + MappedBytes(mapped)
      {
        bytes := bytes + mapped[i].size;
        assert mapped[i..][1..] == mapped[i + 1..];
        i := i + 1;
      }
    }

    /** What the count of bytes says of a mapping: it rises by exactly the size asked for, and falls back when the
        mapping is freed. */
    method CountOverMapping(size: nat, region: Ptr) returns (before: nat, during: nat, after: nat)
      requires Valid() && initialised && MAX_SIZE <= size <= MAX_SIZE_TO_ALLOCATE
      requires region.At? && FreshRegion(mapped, region.addr, size)
      modifies this
      ensures during == before + size && after == before
      ensures Valid() && heap == old(heap) && mapped == old(mapped)
    {
      ghost var ms := mapped;
      before := GetNumberOfAllocatedBytes();
      var p := Malloc(size, region);
      during := GetNumberOfAllocatedBytes();
      MappedAdds(ms, Mapping(region.addr, size));
      assert mapped[|ms|].base == p.base;
      Free(p, true);
      DroppedLast(ms, mapped, region.addr, size);
      after := GetNumberOfAllocatedBytes();
    }
  }

  lemma DroppedLast(ms: seq<Mapping>, ms': seq<Mapping>, base: nat, size: nat)
    requires FreshRegion(ms, base, size)
    requires var all := ms + [Mapping(base, size)];
             exists i :: 0 <= i < |all| && all[i].base == base && ms' == all[..i] + all[i + 1..]
    ensures ms' == ms
  {
    var all := ms + [Mapping(base, size)];
    var i :| 0 <= i < |all| && all[i].base == base && ms' == all[..i] + all[i + 1..];
    if i < |ms| { BaseIsNew(ms, base, size, i); }
  }
}
