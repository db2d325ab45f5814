/** The abstract heap of the buddy allocator: a set of blocks that tile the 4 MB arena.

    Addresses are offsets from the start of the arena in units of 128 bytes (START_SIZE), so an order-k
    block covers 2^k units and the arena is 32 roots of order 10. While a block is being split, merged or
    grown it is kept live, so every intermediate heap of an operation is itself a coalesced tiling.
 */
module Tiling {
  import opened Dyadic

  const MAX_ORDER: nat := 10
  const ROOTS: nat := 32
  const ARENA: nat := 32768

  /** sizeof(MallocMetadata): nothing below depends on more than these bounds. */
  type HeaderSize = x: nat | 0 < x < 128 witness 40
  const HEADER: HeaderSize

  datatype Block = Block(order: nat, free: bool)
  type Heap = map<nat, Block>

  /** Usable bytes of an order-k block. */
  function Payload(k: nat): nat {
    Pow2(k) * 128 - HEADER
  }

  /** The half-size test of SplitIfPossible, (size - sizeof) / 2, is exactly the payload one order down. */
  lemma HalfPayload(k: nat)
    requires k > 0
    ensures Payload(k) >= HEADER && (Payload(k) - HEADER) / 2 == Payload(k - 1) < Payload(k)
  {
  }

  function End(m: Heap, a: nat): nat
    requires a in m
  {
    a + Pow2(m[a].order)
  }

  predicate FreeAt(m: Heap, a: nat, k: nat) {
    a in m && m[a] == Block(k, true)
  }

  predicate LiveAt(m: Heap, a: nat) {
    a in m && !m[a].free
  }

  ghost predicate BlockOk(m: Heap, a: nat)
    requires a in m
  {
    && m[a].order <= MAX_ORDER
    && Aligned(a, m[a].order)
    && (End(m, a) == ARENA || (End(m, a) < ARENA && End(m, a) in m))
  }

  /** The blocks cover the arena without gaps or overlaps, each aligned to its own size. */
  ghost predicate Tiles(m: Heap) {
    && 0 in m
    && (forall a {:trigger BlockOk(m, a)} | a in m :: BlockOk(m, a))
    && (forall a, b | a in m && b in m && a < b :: End(m, a) <= b)
  }

  /** No two free buddies of equal order below 10. */
  ghost predicate Coalesced(m: Heap) {
    forall a: nat, k: nat {:trigger FreeAt(m, Buddy(a, k), k)} |
      FreeAt(m, a, k) && k < MAX_ORDER && Aligned(a, k) :: !FreeAt(m, Buddy(a, k), k)
  }

  /** The client's view: the live blocks. */
  function Live(m: Heap): Heap {
    m - FreeStarts(m)
  }

  function FreeStarts(m: Heap): set<nat> {
    set a | a in m && m[a].free
  }

  /** The first n roots, free blocks of order 10. */
  function Roots(n: nat): Heap {
    if n == 0 then map[] else Roots(n - 1)[1024 * (n - 1) := Block(MAX_ORDER, true)]
  }

  function Initial(): Heap {
    Roots(ROOTS)
  }

  // ----- geometry of tilings

  lemma {:induction false} CoverFrom(m: Heap, c: nat, x: nat) returns (d: nat)
    requires Tiles(m) && c in m && c <= x < ARENA
    ensures d in m && d <= x < End(m, d)
    decreases x - c
  {
    if x < End(m, c) {
      d := c;
    } else {
      assert BlockOk(m, c);
      d := CoverFrom(m, End(m, c), x);
    }
  }

  lemma Covering(m: Heap, x: nat) returns (d: nat)
    requires Tiles(m) && x < ARENA
    ensures d in m && d <= x < End(m, d)
  {
    d := CoverFrom(m, 0, x);
  }

  lemma WithinArena(a: nat, k: nat)
    requires Aligned(a, k) && k <= MAX_ORDER + 1 && a < ARENA
    ensures a + Pow2(k) <= ARENA
  {
    Pow2Values();
    ZeroAligned(15);
    Nested(a, k, 0, 15);
  }

  /** An aligned interval that meets a block no larger than itself is subdivided exactly: it starts a
      block of at most its own order. */
  lemma RegionStart(m: Heap, a: nat, b: nat, k: nat)
    requires Tiles(m) && a in m && m[a].order <= k
    requires Aligned(b, k) && b <= a < b + Pow2(k)
    ensures b in m && m[b].order <= k
  {
    assert BlockOk(m, a);
    var c := Covering(m, b);
    assert BlockOk(m, c);
    if m[c].order <= k {
      Nested(c, m[c].order, b, k);
    } else {
      Nested(b, k, c, m[c].order);
    }
  }

  /** A block that meets an aligned interval which holds a smaller block is itself smaller than the interval. */
  lemma CoverSmaller(m: Heap, a: nat, b: nat, k: nat, c: nat)
    requires Tiles(m) && a in m && m[a].order < k && Aligned(b, k) && b <= a < b + Pow2(k)
    requires c in m && c < b + Pow2(k) && b < End(m, c)
    ensures m[c].order < k
  {
    assert BlockOk(m, c);
    if m[c].order >= k { Nested(b, k, c, m[c].order); }
  }

  /** A block no larger than an aligned interval that covers the start of the interval starts there. */
  lemma SmallCoverStarts(m: Heap, c: nat, b: nat, k: nat)
    requires Tiles(m) && c in m && m[c].order <= k && Aligned(b, k) && c <= b < End(m, c)
    ensures c == b
  {
    assert BlockOk(m, c);
    Nested(c, m[c].order, b, k);
  }

  /** The buddy of a block (or of any aligned interval that starts one of its blocks) is the start of a
      current block, of at most the same order, inside the arena. */
  lemma BuddyStart(m: Heap, a: nat, k: nat)
    requires Tiles(m) && a in m && m[a].order <= k <= MAX_ORDER && Aligned(a, k)
    ensures Buddy(a, k) in m && m[Buddy(a, k)].order <= k && Buddy(a, k) + Pow2(k) <= ARENA
  {
    var b, p := Buddy(a, k), Parent(a, k);
    BuddyWithin(a, k);
    StartInside(m, a);
    WithinArena(p, k + 1);
    var c := Covering(m, b);
    CoverSmaller(m, a, p, k + 1, c);
    SmallCoverStarts(m, c, b, k);
  }

  lemma StartInside(m: Heap, a: nat)
    requires Tiles(m) && a in m
    ensures a < ARENA
  {
    assert BlockOk(m, a);
  }

  // ----- the steps every operation is made of

  /** Mark a free block live. */
  function Claim(m: Heap, a: nat): Heap
    requires a in m
  {
    m[a := Block(m[a].order, false)]
  }

  /** Mark a live block free. */
  function Release(m: Heap, a: nat): Heap
    requires a in m
  {
    m[a := Block(m[a].order, true)]
  }

  /** Split a live block: the lower half stays live, the upper half becomes free. */
  function Halve(m: Heap, a: nat): Heap
    requires a in m && m[a].order > 0
  {
    var k := m[a].order - 1;
    m[a := Block(k, false)][a + Pow2(k) := Block(k, true)]
  }

  ghost predicate CanAbsorb(m: Heap, a: nat) {
    && a in m
    && m[a].order < MAX_ORDER
    && Aligned(a, m[a].order)
    && FreeAt(m, Buddy(a, m[a].order), m[a].order)
  }

  /** Merge a live block with its free buddy of the same order; the union is live. */
  ghost function Absorb(m: Heap, a: nat): Heap
    requires CanAbsorb(m, a)
  {
    var k := m[a].order;
    var p := Parent(a, k);
    (m - {a, Buddy(a, k)})[p := Block(k + 1, false)]
  }

  lemma SameOrdersTile(m: Heap, n: Heap)
    requires Tiles(m) && m.Keys == n.Keys && forall x | x in m :: n[x].order == m[x].order
    ensures Tiles(n)
  {
    forall x | x in n ensures BlockOk(n, x) { assert BlockOk(m, x); }
    forall x, y | x in n && y in n && x < y ensures End(n, x) <= y { assert End(m, x) <= y; }
  }

  /** Fewer free blocks, nothing to coalesce. */
  lemma FewerFreeCoalesced(m: Heap, n: Heap)
    requires Coalesced(m)
    requires forall x: nat, k: nat | FreeAt(n, x, k) :: FreeAt(m, x, k)
    ensures Coalesced(n)
  {
    forall x: nat, k: nat | FreeAt(n, x, k) && k < MAX_ORDER && Aligned(x, k)
      ensures !FreeAt(n, Buddy(x, k), k)
    {
      assert !FreeAt(m, Buddy(x, k), k);
    }
  }

  /** One more free block, whose buddy is not free at the same order. */
  lemma OneMoreFreeCoalesced(m: Heap, n: Heap, a: nat, j: nat)
    requires Coalesced(m) && Aligned(a, j)
    requires forall x: nat, k: nat | FreeAt(n, x, k) :: FreeAt(m, x, k) || (x == a && k == j)
    requires !FreeAt(n, Buddy(a, j), j) || j >= MAX_ORDER
    ensures Coalesced(n)
  {
    forall x: nat, k: nat | FreeAt(n, x, k) && k < MAX_ORDER && Aligned(x, k)
      ensures !FreeAt(n, Buddy(x, k), k)
    {
      assert FreeAt(m, x, k) ==> !FreeAt(m, Buddy(x, k), k);
      if Buddy(x, k) == a && k == j { BuddyInvolution(x, k); }
    }
  }

  lemma ClaimKeeps(m: Heap, a: nat)
    requires Tiles(m) && Coalesced(m) && a in m && m[a].free
    ensures Tiles(Claim(m, a)) && Coalesced(Claim(m, a))
    ensures Live(Claim(m, a)) == Live(m)[a := Block(m[a].order, false)]
  {
    SameOrdersTile(m, Claim(m, a));
    FewerFreeCoalesced(m, Claim(m, a));
  }

  lemma ReleaseKeeps(m: Heap, a: nat)
    requires Tiles(m) && Coalesced(m) && LiveAt(m, a) && !CanAbsorb(m, a)
    ensures Tiles(Release(m, a)) && Coalesced(Release(m, a))
    ensures Live(Release(m, a)) == Live(m) - {a}
  {
    assert BlockOk(m, a);
    SameOrdersTile(m, Release(m, a));
    OneMoreFreeCoalesced(m, Release(m, a), a, m[a].order);
  }

  lemma HalfOf(m: Heap, a: nat)
    requires Tiles(m) && a in m && m[a].order > 0
    ensures var k := m[a].order - 1;
            && End(m, a) == a + 2 * Pow2(k) && Aligned(a, k) && Aligned(a + Pow2(k), k)
            && a + Pow2(k) !in m
  {
    var k := m[a].order - 1;
    assert BlockOk(m, a);
    AlignedDown(a, k, k + 1);
    HalfFacts(a, k);
  }

  lemma HalveBlock(m: Heap, a: nat, x: nat)
    requires Tiles(m) && a in m && m[a].order > 0 && x in Halve(m, a)
    ensures BlockOk(Halve(m, a), x)
  {
    HalfOf(m, a);
    assert BlockOk(m, a);
    if x in m { assert BlockOk(m, x); }
  }

  lemma HalveApart(m: Heap, a: nat, x: nat, y: nat)
    requires Tiles(m) && a in m && m[a].order > 0
    requires x in Halve(m, a) && y in Halve(m, a) && x < y
    ensures End(Halve(m, a), x) <= y
  {
    HalfOf(m, a);
    if x !in m {
      assert End(m, a) <= y;
    } else if y !in m {
      assert x < a ==> End(m, x) <= a;
    } else {
      assert End(m, x) <= y;
    }
  }

  lemma HalveTiles(m: Heap, a: nat)
    requires Tiles(m) && a in m && m[a].order > 0
    ensures Tiles(Halve(m, a))
    ensures a + Pow2(m[a].order - 1) !in m
  {
    HalfOf(m, a);
    forall x | x in Halve(m, a) ensures BlockOk(Halve(m, a), x) { HalveBlock(m, a, x); }
    forall x, y | x in Halve(m, a) && y in Halve(m, a) && x < y ensures End(Halve(m, a), x) <= y {
      HalveApart(m, a, x, y);
    }
  }

  lemma HalveKeeps(m: Heap, a: nat)
    requires Tiles(m) && Coalesced(m) && LiveAt(m, a) && m[a].order > 0
    ensures Tiles(Halve(m, a)) && Coalesced(Halve(m, a))
    ensures a + Pow2(m[a].order - 1) !in m
    ensures Live(Halve(m, a)) == Live(m)[a := Block(m[a].order - 1, false)]
  {
    HalveTiles(m, a);
    var k := m[a].order - 1;
    assert BlockOk(m, a);
    AlignedDown(a, k, k + 1);
    BuddyInvolution(a, k);
    OneMoreFreeCoalesced(m, Halve(m, a), a + Pow2(k), k);
  }

  lemma PairOf(m: Heap, a: nat)
    requires Tiles(m) && CanAbsorb(m, a)
    ensures var k := m[a].order;
            var p := Parent(a, k);
            && {p, p + Pow2(k)} == {a, Buddy(a, k)} && p in m && p + Pow2(k) in m
            && m[p].order == k && m[p + Pow2(k)].order == k
            && Aligned(p, k + 1) && Pow2(k + 1) == 2 * Pow2(k)
  {
    var k := m[a].order;
    if Aligned(a, k + 1) {
      assert Parent(a, k) == a && Buddy(a, k) == a + Pow2(k);
    } else {
      assert Parent(a, k) == Buddy(a, k) && a == Buddy(a, k) + Pow2(k);
    }
  }

  lemma AbsorbEnd(m: Heap, a: nat)
    requires Tiles(m) && CanAbsorb(m, a)
    ensures var p := Parent(a, m[a].order);
            && p in Absorb(m, a) && Absorb(m, a)[p].order == m[a].order + 1 && m[p].order == m[a].order
            && p + Pow2(m[a].order) in m && End(Absorb(m, a), p) == End(m, p + Pow2(m[a].order))
  {
    PairOf(m, a);
  }

  lemma AbsorbLow(m: Heap, a: nat)
    requires Tiles(m) && CanAbsorb(m, a)
    ensures BlockOk(Absorb(m, a), Parent(a, m[a].order))
  {
    PairOf(m, a);
    assert BlockOk(m, Parent(a, m[a].order) + Pow2(m[a].order));
  }

  lemma AbsorbBlock(m: Heap, a: nat, x: nat)
    requires Tiles(m) && CanAbsorb(m, a) && x in Absorb(m, a) && x != Parent(a, m[a].order)
    ensures BlockOk(Absorb(m, a), x)
  {
    PairOf(m, a);
    var p := Parent(a, m[a].order);
    assert BlockOk(m, x);
    assert x < p ==> End(m, x) <= p;
    assert x > p ==> End(m, p) <= x;
  }

  lemma AbsorbApart(m: Heap, a: nat, x: nat, y: nat)
    requires Tiles(m) && CanAbsorb(m, a)
    requires x in Absorb(m, a) && y in Absorb(m, a) && x < y
    ensures End(Absorb(m, a), x) <= y
  {
    PairOf(m, a);
    var p := Parent(a, m[a].order);
    var q := p + Pow2(m[a].order);
    assert x == p ==> End(m, p) <= y && (q < y ==> End(m, q) <= y);
  }

  lemma AbsorbTiles(m: Heap, a: nat)
    requires Tiles(m) && CanAbsorb(m, a)
    ensures Tiles(Absorb(m, a))
  {
    PairOf(m, a);
    assert 0 in Absorb(m, a);
    AbsorbLow(m, a);
    forall x | x in Absorb(m, a) ensures BlockOk(Absorb(m, a), x) {
      if x != Parent(a, m[a].order) { AbsorbBlock(m, a, x); }
    }
    forall x, y | x in Absorb(m, a) && y in Absorb(m, a) && x < y ensures End(Absorb(m, a), x) <= y {
      AbsorbApart(m, a, x, y);
    }
  }

  lemma AbsorbKeeps(m: Heap, a: nat)
    requires Tiles(m) && Coalesced(m) && LiveAt(m, a) && CanAbsorb(m, a)
    ensures Tiles(Absorb(m, a)) && Coalesced(Absorb(m, a))
    ensures var k := m[a].order;
            var p := Parent(a, k);
            && p in Absorb(m, a) && Absorb(m, a)[p] == Block(k + 1, false)
            && Live(Absorb(m, a)) == (Live(m) - {a})[p := Block(k + 1, false)]
  {
    AbsorbTiles(m, a);
    FewerFreeCoalesced(m, Absorb(m, a));
  }

  // ----- a coalesced tiling is determined by its live blocks

  /** An aligned interval made only of free blocks is a single block of a coalesced heap. */
  lemma {:induction false} FreeRegionIsOneBlock(m: Heap, b: nat, k: nat)
    requires Tiles(m) && Coalesced(m) && k <= MAX_ORDER && Aligned(b, k)
    requires b in m && m[b].order <= k
    requires forall x | x in m && b <= x < b + Pow2(k) :: m[x].free
    ensures m[b].order == k
    decreases k
  {
    if m[b].order < k {
      var h := UpperHalf(m, b, k);
      FreeRegionIsOneBlock(m, b, k - 1);
      FreeRegionIsOneBlock(m, h, k - 1);
      assert FreeAt(m, b, k - 1) && FreeAt(m, Buddy(b, k - 1), k - 1);
    }
  }

  /** The halves of an aligned interval that starts with a smaller block. */
  lemma UpperHalf(m: Heap, b: nat, k: nat) returns (h: nat)
    requires Tiles(m) && k <= MAX_ORDER && Aligned(b, k) && b in m && m[b].order < k
    ensures Aligned(b, k - 1) && h == Buddy(b, k - 1) == b + Pow2(k - 1) && Pow2(k) == 2 * Pow2(k - 1)
    ensures h in m && m[h].order <= k - 1
  {
    AlignedDown(b, k - 1, k);
    HalfFacts(b, k - 1);
    BuddyStart(m, b, k - 1);
    h := Buddy(b, k - 1);
  }

  lemma LiveTransfer(m: Heap, n: Heap, a: nat)
    requires Live(m) == Live(n) && LiveAt(m, a)
    ensures LiveAt(n, a) && n[a] == m[a]
  {
    assert a in Live(n) && Live(n)[a] == Live(m)[a];
  }

  /** Every block of one coalesced heap is a block of the other, when their live blocks agree. */
  lemma SameBlock(m: Heap, n: Heap, a: nat)
    requires Tiles(m) && Coalesced(m) && Tiles(n) && Coalesced(n) && Live(m) == Live(n)
    requires a in m && m[a].free
    ensures a in n && n[a] == m[a]
  {
    var k := m[a].order;
    assert BlockOk(m, a);
    var b := Covering(n, a);
    var j := n[b].order;
    assert BlockOk(n, b);
    if LiveAt(n, b) { LiveTransfer(n, m, b); assert false; }
    if j >= k {
      Nested(a, k, b, j);
      RegionStart(m, a, b, j);
      OnlyFreeInside(m, n, b, j);
      FreeRegionIsOneBlock(m, b, j);
    } else {
      Nested(b, j, a, k);
      OnlyFreeInside(n, m, a, k);
      FreeRegionIsOneBlock(n, a, k);
    }
  }

  /** Inside a free block of n, the heap m has no live block. */
  lemma OnlyFreeInside(m: Heap, n: Heap, b: nat, k: nat)
    requires Tiles(n) && FreeAt(n, b, k) && Live(m) == Live(n)
    ensures forall x | x in m && b <= x < b + Pow2(k) :: m[x].free
  {
    forall x | x in m && b <= x < b + Pow2(k) ensures m[x].free {
      assert !m[x].free ==> x in Live(n);
      assert x in n ==> x == b || End(n, b) <= x;
    }
  }

  /** Canonical form: two coalesced tilings with the same live blocks are the same heap. */
  lemma Canonical(m: Heap, n: Heap)
    requires Tiles(m) && Coalesced(m) && Tiles(n) && Coalesced(n)
    requires Live(m) == Live(n)
    ensures m == n
  {
    forall a | a in m ensures a in n && n[a] == m[a] {
      if m[a].free { SameBlock(m, n, a); } else { LiveTransfer(m, n, a); }
    }
    forall a | a in n ensures a in m {
      if n[a].free { SameBlock(n, m, a); } else { LiveTransfer(n, m, a); }
    }
  }

  lemma {:induction false} RootsMembers(n: nat)
    ensures forall a: nat :: a in Roots(n) <==> a < 1024 * n && a % 1024 == 0
    ensures forall a | a in Roots(n) :: Roots(n)[a] == Block(MAX_ORDER, true)
  {
    if n > 0 { RootsMembers(n - 1); }
  }

  lemma InitialMembers()
    ensures forall a: nat :: a in Initial() <==> a < ARENA && a % 1024 == 0
    ensures forall a | a in Initial() :: Initial()[a] == Block(MAX_ORDER, true)
  {
    RootsMembers(ROOTS);
  }

  lemma InitialAt(a: nat)
    requires a in Initial()
    ensures a % 1024 == 0 && Initial()[a] == Block(MAX_ORDER, true)
    ensures BlockOk(Initial(), a) && End(Initial(), a) == a + 1024
  {
    InitialMembers();
    Pow2Values();
    RootAligned(a / 1024);
  }

  lemma Spaced(a: nat, b: nat)
    requires a % 1024 == 0 && b % 1024 == 0 && a < b
    ensures a + 1024 <= b
  {
  }

  lemma InitialTiles()
    ensures Tiles(Initial())
  {
    InitialMembers();
    forall a | a in Initial() ensures BlockOk(Initial(), a) { InitialAt(a); }
    forall a, b | a in Initial() && b in Initial() && a < b ensures End(Initial(), a) <= b {
      InitialAt(a);
      InitialAt(b);
      Spaced(a, b);
    }
  }

  lemma InitialKeeps()
    ensures Tiles(Initial()) && Coalesced(Initial()) && Live(Initial()) == map[]
  {
    InitialTiles();
    InitialMembers();
    assert Live(Initial()).Keys == {};
  }

  /** Whatever was allocated and in whatever order it was freed, a heap with no live block is the
      initial one: 32 free blocks of order 10. */
  lemma EmptyHeapIsInitial(m: Heap)
    requires Tiles(m) && Coalesced(m) && Live(m) == map[]
    ensures m == Initial()
  {
    InitialKeeps();
    Canonical(m, Initial());
  }
}
