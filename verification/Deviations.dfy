/** Where malloc_3.cpp departs from the heap discipline it maintains, and exactly when.

    The merge loops test that the buddy is free and below order 10 but never compare the two orders; the dry
    run of Srealloc re-reads unmodified headers; SreallocUnion ends with an insertion into a free list.
 */
module Deviations {
  import opened Bytes
  import opened Dyadic
  import opened Tiling
  import opened HeapOps
  import opened Headers
  import opened BuddyAllocator

  // ----- the merge guard as written

  /** The state of the loops of UnionIfPossible and SreallocUnion. */
  datatype Loop = Loop(h: Store, f: FreeLists, addr: nat)

  function BuddyOf(s: Loop): nat
    requires s.addr in s.h
  {
    Xor(s.addr, Pow2(s.h[s.addr].order))
  }

  /** The reads of one pass land on headers. */
  predicate Readable(s: Loop) {
    && s.addr in s.h
    && var b := BuddyOf(s);
       && b in s.h && b != s.addr && s.h[b].order < |s.f|
       && var hi := if b > s.addr then b else s.addr;
          s.h[hi].next.At? ==> s.h[hi].next.addr in s.h
  }

  /** The loop condition as written: for release without a goal, for growth with the size asked for. */
  predicate Continues(s: Loop, goal: Goal) {
    Readable(s) && MergeGuard(s.h[BuddyOf(s)], s.h[s.addr], false) && Wants(goal, s.h[s.addr].size)
  }

  /** One pass of the loop as written. */
  function Pass(s: Loop): Loop
    requires Readable(s)
  {
    var b := BuddyOf(s);
    var k := s.h[b].order;
    var lo := if b > s.addr then s.addr else b;
    var hi := if b > s.addr then b else s.addr;
    Loop(MergeHeaders(s.h, lo, hi), s.f[k := Without(Without(s.f[k], b), s.addr)], lo)
  }

  /** The loop after at most n passes. */
  function After(s: Loop, goal: Goal, n: nat): Loop
    decreases n
  {
    if n == 0 || !Continues(s, goal) then s else After(Pass(s), goal, n - 1)
  }

  /** What every pass keeps holds after any number of passes. */
  lemma {:induction false} LoopKeeps(inv: Loop -> bool, s: Loop, goal: Goal, n: nat)
    requires forall t: Loop {:trigger Continues(t, goal), inv(t)} :: inv(t) && Continues(t, goal) ==> inv(Pass(t))
    requires inv(s)
    ensures inv(After(s, goal, n))
    decreases n
  {
    if n > 0 && Continues(s, goal) { LoopKeeps(inv, Pass(s), goal, n - 1); }
  }

  /** The headers and lists still describe some tiling in which the block at hand is live. */
  ghost predicate IsHeap(s: Loop, ck: nat) {
    exists m: Heap :: Tiles(m) && LiveAt(m, s.addr) && Represents(s.h, s.f, m, ck, s.addr)
  }

  ghost predicate StaysHeap(s: Loop, goal: Goal, ck: nat, n: nat) {
    IsHeap(After(s, goal, n), ck)
  }

  lemma Pow2Strict(j: nat, k: nat)
    requires j < k
    ensures Pow2(j) < Pow2(k)
    decreases k
  {
    if j + 1 < k { Pow2Strict(j, k - 1); } else { assert Pow2(k) == 2 * Pow2(j); }
  }

  lemma LoopReads(s: Loop, m: Heap, ck: nat, goal: Goal)
    requires MidOperation(s.h, s.f, m, ck, s.addr)
    ensures Readable(s) && Aligned(s.addr, m[s.addr].order) && BuddyOf(s) == Buddy(s.addr, m[s.addr].order)
    ensures BuddyOf(s) in m && m[BuddyOf(s)].order <= m[s.addr].order
    ensures Continues(s, goal) <==> WrittenGuard(m, s.addr) && Wants(goal, Payload(m[s.addr].order))
  {
    var a := s.addr;
    assert BlockOk(m, a) && HeaderAt(s.h, m, ck, a);
    GuardIsAbsorb(s.h, s.f, m, ck, a, true);
    BuddyStart(m, a, m[a].order);
    assert BlockOk(m, BuddyOf(s)) && HeaderAt(s.h, m, ck, BuddyOf(s));
  }

  /** A pass taken with the guard as written leaves a heap exactly when the two orders are equal. */
  lemma PassIff(s: Loop, m: Heap, ck: nat)
    requires MidOperation(s.h, s.f, m, ck, s.addr) && WrittenGuard(m, s.addr)
    ensures Readable(s)
    ensures IsHeap(Pass(s), ck) <==> m[Buddy(s.addr, m[s.addr].order)].order == m[s.addr].order
    ensures CanAbsorb(m, s.addr) ==>
              && MidOperation(Pass(s).h, Pass(s).f, Absorb(m, s.addr), ck, Pass(s).addr)
              && Pass(s).addr == Parent(s.addr, m[s.addr].order)
  {
    LoopReads(s, m, ck, Everything);
    var a := s.addr;
    if CanAbsorb(m, a) {
      var lo, hi := MergeReads(s.h, s.f, m, ck, a, BuddyOf(s));
      assert IsHeap(Pass(s), ck) by { assert Tiles(Absorb(m, a)); }
    } else {
      UnequalBreaks(s, m, ck);
    }
  }

  lemma UnequalBreaks(s: Loop, m: Heap, ck: nat)
    requires MidOperation(s.h, s.f, m, ck, s.addr) && WrittenGuard(m, s.addr) && !CanAbsorb(m, s.addr)
    ensures Readable(s) && !IsHeap(Pass(s), ck)
    ensures m[Buddy(s.addr, m[s.addr].order)].order < m[s.addr].order
  {
    LoopReads(s, m, ck, Everything);
    var a, b := s.addr, BuddyOf(s);
    var j, k := m[b].order, m[a].order;
    Pow2Strict(j, k);
    var lo := if b > a then a else b;
    var hi := if b > a then b else a;
    assert HeaderAt(s.h, m, ck, lo) && HeaderAt(s.h, m, ck, hi) && BlockOk(m, hi);
    var t := Pass(s);
    forall m': Heap | Tiles(m') && LiveAt(m', t.addr) ensures !Represents(t.h, t.f, m', ck, t.addr) {
      assert BlockOk(m', lo);
      if HeaderAt(t.h, m', ck, lo) { WrongNext(m, m', lo, hi, a, b); }
    }
  }

  /** The end claimed by the enlarged header is not where the merged list continues. */
  lemma WrongNext(m: Heap, m': Heap, lo: nat, hi: nat, a: nat, b: nat)
    requires a in m && b in m && lo in m' && m[b].order < m[a].order
    requires lo == (if b > a then a else b) && hi == (if b > a then b else a)
    requires hi == lo + Pow2(m[a].order) && m'[lo].order == m[lo].order + 1
    ensures End(m', lo) != End(m, hi)
  {
    Pow2Strict(m[b].order, m[a].order);
  }

  /** A loop as written describes a heap at every pass if and only if following same-order buddies, as far as its
      goal asks, never ends at a smaller free block. */
  lemma WrittenLoopIff(s: Loop, m: Heap, ck: nat, goal: Goal)
    requires MidOperation(s.h, s.f, m, ck, s.addr)
    ensures (forall n: nat :: StaysHeap(s, goal, ck, n)) <==> SafeTo(m, s.addr, goal)
  {
    if SafeTo(m, s.addr, goal) {
      forall n: nat ensures StaysHeap(s, goal, ck, n) {
        var m' := SafeAfter(s, m, ck, goal, MergeTo(m, s.addr, goal), n);
        HereIsHeap(After(s, goal, n), m', ck);
      }
    } else {
      var n := UnsafeBreaks(s, m, ck, goal);
      assert !StaysHeap(s, goal, ck, n);
    }
  }

  lemma HereIsHeap(s: Loop, m: Heap, ck: nat)
    requires MidOperation(s.h, s.f, m, ck, s.addr)
    ensures IsHeap(s, ck)
  {
  }

  /** The loop is at a state that represents m; from here the climb is safe and leads to r. */
  ghost predicate Climbs(s: Loop, m: Heap, ck: nat, goal: Goal, r: (Heap, nat)) {
    MidOperation(s.h, s.f, m, ck, s.addr) && SafeTo(m, s.addr, goal) && MergeTo(m, s.addr, goal) == r
  }

  lemma SafePass(s: Loop, m: Heap, ck: nat, goal: Goal, r: (Heap, nat)) returns (m': Heap)
    requires Climbs(s, m, ck, goal, r) && Continues(s, goal)
    ensures Climbs(Pass(s), m', ck, goal, r)
  {
    LoopReads(s, m, ck, goal);
    PassIff(s, m, ck);
    m' := Absorb(m, s.addr);
  }

  lemma SafeAfter(s: Loop, m: Heap, ck: nat, goal: Goal, r: (Heap, nat), n: nat) returns (m': Heap)
    requires Climbs(s, m, ck, goal, r)
    ensures Climbs(After(s, goal, n), m', ck, goal, r)
  {
    var inv := (t: Loop) => exists g: Heap :: Climbs(t, g, ck, goal, r);
    forall t: Loop | inv(t) && Continues(t, goal) ensures inv(Pass(t)) {
      var g: Heap :| Climbs(t, g, ck, goal, r);
      var g' := SafePass(t, g, ck, goal, r);
    }
    LoopKeeps(inv, s, goal, n);
    m' :| Climbs(After(s, goal, n), m', ck, goal, r);
  }

  lemma UnsafePass(s: Loop, m: Heap, ck: nat, goal: Goal)
    requires MidOperation(s.h, s.f, m, ck, s.addr) && !SafeTo(m, s.addr, goal) && CanAbsorb(m, s.addr)
    ensures Continues(s, goal) && MidOperation(Pass(s).h, Pass(s).f, Absorb(m, s.addr), ck, Pass(s).addr)
    ensures !SafeTo(Absorb(m, s.addr), Pass(s).addr, goal)
    ensures Absorb(m, s.addr)[Pass(s).addr].order == m[s.addr].order + 1
  {
    LoopReads(s, m, ck, goal);
    PassIff(s, m, ck);
    AbsorbKeeps(m, s.addr);
  }

  lemma UnsafeStop(s: Loop, m: Heap, ck: nat, goal: Goal)
    requires MidOperation(s.h, s.f, m, ck, s.addr) && !SafeTo(m, s.addr, goal) && !CanAbsorb(m, s.addr)
    ensures !StaysHeap(s, goal, ck, 1)
  {
    LoopReads(s, m, ck, goal);
    UnequalBreaks(s, m, ck);
    assert After(s, goal, 1) == Pass(s) by { assert After(Pass(s), goal, 0) == Pass(s); }
  }

  lemma {:induction false} UnsafeBreaks(s: Loop, m: Heap, ck: nat, goal: Goal) returns (n: nat)
    requires MidOperation(s.h, s.f, m, ck, s.addr) && !SafeTo(m, s.addr, goal)
    ensures !StaysHeap(s, goal, ck, n)
    decreases MAX_ORDER - m[s.addr].order
  {
    if CanAbsorb(m, s.addr) {
      UnsafePass(s, m, ck, goal);
      n := UnsafeBreaks(Pass(s), Absorb(m, s.addr), ck, goal);
      assert After(s, goal, n + 1) == After(Pass(s), goal, n);
      n := n + 1;
    } else {
      UnsafeStop(s, m, ck, goal);
      n := 1;
    }
  }

  // ----- headers that claim a live block

  /** The header at `lo` claims an aligned interval with `c` inside it. */
  ghost predicate Claims(h: Store, lo: nat, c: nat) {
    lo in h && exists k: nat :: k <= h[lo].order && Aligned(lo, k) && lo < c < lo + Pow2(k)
  }

  /** Some header claims the start of one of the blocks in `others`. */
  ghost predicate ClaimsOne(h: Store, others: Heap) {
    exists lo: nat, c: nat :: c in others && Claims(h, lo, c)
  }

  /** Headers and lists describe a tiling in which the blocks of `others` still start where they did. */
  ghost predicate Describes(h: Store, f: FreeLists, ck: nat, others: Heap) {
    exists m: Heap :: Tiles(m) && others.Keys <= m.Keys && Represents(h, f, m, ck, -1)
  }

  /** No tiling with a block at `c` has a header that claims `c`. */
  lemma ClaimRefutes(h: Store, m: Heap, ck: nat, lo: nat, c: nat)
    requires Tiles(m) && Chain(h, m, ck) && c in m
    ensures !Claims(h, lo, c)
  {
    if Claims(h, lo, c) {
      var k: nat :| k <= h[lo].order && Aligned(lo, k) && lo < c < lo + Pow2(k);
      assert BlockOk(m, c);
      var y := Covering(m, lo);
      assert End(m, y) <= c;
      assert BlockOk(m, y) && HeaderAt(h, m, ck, y);
      if y < lo { NotBeyond(lo, k, y, m[y].order); }
      Pow2Monotone(k, h[lo].order);
      assert false;
    }
  }

  /** Of two aligned intervals that meet, one that begins earlier does not end inside the other. */
  lemma NotBeyond(lo: nat, k: nat, y: nat, j: nat)
    requires Aligned(lo, k) && Aligned(y, j) && y < lo < y + Pow2(j)
    ensures lo + Pow2(k) <= y + Pow2(j)
  {
    if j <= k { Nested(y, j, lo, k); } else { Nested(lo, k, y, j); }
  }

  lemma ClaimsOneRefutes(h: Store, f: FreeLists, ck: nat, others: Heap)
    requires ClaimsOne(h, others)
    ensures !Describes(h, f, ck, others)
  {
    var lo: nat, c: nat :| c in others && Claims(h, lo, c);
    forall m: Heap | Tiles(m) && others.Keys <= m.Keys ensures !Represents(h, f, m, ck, -1) {
      assert c in m;
      if Chain(h, m, ck) { ClaimRefutes(h, m, ck, lo, c); }
    }
  }

  lemma ClaimsStay(h: Store, h': Store, lo: nat, c: nat)
    requires Claims(h, lo, c) && lo in h' && h[lo].order <= h'[lo].order
    ensures Claims(h', lo, c)
  {
  }

  /** An aligned interval that begins with a smaller free block contains a live one. */
  lemma LiveInside(m: Heap, b: nat, k: nat) returns (c: nat)
    requires Sound(m) && b in m && m[b].free && m[b].order < k <= MAX_ORDER && Aligned(b, k) && b + Pow2(k) <= ARENA
    ensures c in Live(m) && b <= c < b + Pow2(k)
  {
    if forall c | c in m && b <= c < b + Pow2(k) :: m[c].free {
      FreeRegionIsOneBlock(m, b, k);
      assert false;
    }
    c :| c in m && b <= c < b + Pow2(k) && !m[c].free;
  }

  lemma LiveAbove(m: Heap, a: nat, b: nat) returns (c: nat)
    requires Sound(m) && LiveAt(m, a) && Aligned(a, m[a].order) && b == Buddy(a, m[a].order) && a < b
    requires b in m && m[b].free && m[b].order < m[a].order
    ensures c in Live(m) && a < c < a + Pow2(m[a].order + 1)
  {
    assert BlockOk(m, a);
    BuddyStart(m, a, m[a].order);
    c := LiveInside(m, b, m[a].order);
  }

  /** With a smaller free buddy, the lower of the two blocks raised by one order would cover another live block. */
  lemma RaisedCoversLive(m: Heap, a: nat, b: nat, lo: nat) returns (c: nat)
    requires Sound(m) && LiveAt(m, a) && Aligned(a, m[a].order) && b == Buddy(a, m[a].order)
    requires b in m && m[b].free && m[b].order < m[a].order && lo == (if b > a then a else b)
    ensures c in Live(m) - {a} && lo in m
    ensures Aligned(lo, m[lo].order + 1) && lo < c < lo + Pow2(m[lo].order + 1)
  {
    assert BlockOk(m, a);
    if b > a {
      c := LiveAbove(m, a, b);
    } else {
      c := LiveBelow(m, a, b);
    }
  }

  lemma LiveBelow(m: Heap, a: nat, b: nat) returns (c: nat)
    requires Sound(m) && LiveAt(m, a) && Aligned(a, m[a].order) && b == Buddy(a, m[a].order) && b < a
    requires b in m && m[b].free && m[b].order < m[a].order
    ensures c in Live(m) && c != a && Aligned(b, m[b].order + 1) && b < c < b + Pow2(m[b].order + 1)
  {
    assert BlockOk(m, a);
    AlignedDown(b, m[b].order + 1, m[a].order + 1);
    Pow2Monotone(m[b].order + 1, m[a].order);
    c := LiveBeside(m, b, m[b].order);
  }

  lemma PassHeader(s: Loop, m: Heap, ck: nat)
    requires MidOperation(s.h, s.f, m, ck, s.addr)
    ensures Readable(s) && Pass(s).addr == (if BuddyOf(s) > s.addr then s.addr else BuddyOf(s)) && Pass(s).addr in m
    ensures Pass(s).addr in Pass(s).h && Pass(s).h[Pass(s).addr].order == m[Pass(s).addr].order + 1
  {
    LoopReads(s, m, ck, Everything);
    assert HeaderAt(s.h, m, ck, s.addr) && HeaderAt(s.h, m, ck, BuddyOf(s));
  }

  /** The live block that a pass over a smaller free buddy puts under the enlarged header. */
  lemma WrongPassClaims(s: Loop, m: Heap, ck: nat) returns (c: nat)
    requires MidOperation(s.h, s.f, m, ck, s.addr) && WrittenGuard(m, s.addr) && !CanAbsorb(m, s.addr)
    ensures Readable(s) && c in Live(m) - {s.addr} && Claims(Pass(s).h, Pass(s).addr, c)
  {
    LoopReads(s, m, ck, Everything);
    UnequalBreaks(s, m, ck);
    PassHeader(s, m, ck);
    c := RaisedCoversLive(m, s.addr, BuddyOf(s), Pass(s).addr);
  }

  lemma LiveBeside(m: Heap, b: nat, j: nat) returns (c: nat)
    requires Sound(m) && FreeAt(m, b, j) && j < MAX_ORDER && Aligned(b, j + 1)
    ensures c in Live(m) && b < c < b + Pow2(j + 1)
  {
    OnlyFreeBesideLive(m, b, j);
    c :| c in Live(m) && Buddy(b, j) <= c < Buddy(b, j) + Pow2(j);
    BuddyWithin(b, j);
  }

  // ----- the whole calls as written

  lemma PassGrowsOrders(s: Loop, x: nat)
    requires Readable(s) && x in s.h
    ensures x in Pass(s).h && s.h[x].order <= Pass(s).h[x].order
    ensures x == Pass(s).addr ==> s.h[x].order < Pass(s).h[x].order
  {
  }

  /** No pass ever lowers the order in a header. */
  lemma OrdersGrow(s: Loop, goal: Goal, n: nat, x: nat)
    requires x in s.h
    ensures x in After(s, goal, n).h && s.h[x].order <= After(s, goal, n).h[x].order
  {
    var inv := (t: Loop) => x in t.h && s.h[x].order <= t.h[x].order;
    forall t: Loop | inv(t) && Continues(t, goal) ensures inv(Pass(t)) { PassGrowsOrders(t, x); }
    LoopKeeps(inv, s, goal, n);
  }

  lemma AfterUnfolds(s: Loop, goal: Goal, n: nat)
    requires Continues(s, goal) && !Continues(After(s, goal, n), goal)
    ensures n > 0 && After(s, goal, n) == After(Pass(s), goal, n - 1)
  {
  }

  /** The loop is at a state from which the climb is unsafe; `others` are the live blocks besides the one at hand. */
  ghost predicate Doomed(s: Loop, ck: nat, goal: Goal, others: Heap) {
    exists m: Heap :: MidOperation(s.h, s.f, m, ck, s.addr) && !SafeTo(m, s.addr, goal) && Live(m) - {s.addr} == others
  }

  lemma DoomedAbsorbs(s: Loop, m: Heap, ck: nat, goal: Goal)
    requires MidOperation(s.h, s.f, m, ck, s.addr) && !SafeTo(m, s.addr, goal) && CanAbsorb(m, s.addr)
    ensures Readable(s) && Doomed(Pass(s), ck, goal, Live(m) - {s.addr})
  {
    UnsafePass(s, m, ck, goal);
    MergedOnce(m, s.addr);
    var m', a' := Absorb(m, s.addr), Pass(s).addr;
    assert Live(m') - {a'} == Live(m) - {s.addr};
    assert MidOperation(Pass(s).h, Pass(s).f, m', ck, a') && !SafeTo(m', a', goal);
  }

  lemma DoomedPass(s: Loop, ck: nat, goal: Goal, others: Heap)
    requires Doomed(s, ck, goal, others)
    ensures Continues(s, goal) && (Doomed(Pass(s), ck, goal, others) || ClaimsOne(Pass(s).h, others))
  {
    var m: Heap :| MidOperation(s.h, s.f, m, ck, s.addr) && !SafeTo(m, s.addr, goal) && Live(m) - {s.addr} == others;
    LoopReads(s, m, ck, goal);
    if CanAbsorb(m, s.addr) {
      DoomedAbsorbs(s, m, ck, goal);
    } else {
      var c := WrongPassClaims(s, m, ck);
    }
  }

  lemma StaysClaimed(s: Loop, goal: Goal, others: Heap, n: nat)
    requires ClaimsOne(s.h, others)
    ensures ClaimsOne(After(s, goal, n).h, others)
  {
    var lo: nat, c: nat :| c in others && Claims(s.h, lo, c);
    OrdersGrow(s, goal, n, lo);
    ClaimsStay(s.h, After(s, goal, n).h, lo, c);
  }

  /** States that each lead to another such state or to a header that claims one of the blocks. */
  ghost predicate Leads(doomed: Loop -> bool, goal: Goal, others: Heap) {
    forall t: Loop {:trigger Continues(t, goal), doomed(t)} ::
      doomed(t) ==> Continues(t, goal) && (doomed(Pass(t)) || ClaimsOne(Pass(t).h, others))
  }

  lemma {:induction false} LeadsThere(doomed: Loop -> bool, s: Loop, goal: Goal, others: Heap, n: nat)
    requires Leads(doomed, goal, others) && doomed(s) && !Continues(After(s, goal, n), goal)
    ensures ClaimsOne(After(s, goal, n).h, others)
    decreases n
  {
    AfterUnfolds(s, goal, n);
    if ClaimsOne(Pass(s).h, others) {
      StaysClaimed(Pass(s), goal, others, n - 1);
    } else {
      LeadsThere(doomed, Pass(s), goal, others, n - 1);
    }
  }

  /** An unsafe climb ends with a header that claims another live block. */
  lemma UnsafeClaims(s: Loop, m: Heap, ck: nat, goal: Goal, n: nat)
    requires MidOperation(s.h, s.f, m, ck, s.addr) && !SafeTo(m, s.addr, goal)
    requires !Continues(After(s, goal, n), goal)
    ensures ClaimsOne(After(s, goal, n).h, Live(m) - {s.addr})
  {
    var others := Live(m) - {s.addr};
    var doomed := (t: Loop) => Doomed(t, ck, goal, others);
    forall t: Loop | doomed(t)
      ensures Continues(t, goal) && (doomed(Pass(t)) || ClaimsOne(Pass(t).h, others))
    {
      DoomedPass(t, ck, goal, others);
    }
    LeadsThere(doomed, s, goal, others, n);
  }

  lemma EndsReadable(s: Loop, m: Heap, ck: nat, goal: Goal, n: nat)
    requires MidOperation(s.h, s.f, m, ck, s.addr)
    ensures After(s, goal, n).addr in After(s, goal, n).h
  {
    assert HeaderAt(s.h, m, ck, s.addr);
    LoopKeeps((t: Loop) => t.addr in t.h, s, goal, n);
  }

  lemma FlagKeepsClaims(h: Store, a: nat, free: bool, others: Heap)
    requires a in h && ClaimsOne(h, others)
    ensures ClaimsOne(h[a := h[a].(isFree := free)], others)
  {
    var lo: nat, c: nat :| c in others && Claims(h, lo, c);
    ClaimsStay(h, h[a := h[a].(isFree := free)], lo, c);
  }

  /** AddToFreeOrder; an order past the last list has none. */
  function AddTo(f: FreeLists, k: nat, x: nat): FreeLists {
    if k < |f| then f[k := Insert(f[k], x)] else f
  }

  /** The end of UnionIfPossible: flag the block free and list it. */
  function FinishUnion(s: Loop): Loop
    requires s.addr in s.h
  {
    Loop(s.h[s.addr := s.h[s.addr].(isFree := true)], AddTo(s.f, s.h[s.addr].order, s.addr), s.addr)
  }

  /** Release as written, once its loop has ended after n passes, has freed the block properly if following same-order
      buddies never ends at a smaller free block; otherwise headers and lists describe no heap at all that keeps
      the other live blocks. */
  lemma WrittenFreeIff(s: Loop, m: Heap, ck: nat, n: nat)
    requires MidOperation(s.h, s.f, m, ck, s.addr) && !Continues(After(s, Everything, n), Everything)
    ensures After(s, Everything, n).addr in After(s, Everything, n).h
    ensures var t := FinishUnion(After(s, Everything, n));
            && (SafeClimb(m, s.addr) <==> Represents(t.h, t.f, HeapOps.Free(m, s.addr), ck, -1))
            && (SafeClimb(m, s.addr) <==> Describes(t.h, t.f, ck, Live(m) - {s.addr}))
  {
    var t := After(s, Everything, n);
    EndsReadable(s, m, ck, Everything, n);
    FreedDescribes(FinishUnion(t), m, ck, s.addr);
    if SafeClimb(m, s.addr) {
      var m' := SafeAfter(s, m, ck, Everything, MergeUp(m, s.addr), n);
      SafeUnion(t, m', ck);
      assert HeapOps.Free(m, s.addr) == Release(m', t.addr);
    } else {
      UnsafeClaims(s, m, ck, Everything, n);
      FlagKeepsClaims(t.h, t.addr, true, Live(m) - {s.addr});
      ClaimsOneRefutes(FinishUnion(t).h, FinishUnion(t).f, ck, Live(m) - {s.addr});
    }
  }

  lemma FreedDescribes(t: Loop, m: Heap, ck: nat, a: nat)
    requires Sound(m) && LiveAt(m, a)
    ensures Represents(t.h, t.f, HeapOps.Free(m, a), ck, -1) ==> Describes(t.h, t.f, ck, Live(m) - {a})
  {
    FreeKeeps(m, a);
    var g := HeapOps.Free(m, a);
    assert (Live(m) - {a}).Keys <= g.Keys by { assert Live(g).Keys <= g.Keys; }
  }

  lemma SafeUnion(t: Loop, m: Heap, ck: nat)
    requires MidOperation(t.h, t.f, m, ck, t.addr) && !Continues(t, Everything)
    ensures t.addr in t.h && !CanAbsorb(m, t.addr)
    ensures Represents(FinishUnion(t).h, FinishUnion(t).f, Release(m, t.addr), ck, -1)
  {
    LoopReads(t, m, ck, Everything);
    assert BlockOk(m, t.addr) && HeaderAt(t.h, m, ck, t.addr);
    FinishFree(t.h, t.f, m, ck, t.addr);
  }

  /** The end of SreallocUnion without its last line: flag the block allocated. */
  function FinishGrowth(s: Loop): Loop
    requires s.addr in s.h
  {
    s.(h := s.h[s.addr := s.h[s.addr].(isFree := false)])
  }

  /** In-place growth as written but for its last line, once its loop has ended after n passes, has grown the block
      properly if following same-order buddies up to the size never ends at a smaller free block; otherwise
      headers and lists describe no heap at all that keeps the other live blocks. */
  lemma WrittenGrowIff(s: Loop, m: Heap, ck: nat, size: nat, n: nat)
    requires MidOperation(s.h, s.f, m, ck, s.addr) && !Continues(After(s, AtLeast(size), n), AtLeast(size))
    ensures After(s, AtLeast(size), n).addr in After(s, AtLeast(size), n).h
    ensures var t := FinishGrowth(After(s, AtLeast(size), n));
            && (SafeGrowth(m, s.addr, size) <==>
                  t.addr == Grow(m, s.addr, size).1 && Represents(t.h, t.f, Grow(m, s.addr, size).0, ck, -1))
            && (SafeGrowth(m, s.addr, size) <==> Describes(t.h, t.f, ck, Live(m) - {s.addr}))
  {
    var t := After(s, AtLeast(size), n);
    EndsReadable(s, m, ck, AtLeast(size), n);
    GrownDescribes(FinishGrowth(t), m, ck, s.addr, size);
    if SafeGrowth(m, s.addr, size) {
      var m' := SafeAfter(s, m, ck, AtLeast(size), Grow(m, s.addr, size), n);
      LoopReads(t, m', ck, AtLeast(size));
      FinishLive(t.h, t.f, m', ck, t.addr);
      assert Grow(m, s.addr, size) == (m', t.addr);
    } else {
      UnsafeClaims(s, m, ck, AtLeast(size), n);
      FlagKeepsClaims(t.h, t.addr, false, Live(m) - {s.addr});
      ClaimsOneRefutes(FinishGrowth(t).h, t.f, ck, Live(m) - {s.addr});
    }
  }

  lemma GrownDescribes(t: Loop, m: Heap, ck: nat, a: nat, size: nat)
    requires Sound(m) && LiveAt(m, a)
    ensures Represents(t.h, t.f, Grow(m, a, size).0, ck, -1) ==> Describes(t.h, t.f, ck, Live(m) - {a})
  {
    GrowKeeps(m, a, size);
    var g := Grow(m, a, size).0;
    assert (Live(m) - {a}).Keys <= g.Keys by { assert Live(g).Keys <= g.Keys; }
  }

  // ----- which reallocs are safe under the guard as written

  /** m1 has every block of m except free ones large enough for `size`. */
  ghost predicate Agrees(m: Heap, m1: Heap, size: nat) {
    forall c | c in m && (m[c].free ==> Payload(m[c].order) < size) :: c in m1 && m1[c] == m[c]
  }

  /** An allocation of `size` bytes takes nothing that growth to `size` bytes could meet, so a block whose growth is
      unsafe is unsafe to release afterwards. */
  lemma {:induction false} UnsafeStays(m: Heap, m1: Heap, a: nat, size: nat)
    requires Sound(m) && LiveAt(m, a) && Agrees(m, m1, size) && !SafeGrowth(m, a, size)
    ensures a in m1 && !SafeClimb(m1, a)
    decreases MAX_ORDER - m[a].order
  {
    assert BlockOk(m, a);
    var b := Buddy(a, m[a].order);
    BuddyStart(m, a, m[a].order);
    PayloadMonotone(m[b].order, m[a].order);
    if CanAbsorb(m, a) {
      AbsorbKeeps(m, a);
      UnsafeStays(Absorb(m, a), Absorb(m1, a), Parent(a, m[a].order), size);
    }
  }

  lemma {:induction false} SplitDownOthers(m: Heap, x: nat, size: nat, c: nat)
    requires Tiles(m) && x in m && c in m && c != x
    ensures c in SplitDown(m, x, size) && SplitDown(m, x, size)[c] == m[c]
    decreases m[x].order
  {
    if m[x].order > 0 && size <= Payload(m[x].order - 1) {
      HalveTiles(m, x);
      SplitDownOthers(Halve(m, x), x, size, c);
    }
  }

  lemma AllocAgrees(m: Heap, x: nat, size: nat)
    requires Sound(m) && Fits(m, x, size)
    ensures Agrees(m, Alloc(m, x, size), size)
  {
    ClaimKeeps(m, x);
    forall c | c in m && c != x ensures c in Alloc(m, x, size) && Alloc(m, x, size)[c] == m[c] {
      SplitDownOthers(Claim(m, x), x, size, c);
    }
  }

  /** Of a realloc that has to grow the block, with `possible` the answer of the dry run and p what Malloc returns:
      the merge it makes under the guard as written, if any, is safe exactly under ReallocSafe, or else the call
      fails without making one. */
  lemma ReallocSafeIff(m: Heap, m1: Heap, a: nat, size: nat, region: Ptr, p: Pointer, possible: bool)
    requires Sound(m) && LiveAt(m, a) && Payload(m[a].order) < size && Obtains(m, m1, size, region, p)
    requires SafeGrowth(m, a, size) ==> (possible <==> GrowsTo(m, a, size))
    ensures a in m1
    ensures (if possible then SafeGrowth(m, a, size) else p.Nil? || SafeClimb(m1, a))
            <==> ReallocSafe(m, a, size, region.At?) || (!possible && p.Nil?)
  {
    if p.Arena? {
      StillLive(m, p.unit, size, a);
      AllocAgrees(m, p.unit, size);
    }
    if !SafeGrowth(m, a, size) {
      UnsafeStays(m, m1, a, size);
    } else if p.Arena? {
      assert forall x | FirstFit(m, size, x) :: x == p.unit;
    }
  }

  // ----- the loop as written ends, even on headers that no longer describe a heap

  /** Every header lies below 2^p, and p is at least the largest order. */
  ghost predicate Below(h: Store, p: nat) {
    MAX_ORDER <= p && forall x | x in h :: x < Pow2(p)
  }

  /** How far the orders of the headers below x are from p, in all. */
  function Slack(h: Store, p: nat, x: nat): nat {
    if x == 0 then 0
    else Slack(h, p, x - 1) + if x - 1 in h && h[x - 1].order < p then p - h[x - 1].order else 0
  }

  lemma {:induction false} SlackDrops(h: Store, h': Store, p: nat, x: nat, y: nat)
    requires h.Keys == h'.Keys && forall z | z in h :: h[z].order <= h'[z].order
    ensures Slack(h', p, x) <= Slack(h, p, x)
    ensures y in h && y < x && h[y].order < p && h[y].order < h'[y].order ==> Slack(h', p, x) < Slack(h, p, x)
  {
    if x > 0 { SlackDrops(h, h', p, x - 1, y); }
  }

  lemma {:induction false} XorAbove(a: nat, k: nat)
    requires a < Pow2(k)
    ensures Xor(a, Pow2(k)) >= Pow2(k)
  {
    if k > 0 { XorAbove(a / 2, k - 1); }
  }

  lemma Pow2Monotone(j: nat, k: nat)
    requires j <= k
    ensures Pow2(j) <= Pow2(k)
  {
    if j < k { Pow2Strict(j, k); }
  }

  /** A buddy that has a header is at a distance below 2^p. */
  lemma BuddyNear(s: Loop, p: nat)
    requires Readable(s) && Below(s.h, p)
    ensures s.h[s.addr].order < p
  {
    var k := s.h[s.addr].order;
    if p <= k {
      Pow2Monotone(p, k);
      XorAbove(s.addr, k);
    }
  }

  /** Every pass brings the orders closer to p. */
  lemma PassDrops(s: Loop, p: nat)
    requires Readable(s) && s.h[BuddyOf(s)].order < MAX_ORDER && Below(s.h, p)
    ensures Below(Pass(s).h, p) && Slack(Pass(s).h, p, Pow2(p)) < Slack(s.h, p, Pow2(p))
  {
    BuddyNear(s, p);
    forall z | z in s.h ensures s.h[z].order <= Pass(s).h[z].order { PassGrowsOrders(s, z); }
    assert Pass(s).h.Keys == s.h.Keys;
    PassGrowsOrders(s, Pass(s).addr);
    SlackDrops(s.h, Pass(s).h, p, Pow2(p), Pass(s).addr);
  }

  lemma {:induction false} EndsBelow(s: Loop, goal: Goal, p: nat) returns (n: nat)
    requires Below(s.h, p)
    ensures !Continues(After(s, goal, n), goal)
    decreases Slack(s.h, p, Pow2(p))
  {
    if Continues(s, goal) {
      PassDrops(s, p);
      n := EndsBelow(Pass(s), goal, p);
      n := n + 1;
    } else {
      n := 0;
    }
  }

  lemma {:induction false} BoundKeys(ks: set<nat>) returns (p: nat)
    ensures MAX_ORDER <= p && forall x | x in ks :: x < Pow2(p)
  {
    if ks == {} {
      p := MAX_ORDER;
    } else {
      var x :| x in ks;
      p := BoundKeys(ks - {x});
      var q := BoundOne(x);
      Pow2Monotone(p, p + q);
      Pow2Monotone(q, p + q);
      forall y | y in ks ensures y < Pow2(p + q) { assert y == x || y in ks - {x}; }
      p := p + q;
    }
  }

  lemma {:induction false} BoundOne(x: nat) returns (q: nat)
    ensures x < Pow2(q)
  {
    if x == 0 { q := 0; } else { q := BoundOne(x / 2); q := q + 1; }
  }

  /** A merge loop as written ends from every state whatsoever. */
  lemma WrittenLoopEnds(s: Loop, goal: Goal)
    ensures exists n: nat :: !Continues(After(s, goal, n), goal)
  {
    var p := BoundKeys(s.h.Keys);
    var n := EndsBelow(s, goal, p);
  }

  // ----- a run that reaches the unsafe case

  lemma OneBlockBeside(m: Heap, b: nat, k: nat)
    requires Sound(m) && k < MAX_ORDER && Aligned(b, k) && b in m && m[b].order <= k
    requires forall c | c in m && b <= c < b + Pow2(k) :: m[c].free
    ensures FreeAt(m, b, k)
  {
    FreeRegionIsOneBlock(m, b, k);
  }

  /** In a sound heap an order-k block below order 10 that is free has a live part in its buddy. */
  lemma OnlyFreeBesideLive(m: Heap, x: nat, k: nat)
    requires Sound(m) && FreeAt(m, x, k) && k < MAX_ORDER
    ensures Aligned(x, k)
    ensures exists c :: c in Live(m) && Buddy(x, k) <= c < Buddy(x, k) + Pow2(k)
  {
    assert BlockOk(m, x);
    BuddyStart(m, x, k);
    var b := Buddy(x, k);
    if forall c | c in m && b <= c < b + Pow2(k) :: m[c].free {
      OneBlockBeside(m, b, k);
      assert false;
    }
    var c :| c in m && b <= c < b + Pow2(k) && !m[c].free;
    assert c in Live(m);
  }

  /** The free block beside a live block of order k, when nothing else is live in it. */
  lemma BesideLive(m: Heap, a: nat, k: nat)
    requires Sound(m) && a in m && m[a].order <= k < MAX_ORDER && Aligned(a, k)
    requires forall c | c in Live(m) :: !(Buddy(a, k) <= c < Buddy(a, k) + Pow2(k))
    ensures FreeAt(m, Buddy(a, k), k)
  {
    BuddyStart(m, a, k);
    var b := Buddy(a, k);
    forall c | c in m && b <= c < b + Pow2(k) ensures m[c].free {
      assert !m[c].free ==> c in Live(m);
    }
    FreeRegionIsOneBlock(m, b, k);
  }

  lemma SmallAlignments()
    ensures Aligned(0, 0) && Aligned(0, 1) && Aligned(2, 0) && Aligned(2, 1) && Aligned(3, 0)
    ensures Buddy(0, 1) == 2 && Buddy(2, 0) == 3 && Buddy(3, 0) == 2
    ensures Pow2(0) == 1 && Pow2(1) == 2 && Pow2(2) == 4
  {
    Pow2Values();
    ZeroAligned(0);
    ZeroAligned(1);
    ZeroAligned(2);
    assert 2 == Scale(2, 0) && 2 == Scale(1, 1) && 3 == Scale(3, 0);
    HalfFacts(0, 1);
    HalfFacts(2, 0);
  }

  lemma LeastOrder(o: nat, k: nat)
    requires Payload(k) <= Payload(o) && (o > 0 ==> Payload(o - 1) < Payload(k))
    ensures o == k
  {
    if o < k { Pow2Strict(o, k); }
    if k < o { PayloadMonotone(k, o - 1); }
  }

  /** One step of a run: `op` is enabled in m and leads to m'. */
  ghost predicate Step(m: Heap, op: Op, m': Heap) {
    Sound(m') && Enabled(m, op) && m' == Apply(m, op)
  }

  lemma FirstStep() returns (m: Heap)
    ensures Step(Initial(), Malloc(0, Payload(1)), m) && Live(m) == map[0 := Block(1, false)]
  {
    InitialKeeps();
    InitialMembers();
    PayloadMonotone(1, MAX_ORDER);
    m := Alloc(Initial(), 0, Payload(1));
    AllocKeeps(Initial(), 0, Payload(1));
    LeastOrder(m[0].order, 1);
  }

  lemma SecondStep(m: Heap) returns (m': Heap)
    requires Sound(m) && Live(m) == map[0 := Block(1, false)]
    ensures Step(m, Malloc(2, Payload(0)), m') && Live(m') == map[0 := Block(1, false), 2 := Block(0, false)]
  {
    SmallAlignments();
    assert 0 in Live(m);
    BesideLive(m, 0, 1);
    PayloadMonotone(0, 1);
    forall x | Fits(m, x, Payload(0)) ensures 1 < m[x].order || (1 == m[x].order && 2 <= x) {
      assert BlockOk(m, x);
      if m[x].order == 0 { OrderZeroBuddy(m, x); assert false; }
      if m[x].order == 1 { SmallOdd(); }
    }
    AllocKeeps(m, 2, Payload(0));
    m' := Alloc(m, 2, Payload(0));
    LeastOrder(m'[2].order, 0);
  }

  lemma SmallOdd()
    ensures !Aligned(1, 1)
  {
    AlignedBits(1, 1);
  }

  /** The buddy of a free order-0 block is a live order-0 block. */
  lemma OrderZeroBuddy(m: Heap, x: nat)
    requires Sound(m) && FreeAt(m, x, 0)
    ensures Aligned(x, 0) && Buddy(x, 0) in Live(m) && Live(m)[Buddy(x, 0)].order == 0
  {
    OnlyFreeBesideLive(m, x, 0);
    BuddyStart(m, x, 0);
    var c :| c in Live(m) && Buddy(x, 0) <= c < Buddy(x, 0) + Pow2(0);
    assert c == Buddy(x, 0);
  }

  lemma ThirdStep(m: Heap) returns (m': Heap)
    requires Sound(m) && Live(m) == map[0 := Block(1, false), 2 := Block(0, false)]
    ensures Step(m, Malloc(3, Payload(0)), m')
    ensures Live(m') == map[0 := Block(1, false), 2 := Block(0, false), 3 := Block(0, false)]
  {
    SmallAlignments();
    assert 2 in Live(m) && Live(m)[2].order == 0;
    BesideLive(m, 2, 0);
    forall x | Fits(m, x, Payload(0)) && m[x].order == 0 ensures 3 <= x {
      OrderZeroBuddy(m, x);
      BuddyInvolution(x, 0);
    }
    AllocKeeps(m, 3, Payload(0));
    m' := Alloc(m, 3, Payload(0));
    LeastOrder(m'[3].order, 0);
  }

  lemma FourthStep(m: Heap) returns (m': Heap)
    requires Sound(m) && Live(m) == map[0 := Block(1, false), 2 := Block(0, false), 3 := Block(0, false)]
    ensures Step(m, Sfree(2), m') && Live(m') == map[0 := Block(1, false), 3 := Block(0, false)]
    ensures SafeClimb(m, 2)
  {
    assert 2 in Live(m) && 3 in Live(m) && Live(m)[2].order == 0;
    SmallAlignments();
    FreeKeeps(m, 2);
    m' := Free(m, 2);
  }

  /** An order-1 block at 0 is live, its buddy is split, the half it starts with is free and the other live: neither
      release nor growth of the block at 0 is safe, and growth of the block at 3 goes down. */
  ghost predicate UnsafeAtZero(m: Heap) {
    && LiveAt(m, 0) && m[0].order == 1 && FreeAt(m, 2, 0) && LiveAt(m, 3)
    && !SafeClimb(m, 0) && !SafeGrowth(m, 0, Payload(2))
    && SafeGrowth(m, 3, Payload(1)) && !GrowsUpward(m, 3, Payload(1))
  }

  lemma GrowsDown(m: Heap)
    requires LiveAt(m, 3) && m[3].order == 0 && FreeAt(m, 2, 0)
    ensures SafeGrowth(m, 3, Payload(1)) && !GrowsUpward(m, 3, Payload(1))
  {
    SmallAlignments();
    PayloadMonotone(0, 1);
    HalfPayload(1);
    assert CanAbsorb(m, 3) && Parent(3, 0) == 2;
    assert SafeTo(Absorb(m, 3), 2, AtLeast(Payload(1)));
  }

  lemma LastStep(m: Heap)
    requires Sound(m) && Live(m) == map[0 := Block(1, false), 3 := Block(0, false)]
    ensures UnsafeAtZero(m)
  {
    SmallAlignments();
    assert 0 in Live(m) && Live(m)[0].order == 1 && 3 in Live(m) && Live(m)[3].order == 0;
    BuddyStart(m, 0, 1);
    assert 2 !in Live(m);
    assert End(m, 2) <= 3;
    HalfPayload(2);
    GrowsDown(m);
  }

  lemma RunExtend(hs: seq<Heap>, ops: seq<Op>, op: Op, m: Heap)
    requires Run(hs, ops) && Step(hs[|ops|], op, m)
    ensures Run(hs + [m], ops + [op])
  {
    var hs', ops' := hs + [m], ops + [op];
    forall i | 0 <= i < |ops'| ensures Enabled(hs'[i], ops'[i]) && hs'[i + 1] == Apply(hs'[i], ops'[i]) {
      if i < |ops| { assert Enabled(hs[i], ops[i]); }
    }
  }

  lemma TwoAllocations() returns (hs: seq<Heap>)
    ensures Run(hs, [Malloc(0, Payload(1)), Malloc(2, Payload(0))]) && Sound(hs[2])
    ensures Live(hs[2]) == map[0 := Block(1, false), 2 := Block(0, false)]
  {
    var h1 := FirstStep();
    RunExtend([Initial()], [], Malloc(0, Payload(1)), h1);
    var h2 := SecondStep(h1);
    hs := [Initial(), h1, h2];
    RunExtend([Initial(), h1], [Malloc(0, Payload(1))], Malloc(2, Payload(0)), h2);
    assert [Initial()] + [h1] == [Initial(), h1] && [Initial(), h1] + [h2] == hs;
    assert [] + [Malloc(0, Payload(1))] == [Malloc(0, Payload(1))];
    assert [Malloc(0, Payload(1))] + [Malloc(2, Payload(0))] == [Malloc(0, Payload(1)), Malloc(2, Payload(0))];
  }

  /** Allocate an order-1 block and two order-0 blocks, then free the first order-0 block, which is safe under the
      guard as written: a run after which freeing or growing the order-1 block is not. */
  lemma UnsafeRun() returns (hs: seq<Heap>)
    ensures Run(hs, [Malloc(0, Payload(1)), Malloc(2, Payload(0)), Malloc(3, Payload(0)), Sfree(2)])
    ensures SafeClimb(hs[3], 2) && Sound(hs[4]) && UnsafeAtZero(hs[4])
  {
    var two := TwoAllocations();
    var ops := [Malloc(0, Payload(1)), Malloc(2, Payload(0))];
    var h3 := ThirdStep(two[2]);
    RunExtend(two, ops, Malloc(3, Payload(0)), h3);
    var h4 := FourthStep(h3);
    LastStep(h4);
    RunExtend(two + [h3], ops + [Malloc(3, Payload(0))], Sfree(2), h4);
    hs := two + [h3] + [h4];
    assert ops + [Malloc(3, Payload(0))] + [Sfree(2)] ==
           [Malloc(0, Payload(1)), Malloc(2, Payload(0)), Malloc(3, Payload(0)), Sfree(2)];
  }

  /** What freeing that block then does: its header claims the order-2 interval [0, 4), which contains the
      live block at 3. */
  lemma UnsafeFreeOverlaps(s: Loop, m: Heap, ck: nat)
    requires MidOperation(s.h, s.f, m, ck, s.addr) && s.addr == 0
    requires Live(m) == map[0 := Block(1, false), 3 := Block(0, false)]
    ensures Continues(s, Everything) && Pass(s).addr == 0 && Pass(s).h[0].order == 2 && Pass(s).h[0].isFree
    ensures LiveAt(m, 3) && 0 < 3 < 0 + Pow2(Pass(s).h[0].order)
    ensures !IsHeap(Pass(s), ck)
  {
    SmallAlignments();
    LastStep(m);
    LoopReads(s, m, ck, Everything);
    UnequalBreaks(s, m, ck);
    assert HeaderAt(s.h, m, ck, 0) && HeaderAt(s.h, m, ck, 2);
  }

  // ----- the dry run of in-place growth

  /** The locals of CheckIfUnionIsPossible. */
  datatype Probe = Probe(fakeAddr: nat, fakeBuddy: nat, addrMm: Header, buddyMm: Header)

  function HeaderOr(h: Store, a: nat): Header {
    if a in h then h[a] else Header(0, 0, false, false, 0, Null, Null)
  }

  /** The condition of the loop: `strict` also compares the orders, which the code as written does not. */
  predicate Probes(s: Probe, size: nat, strict: bool) {
    MergeGuard(s.buddyMm, s.addrMm, strict) && s.addrMm.size < size
  }

  function ProbeStart(h: Store, a: nat): Probe {
    var b := Xor(a, Pow2(HeaderOr(h, a).order));
    Probe(a, b, HeaderOr(h, a), HeaderOr(h, b))
  }

  /** One pass of the loop: both branches XOR the original address, and the lower branch re-reads the buddy's
      unmodified header. */
  function ProbePass(h: Store, a: nat, s: Probe): Probe {
    if s.fakeBuddy > s.fakeAddr then
      var k := s.addrMm.order + 1;
      var b := Xor(a, Pow2(k));
      Probe(s.fakeAddr, b, s.addrMm.(next := HeaderOr(h, s.fakeBuddy).next, order := k, size := Payload(k)),
            HeaderOr(h, b))
    else
      var mm := HeaderOr(h, s.fakeBuddy);
      var b := Xor(a, Pow2(mm.order));
      Probe(s.fakeBuddy, b, mm, HeaderOr(h, b))
  }

  function ProbeAfter(h: Store, a: nat, size: nat, strict: bool, s: Probe, n: nat): Probe
    decreases n
  {
    if n == 0 || !Probes(s, size, strict) then s else ProbeAfter(h, a, size, strict, ProbePass(h, a, s), n - 1)
  }

  ghost predicate StillProbing(h: Store, a: nat, size: nat, strict: bool, s: Probe, n: nat) {
    Probes(ProbeAfter(h, a, size, strict, s, n), size, strict)
  }

  /** The probe state after some upward passes: g is the heap growth would have reached. */
  ghost predicate Tracks(h: Store, m: Heap, g: Heap, a: nat, s: Probe) {
    && Sound(g) && LiveAt(g, a) && SameOutside(m, g, a) && Aligned(a, g[a].order)
    && s.fakeAddr == a && s.fakeBuddy == Buddy(a, g[a].order)
    && s.addrMm.order == g[a].order && s.addrMm.size == Payload(g[a].order)
    && s.fakeBuddy in g && s.fakeBuddy in h && s.buddyMm == h[s.fakeBuddy]
    && s.buddyMm.order == g[s.fakeBuddy].order && s.buddyMm.isFree == g[s.fakeBuddy].free
    && s.buddyMm.size == Payload(s.buddyMm.order)
  }

  lemma TracksFrom(h: Store, f: FreeLists, m: Heap, ck: nat, g: Heap, a: nat, s: Probe)
    requires Sound(m) && Represents(h, f, m, ck, -1) && LiveAt(m, a)
    requires Sound(g) && LiveAt(g, a) && SameOutside(m, g, a)
    requires s.fakeAddr == a && s.addrMm.order == g[a].order && s.addrMm.size == Payload(g[a].order)
    requires s.fakeBuddy == Xor(a, Pow2(g[a].order)) && s.buddyMm == HeaderOr(h, s.fakeBuddy)
    ensures Tracks(h, m, g, a, s)
  {
    assert BlockOk(g, a);
    XorIsBuddy(a, g[a].order);
    BuddyStart(g, a, g[a].order);
    assert HeaderAt(h, m, ck, s.fakeBuddy);
  }

  /** The dry run ends if and only if growth meets no free buddy below the block: otherwise its state repeats
      forever. This holds with the same-order guard on every heap, and with the guard as written wherever growth
      meets no smaller free block. */
  lemma DryRunEndsIff(h: Store, f: FreeLists, m: Heap, ck: nat, a: nat, size: nat, strict: bool)
    requires Sound(m) && Represents(h, f, m, ck, -1) && LiveAt(m, a) && (strict || SafeGrowth(m, a, size))
    ensures (exists n: nat :: !StillProbing(h, a, size, strict, ProbeStart(h, a), n)) <==> GrowsUpward(m, a, size)
  {
    assert HeaderAt(h, m, ck, a);
    TracksFrom(h, f, m, ck, m, a, ProbeStart(h, a));
    if GrowsUpward(m, a, size) {
      var n := DryRunEnds(h, f, m, ck, a, size, strict, ProbeStart(h, a));
    } else {
      forall n: nat ensures StillProbing(h, a, size, strict, ProbeStart(h, a), n) {
        DryRunRepeats(h, f, m, ck, a, size, strict, ProbeStart(h, a), n);
      }
    }
  }

  /** An upward pass keeps tracking. */
  lemma UpwardPass(h: Store, f: FreeLists, m: Heap, ck: nat, g: Heap, a: nat, s: Probe)
    requires Sound(m) && Represents(h, f, m, ck, -1) && LiveAt(m, a) && Tracks(h, m, g, a, s)
    requires CanAbsorb(g, a) && Parent(a, g[a].order) == a
    ensures LiveAt(Absorb(g, a), a) && Absorb(g, a)[a].order == g[a].order + 1
    ensures Tracks(h, m, Absorb(g, a), a, ProbePass(h, a, s))
  {
    AbsorbKeeps(g, a);
    TracksFrom(h, f, m, ck, Absorb(g, a), a, ProbePass(h, a, s));
  }

  lemma ProbesIsAbsorb(h: Store, m: Heap, g: Heap, a: nat, size: nat, strict: bool, s: Probe)
    requires Tracks(h, m, g, a, s) && (strict || SafeGrowth(g, a, size))
    ensures Probes(s, size, strict) <==> CanAbsorb(g, a) && Payload(g[a].order) < size
  {
    assert BlockOk(g, a);
    BuddyStart(g, a, g[a].order);
  }

  lemma EndsPass(h: Store, f: FreeLists, m: Heap, ck: nat, g: Heap, a: nat, size: nat, strict: bool, s: Probe)
    requires Sound(m) && Represents(h, f, m, ck, -1) && LiveAt(m, a) && Tracks(h, m, g, a, s)
    requires GrowsUpward(g, a, size) && (strict || SafeGrowth(g, a, size)) && Probes(s, size, strict)
    ensures CanAbsorb(g, a) && LiveAt(Absorb(g, a), a) && Absorb(g, a)[a].order == g[a].order + 1 <= MAX_ORDER
    ensures Tracks(h, m, Absorb(g, a), a, ProbePass(h, a, s))
    ensures GrowsUpward(Absorb(g, a), a, size) && (strict || SafeGrowth(Absorb(g, a), a, size))
  {
    ProbesIsAbsorb(h, m, g, a, size, strict, s);
    UpwardPass(h, f, m, ck, g, a, s);
  }

  /** The loop ends if every pass raises an order that stays bounded. */
  lemma {:induction false} ProbeEnds(h: Store, a: nat, size: nat, strict: bool, inv: Probe -> bool, s: Probe)
    returns (n: nat)
    requires forall t: Probe {:trigger Probes(t, size, strict), inv(t)} ::
               inv(t) && Probes(t, size, strict) ==>
                 inv(ProbePass(h, a, t)) && t.addrMm.order < ProbePass(h, a, t).addrMm.order <= MAX_ORDER
    requires inv(s)
    ensures !StillProbing(h, a, size, strict, s, n)
    decreases MAX_ORDER - s.addrMm.order
  {
    n := 0;
    if Probes(s, size, strict) {
      n := ProbeEnds(h, a, size, strict, inv, ProbePass(h, a, s));
      assert ProbeAfter(h, a, size, strict, s, n + 1) == ProbeAfter(h, a, size, strict, ProbePass(h, a, s), n);
      n := n + 1;
    }
  }

  /** Where the dry run stands on its way up. */
  ghost predicate GoesUp(h: Store, m: Heap, a: nat, size: nat, strict: bool, s: Probe) {
    exists g: Heap :: Tracks(h, m, g, a, s) && GrowsUpward(g, a, size) && (strict || SafeGrowth(g, a, size))
  }

  lemma DryRunEnds(h: Store, f: FreeLists, m: Heap, ck: nat, a: nat, size: nat, strict: bool, s: Probe)
    returns (n: nat)
    requires Sound(m) && Represents(h, f, m, ck, -1) && LiveAt(m, a) && GoesUp(h, m, a, size, strict, s)
    ensures !StillProbing(h, a, size, strict, s, n)
  {
    var inv := (t: Probe) => GoesUp(h, m, a, size, strict, t);
    forall t: Probe | inv(t) && Probes(t, size, strict)
      ensures inv(ProbePass(h, a, t)) && t.addrMm.order < ProbePass(h, a, t).addrMm.order <= MAX_ORDER
    {
      var g: Heap :| Tracks(h, m, g, a, t) && GrowsUpward(g, a, size) && (strict || SafeGrowth(g, a, size));
      EndsPass(h, f, m, ck, g, a, size, strict, t);
    }
    n := ProbeEnds(h, a, size, strict, inv, s);
  }

  /** The state reached below: both cursors on the buddy, every pass reproduces it. */
  ghost predicate Stuck(h: Store, a: nat, size: nat, strict: bool, s: Probe) {
    && s.fakeAddr == s.fakeBuddy && s.addrMm == s.buddyMm == HeaderOr(h, s.fakeBuddy)
    && s.fakeBuddy == Xor(a, Pow2(s.addrMm.order)) && Probes(s, size, strict)
  }

  /** On the way to a free lower buddy, or stuck on it. */
  ghost predicate Trapped(h: Store, m: Heap, a: nat, size: nat, strict: bool, s: Probe) {
    || Stuck(h, a, size, strict, s)
    || exists g: Heap :: Tracks(h, m, g, a, s) && !GrowsUpward(g, a, size) && (strict || SafeGrowth(g, a, size))
  }

  lemma LowerPass(h: Store, m: Heap, g: Heap, a: nat, size: nat, strict: bool, s: Probe)
    requires Tracks(h, m, g, a, s) && CanAbsorb(g, a) && Payload(g[a].order) < size && Parent(a, g[a].order) != a
    ensures Probes(s, size, strict) && Stuck(h, a, size, strict, ProbePass(h, a, s))
  {
    XorIsBuddy(a, g[a].order);
  }

  lemma TrappedPass(h: Store, f: FreeLists, m: Heap, ck: nat, a: nat, size: nat, strict: bool, s: Probe)
    requires Sound(m) && Represents(h, f, m, ck, -1) && LiveAt(m, a) && Trapped(h, m, a, size, strict, s)
    ensures Probes(s, size, strict) && Trapped(h, m, a, size, strict, ProbePass(h, a, s))
  {
    if Stuck(h, a, size, strict, s) {
      assert ProbePass(h, a, s) == s;
    } else {
      var g: Heap :| Tracks(h, m, g, a, s) && !GrowsUpward(g, a, size) && (strict || SafeGrowth(g, a, size));
      if Parent(a, g[a].order) == a {
        UpwardPass(h, f, m, ck, g, a, s);
        assert !GrowsUpward(Absorb(g, a), a, size);
      } else {
        LowerPass(h, m, g, a, size, strict, s);
      }
    }
  }

  lemma {:induction false} DryRunRepeats(
    h: Store, f: FreeLists, m: Heap, ck: nat, a: nat, size: nat, strict: bool, s: Probe, n: nat)
    requires Sound(m) && Represents(h, f, m, ck, -1) && LiveAt(m, a) && Trapped(h, m, a, size, strict, s)
    ensures StillProbing(h, a, size, strict, s, n)
    decreases n
  {
    TrappedPass(h, f, m, ck, a, size, strict, s);
    if n > 0 { DryRunRepeats(h, f, m, ck, a, size, strict, ProbePass(h, a, s), n - 1); }
  }

  /** A state of the allocator at which srealloc as written never returns: after the run of `UnsafeRun`, growing the
      live order-0 block at 3 to an order-1 block meets the free block at 2, below it. */
  lemma DryRunDiverges(h: Store, f: FreeLists, ck: nat, n: nat) returns (hs: seq<Heap>)
    ensures Run(hs, [Malloc(0, Payload(1)), Malloc(2, Payload(0)), Malloc(3, Payload(0)), Sfree(2)])
    ensures Represents(h, f, hs[4], ck, -1) ==> StillProbing(h, 3, Payload(1), false, ProbeStart(h, 3), n)
  {
    hs := UnsafeRun();
    if Represents(h, f, hs[4], ck, -1) {
      DryRunEndsIff(h, f, hs[4], ck, 3, Payload(1), false);
    }
  }

  // ----- the insertion at the end of SreallocUnion

  /** Line 316 inserts the last buddy into the list of the grown block's order. On headers and lists that describe a
      heap, inserting anything into any list leaves them describing none: the entry is already there, or does not
      belong. */
  lemma AnyInsertionBreaksLists(h: Store, f: FreeLists, m: Heap, ck: nat, x: nat, k: nat)
    requires Tiles(m) && Represents(h, f, m, ck, -1) && k <= MAX_ORDER
    ensures forall m': Heap | Tiles(m') :: !Represents(h, f[k := Insert(f[k], x)], m', ck, -1)
  {
    var f' := f[k := Insert(f[k], x)];
    InsertLonger(f[k], x);
    forall m': Heap | Tiles(m') ensures !Represents(h, f', m', ck, -1) {
      if Represents(h, f', m', ck, -1) {
        HeadersDetermineHeap(h, f, f', m, m', ck);
        assert ListOf(f[k], m, k) && ListOf(f'[k], m, k);
        SortedUnique(f'[k], f[k]);
        assert false;
      }
    }
  }

  /** SreallocUnion exactly as written, with its last line, never leaves headers and lists of a heap that keeps the
      other live blocks. */
  lemma WrittenGrowNever(s: Loop, m: Heap, ck: nat, size: nat, n: nat)
    requires MidOperation(s.h, s.f, m, ck, s.addr) && !Continues(After(s, AtLeast(size), n), AtLeast(size))
    ensures After(s, AtLeast(size), n).addr in After(s, AtLeast(size), n).h
    ensures var t := After(s, AtLeast(size), n);
            !Describes(FinishGrowth(t).h, AddTo(t.f, t.h[t.addr].order, BuddyOf(t)), ck, Live(m) - {s.addr})
  {
    var t := After(s, AtLeast(size), n);
    WrittenGrowIff(s, m, ck, size, n);
    if SafeGrowth(m, s.addr, size) {
      GrowKeeps(m, s.addr, size);
      var g := Grow(m, s.addr, size).0;
      assert BlockOk(g, t.addr) && HeaderAt(FinishGrowth(t).h, g, ck, t.addr);
      AnyInsertionBreaksLists(FinishGrowth(t).h, t.f, g, ck, BuddyOf(t), t.h[t.addr].order);
    } else {
      UnsafeClaims(s, m, ck, AtLeast(size), n);
      FlagKeepsClaims(t.h, t.addr, false, Live(m) - {s.addr});
      ClaimsOneRefutes(FinishGrowth(t).h, AddTo(t.f, t.h[t.addr].order, BuddyOf(t)), ck, Live(m) - {s.addr});
    }
  }

  lemma {:induction false} InsertLonger(s: seq<nat>, x: nat)
    ensures |Insert(s, x)| == |s| + 1
  {
    if s == [] || x <= s[0] {
    } else {
      InsertLonger(s[1..], x);
    }
  }

  // ----- the region of the arena

  const ARENA_BYTES: nat := 32 * 128 * 1024

  /** Where the first call of Malloc puts the arena, given the program break, and where sbrk then leaves the break. */
  function PlaceArena(current: nat): (r: (nat, nat)) {
    var offset := current % ARENA_BYTES;
    var toAlign := if offset == 0 then 0 else ARENA_BYTES - offset;
    (current + toAlign, if toAlign > 0 then current + (toAlign + ARENA_BYTES) else current)
  }

  /** The arena is aligned, and lies in memory obtained from sbrk if and only if the break was not aligned before. */
  lemma ArenaOwnedIff(current: nat)
    ensures var (head, brk) := PlaceArena(current);
            && head % ARENA_BYTES == 0 && current <= head
            && (head + ARENA_BYTES <= brk <==> current % ARENA_BYTES != 0)
  {
    var offset := current % ARENA_BYTES;
    assert current == current / ARENA_BYTES * ARENA_BYTES + offset;
    if offset != 0 {
      assert current + (ARENA_BYTES - offset) == (current / ARENA_BYTES + 1) * ARENA_BYTES;
    }
  }
}
