/** The concrete state of the buddy allocator: in-place headers linked by `next` and `prev`, and the
    eleven free lists. `Represents` says that both describe a given abstract heap. */
module Headers {
  import opened Bytes
  import opened Dyadic
  import opened Tiling

  datatype Ptr = Null | At(addr: nat)

  /** MallocMetadata. */
  datatype Header = Header(cookie: nat, size: nat, isFree: bool, isMmap: bool, order: nat, next: Ptr, prev: Ptr)

  /** Headers by address. A merge leaves the header of the upper half behind, as memory does. */
  type Store = map<nat, Header>
  type FreeLists = seq<seq<nat>>

  ghost predicate HeaderAt(h: Store, m: Heap, ck: nat, a: nat)
    requires a in m
  {
    && a in h
    && h[a].cookie == ck && h[a].size == Payload(m[a].order) && !h[a].isMmap && h[a].order == m[a].order
    && h[a].next == (if End(m, a) == ARENA then Null else At(End(m, a)))
    && (End(m, a) != ARENA ==> End(m, a) in h && h[End(m, a)].prev == At(a))
    && (a == 0 ==> h[a].prev == Null)
  }

  /** The headers of the blocks carry the right cookie, size and order and form the doubly linked list
      of the blocks in address order. */
  ghost predicate Chain(h: Store, m: Heap, ck: nat) {
    forall a {:trigger HeaderAt(h, m, ck, a)} | a in m :: HeaderAt(h, m, ck, a)
  }

  /** The free flags are right, except possibly at the block `cur` being worked on. */
  ghost predicate Flags(h: Store, m: Heap, cur: int) {
    forall a | a in m && a != cur :: a in h && h[a].isFree == m[a].free
  }

  ghost predicate Sorted(s: seq<nat>) {
    forall i, j | 0 <= i < j < |s| :: s[i] < s[j]
  }

  ghost predicate ListOf(s: seq<nat>, m: Heap, k: nat) {
    Sorted(s) && forall x: nat :: x in s <==> FreeAt(m, x, k)
  }

  /** freed[k] is the duplicate-free, address-sorted list of the free order-k blocks. */
  ghost predicate Listed(freed: FreeLists, m: Heap) {
    && |freed| == MAX_ORDER + 1
    && forall k | 0 <= k <= MAX_ORDER :: ListOf(freed[k], m, k)
  }

  /** Headers and free lists describe m. `cur` is the block being worked on, or -1. */
  ghost predicate Represents(h: Store, freed: FreeLists, m: Heap, ck: nat, cur: int) {
    Chain(h, m, ck) && Flags(h, m, cur) && Listed(freed, m)
  }

  // ----- sorted lists

  /** The list with `x` inserted before its first element not below `x` (std::lower_bound). */
  function Insert(s: seq<nat>, x: nat): seq<nat> {
    if s == [] || x <= s[0] then [x] + s else [s[0]] + Insert(s[1..], x)
  }

  /** Insertion at the position that std::lower_bound finds. */
  lemma {:induction false} InsertAt(s: seq<nat>, x: nat, i: nat)
    requires i <= |s| && (forall j | 0 <= j < i :: s[j] < x) && (i < |s| ==> x <= s[i])
    ensures Insert(s, x) == s[..i] + [x] + s[i..]
    decreases i
  {
    if i > 0 {
      InsertAt(s[1..], x, i - 1);
      assert s[1..][..i - 1] == s[1..i] && s[1..][i - 1..] == s[i..] && s[..i] == [s[0]] + s[1..i];
    }
  }

  /** std::list::remove. */
  function Without(s: seq<nat>, x: nat): seq<nat> {
    if s == [] then [] else if s[0] == x then Without(s[1..], x) else [s[0]] + Without(s[1..], x)
  }

  lemma {:induction false} InsertMembers(s: seq<nat>, x: nat)
    ensures forall y: nat :: y in Insert(s, x) <==> y in s || y == x
  {
    if s == [] || x <= s[0] {
    } else {
      InsertMembers(s[1..], x);
      assert s == [s[0]] + s[1..];
    }
  }

  lemma PrependSorted(x: nat, t: seq<nat>)
    requires Sorted(t) && forall y: nat | y in t :: x < y
    ensures Sorted([x] + t)
  {
    assert forall j | 0 <= j < |t| :: t[j] in t;
  }

  lemma {:induction false} InsertSorted(s: seq<nat>, x: nat)
    requires Sorted(s) && x !in s
    ensures Sorted(Insert(s, x))
  {
    if s == [] || x <= s[0] {
      PrependSorted(x, s);
    } else {
      InsertSorted(s[1..], x);
      InsertMembers(s[1..], x);
      PrependSorted(s[0], Insert(s[1..], x));
    }
  }

  lemma {:induction false} WithoutMembers(s: seq<nat>, x: nat)
    ensures forall y: nat :: y in Without(s, x) <==> y in s && y != x
  {
    if s == [] {
    } else {
      WithoutMembers(s[1..], x);
      assert s == [s[0]] + s[1..];
    }
  }

  lemma {:induction false} WithoutSorted(s: seq<nat>, x: nat)
    requires Sorted(s)
    ensures Sorted(Without(s, x))
  {
    if s == [] {
    } else {
      WithoutSorted(s[1..], x);
      WithoutMembers(s[1..], x);
      if s[0] != x { PrependSorted(s[0], Without(s[1..], x)); }
    }
  }

  lemma {:induction false} WithoutAbsent(s: seq<nat>, x: nat)
    requires x !in s
    ensures Without(s, x) == s
  {
    if s == [] {
    } else {
      WithoutAbsent(s[1..], x);
      assert s == [s[0]] + s[1..];
    }
  }

  /** A sorted list is determined by its members, so the heap determines its free lists. */
  lemma {:induction false} SortedUnique(s: seq<nat>, t: seq<nat>)
    requires Sorted(s) && Sorted(t) && forall x: nat :: x in s <==> x in t
    ensures s == t
    decreases |s|
  {
    if s == [] {
      assert forall i | 0 <= i < |t| :: t[i] in t;
    } else {
      assert s[0] in t && (t != [] ==> t[0] in s);
      assert s[0] == t[0];
      assert forall x: nat :: x in s[1..] <==> x in s && x != s[0];
      assert forall x: nat :: x in t[1..] <==> x in t && x != t[0];
      SortedUnique(s[1..], t[1..]);
    }
  }

  /** The abstract heap determines the eleven free lists and every header of the block list. */
  lemma RepresentationUnique(h: Store, f: FreeLists, h': Store, f': FreeLists, m: Heap, ck: nat)
    requires Tiles(m) && Represents(h, f, m, ck, -1) && Represents(h', f', m, ck, -1)
    ensures f == f'
    ensures forall a | a in m :: a in h && a in h' && h[a] == h'[a]
  {
    forall k | 0 <= k <= MAX_ORDER ensures f[k] == f'[k] {
      assert ListOf(f[k], m, k) && ListOf(f'[k], m, k);
      SortedUnique(f[k], f'[k]);
    }
    forall a | a in m ensures a in h && a in h' && h[a] == h'[a] {
      assert HeaderAt(h, m, ck, a) && HeaderAt(h', m, ck, a);
      PrevKnown(h, h', m, ck, a);
    }
  }

  /** Following the headers from the start of the arena visits the same blocks in both tilings. */
  lemma {:induction false} SameChain(h: Store, m: Heap, m': Heap, ck: nat, x: nat)
    requires Tiles(m) && Tiles(m') && Chain(h, m, ck) && Chain(h, m', ck) && x in m
    ensures x in m' && m'[x].order == m[x].order
    decreases x
  {
    if x > 0 {
      assert BlockOk(m, x);
      var y := Covering(m, x - 1);
      SameChain(h, m, m', ck, y);
      assert BlockOk(m', y);
    }
    assert HeaderAt(h, m, ck, x) && HeaderAt(h, m', ck, x);
  }

  /** Headers with settled flags describe one heap only. */
  lemma HeadersDetermineHeap(h: Store, f: FreeLists, f': FreeLists, m: Heap, m': Heap, ck: nat)
    requires Tiles(m) && Tiles(m') && Represents(h, f, m, ck, -1) && Represents(h, f', m', ck, -1)
    ensures m == m'
  {
    forall x | x in m ensures x in m' && m'[x] == m[x] { SameChain(h, m, m', ck, x); }
    forall x | x in m' ensures x in m { SameChain(h, m', m, ck, x); }
  }

  lemma PrevKnown(h: Store, h': Store, m: Heap, ck: nat, a: nat)
    requires Tiles(m) && a in m && Chain(h, m, ck) && Chain(h', m, ck)
    ensures a in h && a in h' && h[a].prev == h'[a].prev
  {
    assert HeaderAt(h, m, ck, a) && HeaderAt(h', m, ck, a);
    assert BlockOk(m, a);
    if a > 0 {
      var c := Covering(m, a - 1);
      assert End(m, c) == a;
      assert HeaderAt(h, m, ck, c) && HeaderAt(h', m, ck, c);
    }
  }

  // ----- the lists count the free blocks

  /** Entries in the lists below order n. */
  function ListedBelow(f: FreeLists, n: nat): nat
    requires n <= |f|
  {
    if n == 0 then 0 else ListedBelow(f, n - 1) + |f[n - 1]|
  }

  ghost function FreeBelow(m: Heap, n: nat): set<nat> {
    set a | a in m && m[a].free && m[a].order < n
  }

  ghost function Members(s: seq<nat>): set<nat> {
    set x | x in s
  }

  lemma {:induction false} SortedSize(s: seq<nat>)
    requires Sorted(s)
    ensures |Members(s)| == |s|
    decreases |s|
  {
    if s == [] {
      assert Members(s) == {};
    } else {
      var front, last := s[..|s| - 1], s[|s| - 1];
      SortedSize(front);
      assert s == front + [last];
      assert Members(s) == Members(front) + {last};
      assert last !in Members(front);
    }
  }

  /** Every free block is in exactly one list, once. */
  lemma {:induction false} ListsCountFree(f: FreeLists, m: Heap, n: nat)
    requires Listed(f, m) && n <= MAX_ORDER + 1
    ensures ListedBelow(f, n) == |FreeBelow(m, n)|
    decreases n
  {
    if n == 0 {
      assert FreeBelow(m, 0) == {};
    } else {
      ListsCountFree(f, m, n - 1);
      assert ListOf(f[n - 1], m, n - 1);
      SortedSize(f[n - 1]);
      assert FreeBelow(m, n) == FreeBelow(m, n - 1) + Members(f[n - 1]);
      assert FreeBelow(m, n - 1) !! Members(f[n - 1]);
    }
  }

  // ----- splitting

  /** The header writes of one pass of SplitIfPossible's loop. */
  function SplitHeaders(h: Store, a: nat, b: nat, ck: nat): Store
    requires a in h && h[a].order > 0 && (h[a].next.At? ==> h[a].next.addr in h)
  {
    var k := h[a].order - 1;
    var h1 := h[b := Header(ck, Payload(k), true, false, k, h[a].next, At(a))];
    var h2 := if h[a].next.Null? then h1 else SetPrev(h1, h[a].next.addr, b);
    h2[a := h[a].(order := k, next := At(b), size := Payload(k))]
  }

  function SetPrev(h: Store, a: nat, p: nat): Store
    requires a in h
  {
    h[a := h[a].(prev := At(p))]
  }

  lemma SplitHeaderAt(h: Store, m: Heap, ck: nat, a: nat, b: nat, x: nat)
    requires Tiles(m) && a in m && m[a].order > 0 && b == a + Pow2(m[a].order - 1)
    requires HeaderAt(h, m, ck, a)
    requires x in m && x != a && HeaderAt(h, m, ck, x)
    ensures HeaderAt(SplitHeaders(h, a, b, ck), Halve(m, a), ck, x)
  {
    HalfOf(m, a);
    assert BlockOk(m, x);
    if x < a { assert End(m, x) <= a; } else { assert End(m, a) <= x; }
  }

  lemma SplitHeaderNew(h: Store, m: Heap, ck: nat, a: nat, b: nat)
    requires Tiles(m) && a in m && m[a].order > 0 && b == a + Pow2(m[a].order - 1)
    requires HeaderAt(h, m, ck, a)
    ensures HeaderAt(SplitHeaders(h, a, b, ck), Halve(m, a), ck, a)
    ensures HeaderAt(SplitHeaders(h, a, b, ck), Halve(m, a), ck, b)
  {
    HalfOf(m, a);
    assert BlockOk(m, a);
    HalvedHeaders(h, m, ck, a, b, m[a].order - 1);
  }

  lemma HalvedHeaders(h: Store, m: Heap, ck: nat, a: nat, b: nat, k: nat)
    requires a in m && m[a].order == k + 1 && HeaderAt(h, m, ck, a)
    requires b == a + Pow2(k) && End(m, a) == b + Pow2(k) <= ARENA
    ensures HeaderAt(SplitHeaders(h, a, b, ck), Halve(m, a), ck, a)
    ensures HeaderAt(SplitHeaders(h, a, b, ck), Halve(m, a), ck, b)
  {
  }

  lemma SplitChain(h: Store, m: Heap, ck: nat, a: nat, b: nat)
    requires Tiles(m) && Chain(h, m, ck) && a in m && m[a].order > 0 && b == a + Pow2(m[a].order - 1)
    requires HeaderAt(h, m, ck, a)
    ensures Chain(SplitHeaders(h, a, b, ck), Halve(m, a), ck)
  {
    SplitHeaderNew(h, m, ck, a, b);
    forall x | x in Halve(m, a) ensures HeaderAt(SplitHeaders(h, a, b, ck), Halve(m, a), ck, x) {
      if x != a && x != b {
        assert HeaderAt(h, m, ck, x);
        SplitHeaderAt(h, m, ck, a, b, x);
      }
    }
  }

  function Pointee(p: Ptr): set<nat> {
    if p.Null? then {} else {p.addr}
  }

  // ----- merging

  /** The header writes of one pass of the merge loops; lo is the lower of the two blocks. */
  function MergeHeaders(h: Store, lo: nat, hi: nat): Store
    requires lo in h && hi in h && lo != hi && (h[hi].next.At? ==> h[hi].next.addr in h)
  {
    var k := h[lo].order + 1;
    var h1 := h[lo := h[lo].(next := h[hi].next, order := k, size := Payload(k), isFree := true)];
    if h[hi].next.Null? then h1 else SetPrev(h1, h[hi].next.addr, lo)
  }

  lemma MergeHeaderLow(h: Store, m: Heap, ck: nat, a: nat, lo: nat, hi: nat)
    requires Tiles(m) && CanAbsorb(m, a) && lo == Parent(a, m[a].order) && hi == lo + Pow2(m[a].order)
    requires lo in m && hi in m && HeaderAt(h, m, ck, lo) && HeaderAt(h, m, ck, hi)
    requires lo in Absorb(m, a)
    ensures HeaderAt(MergeHeaders(h, lo, hi), Absorb(m, a), ck, lo)
  {
    AbsorbEnd(m, a);
    MergedHeader(h, m, Absorb(m, a), ck, lo, hi);
  }

  lemma MergedHeader(h: Store, m: Heap, m': Heap, ck: nat, lo: nat, hi: nat)
    requires lo in m && hi in m && HeaderAt(h, m, ck, lo) && HeaderAt(h, m, ck, hi) && lo < hi
    requires lo in m' && m'[lo].order == m[lo].order + 1 && End(m', lo) == End(m, hi)
    ensures HeaderAt(MergeHeaders(h, lo, hi), m', ck, lo)
  {
  }

  lemma MergeHeaderAt(h: Store, m: Heap, ck: nat, a: nat, lo: nat, hi: nat, x: nat)
    requires Tiles(m) && CanAbsorb(m, a) && lo == Parent(a, m[a].order) && hi == lo + Pow2(m[a].order)
    requires lo in m && hi in m && HeaderAt(h, m, ck, lo) && HeaderAt(h, m, ck, hi)
    requires x in Absorb(m, a) && x in m && x != lo && x != hi && HeaderAt(h, m, ck, x)
    ensures HeaderAt(MergeHeaders(h, lo, hi), Absorb(m, a), ck, x)
  {
    PairOf(m, a);
    assert BlockOk(m, x);
    if x < lo { assert End(m, x) <= lo; } else { assert End(m, hi) <= x; }
  }

  lemma MergeChain(h: Store, m: Heap, ck: nat, a: nat, lo: nat, hi: nat)
    requires Tiles(m) && CanAbsorb(m, a) && Chain(h, m, ck)
    requires lo == Parent(a, m[a].order) && hi == lo + Pow2(m[a].order)
    requires lo in m && hi in m && HeaderAt(h, m, ck, lo) && HeaderAt(h, m, ck, hi)
    ensures Chain(MergeHeaders(h, lo, hi), Absorb(m, a), ck)
  {
    forall x | x in Absorb(m, a) ensures HeaderAt(MergeHeaders(h, lo, hi), Absorb(m, a), ck, x) {
      assert HeaderAt(h, m, ck, x);
      if x == lo { MergeHeaderLow(h, m, ck, a, lo, hi); } else { MergeHeaderAt(h, m, ck, a, lo, hi, x); }
    }
  }

  // ----- headers and free lists together, one step at a time

  lemma ListAdds(freed: FreeLists, m: Heap, m': Heap, a: nat, k: nat)
    requires Listed(freed, m) && k <= MAX_ORDER && !FreeAt(m, a, k)
    requires forall x: nat, j: nat :: FreeAt(m', x, j) <==> FreeAt(m, x, j) || (x == a && j == k)
    ensures Listed(freed[k := Insert(freed[k], a)], m')
  {
    InsertMembers(freed[k], a);
    InsertSorted(freed[k], a);
    var freed' := freed[k := Insert(freed[k], a)];
    forall j | 0 <= j <= MAX_ORDER ensures ListOf(freed'[j], m', j) {
      assert ListOf(freed[j], m, j);
    }
  }

  lemma ListDrops(freed: FreeLists, m: Heap, m': Heap, a: nat, k: nat, s: seq<nat>)
    requires Listed(freed, m) && k <= MAX_ORDER
    requires Sorted(s) && forall x: nat :: x in s <==> x in freed[k] && x != a
    requires forall x: nat, j: nat :: FreeAt(m', x, j) <==> FreeAt(m, x, j) && !(x == a && j == k)
    ensures Listed(freed[k := s], m')
  {
    var freed' := freed[k := s];
    forall j | 0 <= j <= MAX_ORDER ensures ListOf(freed'[j], m', j) {
      assert ListOf(freed[j], m, j);
    }
  }

  lemma SplitStep(h: Store, f: FreeLists, m: Heap, ck: nat, a: nat, b: nat)
    requires Tiles(m) && LiveAt(m, a) && m[a].order > 0 && b == a + Pow2(m[a].order - 1)
    requires Represents(h, f, m, ck, a) && HeaderAt(h, m, ck, a)
    requires m[a].order <= MAX_ORDER
    ensures var k := m[a].order - 1;
            Represents(SplitHeaders(h, a, b, ck), f[k := Insert(f[k], b)], Halve(m, a), ck, a)
  {
    HalfOf(m, a);
    SplitChain(h, m, ck, a, b);
    ListAdds(f, m, Halve(m, a), b, m[a].order - 1);
  }

  lemma MergeLists(f: FreeLists, m: Heap, a: nat, b: nat, k: nat)
    requires Tiles(m) && LiveAt(m, a) && CanAbsorb(m, a) && Listed(f, m) && k == m[a].order && b == Buddy(a, k)
    ensures Listed(f[k := Without(Without(f[k], b), a)], Absorb(m, a))
  {
    WithoutMembers(f[k], b);
    WithoutSorted(f[k], b);
    assert ListOf(f[k], m, k);
    WithoutAbsent(Without(f[k], b), a);
    ListDrops(f, m, Absorb(m, a), b, k, Without(f[k], b));
  }

  lemma MergeFlags(h: Store, m: Heap, ck: nat, a: nat, lo: nat, hi: nat)
    requires Tiles(m) && CanAbsorb(m, a) && lo == Parent(a, m[a].order) && hi == lo + Pow2(m[a].order)
    requires lo in m && hi in m && HeaderAt(h, m, ck, lo) && HeaderAt(h, m, ck, hi) && Flags(h, m, a)
    ensures Flags(MergeHeaders(h, lo, hi), Absorb(m, a), lo)
  {
    PairOf(m, a);
  }

  lemma MergeStep(h: Store, f: FreeLists, m: Heap, ck: nat, a: nat, b: nat, lo: nat, hi: nat, k: nat)
    requires Tiles(m) && LiveAt(m, a) && CanAbsorb(m, a) && Represents(h, f, m, ck, a)
    requires k == m[a].order && b == Buddy(a, k) && lo == Parent(a, k) && hi == lo + Pow2(k)
    requires lo in m && hi in m && HeaderAt(h, m, ck, lo) && HeaderAt(h, m, ck, hi)
    ensures Represents(MergeHeaders(h, lo, hi), f[k := Without(Without(f[k], b), a)], Absorb(m, a), ck, lo)
  {
    MergeChain(h, m, ck, a, lo, hi);
    MergeFlags(h, m, ck, a, lo, hi);
    MergeLists(f, m, a, b, k);
  }

  lemma FinishLive(h: Store, f: FreeLists, m: Heap, ck: nat, a: nat)
    requires Tiles(m) && LiveAt(m, a) && Represents(h, f, m, ck, a) && a in h
    ensures Represents(h[a := h[a].(isFree := false)], f, m, ck, -1)
  {
    var h' := h[a := h[a].(isFree := false)];
    forall x | x in m ensures HeaderAt(h', m, ck, x) { assert HeaderAt(h, m, ck, x); }
  }

  lemma FinishFree(h: Store, f: FreeLists, m: Heap, ck: nat, a: nat)
    requires Tiles(m) && LiveAt(m, a) && Represents(h, f, m, ck, a) && a in h && m[a].order <= MAX_ORDER
    ensures var k := m[a].order;
            Represents(h[a := h[a].(isFree := true)], f[k := Insert(f[k], a)], Release(m, a), ck, -1)
  {
    var h' := h[a := h[a].(isFree := true)];
    var m' := Release(m, a);
    forall x | x in m' ensures HeaderAt(h', m', ck, x) { assert HeaderAt(h, m, ck, x); }
    ListAdds(f, m, m', a, m[a].order);
  }

  lemma StartClaim(h: Store, f: FreeLists, m: Heap, ck: nat, k: nat)
    requires Tiles(m) && Represents(h, f, m, ck, -1) && k <= MAX_ORDER && f[k] != []
    ensures var a := f[k][0];
            && FreeAt(m, a, k) && (forall b: nat | FreeAt(m, b, k) :: a <= b)
            && Represents(h, f[k := f[k][1..]], Claim(m, a), ck, a)
  {
    var a := f[k][0];
    assert ListOf(f[k], m, k);
    assert a in f[k];
    forall b: nat | FreeAt(m, b, k) ensures a <= b {
      assert b in f[k];
    }
    var m' := Claim(m, a);
    forall x | x in m' ensures HeaderAt(h, m', ck, x) { assert HeaderAt(h, m, ck, x); }
    assert forall x: nat :: x in f[k][1..] <==> x in f[k] && x != a by {
      assert f[k] == [a] + f[k][1..];
    }
    ListDrops(f, m, m', a, k, f[k][1..]);
  }

  // ----- payload bytes

  ghost predicate HeaderByte(i: int, units: set<nat>) {
    exists u: nat :: u in units && InHeader(i, u)
  }

  predicate InHeader(i: int, a: nat) {
    128 * a <= i < 128 * a + HEADER
  }

  function EraseHeader(d: Memory, a: nat): Memory {
    d - set i | i in d && InHeader(i, a)
  }

  /** Only header bytes of the given blocks differ. */
  ghost predicate OnlyHeaders(d: Memory, d': Memory, units: set<nat>) {
    forall i: int {:trigger SameByte(d, d', i)} :: HeaderByte(i, units) || SameByte(d, d', i)
  }

  ghost predicate PayloadSame(d: Memory, d': Memory, a: nat, k: nat) {
    forall i: int {:trigger SameByte(d, d', i)} |
      128 * a + HEADER <= i < 128 * (a + Pow2(k)) :: SameByte(d, d', i)
  }

  lemma EraseOnly(d: Memory, d': Memory, a: nat, units: set<nat>)
    requires OnlyHeaders(d, d', units) && a in units
    ensures OnlyHeaders(d, EraseHeader(d', a), units)
  {
    var e := EraseHeader(d', a);
    forall i: int ensures HeaderByte(i, units) || SameByte(d, e, i) {
      assert HeaderByte(i, units) || SameByte(d, d', i);
      if 128 * a <= i < 128 * a + HEADER { assert HeaderByte(i, units); }
    }
  }

  lemma OnlyHeadersSelf(d: Memory, units: set<nat>)
    ensures OnlyHeaders(d, d, units)
  {
  }

  lemma OnlyHeadersWiden(d: Memory, d': Memory, units: set<nat>, wider: set<nat>)
    requires OnlyHeaders(d, d', units) && units <= wider
    ensures OnlyHeaders(d, d', wider)
  {
    forall i: int ensures HeaderByte(i, wider) || SameByte(d, d', i) {
      assert HeaderByte(i, units) || SameByte(d, d', i);
    }
  }

  lemma OnlyHeadersTrans(d: Memory, d1: Memory, d2: Memory, units1: set<nat>, units2: set<nat>, units: set<nat>)
    requires OnlyHeaders(d, d1, units1) && OnlyHeaders(d1, d2, units2) && units1 <= units && units2 <= units
    ensures OnlyHeaders(d, d2, units)
  {
    OnlyHeadersWiden(d, d1, units1, units);
    OnlyHeadersWiden(d1, d2, units2, units);
    forall i: int ensures HeaderByte(i, units) || SameByte(d, d2, i) {
      assert HeaderByte(i, units) || (SameByte(d, d1, i) && SameByte(d1, d2, i));
    }
  }

  /** Header writes at block starts of a tiling leave the payload of each of its blocks alone. */
  lemma PayloadKept(m: Heap, d: Memory, d': Memory, units: set<nat>, a: nat)
    requires Tiles(m) && a in m && OnlyHeaders(d, d', units) && units <= m.Keys
    ensures PayloadSame(d, d', a, m[a].order)
  {
    forall i: int | 128 * a + HEADER <= i < 128 * End(m, a) ensures SameByte(d, d', i) {
      forall u: nat | u in units ensures !(128 * u <= i < 128 * u + HEADER) {
        assert u == a || (a < u && End(m, a) <= u) || (u < a && End(m, u) <= a);
      }
      assert HeaderByte(i, units) || SameByte(d, d', i);
    }
  }

  // ----- the initial heap

  /** The header of the i-th root as Malloc first writes it. */
  function RootHeader(ck: nat, i: nat): Header {
    Header(ck, Payload(MAX_ORDER), true, false, MAX_ORDER, At(1024 * (i + 1)),
           if i == 0 then Null else At(1024 * (i - 1)))
  }

  ghost predicate RootAt(h: Store, ck: nat, i: nat) {
    1024 * i in h && h[1024 * i] == if i < 31 then RootHeader(ck, i) else RootHeader(ck, i).(next := Null)
  }

  ghost predicate RootWritten(h: Store, ck: nat, i: nat) {
    1024 * i in h && h[1024 * i] == RootHeader(ck, i)
  }

  ghost predicate RootsWritten(h: Store, ck: nat, n: nat) {
    forall i: nat | i < n :: RootWritten(h, ck, i)
  }

  lemma RootInside(i: nat)
    requires i < 32
    ensures 1024 * i in Initial()
  {
    InitialMembers();
  }

  lemma NextRoot(h: Store, h': Store, ck: nat, i: nat, a: nat)
    requires RootsWritten(h, ck, i)
    requires a == 1024 * i && h' == h[a := RootHeader(ck, i)]
    ensures RootsWritten(h', ck, i + 1)
  {
    forall j: nat | j <= i ensures RootWritten(h', ck, j) {
      assert j < i ==> RootWritten(h, ck, j);
    }
  }

  lemma LastRoot(h: Store, h': Store, ck: nat)
    requires RootsWritten(h, ck, 32)
    requires 31 * 1024 in h && h' == h[31 * 1024 := h[31 * 1024].(next := Null)]
    ensures forall i: nat | i < 32 :: RootAt(h', ck, i)
  {
    forall i: nat | i < 32 ensures RootAt(h', ck, i) {
      assert RootWritten(h, ck, i);
    }
  }

  lemma InitialChain(h: Store, ck: nat)
    requires forall i: nat | i < 32 :: RootAt(h, ck, i)
    ensures Chain(h, Initial(), ck) && Flags(h, Initial(), -1)
  {
    InitialMembers();
    forall a | a in Initial() ensures HeaderAt(h, Initial(), ck, a) && h[a].isFree {
      InitialAt(a);
      var i := a / 1024;
      assert a == 1024 * i;
      assert RootAt(h, ck, i);
      assert i < 31 ==> RootAt(h, ck, i + 1);
    }
  }

  /** The first n roots are listed, and nothing else. */
  ghost predicate RootsListed(f: FreeLists, n: nat) {
    && |f| == MAX_ORDER + 1 && |f[MAX_ORDER]| == n
    && (forall k | 0 <= k < MAX_ORDER :: f[k] == [])
    && (forall i | 0 <= i < n :: f[MAX_ORDER][i] == 1024 * i)
  }

  /** The set-up leaves headers and lists of the initial heap. */
  lemma InitialReady(h: Store, f: FreeLists, ck: nat)
    requires Chain(h, Initial(), ck) && Flags(h, Initial(), -1) && RootsListed(f, 32)
    ensures Represents(h, f, Initial(), ck, -1)
  {
    InitialLists(f);
  }

  lemma InitialLists(f: FreeLists)
    requires RootsListed(f, 32)
    ensures Listed(f, Initial())
  {
    InitialMembers();
    forall k | 0 <= k <= MAX_ORDER ensures ListOf(f[k], Initial(), k) {
      if k == MAX_ORDER {
        forall x: nat ensures x in f[k] <==> FreeAt(Initial(), x, k) {
          if FreeAt(Initial(), x, k) { assert x == f[k][x / 1024]; }
        }
      }
    }
  }
}
