/** `MemList` of malloc_2.cpp: a first-fit allocator over the space obtained from sbrk. Addresses are in bytes,
    and only this allocator moves the program break. */
module FirstFit {
  import opened Bytes

  /** sizeof(MallocMetadata) of malloc_2.cpp. */
  type HeaderSize = x: nat | 0 < x witness 32
  const HEADER: HeaderSize

  datatype Ptr = Null | At(addr: nat)

  /** MallocMetadata. */
  datatype Header = Header(size: nat, isFree: bool, next: Ptr, prev: Ptr)

  type Store = map<nat, Header>

  /** A block of the list, abstractly. */
  datatype Block = Block(addr: nat, size: nat, free: bool)

  function End(b: Block): nat {
    b.addr + HEADER + b.size
  }

  ghost predicate Adjacent(bs: seq<Block>, i: nat)
    requires i + 1 < |bs|
  {
    bs[i + 1].addr == End(bs[i])
  }

  /** The blocks, in list order, tile the space up to the break without gaps or overlaps. */
  ghost predicate Contiguous(bs: seq<Block>, brk: nat) {
    && (forall i: nat {:trigger Adjacent(bs, i)} | i + 1 < |bs| :: Adjacent(bs, i))
    && (bs != [] ==> End(bs[|bs| - 1]) == brk)
  }

  lemma Apart(bs: seq<Block>, brk: nat, i: nat, j: nat)
    requires Contiguous(bs, brk) && i < j < |bs|
    ensures End(bs[i]) <= bs[j].addr && End(bs[j]) <= brk
  {
    UpTo(bs, brk, i, j);
    ToBreak(bs, brk, j);
  }

  lemma {:induction false} UpTo(bs: seq<Block>, brk: nat, i: nat, j: nat)
    requires Contiguous(bs, brk) && i < j < |bs|
    ensures End(bs[i]) <= bs[j].addr
    decreases j
  {
    assert Adjacent(bs, j - 1);
    if i + 1 < j { UpTo(bs, brk, i, j - 1); }
  }

  lemma {:induction false} ToBreak(bs: seq<Block>, brk: nat, j: nat)
    requires Contiguous(bs, brk) && j < |bs|
    ensures End(bs[j]) <= brk
    decreases |bs| - j
  {
    if j + 1 < |bs| { assert Adjacent(bs, j); ToBreak(bs, brk, j + 1); }
  }

  function NextOf(bs: seq<Block>, i: nat): Ptr
    requires i < |bs|
  {
    if i + 1 < |bs| then At(bs[i + 1].addr) else Null
  }

  function PrevOf(bs: seq<Block>, i: nat): Ptr
    requires i < |bs|
  {
    if i > 0 then At(bs[i - 1].addr) else Null
  }

  ghost predicate HeaderOf(h: Store, bs: seq<Block>, i: nat) {
    i < |bs| && bs[i].addr in h && h[bs[i].addr] == Header(bs[i].size, bs[i].free, NextOf(bs, i), PrevOf(bs, i))
  }

  /** The headers form the doubly linked list of the blocks. */
  ghost predicate Linked(h: Store, head: Ptr, bs: seq<Block>) {
    && head == (if bs == [] then Null else At(bs[0].addr))
    && forall i: nat | i < |bs| :: HeaderOf(h, bs, i)
  }

  predicate Fits(b: Block, size: nat) {
    b.free && size <= b.size
  }

  /** The first block from i on that fits. */
  function FirstFrom(bs: seq<Block>, size: nat, i: nat): (k: nat)
    requires i <= |bs|
    ensures i <= k <= |bs| && (k < |bs| ==> Fits(bs[k], size))
    ensures forall j | i <= j < k :: !Fits(bs[j], size)
    decreases |bs| - i
  {
    if i == |bs| || Fits(bs[i], size) then i else FirstFrom(bs, size, i + 1)
  }

  function SetFree(bs: seq<Block>, i: nat, free: bool): seq<Block>
    requires i < |bs|
  {
    bs[i := bs[i].(free := free)]
  }

  /** The blocks after a successful allocation: the first one that fits is taken, or a new one appended. */
  function Taken(bs: seq<Block>, brk: nat, size: nat): seq<Block> {
    var k := FirstFrom(bs, size, 0);
    if k < |bs| then SetFree(bs, k, false) else bs + [Block(brk, size, false)]
  }

  lemma FlagKeeps(h: Store, head: Ptr, bs: seq<Block>, brk: nat, i: nat, free: bool)
    requires Linked(h, head, bs) && Contiguous(bs, brk) && i < |bs|
    ensures bs[i].addr in h
    ensures Linked(h[bs[i].addr := h[bs[i].addr].(isFree := free)], head, SetFree(bs, i, free))
    ensures Contiguous(SetFree(bs, i, free), brk)
  {
    assert HeaderOf(h, bs, i);
    var h', bs' := h[bs[i].addr := h[bs[i].addr].(isFree := free)], SetFree(bs, i, free);
    forall j: nat | j < |bs| ensures HeaderOf(h', bs', j) {
      assert HeaderOf(h, bs, j);
      if j < i { Apart(bs, brk, j, i); } else if i < j { Apart(bs, brk, i, j); }
    }
    forall j: nat | j + 1 < |bs'| ensures Adjacent(bs', j) { assert Adjacent(bs, j); }
  }

  /** The header writes that append a block at the break. */
  function AppendHeaders(h: Store, last: Ptr, brk: nat, size: nat): Store
    requires last.At? ==> last.addr in h
  {
    var h1 := h[brk := Header(size, false, Null, last)];
    if last.Null? then h1 else h1[last.addr := h1[last.addr].(next := At(brk))]
  }

  lemma AppendKeeps(h: Store, head: Ptr, bs: seq<Block>, brk: nat, size: nat, last: Ptr)
    requires Linked(h, head, bs) && Contiguous(bs, brk)
    requires last == if bs == [] then Null else At(bs[|bs| - 1].addr)
    ensures last.At? ==> last.addr in h
    ensures Contiguous(bs + [Block(brk, size, false)], brk + HEADER + size)
    ensures Linked(AppendHeaders(h, last, brk, size), if bs == [] then At(brk) else head,
                   bs + [Block(brk, size, false)])
  {
    if bs != [] { assert HeaderOf(h, bs, |bs| - 1); }
    var h', bs' := AppendHeaders(h, last, brk, size), bs + [Block(brk, size, false)];
    forall j: nat | j < |bs'| ensures HeaderOf(h', bs', j) {
      if j < |bs| {
        assert HeaderOf(h, bs, j);
        ToBreak(bs, brk, j);
        if j + 1 < |bs| { Apart(bs, brk, j, |bs| - 1); }
      }
    }
    forall j: nat | j + 1 < |bs'| ensures Adjacent(bs', j) {
      if j + 1 < |bs| { assert Adjacent(bs, j); }
    }
  }

  // ----- payload bytes

  function EraseHeader(d: Memory, a: nat): Memory {
    d - set i | i in d && InHeader(i, a)
  }

  predicate InHeader(i: int, a: nat) {
    a <= i < a + HEADER
  }

  ghost predicate PayloadSame(d: Memory, d': Memory, b: Block) {
    forall i: int {:trigger SameByte(d, d', i)} | b.addr + HEADER <= i < End(b) :: SameByte(d, d', i)
  }

  /** Every live block of bs but the p-th is a live block of bs' with the same payload. */
  ghost predicate OthersKept(bs: seq<Block>, d: Memory, bs': seq<Block>, d': Memory, p: int) {
    && |bs| <= |bs'|
    && forall j | 0 <= j < |bs| && j != p && !bs[j].free :: bs'[j] == bs[j] && PayloadSame(d, d', bs[j])
  }

  ghost predicate SomeHeader(i: int, bs: seq<Block>) {
    exists j :: 0 <= j < |bs| && InHeader(i, bs[j].addr)
  }

  /** Bytes outside the headers of listed blocks and above the break are as before. */
  ghost predicate OnlyHeaders(d: Memory, d': Memory, bs: seq<Block>) {
    forall i: int {:trigger SameByte(d, d', i)} ::
      SomeHeader(i, bs) || SameByte(d, d', i)
  }

  lemma OnlyHeadersKeep(bs: seq<Block>, brk: nat, d: Memory, d': Memory, k: nat)
    requires Contiguous(bs, brk) && OnlyHeaders(d, d', bs) && k < |bs|
    ensures PayloadSame(d, d', bs[k])
  {
    forall i: int | bs[k].addr + HEADER <= i < End(bs[k]) ensures SameByte(d, d', i) {
      forall j | 0 <= j < |bs| ensures !InHeader(i, bs[j].addr) {
        if j < k { Apart(bs, brk, j, k); } else if k < j { Apart(bs, brk, k, j); }
      }
      assert SomeHeader(i, bs) || SameByte(d, d', i);
    }
  }

  lemma EraseOnly(d: Memory, d': Memory, bs: seq<Block>, j: nat)
    requires j < |bs| && OnlyHeaders(d, d', bs)
    ensures OnlyHeaders(d, EraseHeader(d', bs[j].addr), bs)
  {
    var e := EraseHeader(d', bs[j].addr);
    forall i: int ensures SomeHeader(i, bs) || SameByte(d, e, i) {
      assert SomeHeader(i, bs) || SameByte(d, d', i);
      if InHeader(i, bs[j].addr) { assert 0 <= j < |bs|; }
    }
  }

  /** The moves of Srealloc: headers are written, the old payload is copied into block n, more headers are
      written. The copy survives, and so does every other live payload. */
  lemma ReallocBytes(bs: seq<Block>, bs1: seq<Block>, brk: nat, d: Memory, d1: Memory, d2: Memory, d3: Memory,
                     k: nat, n: nat)
    requires k < |bs| <= |bs1| && n < |bs1| && n != k && Contiguous(bs1, brk)
    requires !bs[k].free && bs[k].size <= bs1[n].size
    requires forall j | 0 <= j < |bs| && !bs[j].free :: bs1[j] == bs[j] && j != n
    requires OnlyHeaders(d, d1, bs1) && OnlyHeaders(d2, d3, bs1)
    requires Moved(d1, d2, bs1[n].addr + HEADER, bs[k].addr + HEADER, bs[k].size)
    ensures Copied(d, bs[k].addr + HEADER, d3, bs1[n].addr + HEADER, bs[k].size)
    ensures OthersKept(bs, d, SetFree(bs1, k, true), d3, k)
  {
    assert bs1[k] == bs[k];
    CopyThrough(bs1, brk, d, d1, d2, d3, k, n);
    forall j | 0 <= j < |bs| && j != k && !bs[j].free ensures PayloadSame(d, d3, bs[j]) {
      KeptThrough(bs1, brk, d, d1, d2, d3, bs[k].addr + HEADER, bs[k].size, n, j);
    }
  }

  lemma CopyThrough(bs: seq<Block>, brk: nat, d: Memory, d1: Memory, d2: Memory, d3: Memory, k: nat, n: nat)
    requires k < |bs| && n < |bs| && n != k && Contiguous(bs, brk) && bs[k].size <= bs[n].size
    requires OnlyHeaders(d, d1, bs) && OnlyHeaders(d2, d3, bs)
    requires Moved(d1, d2, bs[n].addr + HEADER, bs[k].addr + HEADER, bs[k].size)
    ensures Copied(d, bs[k].addr + HEADER, d3, bs[n].addr + HEADER, bs[k].size)
  {
    OnlyHeadersKeep(bs, brk, d, d1, k);
    SourceKept(d, d1, d2, bs[n].addr + HEADER, bs[k].addr + HEADER, bs[k].size);
    OnlyHeadersKeep(bs, brk, d2, d3, n);
    CopiedKept(d, bs[k].addr + HEADER, d2, d3, bs[n].addr + HEADER, bs[k].size);
  }

  lemma KeptThrough(bs: seq<Block>, brk: nat, d: Memory, d1: Memory, d2: Memory, d3: Memory,
                    src: nat, size: nat, n: nat, j: nat)
    requires n < |bs| && j < |bs| && n != j && Contiguous(bs, brk) && size <= bs[n].size
    requires OnlyHeaders(d, d1, bs) && OnlyHeaders(d2, d3, bs) && Moved(d1, d2, bs[n].addr + HEADER, src, size)
    ensures PayloadSame(d, d3, bs[j])
  {
    OnlyHeadersKeep(bs, brk, d, d1, j);
    OnlyHeadersKeep(bs, brk, d2, d3, j);
    if j < n { Apart(bs, brk, j, n); } else { Apart(bs, brk, n, j); }
    forall i: int | bs[j].addr + HEADER <= i < End(bs[j]) ensures SameByte(d, d3, i) {
      assert SameByte(d, d1, i) && SameByte(d1, d2, i) && SameByte(d2, d3, i);
    }
  }

  /** Sum of the payload sizes over the whole list. */
  function TotalSize(bs: seq<Block>): nat {
    if bs == [] then 0 else TotalSize(bs[..|bs| - 1]) + bs[|bs| - 1].size
  }

  /** The distance from the first block to the break is the payloads plus one header per block. */
  lemma {:induction false} BytesAddUp(bs: seq<Block>, brk: nat)
    requires Contiguous(bs, brk) && bs != []
    ensures TotalSize(bs) + HEADER * |bs| == brk - bs[0].addr
    decreases |bs|
  {
    var n := |bs| - 1;
    var front := bs[..n];
    if n > 0 {
      assert Adjacent(bs, n - 1);
      forall i: nat | i + 1 < |front| ensures Adjacent(front, i) { assert Adjacent(bs, i); }
      BytesAddUp(front, bs[n].addr);
    } else {
      assert front == [];
    }
    MulSucc(HEADER, n);
  }

  lemma MulSucc(h: nat, n: nat)
    ensures h * (n + 1) == h * n + h
  {
  }

  class MemList {
    var head: Ptr
    var headers: Store
    var brk: nat
    var data: Memory
    ghost var blocks: seq<Block>

    ghost predicate Valid()
      reads this
    {
      Linked(headers, head, blocks) && Contiguous(blocks, brk)
    }

    constructor (programBreak: nat)
      ensures Valid() && blocks == [] && brk == programBreak
    {
      head, headers, brk, data := Null, map[], programBreak, map[];
      blocks := [];
    }

    method WriteHeader(a: nat, hd: Header)
      modifies this`headers, this`data
      ensures headers == old(headers)[a := hd] && data == EraseHeader(old(data), a)
    {
      headers := headers[a := hd];
      data := EraseHeader(data, a);
    }

    /** The search loop of Malloc. */
    method Search(size: nat) returns (found: Ptr, last: Ptr)
      requires Valid()
      ensures var k := FirstFrom(blocks, size, 0);
              && found == (if k < |blocks| then At(blocks[k].addr) else Null)
              && (found.Null? ==> last == if blocks == [] then Null else At(blocks[|blocks| - 1].addr))
      ensures found.Null? ==> forall j | 0 <= j < |blocks| :: !blocks[j].free || blocks[j].size < size
      ensures found.At? ==>
                exists k :: 0 <= k < |blocks| && blocks[k].addr == found.addr
                            && blocks[k].free && size <= blocks[k].size
                            && forall j | 0 <= j < k :: !blocks[j].free || blocks[j].size < size
    {
      var curr := head;
      last := head;
      ghost var i := 0;
      while curr.At?
        invariant 0 <= i <= |blocks| && curr == (if i < |blocks| then At(blocks[i].addr) else Null)
        invariant FirstFrom(blocks, size, 0) == FirstFrom(blocks, size, i)
        invariant i > 0 ==> last == At(blocks[i - 1].addr)
        invariant i == 0 ==> last == head
        decreases |blocks| - i
      {
        assert HeaderOf(headers, blocks, i);
        if headers[curr.addr].isFree && size <= headers[curr.addr].size {
          return curr, last;
        }
        last := curr;
        curr := headers[curr.addr].next;
        i := i + 1;
      }
      found := Null;
    }

    /** Malloc. `granted` says whether sbrk succeeds. Takes the lowest-address free block that fits, or extends
        the space at its end. */
    method Malloc(size: nat, granted: bool) returns (p: Ptr)
      requires Valid()
      modifies this
      ensures Valid()
      ensures var k := FirstFrom(old(blocks), size, 0);
              if k < |old(blocks)| then
                p == At(old(blocks)[k].addr) && blocks == SetFree(old(blocks), k, false) && brk == old(brk)
              else if granted then
                p == At(old(brk)) && blocks == old(blocks) + [Block(old(brk), size, false)]
                && brk == old(brk) + HEADER + size
              else
                p == Null && blocks == old(blocks) && brk == old(brk)
      ensures p.Null? || brk != old(brk) ==>
                forall j | 0 <= j < |old(blocks)| :: !old(blocks)[j].free || old(blocks)[j].size < size
      ensures brk == old(brk) && p.At? ==>
                exists k :: 0 <= k < |old(blocks)| && old(blocks)[k].addr == p.addr
                            && old(blocks)[k].free && size <= old(blocks)[k].size
                            && forall j | 0 <= j < k :: !old(blocks)[j].free || old(blocks)[j].size < size
      ensures OnlyHeaders(old(data), data, blocks)
    {
      ghost var k := FirstFrom(blocks, size, 0);
      var found, last := Search(size);
      if found.At? {
        FlagKeeps(headers, head, blocks, brk, k, false);
        EraseOnly(data, data, blocks, k);
        WriteHeader(found.addr, headers[found.addr].(isFree := false));
        blocks := SetFree(blocks, k, false);
        assert forall j | 0 <= j < |blocks| :: blocks[j].addr == old(blocks)[j].addr;
        SameStarts(old(data), data, old(blocks), blocks);
        return found;
      }
      if !granted {
        return Null;
      }
      AppendKeeps(headers, head, blocks, brk, size, last);
      ghost var bs := blocks + [Block(brk, size, false)];
      var curr := brk;
      EraseOnly(data, data, bs, |bs| - 1);
      WriteHeader(curr, Header(size, false, Null, last));
      if head.Null? {
        head := At(curr);
      } else {
        EraseOnly(old(data), data, bs, |bs| - 2);
        WriteHeader(last.addr, headers[last.addr].(next := At(curr)));
      }
      brk := brk + HEADER + size;
      blocks := bs;
      return At(curr);
    }

    /** Free: the client must hold a block of the list. */
    method Free(p: nat, ghost k: nat)
      requires Valid() && k < |blocks| && blocks[k].addr == p
      modifies this`headers, this`data, this`blocks
      ensures Valid() && blocks == SetFree(old(blocks), k, true)
      ensures OnlyHeaders(old(data), data, blocks)
    {
      FlagKeeps(headers, head, blocks, brk, k, true);
      EraseOnly(data, data, blocks, k);
      WriteHeader(p, headers[p].(isFree := true));
      blocks := SetFree(blocks, k, true);
      SameStarts(old(data), data, old(blocks), blocks);
    }

    /** A block that was just released serves the next request that it can hold: the request is met at or below it,
        whether or not sbrk would grant more space, and the break stays. */
    method FreeThenMalloc(p: nat, size: nat, granted: bool, ghost k: nat) returns (q: Ptr)
      requires Valid() && k < |blocks| && blocks[k].addr == p && size <= blocks[k].size
      modifies this
      ensures Valid() && q.At? && q.addr <= p && brk == old(brk)
    {
      ghost var bs := blocks;
      Free(p, k);
      assert blocks[k].free && blocks[k].size == bs[k].size;
      q := Malloc(size, granted);
      ghost var n := FirstFrom(SetFree(bs, k, true), size, 0);
      if n < k { Apart(bs, brk, n, k); }
    }

    method Memmove(dst: nat, src: nat, n: nat)
      modifies this`data
      ensures Moved(old(data), data, dst, src, n)
    {
      MoveIsMoved(data, dst, src, n);
      data := Move(data, dst, src, n);
    }

    /** Srealloc of the live k-th block. A block that is large enough stays; otherwise the call fails exactly when no
        free block fits and sbrk is refused, and on success the new block starts with the old payload, the old
        block is free, and every other live block keeps its own payload. */
    method Srealloc(p: nat, size: nat, granted: bool, ghost k: nat) returns (q: Ptr, ghost n: nat)
      requires Valid() && k < |blocks| && blocks[k].addr == p && !blocks[k].free
      modifies this
      ensures Valid()
      ensures size <= old(blocks)[k].size ==> q == At(p) && n == k && blocks == old(blocks) && data == old(data)
      ensures size > old(blocks)[k].size ==>
                && (q.Null? <==> FirstFrom(old(blocks), size, 0) == |old(blocks)| && !granted)
                && (q.At? ==> n == FirstFrom(old(blocks), size, 0) && k < |Taken(old(blocks), old(brk), size)|
                              && blocks == SetFree(Taken(old(blocks), old(brk), size), k, true))
      ensures brk == if |blocks| > |old(blocks)| then old(brk) + HEADER + size else old(brk)
      ensures q.Null? ==> blocks == old(blocks) && OthersKept(old(blocks), old(data), blocks, data, -1)
      ensures q.At? ==>
                && n < |blocks| && blocks[n].addr == q.addr && !blocks[n].free && size <= blocks[n].size
                && Copied(old(data), p + HEADER, data, q.addr + HEADER, old(blocks)[k].size)
                && OthersKept(old(blocks), old(data), blocks, data, k)
    {
      assert HeaderOf(headers, blocks, k);
      var oldSize := headers[p].size;
      n := k;
      if size <= oldSize {
        return At(p), k;
      }
      q := Malloc(size, granted);
      if q.Null? {
        forall j: nat | j < |blocks| ensures PayloadSame(old(data), data, blocks[j]) {
          OnlyHeadersKeep(blocks, brk, old(data), data, j);
        }
        return;
      }
      n := FirstFrom(old(blocks), size, 0);
      ghost var bs1, d1 := blocks, data;
      Memmove(q.addr + HEADER, p + HEADER, oldSize);
      ghost var d2 := data;
      Free(p, k);
      SameStarts(d2, data, blocks, bs1);
      ReallocBytes(old(blocks), bs1, brk, old(data), d1, d2, data, k, n);
    }

    method GetNumberOfAllocatedBytes() returns (bytes: nat)
      requires Valid()
      ensures bytes == TotalSize(blocks)
    {
      if head.Null? {
        return 0;
      }
      var curr, first, last := head, head.addr, head.addr;
      var counter := 0;
      ghost var i := 0;
      while curr.At?
        invariant 0 <= i <= |blocks| && curr == (if i < |blocks| then At(blocks[i].addr) else Null)
        invariant counter == i && (i > 0 ==> last == blocks[i - 1].addr)
        decreases |blocks| - i
      {
        assert HeaderOf(headers, blocks, i);
        counter := counter + 1;
        last := curr.addr;
        curr := headers[curr.addr].next;
        i := i + 1;
      }
      assert HeaderOf(headers, blocks, |blocks| - 1);
      BytesAddUp(blocks, brk);
      MulSucc(HEADER, counter - 1);
      bytes := last - first + headers[last].size - HEADER * (counter - 1);
    }
  }

  lemma SameStarts(d: Memory, d': Memory, bs: seq<Block>, bs': seq<Block>)
    requires OnlyHeaders(d, d', bs) && |bs| == |bs'| && forall j | 0 <= j < |bs| :: bs'[j].addr == bs[j].addr
    ensures OnlyHeaders(d, d', bs')
  {
    forall i: int ensures SomeHeader(i, bs') || SameByte(d, d', i) {
      if j :| 0 <= j < |bs| && InHeader(i, bs[j].addr) {
        assert InHeader(i, bs'[j].addr);
      }
    }
  }
}
