/** Byte memory as the allocators see it: payload bytes by address, and memmove. */
module Bytes {

  /** Bytes by address. Writing a header destroys the bytes it covers. */
  type Memory = map<int, bv8>

  predicate SameByte(d: Memory, d': Memory, i: int) {
    (i in d <==> i in d') && (i in d ==> d[i] == d'[i])
  }

  /** Store the byte (or lack of one) found at `src` in d at `dst` of e. */
  function PutByte(d: Memory, e: Memory, dst: nat, src: nat): Memory {
    if src in d then e[dst := d[src]] else e - {dst}
  }

  /** std::memmove of n bytes. */
  function Move(d: Memory, dst: nat, src: nat, n: nat): Memory {
    if n == 0 then d else PutByte(d, Move(d, dst, src, n - 1), dst + n - 1, src + n - 1)
  }

  predicate ByteMoved(d: Memory, src: nat, d': Memory, dst: nat, j: nat) {
    (src + j in d <==> dst + j in d') && (src + j in d ==> d[src + j] == d'[dst + j])
  }

  /** The n bytes at `dst` in d' are those at `src` in d. */
  ghost predicate Copied(d: Memory, src: nat, d': Memory, dst: nat, n: nat) {
    forall j: nat | j < n :: ByteMoved(d, src, d', dst, j)
  }

  /** What memmove of n bytes from src to dst does. */
  ghost predicate Moved(d: Memory, d': Memory, dst: nat, src: nat, n: nat) {
    && Copied(d, src, d', dst, n)
    && forall i: int {:trigger SameByte(d, d', i)} | !(dst <= i < dst + n) :: SameByte(d, d', i)
  }

  lemma {:induction false} MoveIsMoved(d: Memory, dst: nat, src: nat, n: nat)
    ensures Moved(d, Move(d, dst, src, n), dst, src, n)
    decreases n
  {
    if n > 0 {
      MoveIsMoved(d, dst, src, n - 1);
      var e, e' := Move(d, dst, src, n - 1), Move(d, dst, src, n);
      forall j: nat | j < n ensures ByteMoved(d, src, e', dst, j) {
        assert j < n - 1 ==> ByteMoved(d, src, e, dst, j);
      }
      forall i: int | !(dst <= i < dst + n) ensures SameByte(d, e', i) {
        assert SameByte(d, e, i);
      }
    }
  }

  lemma SourceKept(d: Memory, d1: Memory, d2: Memory, dst: nat, src: nat, n: nat)
    requires forall i: int {:trigger SameByte(d, d1, i)} | src <= i < src + n :: SameByte(d, d1, i)
    requires Copied(d1, src, d2, dst, n)
    ensures Copied(d, src, d2, dst, n)
  {
    forall j: nat | j < n ensures ByteMoved(d, src, d2, dst, j) {
      assert SameByte(d, d1, src + j) && ByteMoved(d1, src, d2, dst, j);
    }
  }

  lemma CopiedKept(d: Memory, src: nat, d1: Memory, d2: Memory, dst: nat, n: nat)
    requires Copied(d, src, d1, dst, n)
    requires forall i: int {:trigger SameByte(d1, d2, i)} | dst <= i < dst + n :: SameByte(d1, d2, i)
    ensures Copied(d, src, d2, dst, n)
  {
    forall j: nat | j < n ensures ByteMoved(d, src, d2, dst, j) {
      assert SameByte(d1, d2, dst + j) && ByteMoved(d, src, d1, dst, j);
    }
  }
}
