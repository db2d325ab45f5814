/** queue.c: the linked queue of pending connections, and the random-drop loop of server.c that works on it. */
module LinkedQueue {

  // ----- sequences with one element removed

  function RemoveAt<T>(s: seq<T>, i: nat): seq<T>
    requires i < |s|
  {
    s[..i] + s[i + 1..]
  }

  /** The state of the random-drop loop after k draws from s: each draw takes a raw random number modulo the
      current length and removes that element. The result is what is left and what was removed, in order. */
  function DrawOut<T>(s: seq<T>, rands: seq<nat>, k: nat): (r: (seq<T>, seq<T>))
    requires k <= |s| && k <= |rands|
    ensures |r.0| == |s| - k && |r.1| == k
  {
    if k == 0 then (s, [])
    else
      var (rest, out) := DrawOut(s, rands, k - 1);
      var i := rands[k - 1] % |rest|;
      (RemoveAt(rest, i), out + [rest[i]])
  }

  /** `t` is a subsequence of `s`, at the increasing positions `at`. */
  ghost predicate EmbedsAt<T>(t: seq<T>, s: seq<T>, at: seq<nat>) {
    && |at| == |t|
    && (forall j | 0 <= j < |t| :: at[j] < |s| && t[j] == s[at[j]])
    && (forall i, j | 0 <= i < j < |t| :: at[i] < at[j])
  }

  ghost predicate Subsequence<T>(t: seq<T>, s: seq<T>) {
    exists at: seq<nat> :: EmbedsAt(t, s, at)
  }

  lemma SubsequenceSelf<T>(s: seq<T>)
    ensures Subsequence(s, s)
  {
    assert EmbedsAt(s, s, seq(|s|, i => i));
  }

  lemma RemoveAtEmbeds<T>(s: seq<T>, i: nat)
    requires i < |s|
    ensures Subsequence(RemoveAt(s, i), s)
  {
    assert EmbedsAt(RemoveAt(s, i), s, seq(|s| - 1, j => if j < i then j else j + 1));
  }

  lemma SubsequenceTrans<T>(r: seq<T>, t: seq<T>, s: seq<T>)
    requires Subsequence(r, t) && Subsequence(t, s)
    ensures Subsequence(r, s)
  {
    var f: seq<nat> :| EmbedsAt(r, t, f);
    var g: seq<nat> :| EmbedsAt(t, s, g);
    var h := seq(|r|, j requires 0 <= j < |r| => g[f[j]]);
    assert EmbedsAt(r, s, h);
  }

  lemma RemoveAtMultiset<T>(s: seq<T>, i: nat)
    requires i < |s|
    ensures multiset(s) == multiset(RemoveAt(s, i)) + multiset{s[i]}
  {
    assert s == s[..i] + [s[i]] + s[i + 1..];
  }

  lemma DrawOneKeeps<T>(s: seq<T>, rest: seq<T>, out: seq<T>, i: nat)
    requires i < |rest| && multiset(s) == multiset(rest) + multiset(out) && Subsequence(rest, s)
    ensures multiset(s) == multiset(RemoveAt(rest, i)) + multiset(out + [rest[i]])
    ensures Subsequence(RemoveAt(rest, i), s)
  {
    RemoveAtMultiset(rest, i);
    RemoveAtEmbeds(rest, i);
    SubsequenceTrans(RemoveAt(rest, i), rest, s);
  }

  /** The draws lose and duplicate nothing, and leave the others in order. */
  lemma {:induction false} DrawOutKeeps<T>(s: seq<T>, rands: seq<nat>, k: nat)
    requires k <= |s| && k <= |rands|
    ensures var (rest, out) := DrawOut(s, rands, k);
            multiset(s) == multiset(rest) + multiset(out) && Subsequence(rest, s)
    decreases k
  {
    if k == 0 {
      SubsequenceSelf(s);
    } else {
      var (rest, out) := DrawOut(s, rands, k - 1);
      DrawOutKeeps(s, rands, k - 1);
      DrawOneKeeps(s, rest, out, rands[k - 1] % |rest|);
    }
  }

  /** No request is safe from a draw: every entry left after k draws is the next one when its position comes up. */
  lemma EveryEntryCanBeDrawn<T>(s: seq<T>, rands: seq<nat>, k: nat, i: nat)
    requires k < |s| && k < |rands| && rands[k] == i < |s| - k
    ensures var (rest, out) := DrawOut(s, rands, k);
            DrawOut(s, rands, k + 1) == (RemoveAt(rest, i), out + [rest[i]])
  {
    NextDraw(s, rands, k);
    SmallMod(i, |s| - k);
  }

  lemma SmallMod(i: nat, n: nat)
    requires i < n
    ensures i % n == i
  {
  }

  lemma NextDraw<T>(s: seq<T>, rs: seq<nat>, k: nat)
    requires k < |s| && k < |rs|
    ensures var rest := DrawOut(s, rs, k).0;
            && DrawOut(s, rs, k + 1).0 == RemoveAt(rest, rs[k] % |rest|)
            && DrawOut(s, rs, k + 1).1 == DrawOut(s, rs, k).1 + [rest[rs[k] % |rest|]]
  {
  }

  // ----- the linked queue

  datatype Entry = Entry(fd: int, arrival: real)

  class Node {
    var data: int
    var arrival: real
    var next: Node?

    constructor (data: int, arrival: real)
      ensures this.data == data && this.arrival == arrival && next == null
    {
      this.data, this.arrival, this.next := data, arrival, null;
    }
  }

  class Queue {
    var front: Node?
    var rear: Node?
    var size: nat
    ghost var nodes: seq<Node>

    ghost predicate Valid()
      reads this, nodes
    {
      && size == |nodes|
      && (forall i, j | 0 <= i < j < |nodes| :: nodes[i] != nodes[j])
      && (forall i {:trigger nodes[i].next} | 0 <= i < |nodes| - 1 :: nodes[i].next == nodes[i + 1])
      && (|nodes| > 0 ==> nodes[|nodes| - 1].next == null)
      && front == (if nodes == [] then null else nodes[0])
      && rear == (if nodes == [] then null else nodes[|nodes| - 1])
    }

    ghost function Repr(): set<Node>
      reads this
    {
      set n | n in nodes
    }

    ghost function Contents(): (s: seq<Entry>)
      reads this, nodes
      ensures |s| == |nodes|
      ensures forall i | 0 <= i < |s| :: s[i] == Entry(nodes[i].data, nodes[i].arrival)
    {
      seq(|nodes|, i requires 0 <= i < |nodes| reads this, nodes => Entry(nodes[i].data, nodes[i].arrival))
    }

    /** createQueue. */
    constructor ()
      ensures Valid() && Contents() == []
    {
      front, rear, size := null, null, 0;
      nodes := [];
    }

    method Enqueue(data: int, arrival: real)
      requires Valid()
      modifies this, Repr()
      ensures Valid() && Contents() == old(Contents()) + [Entry(data, arrival)]
      ensures fresh(Repr() - old(Repr()))
    {
      var node := new Node(data, arrival);
      if size == 0 {
        front, rear := node, node;
      } else {
        rear.next := node;
        rear := node;
      }
      size := size + 1;
      nodes := nodes + [node];
    }

    /** Returns -1 on an empty queue. `now` is the clock reading behind the dispatch interval. */
    method Dequeue(now: real) returns (fd: int, arrival: real, dispatch: real)
      requires Valid()
      modifies this
      ensures Valid() && nodes == if old(nodes) == [] then [] else old(nodes)[1..]
      ensures old(Contents()) == [] ==> fd == -1 && Contents() == []
      ensures old(Contents()) != [] ==>
                && Entry(fd, arrival) == old(Contents())[0] && dispatch == now - arrival
                && Contents() == old(Contents())[1..]
    {
      if size == 0 {
        return -1, 0.0, 0.0;
      }
      var temp := front;
      front := front.next;
      if front == null {
        rear := null;
      }
      fd, arrival, dispatch := temp.data, temp.arrival, now - temp.arrival;
      size := size - 1;
      nodes := nodes[1..];
    }

    /** dequeue_i: remove the i-th entry, counting from 1. */
    method DequeueAt(i: nat) returns (fd: int)
      requires Valid() && 1 <= i
      modifies this, Repr()
      ensures Valid() && Repr() <= old(Repr())
      ensures i > |old(Contents())| ==> fd == -1 && Contents() == old(Contents())
      ensures i <= |old(Contents())| ==>
                fd == old(Contents())[i - 1].fd && Contents() == RemoveAt(old(Contents()), i - 1)
    {
      if i > size {
        return -1;
      }
      if i == 1 {
        fd := front.data;
        front := front.next;
        if size == 1 {
          rear := null;
        }
        size := size - 1;
        nodes := nodes[1..];
        return;
      }
      var curr, temp := 1, front;
      while curr != i - 1
        invariant 1 <= curr <= i - 1 && temp == nodes[curr - 1]
        decreases i - curr
      {
        temp := temp.next;
        curr := curr + 1;
      }
      fd := UnlinkAfter(temp, i);
      ContentsWithout(i - 1);
    }

    twostate lemma ContentsWithout(i: nat)
      requires i < |old(nodes)| && nodes == RemoveAt(old(nodes), i)
      requires forall n <- old(nodes) :: n.data == old(n.data) && n.arrival == old(n.arrival)
      ensures Contents() == RemoveAt(old(Contents()), i)
    {
      ghost var s := old(Contents());
      assert forall j | 0 <= j < |nodes| :: nodes[j] == old(nodes)[if j < i then j else j + 1];
      assert forall j | 0 <= j < |nodes| :: Contents()[j] == s[if j < i then j else j + 1];
    }

    /** The end of dequeue_i: unlink the i-th node, given its predecessor. */
    method UnlinkAfter(temp: Node, i: nat) returns (fd: int)
      requires Valid() && 2 <= i <= size && temp == nodes[i - 2]
      modifies this, Repr()
      ensures Valid() && nodes == RemoveAt(old(nodes), i - 1) && fd == old(Contents())[i - 1].fd
      ensures forall n <- old(nodes) :: n.data == old(n.data) && n.arrival == old(n.arrival)
    {
      var toDelete := temp.next;
      assert toDelete == nodes[i - 1];
      temp.next := toDelete.next;
      if i == size {
        rear := temp;
      }
      fd := toDelete.data;
      size := size - 1;
      ghost var s := nodes;
      nodes := RemoveAt(nodes, i - 1);
      assert forall j | 0 <= j < |nodes| :: nodes[j] == if j < i - 1 then s[j] else s[j + 1];
    }

    /** One pass of the random-drop loop: rand() % size + 1 is always a valid index. */
    method DropOne(r: nat) returns (fd: int, ghost e: Entry)
      requires Valid() && size > 0
      modifies this, Repr()
      ensures Valid() && Repr() <= old(Repr())
      ensures var i := r % |old(Contents())|;
              fd == e.fd && e == old(Contents())[i] && Contents() == RemoveAt(old(Contents()), i)
    {
      e := Contents()[r % size];
      fd := DequeueAt(r % size + 1);
    }

    /** The `random` branch of handle_overloading: drop half of the queue, rounded down, at random.
        Reports rejection when the queue is empty. */
    method DropRandomHalf(rands: seq<nat>) returns (rejected: bool, dropped: seq<int>)
      requires Valid() && |Contents()| <= |rands|
      modifies this, Repr()
      ensures Valid() && rejected == (old(Contents()) == [])
      ensures var (rest, out) := DrawOut(old(Contents()), rands, |old(Contents())| / 2);
              Contents() == rest && |dropped| == |out| && forall j | 0 <= j < |out| :: dropped[j] == out[j].fd
    {
      dropped := [];
      rejected := false;
      if size == 0 {
        return true, [];
      }
      var toDelete := size / 2;
      ghost var s0 := Contents();
      ghost var out: seq<Entry> := [];
      for k := 0 to toDelete
        invariant Valid() && Repr() <= old(Repr())
        invariant |out| == k == |dropped| && forall j | 0 <= j < k :: dropped[j] == out[j].fd
        invariant DrawOut(s0, rands, k) == (Contents(), out)
      {
        ghost var e;
        var fd;
        fd, e := DropOne(rands[k]);
        out := out + [e];
        dropped := dropped + [fd];
      }
    }
  }
}
