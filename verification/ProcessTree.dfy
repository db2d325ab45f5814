/** The heaviest-descendant system call of hw2.c, over the tree of processes below the caller.

    The recursive search starts the caller itself with no candidate and weight 0, so a first child whose subtree
    weighs nothing makes it read the pid of a candidate that is not there.
 */
module ProcessTree {

  const ECHILD: int := 10

  datatype Node = Node(pid: int, weight: nat)

  datatype Task = Task(node: Node, children: seq<Task>)

  /** What the search or the call comes to: a null dereference, no candidate, or a value. */
  datatype Outcome<T> = Crash | Nothing | Found(value: T)

  // ----- what is searched

  /** The nodes of a process and of all its descendants. */
  function Subtree(t: Task): seq<Node>
    decreases t, 1
  {
    [t.node] + Forest(t.children)
  }

  function Forest(ts: seq<Task>): seq<Node>
    decreases ts, 0
  {
    if ts == [] then [] else Forest(ts[..|ts| - 1]) + Subtree(ts[|ts| - 1])
  }

  /** The descendants of a process, without itself. */
  function Descendants(t: Task): seq<Node> {
    Forest(t.children)
  }

  /** The path of child indices leads from t to u. */
  ghost predicate Leads(t: Task, path: seq<nat>, u: Task)
    decreases |path|
  {
    if path == [] then u == t else path[0] < |t.children| && Leads(t.children[path[0]], path[1..], u)
  }

  /** u is a proper descendant of t. */
  ghost predicate Below(t: Task, u: Task) {
    exists path :: path != [] && Leads(t, path, u)
  }

  /** A process and all its descendants have weight 0. */
  ghost predicate WeighsNothing(t: Task) {
    forall path, u | Leads(t, path, u) :: u.node.weight == 0
  }

  /** A node is in a subtree if and only if some path leads to it, and among the descendants if and only if a path
      of at least one step does. */
  lemma SubtreeIsReached(t: Task, n: Node)
    ensures n in Subtree(t) <==> exists path, u :: Leads(t, path, u) && u.node == n
    ensures n in Descendants(t) <==> exists u :: Below(t, u) && u.node == n
  {
    if n in Subtree(t) { SomePath(t, n); }
    forall path, u | Leads(t, path, u) ensures u.node in Subtree(t) && (path != [] ==> u.node in Descendants(t)) {
      PathStays(t, path, u);
    }
  }

  lemma SomePath(t: Task, n: Node)
    requires n in Subtree(t)
    ensures exists path, u :: Leads(t, path, u) && u.node == n
    ensures n in Descendants(t) ==> exists u :: Below(t, u) && u.node == n
  {
    var path: seq<nat>, u := [], t;
    if n in Descendants(t) {
      path, u := PathTo(t, n);
      assert Below(t, u);
    }
    assert Leads(t, path, u) && u.node == n;
  }

  lemma {:induction false} PathStays(t: Task, path: seq<nat>, u: Task)
    requires Leads(t, path, u)
    ensures u.node in Subtree(t) && (path != [] ==> u.node in Descendants(t))
    decreases |path|
  {
    if path != [] {
      PathStays(t.children[path[0]], path[1..], u);
      ForestHolds(t.children, path[0], u.node);
    }
  }

  lemma {:induction false} PathTo(t: Task, n: Node) returns (path: seq<nat>, u: Task)
    requires n in Descendants(t)
    ensures path != [] && Leads(t, path, u) && u.node == n
    decreases t
  {
    var i := ForestHas(t.children, n);
    var c := t.children[i];
    if n in Descendants(c) {
      path, u := PathTo(c, n);
    } else {
      path, u := [], c;
    }
    assert ([i] + path)[1..] == path;
    path := [i] + path;
  }

  lemma {:induction false} ForestHas(ts: seq<Task>, n: Node) returns (i: nat)
    requires n in Forest(ts)
    ensures i < |ts| && n in Subtree(ts[i])
    decreases |ts|
  {
    i := |ts| - 1;
    if n !in Subtree(ts[i]) { i := ForestHas(ts[..i], n); }
  }

  lemma {:induction false} ForestHolds(ts: seq<Task>, i: nat, n: Node)
    requires i < |ts| && n in Subtree(ts[i])
    ensures n in Forest(ts)
    decreases |ts|
  {
    if i < |ts| - 1 { ForestHolds(ts[..|ts| - 1], i, n); }
  }

  predicate Outweighs(x: Node, y: Node) {
    x.weight > y.weight || (x.weight == y.weight && x.pid <= y.pid)
  }

  /** `x` is one of the nodes, of the greatest weight and among those of the least pid. */
  ghost predicate Heaviest(x: Node, nodes: seq<Node>) {
    x in nodes && forall y | y in nodes :: Outweighs(x, y)
  }

  ghost predicate Weightless(nodes: seq<Node>) {
    forall y | y in nodes :: y.weight == 0
  }

  /** The heaviest node is the same in any two listings of the same processes. */
  lemma HeaviestUnique(x: Node, y: Node, xs: seq<Node>, ys: seq<Node>)
    requires Heaviest(x, xs) && Heaviest(y, ys) && forall z :: z in xs <==> z in ys
    ensures x == y
  {
    assert Outweighs(x, y) && Outweighs(y, x);
  }

  lemma HeaviestWeightless(x: Node, nodes: seq<Node>)
    requires Heaviest(x, nodes)
    ensures x.weight == 0 <==> Weightless(nodes)
  {
    if x.weight == 0 {
      forall y | y in nodes ensures y.weight == 0 { assert Outweighs(x, y); }
    }
  }

  lemma HeaviestJoin(x: Node, y: Node, xs: seq<Node>, ys: seq<Node>)
    requires Heaviest(x, xs) && Heaviest(y, ys)
    ensures Heaviest(if Outweighs(x, y) then x else y, xs + ys)
  {
  }

  // ----- the search

  method FindHeaviest(task: Task, father: bool) returns (r: Outcome<Node>)
    ensures !father ==> r.Found? && Heaviest(r.value, Subtree(task))
    ensures father ==> (r.Crash? <==> task.children != [] && Weightless(Subtree(task.children[0])))
    ensures father ==> (r.Nothing? <==> task.children == [])
    ensures father && r.Found? ==> Heaviest(r.value, Descendants(task))
    decreases task
  {
    var ts := task.children;
    var best, weight := Found(task.node), task.node.weight;
    if father { best, weight := Nothing, 0; }
    ghost var seen := if father then [] else [task.node];
    for i := 0 to |ts|
      invariant !best.Crash? && (best.Nothing? <==> father && i == 0)
      invariant weight == if best.Found? then best.value.weight else 0
      invariant best.Found? ==> Heaviest(best.value, seen + Forest(ts[..i]))
      invariant father && i > 0 ==> !Weightless(Subtree(ts[0]))
    {
      var d := FindHeaviest(ts[i], false);
      assert ts[..i + 1][..i] == ts[..i];
      assert seen + Forest(ts[..i + 1]) == (seen + Forest(ts[..i])) + Subtree(ts[i]);
      HeaviestWeightless(d.value, Subtree(ts[i]));
      if best.Found? { HeaviestJoin(best.value, d.value, seen + Forest(ts[..i]), Subtree(ts[i])); }
      if d.value.weight > weight {
        best, weight := d, d.value.weight;
      } else if d.value.weight == weight {
        if best.Nothing? { return Crash; }
        if d.value.pid < best.value.pid { best := d; }
      }
    }
    assert ts[..|ts|] == ts;
    r := best;
  }

  /** The system call: the pid of the heaviest descendant, the least one among equals, unless the first child and
      all its descendants have weight 0. */
  method GetHeaviestDescendant(current: Task) returns (r: Outcome<int>)
    ensures r == Found(-ECHILD) <== current.children == []
    ensures r.Crash? <==> current.children != [] && WeighsNothing(current.children[0])
    ensures current.children != [] && !r.Crash? ==>
              exists x: Task :: r == Found(x.node.pid) && Below(current, x)
                && forall y | Below(current, y) :: y.node.weight < x.node.weight
                                || (y.node.weight == x.node.weight && x.node.pid <= y.node.pid)
  {
    if current.children == [] { return Found(-ECHILD); }
    var d := FindHeaviest(current, true);
    WeightlessReached(current.children[0]);
    if d.Found? {
      ghost var x := ReachedHeaviest(current, d.value);
      r := Found(d.value.pid);
    } else {
      r := Crash;
    }
  }

  lemma WeightlessReached(t: Task)
    ensures Weightless(Subtree(t)) <==> WeighsNothing(t)
  {
    if Weightless(Subtree(t)) {
      forall path, y | Leads(t, path, y) ensures y.node.weight == 0 { SubtreeIsReached(t, y.node); }
    } else {
      var n :| n in Subtree(t) && n.weight != 0;
      SubtreeIsReached(t, n);
    }
  }

  lemma ReachedHeaviest(t: Task, n: Node) returns (x: Task)
    requires Heaviest(n, Descendants(t))
    ensures Below(t, x) && x.node == n
    ensures forall y | Below(t, y) :: y.node.weight < n.weight || (y.node.weight == n.weight && n.pid <= y.node.pid)
  {
    SubtreeIsReached(t, n);
    x :| Below(t, x) && x.node == n;
    forall y | Below(t, y)
      ensures y.node.weight < n.weight || (y.node.weight == n.weight && n.pid <= y.node.pid)
    {
      SubtreeIsReached(t, y.node);
      assert Outweighs(n, y.node);
    }
  }

  lemma Leaf(t: Task)
    requires t.children == []
    ensures Subtree(t) == [t.node]
  {
    assert Forest(t.children) == [];
  }

  lemma TwoChildren(t: Task, u: Task)
    requires t.children == [] && u.children == []
    ensures Subtree(t) == [t.node] && Forest([t, u]) == [t.node, u.node]
  {
    var ts := [t, u];
    Leaf(t);
    Leaf(u);
    assert ts[..1] == [t] && [t][..0] == [] && Forest([]) == [];
    assert Forest([t]) == Forest([]) + Subtree(t);
    assert Forest(ts) == Forest(ts[..1]) + Subtree(u);
  }

  /** The failure depends on the order of the children: of two calls by a caller with one weightless and one heavy
      child, one fails and the other returns the heavy child. */
  method OrderDecides(parent: Node, light: Node, heavy: Node) returns (r1: Outcome<int>, r2: Outcome<int>)
    requires light.weight == 0 < heavy.weight
    ensures r1 == Crash && r2 == Found(heavy.pid)
  {
    var a, b := Task(light, []), Task(heavy, []);
    var t1, t2 := Task(parent, [a, b]), Task(parent, [b, a]);
    assert t1.children[0] == a && t2.children[0] == b;
    r1 := GetHeaviestDescendant(t1);
    r2 := GetHeaviestDescendant(t2);
    LeafWeighs(a);
    LeafWeighs(b);
    TwoBelow(parent, heavy, light);
  }

  lemma LeafWeighs(t: Task)
    requires t.children == []
    ensures WeighsNothing(t) <==> t.node.weight == 0
  {
    assert Leads(t, [], t);
  }

  lemma TwoBelow(parent: Node, heavy: Node, light: Node)
    ensures var t := Task(parent, [Task(heavy, []), Task(light, [])]);
            && Below(t, Task(heavy, [])) && forall y | Below(t, y) :: y.node in {heavy, light}
  {
    var t := Task(parent, [Task(heavy, []), Task(light, [])]);
    assert Leads(t, [0], Task(heavy, [])) by { assert [0][1..] == []; }
    TwoChildren(Task(heavy, []), Task(light, []));
    forall y | Below(t, y) ensures y.node in {heavy, light} { SubtreeIsReached(t, y.node); }
  }
}
