/** Scalar autograd (src/abs_scalar.c): a computational graph of heap nodes that may share
    subgraphs. `grad` and `visited` are the fields the library updates after construction;
    value, operation and parents never change, so they are constants here. */
module Scalar {
  datatype Op = Leaf | Add | Mul | Relu | Sigmoid

  /** 1 / (1 + e^-x), for the exponential `exp` of the C library. */
  function Logistic(exp: real -> real, x: real): real
    requires 1.0 + exp(-x) != 0.0
  {
    1.0 / (1.0 + exp(-x))
  }

  class Node {
    const val: real
    const op: Op
    const p0: Node?
    const p1: Node?
    /** This node and every node reachable from it through parents. */
    ghost const Repr: set<Node>
    var grad: real
    var visited: bool

    constructor (val: real, op: Op, a: Node?, b: Node?)
      ensures this.val == val && this.op == op && p0 == a && p1 == b
      ensures Repr == {this} + Reach(a) + Reach(b)
      ensures grad == 0.0 && !visited
    {
      this.val, this.op, p0, p1 := val, op, a, b;
      Repr := {this} + (if a == null then {} else a.Repr) + (if b == null then {} else b.Repr);
      grad, visited := 0.0, false;
    }

    /** This node is one the constructors can build: it has the operands its operation needs, the
        value it computes from them, and it is not below itself. */
    ghost predicate WellFormed() {
      && this !in Reach(p0) && this !in Reach(p1)
      && Repr == {this} + Reach(p0) + Reach(p1)
      && (p0 != null ==> p0 in p0.Repr) && (p1 != null ==> p1 in p1.Repr)
      && match op
         case Leaf => p0 == null && p1 == null
         case Add => p0 != null && p1 != null && val == p0.val + p1.val
         case Mul => p0 != null && p1 != null && val == p0.val * p1.val
         case Relu => p0 != null && p1 == null && val == Max0(p0.val)
         case Sigmoid => p0 != null && p1 == null
    }

    /** The whole graph below this node is well formed. */
    ghost predicate Valid() {
      this in Repr && forall n {:trigger n.WellFormed()} :: n in Repr ==> n.WellFormed()
    }
  }

  /** The larger of x and 0. */
  function Max0(x: real): (r: real)
    ensures r >= x && r >= 0.0 && (r == x || r == 0.0)
  {
    if x > 0.0 then x else 0.0
  }

  ghost function Reach(v: Node?): set<Node> {
    if v == null then {} else v.Repr
  }

  ghost predicate ValidGraph(v: Node?) {
    v == null || v.Valid()
  }

  /** A valid node is well formed, and so are its parents' graphs, which are smaller. */
  lemma Parents(v: Node)
    requires v.Valid()
    ensures v.WellFormed() && ValidGraph(v.p0) && ValidGraph(v.p1)
    ensures Reach(v.p0) < v.Repr && Reach(v.p1) < v.Repr
  {}

  /** Reachability is reflexive and transitive below a valid node. */
  lemma {:induction false} ReachClosed(v: Node?)
    requires ValidGraph(v)
    ensures forall n :: n in Reach(v) ==> n in n.Repr && n.Repr <= Reach(v)
    decreases Reach(v)
  {
    if v == null {
    } else {
      Parents(v);
      ReachClosed(v.p0);
      ReachClosed(v.p1);
    }
  }

  // ---------------------------------------------------------------- constructors

  /** The five public constructors. A failed allocation or a missing operand gives null. */
  method NewLeaf(val: real, oom: bool) returns (r: Node?)
    ensures r == null <==> oom
    ensures r != null ==> fresh(r) && r.Valid() && r.Repr == {r} && r.val == val && r.op == Leaf
    ensures r != null ==> r.grad == 0.0 && !r.visited
  {
    if oom { return null; }
    r := new Node(val, Leaf, null, null);
  }

  method NewAdd(a: Node?, b: Node?, oom: bool) returns (r: Node?)
    requires ValidGraph(a) && ValidGraph(b)
    ensures r == null <==> oom || a == null || b == null
    ensures r != null ==> fresh(r) && r.Valid() && r.op == Add && r.p0 == a && r.p1 == b
    ensures r != null ==> r.Repr == {r} + Reach(a) + Reach(b) && r.grad == 0.0 && !r.visited
  {
    if a == null || b == null || oom { return null; }
    ReachClosed(a);
    ReachClosed(b);
    r := new Node(a.val + b.val, Add, a, b);
    assert r !in a.Repr && r !in b.Repr;
  }

  method NewMul(a: Node?, b: Node?, oom: bool) returns (r: Node?)
    requires ValidGraph(a) && ValidGraph(b)
    ensures r == null <==> oom || a == null || b == null
    ensures r != null ==> fresh(r) && r.Valid() && r.op == Mul && r.p0 == a && r.p1 == b
    ensures r != null ==> r.Repr == {r} + Reach(a) + Reach(b) && r.grad == 0.0 && !r.visited
  {
    if a == null || b == null || oom { return null; }
    r := new Node(a.val * b.val, Mul, a, b);
    assert r !in a.Repr && r !in b.Repr;
  }

  method NewRelu(a: Node?, oom: bool) returns (r: Node?)
    requires ValidGraph(a)
    ensures r == null <==> oom || a == null
    ensures r != null ==> fresh(r) && r.Valid() && r.op == Relu && r.p0 == a
    ensures r != null ==> r.Repr == {r} + Reach(a) && r.grad == 0.0 && !r.visited
  {
    if a == null || oom { return null; }
    r := new Node(if a.val > 0.0 then a.val else 0.0, Relu, a, null);
    assert r !in a.Repr;
  }

  method NewSigmoid(a: Node?, exp: real -> real, oom: bool) returns (r: Node?)
    requires ValidGraph(a)
    requires forall x :: exp(x) > 0.0
    ensures r == null <==> oom || a == null
    ensures r != null ==> fresh(r) && r.Valid() && r.op == Sigmoid && r.p0 == a && r.val == Logistic(exp, a.val)
    ensures r != null ==> r.Repr == {r} + Reach(a) && r.grad == 0.0 && !r.visited
  {
    if a == null || oom { return null; }
    r := new Node(1.0 / (1.0 + exp(-a.val)), Sigmoid, a, null);
    assert r !in a.Repr;
  }

  // ---------------------------------------------------------------- marking traversals

  ghost predicate AllMarked(s: set<Node>)
    reads s
  {
    forall n :: n in s ==> n.visited
  }

  ghost predicate NoneMarked(s: set<Node>)
    reads s
  {
    forall n :: n in s ==> !n.visited
  }

  /** The marked nodes of s are those of m. */
  ghost predicate MarksAre(s: set<Node>, m: set<Node>)
    reads s
  {
    forall n :: n in s ==> (n.visited <==> n in m)
  }

  /** Whatever lies below a node of m is in m. */
  ghost predicate DownClosed(s: set<Node>, m: set<Node>) {
    forall n :: n in s && n in m ==> n.Repr <= m
  }

  /** Whatever lies below an unmarked node is unmarked. */
  ghost predicate UnmarkedClosed(s: set<Node>)
    reads s
  {
    forall n, m :: n in s && m in s && !n.visited && m in n.Repr ==> !m.visited
  }

  method ClearVisited(v: Node?)
    requires ValidGraph(v) && UnmarkedClosed(Reach(v))
    modifies Reach(v)`visited
    ensures NoneMarked(Reach(v))
    decreases Reach(v)
  {
    if v == null { return; }
    Parents(v);
    ReachClosed(v);
    if !v.visited { return; }
    ReachClosed(v.p0);
    v.visited := false;
    ClearVisited(v.p0);
    ClearVisited(v.p1);
  }

  method ZeroGrad(v: Node?)
    requires ValidGraph(v) && NoneMarked(Reach(v))
    modifies Reach(v)`visited, Reach(v)`grad
    ensures NoneMarked(Reach(v))
    ensures forall n :: n in Reach(v) ==> n.grad == 0.0
    decreases Reach(v)
  {
    if v == null || v.visited { return; }
    Parents(v);
    ReachClosed(v.p0);
    ReachClosed(v.p1);
    v.visited := true;
    v.grad := 0.0;
    ZeroGrad(v.p0);
    ZeroGrad(v.p1);
    ClearVisited(v);
  }

  /** What both recursive calls of a traversal need of the set m of nodes marked so far. */
  lemma Descend(v: Node, m: set<Node>)
    requires v.Valid() && DownClosed(v.Repr, m)
    ensures v in m ==> v.Repr <= m
    ensures v.WellFormed() && ValidGraph(v.p0) && ValidGraph(v.p1)
    ensures Reach(v.p0) < v.Repr && Reach(v.p1) < v.Repr
    ensures DownClosed(Reach(v.p0), m) && DownClosed(Reach(v.p1), m + Reach(v.p0))
  {
    Parents(v);
    ReachClosed(v);
    ReachClosed(v.p0);
  }

  /** The nodes below v that are not in m, each after its parents: what a depth-first traversal
      from v meets when the nodes of m are already marked. */
  ghost function PostOrder(v: Node?, m: set<Node>): seq<Node>
    requires ValidGraph(v)
    decreases Reach(v)
  {
    if v == null || v in m then []
    else
      Parents(v);
      PostOrder(v.p0, m) + PostOrder(v.p1, m + Reach(v.p0)) + [v]
  }

  /** Marks the unmarked nodes below v and returns how many they are; m is the set of nodes marked
      on entry. */
  method Count(v: Node?, ghost m: set<Node>) returns (n: nat)
    requires ValidGraph(v) && MarksAre(Reach(v), m) && DownClosed(Reach(v), m)
    modifies Reach(v)`visited
    ensures AllMarked(Reach(v))
    ensures n == |PostOrder(v, m)|
    decreases Reach(v)
  {
    if v == null { return 0; }
    Descend(v, m);
    if v.visited { return 0; }
    v.visited := true;
    n := 1;
    var c := Count(v.p0, m);
    n := n + c;
    c := Count(v.p1, m + Reach(v.p0));
    n := n + c;
  }

  ghost predicate NoDuplicates(s: seq<Node>) {
    forall i, j :: 0 <= i < j < |s| ==> s[i] != s[j]
  }

  /** Every parent of a node of s is in m or earlier in s. */
  ghost predicate ParentsFirst(s: seq<Node>, m: set<Node>) {
    forall i :: 0 <= i < |s| ==>
      && (s[i].p0 == null || s[i].p0 in m || s[i].p0 in s[..i])
      && (s[i].p1 == null || s[i].p1 in m || s[i].p1 in s[..i])
  }

  lemma ParentsFirstAppend(s: seq<Node>, t: seq<Node>, m: set<Node>, m': set<Node>)
    requires ParentsFirst(s, m) && ParentsFirst(t, m')
    requires forall n :: n in m' ==> n in m || n in s
    ensures ParentsFirst(s + t, m)
  {
    var u := s + t;
    forall i | 0 <= i < |u|
      ensures u[i].p0 == null || u[i].p0 in m || u[i].p0 in u[..i]
      ensures u[i].p1 == null || u[i].p1 in m || u[i].p1 in u[..i]
    {
      if i < |s| {
        assert u[..i] == s[..i];
      } else {
        assert u[..i] == s + t[..i - |s|];
      }
    }
  }

  /** The traversal order holds exactly the nodes below v that are not in m. */
  lemma {:induction false} PostOrderNodes(v: Node?, m: set<Node>)
    requires ValidGraph(v) && DownClosed(Reach(v), m)
    ensures forall n :: n in PostOrder(v, m) <==> n in Reach(v) && n !in m
    decreases Reach(v)
  {
    if v == null {
    } else {
      Descend(v, m);
      if v !in m {
        PostOrderNodes(v.p0, m);
        PostOrderNodes(v.p1, m + Reach(v.p0));
      }
    }
  }

  lemma NoDuplicatesAppend(s: seq<Node>, t: seq<Node>)
    requires NoDuplicates(s) && NoDuplicates(t)
    requires forall n :: n in s ==> n !in t
    ensures NoDuplicates(s + t)
  {
    var u := s + t;
    forall i, j | 0 <= i < j < |u| ensures u[i] != u[j] {
      if i < |s| <= j { assert u[i] in s && u[j] in t; }
    }
  }

  /** The traversal order never repeats a node and lists parents before children. */
  lemma {:induction false} PostOrderIsTopological(v: Node?, m: set<Node>)
    requires ValidGraph(v) && DownClosed(Reach(v), m)
    ensures NoDuplicates(PostOrder(v, m))
    ensures ParentsFirst(PostOrder(v, m), m)
    decreases Reach(v)
  {
    if v == null {
    } else {
      Descend(v, m);
      if v !in m {
        var m1 := m + Reach(v.p0);
        PostOrderIsTopological(v.p0, m);
        PostOrderIsTopological(v.p1, m1);
        PostOrderNodes(v.p0, m);
        PostOrderNodes(v.p1, m1);
        AppendTopological(v, PostOrder(v.p0, m), PostOrder(v.p1, m1), m);
      }
    }
  }

  lemma AppendTopological(v: Node, s: seq<Node>, t: seq<Node>, m: set<Node>)
    requires v.WellFormed() && v !in s && v !in t
    requires forall n :: n in s <==> n in Reach(v.p0) && n !in m
    requires forall n :: n in t <==> n in Reach(v.p1) && n !in m && n !in Reach(v.p0)
    requires NoDuplicates(s) && NoDuplicates(t)
    requires ParentsFirst(s, m) && ParentsFirst(t, m + Reach(v.p0))
    ensures NoDuplicates(s + t + [v]) && ParentsFirst(s + t + [v], m)
  {
    NoDuplicatesAppend(s, t);
    NoDuplicatesAppend(s + t, [v]);
    ParentsFirstAppend(s, t, m, m + Reach(v.p0));
    ParentsFirstAppend(s + t, [v], m, m + Reach(v.p0) + Reach(v.p1));
  }

  /** As much of s as fits in k places. */
  function Fit<T>(s: seq<T>, k: nat): seq<T> {
    if |s| <= k then s else s[..k]
  }

  lemma FitThree(a: seq<Node?>, b: seq<Node?>, c: seq<Node?>, d: seq<Node?>, k: nat)
    ensures Fit(Fit(Fit(a + b, k) + c, k) + d, k) == Fit(a + (b + c + d), k)
  {}

  /** Appends the unmarked nodes below v to `order`, parents first, as long as there is room, and
      marks them. */
  method BuildOrder(v: Node?, order: array<Node?>, count: nat, cap: nat, ghost m: set<Node>)
    returns (newCount: nat)
    requires ValidGraph(v) && MarksAre(Reach(v), m) && DownClosed(Reach(v), m)
    requires count <= cap <= order.Length
    modifies order, Reach(v)`visited
    ensures AllMarked(Reach(v))
    ensures count <= newCount <= cap
    ensures order[..newCount] == Fit(old(order[..count]) + PostOrder(v, m), cap)
    decreases Reach(v)
  {
    newCount := count;
    if v == null { return; }
    Descend(v, m);
    if v.visited { return; }
    v.visited := true;
    ghost var start, o0, o1 := order[..count], PostOrder(v.p0, m), PostOrder(v.p1, m + Reach(v.p0));
    newCount := BuildOrder(v.p0, order, newCount, cap, m);
    newCount := BuildOrder(v.p1, order, newCount, cap, m + Reach(v.p0));
    ghost var filled := order[..newCount];
    if newCount < cap {
      order[newCount] := v;
      newCount := newCount + 1;
      assert order[..newCount] == filled + [v];
    }
    FitThree(start, o0, o1, [v], cap);
  }

  /** The shared first half of Backward and Free: count the nodes below root, clear the marks,
      allocate the order array and fill it. The array has room for exactly the nodes there are. */
  method Collect(root: Node, oom: bool) returns (order: array?<Node?>, count: nat, ghost s: seq<Node>)
    requires root.Valid() && NoneMarked(root.Repr)
    modifies root.Repr`visited
    ensures s == PostOrder(root, {})
    ensures order == null <==> oom
    ensures oom ==> NoneMarked(root.Repr)
    ensures !oom ==> AllMarked(root.Repr) && fresh(order) && count == |s| == order.Length && order[..] == s
  {
    s := PostOrder(root, {});
    count := 0;
    var n := Count(root, {});
    ClearVisited(root);
    if oom { return null, 0, s; }
    var a := new Node?[n](_ => null);
    count := BuildOrder(root, a, 0, n, {});
    assert a[..count] == s by { assert a[..0] + s == s; }
    assert a[..count] == a[..];
    order := a;
  }

  // ---------------------------------------------------------------- release

  /** The allocator's view of the nodes: those still allocated, and every release so far. */
  class Memory {
    ghost var live: set<Node>
    ghost var released: seq<Node>

    ghost method Release(n: Node)
      requires n in live
      modifies this
      ensures live == old(live) - {n} && released == old(released) + [n]
    {
      live := live - {n};
      released := released + [n];
    }
  }

  /** The releasing loop of Free: each listed node once, in the order of the array. */
  method ReleaseAll(order: array<Node?>, count: nat, ghost s: seq<Node>, ghost mem: Memory)
    requires count == |s| == order.Length && order[..] == s
    requires NoDuplicates(s) && forall n :: n in s ==> n in mem.live
    modifies mem
    ensures mem.released == old(mem.released) + s
    ensures forall n :: n in mem.live <==> n in old(mem.live) && n !in s
  {
    for i := 0 to count
      invariant mem.released == old(mem.released) + s[..i]
      invariant forall n :: n in mem.live <==> n in old(mem.live) && n !in s[..i]
    {
      assert order[i] == order[..][i] == s[i];
      mem.Release(s[i]);
      assert s[..i + 1] == s[..i] + [s[i]];
    }
    assert s[..count] == s;
  }

  /** Releases the whole graph below root, each node once. The traversals run while every node is
      still allocated. */
  method Free(root: Node?, oom: bool, ghost mem: Memory)
    requires ValidGraph(root) && NoneMarked(Reach(root)) && Reach(root) <= mem.live
    modifies Reach(root)`visited, mem
    ensures oom ==> mem.live == old(mem.live) && mem.released == old(mem.released)
    ensures !oom ==> mem.live == old(mem.live) - Reach(root)
    ensures !oom ==> mem.released == old(mem.released) + PostOrder(root, {})
  {
    if root == null { return; }
    var order, count, s := Collect(root, oom);
    if order == null { return; }
    PostOrderNodes(root, {});
    PostOrderIsTopological(root, {});
    ReleaseAll(order, count, s, mem);
  }
}
