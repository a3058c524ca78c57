/** Reverse-mode differentiation (abs_scalar_backward): the in-place `grad +=` sweep over the
    reversed traversal order, proved to give each node the tangent (forward-mode) derivative of
    the root, which is also the sum over all paths of the products of local derivatives. */
module ScalarBackward {
  import opened Common
  import opened Scalar

  /** Local derivative of a node's operation with respect to its first and second operand. */
  ghost function Slope0(v: Node): real
    requires v.WellFormed()
  {
    match v.op
    case Leaf => 0.0
    case Add => 1.0
    case Mul => v.p1.val
    case Relu => if v.p0.val > 0.0 then 1.0 else 0.0
    case Sigmoid => Times(v.val, 1.0 - v.val)
  }

  ghost function Slope1(v: Node): real
    requires v.WellFormed()
  {
    match v.op
    case Add => 1.0
    case Mul => v.p0.val
    case _ => 0.0
  }

  /** Forward mode: the derivative of v when x is the only node that varies. */
  ghost function Tangent(v: Node?, x: Node): real
    requires ValidGraph(v)
    decreases Reach(v)
  {
    if v == null then 0.0
    else if v == x then 1.0
    else
      Parents(v);
      Combine(Slope0(v), Tangent(v.p0, x), Slope1(v), Tangent(v.p1, x))
  }

  ghost function Combine(a: real, s: real, b: real, t: real): real {
    Times(a, s) + Times(b, t)
  }

  lemma {:induction false} TangentOutside(v: Node?, x: Node)
    requires ValidGraph(v) && x !in Reach(v)
    ensures Tangent(v, x) == 0.0
    decreases Reach(v)
  {
    if v == null {
    } else {
      Parents(v);
      TangentOutside(v.p0, x);
      TangentOutside(v.p1, x);
    }
  }

  lemma CombineZero(a: real, b: real)
    ensures Combine(a, 0.0, b, 0.0) == 0.0
  {}

  /** One unfolding of Tangent that also holds at v == x, because v is not below its parents. */
  lemma TangentStep(v: Node, x: Node)
    requires v.Valid()
    ensures ValidGraph(v.p0) && ValidGraph(v.p1) && v.WellFormed()
    ensures Tangent(v, x) == (if v == x then 1.0 else 0.0)
                             + Combine(Slope0(v), Tangent(v.p0, x), Slope1(v), Tangent(v.p1, x))
  {
    Parents(v);
    if v == x {
      TangentOutside(v.p0, x);
      TangentOutside(v.p1, x);
      CombineZero(Slope0(v), Slope1(v));
    }
  }

  // ---------------------------------------------------------------- weighted sums over nodes

  ghost predicate AllValid(s: seq<Node>) {
    forall i :: 0 <= i < |s| ==> s[i].Valid()
  }

  /** The sum over the nodes of s of weight times tangent. */
  ghost function Pairing(s: seq<Node>, w: seq<real>, x: Node): real
    requires |s| == |w| && AllValid(s)
  {
    if s == [] then 0.0
    else Pairing(s[..|s| - 1], w[..|s| - 1], x) + Times(w[|s| - 1], Tangent(s[|s| - 1], x))
  }

  /** The weights that put c on node n and nothing elsewhere. */
  ghost function Spike(s: seq<Node>, n: Node?, c: real): (w: seq<real>)
    ensures |w| == |s|
  {
    seq(|s|, i requires 0 <= i < |s| => if s[i] == n then c else 0.0)
  }

  lemma {:induction false} PairingSpike(s: seq<Node>, n: Node?, c: real, x: Node)
    requires AllValid(s) && NoDuplicates(s) && (n == null || n in s)
    ensures ValidGraph(n) && Pairing(s, Spike(s, n, c), x) == Times(c, Tangent(n, x))
  {
    if n == null {
      PairingZero(s, Spike(s, n, c), x);
    } else {
      var k := |s| - 1;
      var init := s[..k];
      assert Spike(s, n, c)[..k] == Spike(init, n, c);
      if s[k] == n {
        PairingZero(init, Spike(init, n, c), x);
      } else {
        PairingSpike(init, n, c, x);
      }
    }
  }

  lemma {:induction false} PairingZero(s: seq<Node>, w: seq<real>, x: Node)
    requires |s| == |w| && AllValid(s) && forall i :: 0 <= i < |w| ==> w[i] == 0.0
    ensures Pairing(s, w, x) == 0.0
  {
    if s == [] {
    } else {
      PairingZero(s[..|s| - 1], w[..|s| - 1], x);
    }
  }

  /** The pairing is additive in the weights. */
  lemma {:induction false} PairingAdd(s: seq<Node>, w: seq<real>, d: seq<real>, r: seq<real>, x: Node)
    requires |s| == |w| == |d| == |r| && AllValid(s)
    requires forall i :: 0 <= i < |s| ==> r[i] == w[i] + d[i]
    ensures Pairing(s, r, x) == Pairing(s, w, x) + Pairing(s, d, x)
  {
    if s == [] {
    } else {
      var k := |s| - 1;
      PairingAdd(s[..k], w[..k], d[..k], r[..k], x);
      var t := Tangent(s[k], x);
      assert Times(r[k], t) == Times(w[k], t) + Times(d[k], t);
    }
  }

  ghost function Grads(s: seq<Node>): (g: seq<real>)
    reads s
    ensures |g| == |s| && forall i :: 0 <= i < |s| ==> g[i] == s[i].grad
  {
    seq(|s|, i requires 0 <= i < |s| reads s => s[i].grad)
  }

  // ---------------------------------------------------------------- one node

  /** What v passes to node n when its own gradient is g. */
  ghost function Share(v: Node, g: real, n: Node?): real
    requires v.WellFormed()
  {
    (if v.p0 == n then Times(g, Slope0(v)) else 0.0) + (if v.p1 == n then Times(g, Slope1(v)) else 0.0)
  }

  method BackwardNode(v: Node)
    requires v.WellFormed()
    modifies (if v.p0 == null then {} else {v.p0})`grad, (if v.p1 == null then {} else {v.p1})`grad
    ensures v.p0 != null ==> v.p0.grad == old(v.p0.grad) + Share(v, old(v.grad), v.p0)
    ensures v.p1 != null ==> v.p1.grad == old(v.p1.grad) + Share(v, old(v.grad), v.p1)
  {
    var g := v.grad;
    match v.op {
      case Add =>
        v.p0.grad := v.p0.grad + g;
        v.p1.grad := v.p1.grad + g;
      case Mul =>
        v.p0.grad := v.p0.grad + g * v.p1.val;
        v.p1.grad := v.p1.grad + g * v.p0.val;
      case Relu =>
        v.p0.grad := v.p0.grad + (if v.val > 0.0 then g else 0.0);
      case Sigmoid =>
        v.p0.grad := v.p0.grad + g * v.val * (1.0 - v.val);
      case Leaf =>
    }
  }

  /** Adding c0 at node n0 and c1 at node n1 to the weights. */
  lemma TwoSpikes(s: seq<Node>, n0: Node?, c0: real, n1: Node?, c1: real, w: seq<real>, r: seq<real>, x: Node)
    requires AllValid(s) && NoDuplicates(s) && |w| == |r| == |s|
    requires (n0 == null || n0 in s) && (n1 == null || n1 in s)
    requires forall i :: 0 <= i < |s| ==> r[i] == w[i] + Spike(s, n0, c0)[i] + Spike(s, n1, c1)[i]
    ensures ValidGraph(n0) && ValidGraph(n1)
    ensures Pairing(s, r, x) == Pairing(s, w, x) + Combine(c0, Tangent(n0, x), c1, Tangent(n1, x))
  {
    var d0, d1 := Spike(s, n0, c0), Spike(s, n1, c1);
    var m := seq(|s|, i requires 0 <= i < |s| => w[i] + d0[i]);
    PairingAdd(s, w, d0, m, x);
    PairingAdd(s, m, d1, r, x);
    PairingSpike(s, n0, c0, x);
    PairingSpike(s, n1, c1, x);
  }

  lemma StepAlgebra(before: real, after: real, g: real, tv: real, hit: bool, a: real, s: real, b: real, t: real)
    requires tv == (if hit then 1.0 else 0.0) + Combine(a, s, b, t)
    requires after == before + Combine(Times(g, a), s, Times(g, b), t)
    ensures before + Times(g, tv) == after + (if hit then g else 0.0)
  {}

  /** Passing v's gradient to its parents keeps the pairing, up to v's own term. */
  lemma StepPairing(s: seq<Node>, v: Node, g: real, w: seq<real>, r: seq<real>, x: Node)
    requires AllValid(s) && NoDuplicates(s) && |w| == |r| == |s|
    requires v.Valid() && v.WellFormed()
    requires (v.p0 == null || v.p0 in s) && (v.p1 == null || v.p1 in s)
    requires forall i :: 0 <= i < |s| ==> r[i] == w[i] + Share(v, g, s[i])
    ensures Pairing(s, w, x) + Times(g, Tangent(v, x)) == Pairing(s, r, x) + (if v == x then g else 0.0)
  {
    TangentStep(v, x);
    TwoSpikes(s, v.p0, Times(g, Slope0(v)), v.p1, Times(g, Slope1(v)), w, r, x);
    StepAlgebra(Pairing(s, w, x), Pairing(s, r, x), g, Tangent(v, x), v == x,
                Slope0(v), Tangent(v.p0, x), Slope1(v), Tangent(v.p1, x));
  }

  /** What the sweep keeps for node x, when the nodes from index i on have been processed, w are
      the gradients of the others, and gx is the gradient of x: the root's tangent is the pairing
      of the unprocessed nodes with their gradients, plus gx once x has been processed. */
  ghost predicate SweepInvariant(root: Node, s: seq<Node>, i: nat, w: seq<real>, x: Node, gx: real)
    requires ValidGraph(root) && AllValid(s) && i <= |s| && |w| == i
  {
    Tangent(root, x) == Pairing(s[..i], w, x) + (if x in s[i..] then gx else 0.0)
  }

  lemma SweepKeeps(root: Node, s: seq<Node>, i: nat, w: seq<real>, r: seq<real>, x: Node, gx: real, gx': real)
    requires ValidGraph(root) && AllValid(s) && i < |s| && |w| == i + 1 && |r| == i
    requires NoDuplicates(s) && ParentsFirst(s, {})
    requires SweepInvariant(root, s, i + 1, w, x, gx)
    requires forall j :: 0 <= j < i ==> s[i].WellFormed() && r[j] == w[j] + Share(s[i], w[i], s[j])
    requires x == s[i] ==> gx' == w[i]
    requires x in s[i + 1..] ==> gx' == gx
    ensures SweepInvariant(root, s, i, r, x, gx')
  {
    var v := s[i];
    Parents(v);
    assert s[..i + 1][..i] == s[..i] && s[..i + 1][i] == v;
    assert s[i..] == [v] + s[i + 1..];
    StepPairing(s[..i], v, w[i], w[..i], r, x);
    assert w[..i + 1] == w;
  }

  lemma OrderFacts(root: Node, s: seq<Node>)
    requires ValidGraph(root) && s == PostOrder(root, {})
    ensures forall n :: n in s <==> n in Reach(root)
    ensures AllValid(s) && NoDuplicates(s) && ParentsFirst(s, {})
  {
    PostOrderNodes(root, {});
    PostOrderIsTopological(root, {});
    ReachClosed(root);
    assert forall n :: n in s <==> n in Reach(root);
    forall i | 0 <= i < |s| ensures s[i].Valid() {
      assert s[i] in s && s[i] in root.Repr;
    }
  }

  /** The derivative sweep: afterwards every node below root holds the tangent of the root with
      respect to it, and all marks are clear. When the order array cannot be allocated the
      gradients are left at zero. */
  method Backward(root: Node?, oom: bool)
    requires ValidGraph(root) && NoneMarked(Reach(root))
    modifies Reach(root)`grad, Reach(root)`visited
    ensures NoneMarked(Reach(root))
    ensures forall x :: x in Reach(root) ==> x.grad == if oom then 0.0 else Tangent(root, x)
    ensures forall x :: x in Reach(root) && AllPathsClosed(root, x) ==> x.grad == 0.0
  {
    if root == null { return; }
    forall x | AllPathsClosed(root, x) ensures Tangent(root, x) == 0.0 {
      ClosedPathsCarryNothing(root, x);
    }
    ZeroGrad(root);
    var order, count, s := Collect(root, oom);
    if order == null { return; }
    ClearVisited(root);
    root.grad := 1.0;
    OrderFacts(root, s);
    Sweep(root, order, count, s);
  }

  /** The documentation lets the sweep accumulate on top of existing gradients. It does so at a node
      exactly when the gradient was zero there: what a node held is lost. */
  method BackwardOnTop(root: Node)
    requires root.Valid() && NoneMarked(root.Repr)
    modifies root.Repr`grad, root.Repr`visited
    ensures NoneMarked(root.Repr) && forall x :: x in root.Repr ==> x.grad == Tangent(root, x)
    ensures forall x :: x in root.Repr ==> (x.grad == old(x.grad) + Tangent(root, x) <==> old(x.grad) == 0.0)
    ensures (forall x :: x in root.Repr ==> x.grad == old(x.grad) + Tangent(root, x))
            <==> forall x :: x in root.Repr ==> old(x.grad) == 0.0
  {
    Backward(root, false);
  }

  /** An input: after a second sweep over a single leaf its gradient is 1 again, not 2. */
  method SweepLeafTwice(val: real) returns (first: real, second: real)
    ensures first == 1.0 && second == 1.0
  {
    var leaf := NewLeaf(val, false);
    Backward(leaf, false);
    first := leaf.grad;
    Backward(leaf, false);
    second := leaf.grad;
  }

  /** An input at the kink: below a ReLU of the value 0 the gradient stays 0. */
  method SweepKink() returns (below: real, top: real)
    ensures below == 0.0 && top == 1.0
  {
    var leaf := NewLeaf(0.0, false);
    var relu := NewRelu(leaf, false);
    Backward(relu, false);
    below, top := leaf.grad, relu.grad;
    KinkTangent(relu, leaf);
  }

  lemma KinkTangent(relu: Node, leaf: Node)
    requires relu.Valid() && relu.op == Relu && relu.p0 == leaf && leaf.val == 0.0
    ensures Tangent(relu, leaf) == 0.0
  {
    Parents(relu);
    forall p | IsPath(relu, p, leaf) ensures PassesClosed(relu, p) {}
    ClosedPathsCarryNothing(relu, leaf);
  }

  lemma SweepStart(root: Node, s: seq<Node>)
    requires ValidGraph(root) && AllValid(s) && NoDuplicates(s)
    requires forall n :: n in s <==> n in Reach(root)
    requires forall x :: x in Reach(root) ==> x.grad == if x == root then 1.0 else 0.0
    ensures forall x :: x in Reach(root) ==> SweepInvariant(root, s, |s|, Grads(s[..|s|]), x, x.grad)
  {
    assert s[..|s|] == s;
    assert Grads(s) == Spike(s, root, 1.0);
    forall x | x in Reach(root) ensures SweepInvariant(root, s, |s|, Grads(s), x, x.grad) {
      PairingSpike(s, root, 1.0, x);
    }
  }

  lemma SweepEnd(root: Node, s: seq<Node>)
    requires ValidGraph(root) && AllValid(s)
    requires forall n :: n in s <==> n in Reach(root)
    requires forall x :: x in Reach(root) ==> SweepInvariant(root, s, 0, Grads(s[..0]), x, x.grad)
    ensures forall x :: x in Reach(root) ==> x.grad == Tangent(root, x)
  {}

  method PassOn(root: Node, ghost s: seq<Node>, ghost i: nat, v: Node)
    requires ValidGraph(root) && i < |s| && AllValid(s) && NoDuplicates(s) && ParentsFirst(s, {})
    requires forall n :: n in s <==> n in Reach(root)
    requires v == s[i]
    modifies Reach(root)`grad
    ensures v.WellFormed()
    ensures forall j :: 0 <= j < i ==> s[j].grad == old(s[j].grad) + Share(v, old(v.grad), s[j])
    ensures forall j :: i <= j < |s| ==> s[j].grad == old(s[j].grad)
  {
    Parents(v);
    BackwardNode(v);
    forall j | 0 <= j < |s| && s[j] != v.p0 && s[j] != v.p1 ensures s[j].grad == old(s[j].grad) {}
  }

  method SweepStep(root: Node, ghost s: seq<Node>, ghost i: nat, v: Node)
    requires ValidGraph(root) && i < |s| && AllValid(s) && NoDuplicates(s) && ParentsFirst(s, {})
    requires forall n :: n in s <==> n in Reach(root)
    requires v == s[i]
    requires forall x :: x in Reach(root) ==> SweepInvariant(root, s, i + 1, Grads(s[..i + 1]), x, x.grad)
    modifies Reach(root)`grad
    ensures forall x :: x in Reach(root) ==> SweepInvariant(root, s, i, Grads(s[..i]), x, x.grad)
  {
    ghost var w := Grads(s[..i + 1]);
    PassOn(root, s, i, v);
    ghost var r := Grads(s[..i]);
    assert w[i] == old(v.grad);
    forall j | 0 <= j < i ensures v.WellFormed() && r[j] == w[j] + Share(v, w[i], s[j]) {
      assert w[j] == old(s[j].grad);
    }
    forall x | x in Reach(root) ensures SweepInvariant(root, s, i, r, x, x.grad) {
      SweepKeeps(root, s, i, w, r, x, old(x.grad), x.grad);
    }
  }

  /** The reverse loop over the traversal order. */
  method Sweep(root: Node, order: array<Node?>, count: nat, ghost s: seq<Node>)
    requires ValidGraph(root) && AllValid(s) && NoDuplicates(s) && ParentsFirst(s, {})
    requires forall n :: n in s <==> n in Reach(root)
    requires count == |s| == order.Length && order[..] == s
    requires forall x :: x in Reach(root) ==> x.grad == if x == root then 1.0 else 0.0
    modifies Reach(root)`grad
    ensures forall x :: x in Reach(root) ==> x.grad == Tangent(root, x)
  {
    SweepStart(root, s);
    var i := count;
    while i > 0
      invariant 0 <= i <= count
      invariant order[..] == s
      invariant forall x :: x in Reach(root) ==> SweepInvariant(root, s, i, Grads(s[..i]), x, x.grad)
    {
      i := i - 1;
      var v := order[i];
      assert v == order[..][i] == s[i];
      SweepStep(root, s, i, v);
    }
    SweepEnd(root, s);
  }

  // ---------------------------------------------------------------- sums over paths

  /** A path is the list of operand slots taken on the way down: false is the first operand. */
  type Path = seq<bool>

  ghost predicate IsPath(v: Node?, p: Path, x: Node)
    requires ValidGraph(v)
    decreases Reach(v)
  {
    v != null &&
    if p == [] then v == x
    else
      Parents(v);
      IsPath(if p[0] then v.p1 else v.p0, p[1..], x)
  }

  /** The product of the local derivatives along a path. */
  ghost function Weight(v: Node?, p: Path): real
    requires ValidGraph(v)
    decreases Reach(v)
  {
    if v == null || p == [] then 1.0
    else
      Parents(v);
      if p[0] then Times(Slope1(v), Weight(v.p1, p[1..])) else Times(Slope0(v), Weight(v.p0, p[1..]))
  }

  ghost function Prefixed(b: bool, ps: seq<Path>): (r: seq<Path>)
    ensures |r| == |ps| && forall i :: 0 <= i < |ps| ==> r[i] == [b] + ps[i]
  {
    seq(|ps|, i requires 0 <= i < |ps| => [b] + ps[i])
  }

  /** All paths from v to x. */
  ghost function Paths(v: Node?, x: Node): seq<Path>
    requires ValidGraph(v)
    decreases Reach(v)
  {
    if v == null then []
    else
      Parents(v);
      (if v == x then [[]] else []) + Prefixed(false, Paths(v.p0, x)) + Prefixed(true, Paths(v.p1, x))
  }

  /** Paths lists each path from v to x, exactly once. */
  lemma {:induction false} PathsComplete(v: Node?, x: Node, p: Path)
    requires ValidGraph(v)
    ensures p in Paths(v, x) <==> IsPath(v, p, x)
    decreases Reach(v)
  {
    if v == null {
    } else {
      Parents(v);
      var a, b := Paths(v.p0, x), Paths(v.p1, x);
      if p != [] {
        PathsComplete(v.p0, x, p[1..]);
        PathsComplete(v.p1, x, p[1..]);
        PrefixedMember(false, a, p);
        PrefixedMember(true, b, p);
      }
    }
  }

  lemma PrefixedMember(b: bool, ps: seq<Path>, p: Path)
    requires p != []
    ensures p in Prefixed(b, ps) <==> p[0] == b && p[1..] in ps
  {
    var r := Prefixed(b, ps);
    if p in r {
      var i :| 0 <= i < |r| && r[i] == p;
      assert p[1..] == ps[i];
    }
    if p[0] == b && p[1..] in ps {
      var i :| 0 <= i < |ps| && ps[i] == p[1..];
      assert r[i] == [b] + p[1..] == p;
    }
  }

  lemma DistinctAppend(a: seq<Path>, b: seq<Path>)
    requires Distinct(a) && Distinct(b)
    requires forall i, j :: 0 <= i < |a| && 0 <= j < |b| ==> a[i] != b[j]
    ensures Distinct(a + b)
  {}

  lemma PrefixedDistinct(b: bool, ps: seq<Path>)
    requires Distinct(ps)
    ensures Distinct(Prefixed(b, ps))
  {
    var r := Prefixed(b, ps);
    forall i, j | 0 <= i < j < |r| ensures r[i] != r[j] {
      assert r[i][1..] == ps[i] && r[j][1..] == ps[j];
    }
  }

  lemma {:induction false} PathsDistinct(v: Node?, x: Node)
    requires ValidGraph(v)
    ensures Distinct(Paths(v, x))
    decreases Reach(v)
  {
    if v == null {
    } else {
      Parents(v);
      PathsDistinct(v.p0, x);
      PathsDistinct(v.p1, x);
      var e: seq<Path> := if v == x then [[]] else [];
      var a, b := Prefixed(false, Paths(v.p0, x)), Prefixed(true, Paths(v.p1, x));
      PrefixedDistinct(false, Paths(v.p0, x));
      PrefixedDistinct(true, Paths(v.p1, x));
      DistinctAppend(e, a);
      var ea := e + a;
      assert forall i :: 0 <= i < |ea| ==> ea[i] == [] || !ea[i][0];
      DistinctAppend(ea, b);
    }
  }

  ghost function WeightSum(v: Node?, ps: seq<Path>): real
    requires ValidGraph(v)
  {
    if ps == [] then 0.0 else WeightSum(v, ps[..|ps| - 1]) + Weight(v, ps[|ps| - 1])
  }

  lemma {:induction false} WeightSumAppend(v: Node?, a: seq<Path>, b: seq<Path>)
    requires ValidGraph(v)
    ensures WeightSum(v, a + b) == WeightSum(v, a) + WeightSum(v, b)
  {
    if b == [] {
      assert a + b == a;
    } else {
      assert (a + b)[..|a + b| - 1] == a + b[..|b| - 1];
      WeightSumAppend(v, a, b[..|b| - 1]);
    }
  }

  lemma TimesAdd(c: real, a: real, b: real)
    ensures Times(c, a + b) == Times(c, a) + Times(c, b)
  {}

  /** Prefixing every path with one edge scales the sum by that edge's local derivative. */
  lemma {:induction false} WeightSumPrefixed(v: Node, b: bool, ps: seq<Path>)
    requires v.Valid() && v.WellFormed()
    ensures ValidGraph(if b then v.p1 else v.p0)
    ensures WeightSum(v, Prefixed(b, ps))
            == Times(if b then Slope1(v) else Slope0(v), WeightSum(if b then v.p1 else v.p0, ps))
  {
    Parents(v);
    var u := if b then v.p1 else v.p0;
    var c := if b then Slope1(v) else Slope0(v);
    if ps == [] {
      assert Times(c, 0.0) == 0.0;
    } else {
      var k := |ps| - 1;
      WeightSumPrefixed(v, b, ps[..k]);
      assert Prefixed(b, ps)[..k] == Prefixed(b, ps[..k]);
      assert ([b] + ps[k])[1..] == ps[k];
      TimesAdd(c, WeightSum(u, ps[..k]), Weight(u, ps[k]));
    }
  }

  /** The tangent of v with respect to x is the sum over all paths from v to x of the product of
      the local derivatives along the path. */
  lemma {:induction false} TangentIsPathSum(v: Node?, x: Node)
    requires ValidGraph(v)
    ensures Tangent(v, x) == WeightSum(v, Paths(v, x))
    decreases Reach(v)
  {
    if v == null {
    } else {
      Parents(v);
      TangentIsPathSum(v.p0, x);
      TangentIsPathSum(v.p1, x);
      var e: seq<Path> := if v == x then [[]] else [];
      var a, b := Prefixed(false, Paths(v.p0, x)), Prefixed(true, Paths(v.p1, x));
      WeightSumAppend(v, e + a, b);
      WeightSumAppend(v, e, a);
      WeightSumPrefixed(v, false, Paths(v.p0, x));
      WeightSumPrefixed(v, true, Paths(v.p1, x));
      TangentStep(v, x);
      assert WeightSum(v, e) == if v == x then 1.0 else 0.0 by {
        if v == x { assert e[..0] == []; }
      }
    }
  }

  // ---------------------------------------------------------------- closed paths

  /** The path goes down through a ReLU node whose value is 0. */
  ghost predicate PassesClosed(v: Node?, p: Path)
    requires ValidGraph(v)
    decreases Reach(v)
  {
    v != null && p != [] && (
      (v.op == Relu && v.val == 0.0) ||
      (Parents(v); PassesClosed(if p[0] then v.p1 else v.p0, p[1..])))
  }

  ghost predicate AllPathsClosed(v: Node?, x: Node)
    requires ValidGraph(v)
  {
    forall p :: IsPath(v, p, x) ==> PassesClosed(v, p)
  }

  lemma {:induction false} ClosedWeight(v: Node?, p: Path)
    requires ValidGraph(v) && PassesClosed(v, p)
    ensures Weight(v, p) == 0.0
    decreases Reach(v)
  {
    Parents(v);
    if v.op == Relu && v.val == 0.0 {
      assert Slope0(v) == 0.0 && Slope1(v) == 0.0;
    } else {
      ClosedWeight(if p[0] then v.p1 else v.p0, p[1..]);
    }
  }

  lemma {:induction false} ZeroWeights(v: Node?, ps: seq<Path>)
    requires ValidGraph(v) && forall p :: p in ps ==> Weight(v, p) == 0.0
    ensures WeightSum(v, ps) == 0.0
  {
    if ps == [] {
    } else {
      ZeroWeights(v, ps[..|ps| - 1]);
    }
  }

  /** Where every path from v to x passes a ReLU of the value 0, the tangent is 0. */
  lemma ClosedPathsCarryNothing(v: Node?, x: Node)
    requires ValidGraph(v) && AllPathsClosed(v, x)
    ensures Tangent(v, x) == 0.0
  {
    forall p | p in Paths(v, x) ensures Weight(v, p) == 0.0 {
      PathsComplete(v, x, p);
      ClosedWeight(v, p);
    }
    ZeroWeights(v, Paths(v, x));
    TangentIsPathSum(v, x);
  }
}
