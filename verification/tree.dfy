/**
 * The nodes of an organisation chart: a label and an ordered list of
 * children (`OrgChart::Node`, a `value` and its `adjacent` vector).
 *
 * Nodes are values here. A node's identity, which the original compares by
 * pointer, is its position: the child indices on the way down from the root.
 * A `Ref` pairs that position with the subtree found there; it is what the
 * model uses wherever the original holds a `Node*`.
 */
module OrgTree {

  datatype Option<T> = None | Some(value: T)

  /** The only exception the chart throws (`std::invalid_argument`). */
  datatype Error = InvalidArgument

  /** A node: its label and its children in insertion order. */
  datatype Tree = Node(value: string, children: seq<Tree>)

  /** A position: the child indices followed from the root. */
  type Path = seq<nat>

  /** A pointer to a node: where it sits (its identity) and the subtree there. */
  datatype Ref = Ref(path: Path, node: Tree)

  /** `Node(const std::string &)`: the given label and no children. */
  function Leaf(v: string): (t: Tree)
    ensures t.value == v && t.children == []
    ensures Size(t) == 1
  {
    Node(v, [])
  }

  /** Number of nodes in a tree. */
  function Size(t: Tree): (n: nat)
    ensures n >= 1
    decreases t, 1
  {
    1 + SizeOf(t.children)
  }

  /** Number of nodes in a list of trees. */
  function SizeOf(ts: seq<Tree>): nat
    decreases ts, 0
  {
    if ts == [] then 0 else Size(ts[0]) + SizeOf(ts[1..])
  }

  /** Number of nodes below the pointers of a list. */
  function Weight(rs: seq<Ref>): nat
  {
    if rs == [] then 0 else Size(rs[0].node) + Weight(rs[1..])
  }

  /** A pointer to the root of `t`. */
  function Root(t: Tree): Ref
  {
    Ref([], t)
  }

  /** A pointer to the `i`-th child of the node `r` points to. */
  function ChildRef(r: Ref, i: nat): (c: Ref)
    requires i < |r.node.children|
    ensures c.node == r.node.children[i]
  {
    Ref(r.path + [i], r.node.children[i])
  }

  /** Pointers to the children of `r`, in stored order. */
  function Kids(r: Ref): (ks: seq<Ref>)
    ensures |ks| == |r.node.children|
    ensures forall i :: 0 <= i < |ks| ==> ks[i] == ChildRef(r, i)
  {
    seq(|r.node.children|, i requires 0 <= i < |r.node.children| => ChildRef(r, i))
  }

  /** `p` leads from the root of `t` to one of its nodes. */
  predicate ValidPath(t: Tree, p: Path)
    decreases p
  {
    p == [] || (p[0] < |t.children| && ValidPath(t.children[p[0]], p[1..]))
  }

  /** The subtree at position `p`. */
  function At(t: Tree, p: Path): Tree
    requires ValidPath(t, p)
    decreases p
  {
    if p == [] then t else At(t.children[p[0]], p[1..])
  }

  /** `r` is a genuine pointer into `t`. */
  predicate PointsInto(t: Tree, r: Ref)
  {
    ValidPath(t, r.path) && At(t, r.path) == r.node
  }

  predicate IsPrefix(a: Path, b: Path)
  {
    |a| <= |b| && b[..|a|] == a
  }

  /** `x` points to the node `r` points to or to one of its descendants. */
  predicate Below(r: Ref, x: Ref)
  {
    IsPrefix(r.path, x.path) && PointsInto(r.node, Ref(x.path[|r.path|..], x.node))
  }

  /** Sizes add up: the children of a node hold all its nodes but one. */
  lemma {:induction false} WeightOfKids(r: Ref)
    ensures Weight(Kids(r)) == Size(r.node) - 1
  {
    WeightMatchesSizeOf(Kids(r), r.node.children);
  }

  lemma {:induction false} WeightMatchesSizeOf(rs: seq<Ref>, ts: seq<Tree>)
    requires |rs| == |ts|
    requires forall i :: 0 <= i < |rs| ==> rs[i].node == ts[i]
    ensures Weight(rs) == SizeOf(ts)
  {
    if rs != [] {
      WeightMatchesSizeOf(rs[1..], ts[1..]);
    }
  }

  lemma {:induction false} WeightAppend(a: seq<Ref>, b: seq<Ref>)
    ensures Weight(a + b) == Weight(a) + Weight(b)
  {
    if a != [] {
      assert (a + b)[0] == a[0] && (a + b)[1..] == a[1..] + b;
      WeightAppend(a[1..], b);
    } else {
      assert a + b == b;
    }
  }

  /** The root lies below itself exactly at the valid positions. */
  lemma BelowRoot(t: Tree, x: Ref)
    ensures Below(Root(t), x) <==> PointsInto(t, x)
  {
    assert x.path[0..] == x.path;
  }

  /**
   * A node lies below `r` exactly when it is `r` itself or lies below one of
   * `r`'s children.
   */
  lemma BelowStep(r: Ref, x: Ref)
    ensures Below(r, x) <==>
      x == r || exists i :: 0 <= i < |r.node.children| && Below(ChildRef(r, i), x)
  {
    if Below(r, x) && x != r {
      BelowSomeChild(r, x);
    }
    if exists i :: 0 <= i < |r.node.children| && Below(ChildRef(r, i), x) {
      var i :| 0 <= i < |r.node.children| && Below(ChildRef(r, i), x);
      BelowChild(r, i, x);
    }
  }

  lemma BelowSomeChild(r: Ref, x: Ref)
    requires Below(r, x) && x != r
    ensures exists i :: 0 <= i < |r.node.children| && Below(ChildRef(r, i), x)
  {
    var n := |r.path|;
    var s := x.path[n..];
    assert s != [] by {
      assert x.path == x.path[..n] + s;
    }
    var i := s[0];
    assert s[1..] == x.path[n + 1..];
    assert x.path[..n + 1] == r.path + [i];
    assert Below(ChildRef(r, i), x);
  }

  lemma BelowChild(r: Ref, i: nat, x: Ref)
    requires i < |r.node.children| && Below(ChildRef(r, i), x)
    ensures Below(r, x)
  {
    var n := |r.path|;
    var s := x.path[n..];
    assert x.path[..n + 1] == r.path + [i];
    assert x.path[..n] == r.path;
    assert s == [i] + x.path[n + 1..];
  }
}
