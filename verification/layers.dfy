/**
 * In what order the queue-based iterators visit the nodes.
 *
 * A sweep is shallow-before-deep; within one depth it goes left to right
 * (right to left when mirrored). Hence level order is "by depth, then left
 * to right", and reverse order, a mirrored sweep read backwards, is
 * "deepest level first, each level left to right, root last" -- which is not
 * level order read backwards as soon as one level holds two nodes.
 */
module Layers {
  import opened OrgTree
  import opened Traversals

  /** Left-to-right order of two positions (decided at the first index where they differ). */
  predicate LexLess(a: Path, b: Path)
    decreases |a|
  {
    a != [] && b != [] && (a[0] < b[0] || (a[0] == b[0] && LexLess(a[1..], b[1..])))
  }

  /**
   * `a` is taken off the queue of a sweep before `b`: it is shallower, or at
   * the same depth and further left (further right when `mirrored`).
   */
  predicate Earlier(a: Path, b: Path, mirrored: bool)
  {
    |a| < |b| || (|a| == |b| && if mirrored then LexLess(b, a) else LexLess(a, b))
  }

  /** Every element comes `Earlier` than every later one. */
  ghost predicate Layered(s: seq<Ref>, mirrored: bool)
  {
    forall i, j :: 0 <= i < j < |s| ==> Earlier(s[i].path, s[j].path, mirrored)
  }

  // ---------------------------------------------------------------------------
  // Left-to-right order

  lemma {:induction false} LexAsymmetric(a: Path, b: Path)
    requires LexLess(a, b)
    ensures !LexLess(b, a)
    decreases |a|
  {
    if a[0] == b[0] {
      LexAsymmetric(a[1..], b[1..]);
    }
  }

  lemma {:induction false} LexTransitive(a: Path, b: Path, c: Path)
    requires LexLess(a, b) && LexLess(b, c)
    ensures LexLess(a, c)
    decreases |a|
  {
    if a[0] == b[0] && b[0] == c[0] {
      LexTransitive(a[1..], b[1..], c[1..]);
    }
  }

  lemma {:induction false} LexTotal(a: Path, b: Path)
    requires |a| == |b| && a != b
    ensures LexLess(a, b) || LexLess(b, a)
    decreases |a|
  {
    if a[0] == b[0] {
      assert a == [a[0]] + a[1..] && b == [b[0]] + b[1..];
      LexTotal(a[1..], b[1..]);
    }
  }

  /** Children of nodes that are in left-to-right order are in that order too. */
  lemma {:induction false} LexExtend(a: Path, b: Path, i: nat, j: nat)
    requires LexLess(a, b)
    ensures LexLess(a + [i], b + [j])
    decreases |a|
  {
    assert (a + [i])[0] == a[0] && (b + [j])[0] == b[0];
    if a[0] == b[0] {
      assert (a + [i])[1..] == a[1..] + [i] && (b + [j])[1..] == b[1..] + [j];
      LexExtend(a[1..], b[1..], i, j);
    }
  }

  /** Siblings are in the order of their indices. */
  lemma {:induction false} LexSiblings(a: Path, i: nat, j: nat)
    requires i < j
    ensures LexLess(a + [i], a + [j])
    decreases |a|
  {
    if a != [] {
      assert (a + [i])[1..] == a[1..] + [i] && (a + [j])[1..] == a[1..] + [j];
      LexSiblings(a[1..], i, j);
    }
  }

  lemma EarlierTransitive(a: Path, b: Path, c: Path, mirrored: bool)
    requires Earlier(a, b, mirrored) && Earlier(b, c, mirrored)
    ensures Earlier(a, c, mirrored)
  {
    if |a| == |b| == |c| {
      if mirrored {
        LexTransitive(c, b, a);
      } else {
        LexTransitive(a, b, c);
      }
    }
  }

  // ---------------------------------------------------------------------------
  // The shape of the queue during a sweep

  function Parent(p: Path): Path
    requires p != []
  {
    p[..|p| - 1]
  }

  /**
   * What holds of the queue at every step of a sweep: it is `Layered`, spans
   * at most two depths, and every node on the deeper depth has a parent that
   * was taken off the queue before the current front.
   */
  ghost predicate QueueShape(q: seq<Ref>, mirrored: bool)
  {
    && Layered(q, mirrored)
    && (q != [] ==>
          forall j :: 0 <= j < |q| ==>
            && |q[j].path| <= |q[0].path| + 1
            && (|q[j].path| > |q[0].path| ==> Earlier(Parent(q[j].path), q[0].path, mirrored)))
  }

  lemma EnqueuedPaths(r: Ref, mirrored: bool)
    ensures forall k :: 0 <= k < |Enqueued(r, mirrored)| ==>
      && |Enqueued(r, mirrored)[k].path| == |r.path| + 1
      && Parent(Enqueued(r, mirrored)[k].path) == r.path
    ensures Layered(Enqueued(r, mirrored), mirrored)
  {
    var e, n := Enqueued(r, mirrored), |r.node.children|;
    forall k | 0 <= k < |e|
      ensures |e[k].path| == |r.path| + 1 && Parent(e[k].path) == r.path
    {
      assert e[k].path == r.path + [if mirrored then n - 1 - k else k];
    }
    forall i, j | 0 <= i < j < |e|
      ensures Earlier(e[i].path, e[j].path, mirrored)
    {
      if mirrored {
        assert e[i].path == r.path + [n - 1 - i] && e[j].path == r.path + [n - 1 - j];
        LexSiblings(r.path, n - 1 - j, n - 1 - i);
      } else {
        assert e[i].path == r.path + [i] && e[j].path == r.path + [j];
        LexSiblings(r.path, i, j);
      }
    }
  }

  /** A node of the queue that is one level deeper than the front comes after the front's children. */
  lemma DeeperBeforeKids(x: Path, front: Path, y: Path, mirrored: bool)
    requires |x| == |front| + 1 && Earlier(Parent(x), front, mirrored)
    requires |y| == |front| + 1 && Parent(y) == front
    ensures Earlier(x, y, mirrored)
  {
    var n := |front|;
    assert x == Parent(x) + [x[n]] && y == front + [y[n]];
    if mirrored {
      LexExtend(front, Parent(x), y[n], x[n]);
    } else {
      LexExtend(Parent(x), front, x[n], y[n]);
    }
  }

  /** One step of a sweep keeps the queue `Layered`. */
  lemma LayeredStep(q: seq<Ref>, mirrored: bool)
    requires q != [] && QueueShape(q, mirrored)
    ensures Layered(q[1..] + Enqueued(q[0], mirrored), mirrored)
  {
    var rest, e := q[1..], Enqueued(q[0], mirrored);
    var q' := rest + e;
    EnqueuedPaths(q[0], mirrored);
    forall i, j | 0 <= i < j < |q'|
      ensures Earlier(q'[i].path, q'[j].path, mirrored)
    {
      if j < |rest| {
        assert q'[i] == q[i + 1] && q'[j] == q[j + 1];
      } else if i >= |rest| {
        assert q'[i] == e[i - |rest|] && q'[j] == e[j - |rest|];
      } else {
        var x, y := q[i + 1].path, e[j - |rest|].path;
        assert q'[i].path == x && q'[j].path == y;
        assert Earlier(q[0].path, x, mirrored);
        if |x| > |q[0].path| {
          DeeperBeforeKids(x, q[0].path, y, mirrored);
        }
      }
    }
  }

  /** The depth facts `QueueShape` gives about the `k`-th node against the second one. */
  lemma SpanFromQueue(q: seq<Ref>, mirrored: bool, k: nat)
    requires 1 <= k < |q| && QueueShape(q, mirrored)
    ensures |q[k].path| <= |q[1].path| + 1
    ensures |q[k].path| > |q[1].path| ==> Earlier(Parent(q[k].path), q[1].path, mirrored)
  {
    assert Earlier(q[0].path, q[1].path, mirrored);
    if |q[k].path| > |q[1].path| {
      assert |q[k].path| <= |q[0].path| + 1;
      assert |q[k].path| > |q[0].path| ==> Earlier(Parent(q[k].path), q[0].path, mirrored);
      EarlierTransitive(Parent(q[k].path), q[0].path, q[1].path, mirrored);
    }
  }

  /** The same facts about a child of the front, against the second node. */
  lemma SpanFromKid(q: seq<Ref>, mirrored: bool, y: Path)
    requires 2 <= |q| && QueueShape(q, mirrored)
    requires |y| == |q[0].path| + 1 && Parent(y) == q[0].path
    ensures |y| <= |q[1].path| + 1
    ensures |y| > |q[1].path| ==> Earlier(Parent(y), q[1].path, mirrored)
  {
    assert Earlier(q[0].path, q[1].path, mirrored);
  }

  /** One step of a sweep keeps the queue within two depths, parents of the deeper already taken. */
  lemma SpanStep(q: seq<Ref>, mirrored: bool, j: nat)
    requires q != [] && QueueShape(q, mirrored)
    requires j < |q[1..] + Enqueued(q[0], mirrored)|
    ensures var q' := q[1..] + Enqueued(q[0], mirrored);
      && |q'[j].path| <= |q'[0].path| + 1
      && (|q'[j].path| > |q'[0].path| ==> Earlier(Parent(q'[j].path), q'[0].path, mirrored))
  {
    var rest, e := q[1..], Enqueued(q[0], mirrored);
    var q' := rest + e;
    EnqueuedPaths(q[0], mirrored);
    if rest != [] {
      assert q'[0] == q[1];
      if j < |rest| {
        assert q'[j] == q[j + 1];
        SpanFromQueue(q, mirrored, j + 1);
      } else {
        assert q'[j] == e[j - |rest|];
        SpanFromKid(q, mirrored, q'[j].path);
      }
    } else {
      assert q'[j] == e[j] && q'[0] == e[0];
    }
  }

  /** One step of a sweep keeps the queue's shape. */
  lemma QueueShapeStep(q: seq<Ref>, mirrored: bool)
    requires q != [] && QueueShape(q, mirrored)
    ensures QueueShape(q[1..] + Enqueued(q[0], mirrored), mirrored)
  {
    var q' := q[1..] + Enqueued(q[0], mirrored);
    LayeredStep(q, mirrored);
    forall j | 0 <= j < |q'|
      ensures |q'[j].path| <= |q'[0].path| + 1
      ensures |q'[j].path| > |q'[0].path| ==> Earlier(Parent(q'[j].path), q'[0].path, mirrored)
    {
      SpanStep(q, mirrored, j);
    }
  }

  /** Every node a sweep visits extends a position on the queue it starts from. */
  lemma SweepExtends(q: seq<Ref>, mirrored: bool, z: Ref)
    requires z in Sweep(q, mirrored)
    ensures exists j :: 0 <= j < |q| && IsPrefix(q[j].path, z.path)
  {
    SweepPermutes(q, mirrored);
    assert z in multiset(Sweep(q, mirrored));
    assert z in Pre(q);
    PreExtends(q);
  }

  /** Every node a sweep visits lies at least as deep as the front of its queue. */
  lemma SweepNoShallower(q: seq<Ref>, mirrored: bool, z: Ref)
    requires q != [] && Layered(q, mirrored) && z in Sweep(q, mirrored)
    ensures |z.path| >= |q[0].path|
    ensures |z.path| == |q[0].path| ==> exists j :: 0 <= j < |q| && q[j].path == z.path
  {
    SweepExtends(q, mirrored, z);
    var j :| 0 <= j < |q| && IsPrefix(q[j].path, z.path);
    if j > 0 {
      assert Earlier(q[0].path, q[j].path, mirrored);
    }
    if |z.path| == |q[0].path| {
      assert z.path == z.path[..|q[j].path|];
    }
  }

  /** The front of a well-shaped queue comes `Earlier` than everything the sweep visits after it. */
  lemma FrontEarliest(q: seq<Ref>, mirrored: bool)
    requires q != [] && QueueShape(q, mirrored)
    ensures forall z :: z in Sweep(q[1..] + Enqueued(q[0], mirrored), mirrored) ==>
      Earlier(q[0].path, z.path, mirrored)
  {
    var q' := q[1..] + Enqueued(q[0], mirrored);
    QueueShapeStep(q, mirrored);
    EnqueuedPaths(q[0], mirrored);
    forall z | z in Sweep(q', mirrored)
      ensures Earlier(q[0].path, z.path, mirrored)
    {
      SweepNoShallower(q', mirrored, z);
      if |z.path| == |q[0].path| {
        var j :| 0 <= j < |q'| && q'[j].path == z.path;
        assert q'[j] == q[j + 1];
      }
    }
  }

  lemma LayeredCons(x: Ref, rest: seq<Ref>, mirrored: bool)
    requires Layered(rest, mirrored)
    requires forall z :: z in rest ==> Earlier(x.path, z.path, mirrored)
    ensures Layered([x] + rest, mirrored)
  {
    var s := [x] + rest;
    forall i, j | 0 <= i < j < |s|
      ensures Earlier(s[i].path, s[j].path, mirrored)
    {
      if i == 0 {
        assert s[j] == rest[j - 1];
      } else {
        assert s[i] == rest[i - 1] && s[j] == rest[j - 1];
      }
    }
  }

  /** A sweep from a well-shaped queue visits nodes in `Earlier` order. */
  lemma {:induction false} SweepLayered(q: seq<Ref>, mirrored: bool)
    requires QueueShape(q, mirrored)
    ensures Layered(Sweep(q, mirrored), mirrored)
    decreases Weight(q)
  {
    if q != [] {
      var q' := q[1..] + Enqueued(q[0], mirrored);
      SweepShrinks(q, mirrored);
      QueueShapeStep(q, mirrored);
      SweepLayered(q', mirrored);
      FrontEarliest(q, mirrored);
      LayeredCons(q[0], Sweep(q', mirrored), mirrored);
    }
  }

  // ---------------------------------------------------------------------------
  // The orders of the two queue-based iterators

  /** Level order: shallower nodes first; within a level, left to right. */
  lemma LevelOrderLayered(t: Tree)
    ensures forall i, j :: 0 <= i < j < |LevelOrder(t)| ==>
      var a, b := LevelOrder(t)[i].path, LevelOrder(t)[j].path;
      |a| < |b| || (|a| == |b| && LexLess(a, b))
  {
    SweepLayered([Root(t)], false);
  }

  /** Reverse order: deeper nodes first; within a level, left to right. */
  lemma ReverseOrderLayered(t: Tree)
    ensures forall i, j :: 0 <= i < j < |ReverseOrder(t)| ==>
      var a, b := ReverseOrder(t)[i].path, ReverseOrder(t)[j].path;
      |a| > |b| || (|a| == |b| && LexLess(a, b))
  {
    var w := Sweep([Root(t)], true);
    var s := ReverseOrder(t);
    SweepLayered([Root(t)], true);
    forall i, j | 0 <= i < j < |s|
      ensures Earlier(s[j].path, s[i].path, true)
    {
      assert s[i] == w[|w| - 1 - i] && s[j] == w[|w| - 1 - j];
    }
  }

  /**
   * Reverse order is not level order read backwards: as soon as two nodes
   * share a depth, the two lists differ.
   */
  lemma ReverseOrderIsNotBackwardLevelOrder(t: Tree, p: Path, p': Path)
    requires ValidPath(t, p) && ValidPath(t, p') && p != p' && |p| == |p'|
    ensures ReverseOrder(t) != Reversed(LevelOrder(t))
  {
    var s := ReverseOrder(t);
    var a, b := p, p';
    LexTotal(p, p');
    if LexLess(p', p) {
      a, b := p', p;
    }
    var i := PlaceInReverseOrder(t, a);
    var j := PlaceInReverseOrder(t, b);
    if s == Reversed(LevelOrder(t)) {
      LexAsymmetric(a, b);
      if i < j {
        BackwardLevelOrderPair(t, i, j);
      } else {
        ReverseOrderPair(t, j, i);
      }
      assert false;
    }
  }

  /** Every position of the tree has a place in reverse order. */
  lemma PlaceInReverseOrder(t: Tree, a: Path) returns (i: nat)
    requires ValidPath(t, a)
    ensures i < |ReverseOrder(t)| && ReverseOrder(t)[i].path == a
  {
    ReverseOrderVisitsAll(t);
    assert PointsInto(t, Ref(a, At(t, a)));
    i :| 0 <= i < |ReverseOrder(t)| && ReverseOrder(t)[i] == Ref(a, At(t, a));
  }

  lemma ReverseOrderPair(t: Tree, i: nat, j: nat)
    requires i < j < |ReverseOrder(t)|
    ensures var a, b := ReverseOrder(t)[i].path, ReverseOrder(t)[j].path;
      |a| == |b| ==> LexLess(a, b)
  {
    ReverseOrderLayered(t);
  }

  lemma BackwardLevelOrderPair(t: Tree, i: nat, j: nat)
    requires i < j < |LevelOrder(t)|
    ensures var u := Reversed(LevelOrder(t));
      var a, b := u[i].path, u[j].path;
      |a| == |b| ==> LexLess(b, a)
  {
    var l := LevelOrder(t);
    LevelOrderLayered(t);
    assert Reversed(l)[i] == l[|l| - 1 - i] && Reversed(l)[j] == l[|l| - 1 - j];
  }
}
