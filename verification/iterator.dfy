/**
 * `OrgChart::Iterator` and its three constructors (`it_level_order`,
 * `it_preorder`, `it_reverse_order`).
 *
 * Each constructor computes its whole visiting order up front, keeps the
 * first node as the cursor and the others in `queue_order`; `++` moves the
 * front of the queue into the cursor, and the cursor becomes null once the
 * queue is exhausted. Two iterators are equal when their cursors point to the
 * same node, which in this model is the same position.
 */
module Iterators {
  import opened OrgTree
  import Traversals

  /** Which of the original's iterator classes an object was built as. */
  datatype Kind = Base | LevelOrderIt | PreorderIt | ReverseOrderIt

  /** What a cursor points to when the nodes still to visit are `s`. */
  function Cursor(s: seq<Ref>): (c: Option<Ref>)
    ensures c.None? <==> s == []
  {
    if s == [] then None else Some(s[0])
  }

  /** `node == op.node`: both null, or pointers to the same position. */
  predicate SameNode(a: Option<Ref>, b: Option<Ref>)
  {
    match (a, b)
    case (None, None) => true
    case (Some(x), Some(y)) => x.path == y.path
    case _ => false
  }

  /**
   * Two iterators walking one order compare equal exactly when they have
   * advanced equally far; in particular one compares equal to an end
   * iterator exactly when it has passed every node.
   */
  lemma SameNodeIffSameProgress(s: seq<Ref>, i: nat, j: nat)
    requires Traversals.DistinctPaths(s) && i <= |s| && j <= |s|
    ensures SameNode(Cursor(s[i..]), Cursor(s[j..])) <==> i == j
    ensures SameNode(Cursor(s[i..]), None) <==> i == |s|
  {
    if i < |s| && j < |s| && i != j {
      assert s[i..][0] == s[i] && s[j..][0] == s[j];
      if i < j {
        assert s[i].path != s[j].path;
      } else {
        assert s[j].path != s[i].path;
      }
    }
  }

  /** Positions identify nodes: two pointers into one tree at one position are the same pointer. */
  lemma SamePositionSameNode(t: Tree, a: Ref, b: Ref)
    requires PointsInto(t, a) && PointsInto(t, b)
    ensures SameNode(Some(a), Some(b)) <==> a == b
  {
  }

  /** The loop of the `it_level_order` constructor. */
  method LevelOrderWalk(t: Tree) returns (order: seq<Ref>)
    ensures order == Traversals.LevelOrder(t)
  {
    var nodeQueue := [Root(t)];
    order := [];
    while nodeQueue != []
      invariant order + Traversals.Sweep(nodeQueue, false) == Traversals.LevelOrder(t)
      decreases Weight(nodeQueue)
    {
      ghost var before := nodeQueue;
      var current := nodeQueue[0];
      nodeQueue := nodeQueue[1..];
      order := order + [current];
      var i := 0;
      while i < |current.node.children|
        invariant i <= |current.node.children|
        invariant nodeQueue == before[1..] + Kids(current)[..i]
      {
        nodeQueue := nodeQueue + [ChildRef(current, i)];
        i := i + 1;
      }
      assert Kids(current)[..i] == Traversals.Enqueued(current, false);
      Traversals.SweepShrinks(before, false);
    }
  }

  /** The first loop of `it_reverse_order` keeps "stack, then the sweep of the queue" fixed. */
  lemma StackStep(st: seq<Ref>, q: seq<Ref>, sweep: seq<Ref>)
    requires q != [] && st + Traversals.Sweep(q, true) == sweep
    ensures (st + [q[0]]) + Traversals.Sweep(q[1..] + Traversals.Enqueued(q[0], true), true) == sweep
  {
    Traversals.SweepStep(q, true);
    assert st + Traversals.Sweep(q, true) == (st + [q[0]]) + Traversals.Sweep(q[1..] + Traversals.Enqueued(q[0], true), true);
  }

  /** The two loops of the `it_reverse_order` constructor: a mirrored sweep onto a stack, then the stack popped. */
  method ReverseOrderWalk(t: Tree) returns (order: seq<Ref>)
    ensures order == Traversals.ReverseOrder(t)
  {
    ghost var sweep := Traversals.Sweep([Root(t)], true);
    var reverseQueue := [Root(t)];
    var st: seq<Ref> := [];  // the stack; its top is the last element
    while reverseQueue != []
      invariant st + Traversals.Sweep(reverseQueue, true) == sweep
      decreases Weight(reverseQueue)
    {
      ghost var before, stacked := reverseQueue, st;
      var front := reverseQueue[0];
      reverseQueue := reverseQueue[1..];
      st := st + [front];
      reverseQueue := PushChildrenBackwards(reverseQueue, front);
      Traversals.SweepShrinks(before, true);
      StackStep(stacked, before, sweep);
    }
    assert Traversals.Sweep(reverseQueue, true) == [];
    assert st == sweep;
    order := PopAll(st);
    assert Traversals.ReverseOrder(t) == Traversals.Reversed(sweep);
  }

  /** The inner loop of `it_reverse_order`: the children of `front`, last first, onto the back of the queue. */
  method PushChildrenBackwards(q: seq<Ref>, front: Ref) returns (q': seq<Ref>)
    ensures q' == q + Traversals.Enqueued(front, true)
  {
    q' := q;
    var i := |front.node.children|;
    while i > 0
      invariant 0 <= i <= |front.node.children|
      invariant q' == q + Traversals.Reversed(Kids(front)[i..])
    {
      i := i - 1;
      Traversals.ReversedFrom(Kids(front), i);
      q' := q' + [ChildRef(front, i)];
    }
    assert Kids(front)[0..] == Kids(front);
  }

  /** The second loop of `it_reverse_order`: the stack emptied, top first. */
  method PopAll(st: seq<Ref>) returns (order: seq<Ref>)
    ensures order == Traversals.Reversed(st)
  {
    order := [];
    var rest := st;
    while rest != []
      invariant order + Traversals.Reversed(rest) == Traversals.Reversed(st)
    {
      Traversals.ReversedBack(rest);
      order := order + [rest[|rest| - 1]];
      rest := rest[..|rest| - 1];
    }
  }

  class Iterator {
    const kind: Kind
    var node: Option<Ref>
    var queue: seq<Ref>

    /** The cursor is null only once nothing is left to visit. */
    ghost predicate Valid()
      reads this
    {
      node.None? ==> queue == []
    }

    /** The nodes still to be visited, the cursor's first. */
    ghost function Remaining(): (r: seq<Ref>)
      reads this
      ensures Valid() ==> node == Cursor(r)
    {
      (if node.Some? then [node.value] else []) + queue
    }

    /** `Iterator()`: the null cursor, which is the end state. */
    constructor ()
      ensures kind == Base && node == None && queue == []
      ensures Valid() && Remaining() == []
    {
      kind := Base;
      node := None;
      queue := [];
    }

    /**
     * `Iterator(Iterator const&)`: the copy is a plain `Iterator`, whatever
     * class `other` was built as.
     */
    constructor Copy(other: Iterator)
      ensures kind == Base && node == other.node && queue == other.queue
    {
      kind := Base;
      node := other.node;
      queue := other.queue;
    }

    /** `it_level_order(Node *)`: a null start gives the end state. */
    constructor LevelOrder(start: Option<Tree>)
      ensures kind == LevelOrderIt && Valid()
      ensures start.None? ==> node == None && queue == []
      ensures start.Some? ==> Remaining() == Traversals.LevelOrder(start.value) && node == Some(Root(start.value))
    {
      kind := LevelOrderIt;
      if start.Some? {
        var order := LevelOrderWalk(start.value);
        Traversals.LevelOrderVisitsAll(start.value);
        node := Some(order[0]);
        queue := order[1..];
      } else {
        node := None;
        queue := [];
      }
    }

    /** `it_reverse_order(Node *)`: a null start gives the end state. */
    constructor ReverseOrder(start: Option<Tree>)
      ensures kind == ReverseOrderIt && Valid()
      ensures start.None? ==> node == None && queue == []
      ensures start.Some? ==> Remaining() == Traversals.ReverseOrder(start.value)
    {
      kind := ReverseOrderIt;
      if start.Some? {
        var order := ReverseOrderWalk(start.value);
        Traversals.ReverseOrderVisitsAll(start.value);
        node := Some(order[0]);
        queue := order[1..];
      } else {
        node := None;
        queue := [];
      }
    }

    /** `it_preorder(Node *)`: a null start gives the end state. */
    constructor Preorder(start: Option<Tree>)
      ensures kind == PreorderIt && Valid()
      ensures start.None? ==> node == None && queue == []
      ensures start.Some? ==> Remaining() == Traversals.Preorder(start.value) && node == Some(Root(start.value))
    {
      kind := PreorderIt;
      node := None;
      queue := [];
      new;
      if start.Some? {
        PushPreorder(Root(start.value));
        Traversals.PreSingle(Root(start.value));
        node := Some(queue[0]);
        queue := queue[1..];
      }
    }

    /** `push_preorder(node, &queue_order)`: appends the preorder of `r`'s subtree. */
    method PushPreorder(r: Ref)
      modifies this
      ensures queue == old(queue) + Traversals.Pre([r]) && node == old(node)
      decreases r.node
    {
      queue := queue + [r];
      var ks := Kids(r);
      var i := 0;
      while i < |ks|
        invariant i <= |ks|
        invariant queue == old(queue) + [r] + Traversals.Pre(ks[..i]) && node == old(node)
      {
        PushPreorder(ChildRef(r, i));
        Traversals.PreGrow(ks, i);
        i := i + 1;
      }
      assert ks[..i] == ks;
      Traversals.PreSingle(r);
    }

    /** `operator*`: the label of the node under the cursor. */
    function Deref(): (v: string)
      reads this
      requires node.Some?
      ensures v == Remaining()[0].node.value
    {
      node.value.node.value
    }

    /** Prefix `operator++`: one step along the order; at the end it stays at the end. */
    method Increment()
      modifies this
      ensures old(queue) == [] ==> node == None && queue == []
      ensures old(queue) != [] ==> node == Some(old(queue)[0]) && queue == old(queue)[1..]
      ensures Valid()
      ensures old(Valid()) ==> Remaining() == if old(Remaining()) == [] then [] else old(Remaining())[1..]
    {
      if queue == [] {
        node := None;
      } else {
        node := Some(queue[0]);
        queue := queue[1..];
      }
    }

    /**
     * Postfix `operator++(int)`: advances, and returns a copy of the state
     * before, sliced to a plain `Iterator`.
     */
    method PostIncrement() returns (before: Iterator)
      modifies this
      ensures fresh(before) && before.kind == Base
      ensures before.node == old(node) && before.queue == old(queue)
      ensures old(queue) == [] ==> node == None && queue == []
      ensures old(queue) != [] ==> node == Some(old(queue)[0]) && queue == old(queue)[1..]
    {
      before := new Iterator.Copy(this);
      Increment();
    }

    /**
     * `operator==`: same node under both cursors. For two iterators in a
     * consistent state, that is: both are exhausted, or both have something
     * left and the next nodes they yield sit at the same position.
     */
    function Equals(op: Iterator): (eq: bool)
      reads this, op
      ensures Valid() && op.Valid() ==>
        (eq <==> (Remaining() == [] && op.Remaining() == []) ||
                 (Remaining() != [] && op.Remaining() != [] && Remaining()[0].path == op.Remaining()[0].path))
    {
      SameNode(node, op.node)
    }

    /** `operator!=`: the negation of `==`. */
    function NotEquals(op: Iterator): (ne: bool)
      reads this, op
      ensures ne <==> !Equals(op)
    {
      !Equals(op)
    }
  }
}
