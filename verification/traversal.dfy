/**
 * The three visiting orders of the chart's iterators, as functions on trees.
 *
 * `Pre` is the preorder walk that `it_preorder::push_preorder` performs;
 * `Sweep` is the queue loop shared by the `it_level_order` and
 * `it_reverse_order` constructors (the latter enqueues each node's children
 * right to left, which is `mirrored` here). The lemmas say which nodes each
 * order visits (each node once) and in what order.
 */
module Traversals {
  import opened OrgTree

  function Reversed<T>(s: seq<T>): (r: seq<T>)
    ensures |r| == |s|
    ensures forall i :: 0 <= i < |s| ==> r[i] == s[|s| - 1 - i]
  {
    seq(|s|, i requires 0 <= i < |s| => s[|s| - 1 - i])
  }

  lemma ReversedFront<T>(s: seq<T>)
    requires s != []
    ensures Reversed(s) == Reversed(s[1..]) + [s[0]]
  {
  }

  lemma ReversedBack<T>(s: seq<T>)
    requires s != []
    ensures Reversed(s) == [s[|s| - 1]] + Reversed(s[..|s| - 1])
  {
  }

  lemma ReversedFrom<T>(s: seq<T>, i: nat)
    requires i < |s|
    ensures Reversed(s[i..]) == Reversed(s[i + 1..]) + [s[i]]
  {
    ReversedFront(s[i..]);
    assert s[i..][1..] == s[i + 1..];
  }

  /** Preorder of a list of subtrees: each node, then its children's subtrees, left to right. */
  function Pre(rs: seq<Ref>): (s: seq<Ref>)
    ensures s == [] <==> rs == []
    decreases Weight(rs)
  {
    if rs == [] then []
    else
      WeightOfKids(rs[0]);
      [rs[0]] + Pre(Kids(rs[0])) + Pre(rs[1..])
  }

  function Preorder(t: Tree): seq<Ref>
  {
    Pre([Root(t)])
  }

  /** What the queue loops enqueue after taking `r` off the queue. */
  function Enqueued(r: Ref, mirrored: bool): seq<Ref>
  {
    if mirrored then Reversed(Kids(r)) else Kids(r)
  }

  /**
   * The first-in first-out walk that starts from the queue `q`: take the
   * front node, emit it, enqueue its children (right to left when `mirrored`).
   */
  function Sweep(q: seq<Ref>, mirrored: bool): (s: seq<Ref>)
    ensures |s| == Weight(q)
    decreases Weight(q)
  {
    if q == [] then []
    else
      SweepShrinks(q, mirrored);
      [q[0]] + Sweep(q[1..] + Enqueued(q[0], mirrored), mirrored)
  }

  /** One step of the sweep: the front is emitted and its children join the back of the queue. */
  lemma SweepStep(q: seq<Ref>, mirrored: bool)
    requires q != []
    ensures Sweep(q, mirrored) == [q[0]] + Sweep(q[1..] + Enqueued(q[0], mirrored), mirrored)
  {
  }

  /** The order of `it_level_order`. */
  function LevelOrder(t: Tree): (s: seq<Ref>)
    ensures |s| == Size(t) && s[0] == Root(t)
  {
    assert [Root(t)][1..] == [] && Weight([Root(t)]) == Size(t) + Weight([]);
    Sweep([Root(t)], false)
  }

  /** The order of `it_reverse_order`: a mirrored sweep, popped off a stack. */
  function ReverseOrder(t: Tree): (s: seq<Ref>)
    ensures |s| == Size(t) && s[|s| - 1] == Root(t)
  {
    assert [Root(t)][1..] == [] && Weight([Root(t)]) == Size(t) + Weight([]);
    Reversed(Sweep([Root(t)], true))
  }

  function Labels(s: seq<Ref>): (ls: seq<string>)
    ensures |ls| == |s| && forall i :: 0 <= i < |s| ==> ls[i] == s[i].node.value
  {
    seq(|s|, i requires 0 <= i < |s| => s[i].node.value)
  }

  /** No position is visited twice. */
  ghost predicate DistinctPaths(s: seq<Ref>)
  {
    forall i, j :: 0 <= i < j < |s| ==> s[i].path != s[j].path
  }

  /** No pointer of the list lies below another. */
  ghost predicate Independent(rs: seq<Ref>)
  {
    forall i, j :: 0 <= i < |rs| && 0 <= j < |rs| && i != j ==> !IsPrefix(rs[i].path, rs[j].path)
  }

  // ---------------------------------------------------------------------------
  // Sizes and the termination of the sweep

  lemma {:induction false} WeightReversed(s: seq<Ref>)
    ensures Weight(Reversed(s)) == Weight(s)
  {
    if s != [] {
      ReversedFront(s);
      WeightReversed(s[1..]);
      WeightAppend(Reversed(s[1..]), [s[0]]);
    }
  }

  lemma SweepShrinks(q: seq<Ref>, mirrored: bool)
    requires q != []
    ensures Weight(q[1..] + Enqueued(q[0], mirrored)) == Weight(q) - 1
  {
    WeightAppend(q[1..], Enqueued(q[0], mirrored));
    WeightOfKids(q[0]);
    WeightReversed(Kids(q[0]));
  }

  // ---------------------------------------------------------------------------
  // Preorder

  lemma {:induction false} PreAppend(a: seq<Ref>, b: seq<Ref>)
    ensures Pre(a + b) == Pre(a) + Pre(b)
    decreases |a|
  {
    if a == [] {
      assert a + b == b;
    } else {
      assert (a + b)[0] == a[0] && (a + b)[1..] == a[1..] + b;
      PreAppend(a[1..], b);
    }
  }

  lemma PreGrow(rs: seq<Ref>, i: nat)
    requires i < |rs|
    ensures Pre(rs[..i + 1]) == Pre(rs[..i]) + Pre([rs[i]])
  {
    assert rs[..i + 1] == rs[..i] + [rs[i]];
    PreAppend(rs[..i], [rs[i]]);
  }

  lemma PreSingle(r: Ref)
    ensures Pre([r]) == [r] + Pre(Kids(r))
  {
    assert [r][1..] == [];
  }

  /** The preorder of a list has one entry per node below its pointers. */
  lemma {:induction false} PreLength(rs: seq<Ref>)
    ensures |Pre(rs)| == Weight(rs)
    decreases Weight(rs)
  {
    if rs != [] {
      WeightOfKids(rs[0]);
      PreLength(Kids(rs[0]));
      PreLength(rs[1..]);
    }
  }

  /** The preorder of a list visits exactly the nodes below its pointers. */
  lemma {:induction false} PreMembers(rs: seq<Ref>)
    ensures forall x :: x in Pre(rs) <==> exists i :: 0 <= i < |rs| && Below(rs[i], x)
    decreases Weight(rs)
  {
    if rs != [] {
      WeightOfKids(rs[0]);
      PreMembers(Kids(rs[0]));
      PreMembers(rs[1..]);
      forall x
        ensures x in Pre(rs) <==> exists i :: 0 <= i < |rs| && Below(rs[i], x)
      {
        PreMembersStep(rs, x);
      }
    }
  }

  /** One node, given the membership facts for the head's children and for the tail. */
  lemma {:induction false} PreMembersStep(rs: seq<Ref>, x: Ref)
    requires rs != []
    requires x in Pre(Kids(rs[0])) <==> exists i :: 0 <= i < |Kids(rs[0])| && Below(Kids(rs[0])[i], x)
    requires x in Pre(rs[1..]) <==> exists i :: 0 <= i < |rs[1..]| && Below(rs[1..][i], x)
    ensures x in Pre(rs) <==> exists i :: 0 <= i < |rs| && Below(rs[i], x)
  {
    var r, ks := rs[0], Kids(rs[0]);
    assert Pre(rs) == [r] + Pre(ks) + Pre(rs[1..]);
    BelowStep(r, x);
    if x in Pre(rs[1..]) {
      var j :| 0 <= j < |rs[1..]| && Below(rs[1..][j], x);
      assert Below(rs[j + 1], x);
    }
    if x != r && Below(r, x) {
      var k :| 0 <= k < |r.node.children| && Below(ChildRef(r, k), x);
      assert Below(ks[k], x);
    }
    if exists i :: 1 <= i < |rs| && Below(rs[i], x) {
      var i :| 1 <= i < |rs| && Below(rs[i], x);
      assert Below(rs[1..][i - 1], x);
    }
  }

  lemma PrefixOfBoth(a: Path, b: Path, c: Path)
    requires IsPrefix(a, c) && IsPrefix(b, c)
    ensures IsPrefix(a, b) || IsPrefix(b, a)
  {
    if |a| <= |b| {
      assert b[..|a|] == c[..|b|][..|a|];
    } else {
      assert a[..|b|] == c[..|a|][..|b|];
    }
  }

  lemma KidsIndependent(r: Ref)
    ensures Independent(Kids(r))
  {
    var ks := Kids(r);
    forall i, j | 0 <= i < |ks| && 0 <= j < |ks| && i != j
      ensures !IsPrefix(ks[i].path, ks[j].path)
    {
      assert ks[j].path[|r.path|] == j;
      assert ks[i].path[|r.path|] == i;
    }
  }

  /** Joining two lists that share no position keeps positions distinct. */
  lemma DistinctConcat(a: seq<Ref>, b: seq<Ref>)
    requires DistinctPaths(a) && DistinctPaths(b)
    requires forall x, y :: x in a && y in b ==> x.path != y.path
    ensures DistinctPaths(a + b)
  {
    var s := a + b;
    forall i, j | 0 <= i < j < |s|
      ensures s[i].path != s[j].path
    {
      if j < |a| {
        assert s[i] == a[i] && s[j] == a[j];
      } else if i >= |a| {
        assert s[i] == b[i - |a|] && s[j] == b[j - |a|];
      } else {
        assert s[i] in a && s[j] in b;
      }
    }
  }

  /** Every position the preorder of a list visits extends one of the list's positions. */
  lemma PreExtends(rs: seq<Ref>)
    ensures forall y :: y in Pre(rs) ==> exists j :: 0 <= j < |rs| && IsPrefix(rs[j].path, y.path)
  {
    PreMembers(rs);
    forall y | y in Pre(rs)
      ensures exists j :: 0 <= j < |rs| && IsPrefix(rs[j].path, y.path)
    {
      var j :| 0 <= j < |rs| && Below(rs[j], y);
    }
  }

  /** The head's subtree and the rest of an independent list share no position. */
  lemma PreSeparate(rs: seq<Ref>)
    requires rs != [] && Independent(rs)
    ensures forall x, y :: x in Pre([rs[0]]) && y in Pre(rs[1..]) ==> x.path != y.path
  {
    var r, rest := rs[0], rs[1..];
    PreExtends([r]);
    PreExtends(rest);
    forall x, y | x in Pre([r]) && y in Pre(rest)
      ensures x.path != y.path
    {
      var j :| 0 <= j < |rest| && IsPrefix(rest[j].path, y.path);
      assert IsPrefix(r.path, x.path);
      if x.path == y.path {
        PrefixOfBoth(r.path, rest[j].path, x.path);
        assert false;
      }
    }
  }

  /** Pointers that do not lie below one another have disjoint preorders. */
  lemma {:induction false} PreDistinct(rs: seq<Ref>)
    requires Independent(rs)
    ensures DistinctPaths(Pre(rs))
    decreases Weight(rs)
  {
    if rs != [] {
      var r := rs[0];
      var ks := Kids(r);
      WeightOfKids(r);
      KidsIndependent(r);
      PreDistinct(ks);
      PreDistinct(rs[1..]);
      PreExtends(ks);
      forall x | x in Pre(ks)
        ensures x.path != r.path
      {
        var k :| 0 <= k < |ks| && IsPrefix(ks[k].path, x.path);
      }
      DistinctConcat([r], Pre(ks));
      PreSingle(r);
      PreSeparate(rs);
      DistinctConcat(Pre([r]), Pre(rs[1..]));
      assert Pre(rs) == Pre([r]) + Pre(rs[1..]);
    }
  }

  // ---------------------------------------------------------------------------
  // The sweep visits the same nodes as the preorder

  lemma {:induction false} PreReversed(s: seq<Ref>)
    ensures multiset(Pre(Reversed(s))) == multiset(Pre(s))
  {
    if s != [] {
      ReversedFront(s);
      PreReversed(s[1..]);
      PreAppend(Reversed(s[1..]), [s[0]]);
      PreAppend([s[0]], s[1..]);
      assert s == [s[0]] + s[1..];
    }
  }

  /** Whatever the child order, a sweep is a permutation of the preorder. */
  lemma {:induction false} SweepPermutes(q: seq<Ref>, mirrored: bool)
    ensures multiset(Sweep(q, mirrored)) == multiset(Pre(q))
    decreases Weight(q)
  {
    if q != [] {
      var e := Enqueued(q[0], mirrored);
      SweepShrinks(q, mirrored);
      SweepPermutes(q[1..] + e, mirrored);
      PreAppend(q[1..], e);
      if mirrored {
        PreReversed(Kids(q[0]));
      }
    }
  }

  lemma {:induction false} OccursOnce(s: seq<Ref>, x: Ref)
    requires DistinctPaths(s)
    ensures multiset(s)[x] <= 1
  {
    if s != [] {
      assert DistinctPaths(s[1..]) by {
        forall i, j | 0 <= i < j < |s[1..]|
          ensures s[1..][i].path != s[1..][j].path
        {
          assert s[1..][i] == s[i + 1] && s[1..][j] == s[j + 1];
        }
      }
      OccursOnce(s[1..], x);
      assert s == [s[0]] + s[1..];
      if x == s[0] {
        assert x !in s[1..];
      }
    }
  }

  lemma OccursTwice(u: seq<Ref>, i: nat, j: nat)
    requires i < j < |u| && u[i] == u[j]
    ensures multiset(u)[u[i]] >= 2
  {
    assert u == u[..i] + [u[i]] + u[i + 1..j] + [u[j]] + u[j + 1..];
  }

  /** Two lists with the same elements either both repeat a position or neither does. */
  lemma DistinctPathsTransfer(s: seq<Ref>, u: seq<Ref>)
    requires multiset(s) == multiset(u) && DistinctPaths(s)
    ensures DistinctPaths(u)
  {
    forall i, j | 0 <= i < j < |u|
      ensures u[i].path != u[j].path
    {
      if u[i] == u[j] {
        OccursTwice(u, i, j);
        OccursOnce(s, u[i]);
      } else {
        assert u[i] in multiset(s) && u[j] in multiset(s);
        var a :| 0 <= a < |s| && s[a] == u[i];
        var b :| 0 <= b < |s| && s[b] == u[j];
        assert a != b;
      }
    }
  }

  // ---------------------------------------------------------------------------
  // Every node once

  /** Preorder starts at the root and visits every node of the tree exactly once. */
  lemma PreorderVisitsAll(t: Tree)
    ensures |Preorder(t)| == Size(t) && Preorder(t)[0] == Root(t)
    ensures DistinctPaths(Preorder(t))
    ensures forall x :: x in Preorder(t) <==> PointsInto(t, x)
  {
    PreLength([Root(t)]);
    PreDistinct([Root(t)]);
    PreMembers([Root(t)]);
    forall x
      ensures x in Preorder(t) <==> PointsInto(t, x)
    {
      BelowRoot(t, x);
    }
  }

  /** Level order starts at the root and visits every node exactly once. */
  lemma LevelOrderVisitsAll(t: Tree)
    ensures multiset(LevelOrder(t)) == multiset(Preorder(t))
    ensures |LevelOrder(t)| == Size(t) && LevelOrder(t)[0] == Root(t)
    ensures DistinctPaths(LevelOrder(t))
    ensures forall x :: x in LevelOrder(t) <==> PointsInto(t, x)
  {
    PreorderVisitsAll(t);
    SweepPermutes([Root(t)], false);
    DistinctPathsTransfer(Preorder(t), LevelOrder(t));
    assert |LevelOrder(t)| == |multiset(LevelOrder(t))|;
    forall x
      ensures x in LevelOrder(t) <==> PointsInto(t, x)
    {
      assert x in LevelOrder(t) <==> x in multiset(LevelOrder(t));
    }
  }

  /** Reverse order ends at the root and visits every node exactly once. */
  lemma ReverseOrderVisitsAll(t: Tree)
    ensures multiset(ReverseOrder(t)) == multiset(Preorder(t))
    ensures |ReverseOrder(t)| == Size(t) && ReverseOrder(t)[Size(t) - 1] == Root(t)
    ensures DistinctPaths(ReverseOrder(t))
    ensures forall x :: x in ReverseOrder(t) <==> PointsInto(t, x)
  {
    var w := Sweep([Root(t)], true);
    var s := ReverseOrder(t);
    PreorderVisitsAll(t);
    SweepPermutes([Root(t)], true);
    ReversedMultiset(w);
    DistinctPathsTransfer(Preorder(t), s);
    assert |s| == |multiset(s)|;
    forall x
      ensures x in s <==> PointsInto(t, x)
    {
      assert x in s <==> x in multiset(s);
    }
  }

  lemma {:induction false} ReversedMultiset<T>(s: seq<T>)
    ensures multiset(Reversed(s)) == multiset(s)
  {
    if s != [] {
      ReversedFront(s);
      ReversedMultiset(s[1..]);
      assert s == [s[0]] + s[1..];
    }
  }
}
