/**
 * `ariel::OrgChart`: the nullable root, insertion by label, the iterator
 * accessors, deep copy and the text form.
 */
module Chart {
  import opened OrgTree
  import opened Search
  import Traversals
  import Render
  import opened Iterators

  /** What a call returns: a value, or the exception it throws. */
  datatype Outcome<T> = Returned(value: T) | Threw(error: Error)

  /**
   * `p`'s node with `c` pushed at the back of its children (the effect of
   * `adjacent.push_back` on the node `p` points to).
   */
  function AppendChild(t: Tree, p: Path, c: Tree): (r: Tree)
    requires ValidPath(t, p)
    ensures r.value == t.value
    ensures ValidPath(r, p) && At(r, p) == Node(At(t, p).value, At(t, p).children + [c])
    decreases p
  {
    if p == [] then Node(t.value, t.children + [c])
    else Node(t.value, t.children[p[0] := AppendChild(t.children[p[0]], p[1..], c)])
  }

  lemma {:induction false} SizeOfAppend(ts: seq<Tree>, c: Tree)
    ensures SizeOf(ts + [c]) == SizeOf(ts) + Size(c)
  {
    if ts == [] {
      assert [c][1..] == [];
    } else {
      assert (ts + [c])[0] == ts[0] && (ts + [c])[1..] == ts[1..] + [c];
      SizeOfAppend(ts[1..], c);
    }
  }

  lemma {:induction false} SizeOfUpdate(ts: seq<Tree>, i: nat, c: Tree)
    requires i < |ts|
    ensures SizeOf(ts[i := c]) == SizeOf(ts) - Size(ts[i]) + Size(c)
  {
    if i == 0 {
      assert ts[i := c][1..] == ts[1..];
    } else {
      assert ts[i := c][1..] == ts[1..][i - 1 := c];
      SizeOfUpdate(ts[1..], i - 1, c);
    }
  }

  /** Appending a subtree adds exactly its nodes. */
  lemma {:induction false} AppendChildSize(t: Tree, p: Path, c: Tree)
    requires ValidPath(t, p)
    ensures Size(AppendChild(t, p, c)) == Size(t) + Size(c)
    decreases p
  {
    if p == [] {
      SizeOfAppend(t.children, c);
    } else {
      AppendChildSize(t.children[p[0]], p[1..], c);
      SizeOfUpdate(t.children, p[0], AppendChild(t.children[p[0]], p[1..], c));
    }
  }

  /**
   * Every node of the old tree is still there, at the same position, with
   * the same label and the same number of children, except that the node at
   * `p` has one more.
   */
  lemma {:induction false} AppendChildKeeps(t: Tree, p: Path, c: Tree, q: Path)
    requires ValidPath(t, p) && ValidPath(t, q)
    ensures ValidPath(AppendChild(t, p, c), q)
    ensures At(AppendChild(t, p, c), q).value == At(t, q).value
    ensures |At(AppendChild(t, p, c), q).children| == |At(t, q).children| + if q == p then 1 else 0
    ensures q != p && (|q| <= |p| ==> q != p[..|q|]) ==> At(AppendChild(t, p, c), q) == At(t, q)
    decreases q
  {
    var r := AppendChild(t, p, c);
    if q != [] {
      var i := q[0];
      if p == [] {
        assert r.children[i] == t.children[i];
      } else if i == p[0] {
        AppendChildKeeps(t.children[i], p[1..], c, q[1..]);
        if |q| <= |p| && q[1..] == p[1..][..|q| - 1] {
          assert q == p[..|q|];
        }
        if q[1..] == p[1..] {
          assert q == p;
        }
      } else {
        assert r.children[i] == t.children[i];
      }
    }
  }

  /**
   * The only new position is the new last child of `p` and what lies below it.
   */
  lemma {:induction false} AppendChildNew(t: Tree, p: Path, c: Tree, q: Path)
    requires ValidPath(t, p) && ValidPath(AppendChild(t, p, c), q) && !ValidPath(t, q)
    ensures var n := p + [|At(t, p).children|];
      IsPrefix(n, q) && ValidPath(c, q[|n|..]) && At(AppendChild(t, p, c), q) == At(c, q[|n|..])
    decreases q
  {
    var r := AppendChild(t, p, c);
    var n := p + [|At(t, p).children|];
    var i := q[0];
    if p == [] {
      assert i == |t.children|;
      assert q[..1] == n;
    } else {
      assert i == p[0];
      AppendChildNew(t.children[i], p[1..], c, q[1..]);
      assert n == [i] + (p[1..] + [|At(t, p).children|]);
      assert q == [i] + q[1..];
      assert q[|n|..] == q[1..][|n| - 1..];
    }
  }

  /** The new child sits at the back of `p`'s children. */
  lemma {:induction false} AppendChildAppends(t: Tree, p: Path, c: Tree)
    requires ValidPath(t, p)
    ensures var n := p + [|At(t, p).children|];
      ValidPath(AppendChild(t, p, c), n) && At(AppendChild(t, p, c), n) == c
    decreases p
  {
    if p != [] {
      AppendChildAppends(t.children[p[0]], p[1..], c);
      assert (p + [|At(t, p).children|])[1..] == p[1..] + [|At(t, p).children|];
    } else {
      assert [|t.children|][1..] == [];
    }
  }

  lemma {:induction false} ChildSmaller(t: Tree, i: nat)
    requires i < |t.children|
    ensures Size(t.children[i]) < Size(t)
  {
    SizeOfUpdate(t.children, i, t.children[i]);
    assert t.children[i := t.children[i]] == t.children;
    SizeOfAtLeast(t.children, i);
  }

  lemma {:induction false} SizeOfAtLeast(ts: seq<Tree>, i: nat)
    requires i < |ts|
    ensures Size(ts[i]) <= SizeOf(ts)
  {
    if i > 0 {
      SizeOfAtLeast(ts[1..], i - 1);
    }
  }

  class OrgChart {
    var root: Option<Tree>

    /** `OrgChart()`: an empty chart. */
    constructor ()
      ensures root == None
    {
      root := None;
    }

    /**
     * `add_root(v)`: rejects an empty label; otherwise creates the root, or
     * renames the existing one and keeps its children. Returns the chart.
     */
    method AddRoot(v: string) returns (res: Outcome<OrgChart>)
      modifies this
      ensures v == "" <==> res == Threw(InvalidArgument)
      ensures res.Returned? ==> res.value == this
      ensures v == "" ==> root == old(root)
      ensures v != "" && old(root).None? ==> root == Some(Leaf(v))
      ensures v != "" && old(root).Some? ==> root == Some(Node(v, old(root).value.children))
    {
      if v == "" {
        return Threw(InvalidArgument);
      }
      if root.None? {
        root := Some(Leaf(v));
      } else {
        root := Some(Node(v, root.value.children));
      }
      res := Returned(this);
    }

    /**
     * `add_sub(father, son)`: appends a leaf labelled `son` (never checked)
     * as the last child of the first node, in preorder, labelled `father`;
     * throws and changes nothing when there is no such node.
     */
    method AddSub(father: string, son: string) returns (res: Outcome<OrgChart>)
      modifies this
      ensures res.Returned? <==> old(root).Some? && HasLabel(old(root).value, father)
      ensures res.Returned? ==> res.value == this
      ensures res.Threw? ==> res.error == InvalidArgument && root == old(root)
      ensures res.Returned? ==>
        var t, found := old(root).value, SearchFor(father, Some(Root(old(root).value)));
        && found.Some? && PointsInto(t, found.value) && found.value.node.value == father
        && root == Some(AppendChild(t, found.value.path, Leaf(son)))
        && Size(root.value) == Size(t) + 1
    {
      var fatherNode := SearchFor(father, if root.None? then None else Some(Root(root.value)));
      if root.Some? {
        SearchForFindsFirst(father, root.value);
      }
      if fatherNode.None? {
        return Threw(InvalidArgument);
      }
      var t := root.value;
      AppendChildSize(t, fatherNode.value.path, Leaf(son));
      root := Some(AppendChild(t, fatherNode.value.path, Leaf(son)));
      res := Returned(this);
    }

    /** `operator<<`: the chart's text. */
    function Text(): (s: string)
      reads this
      ensures root.None? ==> s == ""
      ensures root.Some? ==> s == Render.Lines(Traversals.Preorder(root.value))
    {
      Render.PrintChartWrapIsPreorderLines(root);
      Render.PrintChartWrap(root)
    }

    /**
     * `deep_copy_tree(parent)`: null for null; otherwise a new node with the
     * same label whose children are copies of the original's, in order.
     */
    method DeepCopyTree(parent: Option<Tree>) returns (copy: Option<Tree>)
      ensures copy == parent
      decreases if parent.Some? then Size(parent.value) else 0
    {
      if parent.None? {
        return None;
      }
      var t := parent.value;
      var adjacent: seq<Tree> := [];
      var i := 0;
      while i < |t.children|
        invariant i <= |t.children| && adjacent == t.children[..i]
      {
        ChildSmaller(t, i);
        var child := DeepCopyTree(Some(t.children[i]));
        adjacent := adjacent + [child.value];
        i := i + 1;
      }
      assert adjacent == t.children;
      copy := Some(Node(t.value, adjacent));
    }

    /** `begin()`: a level-order iterator at the root; throws on an empty chart. */
    method Begin() returns (res: Outcome<Iterator>)
      ensures res.Threw? <==> root.None?
      ensures res.Threw? ==> res.error == InvalidArgument
      ensures res.Returned? ==> fresh(res.value) && res.value.kind == LevelOrderIt && res.value.Valid()
      ensures res.Returned? ==> res.value.Remaining() == Traversals.LevelOrder(root.value)
    {
      res := BeginLevelOrder();
    }

    /** `end()`: a null level-order iterator; throws on an empty chart. */
    method End() returns (res: Outcome<Iterator>)
      ensures res.Threw? <==> root.None?
      ensures res.Threw? ==> res.error == InvalidArgument
      ensures res.Returned? ==> fresh(res.value) && res.value.kind == LevelOrderIt
      ensures res.Returned? ==> res.value.node == None && res.value.queue == []
    {
      res := EndLevelOrder();
    }

    /** `begin_level_order()`. */
    method BeginLevelOrder() returns (res: Outcome<Iterator>)
      ensures res.Threw? <==> root.None?
      ensures res.Threw? ==> res.error == InvalidArgument
      ensures res.Returned? ==> fresh(res.value) && res.value.kind == LevelOrderIt && res.value.Valid()
      ensures res.Returned? ==> res.value.Remaining() == Traversals.LevelOrder(root.value)
    {
      if root.None? {
        return Threw(InvalidArgument);
      }
      var it := new Iterator.LevelOrder(root);
      res := Returned(it);
    }

    /** `end_level_order()`. */
    method EndLevelOrder() returns (res: Outcome<Iterator>)
      ensures res.Threw? <==> root.None?
      ensures res.Threw? ==> res.error == InvalidArgument
      ensures res.Returned? ==> fresh(res.value) && res.value.kind == LevelOrderIt
      ensures res.Returned? ==> res.value.node == None && res.value.queue == []
    {
      if root.None? {
        return Threw(InvalidArgument);
      }
      var it := new Iterator.LevelOrder(None);
      res := Returned(it);
    }

    /** `begin_preorder()`. */
    method BeginPreorder() returns (res: Outcome<Iterator>)
      ensures res.Threw? <==> root.None?
      ensures res.Threw? ==> res.error == InvalidArgument
      ensures res.Returned? ==> fresh(res.value) && res.value.kind == PreorderIt && res.value.Valid()
      ensures res.Returned? ==> res.value.Remaining() == Traversals.Preorder(root.value)
    {
      if root.None? {
        return Threw(InvalidArgument);
      }
      var it := new Iterator.Preorder(root);
      res := Returned(it);
    }

    /** `end_preorder()`. */
    method EndPreorder() returns (res: Outcome<Iterator>)
      ensures res.Threw? <==> root.None?
      ensures res.Threw? ==> res.error == InvalidArgument
      ensures res.Returned? ==> fresh(res.value) && res.value.kind == PreorderIt
      ensures res.Returned? ==> res.value.node == None && res.value.queue == []
    {
      if root.None? {
        return Threw(InvalidArgument);
      }
      var it := new Iterator.Preorder(None);
      res := Returned(it);
    }

    /** `begin_reverse_order()`. */
    method BeginReverseOrder() returns (res: Outcome<Iterator>)
      ensures res.Threw? <==> root.None?
      ensures res.Threw? ==> res.error == InvalidArgument
      ensures res.Returned? ==> fresh(res.value) && res.value.kind == ReverseOrderIt && res.value.Valid()
      ensures res.Returned? ==> res.value.Remaining() == Traversals.ReverseOrder(root.value)
    {
      if root.None? {
        return Threw(InvalidArgument);
      }
      var it := new Iterator.ReverseOrder(root);
      res := Returned(it);
    }

    /** `reverse_order()`: the end of the reverse order. */
    method EndReverseOrder() returns (res: Outcome<Iterator>)
      ensures res.Threw? <==> root.None?
      ensures res.Threw? ==> res.error == InvalidArgument
      ensures res.Returned? ==> fresh(res.value) && res.value.kind == ReverseOrderIt
      ensures res.Returned? ==> res.value.node == None && res.value.queue == []
    {
      if root.None? {
        return Threw(InvalidArgument);
      }
      var it := new Iterator.ReverseOrder(None);
      res := Returned(it);
    }
  }
}
