/**
 * `OrgChart::search_for`: the first node, in preorder, that carries a label.
 */
module Search {
  import opened OrgTree
  import opened Traversals

  /**
   * `search_for(v, n)`: null for a null node; the node itself when it carries
   * `v`; otherwise the first hit among its children's subtrees, in child order.
   */
  function SearchFor(v: string, n: Option<Ref>): (res: Option<Ref>)
    ensures n.None? ==> res.None?
  {
    match n
    case None => None
    case Some(r) => SearchAt(v, r)
  }

  /** The hit, if any, is `r` or a node below it, and it carries `v`. */
  function SearchAt(v: string, r: Ref): (res: Option<Ref>)
    ensures res.Some? ==> res.value.node.value == v && Below(r, res.value)
    decreases r.node, 1
  {
    if r.node.value == v then
      assert r.path[|r.path|..] == [];
      Some(r)
    else SearchChildren(v, r, 0)
  }

  /** The loop over `adjacent`, from the `i`-th child on. */
  function SearchChildren(v: string, r: Ref, i: nat): (res: Option<Ref>)
    requires i <= |r.node.children|
    ensures res.Some? ==> res.value.node.value == v && Below(r, res.value)
    decreases r.node, 0, |r.node.children| - i
  {
    if i == |r.node.children| then None
    else
      match SearchAt(v, ChildRef(r, i))
      case Some(found) =>
        BelowChild(r, i, found);
        Some(found)
      case None => SearchChildren(v, r, i + 1)
  }

  /** The index of the first element of `s` labelled `v`, or `|s|` when there is none. */
  function FirstIndex(v: string, s: seq<Ref>): (k: nat)
    ensures k <= |s|
    ensures k < |s| ==> s[k].node.value == v
    ensures forall j :: 0 <= j < k ==> s[j].node.value != v
  {
    if s == [] then 0
    else if s[0].node.value == v then 0
    else 1 + FirstIndex(v, s[1..])
  }

  /** The first element of `s` labelled `v`, if any. */
  function FirstIn(v: string, s: seq<Ref>): Option<Ref>
  {
    var k := FirstIndex(v, s);
    if k < |s| then Some(s[k]) else None
  }

  /** Some node of `t` is labelled `v`. */
  ghost predicate HasLabel(t: Tree, v: string)
  {
    exists p :: ValidPath(t, p) && At(t, p).value == v
  }

  lemma FirstInAppend(v: string, a: seq<Ref>, b: seq<Ref>)
    ensures FirstIn(v, a + b) == if FirstIn(v, a).Some? then FirstIn(v, a) else FirstIn(v, b)
  {
    var ka, kb, k := FirstIndex(v, a), FirstIndex(v, b), FirstIndex(v, a + b);
    if ka < |a| {
      assert (a + b)[ka] == a[ka];
    } else {
      if kb < |b| {
        assert (a + b)[|a| + kb] == b[kb];
      }
      assert k == |a| + kb;
    }
  }

  /** `search_for` from `r` returns the first node of `r`'s preorder labelled `v`. */
  lemma {:induction false} SearchAtIsFirstInPreorder(v: string, r: Ref)
    ensures SearchAt(v, r) == FirstIn(v, Pre([r]))
    decreases r.node, 1
  {
    PreSingle(r);
    FirstInAppend(v, [r], Pre(Kids(r)));
    if r.node.value != v {
      SearchChildrenIsFirstInPreorder(v, r, 0);
      assert Kids(r)[0..] == Kids(r);
    }
  }

  lemma {:induction false} SearchChildrenIsFirstInPreorder(v: string, r: Ref, i: nat)
    requires i <= |r.node.children|
    ensures SearchChildren(v, r, i) == FirstIn(v, Pre(Kids(r)[i..]))
    decreases r.node, 0, |r.node.children| - i
  {
    var ks := Kids(r);
    if i < |r.node.children| {
      assert ks[i..] == [ks[i]] + ks[i + 1..];
      PreAppend([ks[i]], ks[i + 1..]);
      FirstInAppend(v, Pre([ks[i]]), Pre(ks[i + 1..]));
      SearchAtIsFirstInPreorder(v, ChildRef(r, i));
      SearchChildrenIsFirstInPreorder(v, r, i + 1);
    }
  }

  /**
   * Searching a chart's root: null exactly when no node carries `v`;
   * otherwise a node of the chart labelled `v`, and no node before it in
   * preorder carries `v`.
   */
  lemma SearchForFindsFirst(v: string, t: Tree)
    ensures SearchFor(v, Some(Root(t))).None? <==> !HasLabel(t, v)
    ensures SearchFor(v, Some(Root(t))).Some? ==>
      var found, k := SearchFor(v, Some(Root(t))).value, FirstIndex(v, Preorder(t));
      && PointsInto(t, found) && found.node.value == v
      && k < |Preorder(t)| && Preorder(t)[k] == found
      && forall j :: 0 <= j < k ==> Preorder(t)[j].node.value != v
  {
    var s := Preorder(t);
    SearchAtIsFirstInPreorder(v, Root(t));
    PreorderVisitsAll(t);
    if HasLabel(t, v) {
      var p :| ValidPath(t, p) && At(t, p).value == v;
      assert Ref(p, At(t, p)) in s;
    }
    if FirstIndex(v, s) < |s| {
      assert s[FirstIndex(v, s)] in s;
    }
  }

}
