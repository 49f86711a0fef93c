/**
 * The text `operator<<` writes for a chart (`print_chart_wrap` and
 * `print_chart`), returned as a string.
 *
 * The printer passes `isLeft == true` to every child, so every line below
 * the root is drawn with a tee, the last sibling included, and the
 * continuation bar is added at every level. The lemmas below state that
 * layout in closed form: one line per node in preorder, the line of a node
 * depending only on its depth and its label.
 */
module Render {
  import opened OrgTree
  import opened Traversals

  /** `print_chart(os, prefix, node, isLeft)` for a non-null node. */
  function PrintChart(prefix: string, n: Tree, isLeft: bool): (s: string)
    ensures |s| >= |prefix| + |n.value| + 4 && s[|s| - 1] == '\n'
    decreases n, 1
  {
    prefix + (if isLeft then "├──" else "└──") + n.value + "\n"
    + PrintChildren(prefix + (if isLeft then "│   " else "    "), n, 0)
  }

  /** The loop of `print_chart` over `adjacent`, from the `i`-th child on. */
  function PrintChildren(prefix: string, n: Tree, i: nat): (s: string)
    requires i <= |n.children|
    ensures s == "" <==> i == |n.children|
    ensures s != "" ==> |s| > |prefix| && s[|s| - 1] == '\n'
    decreases n, 0, |n.children| - i
  {
    if i == |n.children| then ""
    else PrintChart(prefix, n.children[i], true) + PrintChildren(prefix, n, i + 1)
  }

  /** `print_chart_wrap(os, root)`: nothing for a null root. */
  function PrintChartWrap(root: Option<Tree>): (s: string)
    ensures s == "" <==> root.None?
    ensures s != "" ==> s[|s| - 1] == '\n'
  {
    match root
    case None => ""
    case Some(t) => PrintChart("", t, false)
  }

  /** `k` copies of the continuation bar. */
  function Bars(k: nat): string
  {
    if k == 0 then "" else Bars(k - 1) + "│   "
  }

  /** What precedes the label of a node at depth `d`. */
  function Indent(d: nat): string
  {
    if d == 0 then "└──" else "    " + Bars(d - 1) + "├──"
  }

  /** The line of one node. */
  function Line(r: Ref): string
  {
    Indent(|r.path|) + r.node.value + "\n"
  }

  function Lines(s: seq<Ref>): string
  {
    if s == [] then "" else Line(s[0]) + Lines(s[1..])
  }

  lemma {:induction false} LinesAppend(a: seq<Ref>, b: seq<Ref>)
    ensures Lines(a + b) == Lines(a) + Lines(b)
  {
    if a == [] {
      assert a + b == b;
    } else {
      assert (a + b)[0] == a[0] && (a + b)[1..] == a[1..] + b;
      LinesAppend(a[1..], b);
    }
  }

  /** A node below the root prints as its preorder's lines. */
  lemma {:induction false} PrintChartIsLines(r: Ref)
    requires |r.path| >= 1
    ensures PrintChart("    " + Bars(|r.path| - 1), r.node, true) == Lines(Pre([r]))
    decreases r.node, 1
  {
    var d := |r.path|;
    var prefix := "    " + Bars(d - 1);
    var below := PrintChildren(prefix + "│   ", r.node, 0);
    assert prefix + "│   " == "    " + Bars(d);
    PrintChildrenIsLines(r, 0);
    assert Kids(r)[0..] == Kids(r);
    assert below == Lines(Pre(Kids(r)));
    PreSingle(r);
    LinesAppend([r], Pre(Kids(r)));
    assert Lines([r]) == Line(r) by {
      assert [r][1..] == [];
    }
    assert Line(r) == prefix + "├──" + r.node.value + "\n";
    assert PrintChart(prefix, r.node, true) == prefix + "├──" + r.node.value + "\n" + below;
  }

  lemma {:induction false} PrintChildrenIsLines(r: Ref, i: nat)
    requires i <= |r.node.children|
    ensures PrintChildren("    " + Bars(|r.path|), r.node, i) == Lines(Pre(Kids(r)[i..]))
    decreases r.node, 0, |r.node.children| - i
  {
    var ks := Kids(r);
    if i < |r.node.children| {
      assert ks[i..] == [ks[i]] + ks[i + 1..];
      PreAppend([ks[i]], ks[i + 1..]);
      LinesAppend(Pre([ks[i]]), Pre(ks[i + 1..]));
      PrintChartIsLines(ChildRef(r, i));
      PrintChildrenIsLines(r, i + 1);
    }
  }

  /**
   * The whole chart prints as one line per node in preorder: the root as
   * `└──` and its label, a node at depth d >= 1 as four spaces, d - 1 bars
   * and `├──` before its label; a null root prints nothing.
   */
  lemma PrintChartWrapIsPreorderLines(root: Option<Tree>)
    ensures PrintChartWrap(root) == if root.None? then "" else Lines(Preorder(root.value))
  {
    if root.Some? {
      var t := root.value;
      var r := Root(t);
      var below := PrintChildren("" + "    ", t, 0);
      assert below == Lines(Pre(Kids(r))) by {
        assert "" + "    " == "    " + Bars(0);
        PrintChildrenIsLines(r, 0);
        assert Kids(r)[0..] == Kids(r);
      }
      calc {
        PrintChartWrap(root);
        PrintChart("", t, false);
        "" + "└──" + t.value + "\n" + below;
        { assert "" + "└──" == Indent(0); }
        Line(r) + below;
        { assert [r][1..] == []; }
        Lines([r]) + Lines(Pre(Kids(r)));
        { LinesAppend([r], Pre(Kids(r))); }
        Lines([r] + Pre(Kids(r)));
        { PreSingle(r); }
        Lines(Pre([r]));
      }
    }
  }
}
