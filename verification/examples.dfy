/**
 * A small chart worked through every operation, and the loop callers write
 * over an iterator range (`for (auto it = begin(); it != end(); ++it)`).
 */
module Walkthrough {
  import opened OrgTree
  import opened Traversals
  import Render
  import opened Iterators
  import opened Chart
  import opened Search

  /** CEO with CTO (who has Dev1) and CFO under it. */
  function Company(): Tree
  {
    Node("CEO", [Node("CTO", [Leaf("Dev1")]), Leaf("CFO")])
  }

  /** The company's nodes, at their positions. */
  function Ceo(): Ref { Root(Company()) }
  function Cto(): Ref { Ref([0], Node("CTO", [Leaf("Dev1")])) }
  function Dev(): Ref { Ref([0, 0], Leaf("Dev1")) }
  function Cfo(): Ref { Ref([1], Leaf("CFO")) }

  lemma CompanyKids()
    ensures Kids(Ceo()) == [Cto(), Cfo()] && Kids(Cto()) == [Dev()]
    ensures Kids(Cfo()) == [] && Kids(Dev()) == []
  {
    assert [] + [0] == [0] && [] + [1] == [1] && [0] + [0] == [0, 0];
    assert Kids(Ceo())[0] == Cto() && Kids(Ceo())[1] == Cfo();
    assert Kids(Cto())[0] == Dev();
  }

  lemma CompanyPreorder()
    ensures Preorder(Company()) == [Ceo(), Cto(), Dev(), Cfo()]
  {
    CompanyKids();
    assert Pre([Dev()]) == [Dev()] + Pre([]) + Pre([]);
    assert Pre([Cfo()]) == [Cfo()] + Pre([]) + Pre([]);
    assert Pre([Cto(), Cfo()]) == [Cto()] + Pre([Dev()]) + Pre([Cfo()]);
    assert Pre([Ceo()]) == [Ceo()] + Pre([Cto(), Cfo()]) + Pre([]);
  }

  lemma CompanyLevelOrder()
    ensures LevelOrder(Company()) == [Ceo(), Cto(), Cfo(), Dev()]
  {
    CompanyKids();
    assert Sweep([Dev()], false) == [Dev()] + Sweep([], false);
    assert Sweep([Cfo(), Dev()], false) == [Cfo()] + Sweep([Dev()], false);
    assert Sweep([Cto(), Cfo()], false) == [Cto()] + Sweep([Cfo(), Dev()], false);
    assert Sweep([Ceo()], false) == [Ceo()] + Sweep([Cto(), Cfo()], false);
  }

  lemma CompanyMirroredKids()
    ensures Enqueued(Ceo(), true) == [Cfo(), Cto()] && Enqueued(Cto(), true) == [Dev()]
    ensures Enqueued(Cfo(), true) == [] && Enqueued(Dev(), true) == []
  {
    CompanyKids();
    assert Reversed([Cto(), Cfo()])[0] == Cfo();
  }

  lemma CompanyMirroredSweep()
    ensures Sweep([Ceo()], true) == [Ceo(), Cfo(), Cto(), Dev()]
  {
    CompanyMirroredKids();
    assert [Dev()][1..] + Enqueued(Dev(), true) == [];
    assert [Cto()][1..] + Enqueued(Cto(), true) == [Dev()];
    assert [Cfo(), Cto()][1..] + Enqueued(Cfo(), true) == [Cto()];
    assert [Ceo()][1..] + Enqueued(Ceo(), true) == [Cfo(), Cto()];
  }

  /**
   * The three orders of the company chart: the reverse order is the deepest
   * level first, each level left to right, which is not level order read
   * backwards.
   */
  lemma CompanyOrders()
    ensures Labels(Preorder(Company())) == ["CEO", "CTO", "Dev1", "CFO"]
    ensures Labels(LevelOrder(Company())) == ["CEO", "CTO", "CFO", "Dev1"]
    ensures Labels(ReverseOrder(Company())) == ["Dev1", "CTO", "CFO", "CEO"]
    ensures Labels(Reversed(LevelOrder(Company()))) == ["Dev1", "CFO", "CTO", "CEO"]
  {
    CompanyPreorder();
    CompanyLevelOrder();
    CompanyMirroredSweep();
    assert ReverseOrder(Company()) == [Dev(), Cto(), Cfo(), Ceo()];
    assert Reversed(LevelOrder(Company())) == [Dev(), Cfo(), Cto(), Ceo()];
  }

  lemma CompanyLines()
    ensures Render.Line(Ceo()) == "└──CEO\n"
    ensures Render.Line(Cto()) == "    ├──CTO\n"
    ensures Render.Line(Dev()) == "    │   ├──Dev1\n"
    ensures Render.Line(Cfo()) == "    ├──CFO\n"
  {
    assert Render.Bars(1) == Render.Bars(0) + "│   ";
  }

  /** The company chart's text. */
  lemma CompanyText()
    ensures Render.PrintChartWrap(Some(Company())) ==
      "└──CEO\n" + "    ├──CTO\n" + "    │   ├──Dev1\n" + "    ├──CFO\n"
  {
    calc {
      Render.PrintChartWrap(Some(Company()));
      { Render.PrintChartWrapIsPreorderLines(Some(Company())); }
      Render.Lines(Preorder(Company()));
      { CompanyPreorder(); }
      Render.Lines([Ceo(), Cto(), Dev(), Cfo()]);
      { assert [Ceo(), Cto(), Dev(), Cfo()][1..] == [Cto(), Dev(), Cfo()]; }
      Render.Line(Ceo()) + Render.Lines([Cto(), Dev(), Cfo()]);
      { assert [Cto(), Dev(), Cfo()][1..] == [Dev(), Cfo()]; }
      Render.Line(Ceo()) + (Render.Line(Cto()) + Render.Lines([Dev(), Cfo()]));
      { assert [Dev(), Cfo()][1..] == [Cfo()] && [Cfo()][1..] == []; }
      Render.Line(Ceo()) + (Render.Line(Cto()) + (Render.Line(Dev()) + Render.Line(Cfo())));
      { CompanyLines(); }
      "└──CEO\n" + ("    ├──CTO\n" + ("    │   ├──Dev1\n" + "    ├──CFO\n"));
    }
  }

  lemma FirstTwoSteps()
    ensures HasLabel(Leaf("CEO"), "CEO")
    ensures SearchFor("CEO", Some(Root(Leaf("CEO")))) == Some(Root(Leaf("CEO")))
    ensures AppendChild(Leaf("CEO"), [], Leaf("CTO")) == Node("CEO", [Leaf("CTO")])
    ensures HasLabel(Node("CEO", [Leaf("CTO")]), "CEO")
    ensures SearchFor("CEO", Some(Root(Node("CEO", [Leaf("CTO")])))) == Some(Root(Node("CEO", [Leaf("CTO")])))
    ensures AppendChild(Node("CEO", [Leaf("CTO")]), [], Leaf("CFO")) == Node("CEO", [Leaf("CTO"), Leaf("CFO")])
  {
    assert ValidPath(Leaf("CEO"), []) && At(Leaf("CEO"), []).value == "CEO";
    assert ValidPath(Node("CEO", [Leaf("CTO")]), []);
  }

  lemma LastStep()
    ensures var t := Node("CEO", [Leaf("CTO"), Leaf("CFO")]);
      && HasLabel(t, "CTO")
      && SearchFor("CTO", Some(Root(t))) == Some(ChildRef(Root(t), 0))
      && AppendChild(t, [0], Leaf("Dev1")) == Company()
  {
    var t := Node("CEO", [Leaf("CTO"), Leaf("CFO")]);
    assert ValidPath(t, [0]) && At(t, [0]).value == "CTO";
    assert SearchAt("CTO", ChildRef(Root(t), 0)) == Some(ChildRef(Root(t), 0));
    assert AppendChild(Leaf("CTO"), [], Leaf("Dev1")) == Node("CTO", [Leaf("Dev1")]);
    assert [0][1..] == [];
    assert AppendChild(t, [0], Leaf("Dev1")) == Node("CEO", t.children[0 := AppendChild(Leaf("CTO"), [], Leaf("Dev1"))]);
  }

  /** Building the company chart through `add_root` and `add_sub`. */
  method BuildCompany() returns (chart: OrgChart)
    ensures chart.root == Some(Company())
  {
    FirstTwoSteps();
    LastStep();
    chart := new OrgChart();
    var r := chart.AddRoot("CEO");
    r := chart.AddSub("CEO", "CTO");
    r := chart.AddSub("CEO", "CFO");
    r := chart.AddSub("CTO", "Dev1");
  }

  lemma LabelsGrow(s: seq<Ref>, k: nat)
    requires k < |s|
    ensures Labels(s[..k + 1]) == Labels(s[..k]) + [s[k..][0].node.value]
  {
    assert s[..k + 1] == s[..k] + [s[k]];
  }

  /**
   * The range loop: from `it` until it compares equal to `stop` (an end
   * iterator), collecting labels. It visits everything left, in order, one
   * step per node, and then `it` equals `stop`.
   */
  method Collect(it: Iterator, stop: Iterator) returns (labels: seq<string>, steps: nat)
    requires it != stop && it.Valid() && stop.node == None
    requires DistinctPaths(it.Remaining())
    modifies it
    ensures labels == Labels(old(it.Remaining())) && steps == |old(it.Remaining())|
    ensures it.Equals(stop) && it.Remaining() == []
  {
    ghost var all := it.Remaining();
    labels, steps := [], 0;
    while it.NotEquals(stop)
      invariant it.Valid() && steps <= |all| && it.Remaining() == all[steps..]
      invariant stop.node == None
      invariant labels == Labels(all[..steps])
      decreases |all| - steps
    {
      SameNodeIffSameProgress(all, steps, |all|);
      labels := labels + [it.Deref()];
      LabelsGrow(all, steps);
      it.Increment();
      assert all[steps..][1..] == all[steps + 1..];
      steps := steps + 1;
    }
    SameNodeIffSameProgress(all, steps, |all|);
    assert all[..steps] == all;
  }

  /** The order the iterators of one kind visit a chart in. */
  function OrderOf(k: Kind, t: Tree): seq<Ref>
  {
    match k
    case PreorderIt => Preorder(t)
    case ReverseOrderIt => ReverseOrder(t)
    case _ => LevelOrder(t)
  }

  lemma OrderOfVisitsAll(k: Kind, t: Tree)
    ensures |OrderOf(k, t)| == Size(t) && DistinctPaths(OrderOf(k, t))
  {
    match k
    case PreorderIt => PreorderVisitsAll(t);
    case ReverseOrderIt => ReverseOrderVisitsAll(t);
    case _ => LevelOrderVisitsAll(t);
  }

  /**
   * A range loop over a chart with the `begin*`/`end*` pair of one kind
   * (plain `begin()`/`end()` for level order): it yields the chart's labels
   * in that order, reaching the end iterator after exactly as many steps as
   * the chart has nodes; an empty chart throws.
   */
  method WalkChart(chart: OrgChart, k: Kind) returns (res: Outcome<seq<string>>, steps: nat)
    requires k != Base
    ensures res.Threw? <==> chart.root.None?
    ensures res.Threw? ==> res.error == InvalidArgument
    ensures res.Returned? ==> res.value == Labels(OrderOf(k, chart.root.value))
    ensures res.Returned? ==> steps == Size(chart.root.value)
  {
    var b, e;
    match k {
      case PreorderIt =>
        b := chart.BeginPreorder();
        e := chart.EndPreorder();
      case ReverseOrderIt =>
        b := chart.BeginReverseOrder();
        e := chart.EndReverseOrder();
      case LevelOrderIt =>
        b := chart.Begin();
        e := chart.End();
    }
    if b.Threw? || e.Threw? {
      return Threw(InvalidArgument), 0;
    }
    OrderOfVisitsAll(k, chart.root.value);
    var labels;
    labels, steps := Collect(b.value, e.value);
    res := Returned(labels);
  }
}
