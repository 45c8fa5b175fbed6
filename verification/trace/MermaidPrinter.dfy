/** The Mermaid printer: a preorder walk that numbers the nodes with a shared counter. */
module MermaidPrinter {
  import opened CallTrace

  /** One printed line: a node with its label, or an arrow from a caller to a callee. */
  datatype Line = NodeLine(id: nat, contractId: string, func: string) | Edge(from: nat, to: nat)

  function NodeLines(t: CallNode, id: nat): seq<Line>
    decreases t, 1
  {
    [NodeLine(id, t.contractId, t.func)] + ChildLines(id, t.children, id + 1)
  }

  /** The lines of consecutive children of `parent`, the first of them numbered `next`. */
  function ChildLines(parent: nat, ts: seq<CallNode>, next: nat): seq<Line>
    decreases ts, 0
  {
    if ts == [] then []
    else [Edge(parent, next)] + NodeLines(ts[0], next) + ChildLines(parent, ts[1..], next + CountNodes(ts[0]))
  }

  /** The printed text, line by line, and the id counter. */
  class Printer {
    var lines: seq<Line>
    var idGen: nat

    constructor ()
      ensures lines == [] && idGen == 0
    {
      lines, idGen := [], 0;
    }

    /** `append_mermaid_nodes`: the node gets the counter's number; the counter ends at the last one used. */
    method AppendNodes(node: CallNode)
      modifies this
      ensures lines == old(lines) + NodeLines(node, old(idGen))
      ensures idGen == old(idGen) + CountNodes(node) - 1
      decreases node
    {
      var currentId := idGen;
      lines := lines + [NodeLine(currentId, node.contractId, node.func)];
      ghost var before := lines;
      for i := 0 to |node.children|
        invariant idGen == currentId + CountAll(node.children[..i])
        invariant lines == before + ChildLines(currentId, node.children[..i], currentId + 1)
      {
        var child := node.children[i];
        ghost var drawn := ChildLines(currentId, node.children[..i], currentId + 1);
        DrawOneMore(currentId, node.children, i, currentId + 1);
        idGen := idGen + 1;
        var childId := idGen;
        lines := lines + [Edge(currentId, childId)];
        AppendNodes(child);
        Regroup(before, drawn, [Edge(currentId, childId)], NodeLines(child, childId));
      }
      assert node.children[..|node.children|] == node.children;
    }
  }

  method ToMermaid(root: CallNode) returns (lines: seq<Line>)
    ensures lines == NodeLines(root, 0)
  {
    var printer := new Printer();
    printer.AppendNodes(root);
    lines := printer.lines;
  }

  lemma Regroup<T>(a: seq<T>, b: seq<T>, c: seq<T>, d: seq<T>)
    ensures a + b + c + d == a + (b + c + d)
  {
  }

  lemma {:induction false} DrawOneMore(parent: nat, ts: seq<CallNode>, i: nat, next: nat)
    requires i < |ts|
    ensures CountAll(ts[..i + 1]) == CountAll(ts[..i]) + CountNodes(ts[i])
    ensures var id := next + CountAll(ts[..i]);
      ChildLines(parent, ts[..i + 1], next) == ChildLines(parent, ts[..i], next) + [Edge(parent, id)] + NodeLines(ts[i], id)
  {
    ChildLinesOneMore(parent, ts[..i], ts[i], next);
    assert ts[..i + 1] == ts[..i] + [ts[i]];
  }

  lemma {:induction false} ChildLinesOneMore(parent: nat, ts: seq<CallNode>, t: CallNode, next: nat)
    ensures CountAll(ts + [t]) == CountAll(ts) + CountNodes(t)
    ensures ChildLines(parent, ts + [t], next)
         == ChildLines(parent, ts, next) + [Edge(parent, next + CountAll(ts))] + NodeLines(t, next + CountAll(ts))
    decreases |ts|
  {
    if ts == [] {
      assert [] + [t] == [t];
      assert CountAll([t]) == CountNodes(t) + CountAll([]);
      assert ChildLines(parent, [t], next)
          == [Edge(parent, next)] + NodeLines(t, next) + ChildLines(parent, [], next + CountNodes(t));
    } else {
      assert (ts + [t])[1..] == ts[1..] + [t];
      ChildLinesOneMore(parent, ts[1..], t, next + CountNodes(ts[0]));
    }
  }

  // ---- The numbering ------------------------------------------------------------------------

  function NodeIds(lines: seq<Line>): seq<nat> {
    if lines == [] then []
    else (if lines[0].NodeLine? then [lines[0].id] else []) + NodeIds(lines[1..])
  }

  function EdgeTargets(lines: seq<Line>): seq<nat> {
    if lines == [] then []
    else (if lines[0].Edge? then [lines[0].to] else []) + EdgeTargets(lines[1..])
  }

  function Range(from: nat, count: nat): seq<nat> {
    seq(count, k requires 0 <= k < count => from + k)
  }

  lemma {:induction false} IdsConcat(a: seq<Line>, b: seq<Line>)
    ensures NodeIds(a + b) == NodeIds(a) + NodeIds(b)
    decreases |a|
  {
    if a == [] {
      assert a + b == b;
    } else {
      assert (a + b)[1..] == a[1..] + b;
      IdsConcat(a[1..], b);
      var head := if a[0].NodeLine? then [a[0].id] else [];
      assert head + (NodeIds(a[1..]) + NodeIds(b)) == (head + NodeIds(a[1..])) + NodeIds(b);
    }
  }

  lemma {:induction false} TargetsConcat(a: seq<Line>, b: seq<Line>)
    ensures EdgeTargets(a + b) == EdgeTargets(a) + EdgeTargets(b)
    decreases |a|
  {
    if a == [] {
      assert a + b == b;
    } else {
      assert (a + b)[1..] == a[1..] + b;
      TargetsConcat(a[1..], b);
      var head := if a[0].Edge? then [a[0].to] else [];
      assert head + (EdgeTargets(a[1..]) + EdgeTargets(b)) == (head + EdgeTargets(a[1..])) + EdgeTargets(b);
    }
  }

  lemma {:induction false} IdsOfNode(t: CallNode, id: nat)
    ensures NodeIds(NodeLines(t, id)) == Range(id, CountNodes(t))
    decreases t, 1
  {
    IdsConcat([NodeLine(id, t.contractId, t.func)], ChildLines(id, t.children, id + 1));
    IdsOfChildren(id, t.children, id + 1);
  }

  lemma {:induction false} IdsOfChildren(parent: nat, ts: seq<CallNode>, next: nat)
    ensures NodeIds(ChildLines(parent, ts, next)) == Range(next, CountAll(ts))
    decreases ts, 0
  {
    if ts != [] {
      var split := next + CountNodes(ts[0]);
      IdsOfNode(ts[0], next);
      IdsOfChildren(parent, ts[1..], split);
      IdsConcat([Edge(parent, next)], NodeLines(ts[0], next));
      assert NodeIds([Edge(parent, next)]) == [];
      IdsConcat([Edge(parent, next)] + NodeLines(ts[0], next), ChildLines(parent, ts[1..], split));
    }
  }

  lemma {:induction false} TargetsOfNode(t: CallNode, id: nat)
    ensures EdgeTargets(NodeLines(t, id)) == Range(id + 1, CountNodes(t) - 1)
    decreases t, 1
  {
    TargetsConcat([NodeLine(id, t.contractId, t.func)], ChildLines(id, t.children, id + 1));
    TargetsOfChildren(id, t.children, id + 1);
  }

  lemma {:induction false} TargetsOfChildren(parent: nat, ts: seq<CallNode>, next: nat)
    ensures EdgeTargets(ChildLines(parent, ts, next)) == Range(next, CountAll(ts))
    decreases ts, 0
  {
    if ts != [] {
      var split := next + CountNodes(ts[0]);
      TargetsOfNode(ts[0], next);
      TargetsOfChildren(parent, ts[1..], split);
      TargetsConcat([Edge(parent, next)], NodeLines(ts[0], next));
      assert EdgeTargets([Edge(parent, next)]) == [next];
      TargetsConcat([Edge(parent, next)] + NodeLines(ts[0], next), ChildLines(parent, ts[1..], split));
    }
  }

  // ---- Which lines belong to which part ------------------------------------------------------

  /** The node a line is about: the node itself, or the caller of an arrow. */
  function Owner(l: Line): nat {
    if l.NodeLine? then l.id else l.from
  }

  lemma {:induction false} LinesOfNode(t: CallNode, id: nat, l: Line)
    requires l in NodeLines(t, id)
    ensures id <= Owner(l) < id + CountNodes(t)
    ensures l.Edge? ==> l.from < l.to < id + CountNodes(t)
    ensures l.NodeLine? && l.id == id ==> l == NodeLine(id, t.contractId, t.func)
    decreases t, 1
  {
    if l in ChildLines(id, t.children, id + 1) {
      LinesOfChildren(id, t.children, id + 1, l);
    }
  }

  lemma {:induction false} LinesOfChildren(parent: nat, ts: seq<CallNode>, next: nat, l: Line)
    requires l in ChildLines(parent, ts, next) && parent < next
    ensures next <= Owner(l) < next + CountAll(ts)
         || (l.Edge? && l.from == parent && next <= l.to < next + CountAll(ts))
    ensures l.Edge? ==> l.from < l.to < next + CountAll(ts)
    decreases ts, 0
  {
    if l in NodeLines(ts[0], next) {
      LinesOfNode(ts[0], next, l);
    } else if l != Edge(parent, next) {
      LinesOfChildren(parent, ts[1..], next + CountNodes(ts[0]), l);
    }
  }

  /** Reading the numbering: the shared counter gives the ids 0, 1, ..., total - 1 in preorder, each
      once; the total - 1 arrows lead to 1, 2, ..., total - 1, so every node but the root has exactly
      one caller; and the caller's id is smaller. */
  lemma {:induction false} NumberingIsPreorder(root: CallNode)
    ensures NodeIds(NodeLines(root, 0)) == Range(0, CountNodes(root))
    ensures EdgeTargets(NodeLines(root, 0)) == Range(1, CountNodes(root) - 1)
    ensures forall l :: l in NodeLines(root, 0) && l.Edge? ==> l.from < l.to
  {
    IdsOfNode(root, 0);
    TargetsOfNode(root, 0);
    forall l | l in NodeLines(root, 0) && l.Edge? ensures l.from < l.to {
      LinesOfNode(root, 0, l);
    }
  }

  // ---- The drawing determines the tree -------------------------------------------------------

  /** The same lines, in whatever order and however often. */
  ghost predicate SameDrawing(a: seq<Line>, b: seq<Line>) {
    forall l :: l in a <==> l in b
  }

  /** Which of the children's lines are those of the first child, and which those of the others. */
  lemma {:induction false} PartsOfChildren(parent: nat, ts: seq<CallNode>, next: nat, l: Line)
    requires ts != [] && parent < next
    ensures var split := next + CountNodes(ts[0]);
      && (l in NodeLines(ts[0], next) <==> l in ChildLines(parent, ts, next) && next <= Owner(l) < split)
      && (l in ChildLines(parent, ts[1..], split) <==>
            l in ChildLines(parent, ts, next) && (split <= Owner(l) || (l.Edge? && l.from == parent && split <= l.to)))
  {
    var split := next + CountNodes(ts[0]);
    if l in NodeLines(ts[0], next) {
      LinesOfNode(ts[0], next, l);
    }
    if l in ChildLines(parent, ts[1..], split) {
      LinesOfChildren(parent, ts[1..], split, l);
    }
  }

  /** Arrows from the parent lead to the first child or beyond its whole subtree. */
  lemma {:induction false} ArrowsOfParent(parent: nat, ts: seq<CallNode>, next: nat, x: nat)
    requires ts != [] && parent < next && Edge(parent, x) in ChildLines(parent, ts, next)
    ensures x == next || x >= next + CountNodes(ts[0])
  {
    PartsOfChildren(parent, ts, next, Edge(parent, x));
    if Edge(parent, x) in ChildLines(parent, ts[1..], next + CountNodes(ts[0])) {
      LinesOfChildren(parent, ts[1..], next + CountNodes(ts[0]), Edge(parent, x));
    }
  }

  lemma {:induction false} LineOfId(lines: seq<Line>, k: nat) returns (l: Line)
    requires k < |NodeIds(lines)|
    ensures l in lines && l.NodeLine? && l.id == NodeIds(lines)[k]
    decreases |lines|
  {
    if lines[0].NodeLine? && k == 0 {
      l := lines[0];
    } else {
      l := LineOfId(lines[1..], if lines[0].NodeLine? then k - 1 else k);
    }
  }

  lemma {:induction false} SecondChildArrow(parent: nat, ts: seq<CallNode>, next: nat)
    requires |ts| > 1 && parent < next
    ensures Edge(parent, next + CountNodes(ts[0])) in ChildLines(parent, ts, next)
  {
    var split := next + CountNodes(ts[0]);
    assert Edge(parent, split) in ChildLines(parent, ts[1..], split);
  }

  lemma {:induction false} LastOfFirstChild(parent: nat, ts: seq<CallNode>, next: nat) returns (l: Line)
    requires ts != []
    ensures l in ChildLines(parent, ts, next)
    ensures l.NodeLine? && l.id == next + CountNodes(ts[0]) - 1
  {
    IdsOfNode(ts[0], next);
    l := LineOfId(NodeLines(ts[0], next), CountNodes(ts[0]) - 1);
  }

  lemma {:induction false} SecondArrowBounds(parent: nat, ds: seq<CallNode>, next: nat, size: nat)
    requires ds != [] && parent < next && size > 0
    requires Edge(parent, next + size) in ChildLines(parent, ds, next)
    ensures CountNodes(ds[0]) <= size
  {
    ArrowsOfParent(parent, ds, next, next + size);
  }

  lemma {:induction false} LastNodeBounds(parent: nat, cs: seq<CallNode>, next: nat, last: Line)
    requires |cs| == 1 && parent < next && last.NodeLine?
    requires last in ChildLines(parent, cs, next)
    ensures last.id < next + CountNodes(cs[0])
  {
    LinesOfChildren(parent, cs, next, last);
    assert CountAll(cs[1..]) == 0;
  }

  /** The size of the first child can be read off the drawing: the second child's number, or the last
      number used when there is none, comes right after it. */
  lemma {:induction false} FirstChildNoLarger(parent: nat, cs: seq<CallNode>, ds: seq<CallNode>, next: nat)
    requires cs != [] && ds != [] && parent < next
    requires SameDrawing(ChildLines(parent, cs, next), ChildLines(parent, ds, next))
    ensures CountNodes(ds[0]) <= CountNodes(cs[0])
  {
    var mine, other := ChildLines(parent, cs, next), ChildLines(parent, ds, next);
    if |cs| > 1 {
      SecondChildArrow(parent, cs, next);
      var arrow := Edge(parent, next + CountNodes(cs[0]));
      assert arrow in mine && arrow in other;
      SecondArrowBounds(parent, ds, next, CountNodes(cs[0]));
    } else {
      var last := LastOfFirstChild(parent, ds, next);
      assert last in other && last in mine;
      LastNodeBounds(parent, cs, next, last);
    }
  }

  lemma {:induction false} SameDrawingSameNode(a: CallNode, b: CallNode, id: nat)
    requires SameDrawing(NodeLines(a, id), NodeLines(b, id))
    ensures a == b
    decreases a, 1
  {
    var top := NodeLine(id, a.contractId, a.func);
    assert top in NodeLines(a, id);
    LinesOfNode(b, id, top);
    var next := id + 1;
    forall l ensures l in ChildLines(id, a.children, next) <==> l in ChildLines(id, b.children, next) {
      if l in ChildLines(id, a.children, next) {
        LinesOfChildren(id, a.children, next, l);
        assert l in NodeLines(a, id);
      }
      if l in ChildLines(id, b.children, next) {
        LinesOfChildren(id, b.children, next, l);
        assert l in NodeLines(b, id);
      }
    }
    SameDrawingSameChildren(id, a.children, b.children, next);
  }

  lemma {:induction false} SameDrawingSameChildren(parent: nat, cs: seq<CallNode>, ds: seq<CallNode>, next: nat)
    requires parent < next
    requires SameDrawing(ChildLines(parent, cs, next), ChildLines(parent, ds, next))
    ensures cs == ds
    decreases cs, 0
  {
    if cs == [] || ds == [] {
      assert Edge(parent, next) in ChildLines(parent, cs, next) <==> cs != [];
      assert Edge(parent, next) in ChildLines(parent, ds, next) <==> ds != [];
    } else {
      FirstChildNoLarger(parent, cs, ds, next);
      FirstChildNoLarger(parent, ds, cs, next);
      var split := next + CountNodes(cs[0]);
      forall l ensures l in NodeLines(cs[0], next) <==> l in NodeLines(ds[0], next) {
        PartsOfChildren(parent, cs, next, l);
        PartsOfChildren(parent, ds, next, l);
      }
      forall l ensures l in ChildLines(parent, cs[1..], split) <==> l in ChildLines(parent, ds[1..], split) {
        PartsOfChildren(parent, cs, next, l);
        PartsOfChildren(parent, ds, next, l);
      }
      SameDrawingSameNode(cs[0], ds[0], next);
      SameDrawingSameChildren(parent, cs[1..], ds[1..], split);
      assert cs == [cs[0]] + cs[1..] && ds == [ds[0]] + ds[1..];
    }
  }

  /** The diagram loses nothing: from its nodes and arrows alone, in any order, the ordered call tree
      can be told from every other one. */
  lemma {:induction false} DrawingDeterminesTree(a: CallNode, b: CallNode)
    ensures SameDrawing(NodeLines(a, 0), NodeLines(b, 0)) <==> a == b
  {
    if SameDrawing(NodeLines(a, 0), NodeLines(b, 0)) {
      SameDrawingSameNode(a, b, 0);
    }
  }
}
