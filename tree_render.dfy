/**
 * `print_module_tree` / `print_modules` of src/parser/structure.rs, with the
 * printed text returned as a sequence of lines: a line "crate <name>", then
 * one line per node below the root in preorder, each made of one connector
 * per ancestor, a branch mark and the node's label.
 */
module TreeRender {
  import opened Syntax
  import opened Structure

  /** The 4-character connector printed for one ancestor. */
  function Connector(lastAncestor: bool): string
  {
    if lastAncestor then "    " else "│   "
  }

  /** The connectors printed for a sequence of "is last sibling" flags. */
  function Connectors(ancestors: seq<bool>): (s: string)
    ensures |s| == 4 * |ancestors|
  {
    if ancestors == [] then []
    else Connectors(ancestors[..|ancestors| - 1]) + Connector(ancestors[|ancestors| - 1])
  }

  /** Connectors of two flag sequences in a row are the two in a row. */
  lemma {:induction false} ConnectorsConcat(a: seq<bool>, b: seq<bool>)
    ensures Connectors(a + b) == Connectors(a) + Connectors(b)
    decreases |b|
  {
    if b == [] {
      assert a + b == a;
    } else {
      var n := |b| - 1;
      var x, y, z := Connectors(a), Connectors(b[..n]), Connector(b[n]);
      DropLast(a, b);
      ConnectorsConcat(a, b[..n]);
      assert (x + y) + z == x + (y + z);
    }
  }

  /** Ancestor i contributes the 4 characters at offset 4 * i: "    " when it
      was a last sibling and "│   " otherwise, between the connectors of the
      ancestors before and after it. */
  lemma ConnectorSlots(ancestors: seq<bool>)
    ensures forall i :: 0 <= i < |ancestors| ==>
      |Connectors(ancestors[..i])| == 4 * i &&
      Connectors(ancestors) == Connectors(ancestors[..i]) + Connector(ancestors[i]) + Connectors(ancestors[i + 1..])
  {
    forall i | 0 <= i < |ancestors|
      ensures Connectors(ancestors) == Connectors(ancestors[..i]) + Connector(ancestors[i]) + Connectors(ancestors[i + 1..])
    {
      SplitAround(ancestors, i);
      ConnectorSlot(ancestors[..i], ancestors[i], ancestors[i + 1..]);
    }
  }

  /** A sequence is what comes before position i, the element at i, and what comes after. */
  lemma SplitAround<T>(s: seq<T>, i: nat)
    requires i < |s|
    ensures s[..i] + [s[i]] + s[i + 1..] == s
  {
    assert s[..i] + [s[i]] == s[..i + 1];
  }

  lemma ConnectorSlot(pre: seq<bool>, x: bool, post: seq<bool>)
    ensures Connectors(pre + [x] + post) == Connectors(pre) + Connector(x) + Connectors(post)
  {
    ConnectorsConcat(pre + [x], post);
    ConnectorsSnoc(pre, x);
  }

  lemma ConnectorsSnoc(a: seq<bool>, x: bool)
    ensures Connectors(a + [x]) == Connectors(a) + Connector(x)
  {
    DropLast(a, [x]);
  }

  /** Dropping the last element of a + b, for a non-empty b. */
  lemma DropLast<T>(a: seq<T>, b: seq<T>)
    requires b != []
    ensures (a + b)[..|a + b| - 1] == a + b[..|b| - 1] && (a + b)[|a + b| - 1] == b[|b| - 1]
  {
  }

  /** The branch mark before a node's label. */
  function Branch(isLast: bool): string
  {
    if isLast then "└── " else "├── "
  }

  /** The label of a node, by kind. */
  function NodeInfo(n: Node): string
  {
    if n.kind == "mod" then "mod " + n.name
    else if n.kind == "struct" then "struct " + n.name
    else if n.kind == "enum" then "enum " + n.name
    else if n.kind == "function" || n.kind == "method" then "fn " + (if n.isAsync then "async " else "") + n.name
    else n.name
  }

  /** ": <visibility>", left out for private nodes. */
  function VisibilitySuffix(visibility: string): string
  {
    if visibility != "private" then ": " + visibility else ""
  }

  /** What follows the branch mark on a node's line. */
  function NodeText(n: Node): string
  {
    NodeInfo(n) + VisibilitySuffix(n.visibility)
  }

  function NodeLine(n: Node, ancestors: seq<bool>, isLast: bool): string
  {
    Connectors(ancestors) + Branch(isLast) + NodeText(n)
  }

  /** The lines of one node and of everything below it. */
  function RenderNode(n: Node, ancestors: seq<bool>, isLast: bool): seq<string>
    decreases n, 0, 0
  {
    [NodeLine(n, ancestors, isLast)] + RenderModules(n.children, ancestors + [isLast])
  }

  /** The lines of the first `i` of `modules`, a list of siblings. */
  function RenderPrefix(modules: seq<Node>, i: nat, ancestors: seq<bool>): seq<string>
    requires i <= |modules|
    decreases modules, 1, i
  {
    if i == 0 then []
    else RenderPrefix(modules, i - 1, ancestors) + RenderNode(modules[i - 1], ancestors, i - 1 == |modules| - 1)
  }

  /** `print_modules(modules, ancestors)` */
  function RenderModules(modules: seq<Node>, ancestors: seq<bool>): seq<string>
    decreases modules, 2, 0
  {
    RenderPrefix(modules, |modules|, ancestors)
  }

  /** `print_module_tree(root)` */
  function TreeLines(root: Node): seq<string>
  {
    ["crate " + root.name] + RenderModules(root.children, [])
  }

  /** The nodes of a forest in preorder: each node, then its descendants. */
  function Preorder(modules: seq<Node>): seq<Node>
    decreases modules, 1
  {
    if modules == [] then []
    else Preorder(modules[..|modules| - 1]) + PreorderNode(modules[|modules| - 1])
  }

  function PreorderNode(n: Node): seq<Node>
    decreases n, 0
  {
    [n] + Preorder(n.children)
  }

  predicate EndsWith(s: string, suffix: string)
  {
    |suffix| <= |s| && s[|s| - |suffix|..] == suffix
  }

  /** The "is last sibling" flags of every node of a list of siblings, in
      preorder: for each node, the flags of its ancestors (starting with
      `ancestors`) followed by its own. */
  ghost function Places(modules: seq<Node>, ancestors: seq<bool>): seq<seq<bool>>
    decreases modules, 2, 0
  {
    PlacesPrefix(modules, |modules|, ancestors)
  }

  ghost function PlacesPrefix(modules: seq<Node>, i: nat, ancestors: seq<bool>): seq<seq<bool>>
    requires i <= |modules|
    decreases modules, 1, i
  {
    if i == 0 then []
    else PlacesPrefix(modules, i - 1, ancestors) + PlacesNode(modules[i - 1], ancestors + [i - 1 == |modules| - 1])
  }

  ghost function PlacesNode(n: Node, flags: seq<bool>): seq<seq<bool>>
    decreases n, 0, 0
  {
    [flags] + Places(n.children, flags)
  }

  /** The line of a node whose flags are `flags`: one connector for each
      ancestor, then the branch mark its own flag selects, then its label. */
  function PlacedLine(n: Node, flags: seq<bool>): string
    requires flags != []
  {
    Connectors(flags[..|flags| - 1]) + Branch(flags[|flags| - 1]) + NodeText(n)
  }

  /** The k-th line belongs to the k-th node in preorder, placed by the k-th
      flag sequence, which extends the flags the whole list shares. */
  ghost predicate LinesMatch(lines: seq<string>, nodes: seq<Node>, places: seq<seq<bool>>, ancestors: seq<bool>)
  {
    |lines| == |nodes| && |places| == |nodes| &&
    forall k :: 0 <= k < |lines| ==>
      |ancestors| < |places[k]| && places[k][..|ancestors|] == ancestors &&
      lines[k] == PlacedLine(nodes[k], places[k])
  }

  lemma {:induction false} RenderNodeMatches(n: Node, ancestors: seq<bool>, isLast: bool)
    ensures var flags := ancestors + [isLast];
      LinesMatch(RenderNode(n, ancestors, isLast), PreorderNode(n), PlacesNode(n, flags), ancestors)
    decreases n, 0, 0
  {
    var below := ancestors + [isLast];
    RenderModulesMatch(n.children, below);
    assert below[..|below| - 1] == ancestors;
    var lines := RenderNode(n, ancestors, isLast);
    var nodes := PreorderNode(n);
    var places := PlacesNode(n, below);
    forall k | 0 <= k < |lines|
      ensures |ancestors| < |places[k]| && places[k][..|ancestors|] == ancestors &&
        lines[k] == PlacedLine(nodes[k], places[k])
    {
      if k > 0 {
        ExtendsFlags(places[k], ancestors, isLast);
      }
    }
  }

  /** Flags extending `ancestors + [isLast]` extend `ancestors`. */
  lemma ExtendsFlags(f: seq<bool>, ancestors: seq<bool>, isLast: bool)
    requires |ancestors| + 1 < |f| && f[..|ancestors| + 1] == ancestors + [isLast]
    ensures |ancestors| < |f| && f[..|ancestors|] == ancestors
  {
    assert f[..|ancestors|] == f[..|ancestors| + 1][..|ancestors|];
  }

  lemma {:induction false} RenderPrefixMatches(modules: seq<Node>, i: nat, ancestors: seq<bool>)
    requires i <= |modules|
    ensures LinesMatch(RenderPrefix(modules, i, ancestors), Preorder(modules[..i]), PlacesPrefix(modules, i, ancestors), ancestors)
    decreases modules, 1, i
  {
    if i > 0 {
      var isLast := i - 1 == |modules| - 1;
      RenderPrefixMatches(modules, i - 1, ancestors);
      RenderNodeMatches(modules[i - 1], ancestors, isLast);
      assert modules[..i][..i - 1] == modules[..i - 1];
      var a := RenderPrefix(modules, i - 1, ancestors);
      var b := RenderNode(modules[i - 1], ancestors, isLast);
      var na := Preorder(modules[..i - 1]);
      var nb := PreorderNode(modules[i - 1]);
      var pa := PlacesPrefix(modules, i - 1, ancestors);
      var pb := PlacesNode(modules[i - 1], ancestors + [isLast]);
      assert Preorder(modules[..i]) == na + nb;
      forall k | 0 <= k < |a| + |b|
        ensures |ancestors| < |(pa + pb)[k]| && (pa + pb)[k][..|ancestors|] == ancestors &&
          (a + b)[k] == PlacedLine((na + nb)[k], (pa + pb)[k])
      {
        if k >= |a| {
          assert (a + b)[k] == b[k - |a|] && (na + nb)[k] == nb[k - |a|] && (pa + pb)[k] == pb[k - |a|];
        }
      }
    }
  }

  /** `print_modules` prints one line per node of the forest, in preorder,
      each made of its own connectors, branch mark and label. */
  lemma RenderModulesMatch(modules: seq<Node>, ancestors: seq<bool>)
    ensures LinesMatch(RenderModules(modules, ancestors), Preorder(modules), Places(modules, ancestors), ancestors)
    decreases modules, 2, 0
  {
    RenderPrefixMatches(modules, |modules|, ancestors);
    assert modules[..|modules|] == modules;
  }

  /** The printed tree: "crate <name>", then exactly one line per node below
      the root in preorder, each ending in that node's label and suffix. */
  lemma TreeLinesShape(root: Node)
    ensures var lines := TreeLines(root);
      |lines| == 1 + |Preorder(root.children)| &&
      lines[0] == "crate " + root.name &&
      |Places(root.children, [])| == |Preorder(root.children)| &&
      forall k :: 1 <= k < |lines| ==>
        var n := Preorder(root.children)[k - 1];
        var flags := Places(root.children, [])[k - 1];
        flags != [] && lines[k] == PlacedLine(n, flags) && EndsWith(lines[k], NodeText(n))
  {
    RenderModulesMatch(root.children, []);
    var lines := TreeLines(root);
    forall k | 1 <= k < |lines|
      ensures var n := Preorder(root.children)[k - 1];
        var flags := Places(root.children, [])[k - 1];
        flags != [] && lines[k] == PlacedLine(n, flags) && EndsWith(lines[k], NodeText(n))
    {
      TreeLineAt(root, k);
    }
  }

  /** Line k >= 1 of the printed tree. */
  lemma TreeLineAt(root: Node, k: nat)
    requires 1 <= k < |TreeLines(root)|
    ensures |Places(root.children, [])| == |Preorder(root.children)| == |TreeLines(root)| - 1
    ensures var n := Preorder(root.children)[k - 1];
      var flags := Places(root.children, [])[k - 1];
      flags != [] && TreeLines(root)[k] == PlacedLine(n, flags) && EndsWith(TreeLines(root)[k], NodeText(n))
  {
    var lines := RenderModules(root.children, []);
    var nodes := Preorder(root.children);
    var places := Places(root.children, []);
    assert LinesMatch(lines, nodes, places, []) by {
      RenderModulesMatch(root.children, []);
    }
    LinesMatchAt(lines, nodes, places, [], k - 1);
    assert TreeLines(root)[k] == lines[k - 1];
    PlacedLineEnds(nodes[k - 1], places[k - 1]);
  }

  lemma LinesMatchAt(lines: seq<string>, nodes: seq<Node>, places: seq<seq<bool>>, ancestors: seq<bool>, j: nat)
    requires LinesMatch(lines, nodes, places, ancestors) && j < |lines|
    ensures |places| == |nodes| == |lines| && places[j] != [] && lines[j] == PlacedLine(nodes[j], places[j])
  {
  }

  lemma PlacedLineEnds(n: Node, flags: seq<bool>)
    requires flags != []
    ensures EndsWith(PlacedLine(n, flags), NodeText(n))
  {
    var head := Connectors(flags[..|flags| - 1]) + Branch(flags[|flags| - 1]);
    var line := PlacedLine(n, flags);
    assert line == head + NodeText(n);
    assert line[|line| - |NodeText(n)|..] == NodeText(n);
  }

  /** The `i`-th of a list of siblings is printed, after the connectors of its
      ancestors, with "└── " when it is the last one and "├── " otherwise,
      and the line after it opens its own subtree. */
  lemma {:induction false} SiblingLine(modules: seq<Node>, i: nat, ancestors: seq<bool>)
    requires i < |modules|
    ensures var lines := RenderModules(modules, ancestors);
      var at := |RenderPrefix(modules, i, ancestors)|;
      at < |lines| &&
      lines[at] == Connectors(ancestors) + (if i == |modules| - 1 then "└── " else "├── ") + NodeText(modules[i])
  {
    RenderPrefixSplit(modules, i + 1, |modules|, ancestors);
    var head := RenderPrefix(modules, i + 1, ancestors);
    assert head == RenderPrefix(modules, i, ancestors) + RenderNode(modules[i], ancestors, i == |modules| - 1);
  }

  /** The lines of a longer prefix of siblings extend those of a shorter one. */
  lemma {:induction false} RenderPrefixSplit(modules: seq<Node>, i: nat, j: nat, ancestors: seq<bool>)
    requires i <= j <= |modules|
    ensures RenderPrefix(modules, i, ancestors) <= RenderPrefix(modules, j, ancestors)
    decreases j
  {
    if i < j {
      RenderPrefixSplit(modules, i, j - 1, ancestors);
    }
  }

  /** `print_modules`: a loop over the siblings that prints each node's line
      and then recurses on its children with the extended ancestor flags. */
  method PrintModules(modules: seq<Node>, ancestors: seq<bool>) returns (lines: seq<string>)
    ensures lines == RenderModules(modules, ancestors)
    decreases modules
  {
    lines := [];
    for idx := 0 to |modules|
      invariant lines == RenderPrefix(modules, idx, ancestors)
    {
      var node := modules[idx];
      var isLast := idx == |modules| - 1;
      var line := "";
      for a := 0 to |ancestors|
        invariant line == Connectors(ancestors[..a])
      {
        assert ancestors[..a + 1][..a] == ancestors[..a];
        if ancestors[a] {
          line := line + "    ";
        } else {
          line := line + "│   ";
        }
      }
      assert ancestors[..|ancestors|] == ancestors;
      var prefix := if isLast then "└── " else "├── ";
      var visibilitySuffix := if node.visibility != "private" then ": " + node.visibility else "";
      line := line + prefix + NodeInfo(node) + visibilitySuffix;
      var childAncestors := ancestors + [isLast];
      assert prefix == Branch(isLast);
      assert line == NodeLine(node, ancestors, isLast);
      var childLines := PrintModules(node.children, childAncestors);
      lines := lines + [line] + childLines;
      assert lines == RenderPrefix(modules, idx, ancestors) + RenderNode(node, ancestors, isLast);
    }
  }

  /** `print_module_tree` */
  method PrintModuleTree(root: Node) returns (lines: seq<string>)
    ensures lines == TreeLines(root)
  {
    var rest := PrintModules(root.children, []);
    lines := ["crate " + root.name] + rest;
  }

  /** The visibility suffix is left out exactly for items written without a
      visibility. */
  lemma SuffixOmittedIffPrivate(vis: Vis)
    ensures VisibilitySuffix(GetVisibility(vis)) == "" <==> vis.Inherited?
  {
  }

  /** A small crate printed in full. */
  lemma PrintedExample()
    ensures TreeLines(Node("demo", "crate", "pub", false, [ExampleFoo(), ExampleRun()], [CurDir])) ==
        [ "crate demo",
          "├── mod foo: pub(crate)",
          "│   └── struct Bar: pub",
          "│       └── fn async baz",
          "└── fn run" ]
  {
    ExampleFooLines();
    ExampleRunLines();
    var ms := [ExampleFoo(), ExampleRun()];
    assert RenderPrefix(ms, 0, []) == [];
    assert RenderPrefix(ms, 1, []) == RenderNode(ExampleFoo(), [], false);
    assert RenderPrefix(ms, 2, []) == RenderPrefix(ms, 1, []) + RenderNode(ExampleRun(), [], true);
    assert RenderModules(ms, []) == RenderNode(ExampleFoo(), [], false) + RenderNode(ExampleRun(), [], true);
    assert "crate " + "demo" == "crate demo";
  }

  function ExampleBaz(): Node { Node("baz", "method", "private", true, [], [CurDir]) }
  function ExampleBar(): Node { Node("Bar", "struct", "pub", false, [ExampleBaz()], [CurDir]) }
  function ExampleFoo(): Node { Node("foo", "mod", "pub(crate)", false, [ExampleBar()], [CurDir]) }
  function ExampleRun(): Node { Node("run", "function", "private", false, [], [CurDir]) }

  lemma ExampleBazLines()
    ensures RenderModules([ExampleBaz()], [false, true]) == ["│       └── fn async baz"]
  {
    assert [false, true][..1] == [false];
    assert Connectors([false, true]) == "│       ";
    assert NodeText(ExampleBaz()) == "fn async baz";
    assert RenderModules([], [false, true, true]) == [];
    assert Branch(true) == "└── ";
    assert NodeLine(ExampleBaz(), [false, true], true) == "│       " + "└── " + "fn async baz";
    assert "│       " + "└── " == "│       └── ";
    assert "│       └── " + "fn async baz" == "│       └── fn async baz";
    assert RenderNode(ExampleBaz(), [false, true], true) == [NodeLine(ExampleBaz(), [false, true], true)] + [];
    assert RenderPrefix([ExampleBaz()], 0, [false, true]) == [];
  }

  lemma ExampleBarLine()
    ensures NodeLine(ExampleBar(), [false], true) == "│   └── struct Bar: pub"
  {
    assert [false][..0] == [];
    assert Connectors([false]) == "│   ";
    assert NodeText(ExampleBar()) == "struct Bar: pub";
  }

  lemma ExampleBarLines()
    ensures RenderModules([ExampleBar()], [false]) == ["│   └── struct Bar: pub", "│       └── fn async baz"]
  {
    ExampleBazLines();
    ExampleBarLine();
    assert [false] + [true] == [false, true];
    var below := RenderModules([ExampleBaz()], [false, true]);
    var node := RenderNode(ExampleBar(), [false], true);
    assert node == [NodeLine(ExampleBar(), [false], true)] + below;
    assert RenderPrefix([ExampleBar()], 0, [false]) == [];
    assert RenderModules([ExampleBar()], [false]) == node;
  }

  lemma ExampleFooLines()
    ensures RenderNode(ExampleFoo(), [], false) ==
      ["├── mod foo: pub(crate)", "│   └── struct Bar: pub", "│       └── fn async baz"]
  {
    ExampleBarLines();
    assert NodeText(ExampleFoo()) == "mod foo: pub(crate)";
    assert NodeLine(ExampleFoo(), [], false) == "├── mod foo: pub(crate)";
  }

  lemma ExampleRunLines()
    ensures RenderNode(ExampleRun(), [], true) == ["└── fn run"]
  {
    assert NodeText(ExampleRun()) == "fn run";
    assert NodeLine(ExampleRun(), [], true) == "└── fn run";
    assert RenderModules([], [true]) == [];
    assert RenderNode(ExampleRun(), [], true) == [NodeLine(ExampleRun(), [], true)] + [];
  }
}
