/**
  `buildTaskTree` of lib/roadmap-parser.ts: one pass over the lines that classifies each line,
  folds indented continuation lines into the description of the latest node, and links every node
  under its parent with a stack of open ancestors.

  The source links node objects by reference and later appends to the description of a node that
  is already linked. The model keeps the nodes in an arena (`nodes`, indexed by creation order),
  the children lists as index lists (`kids`, `roots`) and the stack and `lastTask` as indices, so
  an update through `lastTask` is visible wherever that node is linked; the returned forest is
  assembled from the arena at the end.
*/
module RoadmapTree {
  import opened JsText
  import opened RoadmapTypes
  import opened RoadmapLines
  import opened RoadmapTaskLine
  import opened RoadmapStats
  import opened RoadmapForest

  /** A line is tried as a task first and as a category second. */
  function LineNode(line: string, index: nat): (r: Option<RoadmapTask>)
    ensures r.Some? ==> r.value.id.line == index && r.value.children == []
    ensures r.Some? && r.value.isCategory ==> TaskLine(line, index).None?
  {
    match TaskLine(line, index)
    case Some(t) => Some(t)
    case None => ParseCategoryLine(line, index)
  }

  /**
    The test a line that is no node must pass to continue the description of `last`: it is not
    blank, it starts with white space followed by a non-space, and it is indented deeper than two
    columns per level of `last`.
  */
  predicate Continues(last: RoadmapTask, line: string)
  {
    var indent := LeadingSpaces(line);
    && !AllSpaces(line)
    && 0 < indent < |line|
    && indent > last.level * 2
  }

  /** Appends a continuation text to a node's description, on a line of its own when there is one. */
  function AppendDescription(t: RoadmapTask, text: string): (r: RoadmapTask)
    ensures r.(description := t.description) == t
    ensures r.description.Some?
  {
    match t.description
    case Some(d) => if d != [] then t.(description := Some(d + "\n" + text)) else t.(description := Some(text))
    case None => t.(description := Some(text))
  }

  /** The node sequence after one more line. */
  function Step(ns: seq<RoadmapTask>, line: string, index: nat): seq<RoadmapTask>
  {
    match LineNode(line, index)
    case Some(t) => ns + [t]
    case None =>
      if ns != [] && Continues(ns[|ns| - 1], line) then
        ns[..|ns| - 1] + [AppendDescription(ns[|ns| - 1], Trim(line))]
      else ns
  }

  /** The nodes of the first `n` lines, in line order, with their continuation lines folded in. */
  function Nodes(lines: seq<string>, n: nat): seq<RoadmapTask>
    requires n <= |lines|
  {
    if n == 0 then [] else Step(Nodes(lines, n - 1), lines[n - 1], n - 1)
  }

  /** The children table and root list of the arena are the ones the levels determine. */
  predicate TableOk(lv: seq<nat>, kids: seq<seq<nat>>, roots: seq<nat>)
  {
    && |kids| == |lv|
    && (forall j :: 0 <= j < |lv| ==> kids[j] == ChildrenIn(lv, j, 0, |lv|))
    && roots == ChildrenIn(lv, -1, 0, |lv|)
  }

  /** Linking a new node of level `x` under its parent `q` (or as a root) keeps the table right. */
  lemma LinkOk(lv: seq<nat>, x: nat, kids: seq<seq<nat>>, roots: seq<nat>, q: int, lv2: seq<nat>, kids2: seq<seq<nat>>, roots2: seq<nat>)
    requires TableOk(lv, kids, roots) && lv2 == lv + [x] && q == Parent(lv2, |lv|)
    requires q == -1 ==> kids2 == kids + [[]] && roots2 == roots + [|lv|]
    requires q != -1 ==> kids2 == (kids + [[]])[q := kids[q] + [|lv|]] && roots2 == roots
    ensures TableOk(lv2, kids2, roots2)
  {
    var n := |lv|;
    assert lv2[..n] == lv;
    forall j | 0 <= j < n + 1 ensures kids2[j] == ChildrenIn(lv2, j, 0, n + 1) {
      LinkKid(lv, x, kids, roots, q, lv2, kids2, j);
    }
    ChildrenSnoc(lv2, -1, 0, n);
    ChildrenPrefix(lv, lv2, -1, 0, n);
  }

  /** After linking, the children list of node `j` is still the one the levels determine. */
  lemma LinkKid(lv: seq<nat>, x: nat, kids: seq<seq<nat>>, roots: seq<nat>, q: int, lv2: seq<nat>, kids2: seq<seq<nat>>, j: nat)
    requires TableOk(lv, kids, roots) && lv2 == lv + [x] && q == Parent(lv2, |lv|)
    requires q == -1 ==> kids2 == kids + [[]]
    requires q != -1 ==> kids2 == (kids + [[]])[q := kids[q] + [|lv|]]
    requires j <= |lv|
    ensures kids2[j] == ChildrenIn(lv2, j, 0, |lv| + 1)
  {
    var n := |lv|;
    ParentIsNearestSmaller(lv2, n);
    LinkEntry(kids, q, kids2, j);
    if j < n {
      assert lv2[..n] == lv;
      ChildrenSnoc(lv2, j, 0, n);
      ChildrenPrefix(lv, lv2, j, 0, n);
      assert kids[j] == ChildrenIn(lv, j, 0, n);
    } else {
      NoChildrenBefore(lv2, n);
    }
  }

  /** The entry of node `j` in the table after linking node `|kids|` under `q`. */
  lemma LinkEntry(kids: seq<seq<nat>>, q: int, kids2: seq<seq<nat>>, j: nat)
    requires -1 <= q < |kids| && j <= |kids|
    requires q == -1 ==> kids2 == kids + [[]]
    requires q != -1 ==> kids2 == (kids + [[]])[q := kids[q] + [|kids|]]
    ensures j == |kids| ==> kids2[j] == []
    ensures j < |kids| ==> kids2[j] == kids[j] + (if q == j then [|kids|] else [])
  {
  }

  /** The search for the new node's parent starts from the top of the stack. */
  lemma PopStart(lv: seq<nat>, x: nat)
    ensures var lv2 := lv + [x];
      SpineOf(lv2, |lv| - 1) == SpineOf(lv, |lv| - 1)
      && NearestBelow(lv2, x, |lv|) == NearestBelow(lv2, x, (|lv| - 1) + 1)
  {
    var lv2 := lv + [x];
    assert lv2[..|lv|] == lv;
    SpinePrefix(lv, lv2, |lv| - 1);
  }

  /** Once the pops stop, the top of the stack is the new node's parent. */
  lemma PopEnd(lv: seq<nat>, k: nat, top: int)
    requires k < |lv| && -1 <= top < k
    requires NearestBelow(lv, lv[k], k) == NearestBelow(lv, lv[k], top + 1)
    requires top >= 0 ==> lv[top] < lv[k]
    ensures Parent(lv, k) == top
  {
  }

  /** A line that is neither a task nor a category leaves the levels, and so the shape, alone. */
  lemma StepKeepsLevels(ns: seq<RoadmapTask>, line: string, index: nat)
    requires LineNode(line, index).None?
    ensures Levels(Step(ns, line, index)) == Levels(ns)
  {
    var ns2 := Step(ns, line, index);
    assert |ns2| == |ns|;
    forall i | 0 <= i < |ns| ensures ns2[i].level == ns[i].level {
      if ns != [] && Continues(ns[|ns| - 1], line) && i == |ns| - 1 {
        assert ns2[i] == AppendDescription(ns[i], Trim(line));
      }
    }
  }

  lemma NodesStep(lines: seq<string>, index: nat)
    requires index < |lines|
    ensures Nodes(lines, index + 1) == Step(Nodes(lines, index), lines[index], index)
  {
  }

  /** Which lines are tasks or categories. */
  function NodeFlags(lines: seq<string>): (f: seq<bool>)
    ensures |f| == |lines| && forall l :: 0 <= l < |lines| ==> f[l] == LineNode(lines[l], l).Some?
  {
    seq(|lines|, l requires 0 <= l < |lines| => LineNode(lines[l], l).Some?)
  }

  /** The indices below `n` whose flag is set, in order. */
  function Marked(flags: seq<bool>, n: nat): seq<nat>
    requires n <= |flags|
  {
    if n == 0 then [] else Marked(flags, n - 1) + (if flags[n - 1] then [n - 1] else [])
  }

  /** `Marked` lists, in increasing order, exactly the indices below `n` whose flag is set. */
  lemma {:induction false} MarkedExact(flags: seq<bool>, n: nat)
    requires n <= |flags|
    ensures var r := Marked(flags, n);
      && (forall i :: 0 <= i < |r| ==> r[i] < n && flags[r[i]])
      && (forall i, j :: 0 <= i < j < |r| ==> r[i] < r[j])
      && (forall l :: 0 <= l < n && flags[l] ==> l in r)
  {
    if n > 0 {
      MarkedExact(flags, n - 1);
    }
  }

  /** The nodes `ns` come from the lines `ls`, one node per line, in that order. */
  predicate FromLines(ns: seq<RoadmapTask>, ls: seq<nat>)
  {
    |ns| == |ls| && forall i :: 0 <= i < |ns| ==> ns[i].id.line == ls[i]
  }

  /**
    Every line that is a task or a category yields exactly one node, and the nodes come in the
    order of their lines.
  */
  lemma {:induction false} NodesFromLines(lines: seq<string>, n: nat)
    requires n <= |lines|
    ensures FromLines(Nodes(lines, n), Marked(NodeFlags(lines), n))
  {
    if n > 0 {
      NodesFromLines(lines, n - 1);
      NodesIdsStep(lines, n - 1, NodeFlags(lines));
    }
  }

  /** One more line extends the node-to-line correspondence. */
  lemma NodesIdsStep(lines: seq<string>, index: nat, flags: seq<bool>)
    requires index < |lines| && flags == NodeFlags(lines)
    requires FromLines(Nodes(lines, index), Marked(flags, index))
    ensures FromLines(Nodes(lines, index + 1), Marked(flags, index + 1))
  {
    NodesStep(lines, index);
    StepIds(Nodes(lines, index), lines[index], index);
    MarkedStep(flags, index);
    assert flags[index] == LineNode(lines[index], index).Some?;
    IdsExtend(Nodes(lines, index), Marked(flags, index), Nodes(lines, index + 1), Marked(flags, index + 1), flags[index], index);
  }

  /** Node ids matching line numbers stay matched when a step keeps the ids and marks its new node. */
  lemma IdsExtend(ns0: seq<RoadmapTask>, ls0: seq<nat>, ns: seq<RoadmapTask>, ls: seq<nat>, added: bool, index: nat)
    requires FromLines(ns0, ls0)
    requires |ns| == |ns0| + (if added then 1 else 0) && forall i :: 0 <= i < |ns0| ==> ns[i].id == ns0[i].id
    requires added ==> ns[|ns0|].id.line == index
    requires ls == ls0 + (if added then [index] else [])
    ensures FromLines(ns, ls)
  {
  }

  lemma MarkedStep(flags: seq<bool>, n: nat)
    requires n < |flags|
    ensures Marked(flags, n + 1) == Marked(flags, n) + (if flags[n] then [n] else [])
  {
  }

  /** One more line keeps the ids of the nodes so far and adds the id of a new node on that line. */
  lemma StepIds(ns: seq<RoadmapTask>, line: string, index: nat)
    ensures var ns2 := Step(ns, line, index);
      && |ns2| == |ns| + (if LineNode(line, index).Some? then 1 else 0)
      && (forall i :: 0 <= i < |ns| ==> ns2[i].id == ns[i].id)
      && (LineNode(line, index).Some? ==> ns2[|ns|].id.line == index)
  {
    if LineNode(line, index).None? && ns != [] && Continues(ns[|ns| - 1], line) {
      var ns2 := Step(ns, line, index);
      var last := ns[|ns| - 1];
      assert ns2 == ns[..|ns| - 1] + [AppendDescription(last, Trim(line))];
      forall i | 0 <= i < |ns| ensures ns2[i].id == ns[i].id {
        if i == |ns| - 1 {
          assert ns2[i].(description := last.description) == last;
        }
      }
    }
  }

  /** Node ids are unique, since each comes from the index of its own line. */
  lemma IdsUnique(lines: seq<string>)
    ensures var f := Flatten(Forest(Nodes(lines, |lines|)));
      forall i, j :: 0 <= i < j < |f| ==> f[i].id.line < f[j].id.line && f[i].id != f[j].id
  {
    var ns := Nodes(lines, |lines|);
    var f := Flatten(Forest(ns));
    ForestPreorder(ns);
    NodesFromLines(lines, |lines|);
    MarkedExact(NodeFlags(lines), |lines|);
    forall i | 0 <= i < |f| ensures f[i].id == ns[i].id {
      assert f[i].(children := ns[i].children) == ns[i];
    }
  }

  /** The lines of a description, none when it is absent or empty. */
  function DescriptionLines(d: Option<string>): seq<string>
  {
    match d
    case None => []
    case Some(s) => if s == [] then [] else Split(s, '\n')
  }

  /**
    A line that is neither a task nor a category changes the nodes exactly when it continues the
    latest node; then only that node's description changes, by one more line holding the trimmed text.
  */
  lemma ContinuationLine(ns: seq<RoadmapTask>, line: string, index: nat)
    requires LineNode(line, index).None? && '\n' !in line
    ensures var ns2 := Step(ns, line, index);
      && |ns2| == |ns|
      && (ns2 != ns <==> ns != [] && Continues(ns[|ns| - 1], line))
      && (ns2 != ns ==>
            var last, text := ns[|ns| - 1], Trim(line);
            && text != []
            && ns2[..|ns| - 1] == ns[..|ns| - 1]
            && ns2[|ns| - 1].(description := last.description) == last
            && ns2[|ns| - 1].description.Some?
            && DescriptionLines(ns2[|ns| - 1].description) == DescriptionLines(last.description) + [text])
  {
    if ns != [] && Continues(ns[|ns| - 1], line) {
      var last, text := ns[|ns| - 1], Trim(line);
      var ns2 := Step(ns, line, index);
      var updated := AppendDescription(last, text);
      assert ns2 == ns[..|ns| - 1] + [updated];
      assert ns2[|ns| - 1] == updated;
      TrimOneLine(line);
      AppendedLines(last, text);
    }
  }

  /** Trimming a one-line text that is not blank leaves a one-line text that is not empty. */
  lemma TrimOneLine(line: string)
    requires '\n' !in line && !AllSpaces(line)
    ensures Trim(line) != [] && '\n' !in Trim(line)
  {
    var text := Trim(line);
    assert text == line[LeadingSpaces(line)..SpacesBefore(line, |line|)];
    forall k | 0 <= k < |text| ensures text[k] != '\n' {
      assert text[k] == line[LeadingSpaces(line) + k];
    }
  }

  /** Appending a one-line text to a description adds exactly that line to it. */
  lemma AppendedLines(t: RoadmapTask, text: string)
    requires text != [] && '\n' !in text
    ensures var u := AppendDescription(t, text);
      && u != t && u.description.Some?
      && DescriptionLines(u.description) == DescriptionLines(t.description) + [text]
  {
    TextLine(text);
    match t.description
    case Some(d) =>
      if d != [] {
        assert d + "\n" + text == d + ['\n'] + text;
        SplitAround(d, '\n', text);
      }
      assert AppendDescription(t, text).description != t.description;
    case None =>
  }

  /** A text without a line break is one line. */
  lemma TextLine(text: string)
    requires '\n' !in text && text != []
    ensures DescriptionLines(Some(text)) == [text]
  {
    assert Join([text], "\n") == text;
    SplitJoin([text], '\n');
  }

  /** `buildTaskTree`: the forest of the node sequence, each node under its nearest shallower predecessor. */
  method BuildTaskTree(lines: seq<string>) returns (root: seq<RoadmapTask>)
    ensures root == Forest(Nodes(lines, |lines|))
  {
    var nodes: seq<RoadmapTask> := [];
    var kids: seq<seq<nat>> := [];
    var roots: seq<nat> := [];
    var stack: seq<nat> := [];
    var lastTask: int := -1;
    ghost var lv: seq<nat> := [];
    for index := 0 to |lines|
      invariant nodes == Nodes(lines, index) && lv == Levels(nodes)
      invariant lastTask == |nodes| - 1
      invariant TableOk(lv, kids, roots)
      invariant stack == SpineOf(lv, lastTask)
      invariant Ascending(lv, stack)
    {
      var line := lines[index];
      var parsed := ParseNode(line, index);
      NodesStep(lines, index);
      if parsed.None? {
        StepKeepsLevels(nodes, line, index);
        nodes := ContinueDescription(nodes, lastTask, line, index);
      } else {
        ghost var before := nodes;
        StepAdds(nodes, line, index, parsed.value);
        nodes, kids, roots, stack := Link(nodes, kids, roots, stack, parsed.value, lv);
        lv := lv + [parsed.value.level];
        LevelsSnoc(before, parsed.value, Levels(before), lv);
        lastTask := |nodes| - 1;
        SpineAscending(lv, lastTask);
      }
    }
    assert kids == KidsTable(nodes);
    root := AssembleAll(nodes, kids, roots, -1);
  }

  /** A line that is a node appends it. */
  lemma StepAdds(ns: seq<RoadmapTask>, line: string, index: nat, t: RoadmapTask)
    requires LineNode(line, index) == Some(t)
    ensures Step(ns, line, index) == ns + [t]
  {
  }

  /** The node a line makes: a task when `parseTaskLine` accepts it, else perhaps a category. */
  method ParseNode(line: string, index: nat) returns (parsed: Option<RoadmapTask>)
    ensures parsed == LineNode(line, index)
  {
    parsed := ParseTaskLine(line, index);
    if parsed.None? {
      parsed := ParseCategoryLine(line, index);
    }
  }

  /** A line that is no node: append it to the description of `lastTask` when it continues it. */
  method ContinueDescription(nodes: seq<RoadmapTask>, lastTask: int, line: string, index: nat)
    returns (updated: seq<RoadmapTask>)
    requires lastTask == |nodes| - 1 && LineNode(line, index).None?
    ensures updated == Step(nodes, line, index)
  {
    updated := nodes;
    if lastTask >= 0 && Trim(line) != [] && 0 < LeadingSpaces(line) < |line| {
      var indent := LeadingSpaces(line);
      var taskIndent := nodes[lastTask].level * 2;
      if indent > taskIndent {
        var descriptionText := Trim(line);
        var last := nodes[lastTask];
        if last.description.Some? && last.description.value != [] {
          updated := nodes[lastTask := last.(description := Some(last.description.value + "\n" + descriptionText))];
        } else {
          updated := nodes[lastTask := last.(description := Some(descriptionText))];
        }
        assert updated == nodes[..lastTask] + [AppendDescription(last, descriptionText)];
      }
    }
  }

  /**
    A line that is a node: pop the open ancestors that are not shallower, hang the node under the
    one left on top (or make it a root), and push it.
  */
  method Link(nodes: seq<RoadmapTask>, kids: seq<seq<nat>>, roots: seq<nat>, stack: seq<nat>, task: RoadmapTask, ghost lv: seq<nat>)
    returns (nodes2: seq<RoadmapTask>, kids2: seq<seq<nat>>, roots2: seq<nat>, stack2: seq<nat>)
    requires lv == Levels(nodes) && TableOk(lv, kids, roots) && stack == SpineOf(lv, |nodes| - 1)
    ensures nodes2 == nodes + [task]
    ensures TableOk(lv + [task.level], kids2, roots2)
    ensures stack2 == SpineOf(lv + [task.level], |nodes|)
  {
    var n: nat := |nodes|;
    nodes2 := nodes + [task];
    ghost var lv2 := lv + [task.level];
    LevelsSnoc(nodes, task, lv, lv2);
    PopStart(lv, task.level);
    stack2 := PopAncestors(nodes2, stack, lv2);
    kids2, roots2 := Attach(kids, roots, stack2, lv, task.level);
    stack2 := stack2 + [n];
  }

  /** The levels of a node sequence with one more node. */
  lemma LevelsSnoc(nodes: seq<RoadmapTask>, task: RoadmapTask, lv: seq<nat>, lv2: seq<nat>)
    requires lv == Levels(nodes) && lv2 == lv + [task.level]
    ensures lv2 == Levels(nodes + [task])
  {
  }

  /** Hangs the new node under the top of the popped stack, or makes it a root when the stack is empty. */
  method Attach(kids: seq<seq<nat>>, roots: seq<nat>, stack: seq<nat>, ghost lv: seq<nat>, ghost x: nat)
    returns (kids2: seq<seq<nat>>, roots2: seq<nat>)
    requires TableOk(lv, kids, roots)
    requires Parent(lv + [x], |lv|) >= -1 && stack == SpineOf(lv + [x], Parent(lv + [x], |lv|))
    ensures TableOk(lv + [x], kids2, roots2)
  {
    ghost var q := Parent(lv + [x], |lv|);
    var n: nat := |kids|;
    kids2, roots2 := kids + [[]], roots;
    if |stack| == 0 {
      roots2 := roots + [n];
    } else {
      var parent := stack[|stack| - 1];
      kids2 := kids2[parent := kids[parent] + [n]];
    }
    LinkOk(lv, x, kids, roots, q, lv + [x], kids2, roots2);
  }

  /** The `while` loop of `buildTaskTree`: pops the open ancestors whose level is not below the new node's. */
  method PopAncestors(nodes: seq<RoadmapTask>, stack: seq<nat>, ghost lv: seq<nat>) returns (popped: seq<nat>)
    requires |nodes| > 0 && lv == Levels(nodes) && stack == SpineOf(lv, |nodes| - 2)
    ensures -1 <= Parent(lv, |nodes| - 1)
    ensures popped == SpineOf(lv, Parent(lv, |nodes| - 1))
  {
    var n := |nodes| - 1;
    var level := nodes[n].level;
    popped := stack;
    ghost var top: int := n - 1;
    while |popped| > 0 && nodes[popped[|popped| - 1]].level >= level
      invariant -1 <= top < n && popped == SpineOf(lv, top)
      invariant NearestBelow(lv, level, n) == NearestBelow(lv, level, top + 1)
      decreases |popped|
    {
      PopSkips(lv, level, top);
      top := Parent(lv, top);
      popped := popped[..|popped| - 1];
    }
    PopEnd(lv, n, top);
  }
}
