/**
  `parseRoadmapContent` of lib/roadmap-parser.ts: split the file into lines, build the task forest,
  sort it. The statistics of the result are determined by the lines alone: one task per checkbox
  line, one completed task per line checked with `x` or `X`.
*/
module RoadmapParser {
  import opened JsText
  import opened RoadmapTypes
  import opened RoadmapLines
  import opened RoadmapTaskLine
  import opened RoadmapStats
  import opened RoadmapForest
  import opened RoadmapTree
  import opened RoadmapSort

  /** The sorted forest `parseRoadmapContent` returns for `content`. */
  function Parsed(content: string): seq<RoadmapTask>
  {
    var lines := Split(content, '\n');
    SortTasks(Forest(Nodes(lines, |lines|)))
  }

  /** `parseRoadmapContent`: `buildTaskTree` over the lines, then `sortTasks`. */
  method ParseRoadmapContent(content: string) returns (tasks: seq<RoadmapTask>)
    ensures tasks == Parsed(content)
    ensures GetTaskStats(tasks) == LineStats(Split(content, '\n'))
  {
    var lines := Split(content, '\n');
    var taskTree := BuildTaskTree(lines);
    tasks := SortTasks(taskTree);
    ParsedStats(content);
  }

  // ---------------------------------------------------------------------------------------------
  // Statistics read off the lines
  // ---------------------------------------------------------------------------------------------

  /** A line in the checkbox pattern's language. */
  predicate IsTaskLine(line: string)
  {
    MatchCheckbox(line).Some?
  }

  /** A checkbox line whose box holds `x` or `X`. */
  predicate IsCheckedLine(line: string)
  {
    MatchCheckbox(line).Some? && (MatchCheckbox(line).value.mark == 'x' || MatchCheckbox(line).value.mark == 'X')
  }

  /** The number of lines of `lines` that satisfy `p`. */
  function CountLines(lines: seq<string>, p: string -> bool): nat
  {
    if lines == [] then 0 else CountLines(lines[..|lines| - 1], p) + (if p(lines[|lines| - 1]) then 1 else 0)
  }

  /** Reference statistics: checkbox lines, checked lines, and the difference. */
  function LineStats(lines: seq<string>): (s: TaskStats)
    ensures s.completed <= s.total
  {
    CountCheckedTaskLines(lines);
    var total := CountLines(lines, IsTaskLine);
    var completed := CountLines(lines, IsCheckedLine);
    TaskStats(total, completed, total - completed)
  }

  /** Every checked line is a checkbox line, so there are no more of them. */
  lemma {:induction false} CountCheckedTaskLines(lines: seq<string>)
    ensures CountLines(lines, IsCheckedLine) <= CountLines(lines, IsTaskLine)
  {
    if lines != [] {
      CountCheckedTaskLines(lines[..|lines| - 1]);
    }
  }

  /** Line counts add up over consecutive stretches of lines. */
  lemma {:induction false} CountLinesConcat(a: seq<string>, b: seq<string>, p: string -> bool)
    ensures CountLines(a + b, p) == CountLines(a, p) + CountLines(b, p)
    decreases |b|
  {
    if b != [] {
      var b' := b[..|b| - 1];
      assert (a + b)[..|a + b| - 1] == a + b';
      CountLinesConcat(a, b', p);
    } else {
      assert a + b == a;
    }
  }

  /** A node made from a line is a task exactly on checkbox lines, and a completed one on checked lines. */
  lemma LineNodeKind(line: string, index: nat)
    requires LineNode(line, index).Some?
    ensures IsTask(LineNode(line, index).value) <==> IsTaskLine(line)
    ensures IsDoneTask(LineNode(line, index).value) <==> IsCheckedLine(line)
  {
  }

  /** The filter of a list with one more element. */
  lemma FilterSnoc(s: seq<RoadmapTask>, t: RoadmapTask, p: RoadmapTask -> bool)
    ensures |Filter(s + [t], p)| == |Filter(s, p)| + (if p(t) then 1 else 0)
  {
    FilterConcat(s, [t], p);
    assert Filter([t], p) == (if p(t) then [t] else []) + Filter([], p);
  }

  /**
    Among the nodes of the first `n` lines, the tasks are as many as the checkbox lines and the
    completed tasks as many as the checked lines: continuation lines only change descriptions.
  */
  lemma {:induction false} NodesCount(lines: seq<string>, n: nat)
    requires n <= |lines|
    ensures |Filter(Nodes(lines, n), IsTask)| == CountLines(lines[..n], IsTaskLine)
    ensures |Filter(Nodes(lines, n), IsDoneTask)| == CountLines(lines[..n], IsCheckedLine)
  {
    if n > 0 {
      NodesCount(lines, n - 1);
      var ns := Nodes(lines, n - 1);
      var line := lines[n - 1];
      assert lines[..n][..n - 1] == lines[..n - 1];
      assert lines[..n][n - 1] == line;
      assert CountLines(lines[..n], IsTaskLine) == CountLines(lines[..n - 1], IsTaskLine) + (if IsTaskLine(line) then 1 else 0);
      assert CountLines(lines[..n], IsCheckedLine) == CountLines(lines[..n - 1], IsCheckedLine) + (if IsCheckedLine(line) then 1 else 0);
      NodesStep(lines, n - 1);
      StepCount(ns, line, n - 1);
    }
  }

  /** One more line adds a task exactly when it is a checkbox line, a completed one when it is checked. */
  lemma StepCount(ns: seq<RoadmapTask>, line: string, index: nat)
    ensures |Filter(Step(ns, line, index), IsTask)| == |Filter(ns, IsTask)| + (if IsTaskLine(line) then 1 else 0)
    ensures |Filter(Step(ns, line, index), IsDoneTask)| == |Filter(ns, IsDoneTask)| + (if IsCheckedLine(line) then 1 else 0)
  {
    match LineNode(line, index)
    case Some(t) =>
      LineNodeKind(line, index);
      FilterSnoc(ns, t, IsTask);
      FilterSnoc(ns, t, IsDoneTask);
    case None =>
      assert !IsTaskLine(line) && !IsCheckedLine(line);
      if ns != [] && Continues(ns[|ns| - 1], line) {
        var last := ns[|ns| - 1];
        var front := ns[..|ns| - 1];
        assert ns == front + [last];
        FilterSnoc(front, last, IsTask);
        FilterSnoc(front, last, IsDoneTask);
        FilterSnoc(front, AppendDescription(last, Trim(line)), IsTask);
        FilterSnoc(front, AppendDescription(last, Trim(line)), IsDoneTask);
      }
  }

  /** Two lists whose elements agree on `p` position by position keep equally many under `p`. */
  lemma {:induction false} FilterSameLength(a: seq<RoadmapTask>, b: seq<RoadmapTask>, p: RoadmapTask -> bool)
    requires |a| == |b| && forall i :: 0 <= i < |a| ==> p(a[i]) == p(b[i])
    ensures |Filter(a, p)| == |Filter(b, p)|
  {
    if a != [] {
      assert p(a[0]) == p(b[0]);
      FilterSameLength(a[1..], b[1..], p);
    }
  }

  /** The forest counts the same tasks and completed tasks as its node sequence. */
  lemma ForestCount(ns: seq<RoadmapTask>)
    ensures Count(Forest(ns), IsTask) == |Filter(ns, IsTask)|
    ensures Count(Forest(ns), IsDoneTask) == |Filter(ns, IsDoneTask)|
  {
    var f := Flatten(Forest(ns));
    ForestPreorder(ns);
    forall i | 0 <= i < |f| ensures IsTask(f[i]) == IsTask(ns[i]) && IsDoneTask(f[i]) == IsDoneTask(ns[i]) {
      assert f[i].(children := ns[i].children) == ns[i];
    }
    FilterSameLength(f, ns, IsTask);
    FilterSameLength(f, ns, IsDoneTask);
    FilterFlatten(Forest(ns), IsTask);
    FilterFlatten(Forest(ns), IsDoneTask);
  }

  /**
    The statistics of the parsed file: `total` is the number of checkbox lines, `completed` the
    number of those checked with `x` or `X`; categories and continuation lines count for nothing.
  */
  lemma ParsedStats(content: string)
    ensures GetTaskStats(Parsed(content)) == LineStats(Split(content, '\n'))
  {
    var lines := Split(content, '\n');
    var ns := Nodes(lines, |lines|);
    SortKeepsStats(Forest(ns));
    ForestCount(ns);
    NodesCount(lines, |lines|);
    assert lines[..|lines|] == lines;
  }

  /**
    Every node of the file appears once in the parsed forest: its pre-order list is as long as the
    node sequence, and each node has the line number of the line it was made from.
  */
  lemma ParsedNodes(content: string)
    ensures var lines := Split(content, '\n');
      |Flatten(Parsed(content))| == |Nodes(lines, |lines|)| == |Marked(NodeFlags(lines), |lines|)|
  {
    var lines := Split(content, '\n');
    var ns := Nodes(lines, |lines|);
    SortKeepsStats(Forest(ns));
    ForestPreorder(ns);
    NodesFromLines(lines, |lines|);
  }
}
