/**
  `flattenTasks` and `getTaskStats` of lib/roadmap-parser.ts: the pre-order list of a forest and the
  counts of its non-category nodes.
*/
module RoadmapStats {
  import opened JsText
  import opened RoadmapTypes

  /** The pre-order list of a forest: each node, then its subtree, then its later siblings. */
  function Flatten(ts: seq<RoadmapTask>): seq<RoadmapTask>
    decreases ts
  {
    if ts == [] then [] else [ts[0]] + Flatten(ts[0].children) + Flatten(ts[1..])
  }

  /** Reference count: the nodes of a forest that satisfy `p`, counted over the tree. */
  function Count(ts: seq<RoadmapTask>, p: RoadmapTask -> bool): nat
    decreases ts
  {
    if ts == [] then 0 else (if p(ts[0]) then 1 else 0) + Count(ts[0].children, p) + Count(ts[1..], p)
  }

  predicate AnyNode(t: RoadmapTask) { true }
  predicate IsTask(t: RoadmapTask) { !t.isCategory }
  predicate IsDone(t: RoadmapTask) { t.completed }
  predicate IsDoneTask(t: RoadmapTask) { !t.isCategory && t.completed }

  /** A forest of one node lists that node first, then its subtree. */
  lemma FlattenOne(t: RoadmapTask)
    ensures Flatten([t]) == [t] + Flatten(t.children)
  {
    assert [t][1..] == [];
  }

  /** Flattening distributes over the concatenation of sibling lists. */
  lemma {:induction false} FlattenConcat(a: seq<RoadmapTask>, b: seq<RoadmapTask>)
    ensures Flatten(a + b) == Flatten(a) + Flatten(b)
    decreases a
  {
    if a == [] {
      assert a + b == b;
    } else {
      assert (a + b)[0] == a[0] && (a + b)[1..] == a[1..] + b;
      FlattenConcat(a[1..], b);
      var x, y, z := [a[0]] + Flatten(a[0].children), Flatten(a[1..]), Flatten(b);
      ConcatAssoc(x, y, z);
    }
  }

  /** Filtering the pre-order list counts the same nodes as counting over the tree. */
  lemma {:induction false} FilterFlatten(ts: seq<RoadmapTask>, p: RoadmapTask -> bool)
    ensures |Filter(Flatten(ts), p)| == Count(ts, p)
    decreases ts
  {
    if ts != [] {
      var t := ts[0];
      FilterConcat([t] + Flatten(t.children), Flatten(ts[1..]), p);
      FilterConcat([t], Flatten(t.children), p);
      assert Filter([t], p) == (if p(t) then [t] else []) + Filter([], p);
      FilterFlatten(t.children, p);
      FilterFlatten(ts[1..], p);
    }
  }

  /** The pre-order list holds every node of the forest once: its length is the node count. */
  lemma FlattenLength(ts: seq<RoadmapTask>)
    ensures |Flatten(ts)| == Count(ts, AnyNode)
  {
    FilterFlatten(ts, AnyNode);
    FilterAll(Flatten(ts));
  }

  lemma {:induction false} FilterAll(s: seq<RoadmapTask>)
    ensures Filter(s, AnyNode) == s
  {
    if s != [] {
      FilterAll(s[1..]);
    }
  }

  /**
    `traverse`: appends the pre-order list of `taskList` to `result`, pushing each task and then
    descending into its children when it has any.
  */
  method Traverse(taskList: seq<RoadmapTask>, result: seq<RoadmapTask>) returns (out: seq<RoadmapTask>)
    ensures out == result + Flatten(taskList)
    decreases taskList
  {
    out := result;
    for i := 0 to |taskList|
      invariant out == result + Flatten(taskList[..i])
    {
      var task := taskList[i];
      ghost var before := out;
      out := out + [task];
      if |task.children| > 0 {
        out := Traverse(task.children, out);
      } else {
        assert out == out + Flatten(task.children);
      }
      FlattenStep(taskList, i, result, before);
    }
    assert taskList[..|taskList|] == taskList;
  }

  /** One step of `traverse`'s loop: the prefix grows by the next task and its subtree. */
  lemma FlattenStep(ts: seq<RoadmapTask>, i: nat, result: seq<RoadmapTask>, before: seq<RoadmapTask>)
    requires i < |ts| && before == result + Flatten(ts[..i])
    ensures before + [ts[i]] + Flatten(ts[i].children) == result + Flatten(ts[..i + 1])
  {
    assert ts[..i + 1] == ts[..i] + [ts[i]];
    FlattenConcat(ts[..i], [ts[i]]);
    FlattenOne(ts[i]);
    var x, y, z := Flatten(ts[..i]), [ts[i]], Flatten(ts[i].children);
    ConcatAssoc(x, y, z);
    ConcatAssoc(result, x, y + z);
    ConcatAssoc(result + x, y, z);
  }

  /** `flattenTasks`: the pre-order list of the forest. */
  method FlattenTasks(tasks: seq<RoadmapTask>) returns (result: seq<RoadmapTask>)
    ensures result == Flatten(tasks)
    ensures |result| == Count(tasks, AnyNode)
  {
    result := Traverse(tasks, []);
    FlattenLength(tasks);
  }

  /** The three numbers `getTaskStats` reports. */
  datatype TaskStats = TaskStats(total: nat, completed: nat, incomplete: int)

  /** `getTaskStats`: counts over the non-category nodes of the pre-order list. */
  function GetTaskStats(tasks: seq<RoadmapTask>): (s: TaskStats)
    ensures s.total == Count(tasks, IsTask)
    ensures s.completed == Count(tasks, IsDoneTask)
    ensures 0 <= s.incomplete && s.completed + s.incomplete == s.total
  {
    var actualTasks := Filter(Flatten(tasks), IsTask);
    var completed := |Filter(actualTasks, IsDone)|;
    assert completed == Count(tasks, IsDoneTask) && |actualTasks| == Count(tasks, IsTask) by {
      FilterFlatten(tasks, IsTask);
      FilterFilter(Flatten(tasks));
      FilterFlatten(tasks, IsDoneTask);
    }
    TaskStats(|actualTasks|, completed, |actualTasks| - completed)
  }

  /** Filtering tasks, then completed nodes, keeps the completed tasks. */
  lemma {:induction false} FilterFilter(s: seq<RoadmapTask>)
    ensures Filter(Filter(s, IsTask), IsDone) == Filter(s, IsDoneTask)
  {
    if s != [] {
      FilterFilter(s[1..]);
      var x, rest := s[0], Filter(s[1..], IsTask);
      if IsTask(x) {
        var kept := [x] + rest;
        assert kept[0] == x && kept[1..] == rest;
        calc {
          Filter(Filter(s, IsTask), IsDone);
          Filter(kept, IsDone);
          (if IsDone(x) then [x] else []) + Filter(rest, IsDone);
          (if IsDoneTask(x) then [x] else []) + Filter(s[1..], IsDoneTask);
          Filter(s, IsDoneTask);
        }
      } else {
        assert Filter(s, IsTask) == rest;
        assert Filter(s, IsDoneTask) == Filter(s[1..], IsDoneTask);
      }
    }
  }

  /** The counts of two sibling lists side by side add up. */
  lemma {:induction false} CountConcat(a: seq<RoadmapTask>, b: seq<RoadmapTask>, p: RoadmapTask -> bool)
    ensures Count(a + b, p) == Count(a, p) + Count(b, p)
    decreases a
  {
    if a == [] {
      assert a + b == b;
    } else {
      assert (a + b)[0] == a[0] && (a + b)[1..] == a[1..] + b;
      CountConcat(a[1..], b, p);
    }
  }

  /** The statistics of two sibling lists side by side are the sums of their statistics. */
  lemma StatsConcat(a: seq<RoadmapTask>, b: seq<RoadmapTask>)
    ensures GetTaskStats(a + b).total == GetTaskStats(a).total + GetTaskStats(b).total
    ensures GetTaskStats(a + b).completed == GetTaskStats(a).completed + GetTaskStats(b).completed
  {
    CountConcat(a, b, IsTask);
    CountConcat(a, b, IsDoneTask);
  }
}
