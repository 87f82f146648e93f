/**
  `sortTasks` of lib/roadmap-parser.ts: every sibling list, from the leaves up, is reordered into its
  categories, then its incomplete tasks, then its completed tasks, each group in its original order.
*/
module RoadmapSort {
  import opened RoadmapTypes
  import opened RoadmapStats

  /** The group a node is sorted into: categories first, incomplete tasks next, completed tasks last. */
  function Rank(t: RoadmapTask): nat
  {
    if t.isCategory then 0 else if !t.completed then 1 else 2
  }

  /** The nodes of group `k`, in their order: one of the three `filter` calls of `sortTasks`. */
  function Keep(s: seq<RoadmapTask>, k: nat): seq<RoadmapTask>
  {
    if s == [] then [] else (if Rank(s[0]) == k then [s[0]] else []) + Keep(s[1..], k)
  }

  /** The three groups of a list, one after the other. */
  function Groups(s: seq<RoadmapTask>): seq<RoadmapTask>
  {
    Keep(s, 0) + Keep(s, 1) + Keep(s, 2)
  }

  /** `sortTasks`: sort the children of every node first, then split the list into its three groups. */
  function SortTasks(tasks: seq<RoadmapTask>): seq<RoadmapTask>
    decreases tasks, 1
  {
    Groups(Processed(tasks))
  }

  /** The `map` step of `sortTasks`: each node with its children sorted. */
  function Processed(tasks: seq<RoadmapTask>): (r: seq<RoadmapTask>)
    ensures |r| == |tasks|
    decreases tasks, 0
  {
    seq(|tasks|, i requires 0 <= i < |tasks| => tasks[i].(children := SortTasks(tasks[i].children)))
  }

  // ---------------------------------------------------------------------------------------------
  // The three groups
  // ---------------------------------------------------------------------------------------------

  /** Every node of group `k` has rank `k`. */
  lemma {:induction false} KeepRank(s: seq<RoadmapTask>, k: nat)
    ensures forall i :: 0 <= i < |Keep(s, k)| ==> Rank(Keep(s, k)[i]) == k
  {
    if s != [] {
      KeepRank(s[1..], k);
      var rest := Keep(s[1..], k);
      if Rank(s[0]) == k {
        assert Keep(s, k) == [s[0]] + rest;
        forall i | 1 <= i < |Keep(s, k)| ensures Rank(Keep(s, k)[i]) == k {
          assert Keep(s, k)[i] == rest[i - 1];
        }
      } else {
        assert Keep(s, k) == rest;
      }
    }
  }

  lemma {:induction false} KeepConcat(a: seq<RoadmapTask>, b: seq<RoadmapTask>, k: nat)
    ensures Keep(a + b, k) == Keep(a, k) + Keep(b, k)
  {
    if a == [] {
      assert a + b == b;
    } else {
      assert (a + b)[1..] == a[1..] + b;
      KeepConcat(a[1..], b, k);
    }
  }

  /** A list all of whose nodes have rank `j` is its own group `j` and has every other group empty. */
  lemma {:induction false} KeepUniform(s: seq<RoadmapTask>, j: nat, k: nat)
    requires forall i :: 0 <= i < |s| ==> Rank(s[i]) == j
    ensures Keep(s, k) == if j == k then s else []
  {
    if s != [] {
      KeepUniform(s[1..], j, k);
    }
  }

  /** The three groups of a list hold, between them, exactly its elements. */
  lemma {:induction false} GroupsPermute(s: seq<RoadmapTask>)
    ensures multiset(Groups(s)) == multiset(s)
  {
    if s != [] {
      var x, rest := s[0], s[1..];
      assert s == [x] + rest;
      GroupsPermute(rest);
      var a, b, c := Keep(s, 0), Keep(s, 1), Keep(s, 2);
      var a', b', c' := Keep(rest, 0), Keep(rest, 1), Keep(rest, 2);
      if Rank(x) == 0 {
        assert a == [x] + a' && b == b' && c == c';
      } else if Rank(x) == 1 {
        assert a == a' && b == [x] + b' && c == c';
      } else {
        assert a == a' && b == b' && c == [x] + c';
      }
      GroupsStep(x, rest, a, b, c, a', b', c');
    }
  }

  /** Adding one element to one of the three groups keeps them a permutation of the list. */
  lemma GroupsStep(x: RoadmapTask, rest: seq<RoadmapTask>, a: seq<RoadmapTask>, b: seq<RoadmapTask>, c: seq<RoadmapTask>,
                   a': seq<RoadmapTask>, b': seq<RoadmapTask>, c': seq<RoadmapTask>)
    requires multiset(a' + b' + c') == multiset(rest)
    requires || (a == [x] + a' && b == b' && c == c')
             || (a == a' && b == [x] + b' && c == c')
             || (a == a' && b == b' && c == [x] + c')
    ensures multiset(a + b + c) == multiset([x] + rest)
  {
  }

  /** The three groups of a list count, between them, exactly the nodes of its trees. */
  lemma {:induction false} GroupsCount(s: seq<RoadmapTask>, p: RoadmapTask -> bool)
    ensures Count(Groups(s), p) == Count(s, p)
  {
    if s != [] {
      var x, rest := s[0], s[1..];
      GroupsCount(rest, p);
      assert s == [x] + rest;
      GroupsCons(x, rest, p);
      CountConcat([x], rest, p);
    } else {
      assert Groups(s) == [];
    }
  }

  /** One more node in front adds its count to the groups, wherever it is sorted to. */
  lemma GroupsCons(x: RoadmapTask, rest: seq<RoadmapTask>, p: RoadmapTask -> bool)
    ensures Count(Groups([x] + rest), p) == Count([x], p) + Count(Groups(rest), p)
  {
    var s := [x] + rest;
    assert s[0] == x && s[1..] == rest;
    var a', b', c' := Keep(rest, 0), Keep(rest, 1), Keep(rest, 2);
    if Rank(x) == 0 {
      assert Groups(s) == [] + [x] + (a' + b' + c');
      CountMiddle([], [x], a' + b' + c', p);
      assert [] + (a' + b' + c') == Groups(rest);
    } else if Rank(x) == 1 {
      assert Groups(s) == a' + [x] + (b' + c');
      CountMiddle(a', [x], b' + c', p);
      assert a' + (b' + c') == Groups(rest);
    } else {
      assert Groups(s) == (a' + b') + [x] + c';
      CountMiddle(a' + b', [x], c', p);
    }
  }

  /** A stretch in the middle of a list counts apart from the rest. */
  lemma CountMiddle(u: seq<RoadmapTask>, v: seq<RoadmapTask>, w: seq<RoadmapTask>, p: RoadmapTask -> bool)
    ensures Count(u + v + w, p) == Count(v, p) + Count(u + w, p)
  {
    CountConcat(u + v, w, p);
    CountConcat(u, v, p);
    CountConcat(u, w, p);
  }

  /** Each group of the grouped list is the same group of the list. */
  lemma GroupsStable(s: seq<RoadmapTask>, k: nat)
    requires k < 3
    ensures Keep(Groups(s), k) == Keep(s, k)
  {
    var a, b, c := Keep(s, 0), Keep(s, 1), Keep(s, 2);
    KeepRank(s, 0);
    KeepRank(s, 1);
    KeepRank(s, 2);
    KeepConcat(a + b, c, k);
    KeepConcat(a, b, k);
    KeepUniform(a, 0, k);
    KeepUniform(b, 1, k);
    KeepUniform(c, 2, k);
  }

  // ---------------------------------------------------------------------------------------------
  // What sorting promises
  // ---------------------------------------------------------------------------------------------

  /**
    Each sibling list is reordered and nothing else: the sorted list is a permutation of the list of
    the nodes with their own children sorted, and no node moves to another parent.
  */
  lemma SortPermutes(tasks: seq<RoadmapTask>)
    ensures |SortTasks(tasks)| == |tasks|
    ensures multiset(SortTasks(tasks)) == multiset(Processed(tasks))
    ensures forall i :: 0 <= i < |tasks| ==>
      Processed(tasks)[i].(children := tasks[i].children) == tasks[i]
      && Processed(tasks)[i].children == SortTasks(tasks[i].children)
  {
    GroupsPermute(Processed(tasks));
    assert |SortTasks(tasks)| == |multiset(SortTasks(tasks))|;
  }

  /** The sorted list holds the categories first, then the incomplete tasks, then the completed ones. */
  lemma SortRanked(tasks: seq<RoadmapTask>)
    ensures var r := SortTasks(tasks);
      forall i, j :: 0 <= i < j < |r| ==> Rank(r[i]) <= Rank(r[j])
  {
    var p := Processed(tasks);
    var a, b, c := Keep(p, 0), Keep(p, 1), Keep(p, 2);
    var r := SortTasks(tasks);
    KeepRank(p, 0);
    KeepRank(p, 1);
    KeepRank(p, 2);
    forall i | 0 <= i < |r| ensures Rank(r[i]) == (if i < |a| then 0 else if i < |a| + |b| then 1 else 2) {
      if i < |a| {
        assert r[i] == a[i];
      } else if i < |a| + |b| {
        assert r[i] == b[i - |a|];
      } else {
        assert r[i] == c[i - |a| - |b|];
      }
    }
  }

  /** Sorting is stable: each group keeps the relative order it had. */
  lemma SortStable(tasks: seq<RoadmapTask>, k: nat)
    requires k < 3
    ensures Keep(SortTasks(tasks), k) == Keep(Processed(tasks), k)
  {
    GroupsStable(Processed(tasks), k);
  }

  /** Sorting a sorted forest changes nothing. */
  lemma {:induction false} SortIdempotent(tasks: seq<RoadmapTask>)
    ensures SortTasks(SortTasks(tasks)) == SortTasks(tasks)
    decreases tasks
  {
    var p := Processed(tasks);
    var r := SortTasks(tasks);
    forall k | 0 <= k < |r| ensures Processed(r)[k] == r[k] {
      assert r[k] in multiset(p) by {
        SortPermutes(tasks);
        assert r[k] in multiset(r);
      }
      var i :| 0 <= i < |p| && p[i] == r[k];
      SortIdempotent(tasks[i].children);
    }
    assert Processed(r) == r;
    GroupsStable(p, 0);
    GroupsStable(p, 1);
    GroupsStable(p, 2);
  }

  /** Sorting does not change how many nodes of the forest satisfy a test that ignores children. */
  lemma {:induction false} SortCount(tasks: seq<RoadmapTask>, p: RoadmapTask -> bool)
    requires forall t: RoadmapTask :: p(t) == p(t.(children := []))
    ensures Count(SortTasks(tasks), p) == Count(tasks, p)
    decreases tasks, 1
  {
    GroupsCount(Processed(tasks), p);
    ProcessedCount(tasks, p);
  }

  /** The `map` step of `sortTasks` keeps the counts, since it only sorts below each node. */
  lemma {:induction false} ProcessedCount(tasks: seq<RoadmapTask>, p: RoadmapTask -> bool)
    requires forall t: RoadmapTask :: p(t) == p(t.(children := []))
    ensures Count(Processed(tasks), p) == Count(tasks, p)
    decreases tasks, 0
  {
    if tasks != [] {
      var q := Processed(tasks);
      var t := tasks[0];
      assert q[0].(children := []) == t.(children := []);
      assert p(q[0]) == p(t);
      assert q[1..] == Processed(tasks[1..]);
      SortCount(t.children, p);
      ProcessedCount(tasks[1..], p);
    }
  }

  /** Sorting keeps the statistics and the number of nodes. */
  lemma SortKeepsStats(tasks: seq<RoadmapTask>)
    ensures GetTaskStats(SortTasks(tasks)) == GetTaskStats(tasks)
    ensures |Flatten(SortTasks(tasks))| == |Flatten(tasks)|
  {
    SortCount(tasks, IsTask);
    SortCount(tasks, IsDoneTask);
    SortCount(tasks, AnyNode);
    FlattenLength(tasks);
    FlattenLength(SortTasks(tasks));
  }
}
