/**
  The shape `buildTaskTree` in lib/roadmap-parser.ts gives to a sequence of parsed nodes: every node
  hangs under the nearest earlier node whose level is strictly smaller, or is a root when there is
  none. The shape is defined here from the levels alone, independently of the stack the source uses;
  the main result is that the pre-order list of the forest is the node sequence itself.
*/
module RoadmapForest {
  import opened JsText
  import opened RoadmapTypes
  import opened RoadmapStats

  /** The levels of the nodes, in order. */
  function Levels(ns: seq<RoadmapTask>): (lv: seq<nat>)
    ensures |lv| == |ns| && forall i :: 0 <= i < |ns| ==> lv[i] == ns[i].level
  {
    seq(|ns|, i requires 0 <= i < |ns| => ns[i].level)
  }

  // ---------------------------------------------------------------------------------------------
  // Parents
  // ---------------------------------------------------------------------------------------------

  /** The nearest index below `j` whose level is below `x`, or -1 when there is none. */
  function NearestBelow(lv: seq<nat>, x: nat, j: nat): (r: int)
    requires j <= |lv|
    ensures -1 <= r < j
    ensures r >= 0 ==> lv[r] < x
    ensures forall m :: r < m < j ==> lv[m] >= x
  {
    if j == 0 then -1 else if lv[j - 1] < x then j - 1 else NearestBelow(lv, x, j - 1)
  }

  /** The three properties of `NearestBelow` determine it. */
  lemma NearestBelowUnique(lv: seq<nat>, x: nat, j: nat, r: int)
    requires j <= |lv| && -1 <= r < j
    requires r >= 0 ==> lv[r] < x
    requires forall m :: r < m < j ==> lv[m] >= x
    ensures NearestBelow(lv, x, j) == r
  {
  }

  /** The parent of node `k`: the nearest earlier node with a strictly smaller level; -1 for a root. */
  function Parent(lv: seq<nat>, k: nat): int
    requires k < |lv|
  {
    NearestBelow(lv, lv[k], k)
  }

  /** Every node's parent comes before it, has a smaller level, and nothing in between has a smaller level. */
  lemma ParentIsNearestSmaller(lv: seq<nat>, k: nat)
    requires k < |lv|
    ensures -1 <= Parent(lv, k) < k
    ensures Parent(lv, k) >= 0 ==> lv[Parent(lv, k)] < lv[k]
    ensures Parent(lv, k) == -1 <==> forall m :: 0 <= m < k ==> lv[m] >= lv[k]
    ensures forall m :: Parent(lv, k) < m < k ==> lv[m] >= lv[k]
  {
  }

  /** Appending nodes does not change the search below `j`. */
  lemma {:induction false} NearestBelowPrefix(lv: seq<nat>, lv2: seq<nat>, x: nat, j: nat)
    requires j <= |lv| <= |lv2| && lv == lv2[..|lv|]
    ensures NearestBelow(lv2, x, j) == NearestBelow(lv, x, j)
  {
    if j > 0 {
      assert lv2[j - 1] == lv[j - 1];
      NearestBelowPrefix(lv, lv2, x, j - 1);
    }
  }

  /** Appending nodes does not change the parents of the earlier ones. */
  lemma ParentPrefix(lv: seq<nat>, lv2: seq<nat>, k: nat)
    requires k < |lv| <= |lv2| && lv == lv2[..|lv|]
    ensures Parent(lv2, k) == Parent(lv, k)
  {
    assert lv2[k] == lv[k];
    NearestBelowPrefix(lv, lv2, lv[k], k);
  }

  // ---------------------------------------------------------------------------------------------
  // Children lists
  // ---------------------------------------------------------------------------------------------

  /** The nodes in `[lo, hi)` whose parent is `p` (-1 for the roots), in order. */
  function ChildrenIn(lv: seq<nat>, p: int, lo: nat, hi: nat): (r: seq<nat>)
    requires hi <= |lv|
    ensures forall x :: x in r ==> lo <= x < hi && Parent(lv, x) == p
    decreases hi - lo
  {
    if lo >= hi then [] else (if Parent(lv, lo) == p then [lo] else []) + ChildrenIn(lv, p, lo + 1, hi)
  }

  /** Extending the range by one node appends it when its parent is `p`. */
  lemma {:induction false} ChildrenSnoc(lv: seq<nat>, p: int, lo: nat, hi: nat)
    requires lo <= hi < |lv|
    ensures ChildrenIn(lv, p, lo, hi + 1) == ChildrenIn(lv, p, lo, hi) + (if Parent(lv, hi) == p then [hi] else [])
    decreases hi - lo
  {
    var z := if Parent(lv, hi) == p then [hi] else [];
    if lo < hi {
      ChildrenSnoc(lv, p, lo + 1, hi);
      var x := if Parent(lv, lo) == p then [lo] else [];
      var y := ChildrenIn(lv, p, lo + 1, hi);
      assert ChildrenIn(lv, p, lo, hi + 1) == x + (y + z);
      assert ChildrenIn(lv, p, lo, hi) == x + y;
      ConcatAssoc(x, y, z);
    } else {
      assert ChildrenIn(lv, p, lo, hi + 1) == z + ChildrenIn(lv, p, hi + 1, hi + 1);
    }
  }

  /** The children of a range are those of its two halves. */
  lemma {:induction false} ChildrenSplit(lv: seq<nat>, p: int, lo: nat, mid: nat, hi: nat)
    requires lo <= mid <= hi <= |lv|
    ensures ChildrenIn(lv, p, lo, hi) == ChildrenIn(lv, p, lo, mid) + ChildrenIn(lv, p, mid, hi)
    decreases mid - lo
  {
    if lo < mid {
      ChildrenSplit(lv, p, lo + 1, mid, hi);
      var x := if Parent(lv, lo) == p then [lo] else [];
      var y := ChildrenIn(lv, p, lo + 1, mid);
      var z := ChildrenIn(lv, p, mid, hi);
      assert x + (y + z) == (x + y) + z;
    }
  }

  /** A range holding no child of `p` contributes none. */
  lemma {:induction false} ChildrenNone(lv: seq<nat>, p: int, lo: nat, hi: nat)
    requires hi <= |lv|
    requires forall m :: lo <= m < hi ==> Parent(lv, m) != p
    ensures ChildrenIn(lv, p, lo, hi) == []
    decreases hi - lo
  {
    if lo < hi {
      ChildrenNone(lv, p, lo + 1, hi);
    }
  }

  /** Appending nodes does not change the children found among the earlier ones. */
  lemma {:induction false} ChildrenPrefix(lv: seq<nat>, lv2: seq<nat>, p: int, lo: nat, hi: nat)
    requires hi <= |lv| <= |lv2| && lv == lv2[..|lv|]
    ensures ChildrenIn(lv2, p, lo, hi) == ChildrenIn(lv, p, lo, hi)
    decreases hi - lo
  {
    if lo < hi {
      ParentPrefix(lv, lv2, lo);
      ChildrenPrefix(lv, lv2, p, lo + 1, hi);
    }
  }

  // ---------------------------------------------------------------------------------------------
  // The open ancestors of a node
  // ---------------------------------------------------------------------------------------------

  /** Node `k` and its ancestors, root first: the stack `buildTaskTree` holds after pushing `k`. */
  function SpineOf(lv: seq<nat>, k: int): (r: seq<nat>)
    requires -1 <= k < |lv|
    ensures k == -1 <==> r == []
    ensures r != [] ==> r[|r| - 1] == k
    decreases k + 1
  {
    if k < 0 then [] else SpineOf(lv, Parent(lv, k)) + [k]
  }

  /** Levels strictly increase along a spine, and so do the indices. */
  predicate Ascending(lv: seq<nat>, st: seq<nat>)
  {
    forall a :: 0 < a < |st| ==> st[a - 1] < st[a] < |lv| && lv[st[a - 1]] < lv[st[a]]
  }

  lemma {:induction false} SpineAscending(lv: seq<nat>, k: int)
    requires -1 <= k < |lv|
    ensures Ascending(lv, SpineOf(lv, k))
    decreases k + 1
  {
    if k >= 0 {
      SpineAscending(lv, Parent(lv, k));
    }
  }

  /** Appending nodes does not change the spine of an earlier node. */
  lemma {:induction false} SpinePrefix(lv: seq<nat>, lv2: seq<nat>, k: int)
    requires -1 <= k < |lv| <= |lv2| && lv == lv2[..|lv|]
    ensures SpineOf(lv2, k) == SpineOf(lv, k)
    decreases k + 1
  {
    if k >= 0 {
      ParentPrefix(lv, lv2, k);
      SpinePrefix(lv, lv2, Parent(lv, k));
    }
  }

  /**
    Popping an open ancestor `top` whose level is not below `x` loses no candidate parent for a node
    of level `x`: every node between `top`'s parent and `top` has a level of at least `top`'s.
  */
  lemma PopSkips(lv: seq<nat>, x: nat, top: nat)
    requires top < |lv| && lv[top] >= x
    ensures NearestBelow(lv, x, top + 1) == NearestBelow(lv, x, Parent(lv, top) + 1)
  {
    var q := Parent(lv, top);
    assert forall m :: q < m <= top ==> lv[m] >= x;
    NearestBelowUnique(lv, x, top + 1, NearestBelow(lv, x, q + 1));
  }

  // ---------------------------------------------------------------------------------------------
  // Subtree extents
  // ---------------------------------------------------------------------------------------------

  /** Scans for the first node after `j`, from `k` on, whose level is not above `j`'s. */
  function EndFrom(lv: seq<nat>, j: nat, k: nat): (e: nat)
    requires j < k <= |lv|
    requires forall m :: j < m < k ==> lv[m] > lv[j]
    ensures k <= e <= |lv|
    ensures forall m :: j < m < e ==> lv[m] > lv[j]
    ensures e < |lv| ==> lv[e] <= lv[j]
    decreases |lv| - k
  {
    if k == |lv| || lv[k] <= lv[j] then k else EndFrom(lv, j, k + 1)
  }

  /** Where the subtree of node `j` ends: the nodes in `(j, End(j))` all have larger levels. */
  function End(lv: seq<nat>, j: nat): (e: nat)
    requires j < |lv|
    ensures j < e <= |lv|
    ensures forall m :: j < m < e ==> lv[m] > lv[j]
    ensures e < |lv| ==> lv[e] <= lv[j]
  {
    EndFrom(lv, j, j + 1)
  }

  /** The siblings in `[lo, hi)` that follow one another subtree after subtree. */
  function Chain(lv: seq<nat>, lo: nat, hi: nat): (r: seq<nat>)
    requires hi <= |lv|
    ensures forall x :: x in r ==> lo <= x < hi
    decreases hi - lo
  {
    if lo >= hi then [] else [lo] + Chain(lv, End(lv, lo), hi)
  }

  /** No node inside the subtree of `c` is a child of an earlier node `p`. */
  lemma NoChildrenInside(lv: seq<nat>, p: int, c: nat)
    requires c < |lv| && p < c
    ensures ChildrenIn(lv, p, c + 1, End(lv, c)) == []
  {
    var e := End(lv, c);
    forall m | c + 1 <= m < e ensures Parent(lv, m) != p {
      assert lv[c] < lv[m];
    }
    ChildrenNone(lv, p, c + 1, e);
  }

  /** No node from the end of `j`'s subtree on is a child of `j`. */
  lemma NoChildrenAfterEnd(lv: seq<nat>, j: nat)
    requires j < |lv|
    ensures ChildrenIn(lv, j, End(lv, j), |lv|) == []
  {
    var e := End(lv, j);
    forall m | e <= m < |lv| ensures Parent(lv, m) != j {
      ParentIsNearestSmaller(lv, m);
      assert lv[e] <= lv[j];
      if e < m {
        assert Parent(lv, m) >= e || lv[e] >= lv[m];
      }
    }
    ChildrenNone(lv, j, e, |lv|);
  }

  /** No node up to `j` is a child of `j`. */
  lemma NoChildrenBefore(lv: seq<nat>, j: nat)
    requires j < |lv|
    ensures ChildrenIn(lv, j, 0, j + 1) == []
  {
    ChildrenNone(lv, j, 0, j + 1);
  }

  /**
    The children of `p` from its child `c` up to the end of `p`'s subtree (or of the whole sequence,
    for the roots) are `c` and the siblings that follow it subtree after subtree.
  */
  lemma {:induction false} ChainIsChildren(lv: seq<nat>, p: int, c: nat, hi: nat)
    requires c <= hi <= |lv|
    requires p == -1 ==> hi == |lv|
    requires p >= 0 ==> p < c && hi == End(lv, p)
    requires c < hi ==> Parent(lv, c) == p
    ensures ChildrenIn(lv, p, c, hi) == Chain(lv, c, hi)
    decreases hi - c
  {
    if c < hi {
      var e := End(lv, c);
      NextSibling(lv, p, c, hi);
      ChildrenSplit(lv, p, c + 1, e, hi);
      NoChildrenInside(lv, p, c);
      ChainIsChildren(lv, p, e, hi);
      var later := ChildrenIn(lv, p, e, hi);
      assert ChildrenIn(lv, p, c + 1, hi) == [] + later == later;
      assert ChildrenIn(lv, p, c, hi) == [c] + later;
    }
  }

  /** The node after the subtree of a child `c` of `p` is, when still inside `p`'s range, the next child of `p`. */
  lemma NextSibling(lv: seq<nat>, p: int, c: nat, hi: nat)
    requires c < hi <= |lv|
    requires p == -1 ==> hi == |lv|
    requires p >= 0 ==> p < c && hi == End(lv, p)
    requires Parent(lv, c) == p
    ensures End(lv, c) <= hi
    ensures End(lv, c) < hi ==> Parent(lv, End(lv, c)) == p
  {
    var e := End(lv, c);
    if hi < |lv| {
      assert lv[hi] <= lv[p] < lv[c];
    }
    if e < hi {
      assert lv[e] <= lv[c];
      assert p >= 0 ==> lv[p] < lv[e];
      forall m | p < m < e ensures lv[m] >= lv[e] {
        if m <= c {
          assert lv[m] >= lv[c];
        }
      }
      NearestBelowUnique(lv, lv[e], e, p);
    }
  }

  /** The children of `j` are its first child and the siblings after it, subtree after subtree. */
  lemma KidsAreChain(lv: seq<nat>, j: nat)
    requires j < |lv|
    ensures ChildrenIn(lv, j, 0, |lv|) == Chain(lv, j + 1, End(lv, j))
  {
    var e := End(lv, j);
    ChildrenSplit(lv, j, 0, j + 1, |lv|);
    ChildrenSplit(lv, j, j + 1, e, |lv|);
    NoChildrenBefore(lv, j);
    NoChildrenAfterEnd(lv, j);
    if j + 1 < e {
      NearestBelowUnique(lv, lv[j + 1], j + 1, j);
    }
    ChainIsChildren(lv, j, j + 1, e);
  }

  /** The roots are the first node and the nodes that follow it, subtree after subtree. */
  lemma RootsAreChain(lv: seq<nat>)
    ensures ChildrenIn(lv, -1, 0, |lv|) == Chain(lv, 0, |lv|)
  {
    ChainIsChildren(lv, -1, 0, |lv|);
  }

  // ---------------------------------------------------------------------------------------------
  // Assembling the forest
  // ---------------------------------------------------------------------------------------------

  /** A children table in which every child comes after its parent. */
  predicate KidsAfter(n: nat, kids: seq<seq<nat>>)
  {
    |kids| == n && forall j, x :: 0 <= j < n && x in kids[j] ==> j < x < n
  }

  /** Node `j` with its children table entry turned into child nodes, recursively. */
  function Assemble(ns: seq<RoadmapTask>, kids: seq<seq<nat>>, j: nat): RoadmapTask
    requires KidsAfter(|ns|, kids) && j < |ns|
    decreases |ns| - j, 1, 0
  {
    ns[j].(children := AssembleAll(ns, kids, kids[j], j))
  }

  /** The nodes `ks`, all after `bound`, each assembled. */
  function AssembleAll(ns: seq<RoadmapTask>, kids: seq<seq<nat>>, ks: seq<nat>, bound: int): (r: seq<RoadmapTask>)
    requires KidsAfter(|ns|, kids) && forall x :: x in ks ==> bound < x < |ns|
    ensures |r| == |ks|
    decreases |ns| - bound, 0, |ks|
  {
    if ks == [] then []
    else
      assert ks[0] in ks && forall x :: x in ks[1..] ==> x in ks;
      [Assemble(ns, kids, ks[0])] + AssembleAll(ns, kids, ks[1..], bound)
  }

  /** The children table the levels determine. */
  function KidsTable(ns: seq<RoadmapTask>): (kids: seq<seq<nat>>)
    ensures KidsAfter(|ns|, kids)
  {
    var lv := Levels(ns);
    var kids := seq(|ns|, j requires 0 <= j < |ns| => ChildrenIn(lv, j, 0, |ns|));
    assert forall j, x :: 0 <= j < |ns| && x in kids[j] ==> j < x < |ns| by {
      forall j, x | 0 <= j < |ns| && x in kids[j] ensures j < x < |ns| {
        assert Parent(lv, x) == j;
      }
    }
    kids
  }

  /** The forest `buildTaskTree` returns for the node sequence `ns`, before sorting. */
  function Forest(ns: seq<RoadmapTask>): seq<RoadmapTask>
  {
    AssembleAll(ns, KidsTable(ns), ChildrenIn(Levels(ns), -1, 0, |ns|), -1)
  }

  /** The assembled nodes `lo`, ..., `hi - 1`. */
  function AssembleRange(ns: seq<RoadmapTask>, kids: seq<seq<nat>>, lo: nat, hi: nat): (r: seq<RoadmapTask>)
    requires KidsAfter(|ns|, kids) && hi <= |ns|
    ensures |r| == if lo <= hi then hi - lo else 0
    ensures forall i :: 0 <= i < |r| ==> r[i] == Assemble(ns, kids, lo + i)
    decreases hi - lo
  {
    if lo >= hi then [] else [Assemble(ns, kids, lo)] + AssembleRange(ns, kids, lo + 1, hi)
  }

  lemma {:induction false} AssembleRangeSplit(ns: seq<RoadmapTask>, kids: seq<seq<nat>>, lo: nat, mid: nat, hi: nat)
    requires KidsAfter(|ns|, kids) && lo <= mid <= hi <= |ns|
    ensures AssembleRange(ns, kids, lo, hi) == AssembleRange(ns, kids, lo, mid) + AssembleRange(ns, kids, mid, hi)
  {
    var a, b, c := AssembleRange(ns, kids, lo, hi), AssembleRange(ns, kids, lo, mid), AssembleRange(ns, kids, mid, hi);
    assert |a| == |b + c|;
    forall i | 0 <= i < |a| ensures a[i] == (b + c)[i] {
      if i >= |b| {
        assert (b + c)[i] == c[i - |b|];
      }
    }
  }

  lemma AssembleAllCons(ns: seq<RoadmapTask>, kids: seq<seq<nat>>, k: nat, rest: seq<nat>, bound: int)
    requires KidsAfter(|ns|, kids) && bound < k < |ns| && forall x :: x in rest ==> bound < x < |ns|
    ensures AssembleAll(ns, kids, [k] + rest, bound) == [Assemble(ns, kids, k)] + AssembleAll(ns, kids, rest, bound)
  {
    var ks := [k] + rest;
    assert ks[0] == k && ks[1..] == rest;
  }

  /** Pre-order of a node followed by its later siblings. */
  lemma PreorderCons(head: RoadmapTask, tail: seq<RoadmapTask>, below: seq<RoadmapTask>, after: seq<RoadmapTask>)
    requires Flatten(head.children) == below && Flatten(tail) == after
    ensures Flatten([head] + tail) == [head] + (below + after)
  {
    var ts := [head] + tail;
    assert ts[0] == head && ts[1..] == tail;
    ConcatAssoc([head], below, after);
  }

  /** Inside the subtree of `lo`, every subtree ends by the end of `lo`'s. */
  lemma SubtreeClosed(lv: seq<nat>, lo: nat)
    requires lo < |lv|
    ensures forall m :: lo + 1 <= m < End(lv, lo) ==> End(lv, m) <= End(lv, lo)
  {
    var e := End(lv, lo);
    forall m | lo + 1 <= m < e ensures End(lv, m) <= e {
      if e < |lv| {
        assert lv[e] <= lv[lo] < lv[m];
      }
    }
  }

  /** The subtrees of the chain `[lo, hi)`, listed in pre-order, are the nodes `lo` to `hi - 1` in order. */
  lemma {:induction false} ChainPreorder(ns: seq<RoadmapTask>, lo: nat, hi: nat, bound: int)
    requires hi <= |ns| && bound < lo
    requires forall m :: lo <= m < hi ==> End(Levels(ns), m) <= hi
    ensures Flatten(AssembleAll(ns, KidsTable(ns), Chain(Levels(ns), lo, hi), bound))
         == AssembleRange(ns, KidsTable(ns), lo, hi)
    decreases hi - lo
  {
    var lv, kids := Levels(ns), KidsTable(ns);
    if lo < hi {
      var e := End(lv, lo);
      var rest := Chain(lv, e, hi);
      assert Chain(lv, lo, hi) == [lo] + rest;
      AssembleAllCons(ns, kids, lo, rest, bound);
      var head := Assemble(ns, kids, lo);
      // the children of `lo` are the chain inside its subtree
      KidsAreChain(lv, lo);
      SubtreeClosed(lv, lo);
      ChainPreorder(ns, lo + 1, e, lo);
      ChainPreorder(ns, e, hi, bound);
      PreorderCons(head, AssembleAll(ns, kids, rest, bound), AssembleRange(ns, kids, lo + 1, e), AssembleRange(ns, kids, e, hi));
      AssembleRangeSplit(ns, kids, lo, lo + 1, hi);
      AssembleRangeSplit(ns, kids, lo + 1, e, hi);
      assert AssembleRange(ns, kids, lo, lo + 1) == [head];
    }
  }

  /**
    Every node appears exactly once in the forest, and in line order: the pre-order list of the
    forest is the node sequence, each node carrying its assembled children.
  */
  lemma ForestPreorder(ns: seq<RoadmapTask>)
    ensures |Flatten(Forest(ns))| == |ns|
    ensures forall i :: 0 <= i < |ns| ==> Flatten(Forest(ns))[i] == Assemble(ns, KidsTable(ns), i)
    ensures forall i :: 0 <= i < |ns| ==> Flatten(Forest(ns))[i].(children := ns[i].children) == ns[i]
  {
    var lv := Levels(ns);
    RootsAreChain(lv);
    ChainPreorder(ns, 0, |ns|, -1);
  }

  /** The `k`-th assembled node of `ks` is node `ks[k]` assembled. */
  lemma {:induction false} AssembleAllAt(ns: seq<RoadmapTask>, kids: seq<seq<nat>>, ks: seq<nat>, bound: int, k: nat)
    requires KidsAfter(|ns|, kids) && (forall x :: x in ks ==> bound < x < |ns|) && k < |ks|
    ensures ks[k] < |ns| && AssembleAll(ns, kids, ks, bound)[k] == Assemble(ns, kids, ks[k])
    decreases k
  {
    assert ks[k] in ks;
    if k > 0 {
      assert forall x :: x in ks[1..] ==> x in ks;
      AssembleAllAt(ns, kids, ks[1..], bound, k - 1);
    }
  }

  /**
    The children of every node are, in line order, the nodes whose parent it is (its nearest
    preceding node of a smaller level), and each child is deeper than its parent.
  */
  lemma ForestChildren(ns: seq<RoadmapTask>, i: nat)
    requires i < |ns|
    ensures var f, ks := Flatten(Forest(ns)), ChildrenIn(Levels(ns), i, 0, |ns|);
      && |f| == |ns|
      && |f[i].children| == |ks|
      && forall k :: 0 <= k < |ks| ==>
           && i < ks[k] < |ns| && Parent(Levels(ns), ks[k]) == i
           && f[i].children[k] == f[ks[k]]
           && f[i].level < f[i].children[k].level
  {
    var lv, kids, f, ks := Levels(ns), KidsTable(ns), Flatten(Forest(ns)), ChildrenIn(Levels(ns), i, 0, |ns|);
    ForestPreorder(ns);
    assert f[i] == Assemble(ns, kids, i);
    assert kids[i] == ks;
    forall k | 0 <= k < |ks|
      ensures i < ks[k] < |ns| && Parent(lv, ks[k]) == i
      ensures f[i].children[k] == f[ks[k]] && f[i].level < f[i].children[k].level
    {
      assert ks[k] in ks;
      AssembleAllAt(ns, kids, ks, i, k);
      ParentIsNearestSmaller(lv, ks[k]);
    }
  }

  /** The roots are, in line order, the nodes with no shallower node before them. */
  lemma ForestRoots(ns: seq<RoadmapTask>)
    ensures var f, rs := Flatten(Forest(ns)), ChildrenIn(Levels(ns), -1, 0, |ns|);
      && |f| == |ns| && |Forest(ns)| == |rs|
      && forall k :: 0 <= k < |rs| ==>
           && rs[k] < |ns| && Forest(ns)[k] == f[rs[k]]
           && forall m :: 0 <= m < rs[k] ==> ns[m].level >= ns[rs[k]].level
  {
    var lv, kids, f, rs := Levels(ns), KidsTable(ns), Flatten(Forest(ns)), ChildrenIn(Levels(ns), -1, 0, |ns|);
    ForestPreorder(ns);
    forall k | 0 <= k < |rs|
      ensures rs[k] < |ns| && Forest(ns)[k] == f[rs[k]]
      ensures forall m :: 0 <= m < rs[k] ==> ns[m].level >= ns[rs[k]].level
    {
      assert rs[k] in rs;
      AssembleAllAt(ns, kids, rs, -1, k);
      ParentIsNearestSmaller(lv, rs[k]);
    }
  }
}
