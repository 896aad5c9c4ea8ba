/**
  `detect_circular_dependencies`: a depth-first search over the hard
  "dependents" relation (from a course to the courses that list it as a
  non-co-requisite prerequisite). The closure state of the source (`visited`,
  the per-root `path` set and the `cycles` list) becomes the fields of a
  class; ghost fields record the DFS stack behind `path` and the finishing
  order of the nodes, which is what the proofs need.
 */
module CycleDetection {
  import opened CourseModels
  import opened Recommendations

  /** `b` depends on `a` through a hard prerequisite row: the search may step from `a` to `b`. */
  ghost predicate HardEdge(edges: seq<Prerequisite>, a: CourseId, b: CourseId)
  {
    exists e :: e in edges && IsHard(e) && e.prerequisiteCourse == a && e.course == b
  }

  /** Consecutive entries of `w` are joined by hard edges. */
  ghost predicate Chain(edges: seq<Prerequisite>, w: seq<CourseId>)
  {
    forall i :: 0 <= i < |w| - 1 ==> HardEdge(edges, w[i], w[i + 1])
  }

  /** `w` is a walk along hard edges from `source` to `target` (a single node is a walk of length 0). */
  ghost predicate IsWalk(edges: seq<Prerequisite>, w: seq<CourseId>, source: CourseId, target: CourseId)
  {
    |w| > 0 && w[0] == source && w[|w| - 1] == target && Chain(edges, w)
  }

  /**
    A reported pair `(node, dependent)` closes a cycle: `dependent` depends on
    `node` and `node` is reachable from `dependent`.
   */
  ghost predicate ClosesCycle(edges: seq<Prerequisite>, p: (CourseId, CourseId))
  {
    HardEdge(edges, p.0, p.1) && exists w :: IsWalk(edges, w, p.1, p.0)
  }

  /** The hard prerequisite relation has a cycle. */
  ghost predicate HasCycle(edges: seq<Prerequisite>)
  {
    exists a, b :: ClosesCycle(edges, (a, b))
  }

  /** Along every hard edge leaving a ranked course, the rank strictly drops. */
  ghost predicate RanksDown(edges: seq<Prerequisite>, rank: map<CourseId, nat>)
  {
    forall e :: e in edges && IsHard(e) && e.prerequisiteCourse in rank ==>
      e.course in rank && rank[e.course] < rank[e.prerequisiteCourse]
  }

  lemma {:induction false} RankDecreasesAlongWalk(edges: seq<Prerequisite>, rank: map<CourseId, nat>, w: seq<CourseId>)
    requires RanksDown(edges, rank) && |w| > 0 && w[0] in rank && Chain(edges, w)
    ensures w[|w| - 1] in rank && rank[w[|w| - 1]] <= rank[w[0]]
  {
    if |w| > 1 {
      assert HardEdge(edges, w[0], w[1]);
      assert Chain(edges, w[1..]) by {
        forall i | 0 <= i < |w[1..]| - 1 ensures HardEdge(edges, w[1..][i], w[1..][i + 1]) {
          assert w[1..][i] == w[i + 1] && w[1..][i + 1] == w[i + 2];
        }
      }
      RankDecreasesAlongWalk(edges, rank, w[1..]);
      assert w[1..][|w[1..]| - 1] == w[|w| - 1];
    }
  }

  /** `m2` keeps every entry of `m1`. */
  ghost predicate Extends(m1: map<CourseId, nat>, m2: map<CourseId, nat>)
  {
    forall k :: k in m1 ==> k in m2 && m2[k] == m1[k]
  }

  /** Pushing a node reached by a hard edge from the top keeps the stack a chain. */
  lemma PushKeepsChain(edges: seq<Prerequisite>, stack: seq<CourseId>, node: CourseId)
    requires Chain(edges, stack)
    requires stack != [] ==> HardEdge(edges, stack[|stack| - 1], node)
    ensures Chain(edges, stack + [node])
    ensures (set x | x in stack + [node]) == (set x | x in stack) + {node}
  {
    var t := stack + [node];
    forall i | 0 <= i < |t| - 1 ensures HardEdge(edges, t[i], t[i + 1]) {
      if i < |stack| - 1 {
        assert t[i] == stack[i] && t[i + 1] == stack[i + 1];
      }
    }
  }

  /** Any suffix of a chain is a walk from its first node to the top of the stack. */
  lemma SuffixIsWalk(edges: seq<Prerequisite>, stack: seq<CourseId>, k: nat)
    requires Chain(edges, stack) && k < |stack|
    ensures IsWalk(edges, stack[k..], stack[k], stack[|stack| - 1])
  {
    forall m | 0 <= m < |stack[k..]| - 1 ensures HardEdge(edges, stack[k..][m], stack[k..][m + 1]) {
      assert stack[k..][m] == stack[k + m] && stack[k..][m + 1] == stack[k + m + 1];
    }
  }

  /** Ranking a node after all its dependents keeps ranks dropping along edges. */
  lemma FinishKeepsRanksDown(edges: seq<Prerequisite>, rank: map<CourseId, nat>, node: CourseId, clock: nat)
    requires RanksDown(edges, rank) && node !in rank
    requires forall k :: k in rank ==> rank[k] < clock
    requires forall j :: 0 <= j < |DependentsOf(edges, node)| ==> DependentsOf(edges, node)[j] in rank
    ensures RanksDown(edges, rank[node := clock])
  {
    var ds := DependentsOf(edges, node);
    forall e | e in edges && IsHard(e) && e.prerequisiteCourse in rank[node := clock]
      ensures e.course in rank[node := clock] && rank[node := clock][e.course] < rank[node := clock][e.prerequisiteCourse]
    {
      if e.prerequisiteCourse == node {
        assert e.course in ds;
      }
    }
  }

  /** A ranking that drops along every hard edge, defined on every prerequisite course, rules out cycles. */
  lemma RankingExcludesCycles(edges: seq<Prerequisite>, rank: map<CourseId, nat>)
    requires RanksDown(edges, rank)
    requires forall e :: e in edges && IsHard(e) ==> e.prerequisiteCourse in rank
    ensures !HasCycle(edges)
  {
    forall a, b, w | HardEdge(edges, a, b) && |w| > 0 && IsWalk(edges, w, b, w[|w| - 1])
      ensures w[|w| - 1] != a
    {
      var e :| e in edges && IsHard(e) && e.prerequisiteCourse == a && e.course == b;
      RankDecreasesAlongWalk(edges, rank, w);
    }
  }

  /** The state of one run of the detector. */
  class DependencySearch {
    const edges: seq<Prerequisite>
    /** Every course id the search can reach: the catalogue plus every dependent named by a row. */
    const nodes: set<CourseId>
    var visited: set<CourseId>
    var path: set<CourseId>
    var cycles: seq<(CourseId, CourseId)>
    /** The nodes of `path` in the order the search entered them. */
    ghost var stack: seq<CourseId>
    /** Finishing order of the nodes the search has left without finding a cycle. */
    ghost var rank: map<CourseId, nat>
    ghost var clock: nat

    ghost predicate Valid()
      reads this
    {
      && (forall e :: e in edges ==> e.course in nodes)
      && visited <= nodes
      && path <= visited
      && path == (set x | x in stack)
      && Chain(edges, stack)
      && (forall i :: 0 <= i < |cycles| ==> ClosesCycle(edges, cycles[i]))
    }

    /** While no cycle has been reported: the finished nodes are ranked, in finishing order, downwards along edges. */
    ghost predicate Ranked()
      reads this
    {
      && rank.Keys == visited - path
      && (forall k :: k in rank ==> rank[k] < clock)
      && RanksDown(edges, rank)
    }

    constructor(courseIds: seq<CourseId>, edges: seq<Prerequisite>)
      ensures this.edges == edges
      ensures nodes == (set c | c in courseIds) + (set e | e in edges :: e.course)
      ensures visited == {} && path == {} && cycles == []
      ensures Valid() && Ranked()
    {
      this.edges := edges;
      nodes := (set c | c in courseIds) + (set e | e in edges :: e.course);
      visited := {};
      path := {};
      cycles := [];
      stack := [];
      rank := map[];
      clock := 0;
    }

    /**
      The inner `dfs(node, path)`: enter `node`, try its dependents, and on
      failure leave it again. On success `node` stays on the path, as in the
      source.
     */
    method Dfs(node: CourseId) returns (found: bool)
      requires Valid() && node in nodes && node !in visited
      requires stack != [] ==> HardEdge(edges, stack[|stack| - 1], node)
      requires cycles == [] ==> Ranked()
      modifies this
      decreases nodes - visited, 0
      ensures Valid()
      ensures old(visited) + {node} <= visited
      ensures found ==> |cycles| == |old(cycles)| + 1 && cycles[..|old(cycles)|] == old(cycles)
      ensures !found ==> cycles == old(cycles) && path == old(path) && stack == old(stack)
      ensures !found && cycles == [] ==> Ranked() && node in rank && Extends(old(rank), rank)
    {
      PushKeepsChain(edges, stack, node);
      visited := visited + {node};
      path := path + {node};
      stack := stack + [node];
      found := VisitDependents(node);
      if !found {
        path := path - {node};
        stack := old(stack);
        if cycles == [] {
          FinishKeepsRanksDown(edges, rank, node, clock);
        }
        rank := rank[node := clock];
        clock := clock + 1;
      }
    }

    /**
      The loop of `dfs` over the dependents of `node`, in row order: an
      unvisited dependent is searched, a dependent on the current path is
      reported as `(node, dependent)`, any other visited one is skipped.
     */
    method VisitDependents(node: CourseId) returns (found: bool)
      requires Valid() && node in visited && stack != [] && stack[|stack| - 1] == node
      requires cycles == [] ==> Ranked()
      modifies this
      decreases nodes - visited, 1
      ensures Valid()
      ensures old(visited) <= visited
      ensures found ==> |cycles| == |old(cycles)| + 1 && cycles[..|old(cycles)|] == old(cycles)
      ensures !found ==> cycles == old(cycles) && path == old(path) && stack == old(stack)
      ensures !found && cycles == [] ==>
        && Ranked() && Extends(old(rank), rank)
        && forall j :: 0 <= j < |DependentsOf(edges, node)| ==> DependentsOf(edges, node)[j] in rank
    {
      var dependents := DependentsOf(edges, node);
      for i := 0 to |dependents|
        invariant Valid()
        invariant old(visited) <= visited
        invariant path == old(path) && stack == old(stack)
        invariant cycles == old(cycles)
        invariant cycles == [] ==>
          && Ranked() && Extends(old(rank), rank)
          && forall j :: 0 <= j < i ==> dependents[j] in rank
      {
        var dependent := dependents[i];
        assert dependent in dependents;
        assert HardEdge(edges, node, dependent);
        if dependent !in visited {
          var sub := Dfs(dependent);
          if sub {
            return true;
          }
        } else if dependent in path {
          ghost var k :| 0 <= k < |stack| && stack[k] == dependent;
          SuffixIsWalk(edges, stack, k);
          cycles := cycles + [(node, dependent)];
          return true;
        }
      }
      return false;
    }
  }

  /**
    `detect_circular_dependencies`: a search from every course not yet
    visited, each with a fresh path. Every reported pair closes a cycle, at
    most one pair is reported per root, and the list is empty exactly when
    the hard prerequisite relation is acyclic. Every row's two courses are
    catalogue courses (foreign keys).
   */
  method DetectCircularDependencies(courseIds: seq<CourseId>, edges: seq<Prerequisite>)
    returns (cycles: seq<(CourseId, CourseId)>)
    requires forall e :: e in edges ==> e.course in courseIds && e.prerequisiteCourse in courseIds
    ensures forall i :: 0 <= i < |cycles| ==> ClosesCycle(edges, cycles[i])
    ensures cycles == [] <==> !HasCycle(edges)
    ensures |cycles| <= |courseIds|
  {
    var search := new DependencySearch(courseIds, edges);
    for i := 0 to |courseIds|
      invariant search.Valid() && search.edges == edges
      invariant search.nodes == (set c | c in courseIds) + (set e | e in edges :: e.course)
      invariant |search.cycles| <= i
      invariant search.cycles == [] ==>
        search.Ranked() && search.path == {} && forall j :: 0 <= j < i ==> courseIds[j] in search.visited
    {
      if courseIds[i] !in search.visited {
        search.path := {};
        search.stack := [];
        var _ := search.Dfs(courseIds[i]);
      }
    }
    cycles := search.cycles;
    if cycles == [] {
      forall e | e in edges && IsHard(e) ensures e.prerequisiteCourse in search.rank {
        var j :| 0 <= j < |courseIds| && courseIds[j] == e.prerequisiteCourse;
      }
      RankingExcludesCycles(edges, search.rank);
    } else {
      assert ClosesCycle(edges, (cycles[0].0, cycles[0].1));
    }
  }
}
