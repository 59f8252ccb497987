/**
 * DetectCycle of internal/domain/bom.go: a depth-first search over a dependency
 * map from component ID to the IDs it depends on, with a `visited` set and an
 * on-path `stack` set, that stops at the first edge back into the current path.
 * IDs that are referenced but are not keys have no outgoing edges.
 */
module CycleDetection {

  /**
   * A dependency map from an ID to the IDs it depends on. The source's IDs are
   * strings; the search only compares them for equality, so the model is generic.
   */
  type Deps<Id> = map<Id, seq<Id>>

  /** The dependencies of `n`; empty for an ID that is not a key (Go's nil slice). */
  function Succ<Id(!new)>(deps: Deps<Id>, n: Id): seq<Id> {
    if n in deps then deps[n] else []
  }

  predicate Edge<Id(==,!new)>(deps: Deps<Id>, u: Id, v: Id) {
    v in Succ(deps, u)
  }

  /** Every ID the map mentions, as a key or as a dependency. */
  function Nodes<Id(!new)>(deps: Deps<Id>): set<Id> {
    deps.Keys + set k, v | k in deps && v in deps[k] :: v
  }

  /** Consecutive elements of `p` are joined by edges. */
  ghost predicate IsPath<Id(!new)>(deps: Deps<Id>, p: seq<Id>) {
    forall i, j :: 0 <= i && j == i + 1 && j < |p| ==> Edge(deps, p[i], p[j])
  }

  /** A closed walk: a non-empty path whose last element has an edge back to its first. */
  ghost predicate IsCycle<Id(!new)>(deps: Deps<Id>, p: seq<Id>) {
    |p| > 0 && IsPath(deps, p) && Edge(deps, p[|p| - 1], p[0])
  }

  /**
   * The graph has a cycle. Every node of a cycle has an outgoing edge and so is a
   * key: a cycle is always reachable from some key.
   */
  ghost predicate HasCycle<Id(!new)>(deps: Deps<Id>) {
    exists p :: IsCycle(deps, p)
  }

  /**
   * `rank` is a finishing order: every ranked node's dependencies are ranked
   * strictly lower.
   */
  ghost predicate RankedDownward<Id(!new)>(deps: Deps<Id>, rank: map<Id, nat>) {
    forall b, c :: b in rank && Edge(deps, b, c) ==> c in rank && rank[c] < rank[b]
  }

  /** Ranks fall by at least one per edge along a path of ranked nodes. */
  lemma {:induction false} RankFallsAlongPath<Id(!new)>(deps: Deps<Id>, rank: map<Id, nat>, p: seq<Id>, k: nat)
    requires RankedDownward(deps, rank)
    requires IsPath(deps, p) && 0 < |p| && p[0] in rank && k < |p|
    ensures p[k] in rank && rank[p[k]] + k <= rank[p[0]]
  {
    if k > 0 {
      RankFallsAlongPath(deps, rank, p, k - 1);
      assert Edge(deps, p[k - 1], p[k]);
    }
  }

  /** A finishing order that covers every key rules out every cycle. */
  lemma NoCycleUnderRanking<Id(!new)>(deps: Deps<Id>, rank: map<Id, nat>)
    requires RankedDownward(deps, rank)
    requires deps.Keys <= rank.Keys
    ensures !HasCycle(deps)
  {
    if p :| IsCycle(deps, p) {
      var last := |p| - 1;
      assert Edge(deps, p[0], p[if last > 0 then 1 else 0]);
      assert Edge(deps, p[last], p[0]);
      RankFallsAlongPath(deps, rank, p, last);
    }
  }

  /**
   * Finishing a node whose dependencies have all finished, with a rank above every
   * earlier one, keeps the finishing order downward.
   */
  lemma FinishExtendsRanking<Id(!new)>(deps: Deps<Id>, rank: map<Id, nat>, clock: nat, node: Id)
    requires RankedDownward(deps, rank) && node !in rank
    requires forall b :: b in rank ==> rank[b] < clock
    requires forall c :: Edge(deps, node, c) ==> c in rank && rank[c] < clock
    ensures RankedDownward(deps, rank[node := clock])
  {
  }

  /** A path extended by an edge out of its last node is still a path. */
  lemma ExtendPath<Id(!new)>(deps: Deps<Id>, path: seq<Id>, node: Id)
    requires IsPath(deps, path)
    requires path != [] ==> Edge(deps, path[|path| - 1], node)
    ensures IsPath(deps, path + [node])
  {
    var p := path + [node];
    forall i | 0 <= i < |p| - 1
      ensures Edge(deps, p[i], p[i + 1])
    {
      if i < |path| - 1 {
        assert Edge(deps, path[i], path[i + 1]);
      }
    }
  }

  /**
   * `onStack` holds exactly the nodes of `path`: each member sits on it at the
   * position `at` gives, and each node of the path is a member.
   */
  ghost predicate OnPath<Id(!new)>(onStack: set<Id>, path: seq<Id>, at: map<Id, nat>) {
    && (forall x :: x in onStack ==> x in at && at[x] < |path| && path[at[x]] == x)
    && (forall k :: 0 <= k < |path| ==> path[k] in onStack)
  }

  lemma PushOnPath<Id(!new)>(onStack: set<Id>, path: seq<Id>, at: map<Id, nat>, node: Id)
    requires OnPath(onStack, path, at)
    ensures OnPath(onStack + {node}, path + [node], at[node := |path|])
  {
  }

  lemma PrefixStaysIn<Id(!new)>(s: seq<Id>, i: nat, before: set<Id>, after: set<Id>)
    requires i < |s| && before <= after && s[i] in after
    requires forall j :: 0 <= j < i ==> s[j] in before
    ensures forall j :: 0 <= j <= i ==> s[j] in after
  {
  }

  /** Each dependency of a key is an edge target and one of the map's IDs. */
  lemma DependencyIsNode<Id(!new)>(deps: Deps<Id>, node: Id, i: nat)
    requires i < |Succ(deps, node)|
    ensures Edge(deps, node, Succ(deps, node)[i]) && Succ(deps, node)[i] in Nodes(deps)
  {
    assert node in deps && Succ(deps, node)[i] in deps[node];
  }

  /** The tail of a path that starts at `node` and ends with an edge back to it is a cycle. */
  lemma ClosePath<Id(!new)>(deps: Deps<Id>, path: seq<Id>, j: nat, node: Id)
    requires IsPath(deps, path) && j < |path| && path[j] == node
    requires Edge(deps, path[|path| - 1], node)
    ensures HasCycle(deps)
  {
    var c := path[j..];
    forall i | 0 <= i < |c| - 1
      ensures Edge(deps, c[i], c[i + 1])
    {
      assert Edge(deps, path[j + i], path[j + i + 1]);
    }
    assert IsCycle(deps, c);
  }

  /** `b` can be reached from `a` by following zero or more dependency edges. */
  ghost predicate Reaches<Id(!new)>(deps: Deps<Id>, a: Id, b: Id) {
    exists p :: IsPath(deps, p) && |p| > 0 && p[0] == a && p[|p| - 1] == b
  }

  lemma ReachesSelf<Id(!new)>(deps: Deps<Id>, a: Id)
    ensures Reaches(deps, a, a)
  {
    assert IsPath(deps, [a]);
  }

  /** An edge followed by a walk is a walk. */
  lemma ReachesStep<Id(!new)>(deps: Deps<Id>, a: Id, b: Id, x: Id)
    requires Edge(deps, a, b) && Reaches(deps, b, x)
    ensures Reaches(deps, a, x)
  {
    var p :| IsPath(deps, p) && |p| > 0 && p[0] == b && p[|p| - 1] == x;
    var q := [a] + p;
    forall i | 0 <= i < |q| - 1
      ensures Edge(deps, q[i], q[i + 1])
    {
      if i > 0 {
        assert Edge(deps, p[i - 1], p[i]);
      }
    }
    assert IsPath(deps, q) && q[|q| - 1] == x;
  }

  /** Everything reachable from a node of a downward ranking is ranked as well. */
  lemma ReachedAreRanked<Id(!new)>(deps: Deps<Id>, rank: map<Id, nat>, a: Id)
    requires RankedDownward(deps, rank) && a in rank
    ensures forall x :: Reaches(deps, a, x) ==> x in rank
  {
    forall x | Reaches(deps, a, x)
      ensures x in rank
    {
      var p :| IsPath(deps, p) && |p| > 0 && p[0] == a && p[|p| - 1] == x;
      RankFallsAlongPath(deps, rank, p, |p| - 1);
    }
  }

  /**
   * If what was newly visited so far is reachable from `node`, and a visit of its
   * dependency `c` adds only nodes reachable from `c`, then everything newly
   * visited is still reachable from `node`.
   */
  lemma NewlyVisitedReached<Id(!new)>(deps: Deps<Id>, node: Id, c: Id, start: set<Id>, before: set<Id>, after: set<Id>)
    requires Edge(deps, node, c)
    requires forall x :: x in before - start ==> Reaches(deps, node, x)
    requires forall x :: x in after - before ==> Reaches(deps, c, x)
    ensures forall x :: x in after - start ==> Reaches(deps, node, x)
  {
    forall x | x in after - start
      ensures Reaches(deps, node, x)
    {
      if x !in before {
        ReachesStep(deps, node, c, x);
      }
    }
  }

  /** Dropping one more member of `nodes` from the unvisited part shrinks it. */
  lemma UnvisitedShrinks<Id>(nodes: set<Id>, before: set<Id>, after: set<Id>, n: Id)
    requires before <= after && n in nodes && n in after && n !in before
    ensures |nodes - after| < |nodes - before|
  {
    var x, y := nodes - after, (nodes - before) - {n};
    assert x <= y;
    assert y == x + (y - x);
    assert |y| == |nodes - before| - 1;
  }

  /**
   * The state the Go closure `visit` shares: the dependency map, the `visited` and
   * `stack` sets (Go's maps to bool, where `stack[n] = false` removes n), and, as
   * ghost state, the order in which nodes finished.
   */
  class CycleDetector<Id(==,!new)> {
    const deps: Deps<Id>
    var visited: set<Id>
    var stack: set<Id>
    ghost var finish: map<Id, nat>
    ghost var clock: nat

    /**
     * `stack` lies inside `visited`; the finished nodes are exactly the visited ones
     * off the stack, and they are ranked downward, so none of them lies on a cycle.
     */
    ghost predicate Valid()
      reads this
    {
      && stack <= visited
      && finish.Keys == visited - stack
      && RankedDownward(deps, finish)
      && (forall b :: b in finish ==> finish[b] < clock)
    }

    constructor (deps: Deps<Id>)
      ensures this.deps == deps && Valid()
      ensures visited == {} && stack == {}
    {
      this.deps := deps;
      visited, stack := {}, {};
      finish, clock := map[], 0;
    }

    /** `visited[node] = true; stack[node] = true`: node goes on the path. */
    method Enter(node: Id)
      requires Valid() && node !in visited
      modifies this
      ensures Valid()
      ensures visited == old(visited) + {node} && stack == old(stack) + {node}
      ensures finish == old(finish) && clock == old(clock)
    {
      visited := visited + {node};
      stack := stack + {node};
    }

    /**
     * `stack[node] = false`: node leaves the path once all its dependencies have
     * finished, and finishes itself, ranked above everything finished before.
     */
    method Leave(node: Id)
      requires Valid() && node in stack
      requires forall c :: Edge(deps, node, c) ==> c in finish
      modifies this
      ensures Valid()
      ensures visited == old(visited) && stack == old(stack) - {node}
      ensures old(finish).Keys <= finish.Keys && node in finish
      ensures finish == old(finish)[node := old(clock)] && clock == old(clock) + 1
    {
      FinishExtendsRanking(deps, finish, clock, node);
      stack := stack - {node};
      finish := finish[node := clock];
      clock := clock + 1;
    }

    /**
     * visit(node). `path` is the current DFS path, whose nodes `stack` holds (`at`
     * gives each one's position on it), and `node` is a dependency of its last node.
     * A true result is only ever given for a graph with a cycle. A false result
     * leaves `stack` as it was, with `node` and everything visited before finished.
     */
    method Visit(node: Id, ghost path: seq<Id>, ghost at: map<Id, nat>) returns (found: bool)
      requires Valid()
      requires node in Nodes(deps)
      requires IsPath(deps, path)
      requires OnPath(stack, path, at)
      requires path != [] ==> Edge(deps, path[|path| - 1], node)
      modifies this
      decreases |Nodes(deps) - visited|
      ensures found ==> HasCycle(deps)
      ensures !found ==> Valid() && stack == old(stack)
      ensures !found ==> old(visited) <= visited && node in visited && node !in stack
      ensures !found ==> old(finish).Keys <= finish.Keys && node in finish
      ensures !found ==> forall x :: x in visited - old(visited) ==> Reaches(deps, node, x)
      ensures !found ==> forall x :: Reaches(deps, node, x) ==> x in visited
    {
      if node in stack {
        ClosePath(deps, path, at[node], node);
        return true;
      }
      if node in visited {
        ReachedAreRanked(deps, finish, node);
        return false;
      }
      ghost var visited0, stack0 := visited, stack;
      Enter(node);
      var succ := Succ(deps, node);
      ghost var path', at' := path + [node], at[node := |path|];
      ExtendPath(deps, path, node);
      PushOnPath(stack0, path, at, node);
      ReachesSelf(deps, node);
      for i := 0 to |succ|
        invariant Valid() && stack == stack0 + {node}
        invariant visited0 <= visited && node in visited
        invariant forall j :: 0 <= j < i ==> succ[j] in finish
        invariant forall x :: x in visited - visited0 ==> Reaches(deps, node, x)
      {
        DependencyIsNode(deps, node, i);
        UnvisitedShrinks(Nodes(deps), visited0, visited, node);
        ghost var finished, before := finish.Keys, visited;
        found := Visit(succ[i], path', at');
        if found {
          return true;
        }
        NewlyVisitedReached(deps, node, succ[i], visited0, before, visited);
        PrefixStaysIn(succ, i, finished, finish.Keys);
      }
      forall c | Edge(deps, node, c)
        ensures c in finish
      {
        var j :| 0 <= j < |succ| && succ[j] == c;
      }
      Leave(node);
      ReachedAreRanked(deps, finish, node);
      assert stack == stack0;
      found := false;
    }
  }

  /**
   * DetectCycle: true exactly when the dependency graph has a cycle. Keys are tried
   * in an arbitrary order (Go's map order is random); the result does not depend on it.
   */
  method DetectCycle<Id(==,!new)>(deps: Deps<Id>) returns (r: bool)
    ensures r == HasCycle(deps)
  {
    var detector := new CycleDetector<Id>(deps);
    var remaining := deps.Keys;
    while remaining != {}
      invariant detector.deps == deps && detector.Valid() && detector.stack == {}
      invariant remaining <= deps.Keys
      invariant deps.Keys - remaining <= detector.visited
      decreases remaining
    {
      var node :| node in remaining;
      var found := detector.Visit(node, [], map[]);
      if found {
        return true;
      }
      remaining := remaining - {node};
    }
    NoCycleUnderRanking(deps, detector.finish);
    r := false;
  }
}

/** The graphs the detector is described with, decided against the specification. */
module CycleExamples {
  import opened CycleDetection

  /** A -> B -> C has no cycle. */
  lemma ChainIsAcyclic()
    ensures !HasCycle(map["A" := ["B"], "B" := ["C"], "C" := []])
  {
    var deps := map["A" := ["B"], "B" := ["C"], "C" := []];
    var rank := map["A" := 2, "B" := 1, "C" := 0];
    assert RankedDownward(deps, rank) by {
      forall b, c | b in rank && Edge(deps, b, c)
        ensures c in rank && rank[c] < rank[b]
      {
        if b == "A" { assert c == "B"; }
        else if b == "B" { assert c == "C"; }
      }
    }
    NoCycleUnderRanking(deps, rank);
  }

  /** A -> B -> C -> A is a cycle. */
  lemma TriangleIsCyclic()
    ensures HasCycle(map["A" := ["B"], "B" := ["C"], "C" := ["A"]])
  {
    var deps := map["A" := ["B"], "B" := ["C"], "C" := ["A"]];
    var p := ["A", "B", "C"];
    assert Edge(deps, p[0], p[1]) && Edge(deps, p[1], p[2]) && Edge(deps, p[2], p[0]);
    assert IsCycle(deps, p);
  }

  /** With no keys there is no edge, so no cycle. */
  lemma EmptyIsAcyclic<Id(!new)>(deps: Deps<Id>)
    requires deps == map[]
    ensures !HasCycle(deps)
  {
    NoCycleUnderRanking(deps, map[]);
  }

  /** A node that depends on itself is a cycle of length one. */
  lemma SelfLoopIsCyclic<Id(!new)>(a: Id)
    ensures HasCycle(map[a := [a]])
  {
    assert IsCycle(map[a := [a]], [a]);
  }

  /** A cycle in one part of a disconnected graph is still a cycle of the graph. */
  lemma DisconnectedCycle()
    ensures HasCycle(map["A" := ["B"], "B" := [], "C" := ["D"], "D" := ["C"]])
  {
    var deps := map["A" := ["B"], "B" := [], "C" := ["D"], "D" := ["C"]];
    assert Edge(deps, "C", "D") && Edge(deps, "D", "C");
    assert IsCycle(deps, ["C", "D"]);
  }

  /** A referenced ID that is not a key is a sink: it has no dependencies. */
  lemma UnlistedIdIsSink<Id(!new)>(deps: Deps<Id>, n: Id, c: Id)
    requires n !in deps
    ensures !Edge(deps, n, c)
  {
  }
}
