/**
 Two searches over finite graphs that may have cycles: the breadth-first dependency search of the
 classical-crypto boundary check (scripts/check_classical_crypto_boundary.py) and the depth-first
 feature closure of the board check (scripts/check_hw_target_boards.py).
 */
module GraphWalks {
  import opened Bytes

  // ---------------------------------------------------------------- the dependency graph

  datatype Kind = Normal | Build | Dev

  datatype Dep = Dep(pkg: string, kinds: set<Kind>)

  /** The resolved dependencies of each package, and the packages whose name is on the list. */
  datatype Graph = Graph(deps: map<string, seq<Dep>>, classical: set<string>)

  function Deps(g: Graph, u: string): seq<Dep> {
    if u in g.deps then g.deps[u] else []
  }

  /** A dependency that is normal or of the build, whatever else it is. */
  predicate Counts(d: Dep) {
    Normal in d.kinds || Build in d.kinds
  }

  ghost predicate Edge(g: Graph, u: string, v: string) {
    exists i :: 0 <= i < |Deps(g, u)| && Deps(g, u)[i].pkg == v
                && (Normal in Deps(g, u)[i].kinds || Build in Deps(g, u)[i].kinds)
  }

  ghost predicate Walk(g: Graph, root: string, p: seq<string>) {
    p != [] && p[0] == root && forall i :: 0 <= i < |p| - 1 ==> Edge(g, p[i], p[i + 1])
  }

  function Last(p: seq<string>): string
    requires p != []
  {
    p[|p| - 1]
  }

  /** Every package the walk can meet. */
  ghost function Packages(g: Graph, root: string): set<string> {
    {root} + set u, i | u in g.deps && 0 <= i < |g.deps[u]| :: g.deps[u][i].pkg
  }

  // ---------------------------------------------------------------- what the search keeps

  /** Each queued path is a walk to a seen package, and no walk to it is shorter. */
  ghost predicate Queued(g: Graph, root: string, queue: seq<seq<string>>, seen: set<string>) {
    forall k :: 0 <= k < |queue| ==> Walk(g, root, queue[k]) && Last(queue[k]) in seen && Shortest(g, root, queue[k])
  }

  ghost predicate Shortest(g: Graph, root: string, q: seq<string>)
    requires q != []
  {
    forall p :: Walk(g, root, p) && Last(p) == Last(q) ==> |p| >= |q|
  }

  /** Paths are queued by length, and the longest is at most one longer than the first. */
  ghost predicate Sorted(queue: seq<seq<string>>) {
    forall j, k :: 0 <= j <= k < |queue| ==> |queue[j]| <= |queue[k]| <= |queue[j]| + 1
  }

  /** Everything that `d` packages can lead to has been seen. */
  ghost predicate Near(g: Graph, root: string, seen: set<string>, d: nat) {
    forall p :: Walk(g, root, p) && |p| <= d ==> Last(p) in seen
  }

  ghost predicate Waiting(queue: seq<seq<string>>, u: string) {
    exists k :: 0 <= k < |queue| && queue[k] != [] && Last(queue[k]) == u
  }

  /** A seen package that waits no more has had all its dependencies seen. */
  ghost predicate Expanded(g: Graph, queue: seq<seq<string>>, seen: set<string>) {
    forall u, v :: u in seen && Edge(g, u, v) && !Waiting(queue, u) ==> v in seen
  }

  ghost predicate Clean(g: Graph, root: string, seen: set<string>) {
    root in seen && seen <= Packages(g, root) && forall u :: u in seen && u in g.classical ==> u == root
  }

  // ---------------------------------------------------------------- expanding one package

  /** Nothing shorter than the path before it leads to a package that has not been seen. */
  lemma NewIsShortest(g: Graph, root: string, seen: set<string>, path: seq<string>, child: string)
    requires Walk(g, root, path) && Edge(g, Last(path), child) && child !in seen && Near(g, root, seen, |path|)
    ensures Walk(g, root, path + [child]) && Shortest(g, root, path + [child])
  {
    var q := path + [child];
    forall i | 0 <= i < |q| - 1
      ensures Edge(g, q[i], q[i + 1])
    {
      if i == |path| - 1 {
        assert q[i] == Last(path);
      }
    }
  }

  /** How far the loop over the dependencies of the last package of `path` has come. */
  ghost predicate Expanding(g: Graph, root: string, path: seq<string>, seen0: set<string>,
                            added: seq<seq<string>>, seen: set<string>) {
    && seen0 <= seen && Clean(g, root, seen) && (added == [] ==> seen == seen0) && (added != [] ==> seen0 < seen)
    && Queued(g, root, added, seen) && (forall k :: 0 <= k < |added| ==> |added[k]| == |path| + 1)
    && forall u :: u in seen && u !in seen0 ==> Waiting(added, u)
  }

  /** A package not seen before is queued. */
  lemma ChildQueued(g: Graph, root: string, path: seq<string>, seen0: set<string>,
                    added: seq<seq<string>>, seen: set<string>, child: string)
    requires Expanding(g, root, path, seen0, added, seen)
    requires Walk(g, root, path) && Edge(g, Last(path), child) && child !in seen && child !in g.classical
    requires Walk(g, root, path + [child]) && Shortest(g, root, path + [child])
    ensures Expanding(g, root, path, seen0, added + [path + [child]], seen + {child})
  {
    assert child in Packages(g, root);
    assert Last(path + [child]) == child;
    AddPath(g, root, added, seen, path + [child]);
  }

  /** The loop over the dependencies of one package: the path found, or the paths to queue. */
  method Expand(g: Graph, root: string, path: seq<string>, seen0: set<string>)
    returns (found: Option<seq<string>>, added: seq<seq<string>>, seen: set<string>)
    requires Walk(g, root, path) && Near(g, root, seen0, |path|) && Clean(g, root, seen0)
    ensures seen0 <= seen && Clean(g, root, seen) && (added == [] ==> seen == seen0)
    ensures added != [] ==> seen0 < seen
    ensures found.Some? ==> Walk(g, root, found.value) && Last(found.value) in g.classical && Last(found.value) != root
    ensures found.Some? ==> |found.value| == |path| + 1 && Shortest(g, root, found.value)
    ensures found.None? ==> forall v :: Edge(g, Last(path), v) ==> v in seen
    ensures Queued(g, root, added, seen) && forall k :: 0 <= k < |added| ==> |added[k]| == |path| + 1
    ensures forall u :: u in seen && u !in seen0 ==> Waiting(added, u)
  {
    added, seen := [], seen0;
    var deps := Deps(g, Last(path));
    for i := 0 to |deps|
      invariant Expanding(g, root, path, seen0, added, seen)
      invariant forall j :: 0 <= j < i && Counts(deps[j]) ==> deps[j].pkg in seen
    {
      if !Counts(deps[i]) {
        continue;
      }
      var child := deps[i].pkg;
      if child in seen {
        continue;
      }
      assert Edge(g, Last(path), child);
      NewIsShortest(g, root, seen, path, child);
      var childPath := path + [child];
      if child in g.classical {
        return Some(childPath), added, seen;
      }
      ChildQueued(g, root, path, seen0, added, seen, child);
      seen := seen + {child};
      added := added + [childPath];
    }
    found := None;
  }

  lemma AddPath(g: Graph, root: string, queue: seq<seq<string>>, seen: set<string>, path: seq<string>)
    requires Queued(g, root, queue, seen) && Walk(g, root, path) && Shortest(g, root, path)
    ensures Queued(g, root, queue + [path], seen + {Last(path)})
    ensures forall u :: u == Last(path) || Waiting(queue, u) ==> Waiting(queue + [path], u)
  {
    var q := queue + [path];
    assert q[|queue|] == path;
    forall u | Waiting(queue, u)
      ensures Waiting(q, u)
    {
      var k :| 0 <= k < |queue| && queue[k] != [] && Last(queue[k]) == u;
      assert q[k] == queue[k];
    }
  }

  // ---------------------------------------------------------------- one turn of the search

  ghost predicate Searching(g: Graph, root: string, queue: seq<seq<string>>, seen: set<string>) {
    && Clean(g, root, seen) && Queued(g, root, queue, seen) && Sorted(queue) && Expanded(g, queue, seen)
    && (queue != [] ==> Near(g, root, seen, |queue[0]|))
  }

  lemma {:induction false} SortedNext(queue: seq<seq<string>>, added: seq<seq<string>>)
    requires queue != [] && Sorted(queue) && forall k :: 0 <= k < |added| ==> |added[k]| == |queue[0]| + 1
    ensures Sorted(queue[1..] + added)
  {
    var q := queue[1..] + added;
    forall j, k | 0 <= j <= k < |q|
      ensures |q[j]| <= |q[k]| <= |q[j]| + 1
    {
      assert j < |queue| - 1 ==> |queue[0]| <= |queue[j + 1]| <= |queue[0]| + 1;
      assert k < |queue| - 1 ==> |queue[j + 1]| <= |queue[k + 1]| <= |queue[j + 1]| + 1;
    }
  }

  lemma QueuedNext(g: Graph, root: string, queue: seq<seq<string>>, added: seq<seq<string>>, seen: set<string>,
                   next: set<string>)
    requires queue != [] && Queued(g, root, queue, seen) && seen <= next && Queued(g, root, added, next)
    ensures Queued(g, root, queue[1..] + added, next)
  {
    var q := queue[1..] + added;
    forall k | 0 <= k < |q|
      ensures Walk(g, root, q[k]) && Last(q[k]) in next && Shortest(g, root, q[k])
    {
      if k < |queue| - 1 {
        assert q[k] == queue[k + 1];
      } else {
        assert q[k] == added[k - (|queue| - 1)];
      }
    }
  }

  lemma WaitingNext(queue: seq<seq<string>>, added: seq<seq<string>>, u: string)
    requires queue != [] && queue[0] != []
    ensures Waiting(added, u) ==> Waiting(queue[1..] + added, u)
    ensures Waiting(queue, u) && u != Last(queue[0]) ==> Waiting(queue[1..] + added, u)
  {
    var q := queue[1..] + added;
    if Waiting(added, u) {
      var k :| 0 <= k < |added| && added[k] != [] && Last(added[k]) == u;
      assert q[|queue| - 1 + k] == added[k];
    }
    if Waiting(queue, u) && u != Last(queue[0]) {
      var k :| 0 <= k < |queue| && queue[k] != [] && Last(queue[k]) == u;
      assert q[k - 1] == queue[k];
    }
  }

  lemma ExpandedNext(g: Graph, root: string, queue: seq<seq<string>>, added: seq<seq<string>>, seen: set<string>,
                     next: set<string>)
    requires queue != [] && queue[0] != [] && Expanded(g, queue, seen) && seen <= next
    requires forall v :: Edge(g, Last(queue[0]), v) ==> v in next
    requires forall u :: u in next && u !in seen ==> Waiting(added, u)
    ensures Expanded(g, queue[1..] + added, next)
  {
    var q := queue[1..] + added;
    forall u, v | u in next && Edge(g, u, v) && !Waiting(q, u)
      ensures v in next
    {
      WaitingNext(queue, added, u);
      if u != Last(queue[0]) {
        assert u in seen;
        assert !Waiting(queue, u);
      }
    }
  }

  lemma WalkInit(g: Graph, root: string, p: seq<string>)
    requires Walk(g, root, p) && |p| > 1
    ensures Walk(g, root, p[..|p| - 1]) && Edge(g, Last(p[..|p| - 1]), Last(p))
  {
    var q := p[..|p| - 1];
    forall i | 0 <= i < |q| - 1
      ensures Edge(g, q[i], q[i + 1])
    {
      assert Edge(g, p[i], p[i + 1]);
    }
    assert Edge(g, p[|p| - 2], p[|p| - 1]);
  }

  /** When nothing waits that is nearer than `d`, everything within `d` packages has been seen. */
  lemma {:induction false} NearGrows(g: Graph, root: string, queue: seq<seq<string>>, seen: set<string>, d: nat)
    requires root in seen && Queued(g, root, queue, seen) && Expanded(g, queue, seen)
    requires forall k :: 0 <= k < |queue| ==> |queue[k]| >= d
    ensures Near(g, root, seen, d)
    decreases d
  {
    if d > 0 {
      NearGrows(g, root, queue, seen, d - 1);
      forall p | Walk(g, root, p) && |p| <= d
        ensures Last(p) in seen
      {
        if |p| > 1 {
          WalkInit(g, root, p);
          var q := p[..|p| - 1];
          assert Last(q) in seen;
          forall k | 0 <= k < |queue| && queue[k] != []
            ensures Last(queue[k]) != Last(q)
          {
            assert Shortest(g, root, queue[k]);
          }
        }
      }
    }
  }

  lemma Turn(g: Graph, root: string, queue: seq<seq<string>>, added: seq<seq<string>>, seen: set<string>,
             next: set<string>)
    requires queue != [] && Searching(g, root, queue, seen) && seen <= next && Clean(g, root, next)
    requires Queued(g, root, added, next) && forall k :: 0 <= k < |added| ==> |added[k]| == |queue[0]| + 1
    requires forall v :: Edge(g, Last(queue[0]), v) ==> v in next
    requires forall u :: u in next && u !in seen ==> Waiting(added, u)
    ensures Searching(g, root, queue[1..] + added, next)
  {
    var q := queue[1..] + added;
    SortedNext(queue, added);
    QueuedNext(g, root, queue, added, seen, next);
    ExpandedNext(g, root, queue, added, seen, next);
    if q != [] {
      forall k | 0 <= k < |q|
        ensures |q[k]| >= |q[0]|
      {
        assert |q[0]| <= |q[k]|;
      }
      NearGrows(g, root, q, next, |q[0]|);
    }
  }

  lemma Start(g: Graph, root: string)
    ensures Searching(g, root, [[root]], {root})
  {
    var queue := [[root]];
    assert Walk(g, root, queue[0]) && Last(queue[0]) == root;
    assert Waiting(queue, root);
    forall p | Walk(g, root, p) && |p| <= 1
      ensures Last(p) in {root}
    {
    }
  }

  /** When nothing waits any more, no walk leaves what has been seen. */
  lemma AllSeen(g: Graph, root: string, seen: set<string>, p: seq<string>)
    requires Searching(g, root, [], seen) && Walk(g, root, p)
    ensures Last(p) in seen
  {
    NearGrows(g, root, [], seen, |p|);
  }

  /** A classical package other than the root at the end of a walk. */
  ghost predicate Exposes(g: Graph, root: string, p: seq<string>) {
    Walk(g, root, p) && Last(p) in g.classical && Last(p) != root
  }

  /** No classical package is nearer than what is being expanded. */
  lemma NoneNearer(g: Graph, root: string, seen: set<string>, d: nat, p: seq<string>)
    requires Clean(g, root, seen) && Near(g, root, seen, d) && Exposes(g, root, p)
    ensures |p| > d
  {
  }

  /**
   That the search finds nothing means that no classical package is reachable exactly when the root is
   none itself.
   */
  lemma NoneIsExact(g: Graph, root: string)
    requires !exists p :: Exposes(g, root, p)
    ensures (exists p :: Walk(g, root, p) && Last(p) in g.classical) <==> root in g.classical
  {
    assert Walk(g, root, [root]) && Last([root]) == root;
    if exists p :: Walk(g, root, p) && Last(p) in g.classical {
      var p :| Walk(g, root, p) && Last(p) in g.classical;
      assert !Exposes(g, root, p);
    }
  }

  /**
   A shortest path over normal and build dependencies to a classical package, or None when none can
   be reached. The root itself is not looked at, nor a path back to it.
   */
  method DependencyPath(g: Graph, root: string) returns (path: Option<seq<string>>)
    ensures path.Some? ==> Exposes(g, root, path.value) && forall p :: Exposes(g, root, p) ==> |p| >= |path.value|
    ensures path.None? <==> !exists p :: Exposes(g, root, p)
  {
    var queue: seq<seq<string>> := [[root]];
    var seen := {root};
    Start(g, root);
    while queue != []
      invariant Searching(g, root, queue, seen)
      decreases Packages(g, root) - seen, |queue|
    {
      var head := queue[0];
      var found, added, next := Expand(g, root, head, seen);
      if found.Some? {
        forall p | Exposes(g, root, p)
          ensures |p| >= |found.value|
        {
          NoneNearer(g, root, seen, |head|, p);
        }
        assert Exposes(g, root, found.value);
        return found;
      }
      Turn(g, root, queue, added, seen, next);
      if added != [] {
        SeenGrows(Packages(g, root), seen, next);
      }
      queue := queue[1..] + added;
      seen := next;
    }
    forall p | Walk(g, root, p)
      ensures !Exposes(g, root, p)
    {
      AllSeen(g, root, seen, p);
    }
    path := None;
  }

  lemma SeenGrows(all: set<string>, seen: set<string>, next: set<string>)
    requires seen < next <= all
    ensures all - next < all - seen
  {
    var u :| u in next && u !in seen;
    assert u in all - seen && u !in all - next;
  }

  // ---------------------------------------------------------------- features

  function Implied(graph: map<string, seq<string>>, u: string): seq<string> {
    if u in graph then graph[u] else []
  }

  ghost predicate Chain(graph: map<string, seq<string>>, p: seq<string>) {
    p != [] && forall i :: 0 <= i < |p| - 1 ==> p[i + 1] in Implied(graph, p[i])
  }

  ghost predicate Reaches(graph: map<string, seq<string>>, from: string, to: string) {
    exists p :: Chain(graph, p) && p[0] == from && Last(p) == to
  }

  ghost function Features(graph: map<string, seq<string>>): set<string> {
    graph.Keys + set u, i | u in graph && 0 <= i < |graph[u]| :: graph[u][i]
  }

  lemma ReachesNext(graph: map<string, seq<string>>, from: string, u: string, v: string)
    requires Reaches(graph, from, u) && v in Implied(graph, u)
    ensures Reaches(graph, from, v)
  {
    var p :| Chain(graph, p) && p[0] == from && Last(p) == u;
    var q := p + [v];
    forall i | 0 <= i < |q| - 1
      ensures q[i + 1] in Implied(graph, q[i])
    {
      if i == |p| - 1 {
        assert q[i] == Last(p);
      }
    }
    assert Chain(graph, q) && q[0] == from && Last(q) == v;
  }

  /** A set that contains a feature and everything its members imply contains all that the feature reaches. */
  lemma {:induction false} ClosedHolds(graph: map<string, seq<string>>, closed: set<string>, p: seq<string>)
    requires Chain(graph, p) && p[0] in closed
    requires forall u, v :: u in closed && v in Implied(graph, u) ==> v in closed
    ensures Last(p) in closed
    decreases |p|
  {
    if |p| > 1 {
      assert p[1] in Implied(graph, p[0]);
      forall i | 0 <= i < |p[1..]| - 1
        ensures p[1..][i + 1] in Implied(graph, p[1..][i])
      {
        assert p[i + 2] in Implied(graph, p[i + 1]);
      }
      ClosedHolds(graph, closed, p[1..]);
    }
  }

  /** The search from one feature. */
  method ReachesBoard(graph: map<string, seq<string>>, feature: string, root: string) returns (hit: bool)
    requires feature in graph
    ensures hit <==> Reaches(graph, feature, root)
  {
    var seen: set<string>, stack := {}, [feature];
    assert Chain(graph, [feature]) && Last([feature]) == feature;
    while stack != []
      invariant seen <= Features(graph) && forall k :: 0 <= k < |stack| ==> stack[k] in Features(graph)
      invariant forall k :: 0 <= k < |stack| ==> Reaches(graph, feature, stack[k])
      invariant root !in seen && (feature in seen || feature in stack)
      invariant forall u, v :: u in seen && v in Implied(graph, u) ==> v in seen || v in stack
      decreases Features(graph) - seen, |stack|
    {
      var cur := stack[|stack| - 1];
      ghost var before := stack;
      stack := stack[..|stack| - 1];
      assert before == stack + [cur];
      if cur in seen {
        continue;
      }
      if cur == root {
        return true;
      }
      SeenGrows(Features(graph), seen, seen + {cur});
      seen := seen + {cur};
      forall v | v in Implied(graph, cur)
        ensures Reaches(graph, feature, v) && v in Features(graph)
      {
        ReachesNext(graph, feature, cur, v);
      }
      stack := stack + Implied(graph, cur);
    }
    if Reaches(graph, feature, root) {
      var p :| Chain(graph, p) && p[0] == feature && Last(p) == root;
      ClosedHolds(graph, seen, p);
    }
    hit := false;
  }

  /** Exactly the features from which the board feature can be reached. */
  method FeaturesRequiringBoard(graph: map<string, seq<string>>, root: string) returns (required: set<string>)
    ensures required == set f | f in graph && Reaches(graph, f, root)
  {
    required := {};
    var left := graph.Keys;
    while left != {}
      invariant left <= graph.Keys
      invariant forall f :: f in required <==> f in graph && f !in left && Reaches(graph, f, root)
      decreases left
    {
      var feature :| feature in left;
      var hit := ReachesBoard(graph, feature, root);
      if hit {
        required := required + {feature};
      }
      left := left - {feature};
    }
  }
}
