/**
 * `sort_by_dependencies` of the utils crate: Kahn's algorithm over the
 * projects' positions. A dependency string names a project by relative path
 * or, failing that, by name; dependencies naming no project add no edge.
 * Projects whose dependencies were all placed are emitted in FIFO order;
 * those still waiting when the queue runs dry (cycles and whatever depends
 * on them) follow in input order.
 */
module DependencyOrder {
  import opened Wrappers
  import opened Projects

  // ---------------------------------------------------------------------
  // Resolution of dependency strings
  // ---------------------------------------------------------------------

  /** `path_to_index` after the first loop: each relative path to the last position holding it. */
  function PathIndex(ps: seq<Project>): map<string, nat> {
    if ps == [] then map[]
    else PathIndex(ps[..|ps| - 1])[ps[|ps| - 1].relativePath := |ps| - 1]
  }

  /** `name_to_index`: each name to the last position of a project carrying it. */
  function NameIndex(ps: seq<Project>): map<string, nat> {
    if ps == [] then map[]
    else
      var p := ps[|ps| - 1];
      var m := NameIndex(ps[..|ps| - 1]);
      if p.name.Some? then m[p.name.value := |ps| - 1] else m
  }

  /** A path is a key exactly when some project has it, and maps to the last such project. */
  lemma {:induction false} PathIndexLast(ps: seq<Project>, key: string)
    ensures key in PathIndex(ps) <==> exists i :: 0 <= i < |ps| && ps[i].relativePath == key
    ensures key in PathIndex(ps) ==>
      PathIndex(ps)[key] < |ps| && ps[PathIndex(ps)[key]].relativePath == key
      && forall j :: PathIndex(ps)[key] < j < |ps| ==> ps[j].relativePath != key
  {
    if ps != [] {
      var init := ps[..|ps| - 1];
      PathIndexLast(init, key);
      if ps[|ps| - 1].relativePath != key {
        if exists i :: 0 <= i < |ps| && ps[i].relativePath == key {
          var i :| 0 <= i < |ps| && ps[i].relativePath == key;
          assert init[i] == ps[i];
        }
      }
    }
  }

  /** A name is a key exactly when some project carries it, and maps to the last such project. */
  lemma {:induction false} NameIndexLast(ps: seq<Project>, key: string)
    ensures key in NameIndex(ps) <==> exists i :: 0 <= i < |ps| && ps[i].name == Some(key)
    ensures key in NameIndex(ps) ==>
      NameIndex(ps)[key] < |ps| && ps[NameIndex(ps)[key]].name == Some(key)
      && forall j :: NameIndex(ps)[key] < j < |ps| ==> ps[j].name != Some(key)
  {
    if ps != [] {
      var init := ps[..|ps| - 1];
      NameIndexLast(init, key);
      if ps[|ps| - 1].name != Some(key) {
        if exists i :: 0 <= i < |ps| && ps[i].name == Some(key) {
          var i :| 0 <= i < |ps| && ps[i].name == Some(key);
          assert init[i] == ps[i];
        }
      }
    }
  }

  /** `path_to_index.get(dep).or_else(|| name_to_index.get(dep))`. */
  function Resolve(ps: seq<Project>, dep: string): Option<nat> {
    if dep in PathIndex(ps) then Some(PathIndex(ps)[dep])
    else if dep in NameIndex(ps) then Some(NameIndex(ps)[dep])
    else None
  }

  /**
   * A dependency resolves to the last project with that relative path; only
   * when no project has it, to the last project with that name; and to
   * nothing when neither exists.
   */
  lemma ResolveCases(ps: seq<Project>, dep: string)
    ensures Resolve(ps, dep).Some? ==> Resolve(ps, dep).value < |ps|
    ensures (exists i :: 0 <= i < |ps| && ps[i].relativePath == dep) ==>
      Resolve(ps, dep).Some? && ps[Resolve(ps, dep).value].relativePath == dep
      && forall j :: Resolve(ps, dep).value < j < |ps| ==> ps[j].relativePath != dep
    ensures (forall i :: 0 <= i < |ps| ==> ps[i].relativePath != dep) && Resolve(ps, dep).Some? ==>
      ps[Resolve(ps, dep).value].name == Some(dep)
      && forall j :: Resolve(ps, dep).value < j < |ps| ==> ps[j].name != Some(dep)
    ensures Resolve(ps, dep).None? <==>
      forall i :: 0 <= i < |ps| ==> ps[i].relativePath != dep && ps[i].name != Some(dep)
  {
    PathIndexLast(ps, dep);
    NameIndexLast(ps, dep);
  }

  /** A resolved dependency is a position of the list. */
  lemma ResolveBound(ps: seq<Project>, dep: string)
    ensures Resolve(ps, dep).Some? ==> Resolve(ps, dep).value < |ps|
  {
    if dep in PathIndex(ps) {
      PathIndexLast(ps, dep);
    } else if dep in NameIndex(ps) {
      NameIndexLast(ps, dep);
    }
  }

  /** The first loop of `sort_by_dependencies`: both maps, later positions overwriting earlier ones. */
  method BuildIndexes(ps: seq<Project>) returns (pathToIndex: map<string, nat>, nameToIndex: map<string, nat>)
    ensures pathToIndex == PathIndex(ps) && nameToIndex == NameIndex(ps)
  {
    pathToIndex, nameToIndex := map[], map[];
    var idx := 0;
    while idx < |ps|
      invariant 0 <= idx <= |ps|
      invariant pathToIndex == PathIndex(ps[..idx]) && nameToIndex == NameIndex(ps[..idx])
    {
      var project := ps[idx];
      assert ps[..idx + 1][..idx] == ps[..idx];
      pathToIndex := pathToIndex[project.relativePath := idx];
      if project.name.Some? {
        nameToIndex := nameToIndex[project.name.value := idx];
      }
      idx := idx + 1;
    }
    assert ps[..idx] == ps;
  }

  // ---------------------------------------------------------------------
  // The dependency graph
  // ---------------------------------------------------------------------

  /** The dependency strings among `deps` that resolve to position `s`. */
  function Matching(ps: seq<Project>, deps: set<string>, s: nat): set<string> {
    set d | d in deps && Resolve(ps, d) == Some(s)
  }

  /** The dependency strings among `deps` that resolve to some project. */
  function Resolvable(ps: seq<Project>, deps: set<string>): set<string> {
    set d | d in deps && Resolve(ps, d).Some?
  }

  /** How many edges run from `s` to `x`: the dependencies of `x` that resolve to `s`. */
  function Count(ps: seq<Project>, x: nat, s: nat): nat
    requires x < |ps|
  {
    |Matching(ps, ps[x].dependencies, s)|
  }

  /** `in_degree[x]` once the graph is built: the dependencies of `x` that resolve at all. */
  function InitialDegree(ps: seq<Project>, x: nat): nat
    requires x < |ps|
  {
    |Resolvable(ps, ps[x].dependencies)|
  }

  /** Project `x` depends on project `s`: one of its dependency strings resolves to `s`. */
  predicate DependsOn(ps: seq<Project>, x: nat, s: nat)
    requires x < |ps|
  {
    exists d :: d in ps[x].dependencies && Resolve(ps, d) == Some(s)
  }

  lemma CountPositive(ps: seq<Project>, x: nat, s: nat)
    requires x < |ps|
    ensures Count(ps, x, s) > 0 <==> DependsOn(ps, x, s)
  {
    if DependsOn(ps, x, s) {
      var d :| d in ps[x].dependencies && Resolve(ps, d) == Some(s);
      assert d in Matching(ps, ps[x].dependencies, s);
    }
  }

  function Repeat(v: nat, c: nat): (r: seq<nat>)
    ensures |r| == c && forall i :: 0 <= i < c ==> r[i] == v
  {
    if c == 0 then [] else Repeat(v, c - 1) + [v]
  }

  /** `graph[s]` once the first `m` projects are processed: each of them as often as it has edges from `s`. */
  function Dependents(ps: seq<Project>, s: nat, m: nat): seq<nat>
    requires m <= |ps|
  {
    if m == 0 then [] else Dependents(ps, s, m - 1) + Repeat(m - 1, Count(ps, m - 1, s))
  }

  lemma RepeatOccurrences(v: nat, c: nat, x: nat)
    ensures multiset(Repeat(v, c))[x] == if x == v then c else 0
  {
    if c > 0 {
      RepeatOccurrences(v, c - 1, x);
    }
  }

  /** Project `x` occurs in `graph[s]` once per edge from `s` to `x`. */
  lemma {:induction false} DependentsOccurrences(ps: seq<Project>, s: nat, m: nat, x: nat)
    requires m <= |ps|
    ensures multiset(Dependents(ps, s, m))[x] == if x < m then Count(ps, x, s) else 0
  {
    if m > 0 {
      var init, last := Dependents(ps, s, m - 1), Repeat(m - 1, Count(ps, m - 1, s));
      assert multiset(Dependents(ps, s, m)) == multiset(init) + multiset(last);
      DependentsOccurrences(ps, s, m - 1, x);
      RepeatOccurrences(m - 1, Count(ps, m - 1, s), x);
    }
  }

  /** One more dependency string handled: the matching sets grow by it alone. */
  lemma MatchingStep(ps: seq<Project>, done: set<string>, dep: string)
    requires dep !in done
    ensures forall s: nat :: |Matching(ps, done + {dep}, s)| == |Matching(ps, done, s)| + if Resolve(ps, dep) == Some(s) then 1 else 0
    ensures |Resolvable(ps, done + {dep})| == |Resolvable(ps, done)| + if Resolve(ps, dep).Some? then 1 else 0
  {
    forall s: nat ensures |Matching(ps, done + {dep}, s)| == |Matching(ps, done, s)| + if Resolve(ps, dep) == Some(s) then 1 else 0 {
      MatchingStepAt(ps, done, dep, s);
    }
    ResolvableStep(ps, done, dep);
  }

  lemma MatchingStepAt(ps: seq<Project>, done: set<string>, dep: string, s: nat)
    requires dep !in done
    ensures |Matching(ps, done + {dep}, s)| == |Matching(ps, done, s)| + if Resolve(ps, dep) == Some(s) then 1 else 0
  {
    if Resolve(ps, dep) == Some(s) {
      assert Matching(ps, done + {dep}, s) == Matching(ps, done, s) + {dep};
    } else {
      assert Matching(ps, done + {dep}, s) == Matching(ps, done, s);
    }
  }

  lemma ResolvableStep(ps: seq<Project>, done: set<string>, dep: string)
    requires dep !in done
    ensures |Resolvable(ps, done + {dep})| == |Resolvable(ps, done)| + if Resolve(ps, dep).Some? then 1 else 0
  {
    if Resolve(ps, dep).Some? {
      assert Resolvable(ps, done + {dep}) == Resolvable(ps, done) + {dep};
    } else {
      assert Resolvable(ps, done + {dep}) == Resolvable(ps, done);
    }
  }

  /** The dependents lists while project `idx` is being added, with the strings `done` handled so far. */
  predicate PartialGraph(ps: seq<Project>, idx: nat, g: seq<seq<nat>>, done: set<string>)
    requires idx < |ps|
  {
    |g| == |ps| && forall s :: 0 <= s < |ps| ==> g[s] == Dependents(ps, s, idx) + Repeat(idx, |Matching(ps, done, s)|)
  }

  /** Handling one more dependency string pushes `idx` onto the list of the project it resolves to. */
  lemma PartialGraphStep(ps: seq<Project>, idx: nat, g: seq<seq<nat>>, done: set<string>, dep: string)
    requires idx < |ps| && PartialGraph(ps, idx, g, done) && dep !in done
    requires Resolve(ps, dep).Some? ==> Resolve(ps, dep).value < |ps|
    ensures PartialGraph(ps, idx, if Resolve(ps, dep).Some? then g[Resolve(ps, dep).value := g[Resolve(ps, dep).value] + [idx]] else g, done + {dep})
  {
    MatchingStep(ps, done, dep);
    var g' := if Resolve(ps, dep).Some? then g[Resolve(ps, dep).value := g[Resolve(ps, dep).value] + [idx]] else g;
    forall s | 0 <= s < |ps|
      ensures g'[s] == Dependents(ps, s, idx) + Repeat(idx, |Matching(ps, done + {dep}, s)|)
    {
      var c := |Matching(ps, done, s)|;
      if Resolve(ps, dep) == Some(s) {
        assert Repeat(idx, c + 1) == Repeat(idx, c) + [idx];
        assert g'[s] == (Dependents(ps, s, idx) + Repeat(idx, c)) + [idx];
      }
    }
  }

  /** Once every dependency string of `idx` is handled, the lists are those of the first `idx + 1` projects. */
  lemma PartialGraphDone(ps: seq<Project>, idx: nat, g: seq<seq<nat>>)
    requires idx < |ps| && PartialGraph(ps, idx, g, ps[idx].dependencies)
    ensures forall s :: 0 <= s < |ps| ==> g[s] == Dependents(ps, s, idx + 1)
  {
  }

  /** One dependency string of project `idx`: when it resolves, `idx` joins its target's dependents. */
  method AddEdge(ps: seq<Project>, idx: nat, dep: string, pathToIndex: map<string, nat>, nameToIndex: map<string, nat>,
                 graph: array<seq<nat>>, inDegree: array<nat>, ghost done: set<string>)
    requires pathToIndex == PathIndex(ps) && nameToIndex == NameIndex(ps)
    requires graph.Length == |ps| && inDegree.Length == |ps| && idx < |ps|
    requires PartialGraph(ps, idx, graph[..], done) && dep !in done
    requires inDegree[idx] == |Resolvable(ps, done)|
    modifies graph, inDegree
    ensures PartialGraph(ps, idx, graph[..], done + {dep})
    ensures inDegree[idx] == |Resolvable(ps, done + {dep})|
    ensures forall x :: 0 <= x < |ps| && x != idx ==> inDegree[x] == old(inDegree[x])
  {
    MatchingStep(ps, done, dep);
    ResolveBound(ps, dep);
    PartialGraphStep(ps, idx, graph[..], done, dep);
    var depIdx := if dep in pathToIndex then Some(pathToIndex[dep])
      else if dep in nameToIndex then Some(nameToIndex[dep]) else None;
    if depIdx.Some? {
      var j := depIdx.value;
      graph[j] := graph[j] + [idx];
      inDegree[idx] := inDegree[idx] + 1;
    }
  }

  /**
   * The inner loop of the graph construction for project `idx`: every
   * dependency string, in whatever order the set yields them, that
   * resolves adds `idx` to the dependents of its target and one to
   * `in_degree[idx]`.
   */
  method AddEdges(ps: seq<Project>, idx: nat, pathToIndex: map<string, nat>, nameToIndex: map<string, nat>,
                  graph: array<seq<nat>>, inDegree: array<nat>)
    requires pathToIndex == PathIndex(ps) && nameToIndex == NameIndex(ps)
    requires graph.Length == |ps| && inDegree.Length == |ps| && idx < |ps|
    requires forall s :: 0 <= s < |ps| ==> graph[s] == Dependents(ps, s, idx)
    requires inDegree[idx] == 0
    modifies graph, inDegree
    ensures forall s :: 0 <= s < |ps| ==> graph[s] == Dependents(ps, s, idx + 1)
    ensures inDegree[idx] == InitialDegree(ps, idx)
    ensures forall x :: 0 <= x < |ps| && x != idx ==> inDegree[x] == old(inDegree[x])
  {
    var deps := ps[idx].dependencies;
    var rest := deps;
    ghost var done: set<string> := {};
    assert PartialGraph(ps, idx, graph[..], done);
    while rest != {}
      invariant done + rest == deps && done !! rest
      invariant PartialGraph(ps, idx, graph[..], done)
      invariant inDegree[idx] == |Resolvable(ps, done)|
      invariant forall x :: 0 <= x < |ps| && x != idx ==> inDegree[x] == old(inDegree[x])
      decreases |rest|
    {
      var dep :| dep in rest;
      AddEdge(ps, idx, dep, pathToIndex, nameToIndex, graph, inDegree, done);
      rest := rest - {dep};
      done := done + {dep};
    }
    PartialGraphDone(ps, idx, graph[..]);
    assert forall s :: 0 <= s < |ps| ==> graph[s] == graph[..][s];
  }

  /** The second loop of `sort_by_dependencies`: the dependents lists and the in-degrees. */
  method BuildGraph(ps: seq<Project>, pathToIndex: map<string, nat>, nameToIndex: map<string, nat>)
    returns (graph: array<seq<nat>>, inDegree: array<nat>)
    requires pathToIndex == PathIndex(ps) && nameToIndex == NameIndex(ps)
    ensures fresh(graph) && fresh(inDegree) && graph.Length == |ps| && inDegree.Length == |ps|
    ensures forall s :: 0 <= s < |ps| ==> graph[s] == Dependents(ps, s, |ps|)
    ensures forall x :: 0 <= x < |ps| ==> inDegree[x] == InitialDegree(ps, x)
  {
    graph := new seq<nat>[|ps|](_ => []);
    inDegree := new nat[|ps|](_ => 0);
    for idx := 0 to |ps|
      invariant forall s :: 0 <= s < |ps| ==> graph[s] == Dependents(ps, s, idx)
      invariant forall x :: 0 <= x < idx ==> inDegree[x] == InitialDegree(ps, x)
      invariant forall x :: idx <= x < |ps| ==> inDegree[x] == 0
    {
      AddEdges(ps, idx, pathToIndex, nameToIndex, graph, inDegree);
    }
  }

  // ---------------------------------------------------------------------
  // Edges still pending
  // ---------------------------------------------------------------------

  /** The edges into `x` from the first `m` projects that are not in `visited`. */
  function Pending(ps: seq<Project>, x: nat, visited: set<nat>, m: nat): nat
    requires x < |ps|
  {
    if m == 0 then 0
    else Pending(ps, x, visited, m - 1) + if m - 1 in visited then 0 else Count(ps, x, m - 1)
  }

  /** Visiting `s` releases exactly its edges into `x`. */
  lemma {:induction false} PendingVisit(ps: seq<Project>, x: nat, visited: set<nat>, s: nat, m: nat)
    requires x < |ps| && s !in visited
    ensures Pending(ps, x, visited + {s}, m) + (if s < m then Count(ps, x, s) else 0) == Pending(ps, x, visited, m)
  {
    if m > 0 {
      PendingVisit(ps, x, visited, s, m - 1);
    }
  }

  /** Nothing is pending exactly when no unvisited project among the first `m` has an edge into `x`. */
  lemma {:induction false} PendingZero(ps: seq<Project>, x: nat, visited: set<nat>, m: nat)
    requires x < |ps|
    ensures Pending(ps, x, visited, m) == 0 <==> forall s :: 0 <= s < m && s !in visited ==> Count(ps, x, s) == 0
  {
    if m > 0 {
      PendingZero(ps, x, visited, m - 1);
    }
  }

  /** The dependencies of `x` resolving below `m`. */
  function ResolvedBelow(ps: seq<Project>, deps: set<string>, m: nat): set<string> {
    set d | d in deps && Resolve(ps, d).Some? && Resolve(ps, d).value < m
  }

  lemma {:induction false} ResolvedBelowCount(ps: seq<Project>, x: nat, m: nat)
    requires x < |ps|
    ensures |ResolvedBelow(ps, ps[x].dependencies, m)| == Pending(ps, x, {}, m)
  {
    var deps := ps[x].dependencies;
    if m > 0 {
      ResolvedBelowCount(ps, x, m - 1);
      var a, b := ResolvedBelow(ps, deps, m - 1), Matching(ps, deps, m - 1);
      assert ResolvedBelow(ps, deps, m) == a + b;
      assert a * b == {};
    } else {
      assert ResolvedBelow(ps, deps, m) == {};
    }
  }

  /** The in-degree computed by the graph construction counts every edge into `x`. */
  lemma DegreeIsPending(ps: seq<Project>, x: nat)
    requires x < |ps|
    ensures InitialDegree(ps, x) == Pending(ps, x, {}, |ps|)
  {
    var deps := ps[x].dependencies;
    ResolvedBelowCount(ps, x, |ps|);
    forall d | d in deps
      ensures d in ResolvedBelow(ps, deps, |ps|) <==> d in Resolvable(ps, deps)
    {
      ResolveBound(ps, d);
    }
    assert ResolvedBelow(ps, deps, |ps|) == Resolvable(ps, deps);
  }

  // ---------------------------------------------------------------------
  // Positions, queues and orders
  // ---------------------------------------------------------------------

  function Elems(s: seq<nat>): set<nat> {
    set x | x in s
  }

  predicate Distinct(s: seq<nat>) {
    forall i, j :: 0 <= i < j < |s| ==> s[i] != s[j]
  }

  /** The members of `visited` below `m`. */
  function VisitedBelow(visited: set<nat>, m: nat): set<nat> {
    set x | x in visited && x < m
  }

  /** The projects with no resolvable dependency among the first `m`, in input order: the initial queue. */
  function Roots(ps: seq<Project>, m: nat): seq<nat>
    requires m <= |ps|
  {
    if m == 0 then [] else Roots(ps, m - 1) + if InitialDegree(ps, m - 1) == 0 then [m - 1] else []
  }

  lemma {:induction false} RootsMembers(ps: seq<Project>, m: nat)
    requires m <= |ps|
    ensures forall i :: 0 <= i < |Roots(ps, m)| ==> Roots(ps, m)[i] < m
    ensures forall x: nat :: x in Roots(ps, m) <==> x < m && InitialDegree(ps, x) == 0
  {
    if m > 0 {
      RootsMembers(ps, m - 1);
    }
  }

  lemma {:induction false} RootsIncreasing(ps: seq<Project>, m: nat)
    requires m <= |ps|
    ensures forall i, j :: 0 <= i < j < |Roots(ps, m)| ==> Roots(ps, m)[i] < Roots(ps, m)[j]
  {
    if m > 0 {
      RootsIncreasing(ps, m - 1);
      RootsMembers(ps, m - 1);
    }
  }

  /** The positions below `m` outside `visited`, in input order: what the last loop appends. */
  function Unvisited(visited: set<nat>, m: nat): seq<nat> {
    if m == 0 then [] else Unvisited(visited, m - 1) + if m - 1 in visited then [] else [m - 1]
  }

  lemma {:induction false} UnvisitedMembers(visited: set<nat>, m: nat)
    ensures forall i :: 0 <= i < |Unvisited(visited, m)| ==> Unvisited(visited, m)[i] < m
    ensures forall x: nat :: x in Unvisited(visited, m) <==> x < m && x !in visited
  {
    if m > 0 {
      UnvisitedMembers(visited, m - 1);
    }
  }

  lemma {:induction false} UnvisitedIncreasing(visited: set<nat>, m: nat)
    ensures forall i, j :: 0 <= i < j < |Unvisited(visited, m)| ==> Unvisited(visited, m)[i] < Unvisited(visited, m)[j]
  {
    if m > 0 {
      UnvisitedIncreasing(visited, m - 1);
      UnvisitedMembers(visited, m - 1);
    }
  }

  lemma {:induction false} UnvisitedLength(visited: set<nat>, m: nat)
    ensures |Unvisited(visited, m)| + |VisitedBelow(visited, m)| == m
  {
    if m > 0 {
      UnvisitedLength(visited, m - 1);
      if m - 1 in visited {
        assert VisitedBelow(visited, m) == VisitedBelow(visited, m - 1) + {m - 1};
      } else {
        assert VisitedBelow(visited, m) == VisitedBelow(visited, m - 1);
      }
    } else {
      assert VisitedBelow(visited, m) == {};
    }
  }

  /** A set of positions below `n` has at most `n` elements. */
  lemma BoundedCard(visited: set<nat>, n: nat)
    requires forall x :: x in visited ==> x < n
    ensures |visited| <= n
  {
    UnvisitedLength(visited, n);
    assert VisitedBelow(visited, n) == visited;
  }

  lemma {:induction false} DistinctCard(s: seq<nat>)
    requires Distinct(s)
    ensures |Elems(s)| == |s|
  {
    if s != [] {
      var init := s[..|s| - 1];
      assert Distinct(init);
      DistinctCard(init);
      assert Elems(s) == Elems(init) + {s[|s| - 1]};
      assert s[|s| - 1] !in Elems(init);
    }
  }

  /** Every position below `n` exactly once. */
  predicate IsPermutation(order: seq<nat>, n: nat) {
    |order| == n && Distinct(order)
    && (forall i :: 0 <= i < |order| ==> order[i] < n)
    && (forall x: nat :: x < n ==> x in order)
  }

  // ---------------------------------------------------------------------
  // Kahn's loop
  // ---------------------------------------------------------------------

  /** An edge from an unvisited project is still pending. */
  lemma CountPending(ps: seq<Project>, x: nat, visited: set<nat>, s: nat)
    requires x < |ps| && s < |ps| && s !in visited
    ensures Count(ps, x, s) <= Pending(ps, x, visited, |ps|)
  {
    PendingVisit(ps, x, visited, s, |ps|);
  }

  /** `in_degree` while the project `idx` releases its edges: `released` are the dependents handled so far. */
  predicate Degrees(ps: seq<Project>, deg: seq<nat>, before: set<nat>, released: seq<nat>) {
    |deg| == |ps| && forall x :: 0 <= x < |ps| ==> deg[x] + multiset(released)[x] == Pending(ps, x, before, |ps|)
  }

  /** Every queued project has no edge left. */
  predicate QueuedReady(ps: seq<Project>, deg: seq<nat>, queue: seq<nat>) {
    |deg| == |ps| && forall q :: 0 <= q < |queue| ==> queue[q] < |ps| && deg[queue[q]] == 0
  }

  /** Every unvisited project with no edge left is queued. */
  predicate ReadyQueued(ps: seq<Project>, deg: seq<nat>, visited: set<nat>, queue: seq<nat>) {
    |deg| == |ps| && forall x :: 0 <= x < |ps| && x !in visited && deg[x] == 0 ==> x in queue
  }

  /** The dependent released at step `p` still has an edge to give up. */
  lemma ReleasePositive(ps: seq<Project>, deg: seq<nat>, before: set<nat>, idx: nat, p: nat)
    requires idx < |ps| && idx !in before
    requires p < |Dependents(ps, idx, |ps|)|
    requires Degrees(ps, deg, before, Dependents(ps, idx, |ps|)[..p])
    ensures Dependents(ps, idx, |ps|)[p] < |ps| && deg[Dependents(ps, idx, |ps|)[p]] >= 1
  {
    var dependents := Dependents(ps, idx, |ps|);
    var k := dependents[p];
    PrefixOccurrences(dependents, p);
    DependentsOccurrences(ps, idx, |ps|, k);
    CountPending(ps, k, before, idx);
  }

  /** An entry occurs more often in the whole list than before its position. */
  lemma PrefixOccurrences(d: seq<nat>, p: nat)
    requires p < |d|
    ensures multiset(d[..p])[d[p]] < multiset(d)[d[p]]
  {
    assert d == d[..p] + [d[p]] + d[p + 1..];
    assert multiset(d) == multiset(d[..p]) + multiset{d[p]} + multiset(d[p + 1..]);
  }

  /** Decrementing the count of the entry at `p` as it joins the released prefix keeps the degrees. */
  lemma DegreesStep(ps: seq<Project>, deg: seq<nat>, before: set<nat>, d: seq<nat>, p: nat)
    requires p < |d| && Degrees(ps, deg, before, d[..p])
    requires d[p] < |ps| && deg[d[p]] >= 1
    ensures Degrees(ps, deg[d[p] := deg[d[p]] - 1], before, d[..p + 1])
  {
    assert d[..p + 1] == d[..p] + [d[p]];
    assert multiset(d[..p + 1]) == multiset(d[..p]) + multiset{d[p]};
  }

  /** Queueing `k` exactly when its count reaches zero and it is unvisited keeps the queue facts. */
  lemma QueueStep(ps: seq<Project>, deg: seq<nat>, visited: set<nat>, queue: seq<nat>, k: nat)
    requires QueuedReady(ps, deg, queue) && ReadyQueued(ps, deg, visited, queue)
    requires k < |ps| && deg[k] >= 1
    ensures var deg' := deg[k := deg[k] - 1];
      var queue' := if deg'[k] == 0 && k !in visited then queue + [k] else queue;
      QueuedReady(ps, deg', queue') && ReadyQueued(ps, deg', visited, queue')
  {
  }

  /** The state of the inner loop after the first `p` entries of the dependents list `d`. */
  predicate Releasing(ps: seq<Project>, deg: seq<nat>, before: set<nat>, visited: set<nat>, d: seq<nat>, p: nat,
                      queue: seq<nat>, queue': seq<nat>) {
    p <= |d| && Degrees(ps, deg, before, d[..p])
    && |queue'| >= |queue| && queue'[..|queue|] == queue
    && QueuedReady(ps, deg, queue') && ReadyQueued(ps, deg, visited, queue')
  }

  /** One step of the inner loop keeps its state: entry `k` at position `p` gives up one edge and is queued at zero. */
  lemma ReleaseKeeps(ps: seq<Project>, deg: seq<nat>, before: set<nat>, visited: set<nat>, d: seq<nat>, p: nat,
                     queue: seq<nat>, current: seq<nat>, k: nat, extended: seq<nat>)
    requires p < |d| && k == d[p] && k < |ps| == |deg| && deg[k] >= 1
    requires Releasing(ps, deg, before, visited, d, p, queue, current)
    requires extended == if deg[k] - 1 == 0 && k !in visited then current + [k] else current
    ensures Releasing(ps, deg[k := deg[k] - 1], before, visited, d, p + 1, queue, extended)
  {
    DegreesStep(ps, deg, before, d, p);
    QueueStep(ps, deg, visited, current, k);
    assert extended[..|queue|] == current[..|queue|];
  }

  /** One entry of the dependents list: its count drops by one and, reaching zero unvisited, it is queued. */
  method ReleaseOne(ps: seq<Project>, inDegree: array<nat>, dependents: seq<nat>, idx: nat, p: nat,
                    queue: seq<nat>, current: seq<nat>, visited: set<nat>, ghost before: set<nat>)
    returns (extended: seq<nat>)
    requires inDegree.Length == |ps|
    requires idx < |ps| && dependents == Dependents(ps, idx, |ps|)
    requires idx !in before && visited == before + {idx} && p < |dependents|
    requires Releasing(ps, inDegree[..], before, visited, dependents, p, queue, current)
    modifies inDegree
    ensures Releasing(ps, inDegree[..], before, visited, dependents, p + 1, queue, extended)
    ensures dependents[p] < |ps| && inDegree[dependents[p]] + 1 == old(inDegree[dependents[p]])
    ensures forall x :: 0 <= x < |ps| && x != dependents[p] ==> inDegree[x] == old(inDegree[x])
    ensures extended == if inDegree[dependents[p]] == 0 && dependents[p] !in visited then current + [dependents[p]] else current
  {
    ghost var deg := inDegree[..];
    ReleasePositive(ps, deg, before, idx, p);
    var k := dependents[p];
    inDegree[k] := inDegree[k] - 1;
    assert inDegree[..] == deg[k := deg[k] - 1];
    extended := current;
    if inDegree[k] == 0 && k !in visited {
      extended := current + [k];
    }
    ReleaseKeeps(ps, deg, before, visited, dependents, p, queue, current, k, extended);
  }

  /**
   * The inner loop of Kahn's algorithm for the project `idx` just visited:
   * one decrement per entry of its dependents list, queueing each project
   * whose count reaches zero and that is not visited yet.
   */
  method Release(ps: seq<Project>, graph: array<seq<nat>>, inDegree: array<nat>, idx: nat,
                 queue: seq<nat>, visited: set<nat>, ghost before: set<nat>)
    returns (queue': seq<nat>)
    requires graph.Length == |ps| && inDegree.Length == |ps|
    requires idx < |ps| && graph[idx] == Dependents(ps, idx, |ps|)
    requires idx !in before && visited == before + {idx}
    requires Degrees(ps, inDegree[..], before, [])
    requires QueuedReady(ps, inDegree[..], queue) && ReadyQueued(ps, inDegree[..], visited, queue)
    modifies inDegree
    ensures Degrees(ps, inDegree[..], visited, [])
    ensures |queue'| >= |queue| && queue'[..|queue|] == queue
    ensures QueuedReady(ps, inDegree[..], queue') && ReadyQueued(ps, inDegree[..], visited, queue')
  {
    queue' := queue;
    var dependents := graph[idx];
    assert dependents[..0] == [];
    for p := 0 to |dependents|
      invariant Releasing(ps, inDegree[..], before, visited, dependents, p, queue, queue')
    {
      queue' := ReleaseOne(ps, inDegree, dependents, idx, p, queue, queue', visited, before);
    }
    assert dependents[..|dependents|] == dependents;
    ReleaseDone(ps, inDegree[..], before, idx);
  }

  /** After the whole list, the degrees count the edges from unvisited projects, `idx` now among the visited. */
  lemma ReleaseDone(ps: seq<Project>, deg: seq<nat>, before: set<nat>, idx: nat)
    requires idx < |ps| && idx !in before
    requires Degrees(ps, deg, before, Dependents(ps, idx, |ps|))
    ensures Degrees(ps, deg, before + {idx}, [])
  {
    forall x | 0 <= x < |ps|
      ensures deg[x] == Pending(ps, x, before + {idx}, |ps|)
    {
      DependentsOccurrences(ps, idx, |ps|, x);
      PendingVisit(ps, x, before, idx, |ps|);
    }
  }

  /** Each of the first `k` entries of `order` had no pending edge from a project outside the entries before it. */
  predicate Placed(ps: seq<Project>, order: seq<nat>, k: nat) {
    k <= |order| && forall p :: 0 <= p < k ==> order[p] < |ps| && Pending(ps, order[p], Elems(order[..p]), |ps|) == 0
  }

  /** The invariant of the main loop of Kahn's algorithm. */
  predicate KahnState(ps: seq<Project>, deg: seq<nat>, sorted: seq<nat>, visited: set<nat>, queue: seq<nat>) {
    Degrees(ps, deg, visited, []) && QueuedReady(ps, deg, queue) && ReadyQueued(ps, deg, visited, queue)
    && visited == Elems(sorted) && Distinct(sorted) && Placed(ps, sorted, |sorted|)
  }

  /** FIFO order: the initial queue `roots` is popped first, and each of its entries is then emitted. */
  predicate RootsFirst(roots: seq<nat>, pops: nat, sorted: seq<nat>, queue: seq<nat>) {
    (pops <= |roots| ==> sorted == roots[..pops] && |queue| >= |roots| - pops && queue[..|roots| - pops] == roots[pops..])
    && (pops >= |roots| ==> |sorted| >= |roots| && sorted[..|roots|] == roots)
  }

  /** A sequence of increasing entries holds no duplicate. */
  lemma IncreasingDistinct(s: seq<nat>)
    requires forall i, j :: 0 <= i < j < |s| ==> s[i] < s[j]
    ensures Distinct(s)
  {
  }

  /** The state before the main loop: the graph just built, the roots queued, nothing visited. */
  lemma KahnStart(ps: seq<Project>, deg: seq<nat>)
    requires |deg| == |ps| && forall x :: 0 <= x < |ps| ==> deg[x] == InitialDegree(ps, x)
    ensures KahnState(ps, deg, [], {}, Roots(ps, |ps|))
    ensures RootsFirst(Roots(ps, |ps|), 0, [], Roots(ps, |ps|))
  {
    RootsMembers(ps, |ps|);
    forall x | 0 <= x < |ps|
      ensures deg[x] + multiset([])[x] == Pending(ps, x, {}, |ps|)
    {
      DegreeIsPending(ps, x);
    }
    assert Elems([]) == {};
  }

  /** Popping an already visited project changes nothing but the queue. */
  lemma KahnSkip(ps: seq<Project>, deg: seq<nat>, sorted: seq<nat>, visited: set<nat>, queue: seq<nat>,
                 roots: seq<nat>, pops: nat)
    requires queue != [] && queue[0] in visited
    requires KahnState(ps, deg, sorted, visited, queue) && RootsFirst(roots, pops, sorted, queue)
    requires forall i, j :: 0 <= i < j < |roots| ==> roots[i] < roots[j]
    ensures KahnState(ps, deg, sorted, visited, queue[1..]) && RootsFirst(roots, pops + 1, sorted, queue[1..])
  {
    if pops < |roots| {
      // the front is the next root, which nothing has emitted yet
      assert false;
    }
  }

  /** Whatever else is queued stays queued when the front is popped. */
  lemma QueueTail(queue: seq<nat>, x: nat)
    requires x in queue && x != queue[0]
    ensures x in queue[1..]
  {
    var i :| 0 <= i < |queue| && queue[i] == x;
    assert queue[1..][i - 1] == x;
  }

  /** Emitting a project with no edge pending from outside the emitted ones keeps the order placed. */
  lemma PlacedSnoc(ps: seq<Project>, sorted: seq<nat>, idx: nat)
    requires Placed(ps, sorted, |sorted|) && idx < |ps| && Pending(ps, idx, Elems(sorted), |ps|) == 0
    ensures Placed(ps, sorted + [idx], |sorted| + 1)
  {
    var sorted' := sorted + [idx];
    assert sorted'[..|sorted|] == sorted;
    forall p | 0 <= p < |sorted|
      ensures Pending(ps, sorted'[p], Elems(sorted'[..p]), |ps|) == 0
    {
      assert sorted'[..p] == sorted[..p];
    }
  }

  /** Popping an unvisited project: it may be emitted, and `Release` may run with these arguments. */
  lemma KahnVisit(ps: seq<Project>, deg: seq<nat>, sorted: seq<nat>, visited: set<nat>, queue: seq<nat>)
    requires queue != [] && queue[0] !in visited
    requires KahnState(ps, deg, sorted, visited, queue)
    ensures queue[0] < |ps|
    ensures QueuedReady(ps, deg, queue[1..]) && ReadyQueued(ps, deg, visited + {queue[0]}, queue[1..])
    ensures visited + {queue[0]} == Elems(sorted + [queue[0]]) && Distinct(sorted + [queue[0]])
    ensures Placed(ps, sorted + [queue[0]], |sorted| + 1)
    ensures |visited + {queue[0]}| <= |ps|
  {
    var idx := queue[0];
    assert deg[idx] + multiset([])[idx] == Pending(ps, idx, visited, |ps|);
    PlacedSnoc(ps, sorted, idx);
    forall x | x in queue && x != idx
      ensures x in queue[1..]
    {
      QueueTail(queue, x);
    }
    assert Elems(sorted + [idx]) == visited + {idx};
    BoundedCard(visited + {idx}, |ps|);
  }

  /** The FIFO facts after an unvisited project is popped, emitted and released. */
  lemma RootsVisit(roots: seq<nat>, pops: nat, sorted: seq<nat>, queue: seq<nat>, queue': seq<nat>)
    requires queue != [] && queue[0] !in Elems(sorted) && RootsFirst(roots, pops, sorted, queue)
    requires |queue'| >= |queue| - 1 && queue'[..|queue| - 1] == queue[1..]
    ensures RootsFirst(roots, pops + 1, sorted + [queue[0]], queue')
  {
    if pops < |roots| {
      assert queue[0] == roots[pops];
      assert roots[..pops + 1] == roots[..pops] + [roots[pops]];
      assert queue'[..|roots| - pops - 1] == queue[1..][..|roots| - pops - 1];
    } else {
      assert (sorted + [queue[0]])[..|roots|] == sorted[..|roots|];
    }
  }

  /** The first loop over `in_degree`: the positions whose count is zero, in input order. */
  method InitialQueue(ps: seq<Project>, inDegree: array<nat>) returns (queue: seq<nat>)
    requires inDegree.Length == |ps| && forall x :: 0 <= x < |ps| ==> inDegree[x] == InitialDegree(ps, x)
    ensures queue == Roots(ps, |ps|)
  {
    queue := [];
    for idx := 0 to |ps|
      invariant queue == Roots(ps, idx)
    {
      if inDegree[idx] == 0 {
        queue := queue + [idx];
      }
    }
  }

  /** One turn of the main loop: pop the front; if it is not visited yet, emit it and release its edges. */
  method Pop(ps: seq<Project>, graph: array<seq<nat>>, inDegree: array<nat>,
             sorted: seq<nat>, visited: set<nat>, queue: seq<nat>, ghost roots: seq<nat>, ghost pops: nat)
    returns (sorted': seq<nat>, visited': set<nat>, queue': seq<nat>)
    requires graph.Length == |ps| && inDegree.Length == |ps|
    requires forall s :: 0 <= s < |ps| ==> graph[s] == Dependents(ps, s, |ps|)
    requires queue != [] && KahnState(ps, inDegree[..], sorted, visited, queue) && RootsFirst(roots, pops, sorted, queue)
    requires forall i, j :: 0 <= i < j < |roots| ==> roots[i] < roots[j]
    requires |visited| <= |ps|
    modifies inDegree
    ensures KahnState(ps, inDegree[..], sorted', visited', queue') && RootsFirst(roots, pops + 1, sorted', queue')
    ensures |visited| <= |visited'| <= |ps|
    ensures |visited'| > |visited| || |queue'| < |queue|
  {
    var idx := queue[0];
    if idx !in visited {
      KahnVisit(ps, inDegree[..], sorted, visited, queue);
      visited' := visited + {idx};
      sorted' := sorted + [idx];
      queue' := Release(ps, graph, inDegree, idx, queue[1..], visited', visited);
      RootsVisit(roots, pops, sorted, queue, queue');
    } else {
      KahnSkip(ps, inDegree[..], sorted, visited, queue, roots, pops);
      sorted', visited', queue' := sorted, visited, queue[1..];
    }
  }

  /** When the queue runs dry, every project not emitted still has an edge pending. */
  lemma KahnEnd(ps: seq<Project>, deg: seq<nat>, sorted: seq<nat>, visited: set<nat>)
    requires KahnState(ps, deg, sorted, visited, [])
    ensures forall x :: 0 <= x < |ps| && x !in Elems(sorted) ==> Pending(ps, x, Elems(sorted), |ps|) > 0
  {
    forall x | 0 <= x < |ps| && x !in Elems(sorted)
      ensures Pending(ps, x, Elems(sorted), |ps|) > 0
    {
      assert deg[x] + multiset([])[x] == Pending(ps, x, visited, |ps|);
    }
  }

  /**
   * The initial queue and the main loop of Kahn's algorithm. It ends with
   * the visited projects in the order they were emitted: each had no pending
   * edge when emitted, every other project still has one, and the projects
   * without dependencies come first, in input order.
   */
  method Kahn(ps: seq<Project>, graph: array<seq<nat>>, inDegree: array<nat>) returns (sorted: seq<nat>, visited: set<nat>)
    requires graph.Length == |ps| && inDegree.Length == |ps|
    requires forall s :: 0 <= s < |ps| ==> graph[s] == Dependents(ps, s, |ps|)
    requires forall x :: 0 <= x < |ps| ==> inDegree[x] == InitialDegree(ps, x)
    modifies inDegree
    ensures visited == Elems(sorted) && Distinct(sorted) && Placed(ps, sorted, |sorted|)
    ensures forall x :: 0 <= x < |ps| && x !in Elems(sorted) ==> Pending(ps, x, Elems(sorted), |ps|) > 0
    ensures |Roots(ps, |ps|)| <= |sorted| && sorted[..|Roots(ps, |ps|)|] == Roots(ps, |ps|)
  {
    var queue := InitialQueue(ps, inDegree);
    ghost var roots := queue;
    ghost var pops := 0;
    RootsIncreasing(ps, |ps|);
    KahnStart(ps, inDegree[..]);
    sorted, visited := [], {};
    while queue != []
      invariant KahnState(ps, inDegree[..], sorted, visited, queue) && RootsFirst(roots, pops, sorted, queue)
      invariant |visited| <= |ps|
      decreases |ps| - |visited|, |queue|
    {
      sorted, visited, queue := Pop(ps, graph, inDegree, sorted, visited, queue, roots, pops);
      pops := pops + 1;
    }
    KahnEnd(ps, inDegree[..], sorted, visited);
  }

  // ---------------------------------------------------------------------
  // The whole sort
  // ---------------------------------------------------------------------

  /**
   * What `sort_by_dependencies` promises of the permutation `order` it
   * applies, where the first `k` entries are those Kahn's loop emitted:
   * every project exactly once; each emitted project had every project it
   * depends on emitted before it; the others follow in input order, each
   * still waiting for a project among them; and the projects without a
   * resolvable dependency lead, in input order.
   */
  predicate ValidOrder(ps: seq<Project>, order: seq<nat>, k: nat) {
    IsPermutation(order, |ps|) && Placed(ps, order, k)
    && (forall q :: k <= q < |order| ==> Pending(ps, order[q], Elems(order[..k]), |ps|) > 0)
    && (forall i, j :: k <= i < j < |order| ==> order[i] < order[j])
    && |Roots(ps, |ps|)| <= k && order[..|Roots(ps, |ps|)|] == Roots(ps, |ps|)
  }

  /** The last loop: the positions never visited, in input order, after the emitted ones. */
  method AppendRemaining(n: nat, sorted: seq<nat>, visited: set<nat>) returns (order: seq<nat>)
    ensures order == sorted + Unvisited(visited, n)
  {
    order := sorted;
    for idx := 0 to n
      invariant order == sorted + Unvisited(visited, idx)
    {
      if idx !in visited {
        order := order + [idx];
      }
    }
  }

  /** Appending the unvisited positions to a duplicate-free list of positions gives every position once. */
  lemma CompletePermutation(sorted: seq<nat>, n: nat)
    requires Distinct(sorted) && forall i :: 0 <= i < |sorted| ==> sorted[i] < n
    ensures IsPermutation(sorted + Unvisited(Elems(sorted), n), n)
  {
    var rest := Unvisited(Elems(sorted), n);
    var order := sorted + rest;
    UnvisitedMembers(Elems(sorted), n);
    UnvisitedIncreasing(Elems(sorted), n);
    UnvisitedLength(Elems(sorted), n);
    DistinctCard(sorted);
    assert VisitedBelow(Elems(sorted), n) == Elems(sorted);
    forall i, j | 0 <= i < j < |order|
      ensures order[i] != order[j]
    {
      if j >= |sorted| && i < |sorted| {
        assert order[j] == rest[j - |sorted|] && order[i] in Elems(sorted);
      } else if i >= |sorted| {
        assert order[i] == rest[i - |sorted|] && order[j] == rest[j - |sorted|];
      }
    }
    forall x: nat | x < n
      ensures x in order
    {
      if x in Elems(sorted) {
        var i :| 0 <= i < |sorted| && sorted[i] == x;
        assert order[i] == x;
      } else {
        var i :| 0 <= i < |rest| && rest[i] == x;
        assert order[|sorted| + i] == x;
      }
    }
  }

  /** The unvisited positions appended after the emitted ones wait for an edge and keep input order. */
  lemma LeftoversAppended(ps: seq<Project>, sorted: seq<nat>)
    requires forall x :: 0 <= x < |ps| && x !in Elems(sorted) ==> Pending(ps, x, Elems(sorted), |ps|) > 0
    ensures var order := sorted + Unvisited(Elems(sorted), |ps|);
      (forall q :: |sorted| <= q < |order| ==> order[q] < |ps| && Pending(ps, order[q], Elems(order[..|sorted|]), |ps|) > 0)
      && (forall i, j :: |sorted| <= i < j < |order| ==> order[i] < order[j])
  {
    var rest := Unvisited(Elems(sorted), |ps|);
    var order := sorted + rest;
    UnvisitedMembers(Elems(sorted), |ps|);
    UnvisitedIncreasing(Elems(sorted), |ps|);
    assert order[..|sorted|] == sorted;
    forall q | |sorted| <= q < |order|
      ensures order[q] < |ps| && Pending(ps, order[q], Elems(order[..|sorted|]), |ps|) > 0
    {
      assert order[q] == rest[q - |sorted|];
    }
    forall i, j | |sorted| <= i < j < |order|
      ensures order[i] < order[j]
    {
      assert order[i] == rest[i - |sorted|] && order[j] == rest[j - |sorted|];
    }
  }

  /** Appending keeps the emitted prefix placed. */
  lemma PlacedAppend(ps: seq<Project>, sorted: seq<nat>, rest: seq<nat>)
    requires Placed(ps, sorted, |sorted|)
    ensures Placed(ps, sorted + rest, |sorted|)
  {
    var order := sorted + rest;
    forall p | 0 <= p < |sorted|
      ensures order[p] < |ps| && Pending(ps, order[p], Elems(order[..p]), |ps|) == 0
    {
      assert order[..p] == sorted[..p];
    }
  }

  /** The emitted list followed by the unvisited positions satisfies `ValidOrder`. */
  lemma OrderValid(ps: seq<Project>, sorted: seq<nat>)
    requires Distinct(sorted) && Placed(ps, sorted, |sorted|)
    requires forall x :: 0 <= x < |ps| && x !in Elems(sorted) ==> Pending(ps, x, Elems(sorted), |ps|) > 0
    requires |Roots(ps, |ps|)| <= |sorted| && sorted[..|Roots(ps, |ps|)|] == Roots(ps, |ps|)
    ensures ValidOrder(ps, sorted + Unvisited(Elems(sorted), |ps|), |sorted|)
  {
    var order := sorted + Unvisited(Elems(sorted), |ps|);
    CompletePermutation(sorted, |ps|);
    LeftoversAppended(ps, sorted);
    PlacedAppend(ps, sorted, Unvisited(Elems(sorted), |ps|));
    assert order[..|Roots(ps, |ps|)|] == sorted[..|Roots(ps, |ps|)|];
  }

  /**
   * `sort_by_dependencies` on positions: the indexes, the graph, Kahn's
   * loop and the remaining projects, giving the order in which the
   * projects are returned. `k` counts the entries Kahn's loop emitted.
   */
  method SortedIndices(ps: seq<Project>) returns (order: seq<nat>, ghost k: nat)
    ensures ValidOrder(ps, order, k)
  {
    if |ps| == 0 {
      return [], 0;
    }
    var pathToIndex, nameToIndex := BuildIndexes(ps);
    var graph, inDegree := BuildGraph(ps, pathToIndex, nameToIndex);
    var sorted, visited := Kahn(ps, graph, inDegree);
    order := AppendRemaining(|ps|, sorted, visited);
    k := |sorted|;
    OrderValid(ps, sorted);
  }

  /** `sort_by_dependencies`: the projects rearranged by `SortedIndices`. */
  method SortByDependencies(ps: seq<Project>) returns (sorted: seq<Project>, order: seq<nat>, ghost k: nat)
    ensures ValidOrder(ps, order, k)
    ensures |sorted| == |ps| && forall i :: 0 <= i < |sorted| ==> sorted[i] == ps[order[i]]
  {
    order, k := SortedIndices(ps);
    sorted := seq(|order|, i requires 0 <= i < |order| => ps[order[i]]);
  }

  // ---------------------------------------------------------------------
  // What the order means
  // ---------------------------------------------------------------------

  /** An emitted project comes after every project it depends on. */
  lemma DependenciesComeFirst(ps: seq<Project>, order: seq<nat>, k: nat, p: nat, s: nat)
    requires ValidOrder(ps, order, k) && p < k && s < |ps|
    requires DependsOn(ps, order[p], s)
    ensures s in order[..p]
  {
    PendingZero(ps, order[p], Elems(order[..p]), |ps|);
    CountPositive(ps, order[p], s);
  }

  /** A project the loop did not emit depends on another one it did not emit. */
  lemma LeftoverWaits(ps: seq<Project>, order: seq<nat>, k: nat, q: nat)
    requires ValidOrder(ps, order, k) && k <= q < |order|
    ensures exists r :: k <= r < |order| && DependsOn(ps, order[q], order[r])
  {
    var x := order[q];
    PendingZero(ps, x, Elems(order[..k]), |ps|);
    var s: nat :| s < |ps| && s !in Elems(order[..k]) && Count(ps, x, s) != 0;
    CountPositive(ps, x, s);
    assert s in order;
    var r :| 0 <= r < |order| && order[r] == s;
  }

  /** A project that depends on itself is never emitted by the loop. */
  lemma SelfDependentLeftover(ps: seq<Project>, order: seq<nat>, k: nat, p: nat)
    requires ValidOrder(ps, order, k) && p < |order| && order[p] < |ps|
    requires DependsOn(ps, order[p], order[p])
    ensures p >= k
  {
    if p < k {
      DependenciesComeFirst(ps, order, k, p, order[p]);
      assert false;
    }
  }

  /** The dependency relation has no cycle: a rank drops along every edge. */
  ghost predicate Acyclic(ps: seq<Project>) {
    exists rank: seq<nat> :: |rank| == |ps|
      && forall x, s :: 0 <= x < |ps| && 0 <= s < |ps| && DependsOn(ps, x, s) ==> rank[s] < rank[x]
  }

  /** Every rank among the leftovers is at least `b`, for every `b`. */
  lemma {:induction false} LeftoverRanks(ps: seq<Project>, order: seq<nat>, k: nat, rank: seq<nat>, b: nat)
    requires ValidOrder(ps, order, k) && |rank| == |ps|
    requires forall x, s :: 0 <= x < |ps| && 0 <= s < |ps| && DependsOn(ps, x, s) ==> rank[s] < rank[x]
    ensures forall q :: k <= q < |order| ==> rank[order[q]] >= b
  {
    if b > 0 {
      LeftoverRanks(ps, order, k, rank, b - 1);
      forall q | k <= q < |order|
        ensures rank[order[q]] >= b
      {
        LeftoverWaits(ps, order, k, q);
        var r :| k <= r < |order| && DependsOn(ps, order[q], order[r]);
        assert rank[order[r]] >= b - 1;
      }
    }
  }

  /** Without a cycle, the loop emits every project and no project is appended afterwards. */
  lemma AcyclicSortsAll(ps: seq<Project>, order: seq<nat>, k: nat)
    requires ValidOrder(ps, order, k) && Acyclic(ps)
    ensures k == |ps|
  {
    if k < |ps| {
      var rank: seq<nat> :| |rank| == |ps|
        && forall x, s :: 0 <= x < |ps| && 0 <= s < |ps| && DependsOn(ps, x, s) ==> rank[s] < rank[x];
      LeftoverRanks(ps, order, k, rank, rank[order[k]] + 1);
    }
  }

  /** The projects without a resolvable dependency are exactly the leading ones, in input order. */
  lemma RootsLead(ps: seq<Project>, order: seq<nat>, k: nat)
    requires ValidOrder(ps, order, k)
    ensures forall p :: 0 <= p < |order| ==> (p < |Roots(ps, |ps|)| <==> InitialDegree(ps, order[p]) == 0)
    ensures forall i, j :: 0 <= i < j < |Roots(ps, |ps|)| ==> order[i] < order[j]
  {
    var roots := Roots(ps, |ps|);
    RootsMembers(ps, |ps|);
    RootsIncreasing(ps, |ps|);
    forall p | 0 <= p < |order|
      ensures p < |roots| <==> InitialDegree(ps, order[p]) == 0
    {
      if p < |roots| {
        assert order[p] == roots[p];
      }
    }
    forall i, j | 0 <= i < j < |roots|
      ensures order[i] < order[j]
    {
      assert order[i] == roots[i] && order[j] == roots[j];
    }
  }
}
