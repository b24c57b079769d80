/**
 Which projects `mx build` recompiles, and the compile tasks it makes for them.  Projects are
 visited in dependency order; what the file system says about a project is an input.
 */
module MxBuild {
  import opened Graphs
  import opened MxDeps

  /** Dependencies are followed through annotation processors but not into libraries. */
  const BUILD_FLAGS := Flags(false, false, true)

  /** compiled: a Java project that is to be built at all; hasSources: it has Java files;
      stale: class files are out of date or the annotation processors changed. */
  datatype Facts = Facts(compiled: bool, hasSources: bool, stale: bool)

  function DepGraph(s: Suite): Graph { Edges(s, BUILD_FLAGS) }

  /** p depends, directly or not, on a project with a task. */
  ghost predicate DependsOnTask(s: Suite, tasks: Graph, p: Name) {
    exists q | q in tasks :: q != p && Reaches(DepGraph(s), p, q)
  }

  ghost predicate Rebuilt(s: Suite, facts: map<Name, Facts>, force: bool, tasks: Graph, p: Name)
    requires p in facts
  {
    facts[p].compiled && facts[p].hasSources && (force || facts[p].stale || DependsOnTask(s, tasks, p))
  }

  /** The task of p waits for exactly the tasks of the projects p depends on. */
  ghost predicate WaitsForAll(s: Suite, tasks: Graph, p: Name)
    requires p in tasks
  {
    forall q :: q in tasks[p] <==> q in tasks && q != p && Reaches(DepGraph(s), p, q)
  }

  /** In dependency order a project reaches only itself and earlier projects. */
  lemma ReachesBack(s: Suite, sorted: seq<Name>, i: nat, q: Name)
    requires Closed(s, BUILD_FLAGS, sorted) && i < |sorted| && Reaches(DepGraph(s), sorted[i], q)
    ensures q == sorted[i] || q in sorted[..i]
  {
    var p :| PathFrom(DepGraph(s), sorted[i], q, p);
    PathsGoBack(DepGraph(s), sorted, i, p);
  }

  /** Everything decided about the first i projects is settled by the tasks so far. */
  ghost predicate Settled(s: Suite, facts: map<Name, Facts>, force: bool, sorted: seq<Name>, i: nat, tasks: Graph)
    requires i <= |sorted| && forall p | p in sorted :: p in facts
  {
    && (forall p | p in tasks :: p in sorted[..i] && WaitsForAll(s, tasks, p))
    && forall p | p in sorted[..i] :: p in tasks <==> Rebuilt(s, facts, force, tasks, p)
  }

  /** The earlier projects do not reach the next one. */
  lemma NotReachedYet(s: Suite, sorted: seq<Name>, i: nat)
    requires i < |sorted| && Closed(s, BUILD_FLAGS, sorted)
    ensures sorted[..i + 1] == sorted[..i] + [sorted[i]] && sorted[i] !in sorted[..i]
    ensures forall p | p in sorted[..i] :: !Reaches(DepGraph(s), p, sorted[i])
  {
    forall p | p in sorted[..i] && Reaches(DepGraph(s), p, sorted[i])
      ensures false
    {
      var j :| 0 <= j < i && sorted[j] == p;
      ReachesBack(s, sorted, j, sorted[i]);
    }
  }

  lemma SettleSkip(s: Suite, facts: map<Name, Facts>, force: bool, sorted: seq<Name>, i: nat, tasks: Graph)
    requires i < |sorted| && Closed(s, BUILD_FLAGS, sorted) && forall p | p in sorted :: p in facts
    requires Settled(s, facts, force, sorted, i, tasks) && !Rebuilt(s, facts, force, tasks, sorted[i])
    ensures Settled(s, facts, force, sorted, i + 1, tasks)
  {
    hide Reaches;
    hide Rebuilt;
    hide WaitsForAll;
    NotReachedYet(s, sorted, i);
  }

  lemma DependsUnaffected(s: Suite, tasks: Graph, n: Name, deps: seq<Name>, p: Name)
    requires p == n || !Reaches(DepGraph(s), p, n)
    ensures DependsOnTask(s, tasks, p) <==> DependsOnTask(s, tasks[n := deps], p)
  {
    hide Reaches;
    hide DepGraph;
  }

  /** A new task does not disturb what was decided for earlier projects. */
  lemma SettleAdd(s: Suite, facts: map<Name, Facts>, force: bool, sorted: seq<Name>, i: nat, tasks: Graph,
                  deps: seq<Name>)
    requires i < |sorted| && Closed(s, BUILD_FLAGS, sorted) && forall p | p in sorted :: p in facts
    requires Settled(s, facts, force, sorted, i, tasks) && Rebuilt(s, facts, force, tasks, sorted[i])
    requires forall q :: q in deps <==> q in tasks && q != sorted[i] && Reaches(DepGraph(s), sorted[i], q)
    ensures Settled(s, facts, force, sorted, i + 1, tasks[sorted[i] := deps])
  {
    hide Reaches;
    hide DepGraph;
    var n := sorted[i];
    var tasks' := tasks[n := deps];
    NotReachedYet(s, sorted, i);
    forall p | p == n || p in sorted[..i] {
      DependsUnaffected(s, tasks, n, deps, p);
    }
    forall p | p in tasks'
      ensures WaitsForAll(s, tasks', p)
    {
      if p != n { assert WaitsForAll(s, tasks, p); }
    }
    hide DependsOnTask;
    hide WaitsForAll;
  }

  // ----- the set of tasks in terms of the inputs -----

  /** q is compiled for a reason of its own. */
  predicate Changed(facts: map<Name, Facts>, force: bool, q: Name) {
    q in facts && facts[q].compiled && facts[q].hasSources && (force || facts[q].stale)
  }

  /** p can be compiled and depends, however indirectly, on a project compiled for a reason of its
      own, or is one. */
  ghost predicate Affected(s: Suite, facts: map<Name, Facts>, force: bool, p: Name)
    requires p in facts
  {
    facts[p].compiled && facts[p].hasSources && exists q :: Changed(facts, force, q) && Reaches(DepGraph(s), p, q)
  }

  lemma {:induction false} ClosedForm(s: Suite, facts: map<Name, Facts>, force: bool, sorted: seq<Name>,
                                      tasks: Graph, i: nat)
    requires Closed(s, BUILD_FLAGS, sorted) && i <= |sorted| && forall p | p in sorted :: p in facts
    requires forall p | p in tasks :: p in sorted
    requires forall p | p in sorted :: p in tasks <==> Rebuilt(s, facts, force, tasks, p)
    ensures forall p | p in sorted[..i] :: p in tasks <==> Affected(s, facts, force, p)
    decreases i
  {
    hide Reaches;
    hide DepGraph;
    if i > 0 {
      ClosedForm(s, facts, force, sorted, tasks, i - 1);
      assert sorted[..i] == sorted[..i - 1] + [sorted[i - 1]];
      ClosedFormAt(s, facts, force, sorted, tasks, i - 1);
    }
  }

  lemma ClosedFormAt(s: Suite, facts: map<Name, Facts>, force: bool, sorted: seq<Name>, tasks: Graph, i: nat)
    requires Closed(s, BUILD_FLAGS, sorted) && i < |sorted| && forall p | p in sorted :: p in facts
    requires forall p | p in tasks :: p in sorted
    requires forall p | p in sorted :: p in tasks <==> Rebuilt(s, facts, force, tasks, p)
    requires forall p | p in sorted[..i] :: p in tasks <==> Affected(s, facts, force, p)
    ensures sorted[i] in tasks <==> Affected(s, facts, force, sorted[i])
  {
    hide Reaches;
    hide Closed;
    var g, p := DepGraph(s), sorted[i];
    ReachesSelf(g, p);
    forall q | Reaches(g, p, q)
      ensures q == p || q in sorted[..i]
    {
      ReachesBack(s, sorted, i, q);
    }
    if q :| q in tasks && q != p && Reaches(g, p, q) {
      var q' :| Changed(facts, force, q') && Reaches(g, q, q');
      ReachesTransitive(g, p, q, q');
    }
    if q :| Changed(facts, force, q) && q != p && Reaches(g, p, q) {
      ReachesSelf(g, q);
      assert q in tasks;
    }
  }

  /** The loop over the sorted projects in build(). */
  method MakeTasks(s: Suite, sorted: seq<Name>, facts: map<Name, Facts>, force: bool)
    returns (tasks: Graph, order: seq<Name>)
    requires Closed(s, BUILD_FLAGS, sorted) && forall p | p in sorted :: p in facts
    ensures forall p | p in tasks :: p in sorted && WaitsForAll(s, tasks, p)
    ensures forall p | p in sorted :: p in tasks <==> Affected(s, facts, force, p)
    ensures Ordered(tasks, order) && tasks.Keys == set p | p in order
    ensures forall p | p in sorted :: p in s && s[p].Project?
    ensures forall p, c | p in sorted && c in tasks && (c in s[p].deps || c in s[p].processors) ::
              facts[p].compiled && facts[p].hasSources ==> p in tasks && c in tasks[p]
  {
    hide Reaches;
    hide Edges;
    hide Ordered;
    hide Named;
    hide Wanted;
    tasks, order := map[], [];
    NoTasks();
    for i := 0 to |sorted|
      invariant Settled(s, facts, force, sorted, i, tasks)
      invariant Ordered(tasks, order) && tasks.Keys == set p | p in order
    {
      var p := sorted[i];
      if !facts[p].compiled {
        SettleSkip(s, facts, force, sorted, i, tasks);
        continue;
      }
      NotReachedYet(s, sorted, i);
      var deps := TaskDeps(s, sorted, p, tasks);
      var reason := force || deps != [] || facts[p].stale;
      if !reason || !facts[p].hasSources {
        SettleSkip(s, facts, force, sorted, i, tasks);
        continue;
      }
      SettleAdd(s, facts, force, sorted, i, tasks, deps);
      AppendTask(tasks, order, p, deps);
      tasks, order := tasks[p := deps], order + [p];
    }
    assert sorted[..|sorted|] == sorted;
    ClosedForm(s, facts, force, sorted, tasks, |sorted|);
    OnlyProjects(s, sorted);
    forall p, c | p in sorted && c in tasks && (c in s[p].deps || c in s[p].processors)
      ensures facts[p].compiled && facts[p].hasSources ==> p in tasks && c in tasks[p]
    {
      DirectDependency(s, sorted, p, c);
      assert c in sorted && Affected(s, facts, force, c);
      var q :| Changed(facts, force, q) && Reaches(DepGraph(s), c, q);
      ReachesTransitive(DepGraph(s), p, c, q);
    }
  }

  /** No library gets into the list of what is to be built. */
  lemma OnlyProjects(s: Suite, sorted: seq<Name>)
    requires Closed(s, BUILD_FLAGS, sorted)
    ensures forall p | p in sorted :: p in s && s[p].Project?
  {
    ClosedNamed(s, BUILD_FLAGS, sorted);
  }

  /** Annotation processors count as dependencies. */
  lemma DirectDependency(s: Suite, sorted: seq<Name>, p: Name, c: Name)
    requires Closed(s, BUILD_FLAGS, sorted) && p in sorted && c in sorted && p in s && s[p].Project?
    requires c in s[p].deps || c in s[p].processors
    ensures c != p && Reaches(DepGraph(s), p, c)
  {
    hide Edges;
    ClosedNamed(s, BUILD_FLAGS, sorted);
    ChildrenAreNamed(s, BUILD_FLAGS, p);
    ChildEdges(s, BUILD_FLAGS, p);
    assert Named(s, BUILD_FLAGS, p, c);
    EdgePath(DepGraph(s), p, c);
  }

  lemma NoTasks()
    ensures Ordered(map[], [])
  {
  }

  /** The tasks among the transitive dependencies of p, in the order all_deps lists them. */
  method TaskDeps(s: Suite, sorted: seq<Name>, p: Name, tasks: Graph) returns (deps: seq<Name>)
    requires Closed(s, BUILD_FLAGS, sorted) && p in sorted && p !in tasks
    ensures forall q :: q in deps <==> q in tasks && q != p && Reaches(DepGraph(s), p, q)
    ensures deps != [] <==> DependsOnTask(s, tasks, p)
  {
    hide Endless;
    hide Ends;
    hide ReachesCycle;
    hide ReachesFault;
    hide Explains;
    var list := new DepList(s, BUILD_FLAGS);
    OrderedClosed(DepGraph(s), sorted, p);
    assert Sound(s, BUILD_FLAGS, p);
    var r := list.AllDeps(p, true);
    deps := [];
    for i := 0 to |list.deps|
      invariant forall q :: q in deps <==> q in list.deps[..i] && q in tasks
    {
      if list.deps[i] in tasks { deps := deps + [list.deps[i]]; }
    }
    assert list.deps[..|list.deps|] == list.deps;
    if deps != [] { assert deps[0] in deps; }
  }

  lemma AppendTask(tasks: Graph, order: seq<Name>, p: Name, deps: seq<Name>)
    requires Ordered(tasks, order) && tasks.Keys == (set q | q in order) && p !in tasks
    requires forall q | q in deps :: q in tasks
    ensures Ordered(tasks[p := deps], order + [p])
    ensures tasks[p := deps].Keys == set q | q in order + [p]
  {
    var t, o := tasks[p := deps], order + [p];
    forall i, b | 0 <= i < |o| && Edge(t, o[i], b)
      ensures b in o[..i]
    {
      if i < |order| {
        assert o[..i] == order[..i] && order[i] in order;
        assert Edge(tasks, order[i], b);
      } else {
        assert o[..i] == order;
      }
    }
  }

  /** The graph handed to the scheduler has no cycle. */
  lemma TasksAcyclic(tasks: Graph, order: seq<Name>, p: Name)
    requires Ordered(tasks, order) && p in order
    ensures !OnCycle(tasks, p)
  {
    OrderedClosed(tasks, order, p);
    ReachesSelf(tasks, p);
  }
}
