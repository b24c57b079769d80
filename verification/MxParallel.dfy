/**
 Task construction and scheduler together: what a parallel `mx build` guarantees about the
 projects themselves.
 */
module MxParallel {
  import opened Graphs
  import opened MxDeps
  import B = MxBuild
  import S = MxScheduler

  /** What MakeTasks hands over: a task for exactly the projects to rebuild, each waiting for the
      tasks of everything it depends on. */
  ghost predicate Handed(s: Suite, facts: map<Name, B.Facts>, force: bool, sorted: seq<Name>, c: S.Config)
    requires forall p | p in sorted :: p in facts
  {
    && (forall p | p in c.deps :: p in sorted && B.WaitsForAll(s, c.deps, p))
    && (forall p | p in sorted :: p in c.deps <==> B.Affected(s, facts, force, p))
    && S.ValidConfig(c)
  }

  /** The parallel branch of build() up to the scheduling loop. */
  method Prepare(s: Suite, sorted: seq<Name>, facts: map<Name, B.Facts>, force: bool, cpus: nat)
    returns (c: S.Config)
    requires Closed(s, B.BUILD_FLAGS, sorted) && forall p | p in sorted :: p in facts
    requires cpus > 0
    ensures Handed(s, facts, force, sorted, c) && c.cpus == cpus
  {
    hide B.WaitsForAll;
    hide B.Affected;
    hide Ordered;
    var tasks, order := B.MakeTasks(s, sorted, facts, force);
    c := S.Config(tasks, order, cpus);
  }

  /** In every state of every run, a project whose compilation has started depends, directly or
      not, on no project to rebuild whose compilation has not ended. */
  lemma CompiledInOrder(s: Suite, facts: map<Name, B.Facts>, force: bool, sorted: seq<Name>, c: S.Config,
                        run: seq<S.State>, k: nat, p: Name, q: Name)
    requires (forall n | n in sorted :: n in facts) && Handed(s, facts, force, sorted, c)
    requires S.IsRun(c, run) && k < |run| && S.HasStarted(run[k].procs, p)
    requires q in sorted && q != p && Reaches(B.DepGraph(s), p, q) && B.Affected(s, facts, force, q)
    ensures S.HasExited(run[k].procs, q)
  {
    hide Reaches;
    hide B.Affected;
    S.RunInv(c, run, k);
    assert p in c.deps && B.WaitsForAll(s, c.deps, p);
    assert Edge(c.deps, p, q);
    S.RunSafety(c, run, k);
  }

  /** A build that ends without reporting a failure has compiled, with success, exactly the projects
      that had to be rebuilt: whatever can be compiled and is forced or stale, or depends, however
      indirectly, on a project that is. */
  lemma RebuiltAll(s: Suite, facts: map<Name, B.Facts>, force: bool, sorted: seq<Name>, c: S.Config,
                   run: seq<S.State>, p: Name)
    requires (forall n | n in sorted :: n in facts) && Handed(s, facts, force, sorted, c)
    requires S.IsRun(c, run) && run[|run| - 1].pc.Finished? && run[|run| - 1].failed == [] && p in sorted
    ensures S.Succeeded(run[|run| - 1].procs, p) <==> B.Affected(s, facts, force, p)
  {
    hide B.Affected;
    S.BuildOutcome(c, run);
    S.RunInv(c, run, |run| - 1);
  }
}
