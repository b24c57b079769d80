/**
 Whole runs of the parallel scheduler: that every fair one comes to an end, and for which
 configurations no task is ever started over a failed dependency.
 */
module MxRuns {
  import opened Graphs
  import opened MxScheduler

  // ----- every fair run ends -----

  /** A run that goes on for ever; nothing may happen in a step. */
  ghost predicate IsBehaviour(c: Config, b: nat -> State) {
    Init(c, b(0)) && forall k: nat :: Moves(c, b, k)
  }

  ghost predicate Moves(c: Config, b: nat -> State, k: nat) {
    Next(c, b(k), b(k + 1)) || b(k + 1) == b(k)
  }

  ghost predicate StopsAfter(b: nat -> State, t: Name, k: nat) {
    exists m: nat :: m >= k && !IsRunning(b(m).procs, t)
  }

  /** Every process that runs exits some time. */
  ghost predicate ProcessesExit(b: nat -> State) {
    forall k: nat, t | IsRunning(b(k).procs, t) :: StopsAfter(b, t, k)
  }

  ghost predicate MainActs(c: Config, b: nat -> State, k: nat) {
    MainBlocked(b(k)) || MainStep(c, b(k), b(k + 1))
  }

  ghost predicate ActsAfter(c: Config, b: nat -> State, k: nat) {
    exists m: nat :: m >= k && MainActs(c, b, m)
  }

  /** The main thread takes a step again and again unless it is blocked. */
  ghost predicate MainGoesOn(c: Config, b: nat -> State) {
    forall k: nat :: ActsAfter(c, b, k)
  }

  lemma {:induction false} BehaviourInv(c: Config, b: nat -> State, k: nat)
    requires ValidConfig(c) && IsBehaviour(c, b)
    ensures Inv(c, b(k))
  {
    hide Inv;
    hide Next;
    hide Init;
    if k == 0 {
      InitInv(c, b(0));
    } else {
      BehaviourInv(c, b, k - 1);
      assert Moves(c, b, k - 1);
      if Next(c, b(k - 1), b(k)) { NextKeepsInv(c, b(k - 1), b(k)); }
    }
  }

  lemma {:induction false} WorkFalls(c: Config, b: nat -> State, k: nat, m: nat)
    requires ValidConfig(c) && IsBehaviour(c, b) && k <= m
    ensures Work(b(m)) <= Work(b(k)) && (b(m).procs != b(k).procs ==> Work(b(m)) < Work(b(k)))
    decreases m - k
  {
    hide Inv;
    hide Next;
    hide Init;
    hide Work;
    if k < m {
      WorkFalls(c, b, k, m - 1);
      assert Moves(c, b, m - 1);
      if Next(c, b(m - 1), b(m)) {
        BehaviourInv(c, b, m - 1);
        StepWork(c, b(m - 1), b(m));
      }
    }
  }

  /** With nothing running, the next change is a step of the main thread towards the end. */
  lemma {:induction false} QuietMove(c: Config, b: nat -> State, k: nat, m: nat) returns (j: nat)
    requires ValidConfig(c) && IsBehaviour(c, b) && k <= m && !b(k).pc.Finished?
    requires forall t :: !IsRunning(b(k).procs, t)
    requires MainActs(c, b, m)
    ensures Closer(c, b(j), b(k))
    decreases m - k
  {
    hide Inv;
    hide Init;
    hide Closer;
    hide Main;
    hide MainBlocked;
    BehaviourInv(c, b, k);
    QuietStepsTerminate(c, b(k), b(k).worklist);
    assert Moves(c, b, k);
    if b(k + 1) != b(k) || k == m {
      assert !ExitStep(b(k), b(k + 1));
      assert MainStep(c, b(k), b(k + 1));
      var resorted :| Permutes(resorted, b(k).worklist) && b(k + 1) == Main(c, b(k), resorted);
      QuietStepsTerminate(c, b(k), resorted);
      j := k + 1;
    } else {
      j := QuietMove(c, b, k + 1, m);
    }
  }

  /** Every run in which processes exit and the main thread goes on reaches the end of the build. */
  lemma {:induction false} FairRunEnds(c: Config, b: nat -> State, k: nat) returns (m: nat)
    requires ValidConfig(c) && IsBehaviour(c, b) && ProcessesExit(b) && MainGoesOn(c, b)
    ensures b(m).pc.Finished?
    decreases Work(b(k)), Stage(b(k)), Major(b(k)), Minor(c, b(k))
  {
    hide Work;
    hide Stage;
    hide Major;
    hide Minor;
    hide IsBehaviour;
    hide ProcessesExit;
    hide MainGoesOn;
    hide ValidConfig;
    if b(k).pc.Finished? {
      m := k;
    } else if t :| IsRunning(b(k).procs, t) {
      var j := Stopped(b, t, k);
      WorkFalls(c, b, k, j);
      m := FairRunEnds(c, b, j);
    } else {
      var i := Acted(c, b, k);
      var j := QuietMove(c, b, k, i);
      m := FairRunEnds(c, b, j);
    }
  }

  lemma Stopped(b: nat -> State, t: Name, k: nat) returns (m: nat)
    requires ProcessesExit(b) && IsRunning(b(k).procs, t)
    ensures m >= k && b(m).procs != b(k).procs
  {
    assert StopsAfter(b, t, k);
    m :| m >= k && !IsRunning(b(m).procs, t);
  }

  lemma Acted(c: Config, b: nat -> State, k: nat) returns (m: nat)
    requires MainGoesOn(c, b)
    ensures m >= k && MainActs(c, b, m)
  {
    hide MainActs;
    assert ActsAfter(c, b, k);
    m :| m >= k && MainActs(c, b, m);
  }

  // ----- starting over a failed dependency -----

  /** Some run leads to s. */
  ghost predicate Reachable(c: Config, s: State) {
    exists run :: IsRun(c, run) && run[|run| - 1] == s
  }

  lemma ReachableNext(c: Config, s: State, s': State)
    requires Reachable(c, s) && Next(c, s, s')
    ensures Reachable(c, s')
  {
    hide Next;
    hide Init;
    var run :| IsRun(c, run) && run[|run| - 1] == s;
    var longer := run + [s'];
    assert IsRun(c, longer) by {
      forall k | 0 <= k < |longer| - 1
        ensures Next(c, longer[k], longer[k + 1])
      {
        if k < |run| - 1 { assert Next(c, run[k], run[k + 1]); }
      }
    }
  }

  lemma ReachableInv(c: Config, s: State)
    requires ValidConfig(c) && Reachable(c, s)
    ensures Inv(c, s)
  {
    hide Inv;
    var run :| IsRun(c, run) && run[|run| - 1] == s;
    RunInv(c, run, |run| - 1);
  }

  lemma MainReaches(c: Config, s: State, resorted: seq<Name>)
    requires Reachable(c, s) && !MainBlocked(s) && Permutes(resorted, s.worklist)
    ensures Reachable(c, Main(c, s, resorted))
  {
    hide Main;
    hide MainBlocked;
    hide Reachable;
    assert MainStep(c, s, Main(c, s, resorted));
    ReachableNext(c, s, Main(c, s, resorted));
  }

  lemma ExitReaches(c: Config, s: State, t: Name, code: int)
    requires Reachable(c, s) && IsRunning(s.procs, t)
    ensures Reachable(c, s.(procs := s.procs[t := Exited(code)]))
  {
    hide Reachable;
    var s' := s.(procs := s.procs[t := Exited(code)]);
    assert ExitStep(s, s');
    ReachableNext(c, s, s');
  }

  /** In every run, a task that starts has only dependencies that succeeded. */
  ghost predicate SafeStarts(c: Config) {
    forall s, s', t | Reachable(c, s) && Next(c, s, s') && Starts(s, s', t) :: OverSuccess(c, s, t)
  }

  predicate Starts(s: State, s': State, t: Name) {
    !HasStarted(s.procs, t) && HasStarted(s'.procs, t)
  }

  predicate OverSuccess(c: Config, s: State, t: Name) {
    t in c.deps && forall d | d in c.deps[t] :: Succeeded(s.procs, d)
  }

  /** With one processor nothing is tracked when a task starts, so all failures have been seen. */
  lemma OneProcessorSafe(c: Config, s: State, s': State, t: Name)
    requires ValidConfig(c) && Inv(c, s) && Next(c, s, s') && Starts(s, s', t)
    requires c.cpus == 1 || c.deps[t] == []
    ensures OverSuccess(c, s, t)
  {
    StartCondition(c, s, s', t);
    assert s.pc.Deps? && Passing(c, s, s.pc.i);
  }

  // With two processors and a dependency d: d is kept alive, and everything else that starts
  // exits with code 0 at once, until only d is missing.

  ghost predicate Calm(s: State, d: Name) {
    CalmProcs(s.procs, d) && s.failed == []
  }

  ghost predicate CalmProcs(p: Procs, d: Name) {
    (forall t | HasStarted(p, t) && t != d :: Succeeded(p, t)) && !HasExited(p, d)
  }

  lemma CalmStart(p: Procs, t: Name, d: Name)
    requires CalmProcs(p, d) && t in p
    ensures t == d ==> CalmProcs(p[t := Running], d)
    ensures t != d ==> CalmProcs(p[t := Running][t := Exited(0)], d)
    ensures forall u | HasStarted(p, u) ::
              HasStarted(p[t := Running], u) && HasStarted(p[t := Running][t := Exited(0)], u)
  {
    var running, exited := p[t := Running], p[t := Running][t := Exited(0)];
    forall u | u != t
      ensures HasStarted(running, u) <==> HasStarted(p, u)
      ensures HasStarted(exited, u) <==> HasStarted(p, u)
      ensures Succeeded(p, u) ==> Succeeded(running, u) && Succeeded(exited, u)
      ensures HasExited(running, u) || HasExited(exited, u) ==> HasExited(p, u)
    {
    }
    assert HasStarted(running, t) && HasStarted(exited, t) && Succeeded(exited, t) && !HasExited(running, t);
  }

  ghost predicate OnlyOf(a: seq<Name>, d: Name) {
    forall t | t in a :: t == d
  }

  lemma OnlyOfShort(a: seq<Name>, d: Name)
    requires Distinct(a) && OnlyOf(a, d)
    ensures |a| <= 1
  {
    DistinctBound(a, {d});
  }

  /** checkTasks keeps d and drops what has succeeded. */
  lemma {:induction false} CheckCalm(c: Config, s: State, d: Name) returns (s': State)
    requires ValidConfig(c) && c.cpus >= 2 && Reachable(c, s) && Calm(s, d) && s.pc.Check? && OnlyOf(s.pc.alive, d)
    ensures Reachable(c, s') && Calm(s', d) && s'.procs == s.procs && s'.worklist == s.worklist && s'.pc == Pass(0)
    decreases |s.active| - s.pc.i
  {
    hide Reachable;
    hide Init;
    hide ValidConfig;
    ReachableInv(c, s);
    var i, alive := s.pc.i, s.pc.alive;
    MainReaches(c, s, s.worklist);
    var s1 := Main(c, s, s.worklist);
    if i >= |s.active| {
      OnlyOfShort(alive, d);
      MainReaches(c, s1, s1.worklist);
      s' := Main(c, s1, s1.worklist);
    } else if IsRunning(s.procs, s.active[i]) {
      s' := CheckCalm(c, s1, d);
    } else {
      assert s.active[i] in s.active;
      MainReaches(c, s1, s1.worklist);
      s' := CheckCalm(c, Main(c, s1, s1.worklist), d);
    }
  }

  /** A calm pass runs to its end; a task without dependencies that it comes to is started. */
  lemma {:induction false} PassCalm(c: Config, s: State, d: Name) returns (s': State)
    requires ValidConfig(c) && Reachable(c, s) && Calm(s, d) && InPass(s)
    ensures Reachable(c, s') && Calm(s', d) && s'.pc.Resort?
    ensures forall t | HasStarted(s.procs, t) :: HasStarted(s'.procs, t)
    ensures s.pc.i < |s.worklist| && s.worklist[s.pc.i] in c.deps && c.deps[s.worklist[s.pc.i]] == [] ==>
              HasStarted(s'.procs, s.worklist[s.pc.i])
    decreases Major(s), Minor(c, s)
  {
    hide Reachable;
    hide Init;
    hide ValidConfig;
    ReachableInv(c, s);
    MainReaches(c, s, s.worklist);
    var s1 := Main(c, s, s.worklist);
    var i := s.pc.i;
    if s.pc.Deps? && s.pc.j >= |c.deps[s.worklist[i]]| {
      var t := s.worklist[i];
      assert t in s.worklist;
      CalmStart(s.procs, t, d);
      if t != d {
        ExitReaches(c, s1, t, 0);
        s1 := s1.(procs := s1.procs[t := Exited(0)]);
      }
    }
    if s1.pc.Resort? { s' := s1; } else { s' := PassCalm(c, s1, d); }
  }

  /** sortWorklist may put any waiting task first. */
  lemma PutFirst(w: seq<Name>, x: Name) returns (r: seq<Name>)
    requires x in w
    ensures Permutes(r, w) && |r| > 0 && r[0] == x
  {
    var i :| 0 <= i < |w| && w[i] == x;
    r := [x] + w[..i] + w[i + 1..];
    assert w == w[..i] + [x] + w[i + 1..];
  }

  /** From the end of one pass to the beginning of the next, with x first in the worklist. */
  lemma NextPass(c: Config, s: State, d: Name, x: Name) returns (s': State)
    requires ValidConfig(c) && c.cpus >= 2 && Reachable(c, s) && Calm(s, d) && s.pc.Resort? && x in s.worklist
    ensures Reachable(c, s') && Calm(s', d) && s'.procs == s.procs && s'.pc == Pass(0)
    ensures |s'.worklist| > 0 && s'.worklist[0] == x
  {
    hide Reachable;
    hide Permutes;
    var r := PutFirst(s.worklist, x);
    MainReaches(c, s, r);
    s' := ToPass(c, Main(c, s, r), d);
  }

  lemma ToPass(c: Config, s: State, d: Name) returns (s': State)
    requires ValidConfig(c) && c.cpus >= 2 && Reachable(c, s) && Calm(s, d) && s.pc.OuterTest? && s.worklist != []
    ensures Reachable(c, s') && Calm(s', d) && s'.procs == s.procs && s'.worklist == s.worklist && s'.pc == Pass(0)
  {
    hide Reachable;
    MainReaches(c, s, s.worklist);
    s' := CheckCalm(c, Main(c, s, s.worklist), d);
  }

  /** Tasks without dependencies get started, one pass after the other. */
  lemma {:induction false} StartThese(c: Config, s: State, d: Name, xs: seq<Name>) returns (s': State)
    requires ValidConfig(c) && c.cpus >= 2 && Reachable(c, s) && Calm(s, d) && s.pc.Resort?
    requires forall x | x in xs :: x in c.deps && c.deps[x] == []
    ensures Reachable(c, s') && Calm(s', d) && s'.pc.Resort?
    ensures forall t | HasStarted(s.procs, t) :: HasStarted(s'.procs, t)
    ensures forall x | x in xs :: HasStarted(s'.procs, x)
    decreases |xs|
  {
    hide Reachable;
    hide Calm;
    if xs == [] {
      s' := s;
    } else {
      var s1 := StartThese(c, s, d, xs[1..]);
      if HasStarted(s1.procs, xs[0]) {
        s' := s1;
      } else {
        ReachableInv(c, s1);
        var s2 := NextPass(c, s1, d, xs[0]);
        s' := PassCalm(c, s2, d);
      }
      assert forall x | x in xs :: x == xs[0] || x in xs[1..];
    }
  }

  /** A state from which everything can be arranged: the end of the first pass. */
  lemma FirstPass(c: Config, d: Name) returns (s': State)
    requires ValidConfig(c) && c.cpus >= 2 && c.order != []
    ensures Reachable(c, s') && Calm(s', d) && s'.pc.Resort?
  {
    var s := State(map t | t in c.deps :: NotStarted, c.order, [], [], OuterTest);
    assert Reachable(c, s) by {
      assert IsRun(c, [s]);
    }
    hide Reachable;
    hide ValidConfig;
    var s1 := ToPass(c, s, d);
    s' := PassCalm(c, s1, d);
  }

  /** Once all dependencies have exited, the task at hand is started. */
  lemma {:induction false} LookAtDeps(c: Config, s: State) returns (s': State)
    requires Reachable(c, s) && s.pc.Deps? && s.pc.i < |s.worklist| && Ready(c, s.procs, s.worklist[s.pc.i])
    ensures Reachable(c, s') && s'.procs == s.procs && s'.worklist == s.worklist && s'.pc.Deps? && s'.pc.i == s.pc.i
    ensures s'.pc.j >= |c.deps[s.worklist[s.pc.i]]|
    decreases |c.deps[s.worklist[s.pc.i]]| - s.pc.j
  {
    hide Reachable;
    if s.pc.j >= |c.deps[s.worklist[s.pc.i]]| {
      s' := s;
    } else {
      MainReaches(c, s, s.worklist);
      s' := LookAtDeps(c, Main(c, s, s.worklist));
    }
  }

  /** The last dependency fails while the pass is under way, and the task starts. */
  lemma StartOverFailed(c: Config, s: State, t: Name, d: Name) returns (s1: State, s2: State)
    requires ValidConfig(c) && c.cpus >= 2 && Reachable(c, s) && Calm(s, d) && s.pc.Resort?
    requires t in c.deps && d in c.deps[t] && forall x | x in c.deps[t] :: HasStarted(s.procs, x)
    ensures Reachable(c, s1) && Next(c, s1, s2) && Starts(s1, s2, t) && !OverSuccess(c, s1, t)
  {
    hide Reachable;
    hide ValidConfig;
    ReachableInv(c, s);
    assert HasStarted(s.procs, t) ==> Ready(c, s.procs, t);
    assert t in s.worklist;
    var a := NextPass(c, s, d, t);
    ExitReaches(c, a, d, 1);
    var b := a.(procs := a.procs[d := Exited(1)]);
    MainReaches(c, b, b.worklist);
    s1 := LookAtDeps(c, Main(c, b, b.worklist));
    s2 := Main(c, s1, s1.worklist);
    assert MainStep(c, s1, s2);
    assert !Succeeded(s1.procs, d);
  }

  /** The first task of the order that waits for anything waits for tasks that do not. */
  lemma FirstWaiting(c: Config) returns (t: Name)
    requires ValidConfig(c) && exists u :: u in c.deps && c.deps[u] != []
    ensures t in c.deps && c.deps[t] != [] && forall d | d in c.deps[t] :: d in c.deps && c.deps[d] == []
  {
    var u :| u in c.deps && c.deps[u] != [];
    var i :| 0 <= i < |c.order| && c.order[i] == u;
    while exists k :: 0 <= k < i && c.deps[c.order[k]] != []
      invariant 0 <= i < |c.order| && c.deps[c.order[i]] != []
      decreases i
    {
      var k :| 0 <= k < i && c.deps[c.order[k]] != [];
      i := k;
    }
    t := c.order[i];
    forall d | d in c.deps[t]
      ensures d in c.deps && c.deps[d] == []
    {
      assert Edge(c.deps, t, d);
      assert d in c.order[..i];
      var k :| 0 <= k < i && c.order[k] == d;
    }
  }

  /** No task is ever started over a failed dependency exactly when there is one processor only, or
      nothing waits for anything. */
  lemma SafeStartsExact(c: Config)
    requires ValidConfig(c)
    ensures SafeStarts(c) <==> c.cpus == 1 || forall t | t in c.deps :: c.deps[t] == []
  {
    hide Reachable;
    hide Next;
    hide Ordered;
    if c.cpus == 1 || forall t | t in c.deps :: c.deps[t] == [] {
      forall s, s', t | Reachable(c, s) && Next(c, s, s') && Starts(s, s', t)
        ensures OverSuccess(c, s, t)
      {
        ReachableInv(c, s);
        StepAdvances(c, s, s');
        assert t in c.deps;
        OneProcessorSafe(c, s, s', t);
      }
    } else {
      var t := FirstWaiting(c);
      var d := c.deps[t][0];
      assert t in c.order;
      var s := FirstPass(c, d);
      s := StartThese(c, s, d, c.deps[t]);
      var s1, s2 := StartOverFailed(c, s, t, d);
    }
  }
}
